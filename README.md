# SMS spam detector: normaliser and verdict path

This project models the deterministic part of a small SMS spam classifier.
A message is normalised by `clean_text`:

1. lower-case it;
2. drop the 32 characters of Python's `string.punctuation`;
3. split it on runs of whitespace;
4. drop the stop-words;
5. stem every remaining token and join the stems with single spaces.

`predict_message` then answers `"Spam"` when any of eight literal keywords
occurs as a substring of the normalised text. Otherwise it returns the fitted
classifier's label for that text. The page handler rejects blank input with a
warning. It shows "spam detected" exactly when the returned label, lower-cased,
equals `"spam"`. The training script normalises every message with its own
copy of `clean_text` into a `cleaned` column.

Modules:

- `Strings` (`strings.dfy`): the Python `str` operations used: `lower()`,
  `strip()`, `split()`, `' '.join`, and `k in s` on strings.
- `Normalizer` (`normalizer.dfy`): `clean_text` from the page script, split
  into its steps.
- `Detector` (`detector.dfy`): the keyword list, `predict_message` and the
  button handler.
- `Training` (`training.dfy`): the training script's `clean_text` and the
  `cleaned` column.

The library parts are parameters, fixed once at start-up and only read:

- `Normalizer.Resources` holds the stemmer (`stem: string -> string`) and
  the stop-word set.
- `Detector.Artifact` holds the loaded vectoriser-plus-classifier pair,
  seen only as `classify: string -> string` on normalised text.

`Detector.Decide` makes the override explicit as a tagged result. It is either
`Overridden` or `Classified(predicted)`, and `Decision.Label` maps it back to
the string `predict_message` returns.

Three behaviours of the code that are easy to misread:

- The override is Python's substring `in` on the whole normalised string, not
  a token comparison. `"win"` matches inside `"window"`
  (`Detector.KeywordInsideWord`).
- The test runs on the stemmed text. `Detector.OverrideIffStemContainsKeyword`
  proves it fires exactly when some kept stem contains a keyword.
- The normaliser is not idempotent for every stemmer and stop-word list.
  `Normalizer.StemOntoStopWord` shows a stem that is itself a stop-word
  disappearing on a second pass. `Normalizer.CleanTextTwice` proves
  idempotence only under the explicit `StableStems` conditions.

## Model

| member | source | states |
|---|---|---|
| Strings.Lower | AI_SMSDetector/app.py:24 | `lower()` keeps the length, turns every ASCII capital into its small letter, keeps every other character, and leaves no capital |
| Strings.LowerOfLower | AI_SMSDetector/app.py:24 | text without capitals is unchanged by `lower()` |
| Strings.Strip | AI_SMSDetector/app.py:215 | `strip()` leaves no whitespace at either end and is empty exactly when the input is whitespace only |
| Strings.TrimStart | AI_SMSDetector/app.py:215 | `lstrip()` returns a suffix of its input whose first character is not whitespace, and everything it drops is whitespace |
| Strings.TrimEnd | AI_SMSDetector/app.py:215 | `rstrip()` returns a prefix of its input whose last character is not whitespace, and everything it drops is whitespace |
| Strings.Split | AI_SMSDetector/app.py:26 | `split()` yields non-empty tokens without whitespace, made of input characters; it yields none exactly when the input is whitespace only |
| Strings.SplitSkipsSpace | AI_SMSDetector/app.py:26 | leading whitespace does not change the result of `split()` |
| Strings.SplitFirstWord | AI_SMSDetector/app.py:26 | a whitespace-free word followed by whitespace or by nothing is split off whole as the first token |
| Strings.Join | AI_SMSDetector/app.py:27 | `' '.join` of no words is ""; every character of the result is a space or a character of one of the words (its value is pinned by SplitJoin and JoinSingleSpaced) |
| Strings.SplitJoin | AI_SMSDetector/app.py:26-27 | splitting the `' '.join` of non-empty, whitespace-free words gives back exactly those words in order |
| Strings.JoinSingleSpaced | AI_SMSDetector/app.py:27 | joining non-empty words that hold no space gives text with no leading or trailing space and no two adjacent spaces |
| Strings.Contains | AI_SMSDetector/app.py:31 | `k in s` holds exactly when `k` occurs in `s` at some index |
| Strings.JoinContains | AI_SMSDetector/app.py:27-31 | a non-empty keyword without spaces occurs in joined words exactly when it occurs in one of the words |
| Normalizer.PunctuationRanges | AI_SMSDetector/app.py:25 | the 32-character `string.punctuation` constant is exactly the ASCII code points 33-47, 58-64, 91-96 and 123-126 |
| Normalizer.RemovePunctuation | AI_SMSDetector/app.py:25 | the filter leaves no punctuation, only characters of its input, and is no longer than its input |
| Normalizer.RemovePunctuationAppend | AI_SMSDetector/app.py:25 | the filter distributes over concatenation, so the kept characters stay in their original order |
| Normalizer.RemovePunctuationCounts | AI_SMSDetector/app.py:25 | every non-punctuation character keeps its number of occurrences; punctuation keeps none |
| Normalizer.RemovePunctuationKeeps | AI_SMSDetector/app.py:25 | text without punctuation passes the filter unchanged |
| Normalizer.Tokens | AI_SMSDetector/app.py:24-26 | the tokens given to the stop-word test are non-empty, whitespace-free, free of capitals and free of punctuation, because lower-casing and the filter come first |
| Normalizer.StemKept | AI_SMSDetector/app.py:26 | the output has at most as many words as there are tokens |
| Normalizer.StemKeptFrom | AI_SMSDetector/app.py:26 | every output word is the stem of a token that is not a stop-word |
| Normalizer.StemKeptCovers | AI_SMSDetector/app.py:26 | the stem of every token that is not a stop-word is in the output |
| Normalizer.StemKeptAppend | AI_SMSDetector/app.py:26 | one more token appends its stem unless the unstemmed token is a stop-word; this fixes the input order |
| Normalizer.StemKeptAll | AI_SMSDetector/app.py:26 | with no stop-word among the tokens, the output is the stem of each token, position by position |
| Normalizer.CleanText | AI_SMSDetector/app.py:23-27 | `clean_text` is "" when every token is a stop-word; every other character of its result is a space or comes from the stem of a kept token (its properties are in the CleanText* lemmas below) |
| Normalizer.CleanTextOfBlank | AI_SMSDetector/app.py:23-27 | empty, whitespace-only, punctuation-only and mixed whitespace-and-punctuation text normalises to "" |
| Normalizer.CleanTextIsJoinedStems | AI_SMSDetector/app.py:26-27 | when kept stems are non-empty and whitespace-free, the result is single-spaced and splits back into exactly the stems |
| Normalizer.CleanTextTwice | AI_SMSDetector/app.py:23-27 | under the stated stem conditions, normalising normalised text changes nothing |
| Normalizer.TokensOfWord | AI_SMSDetector/app.py:24-26 | a non-empty word without capitals, punctuation or whitespace is its own single token |
| Normalizer.StemOntoStopWord | AI_SMSDetector/app.py:26-27 | for any clean single-word message `t` that is not a stop-word but whose stem is a clean stop-word, `clean_text(t)` is the stem and `clean_text(clean_text(t))` is "", so a second pass changes the result |
| Detector.AnyKeyword | AI_SMSDetector/app.py:31 | `any(...)` holds exactly when some keyword is a substring of the text |
| Detector.KeywordsAreWords | AI_SMSDetector/app.py:21 | every keyword is non-empty, lower-case and without spaces |
| Detector.Decide | AI_SMSDetector/app.py:29-34 | the decision is the override exactly when a keyword is a substring of the normalised message |
| Detector.Decision.Label | AI_SMSDetector/app.py:32-34 | the returned string is the classifier's label as it is, or exactly "Spam" for the override, which lower-cases to "spam" |
| Detector.PredictMessage | AI_SMSDetector/app.py:29-34 | `predict_message` returns "Spam" when a keyword is a substring of the normalised message, and otherwise the classifier's label for the normalised message |
| Detector.OverrideIgnoresClassifier | AI_SMSDetector/app.py:30-32 | with a keyword in the normalised text the answer is "Spam" for any classifier |
| Detector.ClassifierSeesCleanText | AI_SMSDetector/app.py:30-34 | without a keyword the answer is the classifier's label for the normalised text |
| Detector.OverrideIffStemContainsKeyword | AI_SMSDetector/app.py:26-31 | the override fires exactly when some kept stem contains a keyword as a substring |
| Detector.KeywordInsideWord | AI_SMSDetector/app.py:31 | a keyword inside a longer word ("win" in "window") matches |
| Detector.NoKeywordInEmpty | AI_SMSDetector/app.py:21 | the empty normalised text contains no keyword |
| Detector.KeywordInJoin | AI_SMSDetector/app.py:27-31 | some keyword occurs in words joined by spaces exactly when some keyword occurs inside one of the words |
| Detector.Analyze | AI_SMSDetector/app.py:214-223 | the warning is shown exactly for whitespace-only input, the empty input included, and then nothing is predicted; for other input the override always renders as spam, and a classifier label renders as spam exactly when it lower-cases to "spam" |
| Detector.PunctuationOnlyReachesClassifier | AI_SMSDetector/app.py:215-223 | non-empty punctuation-only input passes the blank guard, normalises to "" and is decided by the classifier's label for "" |
| Training.CleanText | AI_SMSDetector/train_model.py:26-30 | the training script's own `clean_text`, built with the same stemmer and stop-words, equals the page's normaliser on every input |
| Training.CleanedColumn | AI_SMSDetector/train_model.py:32 | the cleaned column has one entry per message, and entry `i` is message `i` normalised |
| Training.CleanedRow | AI_SMSDetector/train_model.py:28-32 | a cleaned row is what the page's normaliser makes of that message; blank or punctuation-only messages become "" |

## Left out

- The stemmer (NLTK's Porter stemmer) and the English stop-word list are library code and data. They are parameters (`Normalizer.Resources`), and no specific stem is asserted.
- The vectoriser and the bagged naive-Bayes classifier are floating-point numerics, randomised resampling and library fits. The only thing modelled is the label they return for normalised text (`Detector.Artifact.classify`). The train/test split, the accuracy figures and the classification report are not modelled.
- Loading and saving the model artifact, downloading the stop-word corpus, and reading the CSV dataset are file and network I/O.
- The page's layout, styling, spinner and half-second delay are UI. The page is reduced to the three outcomes of the button handler (`Detector.Screen`).
- Strings.Lower: only ASCII capitals are lower-cased. Python's `str.lower()` also lower-cases non-ASCII letters.
- Strings.Split: whitespace is restricted to the ASCII characters that Python's `str.isspace()` accepts (space, 9-13, 28-31). Non-ASCII whitespace, such as U+00A0, also separates tokens in Python.
- Strings.Strip: uses the same ASCII whitespace set as Strings.Split.
- Training.CleanText: its equality with the page's normaliser assumes both scripts get the same stemmer and stop-word list. Each script builds its own (AI_SMSDetector/app.py:17-18, AI_SMSDetector/train_model.py:23-24), and they differ if the two runs load different NLTK data.
