/** The verdict path of the web page: `predict_message` (a keyword override
    before the fitted classifier) and the handler that guards against blank
    input and turns the returned label into one of two rendered states. */
module Detector {
  import opened Strings
  import opened Normalizer

  /** `spam_keywords`, in the order the override tests them. */
  const SpamKeywords: seq<string> :=
    ["lottery", "congratulations", "offer", "free", "win", "prize", "click", "money"]

  /** The loaded artifact: the fitted vectoriser and classifier together,
      seen only through the label they assign to normalised text. */
  datatype Artifact = Artifact(classify: string -> string)

  /** What the page is built with at start-up and then only reads. */
  datatype App = App(nltk: Resources, artifact: Artifact)

  /** `any(word in msg for word in keywords)`. */
  function AnyKeyword(keywords: seq<string>, msg: string): (b: bool)
    ensures b <==> exists i | 0 <= i < |keywords| :: Contains(msg, keywords[i])
  {
    if keywords == [] then false
    else
      assert forall i | 1 <= i < |keywords| :: keywords[i] == keywords[1..][i - 1];
      Contains(msg, keywords[0]) || AnyKeyword(keywords[1..], msg)
  }

  /** The two ways `predict_message` can reach its answer. */
  datatype Decision = Overridden | Classified(predicted: string) {
    /** The string `predict_message` returns: the classifier's label as it
        is, or the override's "Spam", which lower-cases to "spam". */
    function Label(): (r: string)
      ensures Classified? ==> r == predicted
      ensures Overridden? ==> r == "Spam"
      ensures Overridden? ==> Lower(r) == "spam"
    {
      match this
      case Overridden =>
        var low := Lower("Spam");
        assert low[0] == 's' && low[1] == 'p' && low[2] == 'a' && low[3] == 'm';
        assert low == "spam";
        "Spam"
      case Classified(l) => l
    }
  }

  /** Normalise, test the keywords on the whole normalised string, and only
      when none occurs ask the classifier about that same string. */
  function Decide(app: App, message: string): (d: Decision)
    ensures d.Overridden? <==>
              exists i | 0 <= i < |SpamKeywords| :: Contains(CleanText(app.nltk, message), SpamKeywords[i])
  {
    var msg := CleanText(app.nltk, message);
    if AnyKeyword(SpamKeywords, msg) then Overridden
    else Classified(app.artifact.classify(msg))
  }

  /** `predict_message(message)`: "Spam" when a keyword occurs in the
      normalised message, otherwise the classifier's label for the
      normalised message. */
  function PredictMessage(app: App, message: string): (r: string)
    ensures (exists i | 0 <= i < |SpamKeywords| :: Contains(CleanText(app.nltk, message), SpamKeywords[i])) ==>
              r == "Spam"
    ensures (forall i | 0 <= i < |SpamKeywords| :: !Contains(CleanText(app.nltk, message), SpamKeywords[i])) ==>
              r == app.artifact.classify(CleanText(app.nltk, message))
  {
    Decide(app, message).Label()
  }

  /** A keyword in the normalised text decides "Spam" whatever the
      classifier would say: two artifacts give the same answer. */
  lemma OverrideIgnoresClassifier(nltk: Resources, a1: Artifact, a2: Artifact, message: string)
    requires exists i | 0 <= i < |SpamKeywords| :: Contains(CleanText(nltk, message), SpamKeywords[i])
    ensures PredictMessage(App(nltk, a1), message) == "Spam"
    ensures PredictMessage(App(nltk, a2), message) == "Spam"
  {
  }

  /** Without a keyword the answer is the classifier's label for the
      normalised text, not for the raw message. */
  lemma ClassifierSeesCleanText(app: App, message: string)
    requires forall i | 0 <= i < |SpamKeywords| :: !Contains(CleanText(app.nltk, message), SpamKeywords[i])
    ensures Decide(app, message) == Classified(app.artifact.classify(CleanText(app.nltk, message)))
    ensures PredictMessage(app, message) == app.artifact.classify(CleanText(app.nltk, message))
  {
  }

  /** Every keyword is a non-empty lower-case word without spaces. */
  lemma KeywordsAreWords()
    ensures forall i | 0 <= i < |SpamKeywords| ::
              SpamKeywords[i] != [] && ' ' !in SpamKeywords[i] && NoUpper(SpamKeywords[i])
  {
  }

  /** A keyword occurs in words joined by spaces exactly when it occurs
      inside one of the words. */
  lemma KeywordInJoin(ws: seq<string>)
    ensures (exists i | 0 <= i < |SpamKeywords| :: Contains(Join(ws), SpamKeywords[i])) <==>
            (exists i, j | 0 <= i < |SpamKeywords| && 0 <= j < |ws| :: Contains(ws[j], SpamKeywords[i]))
  {
    KeywordsAreWords();
    forall i | 0 <= i < |SpamKeywords|
      ensures Contains(Join(ws), SpamKeywords[i]) <==> exists j | 0 <= j < |ws| :: Contains(ws[j], SpamKeywords[i])
    {
      JoinContains(ws, SpamKeywords[i]);
    }
  }

  /** The override is a substring test on the joined stems, so it fires
      exactly when some kept stem contains a keyword anywhere inside it:
      "win" in "window" counts, a keyword never spans two stems. */
  lemma OverrideIffStemContainsKeyword(app: App, message: string)
    ensures Decide(app, message).Overridden? <==>
              exists i, j | 0 <= i < |SpamKeywords| && 0 <= j < |StemKept(app.nltk, Tokens(message))| ::
                Contains(StemKept(app.nltk, Tokens(message))[j], SpamKeywords[i])
  {
    var ws := StemKept(app.nltk, Tokens(message));
    var msg := CleanText(app.nltk, message);
    assert msg == Join(ws);
    KeywordInJoin(ws);
    assert (exists i | 0 <= i < |SpamKeywords| :: Contains(msg, SpamKeywords[i])) <==>
           (exists i | 0 <= i < |SpamKeywords| :: Contains(Join(ws), SpamKeywords[i]));
    assert Decide(app, message).Overridden? <==>
           exists i | 0 <= i < |SpamKeywords| :: Contains(msg, SpamKeywords[i]);
    if Decide(app, message).Overridden? {
      var i, j :| 0 <= i < |SpamKeywords| && 0 <= j < |ws| && Contains(ws[j], SpamKeywords[i]);
      assert Contains(StemKept(app.nltk, Tokens(message))[j], SpamKeywords[i]);
      assert exists i', j' | 0 <= i' < |SpamKeywords| && 0 <= j' < |StemKept(app.nltk, Tokens(message))| ::
               Contains(StemKept(app.nltk, Tokens(message))[j'], SpamKeywords[i']);
    } else if exists i, j | 0 <= i < |SpamKeywords| && 0 <= j < |ws| :: Contains(ws[j], SpamKeywords[i]) {
      assert false;
    }
  }

  /** A keyword inside a longer word matches. */
  lemma KeywordInsideWord()
    ensures AnyKeyword(SpamKeywords, "window")
  {
    assert OccursAt("window", "win", 0);
  }

  /** The empty normalised text holds no keyword. */
  lemma NoKeywordInEmpty()
    ensures !AnyKeyword(SpamKeywords, "")
  {
    KeywordsAreWords();
  }

  /** The two rendered states and the warning for blank input. */
  datatype Screen = Warning | SpamDetected | SafeMessage

  /** `result.lower() == "spam"` picks one of the two rendered states. */
  function Render(result: string): (s: Screen)
    ensures s != Warning
  {
    if Lower(result) == "spam" then SpamDetected else SafeMessage
  }

  /** The button handler. Blank input (`input_msg.strip() == ""`) shows the
      warning and nothing is predicted. Any other input is rendered from
      `predict_message`: the override always as spam, a classifier label as
      spam exactly when it lower-cases to "spam". */
  function Analyze(app: App, input: string): (r: Screen)
    ensures r == Warning <==> AllSpace(input)
    ensures !AllSpace(input) && Decide(app, input).Overridden? ==> r == SpamDetected
    ensures !AllSpace(input) && Decide(app, input).Classified? ==>
              (r == SpamDetected <==> Lower(app.artifact.classify(CleanText(app.nltk, input))) == "spam")
  {
    if Strip(input) == "" then Warning
    else Render(PredictMessage(app, input))
  }

  /** Input of punctuation only passes the blank guard but normalises to
      the empty string, so the classifier is asked about "". */
  lemma PunctuationOnlyReachesClassifier(app: App, input: string)
    requires input != []
    requires forall c | c in input :: IsPunctuation(c)
    ensures Decide(app, input) == Classified(app.artifact.classify(""))
    ensures Analyze(app, input) == (if Lower(app.artifact.classify("")) == "spam" then SpamDetected else SafeMessage)
  {
    CleanTextOfBlank(app.nltk, input);
    NoKeywordInEmpty();
    assert input[0] in input;
    assert !AllSpace(input);
  }
}
