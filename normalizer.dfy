/** The message normaliser `clean_text`: lower-case, drop punctuation, split
    on whitespace, drop stop-words, stem what is left and join the stems with
    single spaces. The stemmer and the stop-word list come from a language
    library whose code is not part of this model; they are carried as the
    fields of `Resources`. */
module Normalizer {
  import opened Strings

  /** Python's `string.punctuation`: the 32 ASCII punctuation characters. */
  const Punctuation: string := "!\"#$%&'()*+,-./:;<=>?@[\\]^_`{|}~"

  /** Membership in `Punctuation`, stated by code-point range. */
  predicate IsPunctuation(c: char) {
    33 <= c as int <= 47 || 58 <= c as int <= 64 || 91 <= c as int <= 96 || 123 <= c as int <= 126
  }

  predicate NoPunctuation(s: string) {
    forall c | c in s :: !IsPunctuation(c)
  }

  /** The stemmer and the stop-word set the normaliser is built with. */
  datatype Resources = Resources(stem: string -> string, stopWords: set<string>)

  /** The range test and the 32-character constant agree. */
  lemma PunctuationRanges(c: char)
    ensures IsPunctuation(c) <==> c in Punctuation
  {
  }

  /** `''.join([ch for ch in text if ch not in string.punctuation])`. */
  function RemovePunctuation(s: string): (r: string)
    ensures NoPunctuation(r)
    ensures forall c | c in r :: c in s
    ensures |r| <= |s|
  {
    if s == [] then []
    else
      (if IsPunctuation(s[0]) then [] else [s[0]]) + RemovePunctuation(s[1..])
  }

  /** The filter works piece by piece, so the characters it keeps stay in
      their original order. */
  lemma {:induction false} RemovePunctuationAppend(a: string, b: string)
    ensures RemovePunctuation(a + b) == RemovePunctuation(a) + RemovePunctuation(b)
  {
    if a != [] {
      assert (a + b)[0] == a[0] && (a + b)[1..] == a[1..] + b;
      RemovePunctuationAppend(a[1..], b);
    } else {
      assert a + b == b;
    }
  }

  /** Every character that is not punctuation survives the filter as often
      as it occurs in the input; punctuation does not survive at all. */
  lemma {:induction false} RemovePunctuationCounts(s: string, c: char)
    ensures multiset(RemovePunctuation(s))[c] == if IsPunctuation(c) then 0 else multiset(s)[c]
  {
    if s != [] {
      RemovePunctuationCounts(s[1..], c);
      assert s == [s[0]] + s[1..];
    }
  }

  /** Text without punctuation passes the filter unchanged. */
  lemma {:induction false} RemovePunctuationKeeps(s: string)
    requires NoPunctuation(s)
    ensures RemovePunctuation(s) == s
  {
    if s != [] {
      assert s[0] in s;
      RemovePunctuationKeeps(s[1..]);
    }
  }

  /** The whitespace-split tokens that the stop-word test sees. */
  function Tokens(text: string): (ts: seq<string>)
    ensures Words(ts)
    ensures forall i, c | 0 <= i < |ts| && c in ts[i] :: !IsUpper(c) && !IsPunctuation(c)
  {
    Split(RemovePunctuation(Lower(text)))
  }

  /** `[stemmer.stem(w) for w in tokens if w not in stop_words]`: the
      stop-word test is made on the token before it is stemmed. */
  function StemKept(res: Resources, ts: seq<string>): (ws: seq<string>)
    ensures |ws| <= |ts|
  {
    if ts == [] then []
    else (if ts[0] in res.stopWords then [] else [res.stem(ts[0])]) + StemKept(res, ts[1..])
  }

  /** Every output word is the stem of a token that is not a stop-word. */
  lemma {:induction false} StemKeptFrom(res: Resources, ts: seq<string>)
    ensures forall i | 0 <= i < |StemKept(res, ts)| ::
              exists j | 0 <= j < |ts| :: ts[j] !in res.stopWords && StemKept(res, ts)[i] == res.stem(ts[j])
  {
    if ts != [] {
      StemKeptFrom(res, ts[1..]);
      var ws, rest := StemKept(res, ts), StemKept(res, ts[1..]);
      var d := |ws| - |rest|;
      forall i | 0 <= i < |ws|
        ensures exists j | 0 <= j < |ts| :: ts[j] !in res.stopWords && ws[i] == res.stem(ts[j])
      {
        if i < d {
          assert ws[i] == res.stem(ts[0]);
        } else {
          var j :| 0 <= j < |ts[1..]| && ts[1..][j] !in res.stopWords && rest[i - d] == res.stem(ts[1..][j]);
          assert ws[i] == rest[i - d] && ts[1..][j] == ts[j + 1];
        }
      }
    } else {
      assert StemKept(res, ts) == [];
    }
  }

  /** The stem of every token that is not a stop-word is in the output. */
  lemma {:induction false} StemKeptCovers(res: Resources, ts: seq<string>)
    ensures forall j | 0 <= j < |ts| && ts[j] !in res.stopWords :: res.stem(ts[j]) in StemKept(res, ts)
  {
    if ts != [] {
      StemKeptCovers(res, ts[1..]);
      forall j | 1 <= j < |ts| && ts[j] !in res.stopWords
        ensures res.stem(ts[j]) in StemKept(res, ts)
      {
        assert ts[j] == ts[1..][j - 1];
      }
    }
  }

  /** Each further token adds its stem at the end, unless the token itself
      is a stop-word: a token is dropped or kept before it is stemmed. */
  lemma {:induction false} StemKeptAppend(res: Resources, ts: seq<string>, t: string)
    ensures StemKept(res, ts + [t]) ==
            StemKept(res, ts) + (if t in res.stopWords then [] else [res.stem(t)])
  {
    if ts != [] {
      assert (ts + [t])[1..] == ts[1..] + [t];
      StemKeptAppend(res, ts[1..], t);
    }
  }

  /** With no stop-word among the tokens, every token is stemmed in place. */
  lemma {:induction false} StemKeptAll(res: Resources, ts: seq<string>)
    requires forall j | 0 <= j < |ts| :: ts[j] !in res.stopWords
    ensures |StemKept(res, ts)| == |ts|
    ensures forall j | 0 <= j < |ts| :: StemKept(res, ts)[j] == res.stem(ts[j])
  {
    if ts != [] {
      StemKeptAll(res, ts[1..]);
    }
  }

  /** `clean_text(text)`: the stems of the tokens that are not stop-words,
      joined by single spaces. A message whose every token is a stop-word
      (or that has no token at all) normalises to ""; every other character
      of the result comes from the stem of a kept token. */
  function CleanText(res: Resources, text: string): (r: string)
    ensures (forall j | 0 <= j < |Tokens(text)| :: Tokens(text)[j] in res.stopWords) ==> r == ""
    ensures forall c | c in r ::
              c == ' ' || exists j | 0 <= j < |Tokens(text)| ::
                            Tokens(text)[j] !in res.stopWords && c in res.stem(Tokens(text)[j])
  {
    var ts := Tokens(text);
    var ws := StemKept(res, ts);
    StemKeptFrom(res, ts);
    assert (forall j | 0 <= j < |ts| :: ts[j] in res.stopWords) ==> ws == [] by {
      if ws != [] {
        assert 0 <= 0 < |ws|;
        assert exists j | 0 <= j < |ts| :: ts[j] !in res.stopWords && ws[0] == res.stem(ts[j]);
        var j :| 0 <= j < |ts| && ts[j] !in res.stopWords && ws[0] == res.stem(ts[j]);
      }
    }
    assert forall c | c in Join(ws) :: c == ' ' || exists j | 0 <= j < |ts| :: ts[j] !in res.stopWords && c in res.stem(ts[j]) by {
      forall c | c in Join(ws) && c != ' '
        ensures exists j | 0 <= j < |ts| :: ts[j] !in res.stopWords && c in res.stem(ts[j])
      {
        var i :| 0 <= i < |ws| && c in ws[i];
        var j :| 0 <= j < |ts| && ts[j] !in res.stopWords && ws[i] == res.stem(ts[j]);
      }
    }
    Join(ws)
  }

  /** Text made only of whitespace and punctuation, the empty text
      included, normalises to the empty string. */
  lemma CleanTextOfBlank(res: Resources, text: string)
    requires forall c | c in text :: IsSpace(c) || IsPunctuation(c)
    ensures CleanText(res, text) == ""
  {
    var low := Lower(text);
    forall c | c in low
      ensures IsSpace(c) || IsPunctuation(c)
    {
      var i :| 0 <= i < |low| && low[i] == c;
      assert text[i] in text;
    }
    assert AllSpace(RemovePunctuation(low));
  }

  /** When every kept stem is non-empty and holds no whitespace, the result
      is single-spaced and splitting it again gives back exactly the stems,
      in order. */
  lemma CleanTextIsJoinedStems(res: Resources, text: string)
    requires forall t | t in Tokens(text) && t !in res.stopWords :: res.stem(t) != [] && NoSpace(res.stem(t))
    ensures SingleSpaced(CleanText(res, text))
    ensures Split(CleanText(res, text)) == StemKept(res, Tokens(text))
  {
    var ts := Tokens(text);
    var ws := StemKept(res, ts);
    StemKeptFrom(res, ts);
    forall i | 0 <= i < |ws|
      ensures ws[i] != [] && NoSpace(ws[i]) && ' ' !in ws[i]
    {
      var j :| 0 <= j < |ts| && ts[j] !in res.stopWords && ws[i] == res.stem(ts[j]);
      assert ts[j] in ts;
    }
    JoinSingleSpaced(ws);
    SplitJoin(ws);
  }

  /** Stems that behave as a second pass needs them to: for every kept token
      of `text` the stem is a non-empty lower-case word without punctuation
      or whitespace, is not itself a stop-word, and stems to itself. */
  predicate StableStems(res: Resources, text: string) {
    forall t | t in Tokens(text) && t !in res.stopWords ::
      res.stem(t) != [] && NoSpace(res.stem(t)) && NoUpper(res.stem(t))
      && NoPunctuation(res.stem(t)) && res.stem(t) !in res.stopWords
      && res.stem(res.stem(t)) == res.stem(t)
  }

  /** Under `StableStems`, normalising normalised text changes nothing. The
      normaliser does not promise this for every stemmer and stop-word list;
      see `StemOntoStopWord`. */
  lemma CleanTextTwice(res: Resources, text: string)
    requires StableStems(res, text)
    ensures CleanText(res, CleanText(res, text)) == CleanText(res, text)
  {
    var ts := Tokens(text);
    var ws := StemKept(res, ts);
    var s := Join(ws);
    StemKeptFrom(res, ts);
    forall i | 0 <= i < |ws|
      ensures ws[i] != [] && NoSpace(ws[i]) && NoUpper(ws[i]) && NoPunctuation(ws[i])
      ensures ws[i] !in res.stopWords && res.stem(ws[i]) == ws[i]
    {
      var j :| 0 <= j < |ts| && ts[j] !in res.stopWords && ws[i] == res.stem(ts[j]);
      assert ts[j] in ts;
    }
    assert NoUpper(s) && NoPunctuation(s) by {
      forall c | c in s
        ensures !IsUpper(c) && !IsPunctuation(c)
      {
        if c != ' ' {
          var i :| 0 <= i < |ws| && c in ws[i];
        }
      }
    }
    LowerOfLower(s);
    RemovePunctuationKeeps(s);
    SplitJoin(ws);
    assert Tokens(s) == ws;
    StemKeptAll(res, ws);
    assert StemKept(res, ws) == ws;
  }

  /** A single clean word (non-empty, no capitals, punctuation or
      whitespace) is its own token list. */
  lemma TokensOfWord(w: string)
    requires w != [] && NoSpace(w) && NoUpper(w) && NoPunctuation(w)
    ensures Tokens(w) == [w]
  {
    LowerOfLower(w);
    RemovePunctuationKeeps(w);
    SplitFirstWord(w, []);
    assert w + [] == w;
  }

  /** A stemmer that maps a kept token `t` onto a stop-word makes a second
      pass drop that word: `t` normalises to `stem(t)`, and `stem(t)`
      normalises to "". So the normaliser is not idempotent in general. */
  lemma StemOntoStopWord(res: Resources, t: string)
    requires t != [] && NoSpace(t) && NoUpper(t) && NoPunctuation(t)
    requires t !in res.stopWords
    requires res.stem(t) != [] && NoSpace(res.stem(t)) && NoUpper(res.stem(t)) && NoPunctuation(res.stem(t))
    requires res.stem(t) in res.stopWords
    ensures CleanText(res, t) == res.stem(t)
    ensures CleanText(res, CleanText(res, t)) == ""
  {
    var st := res.stem(t);
    TokensOfWord(t);
    TokensOfWord(st);
    assert StemKept(res, [t]) == [st];
    assert StemKept(res, [st]) == [];
  }
}
