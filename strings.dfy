/** The Python `str` operations that the message normaliser and the page
    handler rely on: `lower()`, `strip()`, `split()` with no separator,
    `' '.join(...)` and the substring test `k in s`. Characters are handled
    as ASCII: only 'A'..'Z' change case, and whitespace is the set of ASCII
    characters for which Python's `str.isspace()` holds. */
module Strings {

  /** Space, the controls \t \n \v \f \r (9..13) and the separators 0x1C..0x1F. */
  predicate IsSpace(c: char) {
    c == ' ' || 9 <= c as int <= 13 || 28 <= c as int <= 31
  }

  predicate IsUpper(c: char) {
    'A' <= c <= 'Z'
  }

  predicate NoSpace(s: string) {
    forall c | c in s :: !IsSpace(c)
  }

  predicate AllSpace(s: string) {
    forall c | c in s :: IsSpace(c)
  }

  predicate NoUpper(s: string) {
    forall c | c in s :: !IsUpper(c)
  }

  function LowerChar(c: char): char {
    if IsUpper(c) then (c as int + 32) as char else c
  }

  /** `s.lower()`: each ASCII capital becomes its small letter, every other
      character is kept where it is. */
  function Lower(s: string): (r: string)
    ensures |r| == |s|
    ensures forall i | 0 <= i < |s| :: r[i] == LowerChar(s[i])
    ensures NoUpper(r)
    ensures forall i | 0 <= i < |s| :: IsUpper(s[i]) ==> 'a' <= r[i] <= 'z'
    ensures forall i | 0 <= i < |s| :: !IsUpper(s[i]) ==> r[i] == s[i]
  {
    if s == [] then [] else [LowerChar(s[0])] + Lower(s[1..])
  }

  /** Text without capitals is left unchanged by `lower()`. */
  lemma LowerOfLower(s: string)
    requires NoUpper(s)
    ensures Lower(s) == s
  {
  }

  /** `s.lstrip()`. */
  function TrimStart(s: string): (r: string)
    ensures |r| <= |s| && r == s[|s| - |r|..]
    ensures AllSpace(s[..|s| - |r|])
    ensures r == [] || !IsSpace(r[0])
  {
    if s != [] && IsSpace(s[0]) then TrimStart(s[1..]) else s
  }

  /** `s.rstrip()`. */
  function TrimEnd(s: string): (r: string)
    ensures |r| <= |s| && r == s[..|r|]
    ensures AllSpace(s[|r|..])
    ensures r == [] || !IsSpace(r[|r| - 1])
  {
    if s != [] && IsSpace(s[|s| - 1]) then TrimEnd(s[..|s| - 1]) else s
  }

  /** `s.strip()`: the text between the leading and the trailing whitespace.
      It is empty exactly when the text is whitespace only. */
  function Strip(s: string): (r: string)
    ensures r == [] || (!IsSpace(r[0]) && !IsSpace(r[|r| - 1]))
    ensures r == [] <==> AllSpace(s)
  {
    var t := TrimStart(s);
    assert s == s[..|s| - |t|] + t;
    TrimEnd(t)
  }

  /** The run of non-whitespace characters at the front of `s`. */
  function LeadingWord(s: string): (w: string)
    ensures |w| <= |s| && w == s[..|w|]
    ensures NoSpace(w)
    ensures |w| == |s| || IsSpace(s[|w|])
  {
    if s == [] || IsSpace(s[0]) then [] else [s[0]] + LeadingWord(s[1..])
  }

  /** Each word is non-empty and holds no whitespace: what `split()` yields. */
  predicate Words(ws: seq<string>) {
    forall i | 0 <= i < |ws| :: ws[i] != [] && NoSpace(ws[i])
  }

  /** `s.split()`: the maximal runs of non-whitespace characters, in order;
      runs of whitespace of any length separate them and no token is empty. */
  function Split(s: string): (ws: seq<string>)
    ensures Words(ws)
    ensures forall i, c | 0 <= i < |ws| && c in ws[i] :: c in s
    ensures ws == [] <==> AllSpace(s)
    decreases |s|
  {
    if s == [] then []
    else if IsSpace(s[0]) then
      assert forall c | c in s[1..] :: c in s;
      Split(s[1..])
    else
      var w := LeadingWord(s);
      assert s == w + s[|w|..];
      assert forall c | c in s[|w|..] :: c in s;
      assert s[0] in w;
      [w] + Split(s[|w|..])
  }

  /** `' '.join(ws)`. */
  function Join(ws: seq<string>): (s: string)
    ensures ws == [] ==> s == []
    ensures forall c | c in s :: c == ' ' || exists i | 0 <= i < |ws| :: c in ws[i]
  {
    if ws == [] then []
    else if |ws| == 1 then ws[0]
    else ws[0] + " " + Join(ws[1..])
  }

  /** Words separated by single spaces, with no space at either end. */
  predicate SingleSpaced(s: string) {
    (s == [] || (s[0] != ' ' && s[|s| - 1] != ' '))
    && forall i | 0 <= i < |s| - 1 :: !(s[i] == ' ' && s[i + 1] == ' ')
  }

  /** The leading word of a space-free word followed by whitespace or nothing
      is that word. */
  lemma {:induction false} LeadingWordOf(a: string, t: string)
    requires NoSpace(a)
    requires t == [] || IsSpace(t[0])
    ensures LeadingWord(a + t) == a
  {
    if a != [] {
      assert a[0] in a;
      assert (a + t)[1..] == a[1..] + t;
      LeadingWordOf(a[1..], t);
    }
  }

  /** Whitespace at the front does not change the split. */
  lemma SplitSkipsSpace(c: char, t: string)
    requires IsSpace(c)
    ensures Split([c] + t) == Split(t)
  {
    assert ([c] + t)[1..] == t;
  }

  /** A space-free word followed by whitespace or nothing is split off whole. */
  lemma SplitFirstWord(w: string, t: string)
    requires w != [] && NoSpace(w)
    requires t == [] || IsSpace(t[0])
    ensures Split(w + t) == [w] + Split(t)
  {
    var s := w + t;
    assert s[0] == w[0] && w[0] in w;
    LeadingWordOf(w, t);
    assert s[|w|..] == t;
  }

  /** Joining non-empty, space-free words with ' ' and splitting the result
      gives the words back. */
  lemma {:induction false} SplitJoin(ws: seq<string>)
    requires Words(ws)
    ensures Split(Join(ws)) == ws
  {
    if |ws| == 1 {
      SplitFirstWord(ws[0], []);
      assert ws[0] + [] == ws[0];
    } else if |ws| > 1 {
      var w, rest := ws[0], Join(ws[1..]);
      assert Join(ws) == w + ([' '] + rest);
      SplitFirstWord(w, [' '] + rest);
      SplitSkipsSpace(' ', rest);
      SplitJoin(ws[1..]);
    }
  }

  /** The first and the last character of a join of non-empty words. */
  lemma {:induction false} JoinEnds(ws: seq<string>)
    requires ws != []
    requires forall i | 0 <= i < |ws| :: ws[i] != []
    ensures Join(ws) != []
    ensures Join(ws)[0] == ws[0][0]
    ensures Join(ws)[|Join(ws)| - 1] == ws[|ws| - 1][|ws[|ws| - 1]| - 1]
  {
    if |ws| > 1 {
      JoinEnds(ws[1..]);
    }
  }

  /** Joining non-empty words that hold no ' ' yields single-spaced text. */
  lemma {:induction false} JoinSingleSpaced(ws: seq<string>)
    requires forall i | 0 <= i < |ws| :: ws[i] != [] && ' ' !in ws[i]
    ensures SingleSpaced(Join(ws))
  {
    if |ws| == 1 {
      assert ws[0][0] in ws[0] && ws[0][|ws[0]| - 1] in ws[0];
      var s := ws[0];
      forall i | 0 <= i < |s| - 1
        ensures !(s[i] == ' ' && s[i + 1] == ' ')
      {
        assert s[i] in s;
      }
    } else if |ws| > 1 {
      var a, b := ws[0], Join(ws[1..]);
      JoinSingleSpaced(ws[1..]);
      JoinEnds(ws[1..]);
      var s := a + " " + b;
      assert s == Join(ws);
      assert s[0] == a[0] && a[0] in a;
      assert s[|s| - 1] == b[|b| - 1];
      forall i | 0 <= i < |s| - 1
        ensures !(s[i] == ' ' && s[i + 1] == ' ')
      {
        if i < |a| {
          assert s[i] == a[i] && a[i] in a;
        } else if i == |a| {
          assert s[i + 1] == b[0];
        } else {
          assert s[i] == b[i - |a| - 1] && s[i + 1] == b[i - |a|];
        }
      }
    }
  }

  /** `k` occurs in `s` starting at index `i`. */
  predicate OccursAt(s: string, k: string, i: int) {
    0 <= i && i + |k| <= |s| && s[i..i + |k|] == k
  }

  lemma OccursAtShift(s: string, k: string)
    requires s != []
    ensures forall i | 1 <= i :: OccursAt(s, k, i) <==> OccursAt(s[1..], k, i - 1)
  {
    forall i | 1 <= i
      ensures OccursAt(s, k, i) <==> OccursAt(s[1..], k, i - 1)
    {
      assert |s[1..]| == |s| - 1;
      if i + |k| <= |s| {
        assert s[1..][i - 1..i - 1 + |k|] == s[i..i + |k|];
      }
    }
  }

  /** Every character of `s` inside an occurrence of `k` is a character of `k`. */
  lemma OccursAtCovers(s: string, k: string, i: int, j: int)
    requires OccursAt(s, k, i) && i <= j < i + |k|
    ensures s[j] in k
  {
    assert s[j] == k[j - i];
  }

  /** Python's `k in s` on strings: `k` occurs in `s` as a contiguous run. */
  function Contains(s: string, k: string): (b: bool)
    ensures b <==> exists i :: OccursAt(s, k, i)
    decreases |s|
  {
    if k <= s then
      assert OccursAt(s, k, 0);
      true
    else if s == [] then false
    else
      assert !OccursAt(s, k, 0);
      OccursAtShift(s, k);
      var b := Contains(s[1..], k);
      assert b ==> exists i :: OccursAt(s, k, i) by {
        if b {
          var i :| OccursAt(s[1..], k, i);
          assert OccursAt(s, k, i + 1);
        }
      }
      b
  }

  /** An occurrence in a part of a text is an occurrence in the text. */
  lemma ContainsInConcat(a: string, b: string, k: string)
    ensures Contains(a, k) ==> Contains(a + b, k)
    ensures Contains(b, k) ==> Contains(a + b, k)
  {
    if Contains(a, k) {
      var i :| OccursAt(a, k, i);
      assert (a + b)[i..i + |k|] == a[i..i + |k|];
      assert OccursAt(a + b, k, i);
    }
    if Contains(b, k) {
      var i :| OccursAt(b, k, i);
      assert (a + b)[|a| + i..|a| + i + |k|] == b[i..i + |k|];
      assert OccursAt(a + b, k, |a| + i);
    }
  }

  /** A non-empty run without spaces that occurs in `a + " " + b` occurs in
      `a` or in `b`: it cannot straddle the separator. */
  lemma ContainsAcrossSpace(a: string, b: string, k: string)
    requires k != [] && ' ' !in k
    requires Contains(a + " " + b, k)
    ensures Contains(a, k) || Contains(b, k)
  {
    var s := a + " " + b;
    var i :| OccursAt(s, k, i);
    if i + |k| <= |a| {
      assert a[i..i + |k|] == s[i..i + |k|];
      assert OccursAt(a, k, i);
    } else if i <= |a| {
      assert s[|a|] == ' ';
      OccursAtCovers(s, k, i, |a|);
      assert false;
    } else {
      var j := i - |a| - 1;
      assert s[|a| + 1..] == b;
      assert s[i..i + |k|] == s[|a| + 1..][j..j + |k|];
      assert OccursAt(b, k, i - |a| - 1);
    }
  }

  /** On joined text the substring test for a non-empty keyword without
      spaces holds exactly when some joined word contains the keyword. */
  lemma {:induction false} JoinContains(ws: seq<string>, k: string)
    requires k != [] && ' ' !in k
    ensures Contains(Join(ws), k) <==> exists i | 0 <= i < |ws| :: Contains(ws[i], k)
  {
    if |ws| > 1 {
      var a, b := ws[0], Join(ws[1..]);
      assert Join(ws) == a + " " + b;
      JoinContains(ws[1..], k);
      ContainsInConcat(a + " ", b, k);
      ContainsInConcat(a, " " + b, k);
      assert a + " " + b == a + (" " + b);
      if Contains(Join(ws), k) {
        ContainsAcrossSpace(a, b, k);
        if Contains(b, k) {
          var j :| 0 <= j < |ws| - 1 && Contains(ws[1..][j], k);
          assert Contains(ws[j + 1], k);
        }
      }
      if exists i | 0 <= i < |ws| :: Contains(ws[i], k) {
        var i :| 0 <= i < |ws| && Contains(ws[i], k);
        if i > 0 {
          assert Contains(ws[1..][i - 1], k);
        }
      }
    }
  }
}
