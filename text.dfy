/**
 * The Python string builtins the crawler relies on: `str.split()` with no
 * argument, `str.strip()` and `sep.join(words)`, over the whitespace set of
 * `str.isspace`, together with what makes `" ".join(s.split())` a normaliser.
 */
module Text {

  /** Python's whitespace: the characters for which `str.isspace()` holds. */
  predicate IsSpace(c: char) {
    var n := c as int;
    (9 <= n <= 13) || (28 <= n <= 32) || n == 0x85 || n == 0xA0 || n == 0x1680
    || (0x2000 <= n <= 0x200A) || n == 0x2028 || n == 0x2029 || n == 0x202F
    || n == 0x205F || n == 0x3000
  }

  /** A string in which no character is whitespace. */
  predicate NoSpace(s: string) {
    forall i :: 0 <= i < |s| ==> !IsSpace(s[i])
  }

  /** What `str.split()` can return as one element: a non-empty run of non-whitespace. */
  predicate IsWord(w: string) {
    w != [] && NoSpace(w)
  }

  predicate AllWords(ws: seq<string>) {
    forall i :: 0 <= i < |ws| ==> IsWord(ws[i])
  }

  /** `s.lstrip()`: drops the leading whitespace. */
  function LStrip(s: string): (r: string)
    ensures |r| <= |s|
    ensures r == [] || !IsSpace(r[0])
    ensures forall i :: 0 <= i < |s| - |r| ==> IsSpace(s[i])
  {
    if s != [] && IsSpace(s[0]) then LStrip(s[1..]) else s
  }

  /** `s.rstrip()`: drops the trailing whitespace. */
  function RStrip(s: string): (r: string)
    ensures |r| <= |s| && r == s[..|r|]
    ensures r == [] || !IsSpace(r[|r| - 1])
    ensures forall i :: |r| <= i < |s| ==> IsSpace(s[i])
  {
    if s != [] && IsSpace(s[|s| - 1]) then RStrip(s[..|s| - 1]) else s
  }

  /** `s.strip()`: neither end of the result is whitespace. */
  function Strip(s: string): (r: string)
    ensures |r| <= |s|
    ensures r == [] || (!IsSpace(r[0]) && !IsSpace(r[|r| - 1]))
  {
    RStrip(LStrip(s))
  }

  /** The longest prefix of `s` that holds no whitespace. */
  function WordPrefix(s: string): (w: string)
    ensures |w| <= |s| && w == s[..|w|]
    ensures NoSpace(w)
    ensures |w| == |s| || IsSpace(s[|w|])
    ensures s != [] && !IsSpace(s[0]) ==> w != []
  {
    if s == [] || IsSpace(s[0]) then [] else [s[0]] + WordPrefix(s[1..])
  }

  /** `s.split()`: the maximal runs of non-whitespace characters, in order. */
  function Split(s: string): (ws: seq<string>)
    ensures AllWords(ws)
    decreases |s|
  {
    var t := LStrip(s);
    if t == [] then []
    else
      var w := WordPrefix(t);
      var rest := Split(t[|w|..]);
      AllWordsCons(w, rest);
      [w] + rest
  }

  /** `sep.join(ws)`. */
  function Join(sep: string, ws: seq<string>): string {
    if ws == [] then ""
    else if |ws| == 1 then ws[0]
    else ws[0] + (sep + Join(sep, ws[1..]))
  }

  /** `" ".join(s.split())`: always a normalised string. */
  function Normalise(s: string): (r: string)
    ensures Normalised(r)
  {
    JoinWordsNormalised(Split(s));
    Join(" ", Split(s))
  }

  /**
   * A normalised string: no leading or trailing whitespace, no whitespace
   * other than the plain space, and never two whitespace characters in a row.
   */
  predicate Normalised(s: string) {
    && (s == [] || (!IsSpace(s[0]) && !IsSpace(s[|s| - 1])))
    && (forall i :: 0 <= i < |s| && IsSpace(s[i]) ==> s[i] == ' ')
    && (forall i :: 0 <= i < |s| - 1 && IsSpace(s[i]) ==> !IsSpace(s[i + 1]))
  }

  // ---------------------------------------------------------------------
  // Small facts about the building blocks

  lemma AllWordsCons(w: string, ws: seq<string>)
    requires IsWord(w) && AllWords(ws)
    ensures AllWords([w] + ws)
  {
  }

  /** Appending to a non-empty sequence keeps its first element and extends its tail. */
  lemma TailAppend<T>(s: seq<T>, y: seq<T>)
    requires s != []
    ensures (s + y)[0] == s[0] && (s + y)[1..] == s[1..] + y
  {
  }

  /** `s.lstrip()` keeps a suffix of `s`: it only removes characters from the front. */
  lemma {:induction false} LStripSuffix(s: string)
    ensures LStrip(s) == s[|s| - |LStrip(s)|..]
  {
    if s != [] && IsSpace(s[0]) {
      LStripSuffix(s[1..]);
      assert s[1..][|s| - 1 - |LStrip(s)|..] == s[|s| - |LStrip(s)|..];
    }
  }

  lemma LStripNoLeadingSpace(s: string)
    requires s == [] || !IsSpace(s[0])
    ensures LStrip(s) == s
  {
  }

  lemma LStripSpace(c: char, s: string)
    requires IsSpace(c)
    ensures LStrip([c] + s) == LStrip(s)
  {
    assert ([c] + s)[1..] == s;
  }

  lemma {:induction false} LStripAppend(s: string, y: string)
    requires LStrip(s) != []
    ensures LStrip(s + y) == LStrip(s) + y
    decreases |s|
  {
    if s != [] && IsSpace(s[0]) {
      TailAppend(s, y);
      LStripAppend(s[1..], y);
    } else {
      TailAppend(s, y);
    }
  }

  lemma {:induction false} WordPrefixOf(w: string, x: string)
    requires NoSpace(w)
    requires x == [] || IsSpace(x[0])
    ensures WordPrefix(w + x) == w
    decreases |w|
  {
    if w == [] {
      assert w + x == x;
    } else {
      TailAppend(w, x);
      WordPrefixOf(w[1..], x);
      HeadTail(w);
    }
  }

  lemma SplitSpace(c: char, s: string)
    requires IsSpace(c)
    ensures Split([c] + s) == Split(s)
  {
    LStripSpace(c, s);
  }

  /** A word followed by whitespace or by nothing is the first element of the split. */
  lemma SplitWordFirst(w: string, x: string)
    requires IsWord(w)
    requires x == [] || IsSpace(x[0])
    ensures Split(w + x) == [w] + Split(x)
  {
    var s := w + x;
    assert s[0] == w[0];
    LStripNoLeadingSpace(s);
    WordPrefixOf(w, x);
    assert s[|w|..] == x;
  }

  lemma {:induction false} SplitTrailingSpace(x: string, c: char)
    requires IsSpace(c)
    ensures Split(x + [c]) == Split(x)
    decreases |x|
  {
    var t := LStrip(x);
    if t == [] {
      assert forall i :: 0 <= i < |x + [c]| ==> IsSpace((x + [c])[i]);
      AllSpaceStrips(x + [c]);
    } else {
      LStripAppend(x, [c]);
      SplitLStrip(x + [c]);
      SplitLStrip(x);
      var w := WordPrefix(t);
      var rest := t[|w|..];
      Cut(t, |w|);
      AppendAssoc(w, rest, [c]);
      if |w| < |t| {
        assert rest[0] == t[|w|];
        SplitWordFirst(w, rest);
        SplitWordFirst(w, rest + [c]);
        SplitTrailingSpace(rest, c);
      } else {
        Whole(t, |w|);
        SplitWordFirst(t, []);
        SplitWordFirst(t, [c]);
        SplitSpace(c, []);
        AppendEmpty(t);
        AppendEmpty([c]);
      }
    }
  }

  lemma {:induction false} AllSpaceStrips(s: string)
    requires forall i :: 0 <= i < |s| ==> IsSpace(s[i])
    ensures LStrip(s) == []
    decreases |s|
  {
    if s != [] {
      AllSpaceStrips(s[1..]);
    }
  }

  lemma {:induction false} SplitLStrip(s: string)
    ensures Split(LStrip(s)) == Split(s)
    decreases |s|
  {
    if s != [] && IsSpace(s[0]) {
      assert s == [s[0]] + s[1..];
      SplitSpace(s[0], s[1..]);
      SplitLStrip(s[1..]);
    }
  }

  lemma {:induction false} SplitRStrip(s: string)
    ensures Split(RStrip(s)) == Split(s)
    decreases |s|
  {
    if s != [] && IsSpace(s[|s| - 1]) {
      var x := s[..|s| - 1];
      assert s == x + [s[|s| - 1]];
      SplitTrailingSpace(x, s[|s| - 1]);
      SplitRStrip(x);
    }
  }

  /** `s.strip()` before `split()` changes nothing: the words are the same. */
  lemma SplitStrip(s: string)
    ensures Split(Strip(s)) == Split(s)
  {
    SplitRStrip(LStrip(s));
    SplitLStrip(s);
  }

  /** A non-empty sequence is its head followed by its tail. */
  lemma HeadTail<T>(s: seq<T>)
    requires s != []
    ensures [s[0]] + s[1..] == s
  {
  }

  /** Slicing at the length keeps everything before the cut and nothing after it. */
  lemma Whole<T>(s: seq<T>, n: nat)
    requires n == |s|
    ensures s[..n] == s && s[n..] == []
  {
  }

  /** A sequence is its prefix up to a cut followed by the rest. */
  lemma Cut<T>(s: seq<T>, n: nat)
    requires n <= |s|
    ensures s[..n] + s[n..] == s
  {
  }

  /** In `a + (b + c)`, `a` is a prefix and `c` is the suffix of its length. */
  lemma Ends<T>(a: seq<T>, b: seq<T>, c: seq<T>)
    ensures a <= a + (b + c)
    ensures |c| <= |a + (b + c)| && (a + (b + c))[|a + (b + c)| - |c|..] == c
  {
    assert (a + (b + c))[..|a|] == a;
  }

  /** A prefix that reaches past the first part keeps all of it. */
  lemma PrefixOfAppend<T>(a: seq<T>, b: seq<T>, n: nat)
    requires |a| <= n <= |a| + |b|
    ensures (a + b)[..n] == a + b[..n - |a|]
  {
  }

  /** A prefix that stops within the first part does not see the second. */
  lemma TakeOfAppend<T>(a: seq<T>, b: seq<T>, n: nat)
    requires n <= |a|
    ensures (a + b)[..n] == a[..n]
  {
  }

  /** Growing a prefix by one element appends that element. */
  lemma TakeSnoc<T>(s: seq<T>, k: nat)
    requires k < |s|
    ensures s[..k + 1] == s[..k] + [s[k]]
  {
  }

  lemma AppendEmpty<T>(s: seq<T>)
    ensures s + [] == s
  {
  }

  /** Concatenation regrouped. */
  lemma AppendAssoc<T>(a: seq<T>, b: seq<T>, c: seq<T>)
    ensures (a + b) + c == a + (b + c)
  {
  }

  lemma JoinCons(sep: string, w: string, ws: seq<string>)
    requires ws != []
    ensures Join(sep, [w] + ws) == w + (sep + Join(sep, ws))
  {
    assert ([w] + ws)[1..] == ws;
  }

  // ---------------------------------------------------------------------
  // Properties of the normaliser

  /** Joining words with one space gives a normalised string that starts and ends with a word. */
  lemma {:induction false} JoinWordsNormalised(ws: seq<string>)
    requires AllWords(ws)
    ensures Normalised(Join(" ", ws))
    ensures ws != [] ==> Join(" ", ws) != [] && Join(" ", ws)[0] == ws[0][0]
  {
    if |ws| > 1 {
      var w, rest := ws[0], ws[1..];
      assert IsWord(w);
      JoinWordsNormalised(rest);
      var j := Join(" ", rest);
      assert IsWord(rest[0]);
      var s := w + (" " + j);
      assert Join(" ", ws) == s;
      assert s[0] == w[0];
      assert s[|s| - 1] == j[|j| - 1];
      forall i | 0 <= i < |s| && IsSpace(s[i]) ensures s[i] == ' ' {
        if i > |w| { assert s[i] == j[i - |w| - 1]; }
      }
      assert forall i :: 0 <= i < |w| ==> s[i] == w[i];
      forall i | |w| <= i < |s| - 1 && IsSpace(s[i]) ensures !IsSpace(s[i + 1]) {
        if i == |w| {
          assert s[i + 1] == j[0];
        } else {
          assert s[i] == j[i - |w| - 1] && s[i + 1] == j[i - |w|];
        }
      }
    }
  }

  /** Splitting words joined by single spaces gives the words back. */
  lemma {:induction false} SplitJoin(ws: seq<string>)
    requires AllWords(ws)
    ensures Split(Join(" ", ws)) == ws
  {
    if ws != [] {
      var w := ws[0];
      assert IsWord(w);
      if |ws| == 1 {
        AppendEmpty(w);
        SplitWordFirst(w, []);
        Whole(ws, 1);
        HeadTail(ws);
        AppendEmpty([w]);
      } else {
        var rest := ws[1..];
        var j := Join(" ", rest);
        var x := [' '] + j;
        assert Join(" ", ws) == w + x;
        assert x[0] == ' ';
        SplitWordFirst(w, x);
        SplitSpace(' ', j);
        SplitJoin(rest);
        HeadTail(ws);
      }
    }
  }

  /** A normalised string is rebuilt exactly from its words. */
  lemma {:induction false} JoinSplitNormalised(s: string)
    requires Normalised(s)
    ensures Join(" ", Split(s)) == s
    decreases |s|
  {
    if s != [] {
      var w := WordPrefix(s);
      assert w != [];
      if |w| == |s| {
        assert w == s && s + [] == s;
        SplitWordFirst(s, []);
      } else {
        assert s[|w|] == ' ';
        assert |w| + 1 < |s|;
        var rest := s[|w| + 1..];
        Cut(s, |w|);
        HeadTail(s[|w|..]);
        assert s[|w|..][1..] == rest;
        SplitWordFirst(w, [' '] + rest);
        SplitSpace(' ', rest);
        NormalisedSuffix(s, |w| + 1);
        JoinSplitNormalised(rest);
        assert rest[0] == s[|w| + 1];
        SplitNonEmpty(rest);
        JoinCons(" ", w, Split(rest));
      }
    }
  }

  lemma SplitNonEmpty(s: string)
    requires s != [] && !IsSpace(s[0])
    ensures Split(s) != []
  {
    LStripNoLeadingSpace(s);
  }

  lemma NormalisedSuffix(s: string, k: nat)
    requires Normalised(s) && 0 < k <= |s|
    requires k < |s| ==> !IsSpace(s[k])
    ensures Normalised(s[k..])
  {
    var t := s[k..];
    forall i | 0 <= i < |t| - 1 && IsSpace(t[i]) ensures !IsSpace(t[i + 1]) {
      assert t[i] == s[k + i] && t[i + 1] == s[k + i + 1];
    }
  }

  /** Normalising keeps the words and their order. */
  lemma NormaliseKeepsWords(s: string)
    ensures Split(Normalise(s)) == Split(s)
  {
    SplitJoin(Split(s));
  }

  /** Normalising twice is normalising once. */
  lemma NormaliseIdempotent(s: string)
    ensures Normalise(Normalise(s)) == Normalise(s)
  {
    NormaliseKeepsWords(s);
  }

  /** The strings the normaliser leaves alone are exactly the normalised ones. */
  lemma NormaliseFixedPoints(s: string)
    ensures Normalise(s) == s <==> Normalised(s)
  {
    if Normalised(s) {
      JoinSplitNormalised(s);
    }
  }
}
