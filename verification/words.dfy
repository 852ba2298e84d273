/** Word lists as Python builds them: `str.split()` with no separator and `' '.join(...)`. */
module Words {
  import opened Chars

  /** A word as `str.split()` yields it: non-empty and free of whitespace. */
  predicate IsToken(w: string) {
    |w| > 0 && forall i :: 0 <= i < |w| ==> !IsSpace(w[i])
  }

  predicate AllTokens(ws: seq<string>) {
    forall i :: 0 <= i < |ws| ==> IsToken(ws[i])
  }

  /** `s` without its leading whitespace. */
  function SkipSpaces(s: string): (r: string)
    ensures |r| <= |s| && r == s[|s| - |r|..]
    ensures r != [] ==> !IsSpace(r[0])
    ensures forall i :: 0 <= i < |s| - |r| ==> IsSpace(s[i])
  {
    if s != [] && IsSpace(s[0]) then
      var r := SkipSpaces(s[1..]);
      assert forall i :: 1 <= i < |s| - |r| ==> s[i] == s[1..][i - 1];
      r
    else s
  }

  /** Length of the longest whitespace-free prefix of `s`. */
  function RunLength(s: string): (n: nat)
    ensures n <= |s|
    ensures n < |s| ==> IsSpace(s[n])
  {
    if s == [] || IsSpace(s[0]) then 0 else 1 + RunLength(s[1..])
  }

  /** The run holds no whitespace. */
  lemma {:induction false} RunLengthNoSpace(s: string)
    ensures forall i :: 0 <= i < RunLength(s) ==> !IsSpace(s[i])
  {
    if s != [] && !IsSpace(s[0]) {
      RunLengthNoSpace(s[1..]);
      assert forall i :: 1 <= i < RunLength(s) ==> s[i] == s[1..][i - 1];
    }
  }

  /** Python's `s.split()`: the maximal runs of non-whitespace, left to right;
      leading and trailing whitespace yields no empty words. */
  function Split(s: string): (ws: seq<string>)
    ensures AllTokens(ws)
    decreases |s|
  {
    var t := SkipSpaces(s);
    if t == [] then []
    else
      var n := RunLength(t);
      var rest := Split(t[n..]);
      RunIsToken(t);
      AllTokensCons(t[..n], rest);
      [t[..n]] + rest
  }

  lemma AllTokensCons(w: string, ws: seq<string>)
    requires IsToken(w) && AllTokens(ws)
    ensures AllTokens([w] + ws)
  {
    forall i | 0 <= i < |ws| + 1
      ensures IsToken(([w] + ws)[i])
    {
      if i > 0 {
        assert ([w] + ws)[i] == ws[i - 1];
      }
    }
  }

  /** The leading run of a text that starts with a non-space is a word. */
  lemma RunIsToken(t: string)
    requires t != [] && !IsSpace(t[0])
    ensures IsToken(t[..RunLength(t)])
  {
    var n := RunLength(t);
    RunLengthNoSpace(t);
    forall i | 0 <= i < n
      ensures !IsSpace(t[..n][i])
    {
      assert t[..n][i] == t[i];
    }
  }

  /** Python's `' '.join(ws)`. */
  function Join(ws: seq<string>): string {
    if |ws| == 0 then ""
    else if |ws| == 1 then ws[0]
    else ws[0] + " " + Join(ws[1..])
  }

  /** Python's `list.reverse()`, as a value. */
  function Reverse<T>(s: seq<T>): seq<T> {
    seq(|s|, i requires 0 <= i < |s| => s[|s| - 1 - i])
  }

  lemma ReverseReverse<T>(s: seq<T>)
    ensures Reverse(Reverse(s)) == s
  {
  }

  lemma ReverseAppend<T>(a: seq<T>, b: seq<T>)
    ensures Reverse(a + b) == Reverse(b) + Reverse(a)
  {
  }

  /** Joining two non-empty lists puts exactly one space between them. */
  lemma {:induction false} JoinAppend(a: seq<string>, b: seq<string>)
    requires |a| > 0 && |b| > 0
    ensures Join(a + b) == Join(a) + " " + Join(b)
    decreases |a|
  {
    if |a| == 1 {
      assert (a + b)[1..] == b;
    } else {
      assert (a + b)[1..] == a[1..] + b;
      JoinAppend(a[1..], b);
    }
  }

  /** Reversing the word list does not change the length of the joined text. */
  lemma {:induction false} JoinReverseLength(ws: seq<string>)
    ensures |Join(Reverse(ws))| == |Join(ws)|
    decreases |ws|
  {
    if |ws| > 1 {
      assert Reverse(ws) == Reverse(ws[1..]) + [ws[0]];
      JoinAppend(Reverse(ws[1..]), [ws[0]]);
      JoinReverseLength(ws[1..]);
    } else if |ws| == 1 {
      assert Reverse(ws) == ws;
    }
  }

  /** Re-joining the words of `s` never makes it longer: each gap keeps one space at most. */
  lemma {:induction false} JoinSplitLength(s: string)
    ensures |Join(Split(s))| <= |s|
    decreases |s|
  {
    var t := SkipSpaces(s);
    if t != [] {
      var n := RunLength(t);
      var rest := t[n..];
      if Split(rest) != [] {
        assert rest != [] && IsSpace(rest[0]);
        assert Split(rest) == Split(rest[1..]);
        JoinSplitLength(rest[1..]);
        JoinAppend([t[..n]], Split(rest));
      }
    }
  }

  lemma {:induction false} RunLengthAppend(w: string, rest: string)
    requires forall i :: 0 <= i < |w| ==> !IsSpace(w[i])
    ensures RunLength(w + rest) == |w| + RunLength(rest)
    decreases |w|
  {
    if |w| > 0 {
      assert (w + rest)[1..] == w[1..] + rest;
      RunLengthAppend(w[1..], rest);
    } else {
      assert w + rest == rest;
    }
  }

  /** A leading whitespace character does not change the words. */
  lemma SplitLeadingSpace(x: string)
    requires x != [] && IsSpace(x[0])
    ensures Split(x) == Split(x[1..])
  {
  }

  /** A text of whitespace only, the empty text included, has no words. */
  lemma {:induction false} SplitAllSpaces(s: string)
    requires forall i :: 0 <= i < |s| ==> IsSpace(s[i])
    ensures Split(s) == []
    decreases |s|
  {
    if s != [] {
      SplitLeadingSpace(s);
      SplitAllSpaces(s[1..]);
    }
  }

  /** A word followed by nothing or by whitespace is split off as the first word. */
  lemma SplitCons(w: string, x: string)
    requires IsToken(w)
    requires x == [] || IsSpace(x[0])
    ensures Split(w + x) == [w] + Split(x)
  {
    var s := w + x;
    assert s[0] == w[0];
    assert SkipSpaces(s) == s;
    RunLengthAppend(w, x);
    assert RunLength(x) == 0;
    assert s[..|w|] == w && s[|w|..] == x;
    assert Split(s) == [s[..|w|]] + Split(s[|w|..]);
  }

  /** A single word splits to itself. */
  lemma SplitToken(w: string)
    requires IsToken(w)
    ensures Split(w) == [w]
  {
    var empty: string := [];
    assert w + empty == w;
    SplitCons(w, empty);
    assert Split(empty) == [];
  }

  /** A word, one space and more text split into that word and the words of the rest. */
  lemma SplitTokenSpace(w: string, rest: string)
    requires IsToken(w)
    ensures Split(w + " " + rest) == [w] + Split(rest)
  {
    var gap := " " + rest;
    assert gap[0] == ' ' && gap[1..] == rest;
    assert w + " " + rest == w + gap;
    SplitCons(w, gap);
    SplitLeadingSpace(gap);
  }

  /** Splitting a joined list of words gives the list back. */
  lemma {:induction false} SplitJoin(ws: seq<string>)
    requires AllTokens(ws)
    ensures Split(Join(ws)) == ws
    decreases |ws|, 1
  {
    if |ws| == 1 {
      SplitToken(ws[0]);
    } else if |ws| > 1 {
      SplitJoinStep(ws[0], ws[1..]);
      HeadTail(ws);
    }
  }

  lemma HeadTail<T>(s: seq<T>)
    requires |s| > 0
    ensures [s[0]] + s[1..] == s
  {
  }

  /** The inductive step of `SplitJoin`: one more word in front. */
  lemma {:induction false} SplitJoinStep(w: string, rest: seq<string>)
    requires IsToken(w) && |rest| > 0 && AllTokens(rest)
    ensures Split(Join([w] + rest)) == [w] + rest
    decreases |rest| + 1, 0
  {
    SplitJoin(rest);
    var ws := [w] + rest;
    assert ws[0] == w && ws[1..] == rest;
    assert Join(ws) == w + " " + Join(rest);
    SplitTokenSpace(w, Join(rest));
  }

  /** Shortening every word shortens the joined text. */
  lemma {:induction false} JoinPointwiseShorter(xs: seq<string>, ys: seq<string>)
    requires |xs| == |ys|
    requires forall i :: 0 <= i < |xs| ==> |xs[i]| <= |ys[i]|
    ensures |Join(xs)| <= |Join(ys)|
    decreases |xs|
  {
    if |xs| > 1 {
      JoinPointwiseShorter(xs[1..], ys[1..]);
    }
  }

  /** Dropping at least one non-empty word makes the joined text strictly shorter. */
  lemma JoinPrefixShorter(ws: seq<string>, k: nat)
    requires AllTokens(ws) && k < |ws|
    ensures |Join(ws[..k])| < |Join(ws)|
  {
    if k > 0 {
      assert ws == ws[..k] + ws[k..];
      JoinAppend(ws[..k], ws[k..]);
    } else if |ws| > 1 {
      assert IsToken(ws[0]);
    }
  }
}
