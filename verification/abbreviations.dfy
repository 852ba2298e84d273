/** The abbreviation stage, `apply_abbreviations` (goldfinch/utils.py:24-46). */
module Abbreviations {
  import opened Chars

  /** The ordered phrase-to-abbreviation table; entries are applied first to last. */
  type Table = seq<(string, string)>

  /** Characters that carry a meaning in a Python regular expression. */
  predicate IsRegexMetachar(c: char) {
    c == '.' || c == '^' || c == '$' || c == '*' || c == '+' || c == '?' || c == '{' ||
    c == '}' || c == '[' || c == ']' || c == '\\' || c == '|' || c == '(' || c == ')'
  }

  /** Entries the source can use verbatim: a phrase is pasted into a pattern unescaped,
      and an abbreviation is a `re.sub` template, where a backslash starts an escape. */
  predicate LiteralTable(table: Table) {
    forall i :: 0 <= i < |table| ==>
      (forall j :: 0 <= j < |table[i].0| ==> !IsRegexMetachar(table[i].0[j])) &&
      (forall j :: 0 <= j < |table[i].1| ==> table[i].1[j] != '\\')
  }

  /** The pattern `\b` + `p` + `\b` matches `s` at position `i`. */
  predicate MatchAt(s: string, p: string, i: nat)
    requires i <= |s|
  {
    i + |p| <= |s| && s[i..i + |p|] == p && Boundary(s, i) && Boundary(s, i + |p|)
  }

  /** `re.sub` of the whole-word pattern for `p` by `a`, scanning `s` from position `i`:
      matches are found left to right without overlap, and an empty phrase matches at
      every word boundary (Python 3.7 rules for empty matches). */
  function ReplaceFrom(s: string, p: string, a: string, i: nat): string
    requires i <= |s|
    decreases |s| - i
  {
    if MatchAt(s, p, i) then
      if |p| > 0 then a + ReplaceFrom(s, p, a, i + |p|)
      else if i == |s| then a
      else a + [s[i]] + ReplaceFrom(s, p, a, i + 1)
    else if i == |s| then ""
    else [s[i]] + ReplaceFrom(s, p, a, i + 1)
  }

  /** `re.compile(r'\b' + p + r'\b').sub(a, s)` (goldfinch/utils.py:41-43). */
  function ReplaceWholeWord(s: string, p: string, a: string): (r: string)
    ensures |a| <= |p| ==> |r| <= |s|
  {
    var r := ReplaceFrom(s, p, a, 0);
    assert |a| <= |p| ==> |r| <= |s| by {
      if |a| <= |p| {
        ReplaceFromShrinks(s, p, a, 0);
      }
    }
    r
  }

  /** Every entry of `table` applied in order, each to the output of the previous one. */
  function SubstituteAll(text: string, table: Table): string {
    if |table| == 0 then text
    else
      var last := table[|table| - 1];
      ReplaceWholeWord(SubstituteAll(text, table[..|table| - 1]), last.0, last.1)
  }

  /** The `for` loop of `apply_abbreviations` from entry `i` on, with `text` the
      result so far. */
  function AbbreviateFrom(text: string, table: Table, i: nat, maximumLength: int): string
    requires i <= |table|
    decreases |table| - i
  {
    if i == |table| then text
    else
      var next := ReplaceWholeWord(text, table[i].0, table[i].1);
      if |next| <= maximumLength then next
      else AbbreviateFrom(next, table, i + 1, maximumLength)
  }

  /** `apply_abbreviations(text, table, maximum_length)`. The result is the text after
      the shortest non-empty prefix of the table that makes it fit, or after the whole
      table when no prefix does. The first entry is applied even when `text` already
      fits. */
  function ApplyAbbreviations(text: string, table: Table, maximumLength: int): (r: string)
    requires LiteralTable(table)
    ensures |table| == 0 ==> r == text
    ensures exists k :: StopsAfter(text, table, 0, k, maximumLength) && r == SubstituteAll(text, table[..k])
    ensures |r| > maximumLength ==> r == SubstituteAll(text, table)
  {
    AbbreviateFromShape(text, table, 0, maximumLength);
    assert table[..0] == [];
    assert table[..|table|] == table;
    AbbreviateFrom(text, table, 0, maximumLength)
  }

  /** Resuming after `i` entries, the loop's last applied entry is entry `k - 1`:
      every earlier stop point left the text too long, and stopping before the end
      of the table means the text fits. At least one entry is applied when one is left. */
  ghost predicate StopsAfter(text: string, table: Table, i: nat, k: int, maximumLength: int) {
    && i <= k <= |table|
    && (i < |table| ==> i < k)
    && (k < |table| ==> |SubstituteAll(text, table[..k])| <= maximumLength)
    && (forall k' :: i < k' < k ==> |SubstituteAll(text, table[..k'])| > maximumLength)
  }

  /** The loop resumed after `i` entries stops after the first later entry that makes
      the text fit, or at the end of the table. */
  lemma {:induction false} AbbreviateFromShape(text: string, table: Table, i: nat, maximumLength: int)
    requires i <= |table|
    ensures exists k :: StopsAfter(text, table, i, k, maximumLength) &&
                        AbbreviateFrom(SubstituteAll(text, table[..i]), table, i, maximumLength)
                          == SubstituteAll(text, table[..k])
    decreases |table| - i
  {
    var current := SubstituteAll(text, table[..i]);
    if i == |table| {
      assert StopsAfter(text, table, i, i, maximumLength);
    } else {
      assert table[..i + 1][..i] == table[..i];
      var next := SubstituteAll(text, table[..i + 1]);
      assert next == ReplaceWholeWord(current, table[i].0, table[i].1);
      if |next| <= maximumLength {
        assert StopsAfter(text, table, i, i + 1, maximumLength);
      } else {
        AbbreviateFromShape(text, table, i + 1, maximumLength);
        var k :| StopsAfter(text, table, i + 1, k, maximumLength) &&
                 AbbreviateFrom(next, table, i + 1, maximumLength) == SubstituteAll(text, table[..k]);
        assert StopsAfter(text, table, i, k, maximumLength);
      }
    }
  }

  /** Replacing a phrase by itself changes nothing. */
  lemma {:induction false} ReplaceFromSelf(s: string, p: string, i: nat)
    requires i <= |s|
    ensures ReplaceFrom(s, p, p, i) == s[i..]
    decreases |s| - i
  {
    if MatchAt(s, p, i) && |p| > 0 {
      assert ReplaceFrom(s, p, p, i + |p|) == s[i + |p|..] by {
        ReplaceFromSelf(s, p, i + |p|);
      }
      assert s[i..] == s[i..i + |p|] + s[i + |p|..];
    } else if i < |s| {
      assert ReplaceFrom(s, p, p, i + 1) == s[i + 1..] by {
        ReplaceFromSelf(s, p, i + 1);
      }
      assert ReplaceFrom(s, p, p, i) == [s[i]] + ReplaceFrom(s, p, p, i + 1) by {
        if MatchAt(s, p, i) {
          assert p == [];
        }
      }
      assert s[i..] == [s[i]] + s[i + 1..];
    }
  }

  lemma ReplaceSelf(s: string, p: string)
    ensures ReplaceWholeWord(s, p, p) == s
  {
    ReplaceFromSelf(s, p, 0);
  }

  /** Text without any whole-word occurrence of the phrase is returned unchanged. */
  lemma {:induction false} ReplaceFromNoMatch(s: string, p: string, a: string, i: nat)
    requires i <= |s|
    requires forall j :: i <= j <= |s| ==> !MatchAt(s, p, j)
    ensures ReplaceFrom(s, p, a, i) == s[i..]
    decreases |s| - i
  {
    if i < |s| {
      ReplaceFromNoMatch(s, p, a, i + 1);
      assert s[i..] == [s[i]] + s[i + 1..];
    }
  }

  lemma ReplaceNoMatch(s: string, p: string, a: string)
    requires forall j :: 0 <= j <= |s| ==> !MatchAt(s, p, j)
    ensures ReplaceWholeWord(s, p, a) == s
  {
    ReplaceFromNoMatch(s, p, a, 0);
  }

  /** An abbreviation no longer than its phrase never lengthens the text. */
  lemma {:induction false} ReplaceFromShrinks(s: string, p: string, a: string, i: nat)
    requires i <= |s| && |a| <= |p|
    ensures |ReplaceFrom(s, p, a, i)| <= |s| - i
    decreases |s| - i
  {
    if MatchAt(s, p, i) {
      if |p| > 0 {
        ReplaceFromShrinks(s, p, a, i + |p|);
      } else if i < |s| {
        ReplaceFromShrinks(s, p, a, i + 1);
      }
    } else if i < |s| {
      ReplaceFromShrinks(s, p, a, i + 1);
    }
  }

  /** A table whose every abbreviation is no longer than its phrase. */
  predicate Shortening(table: Table) {
    forall i :: 0 <= i < |table| ==> |table[i].1| <= |table[i].0|
  }

  /** Applying any prefix of a shortening table never lengthens the text. */
  lemma {:induction false} SubstituteAllShrinks(text: string, table: Table)
    requires Shortening(table)
    ensures |SubstituteAll(text, table)| <= |text|
    decreases |table|
  {
    if |table| > 0 {
      var last := table[|table| - 1];
      SubstituteAllShrinks(text, table[..|table| - 1]);
      ReplaceFromShrinks(SubstituteAll(text, table[..|table| - 1]), last.0, last.1, 0);
    }
  }

  /** With a shortening table the abbreviation stage never lengthens the text. */
  lemma ApplyAbbreviationsShrinks(text: string, table: Table, maximumLength: int)
    requires LiteralTable(table) && Shortening(table)
    ensures |ApplyAbbreviations(text, table, maximumLength)| <= |text|
  {
    var r := ApplyAbbreviations(text, table, maximumLength);
    var k :| 0 <= k <= |table| && r == SubstituteAll(text, table[..k]);
    SubstituteAllShrinks(text, table[..k]);
  }
}
