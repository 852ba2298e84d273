/** The word-chopping stage, `chop_words` (goldfinch/utils.py:96-114). */
module Chop {
  import opened Wrappers
  import opened Words

  /** The `for` loop of `chop_words`: drop the last word, return the rest joined if it
      fits, until no word is left. */
  function ChopLoop(words: seq<string>, maximumLength: int): Option<string>
    decreases |words|
  {
    if words == [] then None
    else
      var rest := words[..|words| - 1];
      if |Join(rest)| <= maximumLength then Some(Join(rest))
      else ChopLoop(rest, maximumLength)
  }

  /** `k` is the longest proper prefix of the first `j` words whose joined text fits. */
  ghost predicate LongestFittingPrefix(ws: seq<string>, j: nat, k: int, maximumLength: int)
    requires j <= |ws|
  {
    && 0 <= k < j
    && |Join(ws[..k])| <= maximumLength
    && (forall k' :: k < k' < j ==> |Join(ws[..k'])| > maximumLength)
  }

  lemma {:induction false} ChopLoopShape(ws: seq<string>, j: nat, maximumLength: int)
    requires j <= |ws|
    ensures ChopLoop(ws[..j], maximumLength).None? <==> (j == 0 || maximumLength < 0)
    ensures ChopLoop(ws[..j], maximumLength).Some? ==>
              exists k :: LongestFittingPrefix(ws, j, k, maximumLength) &&
                          ChopLoop(ws[..j], maximumLength).value == Join(ws[..k])
    decreases j
  {
    if j > 0 {
      assert ws[..j][..j - 1] == ws[..j - 1];
      if |Join(ws[..j - 1])| <= maximumLength {
        assert LongestFittingPrefix(ws, j, j - 1, maximumLength);
      } else {
        ChopLoopShape(ws, j - 1, maximumLength);
        if j - 1 == 0 {
          assert ws[..0] == [];
        } else if maximumLength >= 0 {
          var k :| LongestFittingPrefix(ws, j - 1, k, maximumLength) &&
                   ChopLoop(ws[..j - 1], maximumLength).value == Join(ws[..k]);
          assert LongestFittingPrefix(ws, j, k, maximumLength);
        }
      }
    }
  }

  /** `chop_words(text, maximum_length)`: the longest proper prefix of the words whose
      joined text fits, so at least one word is always dropped; `None` exactly when there
      are no words or not even the empty text fits. */
  function ChopWords(text: string, maximumLength: int): (r: Option<string>)
    ensures r.None? <==> (|Split(text)| == 0 || maximumLength < 0)
    ensures r.Some? ==>
              exists k :: LongestFittingPrefix(Split(text), |Split(text)|, k, maximumLength) &&
                          r.value == Join(Split(text)[..k])
    ensures r.Some? ==> |r.value| <= maximumLength && |r.value| < |text|
  {
    ChopLoopOnSplit(text, maximumLength);
    ChopLoop(Split(text), maximumLength)
  }

  lemma ChopLoopOnSplit(text: string, maximumLength: int)
    ensures var r := ChopLoop(Split(text), maximumLength);
            r.Some? ==> |r.value| < |text|
    ensures ChopLoop(Split(text), maximumLength).None? <==> (|Split(text)| == 0 || maximumLength < 0)
    ensures ChopLoop(Split(text), maximumLength).Some? ==>
              exists k :: LongestFittingPrefix(Split(text), |Split(text)|, k, maximumLength) &&
                          ChopLoop(Split(text), maximumLength).value == Join(Split(text)[..k])
  {
    var ws := Split(text);
    assert ws[..|ws|] == ws;
    ChopLoopShape(ws, |ws|, maximumLength);
    var r := ChopLoop(ws, maximumLength);
    if r.Some? {
      var k :| LongestFittingPrefix(ws, |ws|, k, maximumLength) && r.value == Join(ws[..k]);
      JoinPrefixShorter(ws, k);
      JoinSplitLength(text);
    }
  }
}
