/** The vowel-elision stage: `assemble_elided_status` and `apply_vowel_elision`
    (goldfinch/utils.py:49-93). */
module Elision {
  import opened Chars
  import opened Words

  /** The pattern `\B[aeiou]\B` (case-insensitive) matches the single character at
      position `i` of `w`. */
  predicate ElidedAt(w: string, i: nat)
    requires i < |w|
  {
    !Boundary(w, i) && IsVowel(w[i]) && !Boundary(w, i + 1)
  }

  /** A vowel whose left and right neighbours in `w` are both word characters. */
  predicate InteriorVowel(w: string, i: nat)
    requires i < |w|
  {
    IsVowel(w[i]) && 0 < i < |w| - 1 && IsWordChar(w[i - 1]) && IsWordChar(w[i + 1])
  }

  /** The characters of `w` from position `i` on, without those the vowel pattern
      matches. Neighbours are looked up in the whole of `w`, as `re.sub` does. */
  function ElideFrom(w: string, i: nat): (r: string)
    requires i <= |w|
    ensures |r| <= |w| - i
    decreases |w| - i
  {
    if i == |w| then ""
    else (if ElidedAt(w, i) then "" else [w[i]]) + ElideFrom(w, i + 1)
  }

  /** `vowel_regex.sub('', word)` (goldfinch/utils.py:84, 87): never longer than the
      word, keeps its first character, and takes every character from it. */
  function ElideVowels(w: string): (r: string)
    ensures |r| <= |w|
    ensures |w| > 0 ==> |r| > 0 && r[0] == w[0]
    ensures forall k :: 0 <= k < |r| ==> r[k] in w
  {
    ElideFromKeepsCharacters(w, 0);
    assert w[0..] == w;
    ElideFrom(w, 0)
  }

  /** Elision takes every character from the word, and keeps the first one. */
  lemma {:induction false} ElideFromKeepsCharacters(w: string, i: nat)
    requires i <= |w|
    ensures forall k :: 0 <= k < |ElideFrom(w, i)| ==> ElideFrom(w, i)[k] in w[i..]
    ensures i < |w| && !ElidedAt(w, i) ==> |ElideFrom(w, i)| > 0 && ElideFrom(w, i)[0] == w[i]
    decreases |w| - i
  {
    if i < |w| {
      ElideFromKeepsCharacters(w, i + 1);
      assert w[i..] == [w[i]] + w[i + 1..];
    }
  }

  /** `r` is the subsequence of `w` at the increasing positions `f`. */
  ghost predicate Selects(r: string, w: string, f: seq<int>) {
    && |f| == |r|
    && (forall k :: 0 <= k < |f| ==> 0 <= f[k] < |w| && r[k] == w[f[k]])
    && (forall k, l :: 0 <= k < l < |f| ==> f[k] < f[l])
  }

  /** The positions from `i` on that the vowel pattern does not match. */
  ghost function KeptFrom(w: string, i: nat): seq<int>
    requires i <= |w|
    decreases |w| - i
  {
    if i == |w| then []
    else (if ElidedAt(w, i) then [] else [i]) + KeptFrom(w, i + 1)
  }

  /** The kept positions from `i` on are at least `i`, and are exactly those the
      pattern does not match. */
  lemma {:induction false} KeptFromRange(w: string, i: nat)
    requires i <= |w|
    ensures forall k :: 0 <= k < |KeptFrom(w, i)| ==> i <= KeptFrom(w, i)[k] < |w|
    ensures forall p :: i <= p < |w| ==> (p in KeptFrom(w, i) <==> !ElidedAt(w, p))
    decreases |w| - i
  {
    if i < |w| {
      KeptFromRange(w, i + 1);
    }
  }

  lemma {:induction false} ElideFromPositions(w: string, i: nat)
    requires i <= |w|
    ensures Selects(ElideFrom(w, i), w, KeptFrom(w, i))
    decreases |w| - i
  {
    if i < |w| {
      ElideFromPositions(w, i + 1);
      KeptFromRange(w, i + 1);
    }
  }

  /** Elision removes exactly the interior vowels of the word and keeps every other
      character, in order. */
  lemma ElideVowelsRemovesInteriorVowels(w: string)
    ensures exists f :: Selects(ElideVowels(w), w, f) &&
                        forall p :: 0 <= p < |w| ==> (p in f <==> !InteriorVowel(w, p))
  {
    ElideFromPositions(w, 0);
    KeptFromRange(w, 0);
    var f := KeptFrom(w, 0);
    forall p | 0 <= p < |w|
      ensures ElidedAt(w, p) <==> InteriorVowel(w, p)
    {
    }
    assert Selects(ElideVowels(w), w, f);
  }

  /** Every word of the list, elided. */
  function ElideAll(ws: seq<string>): seq<string> {
    seq(|ws|, i requires 0 <= i < |ws| => ElideVowels(ws[i]))
  }

  /** The `for` loop of `assemble_elided_status`: each word of `words`, in order, is
      inserted at the front of `complete`. */
  function InsertEachAtFront(complete: seq<string>, words: seq<string>): seq<string>
    decreases |words|
  {
    if words == [] then complete else InsertEachAtFront([words[0]] + complete, words[1..])
  }

  /** Inserting words one by one at the front leaves them in reverse order. */
  lemma {:induction false} InsertEachAtFrontReverses(complete: seq<string>, words: seq<string>)
    ensures InsertEachAtFront(complete, words) == Reverse(words) + complete
    decreases |words|
  {
    if words != [] {
      InsertEachAtFrontReverses([words[0]] + complete, words[1..]);
      assert words == [words[0]] + words[1..];
      ReverseAppend([words[0]], words[1..]);
      assert Reverse(words[1..]) + ([words[0]] + complete) == Reverse(words) + complete;
    }
  }

  /** `assemble_elided_status(complete_words, elided_words)` (goldfinch/utils.py:49-66):
      reverse the elided words, insert each at the front of the complete words, reverse
      the result and join it. Both lists hold words in reverse text order; assembly restores text order, the
      complete words first. */
  function AssembleElidedStatus(completeWords: seq<string>, elidedWords: seq<string>): (r: string)
    ensures r == Join(Reverse(completeWords) + Reverse(elidedWords))
  {
    InsertEachAtFrontReverses(completeWords, Reverse(elidedWords));
    ReverseReverse(elidedWords);
    ReverseAppend(elidedWords, completeWords);
    Join(Reverse(InsertEachAtFront(completeWords, Reverse(elidedWords))))
  }

  /** Fed the reversed halves of a word list, assembly gives back the text order. */
  lemma AssembleRestoresOrder(front: seq<string>, back: seq<string>)
    ensures AssembleElidedStatus(Reverse(front), Reverse(back)) == Join(front + back)
  {
    ReverseReverse(front);
    ReverseReverse(back);
  }

  /** The `while` loop of `apply_vowel_elision`: `words` are the complete words not yet
      visited, last text word first; `elided` are the visited ones, elided, in visiting
      order. The length test adds the two joined lengths and leaves out the space that
      will separate them. */
  function ElisionLoop(words: seq<string>, elided: seq<string>, maximumLength: int): string
    decreases |words|
  {
    if words == [] then AssembleElidedStatus(words, elided)
    else
      var rest := words[1..];
      var elided' := elided + [ElideVowels(words[0])];
      if |Join(rest)| + |Join(elided')| <= maximumLength then AssembleElidedStatus(rest, elided')
      else ElisionLoop(rest, elided', maximumLength)
  }

  /** The words for a split after `c` words: the first `c` complete, the rest elided. */
  function CandidateWords(ws: seq<string>, c: nat): seq<string>
    requires c <= |ws|
  {
    ws[..c] + ElideAll(ws[c..])
  }

  /** The text for a split after `c` words. */
  function Candidate(ws: seq<string>, c: nat): string
    requires c <= |ws|
  {
    Join(CandidateWords(ws, c))
  }

  /** The source's length test once every word from `c` on is elided. */
  predicate TestPasses(ws: seq<string>, c: nat, maximumLength: int)
    requires c <= |ws|
  {
    |Join(ws[..c])| + |Join(ElideAll(ws[c..]))| <= maximumLength
  }

  /** Split point `c` is where a loop started with `j` complete words stops: the test
      passed there (or every word is elided) and failed at every later split point. */
  ghost predicate StopsAt(ws: seq<string>, j: nat, c: int, maximumLength: int)
    requires j <= |ws|
  {
    && 0 <= c <= j
    && (c < j || j == 0)
    && (c == 0 || TestPasses(ws, c, maximumLength))
    && (forall c' :: c < c' < j ==> !TestPasses(ws, c', maximumLength))
  }

  /** One turn of the loop, stated on split points: with `j` complete words left, the
      loop stops at split `j - 1` when the test passes there and goes on otherwise. */
  lemma ElisionLoopStep(ws: seq<string>, j: nat, maximumLength: int)
    requires 0 < j <= |ws|
    ensures ElisionLoop(Reverse(ws[..j]), Reverse(ElideAll(ws[j..])), maximumLength) ==
              if TestPasses(ws, j - 1, maximumLength) then Candidate(ws, j - 1)
              else ElisionLoop(Reverse(ws[..j - 1]), Reverse(ElideAll(ws[j - 1..])), maximumLength)
  {
    var words, elided := Reverse(ws[..j]), Reverse(ElideAll(ws[j..]));
    var rest, elided' := words[1..], elided + [ElideVowels(words[0])];
    assert rest == Reverse(ws[..j - 1]) by {
      assert words[0] == ws[j - 1];
    }
    assert elided' == Reverse(ElideAll(ws[j - 1..])) by {
      assert ElideAll(ws[j - 1..]) == [ElideVowels(ws[j - 1])] + ElideAll(ws[j..]);
      ReverseAppend([ElideVowels(ws[j - 1])], ElideAll(ws[j..]));
    }
    assert |Join(rest)| + |Join(elided')| <= maximumLength <==> TestPasses(ws, j - 1, maximumLength) by {
      JoinReverseLength(ws[..j - 1]);
      JoinReverseLength(ElideAll(ws[j - 1..]));
    }
    AssembleRestoresOrder(ws[..j - 1], ElideAll(ws[j - 1..]));
  }

  lemma {:induction false} ElisionLoopShape(ws: seq<string>, j: nat, maximumLength: int)
    requires j <= |ws|
    ensures exists c :: StopsAt(ws, j, c, maximumLength) &&
                        ElisionLoop(Reverse(ws[..j]), Reverse(ElideAll(ws[j..])), maximumLength)
                          == Candidate(ws, c)
    decreases j
  {
    if j == 0 {
      assert ws[..0] == [] && ws[0..] == ws;
      AssembleRestoresOrder(ws[..0], ElideAll(ws[0..]));
      assert StopsAt(ws, j, 0, maximumLength);
    } else {
      ElisionLoopStep(ws, j, maximumLength);
      if TestPasses(ws, j - 1, maximumLength) {
        assert StopsAt(ws, j, j - 1, maximumLength);
      } else {
        ElisionLoopShape(ws, j - 1, maximumLength);
        var c :| StopsAt(ws, j - 1, c, maximumLength) &&
                 ElisionLoop(Reverse(ws[..j - 1]), Reverse(ElideAll(ws[j - 1..])), maximumLength)
                   == Candidate(ws, c);
        StopsAtExtend(ws, j, c, maximumLength);
      }
    }
  }

  /** A stop point for `j - 1` complete words is one for `j` when the test fails at `j - 1`. */
  lemma StopsAtExtend(ws: seq<string>, j: nat, c: int, maximumLength: int)
    requires 0 < j <= |ws|
    requires StopsAt(ws, j - 1, c, maximumLength) && !TestPasses(ws, j - 1, maximumLength)
    ensures StopsAt(ws, j, c, maximumLength)
  {
    forall c' | c < c' < j
      ensures !TestPasses(ws, c', maximumLength)
    {
      if c' < j - 1 {
        assert c < c' < j - 1;
      }
    }
  }

  /** `apply_vowel_elision(text, maximum_length)`. The result keeps a prefix of the
      words complete and elides the rest, in text order: the split is the last one
      (searching from the end) at which the source's length test passes, and with no
      such split every word is elided. */
  function ApplyVowelElision(text: string, maximumLength: int): (r: string)
    ensures exists c :: StopsAt(Split(text), |Split(text)|, c, maximumLength) &&
                        r == Candidate(Split(text), c)
  {
    var ws := Split(text);
    assert ws[..|ws|] == ws;
    assert Reverse(ElideAll(ws[|ws|..])) == [];
    ElisionLoopShape(ws, |ws|, maximumLength);
    ElisionLoop(Reverse(ws), [], maximumLength)
  }

  /** Elision turns words into words. */
  lemma ElideVowelsToken(w: string)
    requires IsToken(w)
    ensures IsToken(ElideVowels(w))
  {
    var e := ElideVowels(w);
    forall k | 0 <= k < |e|
      ensures !IsSpace(e[k])
    {
      assert e[k] in w;
    }
  }

  lemma CandidateWordsTokens(ws: seq<string>, c: nat)
    requires c <= |ws| && AllTokens(ws)
    ensures AllTokens(CandidateWords(ws, c))
  {
    var xs := CandidateWords(ws, c);
    forall i | 0 <= i < |xs|
      ensures IsToken(xs[i])
    {
      if i >= c {
        assert xs[i] == ElideVowels(ws[i]);
        ElideVowelsToken(ws[i]);
      }
    }
  }

  lemma CandidateShorter(ws: seq<string>, c: nat)
    requires c <= |ws|
    ensures |Candidate(ws, c)| <= |Join(ws)|
  {
    var xs := CandidateWords(ws, c);
    forall i | 0 <= i < |xs|
      ensures |xs[i]| <= |ws[i]|
    {
      if i >= c {
        assert xs[i] == ElideVowels(ws[i]);
      }
    }
    JoinPointwiseShorter(xs, ws);
  }

  /** Word order and word count survive elision: re-splitting the result gives the
      original words, a prefix of them complete and the rest elided. */
  lemma ApplyVowelElisionKeepsWords(text: string, maximumLength: int)
    ensures exists c :: StopsAt(Split(text), |Split(text)|, c, maximumLength) &&
                        Split(ApplyVowelElision(text, maximumLength)) == CandidateWords(Split(text), c)
  {
    var ws, r := Split(text), ApplyVowelElision(text, maximumLength);
    var c :| StopsAt(ws, |ws|, c, maximumLength) && r == Candidate(ws, c);
    CandidateWordsTokens(ws, c);
    SplitJoin(CandidateWords(ws, c));
  }

  /** Vowel elision never lengthens the text. */
  lemma ApplyVowelElisionShrinks(text: string, maximumLength: int)
    ensures |ApplyVowelElision(text, maximumLength)| <= |text|
  {
    var ws, r := Split(text), ApplyVowelElision(text, maximumLength);
    var c :| StopsAt(ws, |ws|, c, maximumLength) && r == Candidate(ws, c);
    CandidateShorter(ws, c);
    JoinSplitLength(text);
  }

  /** The length test leaves out the separating space, so when the loop exits early
      the result may be one character over `maximumLength`; it is never more than that
      unless every word had to be elided. */
  lemma ApplyVowelElisionOvershoot(text: string, maximumLength: int)
    ensures var r := ApplyVowelElision(text, maximumLength);
            |r| <= maximumLength + 1 || r == Join(ElideAll(Split(text)))
  {
    var ws, r := Split(text), ApplyVowelElision(text, maximumLength);
    var c :| StopsAt(ws, |ws|, c, maximumLength) && r == Candidate(ws, c);
    if c == 0 {
      assert ws[..0] == [] && ws[0..] == ws;
      assert CandidateWords(ws, 0) == ElideAll(ws);
    } else {
      JoinAppend(ws[..c], ElideAll(ws[c..]));
    }
  }
}
