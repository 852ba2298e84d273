/** Concrete cases from the project's own tests (tests/test_utils.py) and cases that
    show the elision length test at work. */
module Vectors {
  import opened Wrappers
  import opened Chars
  import opened Words
  import opened Abbreviations
  import opened Elision
  import opened Chop
  import opened Compact
  import opened FileNames

  lemma AssembleExample()
    ensures AssembleElidedStatus(["test", "a", "is", "This"], ["systm", "gldfnch", "the", "of"])
            == "This is a test of the gldfnch systm"
  {
    AssembleExampleFrom(["test", "a", "is", "This"], ["systm", "gldfnch", "the", "of"]);
  }

  lemma AssembleExampleFrom(complete: seq<string>, elided: seq<string>)
    requires complete == ["test", "a", "is", "This"]
    requires elided == ["systm", "gldfnch", "the", "of"]
    ensures AssembleElidedStatus(complete, elided) == "This is a test of the gldfnch systm"
  {
    var front, back := Reverse(complete), Reverse(elided);
    JoinAppend(front, back);
    JoinFourWords(front, "This", "is", "a", "test");
    JoinFourWords(back, "of", "the", "gldfnch", "systm");
    JoinedHalves(Join(front), Join(back));
  }

  lemma JoinedHalves(x: string, y: string)
    requires x == "This" + " " + "is" + " " + "a" + " " + "test"
    requires y == "of" + " " + "the" + " " + "gldfnch" + " " + "systm"
    ensures x + " " + y == "This is a test of the gldfnch systm"
  {
  }

  lemma JoinFourWords(ws: seq<string>, a: string, b: string, c: string, d: string)
    requires ws == [a, b, c, d]
    ensures Join(ws) == a + " " + b + " " + c + " " + d
  {
    assert Join(ws[2..]) == c + " " + d by { assert ws[2..][1..] == [d]; }
    assert Join(ws[1..]) == b + " " + (c + " " + d) by { assert ws[1..][1..] == ws[2..]; }
    assert Join(ws) == a + " " + (b + " " + (c + " " + d));
  }

  /** Each helper below unfolds a few positions of the right-to-left scan. */
  lemma ElideImageFile()
    ensures ElideVowels("image-file") == "imge-fle"
  {
    ElideImageFileFrom("image-file");
  }

  lemma ElideImageFileFrom(w: string)
    requires w == "image-file"
    ensures ElideVowels(w) == "imge-fle"
  {
    ElideImageFileMiddle(w);
    assert ElideFrom(w, 2) == "ge-fle";
    ElideImageFileHead(w);
  }

  lemma ElideImageFileHead(w: string)
    requires w == "image-file" && ElideFrom(w, 2) == "ge-fle"
    ensures ElideFrom(w, 0) == "imge-fle"
  {
    assert ElideFrom(w, 1) == "mge-fle";
  }

  lemma ElideImageFileMiddle(w: string)
    requires w == "image-file"
    ensures ElideFrom(w, 3) == "ge-fle"
  {
    ElideFileSuffix(w);
    assert ElideFrom(w, 4) == "e-fle";
  }

  lemma ElideFileSuffix(w: string)
    requires w == "image-file"
    ensures ElideFrom(w, 5) == "-fle"
  {
    assert ElideFrom(w, 9) == "e" by { assert ElideFrom(w, 10) == ""; }
    assert ElideFrom(w, 8) == "le";
    assert ElideFrom(w, 7) == "le";
    assert ElideFrom(w, 6) == "fle";
  }

  lemma ElideAre()
    ensures ElideVowels("are") == "are"
  {
    var w := "are";
    assert ElideFrom(w, 2) == "e" by { assert ElideFrom(w, 3) == ""; }
    assert ElideFrom(w, 1) == "re";
  }

  lemma ElideBoat()
    ensures ElideVowels("boat") == "bt"
  {
    var w := "boat";
    assert ElideFrom(w, 3) == "t" by { assert ElideFrom(w, 4) == ""; }
    assert ElideFrom(w, 2) == "t";
    assert ElideFrom(w, 1) == "t";
  }

  lemma ImageFileExamples()
    ensures ImageStem("image.JpEg") == Some("image")
    ensures ImageStem("image.PnG") == Some("image")
    ensures ImageStem("image.docx") == None
    ensures ImageStem("image") == None
  {
    StemOfJpEg("image.JpEg");
    StemOfPnG("image.PnG");
    StemOfDocx("image.docx");
    StemOfBare("image");
  }

  lemma StemOfImageName(stem: string, ext: string, f: string)
    requires |stem| > 0 && NoNewline(stem) && IsImageExtension(ext)
    requires f == stem + "." + ext
    ensures ImageStem(f) == Some(stem)
  {
    assert f == FileName(stem, ext, "");
    ImageStemOfParts(stem, ext, "");
  }

  /** Through the general round trip for names built from accepted parts. */
  lemma StemOfJpEg(f: string)
    requires f == "image.JpEg"
    ensures ImageStem(f) == Some("image")
  {
    var stem, ext := f[..5], f[6..];
    assert stem == "image" && ext == "JpEg" && f == stem + "." + ext;
    assert IsImageExtension(ext) by { assert SameIgnoringCase(ext, "jpeg"); }
    StemOfImageName(stem, ext, f);
  }

  /** By unfolding the matcher: the three-letter extension is tried first. */
  lemma StemOfPnG(f: string)
    requires f == "image.PnG"
    ensures ImageStem(f) == Some("image")
  {
    assert MatchEnd(f) == f;
    assert f[5] == '.' && f[6..] == "PnG" && f[..5] == "image";
  }

  lemma StemOfDocx(f: string)
    requires f == "image.docx"
    ensures ImageStem(f) == None
  {
    assert MatchEnd(f) == f;
    assert f[7..] == "ocx" && f[6..] == "docx";
  }

  lemma StemOfBare(f: string)
    requires f == "image"
    ensures ImageStem(f) == None
  {
    assert MatchEnd(f) == f;
  }

  lemma TrimExample()
    ensures IsImageFile("image.PnG") && !IsImageFile("image.docx")
    ensures TrimFileExtension("image.PnG") == Success("image")
  {
    ImageFileExamples();
  }

  lemma ReplaceExample()
    ensures ReplaceWholeWord("This is a test", "is", "X") == "This X a test"
  {
    ReplaceExampleHead("This is a test", "is", "X");
  }

  /** "This" holds "is" at position 2, but not as a whole word. */
  lemma ReplaceExampleHead(s: string, p: string, a: string)
    requires s == "This is a test" && p == "is" && a == "X"
    ensures ReplaceFrom(s, p, a, 0) == "This X a test"
  {
    ReplaceExampleInside(s, p, a);
    assert ReplaceFrom(s, p, a, 1) == "his X a test";
  }

  lemma ReplaceExampleInside(s: string, p: string, a: string)
    requires s == "This is a test" && p == "is" && a == "X"
    ensures ReplaceFrom(s, p, a, 2) == "is X a test"
  {
    ReplaceExampleSpace(s, p, a);
    assert !MatchAt(s, p, 2) by { assert !Boundary(s, 2); }
  }

  lemma ReplaceExampleSpace(s: string, p: string, a: string)
    requires s == "This is a test" && p == "is" && a == "X"
    ensures ReplaceFrom(s, p, a, 3) == "s X a test"
  {
    ReplaceExampleMatch(s, p, a);
    assert ReplaceFrom(s, p, a, 4) == " X a test";
  }

  /** The whole word "is" at position 5 is replaced. */
  lemma ReplaceExampleMatch(s: string, p: string, a: string)
    requires s == "This is a test" && p == "is" && a == "X"
    ensures ReplaceFrom(s, p, a, 5) == "X a test"
  {
    ReplaceExampleTail(s, p, a);
    assert s[5..7] == p;
    assert MatchAt(s, p, 5);
  }

  lemma ReplaceExampleTail(s: string, p: string, a: string)
    requires s == "This is a test" && p == "is" && a == "X"
    ensures ReplaceFrom(s, p, a, 7) == " a test"
  {
    assert ReplaceFrom(s, p, a, 13) == "t" by { assert ReplaceFrom(s, p, a, 14) == ""; }
    assert ReplaceFrom(s, p, a, 12) == "st";
    assert ReplaceFrom(s, p, a, 11) == "est";
    assert ReplaceFrom(s, p, a, 10) == "test";
    assert ReplaceFrom(s, p, a, 9) == " test";
    assert ReplaceFrom(s, p, a, 8) == "a test";
  }

  lemma ChopExample()
    ensures ChopWords("This is a test", 9) == Some("This is a")
  {
    var ws := ["This", "is", "a", "test"];
    assert Join(ws[1..]) == "is a test" by { assert Join(ws[2..]) == "a test"; }
    assert Join(ws) == "This is a test";
    assert Join(ws[..3]) == "This is a" by { assert Join(ws[..3][1..]) == "is a"; }
    SplitJoin(ws);
  }

  lemma SplitBoatBoat(text: string)
    requires text == "boat boat"
    ensures Split(text) == ["boat", "boat"]
  {
    assert Join(["boat", "boat"]) == text;
    SplitJoin(["boat", "boat"]);
  }

  lemma ElisionLoopBoatBoat()
    ensures ElisionLoop(["boat", "boat"], [], 6) == "boat bt"
  {
    ElisionLoopOnBoats(["boat", "boat"]);
  }

  /** The first turn elides the last "boat"; 4 + 2 <= 6 ends the loop. */
  lemma ElisionLoopOnBoats(ws: seq<string>)
    requires ws == ["boat", "boat"]
    ensures ElisionLoop(ws, [], 6) == "boat bt"
  {
    ElideBoat();
    var rest, elided := ws[1..], [ElideVowels(ws[0])];
    assert rest == ["boat"] && elided == ["bt"];
    assert [] + [ElideVowels(ws[0])] == elided;
    assert |Join(rest)| + |Join(elided)| <= 6;
    AssembleBoatBt(rest, elided);
  }

  lemma AssembleBoatBt(complete: seq<string>, elided: seq<string>)
    requires complete == ["boat"] && elided == ["bt"]
    ensures AssembleElidedStatus(complete, elided) == "boat bt"
  {
    var ws := Reverse(complete) + Reverse(elided);
    assert ws == ["boat", "bt"] && ws[1..] == ["bt"];
    assert Join(ws) == ws[0] + " " + ws[1];
  }

  /** The length test passes at 4 + 2 <= 6, yet the returned text has 7 characters. */
  lemma OvershootExample(text: string)
    requires text == "boat boat"
    ensures ApplyVowelElision(text, 6) == "boat bt"
  {
    var ws := ["boat", "boat"];
    SplitBoatBoat(text);
    ElisionOfWords(text, ws, 6);
    ReverseBoatBoat(ws);
    ElisionLoopBoatBoat();
  }

  lemma ElisionOfWords(text: string, ws: seq<string>, maximumLength: int)
    requires Split(text) == ws
    ensures ApplyVowelElision(text, maximumLength) == ElisionLoop(Reverse(ws), [], maximumLength)
  {
  }

  lemma ReverseBoatBoat(ws: seq<string>)
    requires ws == ["boat", "boat"]
    ensures Reverse(ws) == ws
  {
  }

  /** The overshoot sends the text on to chopping, which drops the elided word instead
      of eliding the next one ("bt bt" would have fitted). */
  lemma OvershootPipelineExample(text: string)
    requires text == "boat boat"
    ensures ToCompactText(text, 6, []) == "boat"
  {
    OvershootExample(text);
    ChopBoatBt(ApplyVowelElision(text, 6));
    CompactWithoutTable(text, 6, ApplyVowelElision(text, 6));
  }

  /** With an empty table, a text that does not fit goes straight to elision. */
  lemma CompactWithoutTable(text: string, maximumLength: int, elided: string)
    requires |text| > maximumLength && elided == ApplyVowelElision(text, maximumLength)
    requires |elided| > maximumLength
    ensures ToCompactText(text, maximumLength, []) ==
              var chopped := ChopWords(elided, maximumLength);
              if chopped.Some? && chopped.value != "" then chopped.value else ""
  {
  }

  lemma ChopBoatBt(text: string)
    requires text == "boat bt"
    ensures ChopWords(text, 6) == Some("boat")
  {
    var ws := ["boat", "bt"];
    assert Join(ws) == text;
    SplitJoin(ws);
    assert ws[..1] == ["boat"];
  }
}
