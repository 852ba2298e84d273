/** Image file names: `is_image_file` and `trim_file_extension`
    (goldfinch/utils.py:117-144). Both use the pattern
    `(.+)\.(png|jpg|jpeg|gif)$` with `re.IGNORECASE` and `re.match`, so the match is
    anchored at the start, `.` does not match a newline, and `$` also matches just
    before a newline that ends the name. */
module FileNames {
  import opened Wrappers

  /** Raised by `trim_file_extension` on a name the pattern does not match (in Python,
      an `AttributeError` from calling `group` on `None`). */
  datatype FileError = UnsupportedFileType

  function LowerAscii(c: char): char {
    if 'A' <= c <= 'Z' then (c as int + 32) as char else c
  }

  /** Equality under ASCII case folding. */
  predicate SameIgnoringCase(x: string, y: string) {
    |x| == |y| && forall i :: 0 <= i < |x| ==> LowerAscii(x[i]) == LowerAscii(y[i])
  }

  /** The alternation `png|jpg|jpeg|gif`, case-insensitively. */
  predicate IsImageExtension(ext: string) {
    SameIgnoringCase(ext, "png") || SameIgnoringCase(ext, "jpg") ||
    SameIgnoringCase(ext, "jpeg") || SameIgnoringCase(ext, "gif")
  }

  predicate NoNewline(s: string) {
    forall i :: 0 <= i < |s| ==> s[i] != '\n'
  }

  /** A file name assembled from a stem, an extension and what may follow `$`. */
  function FileName(stem: string, ext: string, tail: string): string {
    stem + "." + ext + tail
  }

  /** Parts the pattern accepts: `(.+)` is a non-empty stem without newlines, the
      extension is one of the four, and `$` leaves at most one final newline. */
  predicate ImageParts(stem: string, ext: string, tail: string) {
    |stem| > 0 && NoNewline(stem) && IsImageExtension(ext) && (tail == "" || tail == "\n")
  }

  /** The name without the one final newline `$` may skip. */
  function MatchEnd(f: string): string {
    if |f| > 0 && f[|f| - 1] == '\n' then f[..|f| - 1] else f
  }

  /** Group 1 of the match, or `None` when the pattern does not match. */
  function ImageStem(f: string): (r: Option<string>)
    ensures r.Some? ==> exists ext, tail :: ImageParts(r.value, ext, tail) &&
                                             f == FileName(r.value, ext, tail)
  {
    var b := MatchEnd(f);
    if |b| >= 5 && b[|b| - 4] == '.' && IsImageExtension(b[|b| - 3..]) && NoNewline(b[..|b| - 4]) then
      DotSplit(f, 3);
      Some(b[..|b| - 4])
    else if |b| >= 6 && b[|b| - 5] == '.' && IsImageExtension(b[|b| - 4..]) && NoNewline(b[..|b| - 5]) then
      DotSplit(f, 4);
      Some(b[..|b| - 5])
    else None
  }

  /** Cutting the matched part of a name at the dot `k` characters from its end gives
      its parts. */
  lemma DotSplit(f: string, k: nat)
    requires |MatchEnd(f)| >= k + 2 && MatchEnd(f)[|MatchEnd(f)| - k - 1] == '.'
    requires IsImageExtension(MatchEnd(f)[|MatchEnd(f)| - k..])
    requires NoNewline(MatchEnd(f)[..|MatchEnd(f)| - k - 1])
    ensures ImageParts(MatchEnd(f)[..|MatchEnd(f)| - k - 1], MatchEnd(f)[|MatchEnd(f)| - k..], f[|MatchEnd(f)|..])
    ensures f == FileName(MatchEnd(f)[..|MatchEnd(f)| - k - 1], MatchEnd(f)[|MatchEnd(f)| - k..], f[|MatchEnd(f)|..])
  {
    var b := MatchEnd(f);
    var n := |b| - k - 1;
    assert f == b + f[|b|..];
    assert b == b[..n] + "." + b[n + 1..];
  }

  /** An extension the pattern accepts is three or four letters long and ends in a letter. */
  lemma ImageExtensionShape(ext: string)
    requires IsImageExtension(ext)
    ensures |ext| == 3 || (|ext| == 4 && LowerAscii(ext[0]) == 'j')
    ensures ext[|ext| - 1] != '\n'
  {
  }

  /** The pattern finds the stem of every name built from accepted parts. */
  lemma ImageStemOfParts(stem: string, ext: string, tail: string)
    requires ImageParts(stem, ext, tail)
    ensures ImageStem(FileName(stem, ext, tail)) == Some(stem)
  {
    var f := FileName(stem, ext, tail);
    var b := stem + "." + ext;
    ImageExtensionShape(ext);
    assert f == b + tail;
    assert MatchEnd(f) == b;
    assert b[..|stem|] == stem && b[|stem|] == '.' && b[|stem| + 1..] == ext;
    if |ext| == 4 {
      assert b[|b| - 4] == ext[0];
    }
  }

  /** `is_image_file(file_name)`: the name is an accepted stem, a dot, an image
      extension in any case, and at most one final newline. */
  function IsImageFile(f: string): (r: bool)
    ensures r <==> exists stem, ext, tail :: ImageParts(stem, ext, tail) &&
                                             f == FileName(stem, ext, tail)
  {
    ImageStemComplete(f);
    ImageStem(f).Some?
  }

  /** The pattern matches every name that has accepted parts. */
  lemma ImageStemComplete(f: string)
    ensures (exists stem, ext, tail :: ImageParts(stem, ext, tail) && f == FileName(stem, ext, tail))
            ==> ImageStem(f).Some?
  {
    if exists stem, ext, tail :: ImageParts(stem, ext, tail) && f == FileName(stem, ext, tail) {
      var stem, ext, tail :| ImageParts(stem, ext, tail) && f == FileName(stem, ext, tail);
      ImageStemOfParts(stem, ext, tail);
    }
  }

  /** `trim_file_extension(file_name)`: the stem of an image file name; other names
      are an error. */
  function TrimFileExtension(f: string): (r: Result<string, FileError>)
    ensures r.Success? <==> IsImageFile(f)
    ensures r.Success? ==> exists ext, tail :: ImageParts(r.value, ext, tail) &&
                                               f == FileName(r.value, ext, tail)
  {
    match ImageStem(f)
    case Some(stem) => Success(stem)
    case None => Failure(UnsupportedFileType)
  }

  /** Trimming a name built from accepted parts gives back its stem. */
  lemma TrimFileExtensionOfParts(stem: string, ext: string, tail: string)
    requires ImageParts(stem, ext, tail)
    ensures TrimFileExtension(FileName(stem, ext, tail)) == Success(stem)
  {
    ImageStemOfParts(stem, ext, tail);
  }
}
