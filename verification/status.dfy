/** Captions from image file names, `extract_status_text` (goldfinch/utils.py:191-212). */
module Status {
  import opened Wrappers
  import opened Abbreviations
  import opened Compact
  import opened FileNames

  /** Python's `text.replace('_', ' ')`: every underscore becomes a space, and nothing
      else changes. */
  function ReplaceUnderscores(s: string): (r: string)
    ensures |r| == |s| && '_' !in r
    ensures forall i :: 0 <= i < |s| && s[i] != '_' ==> r[i] == s[i]
    ensures forall i :: 0 <= i < |s| && s[i] == '_' ==> r[i] == ' '
  {
    seq(|s|, i requires 0 <= i < |s| => if s[i] == '_' then ' ' else s[i])
  }

  /** `extract_status_text(file_name, text_conversions, maximum_length)`: an error
      exactly for names that are not image file names, otherwise a caption that fits. */
  function ExtractStatusText(fileName: string, textConversions: Table, maximumLength: int)
    : (r: Result<string, FileError>)
    requires LiteralTable(textConversions)
    ensures r.Success? <==> IsImageFile(fileName)
    ensures r.Success? && maximumLength >= 0 ==> |r.value| <= maximumLength
  {
    match TrimFileExtension(fileName)
    case Success(stem) => Success(ToCompactText(ReplaceUnderscores(stem), maximumLength, textConversions))
    case Failure(e) => Failure(e)
  }

  /** The caption of a name built from a stem and an image extension is the compacted
      stem with underscores turned into spaces; nothing else is normalised. */
  lemma ExtractStatusTextOfParts(stem: string, ext: string, tail: string, textConversions: Table,
                                 maximumLength: int)
    requires ImageParts(stem, ext, tail) && LiteralTable(textConversions)
    ensures ExtractStatusText(FileName(stem, ext, tail), textConversions, maximumLength)
            == Success(ToCompactText(ReplaceUnderscores(stem), maximumLength, textConversions))
  {
    TrimFileExtensionOfParts(stem, ext, tail);
  }

  /** A stem that already fits is the caption verbatim, apart from underscores. */
  lemma ExtractStatusTextShortStem(stem: string, ext: string, tail: string, textConversions: Table,
                                   maximumLength: int)
    requires ImageParts(stem, ext, tail) && LiteralTable(textConversions)
    requires |stem| <= maximumLength
    ensures ExtractStatusText(FileName(stem, ext, tail), textConversions, maximumLength)
            == Success(ReplaceUnderscores(stem))
  {
    ExtractStatusTextOfParts(stem, ext, tail, textConversions, maximumLength);
  }
}
