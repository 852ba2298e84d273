/** The whole compaction pipeline, `to_compact_text` (goldfinch/utils.py:147-188). */
module Compact {
  import opened Wrappers
  import opened Abbreviations
  import opened Elision
  import opened Chop

  /** `to_compact_text(candidate_text, maximum_length, text_conversions)`: the text
      itself when it fits, else the first of abbreviation, vowel elision and word
      chopping whose result fits. The result always fits a non-negative limit; the
      empty text is what is left when chopping finds nothing. */
  function ToCompactText(candidateText: string, maximumLength: int, textConversions: Table): (r: string)
    requires LiteralTable(textConversions)
    ensures |candidateText| <= maximumLength ==> r == candidateText
    ensures maximumLength >= 0 ==> |r| <= maximumLength
    ensures maximumLength < 0 ==> r == ""
  {
    if |candidateText| <= maximumLength then candidateText
    else
      var abbreviated := ApplyAbbreviations(candidateText, textConversions, maximumLength);
      if |abbreviated| <= maximumLength then abbreviated
      else
        var elided := ApplyVowelElision(abbreviated, maximumLength);
        if |elided| <= maximumLength then elided
        else
          var chopped := ChopWords(elided, maximumLength);
          if chopped.Some? && chopped.value != "" then chopped.value else ""
  }

  /** Compaction never lengthens the text, whatever the table: a text that fits comes
      back unchanged, and any other result fits a limit the text exceeds. */
  lemma ToCompactTextShrinks(candidateText: string, maximumLength: int, textConversions: Table)
    requires LiteralTable(textConversions)
    ensures |ToCompactText(candidateText, maximumLength, textConversions)| <= |candidateText|
  {
  }

  /** With a table whose abbreviations are no longer than their phrases, no stage of
      the pipeline lengthens what it is given: abbreviation, then elision, then
      chopping, which drops at least one word. */
  lemma CompactStagesShrink(candidateText: string, maximumLength: int, textConversions: Table)
    requires LiteralTable(textConversions) && Shortening(textConversions)
    ensures var abbreviated := ApplyAbbreviations(candidateText, textConversions, maximumLength);
            var elided := ApplyVowelElision(abbreviated, maximumLength);
            var chopped := ChopWords(elided, maximumLength);
            && |abbreviated| <= |candidateText|
            && |elided| <= |abbreviated|
            && (chopped.Some? ==> |chopped.value| < |elided|)
  {
    var abbreviated := ApplyAbbreviations(candidateText, textConversions, maximumLength);
    ApplyAbbreviationsShrinks(candidateText, textConversions, maximumLength);
    ApplyVowelElisionShrinks(abbreviated, maximumLength);
  }

  /** Compacting a compacted text changes nothing, for any non-negative limit. */
  lemma ToCompactTextIdempotent(candidateText: string, maximumLength: int, textConversions: Table)
    requires LiteralTable(textConversions) && maximumLength >= 0
    ensures var r := ToCompactText(candidateText, maximumLength, textConversions);
            ToCompactText(r, maximumLength, textConversions) == r
  {
  }
}
