# goldfinch caption compaction, modelled in Dafny

goldfinch posts images to Twitter with a caption made from the image's file name.
Its caption pipeline is in `goldfinch/utils.py`. It checks that the name has an image
extension, strips the extension and turns underscores into spaces. Then
`to_compact_text` squeezes the text under a length limit in three stages:

1. Whole-word abbreviations from an ordered table.
2. Removal of interior vowels, word by word from the last word.
3. Dropping trailing words.

It stops at the first stage whose result fits.

This project models those functions as pure Dafny functions over `string`
(`seq<char>`) and word lists (`seq<string>`). Each Python loop is mirrored by a
recursive function with the same state and the same exit test. The loop of
`assemble_elided_status` is one example: it inserts words at the front of a list.
`re.sub`, `str.split()` and `' '.join` are library calls; each is defined directly by
recursion over the string or list. Lemmas then characterise each loop's result
independently of the loop:

- Abbreviation gives the text after the shortest non-empty prefix of the table that
  fits, or after the whole table when no prefix fits.
- Elision keeps a prefix of the words complete and elides the rest.
- Chopping keeps the longest fitting proper prefix of the words.
- `is_image_file` accepts exactly stem + `.` + image extension, with at most one
  final newline.

Modules (one per file):

- `Wrappers`: `Option` and `Result`.
- `Chars`: the regex character classes `\w`, `\b` and Python whitespace.
- `Words`: `str.split()`, `' '.join`, `list.reverse`.
- `Abbreviations`, `Elision`, `Chop`, `Compact`, `FileNames`, `Status`: the pipeline,
  one module per stage.
- `Vectors`: concrete cases from `tests/test_utils.py`, plus a case that shows the
  elision length test overshooting by one.

Regular expressions are modelled directly, not through a regex engine:

- `\w` is an ASCII letter, digit or `_`.
- `\b` is a change between word and non-word characters. Positions outside the text
  count as non-word.
- `re.sub` scans left to right without overlaps. An empty phrase matches at every
  word boundary, as in Python 3.7.
- The image pattern `(.+)\.(png|jpg|jpeg|gif)$` is matched with `re.match` and
  `re.IGNORECASE`. So `.` does not match a newline, and `$` also matches just before
  one final newline. Case folding is ASCII.

Where the code and its docstrings differ, the model follows the code:

- Absent table. The `to_compact_text` docstring (goldfinch/utils.py:154-156) says
  each text conversion is tried. It is silent on `text_conversions=None`, the
  default. With `None`, the code calls `.items()` and crashes once the text is too
  long (goldfinch/utils.py:40, 179). The model takes a table, and the empty table
  means "no conversions".
- Interior vowel. The docstring at goldfinch/utils.py:72 speaks of "non-boundary
  vowels". `\B[aeiou]\B` removes a vowel whose neighbours are both *word*
  characters: letters, digits or `_`. They need not be consonants, so `boat` becomes
  `bt`.
- Elision length test. The docstrings at goldfinch/utils.py:79 and 157-159 say
  elision stops once the text does not exceed the maximum. The code tests
  `len(' '.join(words)) + len(' '.join(elided_words))` (goldfinch/utils.py:89-91).
  That sum leaves out the space that joins the two groups, so the function can
  return `maximum_length + 1` characters. `to_compact_text` still meets the bound,
  because it re-checks the length and hands the text to `chop_words`. That stage
  then drops a word rather than eliding one more. `Vectors.OvershootPipelineExample`
  shows `"boat boat"` with limit 6 becoming `"boat"`, although `"bt bt"` would have
  fitted.
- Chopping. The docstring allows `None` (goldfinch/utils.py:104-105). The code
  returns `None` only when the text has no words or the limit is negative. The empty
  prefix `''` always fits a non-negative limit, so a first word longer than the limit
  gives `''`, not `None`.
- Non-image names. The docstring promises the name without its extension
  (goldfinch/utils.py:140). For a name without an image extension, the code calls
  `.group` on `None` and raises `AttributeError`. The model returns
  `Failure(UnsupportedFileType)`.
- Length limit. The docstring at goldfinch/utils.py:194 says an image link takes 23
  characters and leaves 117. The code subtracts nothing: `extract_status_text` passes
  `maximum_length` straight to `to_compact_text`, and 117 is only the default.

## Model

| member | source | states |
|---|---|---|
| Abbreviations.ApplyAbbreviations | goldfinch/utils.py:24-46 | The result is the text after some table prefix `k`, with every entry applied in table order to the previous entry's output. `k` is at least 1 when the table is non-empty. Every shorter non-empty prefix leaves the text too long. Stopping before the end of the table means the text fits. An empty table returns the input, and an over-long result is the text with the whole table applied |
| Abbreviations.AbbreviateFromShape | goldfinch/utils.py:39-46 | The loop resumed after `i` entries stops after the first later entry that makes the text fit, or at the end of the table |
| Abbreviations.ReplaceSelf | goldfinch/utils.py:41-43 | Replacing whole-word occurrences of a phrase by the phrase itself gives the text back |
| Abbreviations.ReplaceNoMatch | goldfinch/utils.py:41-43 | A text with no whole-word occurrence of the phrase is returned unchanged |
| Abbreviations.ReplaceWholeWord | goldfinch/utils.py:41-43 | One `re.sub` of the whole-word pattern never lengthens the text when the abbreviation is no longer than the phrase; ReplaceSelf and ReplaceNoMatch give its fixed points |
| Abbreviations.ReplaceFromShrinks | goldfinch/utils.py:41-43 | Substituting an abbreviation no longer than its phrase never lengthens the text |
| Abbreviations.SubstituteAllShrinks | goldfinch/utils.py:40-43 | Applying any number of such entries in turn never lengthens the text |
| Abbreviations.ApplyAbbreviationsShrinks | goldfinch/utils.py:24-46 | With a table whose abbreviations are no longer than their phrases, the abbreviation stage never lengthens the text |
| Elision.ElideVowels | goldfinch/utils.py:84-87 | Removing the interior vowels of a word never makes it longer. It keeps the first character, and every character of the result comes from the word |
| Elision.ElideFromKeepsCharacters | goldfinch/utils.py:87 | From any position on, elision takes its characters from that part of the word and keeps a character the pattern does not match |
| Elision.ElideFromPositions | goldfinch/utils.py:87 | The elided text is the subsequence of the word at the positions the vowel pattern does not match, in increasing order |
| Elision.KeptFromRange | goldfinch/utils.py:84 | A position is kept exactly when the pattern `\B[aeiou]\B` does not match there |
| Elision.ElideVowelsRemovesInteriorVowels | goldfinch/utils.py:84-87 | Elision keeps, in order, exactly the characters that are not a vowel of either case with a word character on both sides. So the result is a subsequence of the word |
| Elision.InsertEachAtFrontReverses | goldfinch/utils.py:63-64 | Inserting words one by one at index 0 leaves them, in reverse order, in front of the original list |
| Elision.AssembleElidedStatus | goldfinch/utils.py:49-66 | Both lists are in reverse text order, and the assembled text is the complete words in text order followed by the elided words in text order, joined by single spaces |
| Elision.AssembleRestoresOrder | goldfinch/utils.py:49-66 | Given the reversed front and back halves of a word list, assembly joins the original list in text order with single spaces |
| Elision.ElisionLoopStep | goldfinch/utils.py:85-92 | One turn of the loop elides the last complete word, then either returns the assembled text, if the length test passes, or continues with one complete word fewer |
| Elision.ElisionLoopShape | goldfinch/utils.py:85-93 | With `j` complete words left, the loop returns the text whose first `c` words are complete and whose rest are elided. `c` is the last split at or below `j - 1`, searching downwards, where the length test passes; if there is none, `c` is 0 |
| Elision.StopsAtExtend | goldfinch/utils.py:91 | A failed length test at one more complete word does not move the split where the loop stops |
| Elision.ApplyVowelElision | goldfinch/utils.py:69-93 | The output is an unchanged prefix of the split words followed by the elided remaining words, joined by single spaces. The prefix is the longest proper one that passes the source's length test; with none, every word is elided |
| Elision.ElideVowelsToken | goldfinch/utils.py:87 | Elision turns a whitespace-free non-empty word into one |
| Elision.CandidateWordsTokens | goldfinch/utils.py:81-93 | The words of every elision result are whitespace-free non-empty words |
| Elision.CandidateShorter | goldfinch/utils.py:81-93 | A text with some words elided is no longer than the joined original words |
| Elision.ApplyVowelElisionKeepsWords | goldfinch/utils.py:69-93 | Splitting the output gives the original words in the original order, a prefix complete and the rest elided |
| Elision.ApplyVowelElisionShrinks | goldfinch/utils.py:69-93 | Vowel elision never lengthens the text |
| Elision.ApplyVowelElisionOvershoot | goldfinch/utils.py:89-92 | Because the length test leaves out the separating space, the output can be one character over the limit but never more, unless every word was elided |
| Chop.ChopLoopShape | goldfinch/utils.py:108-114 | After the loop has dropped words from the first `j`, the result is `None` exactly when `j` is 0 or the limit is negative. Otherwise it is the longest proper prefix of those words whose joined text fits |
| Chop.ChopLoopOnSplit | goldfinch/utils.py:108-114 | On the words of a text, the chopped result is shorter than the text, and `None` exactly when there are no words or the limit is negative |
| Chop.ChopWords | goldfinch/utils.py:96-114 | The result is `' '.join` of the longest proper word prefix whose joined text fits, so at least one word is dropped. The result fits and is shorter than the input. It is `None` exactly when the text has no words or the limit is negative |
| Compact.ToCompactText | goldfinch/utils.py:147-188 | A text that fits is returned unchanged. For a non-negative limit the result always fits; for a negative limit it is the empty text |
| Compact.ToCompactTextShrinks | goldfinch/utils.py:175-188 | For any table, compaction never lengthens the text. A fitting text is returned as is, and any other result fits a limit the text exceeds |
| Compact.CompactStagesShrink | goldfinch/utils.py:179-188 | With a table whose abbreviations are no longer than their phrases, each stage is no longer than its input: abbreviation, then elision. Chopping is strictly shorter |
| Compact.ToCompactTextIdempotent | goldfinch/utils.py:175-176 | For a non-negative limit, compacting a compacted text returns it unchanged, because it already fits |
| FileNames.ImageStem | goldfinch/utils.py:127-128 | When the pattern matches, group 1 is a stem that, with a dot, an accepted extension and at most one final newline, makes up the whole name |
| FileNames.DotSplit | goldfinch/utils.py:127 | Cutting the matched part of a name at the dot before a three- or four-letter image extension gives parts the pattern accepts |
| FileNames.ImageExtensionShape | goldfinch/utils.py:127 | An extension among png, jpg, jpeg and gif is three letters long, or four letters starting with `j` or `J`, and it does not end in a newline |
| FileNames.ImageStemOfParts | goldfinch/utils.py:127-128 | The pattern finds the stem of every name built from a non-empty newline-free stem, a dot, an image extension in any case, and at most one final newline |
| FileNames.ImageStemComplete | goldfinch/utils.py:127-129 | Every name with accepted parts matches the pattern |
| FileNames.IsImageFile | goldfinch/utils.py:117-129 | True exactly when the name is a non-empty newline-free stem, a dot and one of png, jpg, jpeg, gif in any case, optionally followed by one newline |
| FileNames.TrimFileExtension | goldfinch/utils.py:132-144 | Succeeds exactly on image file names. The stem it returns, with a dot, an accepted extension and an optional newline, rebuilds the name |
| FileNames.TrimFileExtensionOfParts | goldfinch/utils.py:142-144 | Trimming a name built from accepted parts returns its stem |
| Status.ReplaceUnderscores | goldfinch/utils.py:209 | Same length, no underscore left, every underscore turned into a space and every other character kept in place |
| Status.ExtractStatusText | goldfinch/utils.py:191-212 | Fails exactly on names that are not image file names. Otherwise the caption fits any non-negative limit |
| Status.ExtractStatusTextOfParts | goldfinch/utils.py:208-212 | The caption of an image name is the compacted stem with underscores turned into spaces. No other normalisation is applied |
| Status.ExtractStatusTextShortStem | goldfinch/utils.py:208-212 | A stem that already fits is the caption verbatim, except that underscores become spaces |
| Words.SkipSpaces | goldfinch/utils.py:81 | The result is the text minus a prefix made only of whitespace, and it is empty or starts with a non-space, so exactly the leading whitespace is dropped |
| Words.RunLength | goldfinch/utils.py:81 | The first word ends at the end of the text or at a whitespace character |
| Words.RunLengthNoSpace | goldfinch/utils.py:81 | The first word holds no whitespace |
| Words.Split | goldfinch/utils.py:81 | `str.split()` yields only non-empty whitespace-free words |
| Words.SplitAllSpaces | goldfinch/utils.py:81 | A text of whitespace only, the empty text included, has no words |
| Words.SplitLeadingSpace | goldfinch/utils.py:81 | A leading whitespace character does not change the words |
| Words.SplitCons | goldfinch/utils.py:81 | A non-empty whitespace-free word followed by the end of the text or by whitespace is the first word, and the rest is split the same way. With the two rows above, this fixes `Split` to the maximal runs of non-whitespace on every input |
| Words.SplitJoin | goldfinch/utils.py:108-111 | Splitting the single-space join of whitespace-free non-empty words gives those words back |
| Words.JoinSplitLength | goldfinch/utils.py:108-111 | Re-joining the words of a text with single spaces never makes it longer |
| Words.JoinAppend | goldfinch/utils.py:66 | Joining two non-empty word lists puts exactly one space between their joins |
| Words.JoinReverseLength | goldfinch/utils.py:89-90 | Reversing a word list does not change the length of its join |
| Words.ReverseReverse | goldfinch/utils.py:62-65 | Reversing twice gives the list back |
| Words.JoinPrefixShorter | goldfinch/utils.py:110-112 | Dropping at least one trailing word makes the joined text strictly shorter |
| Vectors.AssembleExample | tests/test_utils.py:76-80 | `assemble_elided_status(['test','a','is','This'], ['systm','gldfnch','the','of'])` is `'This is a test of the gldfnch systm'` |
| Vectors.ElideImageFile | tests/test_utils.py:171-173 | `image-file` elides to `imge-fle` |
| Vectors.ElideAre | tests/test_utils.py:69-74 | `are` keeps both its vowels, because each is at a word edge |
| Vectors.ElideBoat | goldfinch/utils.py:84-87 | `boat` elides to `bt`: a vowel next to another vowel is still interior |
| Vectors.ImageFileExamples | tests/test_utils.py:88-122 | `image.JpEg` and `image.PnG` match with stem `image`. `image.docx` and `image` do not match |
| Vectors.TrimExample | tests/test_utils.py:124-140 | `image.PnG` is an image name and trims to `image`; `image.docx` is not an image name |
| Vectors.ReplaceExample | goldfinch/utils.py:41-43 | In `This is a test`, only the whole word `is` is replaced, not the `is` inside `This` |
| Vectors.ChopExample | goldfinch/utils.py:96-114 | `This is a test` chopped to 9 characters is `This is a` |
| Vectors.OvershootExample | goldfinch/utils.py:89-92 | `boat boat` under limit 6 elides to `boat bt`, 7 characters, because the length test counts 4 + 2 |
| Vectors.OvershootPipelineExample | goldfinch/utils.py:175-188 | The compaction pipeline turns `boat boat` under limit 6 into `boat` |

## Left out

- `access_api` (goldfinch/utils.py:10-21): a wrapper around the tweepy library's OAuth client.
- `load_content` (goldfinch/utils.py:215 on): directory listing and `random.choice`. This is I/O and randomness around the pure pipeline.
- `Manager` in goldfinchsong/classes.py: orchestration of the Twitter client, the clock and the database.
- The unused-file selection and purge behaviour (`get_unused_files`). Its tests refer to a `goldfinchsong.utils` module that is not part of this model.
- CLI and configuration parsing, and packaging.
- Default arguments. `maximum_length=117` is not a default here; every function takes the limit explicitly.
- Abbreviations.ApplyAbbreviations: phrases with regex metacharacters and abbreviations with backslashes are excluded by `LiteralTable`. The source pastes phrases into a pattern unescaped and treats abbreviations as `re.sub` templates, and a regex engine is outside this model.
- Compact.ToCompactText: `text_conversions=None` is not modelled. In the source it crashes once the text is too long; the model takes an explicit (possibly empty) table.
- Compact.ToCompactText: requires `LiteralTable`. The abbreviation stage's regex phrases and backslash templates are outside this model.
- Status.ExtractStatusText: requires `LiteralTable`, for the same reason, since it passes the table on to compaction.
- Unicode word characters and Unicode case folding. `\w` and `re.IGNORECASE` are ASCII here, and Python 3 `str` patterns are Unicode-aware by default. Whitespace for `str.split()` does cover Python's full set of whitespace code points.
- Elision.AssembleElidedStatus: the loop works on list values, so the in-place mutation of the caller's lists (`reverse`, `insert`) is not modelled. The source changes both argument lists; the model leaves them unchanged.
- The long sentence vectors of tests/test_utils.py:54-67, 69-74, 82-86 and 142-173 are not replayed as whole sentences; word-level and short-sentence cases from them are.
