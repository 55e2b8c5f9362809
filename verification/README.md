# Verified models of the repository's algorithms

This project models the algorithms of the repository whose correctness is easy to get wrong, and
proves what they are for: text normalization and collation keys, the bibliography engine's parser,
inheritance and source maps, the layout of the embedded package library, and the bounded capture of
output streams. To verify: `dafny verify dfyconfig.toml`.

Functions and lemmas stand for code made of expressions; classes and methods with loops stand for code
that changes things step by step, and each such method is proved against a function whose properties
the lemmas state.

| file | what it models |
|---|---|
| `CanonicalOrder.dfy`, `Normalization.dfy`, `ComposedForms.dfy`, `Decompositions.dfy` | Unicode normalization (UAX 15; sections 3.11 and 3.12 of the Unicode Standard): decomposition, canonical ordering in place, the FCD check, composition in place and what it leaves, and all this told of the rows of the tables |
| `Lexicographic.dfy`, `SortKeys.dfy`, `VariableWeights.dfy` | multi-level sort keys (section 7 of UTS 10), the order they have, and the weights in them |
| `CollationTables.dfy`, `Contractions.dfy`, `CollationSteps.dfy`, `BlockedMarks.dfy`, `CollationElements.dfy`, `CollationKeys.dfy`, `Matching.dfy`, `WeighedText.dfy` | searches in sorted collation tables, contractions, marks absorbed from behind a match, the steps over a text, the marks that block others, the elements, the key of a text, and the elements told without the loop |
| `RomanNumerals.dfy`, `NumericSort.dfy`, `NumeralTexts.dfy` | Roman numerals, and sort values of integer fields, exact up to 64 bits |
| `Splitting.dfy`, `SplitTexts.dfy` | separated lists with braces and escapes |
| `BibSpaces.dfy`, `CollapsedTexts.dfy`, `BibSyntax.dfy`, `BibParser.dfy`, `BibRoundTrip.dfy`, `BibItems.dfy`, `BibErrors.dfy` | the BibTeX parser, its round trip with the printer of entries, and whole sources as syntax trees, sound and broken |
| `Graphs.dfy`, `Inheritance.dfy`, `Traversal.dfy`, `Resolver.dfy`, `InheritedFields.dfy`, `InheritedEntries.dfy` | inheritance between entries over any reference graph, its warnings, and what each field becomes |
| `SourceMaps.dfy`, `MappedSources.dfy` | the worklist of source maps, and what it does to the entries and the keys |
| `Chunking.dfy`, `ChunkLayout.dfy` | packing of archive members into chunks, the reader, and how the members lie |
| `Windows.dfy` | merging of metadata ranges |
| `Words.dfy`, `ObjectLayout.dfy`, `ObjectReader.dfy`, `ObjectRoundTrip.dfy`, `LibraryRoundTrip.dfy`, `ObjectBytes.dfy` | the ELF object and the `ar` library written around the archive, a linker that reads them (System V ABI, chapter 4), and every field it finds |
| `Capture.dfy`, `CaptureBuffer.dfy`, `ReportedLines.dfy` | the chunk-fed head and tail buffer, its error scan and its omission marker |
| `TexArithmetic.dfy` | TeX's decimal-to-scaled conversion (section 102 of tex.web) and pdfTeX's scaled division |
| `Bytes.dfy`, `Wrappers.dfy` | bytes, numerals, options and results |

What the code receives from elsewhere is a parameter: the generated Unicode, collation and numeric
tables (with the facts their generator guarantees as preconditions), compression, lower and upper case,
the decoding of lines and regular-expression matches, the content hash, and the effect of one source
map on one entry.

## Findings

Six places where the code does less, or accepts more, than its description suggests. Each is kept as
it is.

* `CaptureBuffer` accepts a negative `head_bytes`. The printed omitted count is then exact under a
  condition on the sizes (`Capture.NegativeHeadExact`), and `Capture.NegativeHeadMiscounts` is a run in
  which it is wrong by one. For every other `head_bytes` it is always exact (`Capture.SourceRenderExact`).
* The reader of the embedded archive refuses members of more than 128 MiB, which the packer writes.
  `Chunking.ReadExact` has the exact boundary, and `Chunking.PackOversized` packs a member of one byte
  more, which is not read back.
* `prefix` looks only at the first row not below its argument, so a row that is the argument itself
  hides the rows that extend it (`CollationTables.RowHides`). Its one caller asks `find` first, so that
  only suppressed rows of the default table hide others (`Contractions.AcceptsLong`,
  `Contractions.SuppressedHides`), and no match is lost by it (`Contractions.NoMatchHidden`).
* Collation versions 9 and 11 leave ignorable starters out before matching. A mark can then be absorbed
  over a mark of a larger class (`BlockedMarks.LeftOutUnblocks`). Whatever rows the tables have, none is,
  if and only if what is left of the text behind the code point with which the first match starts is in
  canonical order (`BlockedMarks.RuleHoldsExact`).
* Roman numerals are read whose letters are out of order: `VX` is 15 as `XV` is
  (`RomanNumerals.OutOfOrder`). An accepted string is the numeral of its value if and only if each of its
  letters and pairs may follow the one before (`RomanNumerals.NumeralExact`).
* The rearrangement of code points in `elements` never happens: every way to set the list empties it.

## Model

| member | source | states |
|---|---|---|
| CanonicalOrder.ReorderKeeps | crates/tex-biber/src/collation_normalization.rs:31-33 | Reordering is stable: the starters, and the marks of each class, stay in their order. |
| CanonicalOrder.ReorderPermutes | crates/tex-biber/src/collation_normalization.rs:31-33 | Reordering is a permutation. |
| CanonicalOrder.ReorderOrdered | crates/tex-biber/src/collation_normalization.rs:31-33 | After reordering no mark stands directly after a mark of a higher class. |
| CanonicalOrder.StartersStay | crates/tex-biber/src/collation_normalization.rs:31-33 | Starters keep their positions, and no mark takes one. |
| CanonicalOrder.ReorderUnique | crates/tex-biber/src/collation_normalization.rs:31-33 | The result is the only canonically ordered sequence with the starters and the per-class marks of the input. |
| CanonicalOrder.EquivalentIffReorder | crates/tex-biber/src/collation_normalization.rs:31-33 | Two sequences reorder to the same result if and only if swaps of adjacent marks of different nonzero classes lead from one to the other. |
| Normalization.CombiningClassExact | crates/tex-biber/src/collation_normalization.rs:4-8 | The lookup by partition point answers with the class of the one range that holds the character, and 0 where there is none. |
| Normalization.PushDecomposition | crates/tex-biber/src/collation_normalization.rs:10-20 | Appends the full recursive decomposition and leaves what was there; it terminates because no row leads back to its own character. |
| Normalization.DecomposeAllIrreducible | crates/tex-biber/src/collation_normalization.rs:10-20 | Full decomposition leaves nothing that decomposes further. |
| Normalization.CompositeDecomposes | crates/tex-biber/src/collation_normalization.rs:21-25 | A composite, of the table or of Hangul, decomposes to the decompositions of its two parts in order. |
| Decompositions.DecompositionExact | crates/tex-biber/src/collation_normalization.rs:10-20 | Told of the rows and of the numbers of Hangul syllables alone: a text is the decomposition of another if and only if replacing characters by their rules leads to it and no rule is left, a compatibility row being a rule only in the compatibility forms. |
| Decompositions.ReplacementKeeps | crates/tex-biber/src/collation_normalization.rs:10-20 | Replacing one character by its rule leaves the decomposition of a text unchanged. |
| Decompositions.FinalFixed | crates/tex-biber/src/collation_normalization.rs:10-20 | A text of whose characters none has a rule is its own decomposition: canonical forms leave compatibility characters alone. |
| Decompositions.CompositeOfSpelling | crates/tex-biber/src/collation_normalization.rs:21-25 | Leading, vowel and trailing jamo compose to the syllable of their numbers. |
| Decompositions.CompositeOfTable | crates/tex-biber/src/collation_normalization.rs:21-25 | Every other pair of the table composes to what the table has. |
| Normalization.SinkMark | crates/tex-biber/src/collation_normalization.rs:33 | The inner loop moves one mark left, in place, to where the ordered sequence wants it, and no further than the last starter. |
| Normalization.ReorderInPlace | crates/tex-biber/src/collation_normalization.rs:31-33 | The loop over the vector leaves the canonical reordering of what was in it. |
| Normalization.ComposePreserves | crates/tex-biber/src/collation_normalization.rs:38-45 | Decomposing and reordering the output of the composition pass gives back the decomposed, ordered sequence it started from, for NFC, NFKC and FCC. |
| Normalization.ComposeInPlace | crates/tex-biber/src/collation_normalization.rs:38-45 | The pass with a read and a write index in one vector computes the composition; the write index never passes the read index. |
| Normalization.FcdExact | crates/tex-biber/src/collation_normalization.rs:34-37 | The FCD check accepts a text if and only if reordering leaves its canonical decomposition unchanged. |
| Normalization.FcdOrdered | crates/tex-biber/src/collation_normalization.rs:34-37 | The loop decides the FCD check, stopping at the first character out of order. |
| Normalization.NormalizeKeepsClass | crates/tex-biber/src/collation_normalization.rs:26-47 | In every form the result has the same full decomposition as the input. |
| Normalization.NormalizeIdempotent | crates/tex-biber/src/collation_normalization.rs:26-47 | Normalizing a normalized text changes nothing, in every form. |
| Normalization.ComposedFormsDecide | crates/tex-biber/src/collation_normalization.rs:26-47 | Two texts have the same composed form if and only if they have the same decomposed form. |
| Normalization.CanonicalRoundTrip | crates/tex-biber/src/collation_normalization.rs:26-47 | NFC and FCC take a text and its NFD to the same result, and NFD takes that result back. |
| Normalization.NormalizeOrdered | crates/tex-biber/src/collation_normalization.rs:26-47 | In every form the normalized text is in canonical order, if marks decompose to marks of their class and composites have the class of their first part, as in the generated tables. |
| Normalization.NormalizeText | crates/tex-biber/src/collation_normalization.rs:26-47 | The whole function, by form name: an unknown form, or FCD when the check passes, gives the input itself; otherwise the normalized text. |
| Decompositions.FormNames | crates/tex-biber/src/collation_normalization.rs:26-30 | Which names stand for which form. |
| Decompositions.DecomposedForms | crates/tex-biber/src/collation_normalization.rs:26-33 | NFD and NFKD are the decomposition, canonical or not, in canonical order. |
| Decompositions.FcdForm | crates/tex-biber/src/collation_normalization.rs:34-37 | FCD leaves a text whose decomposition is in order as it stands, and decomposes and orders another. |
| Decompositions.FormsCompose | crates/tex-biber/src/collation_normalization.rs:26-47 | NFC, NFKC and FCC give a text with the decomposition of the input in which nothing is left to compose. |
| Normalization.NormalizeInRanges | crates/tex-biber/src/collation_normalization.rs:4-47 | With classes looked up in sorted ranges, normalization leaves the characters of the ranges in the order of their classes. |
| ComposedForms.NormalizeComplete | crates/tex-biber/src/collation_normalization.rs:38-45 | In NFC and NFKC no starter has a composite with a character behind it that nothing between them blocks (D115 and D117 of section 3.11), if decompositions are in order, second parts do not decompose and composites keep their class, as in the generated tables. |
| ComposedForms.FccComplete | crates/tex-biber/src/collation_normalization.rs:38-45 | In FCC no character has a composite with the next one unless it blocks that. |
| SortKeys.KeysOrderAsLevels | crates/tex-biber/src/collation.rs:272-288 | Comparing two flat zero-separated keys gives what comparing their levels one after another gives, with any levels reversed and the identical level last. |
| SortKeys.EqualKeys | crates/tex-biber/src/collation.rs:272-288 | Two keys are equal if and only if all levels are, and with the identical level the texts too. |
| SortKeys.HalvesKeepOrder | crates/tex-biber/src/collation.rs:287 | Code points split into two 16-bit halves compare as the code points do. |
| SortKeys.Gather | crates/tex-biber/src/collation.rs:274-284 | The loop over the elements collects, for each level, the nonzero weights of the elements kept, in order; ignorable elements after a variable one are dropped. |
| SortKeys.BuildKey | crates/tex-biber/src/collation.rs:272-288 | The loops build the key that the order theorem is about. |
| VariableWeights.LevelExact | crates/tex-biber/src/collation.rs:275-284 | The weights of each level in each setting, element by element: which count, which are dropped behind a variable one, and what the fourth weight becomes. |
| VariableWeights.VariableTakenOut | crates/tex-biber/src/collation.rs:277-280 | But for the setting that ignores nothing, the first three levels are those of the elements without the variable ones and, from version 9, without the ignorable ones behind them. |
| VariableWeights.VariableExchanged | crates/tex-biber/src/collation.rs:278 | Exchanging one variable element for another leaves the first three levels unchanged. |
| VariableWeights.UpperFirstExact | crates/tex-biber/src/collation.rs:281 | Upper-first exchanges the two groups of case weights, each in its order, and two weights more, and fixes the others. |
| VariableWeights.KatakanaFirstExact | crates/tex-biber/src/collation.rs:282 | Katakana-first puts the weights of Katakana before those of Hiragana, each in their order, and fixes the others. |
| VariableWeights.LevelDirection | crates/tex-biber/src/collation.rs:286 | A level is read backwards exactly if its bit is set. |
| VariableWeights.HalvesExact | crates/tex-biber/src/collation.rs:287 | Each code point of the identical level is two numbers of 16 bits, the higher first. |
| VariableWeights.KeyShape | crates/tex-biber/src/collation.rs:286-287 | Zeros part the four levels, and the identical level comes behind one. |
| Lexicographic.CompareExact | crates/tex-biber/src/collation.rs:272-288 | A sequence comes before another if and only if it is a proper beginning of it or has the smaller number where they first differ. |
| CollationTables.PartitionPoint | crates/tex-biber/src/collation.rs:225-228 | Binary search in a sorted table separates the rows below a sequence from the rest. |
| CollationTables.Search | crates/tex-biber/src/collation.rs:221 | Binary search finds the row of a sequence if there is one. |
| CollationTables.LongestRow | crates/tex-biber/src/collation.rs:225 | The run of rows that start with a code point gives the length of the longest of all such rows, or 1. |
| CollationTables.MaxLenExact | crates/tex-biber/src/collation.rs:224-226 | No row that starts with the code point is longer, and some row is that long unless it is 1. |
| CollationTables.HasPrefix | crates/tex-biber/src/collation.rs:227-229 | The test finds an extension of the sequence in a table if and only if there is one and the sequence is not itself a row. |
| Contractions.FindElements | crates/tex-biber/src/collation.rs:220-223 | The tailoring is searched first, then the default table unless suppressed, then the ideographs. |
| Matching.TailoringDecides | crates/tex-biber/src/collation.rs:220-223 | A row of the tailoring decides, whatever the other tables hold. |
| Matching.DefaultDecides | crates/tex-biber/src/collation.rs:220-223 | Without one the default table does, but not for a longer sequence whose start is suppressed. |
| Matching.IdeographsDecide | crates/tex-biber/src/collation.rs:220-223 | Without a row in either, only a single ideograph has elements. |
| Contractions.BeyondCutoff | crates/tex-biber/src/collation.rs:220-226 | No sequence longer than the cutoff is found in any table. |
| Contractions.LongestMatch | crates/tex-biber/src/collation.rs:256-258 | The loop that stops at the cutoff finds the same match as a search over the whole rest of the text. |
| Contractions.ContiguousEndLongest | crates/tex-biber/src/collation.rs:256-258 | That match is in the tables, or is a single code point, and no longer stretch of the text is. |
| Contractions.AbsorbMarks | crates/tex-biber/src/collation.rs:259-266 | One pass over the marks computes both ways of absorbing them, and the long one wins when it ends in a row. |
| Matching.AbsorbsAll | crates/tex-biber/src/collation.rs:259-264 | A mark passed over would not have been accepted, or stands behind one of its class that was passed over. |
| Matching.MatchExact | crates/tex-biber/src/collation.rs:256-266 | Which of the two ways of absorbing marks is taken, and what is matched. |
| Matching.CutoffLosesNothing | crates/tex-biber/src/collation.rs:259 | Where no row is longer than one code point, leaving out the absorption loses nothing. |
| CollationTables.RowHides | crates/tex-biber/src/collation.rs:227-229 | A sorted table in which a row keeps the test from finding the row that extends it. |
| Contractions.AcceptsLong | crates/tex-biber/src/collation.rs:263 | A sequence is accepted on the way to a longer match if and only if it is found, is extended in the tailoring, or is extended in the default table and not a suppressed row of it. |
| Contractions.NoMatchHidden | crates/tex-biber/src/collation.rs:263 | Every nonempty beginning of a sequence that is found is accepted. |
| Contractions.SuppressedHides | crates/tex-biber/src/collation.rs:263 | A collator whose suppressed row is not accepted although the default table extends it. |
| CollationSteps.AbsorbTakes | crates/tex-biber/src/collation.rs:261-264 | Absorbed marks are taken in order from behind the match, none twice, and extend it in that order. |
| CollationSteps.AbsorbedUnblocked | crates/tex-biber/src/collation.rs:261-264 | Where the marks ahead are in canonical order, every mark passed over has a smaller class than the mark absorbed over it. |
| CollationSteps.BlankKeepsOrder | crates/tex-biber/src/collation.rs:267 | Consuming absorbed marks leaves the marks that remain in canonical order. |
| CollationSteps.ConsumedOnce | crates/tex-biber/src/collation.rs:253-269 | From any state of the loop, its further steps consume each position not yet consumed exactly once, and no other. |
| CollationSteps.EachConsumedOnce | crates/tex-biber/src/collation.rs:248-271 | The steps over a whole text consume each code point exactly once, in a contiguous match, as an absorbed mark or as a skipped noncharacter, except those versions 9 and 11 leave out. |
| CollationSteps.StepsFromText | crates/tex-biber/src/collation.rs:253-269 | What each step looks up is the text at exactly the positions the step consumes. |
| CollationSteps.EveryStepUnblocked | crates/tex-biber/src/collation.rs:248-271 | Where what is left of the text behind the first match's start is in canonical order, no step absorbs a mark that a remaining mark of the same or a larger class blocks (rule S2.1 of UTS 10). |
| BlockedMarks.RuleHoldsExact | crates/tex-biber/src/collation.rs:248-271 | That order is exactly the condition under which no collator with the same version, classes and code points left out absorbs a blocked mark, whatever the rows of its tables. |
| BlockedMarks.LeftOutUnblocks | crates/tex-biber/src/collation.rs:250 | A canonically ordered text in which, with a starter left out in version 9, a blocked mark is absorbed. |
| CollationElements.Elements | crates/tex-biber/src/collation.rs:248-271 | The loop, overwriting consumed positions, terminates; its elements are those of its steps with terminators between Hangul syllables, and its steps consume each code point once, look up the text where they consume it, and absorb no blocked mark where what is left behind the first match's start is in canonical order. |
| WeighedText.ElementsCut | crates/tex-biber/src/collation.rs:252-271 | The elements are cut into one slice for each step: what the tables hold for the text where the step consumes it, or else the elements of the jamo of a syllable or implicit ones, with a terminator exactly where a Hangul syllable ends. |
| WeighedText.RowElements | crates/tex-biber/src/collation.rs:256-268 | A text for which there is a row, however long, has the elements of the row. |
| WeighedText.LeftOutExact | crates/tex-biber/src/collation.rs:250 | Exactly the code points whose row holds no elements are left out, and only in versions 9 and 11. |
| WeighedText.HangulTypeExact | crates/tex-biber/src/collation.rs:295 | The type of a code point is its kind of jamo, and of a syllable that of its last jamo. |
| WeighedText.EndsExact | crates/tex-biber/src/collation.rs:255 | A syllable ends where the next code point may not continue it. |
| CollationKeys.SortKey | crates/tex-biber/src/collation.rs:272-288 | Normalizing, finding the elements and building the key give the key of the text; the steps taken absorb no blocked mark of a normalized text. |
| CollationKeys.KeysDecideEquivalence | crates/tex-biber/src/collation.rs:272-288 | Texts equivalent under the form (any but FCD) have the same key, and with the identical level only equivalent texts have. |
| CollationKeys.NormalTextUnblocked | crates/tex-biber/src/collation.rs:272-274 | Over a normalized text, in versions other than 9 and 11, no step absorbs a blocked mark. |
| RomanNumerals.Roman | crates/tex-biber/src/collation_numeric.rs:6-14 | The loops accept exactly the nonempty strings of the seven letters with no run too long and no letter on both sides of one it clashes with, and give each the sum of its letters and pairs taken from the left. |
| RomanNumerals.NumeralRead | crates/tex-biber/src/collation_numeric.rs:6-14 | The numeral of a number is accepted if and only if the number is from 1 to 3999, and its value is that number. |
| RomanNumerals.NumeralExact | crates/tex-biber/src/collation_numeric.rs:6-14 | An accepted string is the numeral of its value if and only if its letters and pairs are in the order of a numeral. |
| RomanNumerals.OutOfOrder | crates/tex-biber/src/collation_numeric.rs:6-14 | Two accepted strings of one value, one of them out of order. |
| NumeralTexts.RomanExact | crates/tex-biber/src/collation_numeric.rs:8-10 | A string of the seven letters is accepted if and only if it is not empty and none of the 22 refused strings, the listed ones and the runs too long, occurs in it. |
| NumeralTexts.ValueExact | crates/tex-biber/src/collation_numeric.rs:11-12 | The value is the sum of the letters and of the six pairs into which the string is cut from the left. |
| NumericSort.IntegerSortValue | crates/tex-biber/src/collation_numeric.rs:21-33 | A Roman numeral gives its value unless that is switched off, a lone numeric character its whole number, decimal digits of one script their number exactly if and only if it is below 2 to the 64; any other text is left as it is. |
| NumeralTexts.DigitsExact | crates/tex-biber/src/collation_numeric.rs:26-33 | A text with a character that is no digit of the script is left; the others give their number, exactly up to the largest of 64 bits. |
| NumeralTexts.DigitWorth | crates/tex-biber/src/collation_numeric.rs:26-28 | A digit stands for its distance from the zero of its script. |
| NumeralTexts.DigitsJoin | crates/tex-biber/src/collation_numeric.rs:27-33 | Digits count by the power of ten of how many follow. |
| Splitting.Split | crates/tex-biber/src/bib.rs:55 | The scan gives the trimmed pieces between separators outside braces and escapes. |
| Splitting.JoinPieces | crates/tex-biber/src/bib.rs:55 | No character is lost: the untrimmed pieces joined by the separator spell the value. |
| Splitting.SplitJoin | crates/tex-biber/src/bib.rs:55 | For every separator, splitting undoes joining if and only if no separator begins within a piece, not even with the help of the one behind it, and each piece but the last keeps its braces and escapes to itself. |
| Splitting.SplitListJoin | crates/tex-biber/src/bib.rs:55 | The trimmed list comes back from its joined text if and only if the pieces are so and are trimmed. |
| SplitTexts.PiecesExact | crates/tex-biber/src/bib.rs:55 | Told of groups in braces, characters behind backslashes and plain ones: a text is split exactly where plain characters outside groups spell the separator. |
| SplitTexts.NeverSplitInside | crates/tex-biber/src/bib.rs:55 | Behind a brace that is never closed nothing is split. |
| SplitTexts.TrimExact | crates/tex-biber/src/bib.rs:55 | Trimming takes exactly the white space at both ends. |
| SplitTexts.WhitespaceExact | crates/tex-biber/src/bib.rs:55 | White space is the 25 code points that Unicode lists. |
| BibSpaces.BibtexSpaces | crates/tex-biber/src/bib.rs:36-44 | The quick test and the rewriting loop together compute one function. |
| BibSpaces.NormalIffUnchanged | crates/tex-biber/src/bib.rs:36-44 | The quick test passes if and only if rewriting would change nothing, and rewriting twice is rewriting once. |
| CollapsedTexts.CollapseExact | crates/tex-biber/src/bib.rs:36-44 | The result is the one text in normal form with the characters of the value that are no separators, and with separations between the same of them. |
| CollapsedTexts.SeparatorExact | crates/tex-biber/src/bib.rs:36-44 | The separators are the space and seven line breaks. |
| BibParser.Parser.SkipSpace | crates/tex-biber/src/bib.rs:11 | White space and comments to the end of their lines are passed, with lines counted. |
| BibParser.Parser.Ident | crates/tex-biber/src/bib.rs:12 | The identifier is the longest run of name characters behind white space. |
| BibParser.Parser.ReadBalanced | crates/tex-biber/src/bib.rs:13-17 | The text up to the delimiter that closes the first one, or the error that there is none. |
| BibParser.Parser.ReadQuoted | crates/tex-biber/src/bib.rs:18 | The text up to the first quote outside braces, or the error that there is none. |
| BibParser.Parser.ReadValue | crates/tex-biber/src/bib.rs:19 | The joined parts of a value with the warnings about unknown macros, or the first error with the warnings before it. |
| BibParser.Database.ReadFields | crates/tex-biber/src/bib.rs:29-31 | The loop over the fields ends at the closing delimiter or the first error; a repeated field keeps its first value and a repeated key its first entry. |
| BibParser.Database.ReadItem | crates/tex-biber/src/bib.rs:25-31 | What follows an `@` is a comment, a preamble, a macro or an entry, and changes the database only in its own way. |
| BibParser.Database.Add | crates/tex-biber/src/bib.rs:25-32 | A whole source is read, on every input, up to its end or the first error, which leaves what was read before it. |
| BibRoundTrip.CloseExact | crates/tex-biber/src/bib.rs:13-17 | A value printed in braces is read back as itself if and only if its braces match, those behind a backslash not counting. |
| BibRoundTrip.FieldsExact | crates/tex-biber/src/bib.rs:30 | The printed fields of an entry are read back in order, whatever follows the entry. |
| BibRoundTrip.PrintedRead | scripts/biber_fuzz.py:178-180 | Reading the printed text of any list of legal entries adds those entries in order and meets no error, even with repeated keys or fields, where the first counts. |
| BibRoundTrip.EntryFields | crates/tex-biber/src/bib.rs:30 | An entry read back has the printed values if and only if normalization of spaces and decomposition leave them alone. |
| BibRoundTrip.RoundTrip | crates/tex-biber/src/bib.rs:25-32 | Entries with distinct new keys, legal names, distinct fields and normal values come back exactly, in order, and nothing else in the database changes. |
| BibItems.SourcesRead | crates/tex-biber/src/bib.rs:25-32 | Any sequence of entries, macros, preambles, comments and text between them, in braces or parentheses, with and without the optional commas, with white space and comments between the tokens, is read as what its syntax tree means; then what follows is read. |
| BibItems.SourceRead | crates/tex-biber/src/bib.rs:25-32 | A whole source of such items is read without an error. |
| BibItems.ValueRead | crates/tex-biber/src/bib.rs:19 | A value of several parts, in braces, in quotes, numbers or macro names, is read as their texts in order, an unknown macro as nothing with a warning. |
| BibItems.CutOffRead | crates/tex-biber/src/bib.rs:25 | A source that ends behind the word of an item is read without an error. |
| BibItems.NameCharExact | crates/tex-biber/src/bib.rs:12 | What a name is made of: anything but white space and eight delimiters. |
| BibErrors.BrokenRead | crates/tex-biber/src/bib.rs:13-32 | For each way in which an item can be broken, the error with which reading ends, and what is kept of the items before it and of the item itself. |
| BibErrors.ValueFails | crates/tex-biber/src/bib.rs:13-19 | A value that is missing or not closed is an error, also behind parts joined to it. |
| Inheritance.InheritFromMixes | crates/tex-biber/src/bib.rs:270-318 | Outside date scopes, inheriting removes no field and invents no value: each field is the child's own or some field of the parent's, and refused fields are the child's. |
| Inheritance.XdataOverwrites | crates/tex-biber/src/bib.rs:273-318 | Outside date scopes, XDATA overwrites: every known field of the parent but `xdata` and `ids`, unless refused, has the parent's value afterwards. |
| Inheritance.CrossrefAdds | crates/tex-biber/src/bib.rs:273-318 | Outside date scopes, CROSSREF without an overriding setting or rule leaves every field of the child alone, fills the places rules send fields to, and gives every other field the parent's value exactly if all fields are inherited and it is known, not refused and not processed. |
| InheritedFields.InheritFromExact | crates/tex-biber/src/bib.rs:273-318 | Outside date scopes: what each field of the child is after inheriting from one parent, in every setting: the last thing taken of what the rules and the plain fields offer it, or what it was. |
| Inheritance.RankedIffAcyclic | crates/tex-biber/src/bib.rs:262-267 | The references can be ranked, parents below children, if and only if no walk along them leads back to its start. |
| Inheritance.RankIrrelevant | crates/tex-biber/src/bib.rs:257-320 | The parents-first resolution of an acyclic graph does not depend on how the graph is ranked. |
| Resolver.Resolving.Visit | crates/tex-biber/src/bib.rs:261-349 | On every graph the visit terminates, restores the active entries, and changes only entries that finish in it; without cycles the entry becomes the parents-first resolution. Granular references are left out. |
| Resolver.Resolving.FollowReferences | crates/tex-biber/src/bib.rs:263-320 | The references are followed in order, each to its resolved parent, missing and cyclic ones with a warning; outside date scopes and annotations. |
| Resolver.Resolving.ResolveAll | crates/tex-biber/src/bib.rs:350 | Each entry's body runs exactly once and every entry is finished. |
| Resolver.BuildIndex | crates/tex-biber/src/bib.rs:258-259 | The loops build the index of keys and aliases. |
| Resolver.IndexExact | crates/tex-biber/src/bib.rs:258-259 | The index holds exactly the names that denote an entry, and sends each to an entry it denotes. |
| Resolver.Inherit | crates/tex-biber/src/bib.rs:257-351 | Every graph is handled; the warnings are those of one traversal; without cycles every entry becomes what the parents-first recursion makes of it. Granular references, date scopes and annotations are left out. |
| InheritedEntries.InheritAcyclic | crates/tex-biber/src/bib.rs:257-351 | On acyclic references every entry is what its XDATA, CROSSREF and XREF references, in that order and each to the resolved parent, make of it one after another. |
| InheritedEntries.OneParent | crates/tex-biber/src/bib.rs:268-318 | An entry whose only reference is a CROSSREF, or one to an XDATA entry, has for each field what inheriting from the resolved parent gives. |
| InheritedEntries.OnlyXref | crates/tex-biber/src/bib.rs:268 | An entry with only an XREF keeps its fields. |
| Traversal.CyclesReported | crates/tex-biber/src/bib.rs:262-266 | A cycle is reported if and only if the references have one. |
| Traversal.MissingExact | crates/tex-biber/src/bib.rs:265 | Of each entry exactly the references to nothing are reported, in order; those of XDATA are warnings of the entry. |
| Resolver.OrderIrrelevant | crates/tex-biber/src/bib.rs:257-351 | With unambiguous names the order of the entries does not matter to what the recursion makes of each. |
| Resolver.RearrangedRank | crates/tex-biber/src/bib.rs:257-267 | A rank of the entries in one order gives a rank of them in another. |
| Resolver.InheritRearranged | crates/tex-biber/src/bib.rs:257-351 | Two runs over the same entries in different orders make the same of each, where no name is ambiguous and no walk along the references is closed. |
| SourceMaps.RunExact | crates/tex-biber/src/bib.rs:64-92 | A run with nothing wanted left has mapped exactly the entries that a chain of names and links leads to from a citation. |
| SourceMaps.RunReachable | crates/tex-biber/src/bib.rs:68-92 | Every entry mapped at any point of a run is one that a citation reaches. |
| SourceMaps.RunsAgree | crates/tex-biber/src/bib.rs:68-71 | Mapping the first wanted entry at each turn leaves one run of each length: the order of mapping is determined. |
| SourceMaps.AllInOrder | crates/tex-biber/src/bib.rs:68-71 | For the key `*` the entries are mapped in their order. |
| SourceMaps.CitedAfter | crates/tex-biber/src/bib.rs:72-76 | Of the cited keys, exactly those of dropped entries go. |
| SourceMaps.Run.FirstWanted | crates/tex-biber/src/bib.rs:69-70 | The next entry is the first wanted one not yet mapped. |
| SourceMaps.MapSources | crates/tex-biber/src/bib.rs:59-111 | Each entry mapped is mapped once, at each turn the first one wanted; the entries mapped are exactly the reachable ones (all of them for the key `*`); dropped entries go, created ones take their places; an error is that of a reachable entry. The warnings and the `nocite` set are those that the run determines. The key order for `*` is left out. |
| MappedSources.RetainExact | crates/tex-biber/src/bib.rs:93 | The entries that stay are those not dropped, in their order. |
| MappedSources.PlaceAllExact | crates/tex-biber/src/bib.rs:106-109 | Created entries take the places of the first entries with their keys, the last created of a key winning, and the others come last in their order. |
| MappedSources.LinksExact | crates/tex-biber/src/bib.rs:82-90 | A kept entry makes wanted what the five fields of it, as mapped, and of the entries created with it list; a dropped one nothing. |
| MappedSources.NamesExact | crates/tex-biber/src/bib.rs:69 | An entry is wanted by its key and by its aliases. |
| MappedSources.CitedKept | crates/tex-biber/src/bib.rs:76 | The cited keys stay in their order, without those of dropped entries. |
| MappedSources.WarningsExact | crates/tex-biber/src/bib.rs:75 | The warnings are about the dropped entries whose keys are cited or linked to by one mapped before, in the order of mapping. |
| MappedSources.NociteExact | crates/tex-biber/src/bib.rs:79-85 | With the key `*` cited and listed, exactly the kept and created keys that are not cited are listed too. |
| Chunking.Packer.WriteChunk | crates/tex-kpse/build.rs:1021-1037 | The open chunk is encoded behind the others and emptied; an empty one writes nothing. |
| Chunking.Packer.Add | crates/tex-kpse/build.rs:113-163 | A member whose name is new is kept, and every member kept so far stays where the index says. |
| Chunking.Packer.AddLarge | crates/tex-kpse/build.rs:148-158 | A large member fills whole chunks of its own, one frame each. |
| Chunking.DecodeFramesExact | crates/tex-kpse/src/lib.rs:387-441 | The frames of a large member, decoded and joined, are the member. |
| Chunking.ReadExact | crates/tex-kpse/src/lib.rs:339-377 | A placed member is read back byte for byte if and only if it has at most 128 MiB; a longer one is refused. |
| Chunking.Pack | crates/tex-kpse/build.rs:113-163 | For every member sequence the chunks tile the archive, none decodes to more than 1 MiB, a member of at most 1 MiB lies in one chunk, and each nonempty first-named member reads back. |
| ChunkLayouts.ArchiveInOrder | crates/tex-kpse/build.rs:113-163 | The chunks, decoded and joined, are the kept members in order, and each member begins where the ones before it end. |
| ChunkLayouts.ArchiveGreedy | crates/tex-kpse/build.rs:142-163 | Every chunk but the last has the target size, or is a frame, or the member that begins the next would exceed it; a chunk exceeds it only for one member alone. |
| ChunkLayouts.FramesExact | crates/tex-kpse/build.rs:154-157 | A large member is cut into full frames and a last one, in one way. |
| ChunkLayouts.FirstWinsExact | crates/tex-kpse/build.rs:121-124 | Each name stands for the first member that has it. |
| ChunkLayouts.KeptNames | crates/tex-kpse/build.rs:121-124 | The kept members have the names of all, and no two the same. |
| Chunking.PackOversized | crates/tex-kpse/src/lib.rs:387-390 | A member of 128 MiB and one byte is packed under its name and length, and reading it gives nothing. |
| Windows.MergeSpans | crates/tex-kpse/build.rs:438-453 | Sorting and merging give nonempty windows in order, each apart from the next, that cover exactly what the ranges cover. |
| Windows.CanonicalUnique | crates/tex-kpse/build.rs:438-454 | Only one such list of windows covers a given set of bytes. |
| Windows.FontMetadataWindows | crates/tex-kpse/build.rs:438-454 | The windows carry the data's bytes, and each nonempty range lies within one of them. |
| Words.EncodeDecode | crates/tex-kpse/build.rs:694-722 | A number that fits its field is read back from it, in either byte order. |
| ObjectBytes.DecodeTwo | crates/tex-kpse/build.rs:694-722 | The low byte comes first in one order and last in the other. |
| ObjectBytes.DecodeJoin | crates/tex-kpse/build.rs:694-722 | A number is made of the bytes of its halves in the order asked for. |
| ObjectLayout.BuildNameTable | crates/tex-kpse/build.rs:748-754 | The loop builds the section name table and the offset of each name in it. |
| ObjectLayout.ElfObject | crates/tex-kpse/build.rs:732-821 | The fields written one after another make the header and the trailer that the plan of offsets describes. |
| ObjectLayout.ObjectLengthExact | crates/tex-kpse/build.rs:739-755 | The length computed before any data is known is the length of what is written. |
| ObjectLayout.ArLibraryHeader | crates/tex-kpse/build.rs:944-975 | The symbol index and the member header of a library with one member. |
| ObjectLayout.Library | crates/tex-kpse/build.rs:645-665 | The bytes before and after a blob, with a newline behind an odd object. |
| ObjectRoundTrip.ObjectReads | crates/tex-kpse/build.rs:732-821 | A reader that goes from the ELF header to the symbol table and its strings finds under the symbol exactly the blob, for both word sizes and byte orders. |
| ObjectRoundTrip.SectionsDisjoint | crates/tex-kpse/build.rs:740-806 | The sections a reader finds lie in order without overlap, aligned as they say, between the ELF header and the section headers, which end the object. |
| ObjectRoundTrip.SectionsNamed | crates/tex-kpse/build.rs:746-754 | The name a reader finds for each section is the name it was given. |
| ObjectBytes.HeaderFields | crates/tex-kpse/build.rs:757-773 | A reader finds the header of a relocatable object of the class, byte order, machine and flags asked for, with six sections. |
| ObjectBytes.SectionFields | crates/tex-kpse/build.rs:796-820 | A reader finds the data, in memory and aligned to 16, the note, the symbol table with its two symbols, and the two string tables, with these flags, links and sizes. |
| ObjectBytes.SymbolFields | crates/tex-kpse/build.rs:776-794 | A reader finds under the name a hidden global object over the whole of section 1, behind a symbol of zeros. |
| ObjectBytes.NullSection | crates/tex-kpse/build.rs:807 | The first section header is zeros. |
| LibraryRoundTrip.MemberHeaderReads | crates/tex-kpse/build.rs:977-980 | Name field and size of a member are read back from its 60-byte header while the size has at most ten digits. |
| LibraryRoundTrip.IndexReads | crates/tex-kpse/build.rs:966-971 | Looking up the symbol in the index gives the offset of the member. |
| LibraryRoundTrip.LibraryRoundTrip | crates/tex-kpse/build.rs:645-665 | A linker that looks the symbol up in the index, reads the member and then the object finds exactly the blob, whenever the sizes fit their fields. |
| ObjectBytes.LibraryText | crates/tex-kpse/build.rs:944-980 | Every byte around the object: the magic, the columns of the two member headers, the index and its padding, and a newline behind an object of odd length. |
| LibraryRoundTrip.SourceLibraryReads | crates/tex-kpse/build.rs:746-754 | With the five section names written, every blob below 4 GiB less a page fits and is found under its symbol, in both word sizes and byte orders. |
| LibraryRoundTrip.LibraryHeaderLength | crates/tex-kpse/build.rs:642-644 | The header length depends on neither the blob length nor the hash, and the object starts 8-aligned. |
| LibraryRoundTrip.BlobWriter.Finish | crates/tex-kpse/build.rs:513-522 | Writing the header last, into the room left for it, gives a library from which the linker reads what was written. |
| LibraryRoundTrip.WriteBlob | crates/tex-kpse/build.rs:485-522 | The pieces written one after another come back from the finished file as one blob. |
| ObjectBytes.SymbolSpelt | crates/tex-kpse/build.rs:525-527 | The symbol ends in the 16 hexadecimal digits of the hash. |
| Capture.LinesSplit | scripts/bounded_capture.py:92-113 | Lines and rest spell the stream, and no line holds a newline. |
| ReportedLines.LinesExact | scripts/bounded_capture.py:92-113 | A stream is cut into lines and a rest in one way. |
| ReportedLines.CutExact | scripts/bounded_capture.py:99-104 | A line is scanned up to its 4096th byte. |
| Capture.CollectDistinct | scripts/bounded_capture.py:115-123 | No message is reported twice, and not more than the limit. |
| ReportedLines.CollectExact | scripts/bounded_capture.py:115-123 | Exactly the messages of the first lines that have them are reported, each up to its 160th character, in order and up to the limit. |
| ReportedLines.ErrorsExact | scripts/bounded_capture.py:86-123 | The errors of a stream are those of its lines, a last one without a newline included. |
| Capture.ClosedErrors | scripts/bounded_capture.py:86-123 | Scanning with the open line closed at the end reports what one scan over all lines reports. |
| Capture.SettleExact | scripts/bounded_capture.py:151-163 | Within three turns the printed count is the count omitted. |
| Capture.SourceMarkerGrowsSlowly | scripts/bounded_capture.py:155-157 | The marker has the growth in length that three turns rely on. |
| Capture.RenderTruncatedExact | scripts/bounded_capture.py:142-170 | A truncated rendering with its marker has exactly the limit's bytes, and head, printed count and tail account for the whole stream; without the marker it is the head. |
| Capture.SourceRenderExact | scripts/bounded_capture.py:142-170 | With the marker of the source and any head size that is not negative, a truncated rendering accounts for the whole stream. |
| Capture.RenderWhole | scripts/bounded_capture.py:142-150 | A stream that fits, or any stream without a limit, is rendered as it is. |
| ReportedLines.HeadLimitExact | scripts/bounded_capture.py:44-46 | The head takes an eighth of the limit, at least a byte, and no more than asked for; the tail takes the rest. |
| ReportedLines.SizesExact | scripts/bounded_capture.py:142-170 | The sizes of head, marker and tail of a truncated stream: the marker is left out exactly if it does not fit behind the head. |
| ReportedLines.MarkerExact | scripts/bounded_capture.py:155-157 | The marker is its text around the digits of the omitted count. |
| Capture.NegativeHeadExact | scripts/bounded_capture.py:44-46 | With the marker of the source and a negative head size the rendering accounts for the stream if and only if the markers of the second and third counts are equally long or the latter is too long to keep. |
| Capture.NegativeHeadMiscounts | scripts/bounded_capture.py:151-163 | A stream of 1044 bytes with limit 1000 and head size -40 for which the count printed in the marker of the source is one too small. |
| CaptureBuffers.CaptureBuffer.Feed | scripts/bounded_capture.py:60-84 | However the stream is cut into chunks, the head is its first bytes, the deque holds the last bytes of the rest, and the scan has seen exactly the stream. |
| CaptureBuffers.CaptureBuffer.ScanLines | scripts/bounded_capture.py:92-113 | The loop over the newlines of a chunk scans each line once, a line that is too long as soon as that is known. |
| CaptureBuffers.CaptureBuffer.TrimTail | scripts/bounded_capture.py:76-84 | Dropping whole chunks and then part of one leaves the last bytes up to the tail limit. |
| CaptureBuffers.CaptureBuffer.Rendered | scripts/bounded_capture.py:142-170 | What is rendered is a function of the stream alone. |
| CaptureBuffers.CaptureBuffer.ReportedErrors | scripts/bounded_capture.py:86-123 | At the end of the stream the errors are those of one scan over it. |
| CaptureBuffers.CaptureChunks | scripts/bounded_capture.py:197-214 | A negative limit is refused. The file, its record and the errors of a capture do not depend on how the stream was cut into chunks, and unless the head size is negative a truncated file accounts for the whole stream. |
| ReportedLines.RecordExact | scripts/bounded_capture.py:172-184 | The record has the sizes of the stream and of what is kept, and says exactly if something is not. |
| TexArithmetic.TwiceFractionExact | scripts/bundle_packages.py:2800-2802 | The repeated rounding of the digit loop loses nothing against one rounding at the end. |
| TexArithmetic.DroppedDigits | scripts/bundle_packages.py:2801 | Digits after the 17th never change the result. |
| TexArithmetic.RoundHalfUpNearest | scripts/bundle_packages.py:2803 | The rounded value is the one integer within half a unit, the upper one on a tie. |
| TexArithmetic.TexPtSp | scripts/bundle_packages.py:2797-2803 | Every text is read as a whole number and up to 17 fraction digits or is an error. A decimal of any length gives 65536 times its value, rounded half up; of texts of digits and points, those without whole digits or with a second point among the digits read are errors. |
| TexArithmetic.PointsRounded | scripts/bundle_packages.py:2797-2803 | For every text that is read, whatever digits `int` accepts, the fraction is its digits read, rounded half up. |
| TexArithmetic.LongDivision | scripts/bundle_packages.py:2808-2810 | The digit loop computes quotient and remainder of the scaled dividend. |
| TexArithmetic.DivideScaledOut | scripts/bundle_packages.py:2806-2814 | The result times 10^dd is the multiple of 10^dd next to q*m on the side of s, less than one unit away, where q is the quotient rounded half up. |

## Left out

- Generated Unicode, collation and numeric tables and their inflation: parameters with the facts stated as preconditions.
- Perl regular expressions, LaTeX decoding, name and date parsing, XML: libraries or code that adds bulk.
- In `inherit`: date scopes, annotations and granular XDATA references.
- In source maps: the steps of a map (one function per entry stands for them), the clock-based unique values, and the order of keys for `*`.
- In `elements`: implicit weights and ideograph ranges, which are parameters, and the rearrangement, whose list is always empty.
- In the parser: positions count characters, not UTF-8 bytes, and messages are named errors, not texts.
- In the packer: 32-bit fields of the chunk and index tables, directories, fonts, `zstd` itself, and the cache and threads of the reader.
- In the library writer: Mach-O, COFF and BSD archives, which repeat the idea; the content hash, which is a parameter; sizes that do not fit their fields, for which the source panics.
- In capture: SHA-256, subprocesses, threads and files.
- Floating point: magnification steps, resolutions, rounded sort values and other decimal formatting. `cff_metadata_length` reads one header and adds only easy members.
- Inheritance.InheritFromMixes: states what is outside date scopes; the source also removes the child's own date parts when CROSSREF overrides.
- Inheritance.XdataOverwrites: states what is outside date scopes; the source skips derived date fields.
- Resolver.Resolving.Visit: does not model granular references, which follow the plain ones.
- Resolver.Resolving.FollowReferences: does not model date scopes and annotations.
- Resolver.Inherit: does not model granular references, date scopes and annotations.
- SourceMaps.MapSources: does not model the order of keys for `*`.
- Chunking.Pack: an empty member at the end of the archive may name a chunk that is never written, so its read-back is stated only where its chunk exists.
- RomanNumerals.Roman: does not model the 64 bits in which the sum is kept, which only a text of more than ten million billion letters could exceed.
- NumericSort.IntegerSortValue: does not model the text of a fraction and of a value rounded beyond 64 bits, which are floating point.
- Inheritance.CrossrefAdds: states what is outside date scopes.
- Resolver.OrderIrrelevant: does not model granular references, date scopes and annotations.
- Resolver.InheritRearranged: does not model granular references, date scopes and annotations.
