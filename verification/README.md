# ClearProjMachine asset-reference engine, modelled in Dafny

ClearProjMachine finds the image and effect assets of a Cocos2d-x game
project that nothing uses. Its engine has four parts. This project models
all four and proves what each one promises.

- **Scanners.** They read three kinds of binary container and collect the
  file names inside them:
  - Effekseer effects (`.efk`), materials (`.efkmat`) and models (`.efkmodel`);
  - Cocos2d-x `.c3b` models.
- **Lua analyzer.** It collects the image names that the string literals of
  the code project's Lua files mention.
- **Resolver.** It turns each reference string into a file of the project.
  Five tiers are tried in order:
  1. the absolute path;
  2. the reference joined to a directory;
  3. a match on the path's structure;
  4. a file-name match, with a tie-break on shared directories;
  5. a match on stem and extension.
- **Unused-file search.** It keeps only the references that lie in their
  container's directory scope. It then lists every target file of the
  project that no reference covers, and keeps the window's statistics on
  that list.

The stand-alone tools (`tools/*.py`) run variants of the same string-table
walk over Effekseer files. The project models those variants too.

Each Python loop becomes a Dafny `method` with a `while` loop. The method
is proved against a specification function: a recursive definition of
what the loop computes, usually written one element at a time from the end
of its input. Lemmas then prove what the source promises about that
function:

- what every result contains;
- that nothing qualifying is missed;
- order, absence of duplicates, bounds and permutation.

Objects whose methods update their fields become classes, with `modifies`
clauses that state the whole new state:

- `EfkScanner`, `C3bScanner`, `LuaAnalyzer`, `C3bParser`;
- the analyzer objects of the tools;
- the window's list of unused files.

The world outside the program is passed in as a parameter:

- the file system is the list of its files in the order `os.walk` visits
  them;
- a file's bytes are a function of its path;
- the regular-expression searches are given as the matches they return;
- parsing a `.c3b` file is given as its outcome.

Text is `seq<char>` and bytes are integers in 0..255. `isalnum`,
`isprintable`, `isspace` and `lower` are their ASCII definitions. Paths
follow Windows (`ntpath`) syntax: both `\` and `/` separate components.

Modules, by source file:

| source file | modules |
|---|---|
| src/scanner/efk_scanner.py | `EfkStrings`, `RecordWalk`, `PathTokens`, `EfkByteSearch`, `EfkModelRefs`, `EfkContent`, `EfkScanner` |
| src/scanner/c3b_scanner.py | `C3bScanner`, `ScanResults` |
| src/utils/lua_analyzer.py | `LuaAnalyzer` |
| src/gui/main_window.py | `Resolver`, `DirScope`, `UnusedFiles` |
| tools/precise_efk_parser.py | `PreciseEfkParser` |
| tools/correct_efk_parser.py | `CorrectEfkParser` |
| tools/final_efk_analyzer.py | `FinalEfkAnalyzer` |
| tools/extract_efk_strings.py | `ExtractEfkStrings` |
| tools/deep_efk_analyzer.py | `DeepEfk`, `ByteRuns` |
| tools/analyze_efk.py | `AnalyzeEfk`, `AnalyzeEfkBinary`, `AnalyzeEfkRefs` |
| tools/c3b_parser.py | `C3bParser` |
| shared | `Common`, `Codecs`, `Paths`, `Extensions` |

## Model

| member | source | states |
|---|---|---|
| Extensions.MentionsFromIff | src/scanner/efk_scanner.py:296 | the extension test over a list succeeds exactly when one of its extensions occurs as a substring of the lower-cased string |
| Paths.BasenameFacts | src/gui/main_window.py:1074 | the base name is a suffix of the reference and holds no separator |
| Paths.ExtStartFacts | src/gui/main_window.py:1075 | `splitext` cuts at a dot of the last component that has a non-dot before it in that component, and no dot or separator follows the cut |
| Paths.SplitExtFacts | src/gui/main_window.py:1075 | root and extension concatenate back to the name; the extension is empty or a dot followed by neither dots nor separators; a non-empty extension leaves a root with a non-dot character |
| Paths.LowerSplitExt | src/gui/main_window.py:1074-1075 | the extension of the lower-cased name is the lower-cased extension, so lower-casing before `splitext` changes only case |
| Codecs.DecodeUtf16From | src/scanner/efk_scanner.py:420 | strict UTF-16 decoding succeeds only on an even number of bytes and yields at most one character per code unit |
| Codecs.Utf16AsciiRoundTrip | src/scanner/efk_scanner.py:420 | the UTF-16LE encoding of ASCII text decodes back to that text |
| Codecs.Utf8At | tools/c3b_parser.py:85 | a well-formed UTF-8 sequence is one to four bytes long and fits in the buffer; it is one byte long exactly when its first byte is below 0x80 |
| Codecs.DecodeUtf8IgnoreFrom | tools/c3b_parser.py:36 | UTF-8 decoding with errors ignored yields no more characters than there are bytes |
| Codecs.DecodeAscii | src/scanner/efk_scanner.py:472 | strict ASCII decoding succeeds exactly when every byte is below 128, with one character per byte |
| Codecs.DecodeAsciiIgnore | src/scanner/efk_scanner.py:705 | ASCII decoding with errors ignored keeps every byte exactly when all are below 128, and never yields more characters than bytes |
| Codecs.AsciiIgnoreAgrees | src/scanner/efk_scanner.py:705 | on ASCII bytes, ignoring errors and strict decoding give the same text |
| Codecs.AsciiIsUtf8 | tools/c3b_parser.py:85 | strict UTF-8 decoding of ASCII bytes succeeds with the same text |
| ByteRuns.SpansFrom | tools/deep_efk_analyzer.py:157-178 | every span found is a non-empty range inside the buffer, at or after the starting offset |
| ByteRuns.SpansMaximal | tools/deep_efk_analyzer.py:157-178 | every span found from a run boundary is a maximal run of at least the minimum length of bytes of the class |
| ByteRuns.SpansSeparated | tools/deep_efk_analyzer.py:157-178 | the spans found are ascending and separated by at least one byte |
| ByteRuns.SpansComplete | tools/deep_efk_analyzer.py:157-178 | every maximal run of at least the minimum length after a boundary is among the spans found |
| ByteRuns.PrintableRuns | tools/deep_efk_analyzer.py:154-178 | the accumulator loop over bytes 32..126, including the run still open at the end, emits exactly the position and text of every maximal printable run of at least the minimum length |
| RecordWalk.WalkEmit | tools/correct_efk_parser.py:29-47 | a length prefix in 1..999 whose record fits and decodes is emitted with its offset, length and text, and the cursor moves past it |
| RecordWalk.WalkMiss | tools/correct_efk_parser.py:79-92 | a plausible record that does not decode moves the cursor one byte on, or past the whole record in the variant that skips it |
| RecordWalk.WalkStep | tools/correct_efk_parser.py:54 | any other offset moves the cursor one byte on |
| RecordWalk.WalkValid | tools/correct_efk_parser.py:25-56 | every record the walk emits lies at or after the cursor start, has a prefix in 1..999 whose record fits, and decodes to its text |
| RecordWalk.WalkAscending | tools/correct_efk_parser.py:25-56 | the records the walk emits are in ascending order and do not overlap |
| RecordWalk.WalkRecords | tools/correct_efk_parser.py:21-56 | the cursor loop from offset 4 emits exactly the walk's records, which are valid, ascending and disjoint |
| RecordWalk.PartitionIsPermutation | tools/correct_efk_parser.py:102-103 | the file-path half and the other half together hold every record exactly once |
| RecordWalk.FilterSound | tools/correct_efk_parser.py:102-103 | each half holds only records of the input that the extension test puts on that side |
| RecordWalk.Partition | tools/correct_efk_parser.py:102-103 | the two list comprehensions split the records by the extension test, in order, and together they are a permutation of the input |
| EfkStrings.FirstPrintableDecodeFacts | src/scanner/efk_scanner.py:450-461 | the decoding kept holds a printable character and comes from one of the two byte orders; little-endian wins whenever it qualifies; nothing is kept only when neither qualifies |
| EfkStrings.UnalignedAt | src/scanner/efk_scanner.py:442-459 | a record taken at an offset carries that offset |
| EfkStrings.UnalignedMembers | src/scanner/efk_scanner.py:439-463 | every record of the unaligned pass is the one taken at its own offset, an even offset below the buffer length minus four |
| EfkStrings.UnalignedAscending | src/scanner/efk_scanner.py:439-463 | the unaligned pass emits at most one record per offset, in ascending order of offset |
| EfkStrings.TryUnalignedAt | src/scanner/efk_scanner.py:442-461 | one offset reads the length prefix and, for a length in 1..499 that fits, tries little-endian then big-endian; the result is the record the pass takes there |
| EfkStrings.UnalignedPass | src/scanner/efk_scanner.py:439-463 | the loop over offsets 0, 2, 4, ... below the buffer length minus four emits exactly the unaligned pass's records |
| EfkStrings.RunRecords | src/scanner/efk_scanner.py:479-483 | each printable run becomes a record with the run's position, text and character count as its length |
| EfkStrings.AsciiPass | src/scanner/efk_scanner.py:467-501 | the ASCII pass emits exactly the maximal runs of at least four printable bytes, each with its offset and text |
| EfkStrings.DedupSound | src/scanner/efk_scanner.py:503-511 | deduplication keeps only records whose text is unseen and longer than two characters, each the first record with its text |
| EfkStrings.DedupComplete | src/scanner/efk_scanner.py:503-511 | deduplication keeps the first record of every unseen text longer than two characters |
| EfkStrings.DedupUnseen | src/scanner/efk_scanner.py:505-509 | no kept record carries a text already seen when deduplication starts |
| EfkStrings.DedupDistinct | src/scanner/efk_scanner.py:503-511 | no two kept records share a text |
| EfkStrings.Dedup | src/scanner/efk_scanner.py:503-513 | the loop with a set of seen texts computes the deduplication |
| EfkStrings.ParseUtf16Strings | src/scanner/efk_scanner.py:392-513 | the aligned walk, the unaligned pass and the ASCII pass, deduplicated: texts are distinct and longer than two characters, and each result is the first record with its text among all passes' records, and every such first record is kept |
| PathTokens.NoForbiddenCharIff | src/scanner/efk_scanner.py:817-819 | a path is free of forbidden characters exactly when none of its characters is one of `<`, `>`, `:`, `"`, `?`, `*` or the vertical bar |
| PathTokens.PathExtensionShape | src/scanner/efk_scanner.py:526-530 | each of the nineteen path extensions is a dot followed by at least three lower-case letters or digits |
| PathTokens.ValidPathIsLong | src/scanner/efk_scanner.py:806-825 | a path that passes the filter is at least five characters long |
| PathTokens.LeftEdgeFacts | src/scanner/efk_scanner.py:554-562 | the left edge passes only letters, digits, `.`, `_`, `-` and spaces, and stops at the start of the string or just after any other character (separators included) |
| PathTokens.RightEdgeFacts | tools/precise_efk_parser.py:43-50 | the right edge passes only token characters and stops at the end of the string or at a character that is not one |
| PathTokens.ExpandLeft | src/scanner/efk_scanner.py:554-562 | the left-expansion loop stops exactly at the left edge |
| PathTokens.ExpandRight | tools/precise_efk_parser.py:43-50 | the right-expansion loop stops exactly at the right edge |
| PathTokens.KeepValidAllSound | src/scanner/efk_scanner.py:542-543 | the filter keeps only non-empty members of its input that pass `_is_valid_file_path` |
| PathTokens.StripChars | src/scanner/efk_scanner.py:567 | every character of a stripped string comes from the string |
| PathTokens.DirectStep | src/scanner/efk_scanner.py:548-571 | one round of the direct search takes the window at the first occurrence at or after the cursor and resumes just after the occurrence |
| PathTokens.DirectTokenAt | src/scanner/efk_scanner.py:554-567 | the token taken at an occurrence runs from the left edge to the end of the extension, stripped |
| PathTokens.DirectKeptStep | src/scanner/efk_scanner.py:565-571 | the kept tokens from the cursor are the kept token at the first occurrence followed by those after it, and the cursor strictly advances |
| PathTokens.DirectRound | src/scanner/efk_scanner.py:549-571 | one pass of the loop body appends the token when it passes the filter and keeps the loop invariant, with a cursor that strictly advances |
| PathTokens.DirectSearch | src/scanner/efk_scanner.py:546-571 | the direct search loop for one extension collects exactly the kept windows, in order |
| PathTokens.LeftWindowChars | src/scanner/efk_scanner.py:554-562 | the text from the left edge to the occurrence holds only token characters |
| PathTokens.StripTokenChars | src/scanner/efk_scanner.py:567 | stripping a string of token characters leaves a string of token characters |
| PathTokens.StripWindowShape | src/scanner/efk_scanner.py:565-567 | token characters followed by an extension, stripped, end with that extension and hold only token characters |
| PathTokens.DirectTokenShape | src/scanner/efk_scanner.py:554-567 | a direct-search window ends with the extension occurrence that produced it and contains no separator |
| PathTokens.DirectWindowsShape | src/scanner/efk_scanner.py:548-571 | every window of the direct search ends with the extension and holds only token characters |
| PathTokens.DirectTokensShape | src/scanner/efk_scanner.py:546-571 | every direct-search token passes the filter, ends with the extension and holds no separator |
| PathTokens.Utf16Pattern | src/scanner/efk_scanner.py:578 | the pattern is at least as long as the extension |
| PathTokens.Utf16PatternOfExtension | src/scanner/efk_scanner.py:578 | for a path extension the pattern is a dot, a NUL, then the rest of the extension |
| PathTokens.Utf16Step | src/scanner/efk_scanner.py:580-601 | one round of the UTF-16 search takes the window at the first match and resumes `len(ext)` characters after it |
| PathTokens.Utf16KeptStep | src/scanner/efk_scanner.py:596-601 | the kept tokens from the cursor are the kept token at the first match followed by those after it, and the cursor strictly advances |
| PathTokens.Utf16TokenAt | src/scanner/efk_scanner.py:586-597 | the token taken at a match runs from the left edge to the window end, with NULs removed, stripped |
| PathTokens.Utf16Round | src/scanner/efk_scanner.py:581-601 | one pass of the loop body appends the token when it passes the filter and keeps the loop invariant |
| PathTokens.Utf16Search | src/scanner/efk_scanner.py:575-601 | the UTF-16 search loop for one extension collects exactly the kept windows, in order, for the chosen window end |
| PathTokens.Utf16Unnul | src/scanner/efk_scanner.py:596-597 | removing NULs from the window leaves the token characters before the match followed by the extension's first `width - 1` characters |
| PathTokens.Utf16TokenShape | src/scanner/efk_scanner.py:586-597 | a UTF-16 token ends with what the window keeps of the extension and holds neither a NUL nor a separator |
| PathTokens.KeptSuffixWidth | src/scanner/efk_scanner.py:596 | either window end keeps the dot and at least one more character, and keeps the extension's first `width - 1` characters |
| PathTokens.Utf16WindowsShape | src/scanner/efk_scanner.py:580-601 | every UTF-16 window ends with what its end keeps of the extension and holds only token characters |
| PathTokens.ExtOfDottedSuffix | src/scanner/efk_scanner.py:811 | a string ending with a dot and non-dot, non-separator characters has either no extension or exactly that ending as its extension |
| PathTokens.TruncatedExtensionIsNotExtension | src/scanner/efk_scanner.py:526-530 | none of the nineteen extensions with its last character cut off is itself one of them |
| PathTokens.TruncatedTokenInvalid | src/scanner/efk_scanner.py:806-814 | a token ending with a path extension minus its last character never passes the filter |
| PathTokens.KeepValidAllNone | src/scanner/efk_scanner.py:598-599 | the filter drops a list none of whose members passes it |
| PathTokens.Utf16AsWrittenYieldsNothing | src/scanner/efk_scanner.py:575-601 | the UTF-16 search as written, whose window ends `len(ext)` characters after the match, never yields a token for any of the nineteen extensions |
| PathTokens.Utf16TokensShape | src/scanner/efk_scanner.py:575-601 | with the window covering the whole matched pattern, every UTF-16 token passes the filter, ends with the extension and holds no NUL |
| PathTokens.ClassEndFacts | src/scanner/efk_scanner.py:537 | a run of the character class `[a-zA-Z0-9_\-\.\\\/\s]` holds only class characters and ends at the end of the string or at a character outside the class |
| PathTokens.CiOccursAtSlice | src/scanner/efk_scanner.py:538 | a case-insensitive occurrence of the extension is a slice that lower-cases to it |
| PathTokens.LastCiOccurrenceFacts | src/scanner/efk_scanner.py:537-538 | the greedy class run backs off to the last case-insensitive occurrence of the extension inside it, and finds none only when there is none |
| PathTokens.PatternMatchesFacts | src/scanner/efk_scanner.py:537-538 | every `findall` match is at least one class character followed by the extension in some case |
| PathTokens.CleanValidSound | src/scanner/efk_scanner.py:539-543 | every cleaned match kept is non-empty and passes the filter |
| PathTokens.CandidatesValid | src/scanner/efk_scanner.py:534-601 | every token the three searches collect passes the filter |
| PathTokens.LengthFilterKeepsValid | src/scanner/efk_scanner.py:606 | the final `len(path) > 3` test drops no collected token, since each passes the filter |
| PathTokens.PassesOfEmpty | src/scanner/efk_scanner.py:534-601 | none of the searches finds anything in an empty string |
| PathTokens.EmptyStringHasNoCandidates | src/scanner/efk_scanner.py:534-601 | an empty string yields no candidate token |
| PathTokens.KeepDistinctLong | src/scanner/efk_scanner.py:603-607 | the final loop keeps each path longer than three characters the first time it appears |
| PathTokens.PatternSearch | src/scanner/efk_scanner.py:537-543 | the pattern search for one extension strips every match and keeps those that pass the filter |
| PathTokens.CleanRound | src/scanner/efk_scanner.py:539-543 | one pass of the loop body appends the stripped match when it passes the filter and keeps the invariant |
| PathTokens.PatternSearches | src/scanner/efk_scanner.py:535-543 | the pattern search runs for every extension in turn |
| PathTokens.DirectSearches | src/scanner/efk_scanner.py:546-571 | the direct search runs for every extension in turn |
| PathTokens.Utf16Searches | src/scanner/efk_scanner.py:575-601 | the UTF-16 search runs for every extension in turn and collects exactly the third pass for the given window end; `_extract_file_paths_from_string` runs it with the window as written |
| PathTokens.ExtractFacts | src/scanner/efk_scanner.py:603-609 | the final filter leaves no duplicates, keeps exactly the collected tokens of the three searches as written, each valid and longer than three characters, and gives nothing for an empty string |
| PathTokens.MentionedPathsFacts | src/scanner/efk_scanner.py:295-299 | a recovered text contributes a path exactly when it mentions one of the extensions and the path is among the tokens the three searches as written collect from it, and each such path passes the filter |
| PathTokens.ExtractFilePathsFromString | src/scanner/efk_scanner.py:515-609 | `_extract_file_paths_from_string` returns the collected tokens without duplicates, in first-seen order; since the third search as written adds nothing, the result holds exactly the tokens of the pattern and direct searches; each passes the filter and is longer than three characters; an empty string gives nothing |
| PathTokens.Utf16AddsNothing | src/scanner/efk_scanner.py:575-601 | with its window as written, the third search contributes no token, so the collected tokens are those of the first two searches |
| PathTokens.Utf16PassAsWritten | src/scanner/efk_scanner.py:575-601 | the third search as written yields nothing for each of the nineteen extensions from any index on |
| PathTokens.FirstTwoSearches | src/scanner/efk_scanner.py:603-609 | a list holding exactly the collected tokens holds exactly the tokens of the first two searches |
| PathTokens.Utf16PassValid | src/scanner/efk_scanner.py:575-601 | the intended half: with the whole pattern in the window, every token of the third search over a list of extensions passes the path filter |
| PreciseEfkParser.WindowFacts | tools/precise_efk_parser.py:33-52 | a token holds the extension occurrence that produced it, contains no separator, and cannot be widened on either side |
| PreciseEfkParser.WindowsSound | tools/precise_efk_parser.py:26-56 | every token found for an extension comes from one of its occurrences at or after the search start |
| PreciseEfkParser.WindowsComplete | tools/precise_efk_parser.py:26-56 | every occurrence at or after the search start, overlapping ones included, contributes its token |
| PreciseEfkParser.WindowsIff | tools/precise_efk_parser.py:26-56 | the search for one extension yields exactly the tokens of its occurrences |
| PreciseEfkParser.TokensFromSound | tools/precise_efk_parser.py:25-56 | every token comes from an occurrence of one of the extensions |
| PreciseEfkParser.TokensFromComplete | tools/precise_efk_parser.py:25-56 | the token of every occurrence of every extension is collected |
| PreciseEfkParser.WindowsHit | tools/precise_efk_parser.py:28-56 | a hit emits its token and the search resumes one character after the hit |
| PreciseEfkParser.WindowsDone | tools/precise_efk_parser.py:29-30 | the search ends when no further occurrence exists |
| PreciseEfkParser.AppendNewConcat | tools/precise_efk_parser.py:53-54 | appending unseen tokens for one extension after another is the same as appending the concatenation |
| PreciseEfkParser.TokenAt | tools/precise_efk_parser.py:33-52 | the two expansion loops around a hit produce exactly the token there |
| PreciseEfkParser.SplitOne | tools/precise_efk_parser.py:26-56 | the loop for one extension appends each hit's token unless already listed |
| PreciseEfkParser.SplitPaths | tools/precise_efk_parser.py:25-58 | the splitter over any list of extensions appends each new token in extension order |
| PreciseEfkParser.ExtractFilePathsFromString | tools/precise_efk_parser.py:14-58 | `extract_file_paths_from_string` over its nine extensions returns each collected token once, in first-seen order |
| PreciseEfkParser.SplitPathsFacts | tools/precise_efk_parser.py:53-54 | the result has no duplicates and holds exactly the tokens of the occurrences of the extensions |
| PreciseEfkParser.SplitPathShape | tools/precise_efk_parser.py:33-52 | every returned path contains one of the extensions and contains no `\` or `/` |
| PreciseEfkParser.ReferenceExtensionsHaveNoSeparator | tools/precise_efk_parser.py:17-20 | none of the nine extensions contains a separator |
| PreciseEfkParser.EntriesFor | tools/precise_efk_parser.py:129-134 | one entry per extracted path, in order, each carrying the record's position and whole string |
| PreciseEfkParser.PathEntriesIff | tools/precise_efk_parser.py:122-136 | an entry is in `file_paths` exactly when some record's lower-cased string holds one of the extensions and the entry carries that record's position, its string and a path the splitter cuts out of it |
| PreciseEfkParser.PathEntryShape | tools/precise_efk_parser.py:126-134 | every extracted path holds one of the nine extensions and contains no `\` or `/` |
| PreciseEfkParser.AppendEntries | tools/precise_efk_parser.py:129-134 | the inner loop appends one entry per extracted path, in the splitter's order |
| PreciseEfkParser.SplitRecords | tools/precise_efk_parser.py:122-136 | the record loop builds `file_paths` record by record and keeps every record naming no file in `other_strings`, in order |
| PreciseEfkParser.AnalyzeEfkFilePrecisely | tools/precise_efk_parser.py:109-151 | `all_strings` is the little-endian walk stepping one byte past a failed decode, `file_paths` its entries and `other_strings` the records in which no extension occurs, each of them a recovered record |
| CorrectEfkParser.ParseEfkStrings | tools/correct_efk_parser.py:21-56 | the cursor loop emits exactly the walk that steps one byte on a failed decode; records are valid, ascending and disjoint; `parse_efk_file_precisely` and `parse_efk_strings_correctly` of the precise parser and the final analyzer repeat this loop |
| CorrectEfkParser.AnalyzeEfkStructure | tools/correct_efk_parser.py:70-103 | the loop that skips a plausible record even when it does not decode emits valid, ascending, disjoint records, and the file paths and other strings partition them in order by the extension test |
| FinalEfkAnalyzer.AnalyzeEfkFileFinal | tools/final_efk_analyzer.py:66-79 | every string lands in exactly one of the two lists, in walk order, the file-path list holding exactly those that mention one of the nine extensions |
| ExtractEfkStrings.ExtractUtf16Strings | tools/extract_efk_strings.py:21-65 | the cursor loop tries UTF-16LE then UTF-16BE, skips a plausible record whether or not it decodes, and emits valid, ascending, disjoint records |
| ExtractEfkStrings.AnalyzeEfkFile | tools/extract_efk_strings.py:75-88 | every extracted string lands in exactly one of the two lists, in order, by the extension test |
| ExtractEfkStrings.FallbackKeepsLittleEndian | tools/extract_efk_strings.py:37-60 | with whole records skipped, the big-endian fallback only adds strings: every record the little-endian-only walk finds is also found |
| DeepEfk.Hex | tools/deep_efk_analyzer.py:65 | the hex dump has two digits per byte |
| DeepEfk.HeaderIsEfk | tools/deep_efk_analyzer.py:56-82 | nothing is recorded for a buffer shorter than four bytes; otherwise the file is marked as EFK exactly when its first four bytes spell `EFKS` |
| DeepEfk.FirstNulFirst | tools/deep_efk_analyzer.py:131-132 | the zero byte found is the first in the range, and none is found only when the range holds none |
| DeepEfk.SectionAt | tools/deep_efk_analyzer.py:105-145 | a section found at an offset starts there and ends strictly after it, inside the buffer |
| DeepEfk.SectionAtPrefixed | tools/deep_efk_analyzer.py:111-126 | a little-endian length in 1..999999 whose section fits is accepted, and the section ends `4 + L` bytes on and holds the `L` bytes after the prefix |
| DeepEfk.SectionAtFallback | tools/deep_efk_analyzer.py:130-145 | otherwise the section ends at the first zero byte after the start and less than 100 bytes on, and there is none exactly when no such byte exists |
| DeepEfk.AnalyzeSectionAt | tools/deep_efk_analyzer.py:105-145 | the probe with its search loop for a zero byte returns exactly the section the definition gives |
| DeepEfk.SectionsDisjoint | tools/deep_efk_analyzer.py:92-100 | the sections of the walk lie at or after its start, ascend and do not overlap |
| DeepEfk.SectionsProbed | tools/deep_efk_analyzer.py:94-100 | each section of the walk is what the probe finds at its start |
| DeepEfk.AnalyzeStructure | tools/deep_efk_analyzer.py:84-102 | the section loop from offset 4 jumps to the end of each section found, or one byte on, and its sections are probed, ascending and disjoint |
| DeepEfk.ExtractStringTable | tools/deep_efk_analyzer.py:147-180 | the string table lists exactly the maximal runs of at least three bytes in 32..126, each with its start offset, its bytes as text and its length |
| DeepEfk.ExtractFilePath | tools/deep_efk_analyzer.py:230-263 | the method with its two expansion loops computes the token around the first occurrence, kept only when it ends with the extension |
| DeepEfk.FilePathInPresent | tools/deep_efk_analyzer.py:208-210 | a path is found only for an extension the content contains, so the `ext in content` test before the call changes nothing |
| DeepEfk.FilePathInShape | tools/deep_efk_analyzer.py:233-261 | a found path is the token around the first occurrence, ends with the extension and contains no separator |
| DeepEfk.FilePathInTight | tools/deep_efk_analyzer.py:233-261 | when the first occurrence is not followed by a token character, the token around it is returned |
| DeepEfk.FirstReferenceAt | tools/deep_efk_analyzer.py:207-218 | a string's reference comes from the first extension in list order that yields a path |
| DeepEfk.FirstReferenceNone | tools/deep_efk_analyzer.py:207-218 | a string yields no reference when no extension yields a path |
| DeepEfk.ReferencesOf | tools/deep_efk_analyzer.py:203-218 | at most one reference per string |
| DeepEfk.DedupPathsSound | tools/deep_efk_analyzer.py:220-225 | every kept reference is the first one to its path, and its path was not seen before |
| DeepEfk.DedupPathsComplete | tools/deep_efk_analyzer.py:220-225 | the first reference to every unseen path is kept |
| DeepEfk.DedupPathsDistinct | tools/deep_efk_analyzer.py:220-227 | no two kept references share a path |
| DeepEfk.ReferenceOf | tools/deep_efk_analyzer.py:204-218 | the loop over the extensions stops at the first that yields a path |
| DeepEfk.CollectReferences | tools/deep_efk_analyzer.py:203-218 | the loop over the string table collects at most one reference per string, in string order |
| DeepEfk.UniqueByPath | tools/deep_efk_analyzer.py:220-227 | the dictionary loop keeps the first reference to each path, in first-seen order |
| DeepEfk.FindReferences | tools/deep_efk_analyzer.py:189-227 | `_analyze_references` returns the first reference to each path over the per-string references |
| DeepEfk.DeepEfkAnalyzer.constructor | tools/deep_efk_analyzer.py:18-27 | the analyzer starts with the file's bytes and an empty result |
| DeepEfk.DeepEfkAnalyzer.AnalyzeHeader | tools/deep_efk_analyzer.py:56-82 | the header part is left alone for a buffer shorter than four bytes and set from the first four bytes otherwise; nothing else changes |
| DeepEfk.DeepEfkAnalyzer.AnalyzeStructureStep | tools/deep_efk_analyzer.py:84-102 | the section part is set to the walk's sections; nothing else changes |
| DeepEfk.DeepEfkAnalyzer.ExtractStringTableStep | tools/deep_efk_analyzer.py:147-180 | the string-table part is set to the printable runs of at least three bytes; nothing else changes |
| DeepEfk.DeepEfkAnalyzer.AnalyzeReferences | tools/deep_efk_analyzer.py:189-227 | the reference part is computed from the stored string table with the fourteen extensions; nothing else changes |
| DeepEfk.DeepEfkAnalyzer.Analyze | tools/deep_efk_analyzer.py:29-48 | the four steps in order leave the header, sections, string table and references each as its own step defines them |
| AnalyzeEfk.Readable | tools/analyze_efk.py:130 | the readable-character count is at most the text's length |
| AnalyzeEfk.ReadableFacts | tools/analyze_efk.py:130 | the count adds up over concatenated texts, equals the length exactly when every character is printable, and is zero exactly when none is |
| AnalyzeEfk.EfkAnalyzer.constructor | tools/analyze_efk.py:20-30 | the analyzer starts with the file's bytes and an empty result |
| AnalyzeEfk.EfkAnalyzer.AnalyzeTextContent | tools/analyze_efk.py:117-146 | since decoding with errors ignored cannot fail, exactly one text entry is recorded, for `utf-8`, with the decoded text, its length and its printable count; the found paths are stored; nothing else changes |
| AnalyzeEfk.EfkAnalyzer.AnalyzeBinaryContent | tools/analyze_efk.py:198-294 | the ten most common bytes, the signature flags, the pattern positions and the null runs (recorded only when some zero byte exists) are set from the content; nothing else changes |
| AnalyzeEfk.EfkAnalyzer.ExtractReferencedFiles | tools/analyze_efk.py:296-338 | the referenced files are the text-pass paths followed by the paths found around every binary pattern hit with the extension alternatives in the pattern's own order, one entry per path with the sources merged; nothing else changes |
| AnalyzeEfk.EfkAnalyzer.Analyze | tools/analyze_efk.py:32-58 | the text pass, the binary passes and then the references: the new text entry, most-common bytes, signature flags, pattern hits, null runs and referenced files are each what its own step computes |
| AnalyzeEfkBinary.FirstSeenFacts | tools/analyze_efk.py:203-205 | the dictionary's keys list each byte of the content exactly once |
| AnalyzeEfkBinary.ZeroPositions | tools/analyze_efk.py:270-273 | every listed offset holds a zero byte |
| AnalyzeEfkBinary.ZeroPositionsHead | tools/analyze_efk.py:270-273 | only non-zero bytes precede the first listed zero, and the rest of the list follows it |
| AnalyzeEfkBinary.ZeroPositionsEmpty | tools/analyze_efk.py:276 | `null_positions` is empty exactly when the content has no zero byte |
| AnalyzeEfkBinary.NullPositions | tools/analyze_efk.py:270-273 | the first loop collects the offsets of all zero bytes, ascending |
| AnalyzeEfkBinary.NullRuns | tools/analyze_efk.py:264-294 | nothing is recorded when there is no zero byte; otherwise `null_runs` lists, as `(start, count)`, exactly the maximal runs of two or more zero bytes |
| AnalyzeEfkBinary.NullRunsMaximal | tools/analyze_efk.py:281-291 | each entry of `null_runs` is a maximal run of two or more zero bytes |
| AnalyzeEfkBinary.NullRunsComplete | tools/analyze_efk.py:281-291 | every maximal run of two or more zero bytes is an entry |
| AnalyzeEfkBinary.NullRunsAscending | tools/analyze_efk.py:281-291 | the entries ascend, each ending before the next starts |
| AnalyzeEfkBinary.CountTotalSnoc | tools/analyze_efk.py:203-205 | adding a key adds its count to the total |
| AnalyzeEfkBinary.CountBytes | tools/analyze_efk.py:203-205 | every byte of the content is a key, in order of first appearance, mapped to its number of occurrences, and the counts sum to the content's length |
| AnalyzeEfkBinary.Items | tools/analyze_efk.py:208 | `items()` pairs each key with its count, in key order |
| AnalyzeEfkBinary.Histogram | tools/analyze_efk.py:208 | the histogram pairs each key with its multiplicity, in key order |
| AnalyzeEfkBinary.InsertByCount | tools/analyze_efk.py:208 | inserting an item adds exactly that item |
| AnalyzeEfkBinary.InsertByCountSorted | tools/analyze_efk.py:208 | inserting into a count-descending list keeps it count-descending and puts the item before every later item of equal count |
| AnalyzeEfkBinary.SortByCountFacts | tools/analyze_efk.py:208 | the stable sort by count, descending, orders by count and is a permutation |
| AnalyzeEfkBinary.MostCommonFacts | tools/analyze_efk.py:208-209 | `most_common_bytes` has ten entries, or all when fewer, by count descending, all from the items |
| AnalyzeEfkBinary.MostCommonTop | tools/analyze_efk.py:208 | no item left out counts more than a kept one |
| AnalyzeEfkBinary.OccurrencesSound | tools/analyze_efk.py:249-256 | every listed position is an occurrence of the pattern |
| AnalyzeEfkBinary.OccurrencesComplete | tools/analyze_efk.py:249-256 | every occurrence, overlapping ones included, is listed |
| AnalyzeEfkBinary.OccurrencesAscending | tools/analyze_efk.py:249-256 | the positions strictly ascend |
| AnalyzeEfkBinary.FindAll | tools/analyze_efk.py:249-256 | the `find` loop restarted one past each hit collects exactly the occurrences |
| AnalyzeEfkBinary.SignatureFlagsIff | tools/analyze_efk.py:243-245 | a signature flag is set exactly when the content starts with a signature of that description |
| AnalyzeEfkBinary.PatternHitsIff | tools/analyze_efk.py:248-259 | an entry is recorded exactly when its pattern occurs, and then with every occurrence |
| AnalyzeEfkBinary.CheckSignatures | tools/analyze_efk.py:243-245 | the signature loop sets exactly the flags of the signatures the content starts with |
| AnalyzeEfkBinary.SearchPatterns | tools/analyze_efk.py:248-259 | the pattern loop records exactly the patterns that occur, with their positions |
| AnalyzeEfkBinary.MostCommonBytes | tools/analyze_efk.py:203-209 | the byte statistics are the ten most common bytes of the histogram, most frequent first |
| AnalyzeEfkRefs.FirstAlternative | tools/analyze_efk.py:354 | the alternative the group picks is one of its alternatives and matches there, ignoring case |
| AnalyzeEfkRefs.FirstAlternativeComplete | tools/analyze_efk.py:354 | the group fails only where no alternative matches |
| AnalyzeEfkRefs.LongestAlternativeWins | tools/analyze_efk.py:354 | with the alternatives ordered longest first, the group picks the longest alternative that matches |
| AnalyzeEfkRefs.LongestFirstIsDescending | tools/analyze_efk.py:354 | the reordered alternatives are the same set as written, in non-increasing length |
| AnalyzeEfkRefs.QuoteEnd | tools/analyze_efk.py:354 | `[^"']*` stops at the first quote or the end of the text |
| AnalyzeEfkRefs.LastDotFinds | tools/analyze_efk.py:354 | the greedy prefix backs off to the last dot inside the stretch that an alternative follows, and skips no later one |
| AnalyzeEfkRefs.FirstPathMatchShape | tools/analyze_efk.py:354-358 | every match is a quote-free run ending in a dot and an alternative |
| AnalyzeEfkRefs.FirstPathMatchFound | tools/analyze_efk.py:354-358 | the search succeeds whenever some dot at or after the start is followed by an alternative |
| AnalyzeEfkRefs.EfkmatTruncated | tools/analyze_efk.py:354 | with the extension group as written, the text `a.efkmat` is matched as `a.efk` |
| AnalyzeEfkRefs.EfkmatKept | tools/analyze_efk.py:354 | with the alternatives longest first, `a.efkmat` is matched whole |
| AnalyzeEfkRefs.PathAtPosition | tools/analyze_efk.py:340-343 | a position at or past the end of the content gives no path |
| AnalyzeEfkRefs.PathAtPositionLocal | tools/analyze_efk.py:346-351 | only the window `[max(0, p-200), min(len, p+200))` matters: contents that agree there give the same path |
| AnalyzeEfkRefs.PathAtPositionShape | tools/analyze_efk.py:340-362 | a path is found only for a position inside the content, from a window of at most 400 bytes around it, and has the shape of a path match |
| AnalyzeEfkRefs.FirstForAt | tools/analyze_efk.py:328-332 | the kept entry for a path is the one at the first index carrying it |
| AnalyzeEfkRefs.UniqueFilesFacts | tools/analyze_efk.py:327-337 | one entry per path, for every path of the input, in first-seen order, each with its first entry's position and all its sources joined |
| AnalyzeEfkRefs.MergedSame | tools/analyze_efk.py:333-335 | a later entry for a known path only appends `, ` and its source |
| AnalyzeEfkRefs.MergedNew | tools/analyze_efk.py:331-332 | the first entry for a path is kept as it is |
| AnalyzeEfkRefs.MergedOther | tools/analyze_efk.py:329-335 | an entry for another path leaves a kept entry unchanged |
| AnalyzeEfkRefs.GroupByPath | tools/analyze_efk.py:328-335 | the merge loop keeps the first entry for each path and appends every later entry's source to it |
| AnalyzeEfkRefs.MergeStateValues | tools/analyze_efk.py:337 | the values listed in key order are the deduplicated entries |
| AnalyzeEfkRefs.MergeByPath | tools/analyze_efk.py:327-337 | the deduplication gives one merged entry per path, in first-seen order |
| AnalyzeEfkRefs.ListValues | tools/analyze_efk.py:337 | `list(unique_files.values())` lists the values in key order |
| AnalyzeEfkRefs.TextRefs | tools/analyze_efk.py:303-310 | each text-pass path becomes one entry with source `text_analysis_utf-8` and its position |
| AnalyzeEfkRefs.HitRefsSound | tools/analyze_efk.py:315-325 | every binary entry is the path found at one of its pattern's positions, with that pattern's source name |
| AnalyzeEfkRefs.HitRefsComplete | tools/analyze_efk.py:317-325 | every position of a pattern where a non-empty path is found gives an entry |
| AnalyzeEfkRefs.PathsOfHit | tools/analyze_efk.py:317-325 | the positions loop for one pattern collects exactly those entries |
| AnalyzeEfkRefs.TextEntries | tools/analyze_efk.py:303-310 | the loop over `found_paths` collects the text entries |
| AnalyzeEfkRefs.BinaryEntries | tools/analyze_efk.py:313-325 | the loop over the `text_` entries of `found_patterns` collects the binary entries pattern by pattern |
| AnalyzeEfkRefs.ReferencedFiles | tools/analyze_efk.py:296-338 | `_extract_referenced_files` merges the text entries followed by the binary entries by path |
| C3bParser.Le32RoundTrip | tools/c3b_parser.py:41-44 | the four little-endian bytes of a 32-bit value read back as that value, wherever they sit |
| C3bParser.ReadUint32 | tools/c3b_parser.py:41-44 | `read_uint32` succeeds exactly when four bytes remain, and returns a 32-bit value and the offset four bytes on |
| C3bParser.ReadUint32RoundTrip | tools/c3b_parser.py:41-44 | a value written at an offset is read back with the offset just past it |
| C3bParser.StripNul | tools/c3b_parser.py:33-34 | exactly one trailing NUL is dropped when there is one, and nothing otherwise |
| C3bParser.ReadString | tools/c3b_parser.py:24-39 | `read_string` fails exactly when the length cannot be read or a positive length leaves no byte to inspect; otherwise the new offset is the old one plus 4 plus the length |
| C3bParser.ReadStringRoundTrip | tools/c3b_parser.py:24-39 | a NUL-terminated string written after its length is read back without the terminator, and the offset lands just past it |
| C3bParser.ReadStringPastEnd | tools/c3b_parser.py:31-37 | a length running past the end still moves the offset by the full length, beyond the last byte |
| C3bParser.ParseHeader | tools/c3b_parser.py:51-63 | `parse_header` raises `ValueError` exactly when the data does not start with `C3B\0`, fails on a version field cut short, and otherwise returns 8 |
| C3bParser.HeaderRoundTrip | tools/c3b_parser.py:51-63 | a written header, whatever its version, is accepted with length 8 |
| C3bParser.IsValidResourceName | tools/c3b_parser.py:109-110 | an accepted name is 3 to 256 characters long |
| C3bParser.ValidResourceNameIff | tools/c3b_parser.py:107-134 | a name of acceptable length is a resource name exactly when its last dot-separated segment is a listed extension, it contains a listed keyword ignoring case, or it is made only of letters, digits, `_`, `-` and `.` |
| C3bParser.SplitLastSegment | tools/c3b_parser.py:114 | the last segment of `a.b` split at dots, for a dot-free `b`, is `b` |
| C3bParser.NamedResource | tools/c3b_parser.py:113-122 | any name `root.ext` of acceptable length whose extension, in any case, is listed is a resource name |
| C3bParser.IsImageFile | tools/c3b_parser.py:136-139 | an image file name is at least four characters long |
| C3bParser.ImageExtensionsListed | tools/c3b_parser.py:116-120 | each of the eight image extensions is a dot and a listed resource extension |
| C3bParser.EndsInResourceExtension | tools/c3b_parser.py:113-122 | a name ending, ignoring case, in a dot and a listed dot-free extension is a resource name, if not too long |
| C3bParser.ImageIsResource | tools/c3b_parser.py:88-95 | every image name of at most 256 characters passes the resource-name filter |
| C3bParser.StringAt | tools/c3b_parser.py:73-89 | a recovered string has a length of 1 to 1024 whose record fits, its payload with one trailing NUL dropped decodes to it, and it passes the resource-name filter |
| C3bParser.StringAtRecord | tools/c3b_parser.py:73-89 | a resource name written as a NUL-terminated, length-prefixed record is recovered at the record's offset |
| C3bParser.StringsStep | tools/c3b_parser.py:70-103 | one offset contributes its record, if any, then the scan goes on one byte later |
| C3bParser.StringsFromSound | tools/c3b_parser.py:70-103 | every collected string comes from a record at a tried offset, one below `len - 4` |
| C3bParser.StringsFromComplete | tools/c3b_parser.py:70-103 | every record at a tried offset is collected |
| C3bParser.StringsFromValid | tools/c3b_parser.py:88-89 | every collected string is a resource name |
| C3bParser.ImagesInIff | tools/c3b_parser.py:93-94 | the image set holds exactly the collected strings that are image file names |
| C3bParser.ImagesInSnoc | tools/c3b_parser.py:89-94 | collecting one more string adds it to the set exactly when it is an image |
| C3bParser.C3bParser.constructor | tools/c3b_parser.py:19-22 | the parser starts with no referenced images |
| C3bParser.C3bParser.ExtractStringsFromData | tools/c3b_parser.py:65-105 | the offset moves by exactly one per round; the strings returned are exactly the recovered records in offset order, and their image names join `referenced_images` |
| C3bParser.C3bParser.ScanRecords | tools/c3b_parser.py:68-103 | the loop, for any payload decoder, returns the scan's strings and adds their image names to the set |
| ScanResults.Lookup | src/scanner/c3b_scanner.py:80 | a path is found in the results exactly when it is one of their keys |
| ScanResults.PutLookup | src/scanner/c3b_scanner.py:80 | assigning `results[path]` maps that key to the new list and leaves every other key's value alone |
| ScanResults.PutPresentKeys | src/scanner/c3b_scanner.py:80 | assigning to a present key keeps every key in its place |
| ScanResults.TotalPutNew | src/scanner/c3b_scanner.py:80 | a new key is added at the end and adds its references to the total |
| ScanResults.RecordAllAppend | src/scanner/c3b_scanner.py:70-91 | recording two runs of files one after the other is recording their concatenation |
| ScanResults.RecordAllFresh | src/scanner/c3b_scanner.py:70-91 | scanning distinct files into empty results keeps exactly the files with references, in walk order, and the total is the number of references found in all files |
| C3bScanner.C3bFilesIff | src/scanner/c3b_scanner.py:107-118 | the model files are exactly the walked files whose name ends with `.c3b` in any case |
| C3bScanner.Located | src/scanner/c3b_scanner.py:161-166 | the entry for a kept image name is the path found for it, or the bare name when none is found |
| C3bScanner.ImageRefsIff | src/scanner/c3b_scanner.py:156-166 | every reference comes from an image name ending in `.png`, `.jpg` or `.jpeg` in any case, and every such name yields one |
| C3bScanner.C3bRefs | src/scanner/c3b_scanner.py:133-153 | a file that is gone, not a regular file, larger than 50 MB or unparsable yields nothing |
| C3bScanner.C3bRefsMembers | src/scanner/c3b_scanner.py:155-166 | a file that can be analysed yields every kept image name it mentions, resolved or bare, and nothing else |
| C3bScanner.AnalyzeC3bFile | src/scanner/c3b_scanner.py:120-176 | `_analyze_c3b_file` returns the references its definition gives |
| C3bScanner.C3bEntries | src/scanner/c3b_scanner.py:70-80 | one results entry per model file |
| C3bScanner.ProgressReports | src/scanner/c3b_scanner.py:64-94 | with no files a single `(0, 0)` is reported; otherwise `(i, total)` for `i = 1..total` and then `(total, total)` |
| C3bScanner.ProgressMonotone | src/scanner/c3b_scanner.py:64-94 | the reports never go backwards, never pass the total, and end at it |
| C3bScanner.C3bKeys | src/scanner/c3b_scanner.py:80 | the result keys of the entries are the files' paths |
| C3bScanner.FreshScanTotal | src/scanner/c3b_scanner.py:70-91 | a first scan of distinct model files keeps exactly those with references, and the total is the number of references in all of them |
| C3bScanner.C3bScanner.constructor | src/scanner/c3b_scanner.py:23-40 | the scanner starts with no files, no results, zero counters and no progress |
| C3bScanner.C3bScanner.ReportProgress | src/scanner/c3b_scanner.py:42-45 | a progress report is recorded only when a callback was given; nothing else changes |
| C3bScanner.C3bScanner.FindAllC3bFiles | src/scanner/c3b_scanner.py:107-118 | the file list becomes the walk's model files, in walk order; nothing else changes |
| C3bScanner.C3bScanner.ScanC3bFiles | src/scanner/c3b_scanner.py:47-105 | every model file is analysed and counted as a successful scan, a file with references is entered in the results, the failure count does not move, and progress is reported as `ProgressReports` |
| C3bScanner.C3bScanner.AnalyzeAll | src/scanner/c3b_scanner.py:70-91 | the loop reports, analyses, records and counts each model file in turn |
| C3bScanner.C3bScanner.GetStatistics | src/scanner/c3b_scanner.py:205-221 | `total_files` and `total_c3b_files` are the number of model files found, `total_referenced_files` the sum of the result list lengths, and the scan counters are copied |
| EfkByteSearch.AsciiBytes | src/scanner/efk_scanner.py:685 | `ext.encode()` of an ASCII extension gives one byte per character, equal to its code |
| EfkByteSearch.ExtShapeAscii | src/scanner/efk_scanner.py:660-664 | the extensions searched for are ASCII and hold only characters a token may contain |
| EfkByteSearch.BackStartFacts | src/scanner/efk_scanner.py:693-700 | the left widening steps over printable bytes other than `\` and `/` only, and stops at the start of the content or before a byte it may not step over |
| EfkByteSearch.ExpandBack | src/scanner/efk_scanner.py:693-700 | the widening loop stops where the widening definition says |
| EfkByteSearch.TokenOfWindow | src/scanner/efk_scanner.py:703-705 | a widened window decodes, byte for byte, to a token that ends with the extension and holds only printable, separator-free characters |
| EfkByteSearch.ByteHitShape | src/scanner/efk_scanner.py:702-707 | what one occurrence contributes passes the path filter, ends with the extension after at least one more character, and is printable without a separator |
| EfkByteSearch.HitsSound | src/scanner/efk_scanner.py:686-711 | every contribution of the loop comes from an occurrence of the pattern at or after the start |
| EfkByteSearch.HitsComplete | src/scanner/efk_scanner.py:686-711 | every occurrence at or after the start contributes, overlapping ones included, since the search resumes one byte on |
| EfkByteSearch.ByteSearchSound | src/scanner/efk_scanner.py:686-711 | every token of the search for one extension comes from an occurrence of its bytes |
| EfkByteSearch.ByteSearchComplete | src/scanner/efk_scanner.py:686-711 | every occurrence of the extension's bytes is considered |
| EfkByteSearch.ByteSearchShape | src/scanner/efk_scanner.py:683-711 | every token of the search has the shape above |
| EfkByteSearch.HitsStep | src/scanner/efk_scanner.py:688-711 | one round of the loop extends what has been found by the contribution of the next occurrence |
| EfkByteSearch.WidenHit | src/scanner/efk_scanner.py:690-707 | the loop body keeps the widened window when it is non-empty and passes the filter |
| EfkByteSearch.SearchPattern | src/scanner/efk_scanner.py:686-711 | the `find` loop collects the contributions of every occurrence, in order |
| EfkByteSearch.ByteSearch | src/scanner/efk_scanner.py:683-711 | the search for one extension collects every widened window that passes the path filter, each of the shape above |
| EfkByteSearch.BytePassShape | src/scanner/efk_scanner.py:683-711 | every token of the byte search is printable, separator-free, passes the path filter and ends with one of the extensions searched for |
| EfkByteSearch.ByteSearches | src/scanner/efk_scanner.py:683-711 | the loop over the nineteen extensions runs the search for each in turn |
| EfkModelRefs.FirstQualifyingFacts | src/scanner/efk_scanner.py:736-747 | a text is decoded exactly when some encoding succeeds with a printable character, and it is the first such encoding's text |
| EfkModelRefs.TryDecoders | src/scanner/efk_scanner.py:736-747 | the encoding loop returns the first decoding that succeeds with a printable character |
| EfkModelRefs.AsciiNeverDecides | src/scanner/efk_scanner.py:736 | ASCII, tried only after UTF-8 failed to qualify, never qualifies either |
| EfkModelRefs.RecordRefsFacts | src/scanner/efk_scanner.py:729-747 | a path comes from an offset exactly when a plausible count there decodes to a text that mentions a model extension and the path is extracted from it; each passes the filter and is longer than three characters |
| EfkModelRefs.ModelRefsSound | src/scanner/efk_scanner.py:726-751 | every path comes from some offset |
| EfkModelRefs.ModelRefsComplete | src/scanner/efk_scanner.py:726-751 | every offset is tried, overlapping counts included |
| EfkModelRefs.CollectStep | src/scanner/efk_scanner.py:727-751 | one round of the loop extends what was collected by the next offset's contribution |
| EfkModelRefs.RecordRefsAt | src/scanner/efk_scanner.py:729-747 | the loop body for one offset computes that offset's contribution |
| EfkModelRefs.SearchRecords | src/scanner/efk_scanner.py:726-751 | the loop over every offset collects every offset's contribution, in order |
| EfkModelRefs.SearchEfkmodelReferences | src/scanner/efk_scanner.py:718-764 | `_search_efkmodel_references` returns exactly the paths extracted from decodable texts that mention a model extension, each valid and longer than three characters |
| EfkContent.Distinct | src/scanner/efk_scanner.py:302 | `list(set(xs))` holds each element of `xs` once and nothing else |
| EfkContent.GatherIff | src/scanner/efk_scanner.py:291-299 | a path is gathered exactly when one of the recovered strings contributes it |
| EfkContent.StringRefsSound | src/scanner/efk_scanner.py:291-299 | every path comes from a recovered string that mentions an extension and is extracted from that string |
| EfkContent.StringRefsComplete | src/scanner/efk_scanner.py:291-299 | every path extracted from a string that mentions an extension is kept |
| EfkContent.StringRefsValid | src/scanner/efk_scanner.py:291-299 | every path from the recovered strings passes the path filter |
| EfkContent.ReferenceMentionIsModelMention | src/scanner/efk_scanner.py:296 | a string that mentions one of the nine reference extensions mentions one of the thirteen model extensions too |
| EfkContent.TextRefs | src/scanner/efk_scanner.py:295-299 | one string contributes its extracted paths exactly when it mentions an extension |
| EfkContent.CollectStringRefs | src/scanner/efk_scanner.py:291-299 | the loop over the recovered strings collects every string's contribution, in order |
| EfkContent.FilterValid | src/scanner/efk_scanner.py:632-635 | the per-match filter keeps exactly the matches that pass the path filter, in order |
| EfkContent.ImprovedRefsValid | src/scanner/efk_scanner.py:645-716 | every path of `_search_binary_patterns_improved` passes the filter |
| EfkContent.ModelRefsValid | src/scanner/efk_scanner.py:718-764 | every path of the record search passes the filter |
| EfkContent.ContentRefsValid | src/scanner/efk_scanner.py:273-390 | each container's reference list has no duplicates and every entry passes the path filter |
| EfkContent.EfkRefsIncluded | src/scanner/efk_scanner.py:273-390 | a material or model container reports every path an effect container with the same bytes reports |
| EfkContent.ParseEfkContent | src/scanner/efk_scanner.py:273-307 | `_parse_efk_content`: the distinct paths extracted from recovered strings that mention one of nine extensions |
| EfkContent.ParseEfkmatContent | src/scanner/efk_scanner.py:309-347 | `_parse_efkmat_content`: the same, with the filtered matches of the pattern search added |
| EfkContent.SearchBinaryPatternsImproved | src/scanner/efk_scanner.py:645-716 | the filtered pattern matches, then the byte search for the nineteen extensions |
| EfkContent.ParseEfkmodelContent | src/scanner/efk_scanner.py:349-390 | `_parse_efkmodel_content`: thirteen extensions looked for, the improved search and the record search added, duplicates removed |
| EfkScanner.SuffixLast | src/scanner/efk_scanner.py:124-129 | a string ends with the last character of each of its suffixes |
| EfkScanner.KindSuffixesExclusive | src/scanner/efk_scanner.py:124-129 | a name ends with at most one of `.efk`, `.efkmat` and `.efkmodel` |
| EfkScanner.KindOf | src/scanner/efk_scanner.py:124-129 | a name is an effect, a material or a model exactly when its lower-case form ends with that kind's extension |
| EfkScanner.FilesOfKindIff | src/scanner/efk_scanner.py:118-129 | the files of a kind are exactly the walked files whose name selects it, so no file is of two kinds |
| EfkScanner.FileRefs | src/scanner/efk_scanner.py:135-271 | a file that is gone or larger than 10 MB yields nothing, whatever its kind |
| EfkScanner.FileRefsValid | src/scanner/efk_scanner.py:135-271 | a file's references have no duplicates and each passes the path filter |
| EfkScanner.AnalyzeFile | src/scanner/efk_scanner.py:135-271 | the analysis of one file returns the references its definition gives |
| EfkScanner.KindEntries | src/scanner/efk_scanner.py:46-100 | one results entry per file |
| EfkScanner.KindEntriesAt | src/scanner/efk_scanner.py:46-100 | the entry for the k-th file is that file with its analysis |
| EfkScanner.KindKeys | src/scanner/efk_scanner.py:51 | the result keys of the entries are the files' paths |
| EfkScanner.ScanKeys | src/scanner/efk_scanner.py:46-100 | the result keys of a scan's entries are the analysed files' paths |
| EfkScanner.FreshScanTotal | src/scanner/efk_scanner.py:30-110 | a first scan of distinct files keeps exactly those with references, in analysis order, and the total is the number of references found in all of them |
| EfkScanner.EfkScanner.constructor | src/scanner/efk_scanner.py:12-28 | the scanner starts with no files, no results and zero counters |
| EfkScanner.EfkScanner.FindAllEfkFiles | src/scanner/efk_scanner.py:112-133 | the three file lists become the walked files of each kind, in walk order; results and counters do not change |
| EfkScanner.EfkScanner.AnalyzeFiles | src/scanner/efk_scanner.py:46-100 | one analysis loop records each file with references, counts every file as a successful scan, and leaves the failure count and the file lists alone |
| EfkScanner.EfkScanner.ScanEfkFiles | src/scanner/efk_scanner.py:30-110 | effects, materials and models are analysed in turn; the results gain every file with references, the successful count grows by the number of files, the failure count does not move |
| EfkScanner.EfkScanner.GetStatistics | src/scanner/efk_scanner.py:830-846 | the file counts, the count of analysed files, the failure count, and the total of the result list lengths |
| LuaAnalyzer.ImageExtensionShape | src/utils/lua_analyzer.py:28 | each of the six image extensions is a dot and at least three characters, none a quote or a separator |
| LuaAnalyzer.ImageReferenceIff | src/utils/lua_analyzer.py:128-146 | `_is_image_reference` holds exactly when the lower-case string ends with an image extension: the length guard never decides |
| LuaAnalyzer.StripQuotes | src/utils/lua_analyzer.py:163 | stripping quotes never lengthens the string |
| LuaAnalyzer.StripQuotesSlice | src/utils/lua_analyzer.py:163 | `strip('\'"')` keeps a slice of the string with only quotes around it, and what it keeps neither starts nor ends with a quote |
| LuaAnalyzer.SplitSeveralLast | src/utils/lua_analyzer.py:166 | a split into several parts leaves a last part shorter than the string |
| LuaAnalyzer.SplitLastSuffix | src/utils/lua_analyzer.py:166 | the last part of `split(sep)` is the suffix after the last separator, or the whole string |
| LuaAnalyzer.SplitLastIsBasename | src/utils/lua_analyzer.py:166 | turning backslashes into slashes and keeping the last slash-separated part finds the base name, both separators counting |
| LuaAnalyzer.ExtractIsBasename | src/utils/lua_analyzer.py:148-175 | `_extract_image_filename` gives the base name of the stripped path when that name is non-empty and holds a dot, and nothing otherwise |
| LuaAnalyzer.QuotedSliceEnding | src/utils/lua_analyzer.py:163 | a quote-trimmed slice keeps an ending of the string that holds no quote |
| LuaAnalyzer.StripKeepsEnding | src/utils/lua_analyzer.py:163 | stripping quotes keeps an image extension at the end of the string |
| LuaAnalyzer.BasenameKeepsEnding | src/utils/lua_analyzer.py:166 | the base name keeps an ending that holds no separator |
| LuaAnalyzer.EndingName | src/utils/lua_analyzer.py:163-170 | the base name of a stripped string ending with an image extension still ends with it and holds a dot |
| LuaAnalyzer.ImageReferenceName | src/utils/lua_analyzer.py:97-101 | every string that passes `_is_image_reference` yields a name, the base name of the stripped string, itself a separator-free image reference: the dot test never fails after the extension test |
| LuaAnalyzer.SlashesBasename | src/utils/lua_analyzer.py:220-240 | turning backslashes into slashes does not move the base name |
| LuaAnalyzer.PathMatchesPlain | src/utils/lua_analyzer.py:236-240 | a reference without a separator matches exactly the paths whose base name equals it, case ignored |
| LuaAnalyzer.PathMatchesSeparated | src/utils/lua_analyzer.py:224-235 | a reference with a separator matches exactly the paths that hold its last two parts, case ignored; the ending test and the part-count test never decide |
| LuaAnalyzer.LowerAll | src/utils/lua_analyzer.py:194 | the lower-cased reference list holds the lower-case form of every reference and nothing else |
| LuaAnalyzer.ReferencedInLuaRecorded | src/utils/lua_analyzer.py:177-205 | over recorded names, an unused image is referenced exactly when its base name or its path's base name is a recorded name, case ignored |
| LuaAnalyzer.NameOf | src/utils/lua_analyzer.py:96-101 | a captured string adds at most one name |
| LuaAnalyzer.NameOfIff | src/utils/lua_analyzer.py:96-101 | a captured string adds a name exactly when it passes `_is_image_reference` and extracts to it; the name is then the stripped base name |
| LuaAnalyzer.UnionOfIff | src/utils/lua_analyzer.py:91-101 | a name is added exactly when one of the inputs adds it |
| LuaAnalyzer.UnionOfBound | src/utils/lua_analyzer.py:91-101 | when each input adds at most one name, no more names are added than there are inputs |
| LuaAnalyzer.ImageNamesIff | src/utils/lua_analyzer.py:91-101 | a file adds exactly the names that some captured string passes and extracts to, all recorded names |
| LuaAnalyzer.ImageNamesCount | src/utils/lua_analyzer.py:91-101 | a file adds at most one name per captured string |
| LuaAnalyzer.ScanNamesIff | src/utils/lua_analyzer.py:54-60 | a scan adds exactly the names some string of some Lua file adds, each a recorded name |
| LuaAnalyzer.ScanNamesCount | src/utils/lua_analyzer.py:54-60 | a scan records no more names than the strings its files capture |
| LuaAnalyzer.LuaPathsIff | src/utils/lua_analyzer.py:65-76 | the Lua files are exactly the walked files whose lower-case name ends with `.lua` |
| LuaAnalyzer.LuaAnalyzer.constructor | src/utils/lua_analyzer.py:16-34 | the analyzer starts with no files and no references |
| LuaAnalyzer.LuaAnalyzer.FindAllLuaFiles | src/utils/lua_analyzer.py:65-76 | the file list becomes the walk's Lua files in walk order; the references do not change |
| LuaAnalyzer.LuaAnalyzer.AddString | src/utils/lua_analyzer.py:94-101 | one captured string adds its name, if any, and keeps only recorded names |
| LuaAnalyzer.LuaAnalyzer.AddStrings | src/utils/lua_analyzer.py:91-126 | the loop over a file's captured strings, in `_analyze_lua_file` and in `_extract_from_content` alike, adds exactly their names |
| LuaAnalyzer.LuaAnalyzer.ScanLuaFiles | src/utils/lua_analyzer.py:36-63 | the Lua files are found and every name their strings mention is added; the set returned is the analyzer's set |
| LuaAnalyzer.LuaAnalyzer.GetStatistics | src/utils/lua_analyzer.py:247-257 | the number of Lua files and the number of distinct names |
| DirScope.Normalize | src/gui/main_window.py:1256-1257 | `os.path.normpath` leaves no empty, `.` or `..` component |
| DirScope.NormalizeNormal | src/gui/main_window.py:1256-1257 | a normal path is its own normal form |
| DirScope.NormalizeAppend | src/gui/main_window.py:1256-1257 | normal components after a prefix are kept as they are |
| DirScope.CommonPrefix | src/gui/main_window.py:1266 | the shared leading components counted by `relpath` lie within both paths |
| DirScope.CommonPrefixFacts | src/gui/main_window.py:1266 | the shared components agree, case ignored, and the first one past them differs |
| DirScope.RelPartsFacts | src/gui/main_window.py:1266 | the relative path starts with a `..` component exactly when the start directory does not lead to the target |
| DirScope.InScopeIff | src/gui/main_window.py:1249-1272 | with the corrected test, a reference is in scope exactly when the container's directory is the reference's directory or one of its ancestors, case ignored |
| DirScope.DescendantInScope | src/gui/main_window.py:1259-1268 | the intended half: with the corrected test, a file in the container's own directory or below it is in scope |
| DirScope.DescendantInScopeAsWritten | src/gui/main_window.py:1259-1268 | with the test as written, a file in the container's own directory or below it is in scope unless the first directory below is a name starting with `..` |
| DirScope.SiblingOutOfScope | src/gui/main_window.py:1259-1268 | a file of a sibling directory is out of scope |
| DirScope.JoinStartsWith | src/gui/main_window.py:1268 | the joined relative path starts with `..` exactly when its first component does |
| DirScope.AsWrittenAgrees | src/gui/main_window.py:1249-1272 | the test as written accepts only what the corrected test accepts, and refuses more only when the first component below the container's directory starts with `..` without being `..` |
| DirScope.DotDotNameRefused | src/gui/main_window.py:1266-1268 | an image in a child directory whose name starts with `..` lies below the container's directory but is refused by the test as written |
| DirScope.ChildDirs | src/gui/main_window.py:1252-1257 | the normalised directories of a file of a directory and of a file of its child |
| DirScope.ChildRelParts | src/gui/main_window.py:1266 | from a directory to its child the relative path is the child's name |
| DirScope.DotDotTexRefused | src/gui/main_window.py:1266-1268 | `p/..tex/a.png` is below the directory of `p/fx.efk`, yet the test as written refuses it |
| Resolver.Walk | src/gui/main_window.py:1161-1163 | the walk yields only files below the directory |
| Resolver.WalkIff | src/gui/main_window.py:1161-1163 | the walk holds exactly the files below the directory, in file-system order |
| Resolver.StripSlash | src/gui/main_window.py:1158 | `strip('/')` leaves no slash at either end and keeps a slice of the string |
| Resolver.LowerEach | src/gui/main_window.py:1177 | the list comprehension lower-cases each component in place |
| Resolver.Structured | src/gui/main_window.py:1162-1178 | the structured test of a walked file is `StructuredMatch` on its path relative to the directory |
| Resolver.FirstWhereFacts | src/gui/main_window.py:1161-1242 | a walk tier finds nothing exactly when no walked file passes, and otherwise the first one that does |
| Resolver.FindFirst | src/gui/main_window.py:1161-1178 | the walk loop returns the first file that passes the test |
| Resolver.NameMatchesIff | src/gui/main_window.py:1189-1193 | the matches are exactly the walked files whose lower-cased name is the target, in walk order |
| Resolver.CollectMatches | src/gui/main_window.py:1188-1193 | the loop collects those matches |
| Resolver.CommonTail | src/gui/main_window.py:1211-1217 | the count of shared trailing directories is at most the shorter list's length |
| Resolver.CommonTailFacts | src/gui/main_window.py:1211-1217 | the count covers agreeing trailing directories only, case ignored, and stops at a mismatch or at the end of the shorter list |
| Resolver.CountCommonTail | src/gui/main_window.py:1211-1217 | the counting loop computes that count |
| Resolver.MatchDirs | src/gui/main_window.py:1207-1208 | the directories of a match are those of its path relative to the searched directory |
| Resolver.Score | src/gui/main_window.py:1207-1217 | the score of a match is the count of trailing directories it shares with the reference |
| Resolver.BestOfPrefix | src/gui/main_window.py:1206-1221 | the tie-break over a prefix of the matches extends one match at a time |
| Resolver.BestOfFacts | src/gui/main_window.py:1203-1224 | the tie-break keeps no match exactly when every score is 0, and otherwise the first match with the greatest score |
| Resolver.PickBest | src/gui/main_window.py:1201-1224 | the loop over the matches computes that tie-break |
| Resolver.FindStructured | src/gui/main_window.py:1156-1178 | the structured tier answers with the first walked file whose relative path matches the cleaned reference, and not at all for a reference without a separator |
| Resolver.PickMatchFacts | src/gui/main_window.py:1196-1228 | the file-name tier answers exactly when there is a match, always with one of the matches, and under the tie-break with one that scores highest |
| Resolver.FindByName | src/gui/main_window.py:1181-1228 | the file-name tier runs only for a target extension, and answers as `PickMatch` over the walked files of that name |
| Resolver.PickAmong | src/gui/main_window.py:1196-1228 | one match is the answer, several with a separator go to the tie-break, and otherwise the first match |
| Resolver.Fuzzy | src/gui/main_window.py:1237-1241 | a walked file passes the fuzzy test exactly when its lower-cased stem and extension are the reference's |
| Resolver.FindFuzzy | src/gui/main_window.py:1230-1242 | the fuzzy tier needs a target extension and a stem longer than two characters, then takes the first walked file with the same stem and extension |
| Resolver.DirectTier | src/gui/main_window.py:1146-1153 | the first two tiers answer exactly when the reference joined to the directory exists, since an absolute reference replaces the directory |
| Resolver.FindFilePath | src/gui/main_window.py:1037-1247 | `_find_file_path_in_directory`, and `_find_file_path` over the project directory: the tiers in order, the first that finds a file deciding, `None` when none does |
| Resolver.WalkTiersWalked | src/gui/main_window.py:1156-1242 | every answer of the structured and fuzzy tiers is a walked file |
| Resolver.FilenameTierFacts | src/gui/main_window.py:1181-1228 | the file-name tier answers with a walked file named as the reference's base name, case ignored; with several and a separator, one sharing the most trailing directories |
| Resolver.SameStemAndExt | src/gui/main_window.py:1237-1241 | files with the same stem and extension, case ignored, have the same name, case ignored |
| Resolver.FuzzyTierUnreachable | src/gui/main_window.py:1230-1242 | the fuzzy tier never decides: whatever it would find, the file-name tier has found a file already |
| Resolver.StructuredSuffixLowercase | src/gui/main_window.py:1172-1178 | the suffix branch of the structured test holds only when the walked file's trailing components are already lower case |
| Resolver.ResolvedExists | src/gui/main_window.py:1143-1247 | with every file in normal form, the resolver answers only with a path that exists |
| Resolver.ResolvedBelow | src/gui/main_window.py:1156-1242 | an answer of the walk tiers lies below the searched directory |
| UnusedFiles.ResolveRefFacts | src/gui/main_window.py:877-897 | a reference counts only with a file that exists and that the scope test as written puts in the container's scope, found in the container's directory or, when nothing is found there, in the project |
| UnusedFiles.ResolveReference | src/gui/main_window.py:880-897 | one reference is resolved in the container's directory, then in the project, and kept only when the scope test as written accepts it |
| UnusedFiles.RefsResolvedIff | src/gui/main_window.py:880-897 | a file is found for a container exactly when one of its references resolves to it |
| UnusedFiles.ReferencedIff | src/gui/main_window.py:874-897 | a file is in `referenced_files` exactly when some reference of some container resolves to it |
| UnusedFiles.ReferencedInScope | src/gui/main_window.py:874-897 | a file is referenced exactly when some reference of some container resolves to it within that container's scope, by the test as written |
| UnusedFiles.RefsResolvedPrefix | src/gui/main_window.py:880-897 | each reference adds the file it resolves to, if any |
| UnusedFiles.ReferencedPrefix | src/gui/main_window.py:877-897 | each container adds the files its references resolve to |
| UnusedFiles.CollectRefs | src/gui/main_window.py:880-897 | the inner loop collects the files one container's references resolve to |
| UnusedFiles.CollectReferenced | src/gui/main_window.py:873-897 | the first loop collects exactly the referenced files |
| UnusedFiles.Targets | src/gui/main_window.py:899-916 | `all_files_in_project` holds exactly the walked files whose lower-cased extension is one of the thirteen target extensions |
| UnusedFiles.CollectTargets | src/gui/main_window.py:909-916 | the walk loop fills that set |
| UnusedFiles.PlainUnusedIff | src/gui/main_window.py:760-787 | a file is unused exactly when it is walked, has a target extension and is not referenced |
| UnusedFiles.FindUnusedFiles | src/gui/main_window.py:760-787 | `_find_unused_files` lists the walked target files outside the referenced set, in walk order |
| UnusedFiles.MembershipByName | src/gui/main_window.py:926-953 | the direct membership test adds nothing to the name test: a referenced file has its own name and is in its own scope |
| UnusedFiles.DescendantNameCovers | src/gui/main_window.py:934-939 | a referenced file below the directory of an unused candidate with the candidate's name covers the candidate, wherever the candidate itself is, unless the first directory below is a name starting with `..`, which the scope test as written refuses |
| UnusedFiles.CheckNameReferenced | src/gui/main_window.py:934-939 | the loop with its `break` finds a referenced file of the same name, case ignored, that the scope test as written accepts |
| UnusedFiles.CheckRawReferenced | src/gui/main_window.py:942-953 | the nested loop finds a raw reference equal to the file's project-relative path, case ignored, in a container whose scope, by the test as written, holds the file |
| UnusedFiles.CheckReferenced | src/gui/main_window.py:924-953 | `is_referenced` after the three checks |
| UnusedFiles.FindUnusedInScope | src/gui/main_window.py:899-956 | the scoped unused list holds each walked target file that no check covers, each once |
| UnusedFiles.ScopedUnusedIsPlainUnused | src/gui/main_window.py:921-956 | every file the scoped search calls unused is unused for `_find_unused_files` too |
| UnusedFiles.RemainingBounds | src/gui/main_window.py:1365-1383 | the remaining files are no more than the whole, in number and in size, and are exactly those not deleted |
| UnusedFiles.TotalSizeSnoc | src/gui/main_window.py:1373-1375 | adding a file to the list adds its size to the total |
| UnusedFiles.NothingDeletedRemains | src/gui/main_window.py:1377-1380 | with nothing deleted, every file remains |
| UnusedFiles.UnusedList.constructor | src/gui/main_window.py:23-33 | the window starts with an empty list, nothing deleted and zero statistics |
| UnusedFiles.UnusedList.Clear | src/gui/main_window.py:376-404 | clearing empties the list and the deleted set and zeroes the statistics |
| UnusedFiles.UnusedList.AddUnusedFile | src/gui/main_window.py:438-453 | a file already listed is not added again, a new one is appended; nothing else changes and the list stays free of duplicates |
| UnusedFiles.UnusedList.AddUnusedFiles | src/gui/main_window.py:981-990 | the add loop appends each new file once, in order |
| UnusedFiles.UnusedList.MarkDeleted | src/gui/main_window.py:510-516 | a removed file joins the deleted set; nothing else changes |
| UnusedFiles.UnusedList.CalculateTotalStats | src/gui/main_window.py:1365-1383 | the totals cover the whole list, the remaining figures the files not deleted, and neither remaining figure exceeds its total |
| Common.U32LE | src/scanner/efk_scanner.py:730 | `struct.unpack('<I', …)` gives a value below 2^32 |
| Common.FindFromFirst | src/scanner/efk_scanner.py:688 | `bytes.find` returns the first occurrence at or after the start, and -1 only when there is none |
| Common.RemoveNulsNoNul | src/scanner/efk_scanner.py:597 | `replace('\x00', '')` leaves no NUL |
| Common.JoinSplit | src/utils/lua_analyzer.py:230-233 | joining the parts of a split with the separator gives the string back |
| Common.AppendNewFacts | src/gui/main_window.py:440-453 | appending only unlisted elements keeps a list free of duplicates and loses nothing |

## Left out

- The file system is the list of its files in walk order, and a path exists when its normal form is in that list:
  - lookups are exact in case, where `os.path.exists` on Windows ignores case, so a reference `../x/A.png` does not find the file `x/a.png`;
  - there are no drive letters, links or permissions;
  - `relpath` never crosses drives, so the `ValueError` it raises there and the handler that catches it are not modelled;
  - a reference is absolute when it starts with a separator.
- Reading a file is a function from its path to its bytes. `stat` is the `present` and `size` fields of a walked file. A read that raises is not modelled.
- `_get_file_size` (src/gui/main_window.py:1355-1363) is the `size` parameter of `UnusedFiles.UnusedList.CalculateTotalStats`.
- `os.remove` is not modelled. `_delete_single_file` is modelled only as the bookkeeping after a successful removal (`MarkDeleted`). `_delete_selected_files` and `_clear_all_unused_files` are not modelled: they are `os.remove` with GUI updates.
- The Tkinter window is not modelled: widgets, list box, dialogs, colours, progress drawing, context menu, Explorer and clipboard calls. `UnusedFiles.UnusedList.AddUnusedFile` leaves out the checks at src/gui/main_window.py:443-451 for whether the list box exists, because they concern the widgets only.
- Output and reports are left out: logging (src/utils/logger.py), `print`, `_append_output`, the JSON reports and `main` of every tool, and main.py.
- The Python regular-expression engine is not modelled:
  - The pattern pass of `_extract_file_paths_from_string` is stated as a maximal run of class characters ending at the last occurrence of the extension (`PathTokens.PatternMatchesFacts`).
  - The searches of `_search_binary_patterns` and the first half of `_search_binary_patterns_improved` are given as the matches they return (`EfkContent.PatternSearches`); only the path filter applied to each match is modelled.
  - The captures of the two Lua patterns are given as the strings they capture.
  - In tools/analyze_efk.py, the matches of `_extract_paths_from_text` are given as the `found` paths.
  - The alternation of the extension group in `_extract_path_at_position` is modelled as written: the alternatives are tried in the pattern's own order (see Findings).
- `_extract_structured_data` (tools/analyze_efk.py:172-197) is not modelled: it is `json.loads` and prints.
- `_get_file_info`, `_read_file_content`, `_analyze_file_structure` and `_find_structure_patterns` (tools/analyze_efk.py:60-116) are not modelled: they report file metadata and print fixed structure guesses.
- `check_referenced_files_precisely`, `check_referenced_files` and `check_referenced_files_final` (tools/precise_efk_parser.py:154-206, tools/correct_efk_parser.py:122-167, tools/final_efk_analyzer.py:96-148) are not modelled. They list the EFK file's directory and test each name the modelled analyses return with pathlib `Path.exists`.
- `parse_c3b_file` and `scan_directory` (tools/c3b_parser.py:141-197) are not modelled: they read files and wrap `extract_strings_from_data` in a result dictionary.
- `read_float` (tools/c3b_parser.py:46-50) is not modelled: it is floating point.
- `_format_file_size` and `_update_progress` are not modelled: they are floating-point formatting.
- The `c3b_parser` import inside src/scanner/c3b_scanner.py does not resolve against the scanner's package. Parsing a `.c3b` file is therefore given as its outcome per path: an error, or the image names found. `_find_image_file` (src/scanner/c3b_scanner.py:178-204) is given as a lookup function.
- Python sets are unordered:
  - `list(set(...))` in the three content parsers is modelled as first occurrences in order. Only membership and the absence of duplicates are stated about it.
  - The loop over `all_files_in_project` in `_find_and_display_unused_files` visits a set. `UnusedFiles.FindUnusedInScope` therefore states membership and the absence of duplicates, not order.
- Only the ASCII parts of the character classes are modelled. `isalnum`, `isprintable`, `isspace` and `lower` treat every non-ASCII character as not alphanumeric, not printable and not white space, and leave it unchanged.
- UTF-16 and UTF-8 decoding are modelled exactly, surrogate pairs and well-formedness included.
  - In `_analyze_text_content` (tools/analyze_efk.py:122-137) the `utf-16` codec with a byte-order mark, `latin-1` and `cp1252` are never reached: with `errors='ignore'` the first encoding, `utf-8`, succeeds and the loop breaks.
  - In `_search_binary_patterns_improved` (src/scanner/efk_scanner.py:667-681) the loop has no `break`: the content is decoded with all five encodings, `latin-1` included, and every decoding is searched. The matches of those searches are part of the given matches (`EfkContent.PatternSearches`, field `improved`), so the five decodings are not modelled one by one.
- The `gb2312` fallback in `_analyze_lua_file` (src/utils/lua_analyzer.py:104-111) is not modelled, because `errors='ignore'` means `UnicodeDecodeError` is never raised. The loop it would run, `_extract_from_content`, is the same as the modelled `AddStrings`.
- `_extract_file_path` of src/scanner/efk_scanner.py:766-791 is not modelled: nothing calls it.
- `C3bScanner.C3bScanner.ScanC3bFiles`, `EfkScanner.EfkScanner.ScanEfkFiles`: the `failed_scans` branch is taken only when the per-file analysis raises, and the modelled analyses never raise. Both methods state that every file counts as a successful scan and that `failed_scans` does not move.
- `EfkScanner.FreshScanTotal`, `C3bScanner.FreshScanTotal`: these require the files to have distinct paths, as a walk of a real file system gives them. With a repeated path the dictionary would replace an entry.
- `Resolver.ResolvedExists`: this requires every listed file to be in normal form, which is what `os.walk` yields.
- `AnalyzeEfkBinary.MostCommonFacts`: it does not state the order among bytes with equal counts. The source sorts the counts with `sorted(..., reverse=True)` (tools/analyze_efk.py:208), which is stable, so equal counts keep the dictionary's first-appearance order.
- Exception handlers that only log and return what was collected so far are not modelled, apart from the paths above.

## Findings

| source | as written | input that shows it | evidently intended | confidence | as-written member | corrected member |
|---|---|---|---|---|---|---|
| src/scanner/efk_scanner.py:596 | the UTF-16 search cuts its window at `pos + len(ext)`, but the pattern it found, the extension with a NUL after its dot, is one character longer than the extension | any string holding `a.` NUL `png`, and likewise for each of the nineteen extensions | the window covers the whole pattern, so the token keeps its full extension | high, not executed | PathTokens.Utf16AsWrittenYieldsNothing | PathTokens.Utf16TokensShape |
| tools/analyze_efk.py:354 | the extension group lists `efk` before `efkmat` and `efkmodel`, and an alternation takes the first alternative that matches | `a.efkmat` is reported as `a.efk` | the longest extension is matched, by trying the alternatives longest first | high, not executed | AnalyzeEfkRefs.EfkmatTruncated | AnalyzeEfkRefs.EfkmatKept |
| src/gui/main_window.py:1268 | `not rel_path.startswith('..')` also refuses a child directory whose name begins with two dots | container `p/fx.efk`, image `p/..tex/a.png` | only a relative path whose first component is `..` leaves the scope | high, not executed | DirScope.DotDotTexRefused | DirScope.InScopeIff |

The members that model the program compose the code as written, and the corrected halves are proved beside them:

- `PathTokens.Candidates` runs the third search with the window as written. `PathTokens.Utf16AsWrittenYieldsNothing` and `PathTokens.Utf16AddsNothing` show that it then adds no token, so every content parser and the scanner report only what the first two searches find. With the whole pattern in the window, `PathTokens.Utf16TokensShape` and `PathTokens.Utf16PassValid` hold.
- `AnalyzeEfk.ContentLocator` tries the alternatives in the pattern's order, `AnalyzeEfkRefs.PathAlternatives`. Tried longest first, `AnalyzeEfkRefs.LongestFirstAlternatives`, they keep `a.efkmat` whole (`AnalyzeEfkRefs.EfkmatKept`, `AnalyzeEfkRefs.LongestAlternativeWins`).
- `UnusedFiles` uses the scope test as written, `DirScope.InScopeAsWritten`, so it lists `p/..tex/a.png` as unused for the container `p/fx.efk`. The corrected test `DirScope.InScope` is the ancestor relation (`DirScope.InScopeIff`). `DirScope.AsWrittenAgrees` proves that the two tests differ only on such directory names.
