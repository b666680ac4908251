# Verified models of the algorithmic cores of `sci`

A Dafny 4.11 model of the parts of the `sci` command line tool that compute something hard to get right, with proofs
of what they promise. Code that changes things step by step is written as methods and classes over arrays, sequences
and maps and proved against a specification function; what the repository's documentation and tests promise is then
proved about that function, for all inputs, all runs and all reachable states.

Verify with `dafny verify dfyconfig.toml --resource-limit 2000000 --verification-time-limit 0`.

| module | models |
|---|---|
| `Json`, `SpecialFloats` | DuckDB's JSON dialect (RFC 8259 plus bare `NaN`, `Infinity`, `-Infinity`), and the sanitizer whose buffer grows while it is scanned |
| `Lexer`, `JsonDecoder`, `ValueSkipper`, `ColumnOrder` | the tokens of a text and the order `encoding/json` demands of them, the value skipper and the column order on top |
| `Ansi`, `Spans`, `Highlight` | highlighting search matches in styled text: escape sequences, match collection, the in-place merge, the walk over two texts at once, and what a terminal shows afterwards |
| `Tokenize`, `QueryHighlight` | splitting a search query into words and quoted phrases, and what a query highlights |
| `Brewfile`, `BrewSync`, `Leaves` | Brewfile text edits, reconciliation with the installed system, and the requested leaves |
| `Paths`, `Tree` | folders derived from flat bucket keys, and the walk over them |
| `NameNormal`, `NameMatch` | name normalization and greedy matching |
| `GradeSync` | local grades, baseline table and Canvas under edits, pushes that may fail half-way, and reverts |
| `CastPlayer` | playback by timer ticks that may be outstanding, stale or duplicated |
| `TableWidths`, `WordWrap` | greedy width allocation and greedy word wrapping, with their optimality |
| `Headers`, `WriteKeyword`, `Promote` | import headers, the SQL write-keyword scan, and SQLite type promotion |
| `Order`, `Text` | stable sorting by a preorder, and the Go string functions the others use |

## Where a promise does not hold as stated

The code is kept as it is; each item names a lemma with a concrete failing input and one with the exact condition.

- A second `Sync` changes nothing if and only if every leaf is listed as an installed formula, up to its tap
  (`BrewSync.SecondSyncChangesNothingIff`); otherwise the leaf's entry is added and removed by turns
  (`BrewSync.SyncFlips`), as for any single leaf with nothing listed (`BrewSync.OneLeafFlips`, `BrewSync.BatFlips`).
  Leaves computed from receipts of listed formulae meet the condition (`Leaves.LeavesFromReceiptsConverge`).
- After a push that failed half-way, editing the grade back to its baseline leaves nothing pending, and Canvas keeps the
  abandoned grade for good (`GradeSync.EditingBackHidesDisagreement`). A completed push restores agreement exactly when
  no row without a pending change disagrees already (`GradeSync.PushRestoresAgreementIff`).
- A grade that is emptied locally is never pushed (`GradeSync.EmptiedGradeStays`). After a completed push Canvas holds
  the local grades exactly when it held none for the rows whose grade is empty (`GradeSync.CanvasMatchesLocalIff`).
- `Revert` is documented to copy the baseline back. A row that was deleted locally stays deleted
  (`GradeSync.DeletedRowStaysDeleted`); the baseline is restored if and only if no baseline row was deleted
  (`GradeSync.RevertRestoresExactly`).
- The walk through the folders of a bucket ends and lists every object once if and only if every key has a name after
  its last slash, and before that slash nothing or a path that neither starts with a slash nor is changed by
  `path.Clean` (`Tree.WalkListsEveryObjectOnceIff`). One key with a leading slash makes the root list itself, and no walk
  from it ends (`Tree.LeadingSlashNeverEnds`). In every directory, the root included, it is known which folders lead back
  to it (`Tree.ListsItselfIff`) and which lead to their own objects (`Tree.FolderKeyIff`).
- The comment at internal/duck/promote.go:157-158 says BLOB columns pass through verbatim. Their cells are trimmed and
  cast all the same (`Promote.BlobCellsAreCast`). A column loses no content exactly when it is declared `VARCHAR`, is of
  a type to promote, or has no cell the cast rejects (`Promote.PromotionLosesNothingIff`); BLOB is not to promote.
- `WordWrap` is documented to preserve paragraph breaks. A leading newline is lost (`WordWrap.LeadingBreakIsLost`); all
  breaks are kept if and only if there is one paragraph or the first of several is not blank
  (`WordWrap.BreaksAreKeptIff`), and otherwise only the blank paragraphs in front are lost (`WordWrap.WrapAllLines`).
- `ContainsWriteKeyword` is documented to match at spaces, parentheses and the ends of the text. The code takes every
  non-letter for a boundary: `1DROP` is found (`WriteKeyword.DigitIsABoundary`). An occurrence that counts in the code
  counts by the comment exactly when no other character is beside it (`WriteKeyword.DocumentedIff`).

Two results depend on libraries, and what the library does is a parameter of the model.

`decodeRows` keeps numbers as text, but `columnOrder` reads the same text with a decoder that turns them into `float64`,
for which `encoding/json` reports an error when the number is out of range. The columns of an array of rows are an error
exactly when a number of the first row does not fit (`ColumnOrder.ColumnsOfRows`), as `1e999`
(`ColumnOrder.HugeNumberIsAnError`).

Highlighting leaves the visible text alone, always if `ansi.Strip` drops a lone escape
character at the end of a text. If it keeps one, the only exception is a text that ends in such a character and a token
that matches it (`Highlight.PlainTextIsKept`): the rest of the closing mark takes its place
(`Highlight.HighlightedEscapeLeaks`, `Highlight.LoneEscapeLeaks`).

## What is read from a text that is not a whole result

`columnOrder` promises nothing for such texts, and its caller decodes the rows of the same text first. What it does is
known all the same: on every text that opens an array and an object, columns are returned exactly when the tokens go on
with whole members whose numbers fit, up to a closing bracket or the end (`ColumnOrder.ColumnsIff`). So a result that is
cut off between two members is accepted in front of the comma and is an error behind it
(`ColumnOrder.TruncatedRowIsAccepted`, `ColumnOrder.CutResult`).

## Model

| member | source | states |
|---|---|---|
| SpecialFloats.SanitizeSpecialFloats | internal/duck/decode.go:30-61 | The growing-buffer loop computes the string/escape transducer on every byte sequence, ends although the buffer grows, never writes the caller's buffer, and returns that very buffer exactly when no bare literal occurs outside a string |
| SpecialFloats.StringByte | internal/duck/decode.go:36-46 | Inside a string, the two flags follow the transducer's state: a byte after a backslash never ends the string |
| SpecialFloats.FindLiteral | internal/duck/decode.go:51-58 | Trying `-Infinity` before `Infinity` finds the one literal that begins at the position, if there is one |
| SpecialFloats.ReplaceLiteral | internal/duck/decode.go:51-58 | Outside strings, a literal is replaced and any other byte stays, and what is scanned plus what is left still gives the same result |
| SpecialFloats.ReplaceAt | internal/duck/decode.go:54-55 | A fresh buffer with the literal replaced, the position on the replacement's last byte, and less left to scan than before |
| SpecialFloats.TableOrder | internal/duck/decode.go:15-22 | The first table entry that matches is the literal the text begins with |
| SpecialFloats.UnchangedIffNoBare | internal/duck/decode.go:24-29 | Sanitizing changes a text if and only if a bare literal begins somewhere outside its strings |
| SpecialFloats.RewriteIsIdempotent | internal/duck/decode.go:24-29 | Sanitizing twice is sanitizing once, for every byte sequence and from every scanner state |
| SpecialFloats.QuotedBodyIsCopied | internal/duck/decode.go:36-46 | A string with escaped quotes and backslashes is copied byte for byte and leaves the scanner outside |
| SpecialFloats.ValueBecomes | internal/duck/decode.go:18-61 | In front of any text, a printed JSON value becomes its printing with the special floats named, and the scanner ends outside strings |
| SpecialFloats.PrintedDocumentIsSanitized | internal/duck/decode.go:18-61 | For every value tree with any white space and nested special floats, sanitizing DuckDB's text is the standard printing of the tree with each special float replaced by its string |
| SpecialFloats.Replacements | internal/duck/decode.go:18-22 | Letter for letter, in front of any text: `-Infinity` becomes `"-Inf"`, `Infinity` becomes `"Inf"` and `NaN` becomes `"NaN"` |
| SpecialFloats.KeyIsCopied | internal/duck/decode.go:36-50 | A key without quotes and backslashes is copied, whatever it spells, `NaN` included |
| SpecialFloats.RowIsSanitized | internal/duck/decode.go:24-29 | One whole row of DuckDB's text with all three literals and a key that spells one, and its sanitized text |
| Json.NamedIsFloatFree | internal/duck/decode.go:24-29 | The named tree holds no special float, is well formed if the original was, and is the original exactly when that had none |
| Lexer.LexUndoesPrint | internal/duck/decode.go:95-97 | For every JSON document, with any white space, the tokens read from its text are the document's |
| Lexer.NumeralIff | internal/duck/decode.go:95-97 | The state machine that scans numbers accepts exactly the grammar of RFC 8259 section 6: an optional minus, an integer without leading zero, an optional fraction, an optional exponent |
| Lexer.EscapeIff | internal/duck/decode.go:95-97 | After a backslash exactly the characters of RFC 8259 section 7 are taken, a `u` with four hexadecimal digits |
| Lexer.OtherTextIsBad | internal/duck/decode.go:95-97 | Text that begins with none of the blanks, the structural characters, a quote, a minus, a digit, `n`, `t` or `f` is an error |
| ValueSkipper.SkipValue | internal/duck/decode.go:128-152 | The depth-counting loop succeeds exactly when the decoder delivers tokens until the brackets it opened are closed, and then leaves what follows |
| ValueSkipper.ValueIsSkipped | internal/duck/decode.go:125-152 | For every nested value and any remainder, skipping consumes exactly the value's tokens, unless a number of it does not fit |
| ValueSkipper.SkipIff | internal/duck/decode.go:125-152 | On every stream of tokens, where a value is due: skipping succeeds exactly when one complete value comes next, and consumes nothing else |
| ValueSkipper.TruncatedValueIsAnError | internal/duck/decode.go:139-142 | Every proper prefix of a value's tokens is an error, never a shorter value |
| ColumnOrder.ReadColumns | internal/duck/decode.go:96-122 | The loop returns the keys that the decoder delivers for the first object, none when nothing follows the opening bracket, and an error exactly when the decoder reports one or a key is not a string |
| ColumnOrder.ColumnOrder | internal/duck/decode.go:93-123 | For every input buffer the columns are those that the decoder delivers for its sanitized text |
| ColumnOrder.ColumnsIff | internal/duck/decode.go:93-123 | On every text that opens an array and an object, well formed or not, columns are returned exactly when whole members follow up to a closing bracket or the end, and they are the keys of those |
| ColumnOrder.SanitizedTextLexes | internal/duck/decode.go:91-97 | What the decoder reads from DuckDB's text, once sanitized, are the tokens of the document that was printed, special floats read as their names |
| ColumnOrder.ColumnsOfRows | internal/duck/decode.go:89-123 | From DuckDB's own text of an array of rows, special floats and nested values included, the result is the first row's keys in their written order, and no columns for an empty array; an error exactly when a number of the first row is out of range |
| ColumnOrder.KeysInOrder | internal/duck/decode.go:105-121 | There is one column for each member of the first row, in the members' order |
| ColumnOrder.NestedColumns | internal/duck/decode.go:125-127 | One whole text: the keys around a nested value and a special float are the columns, in the written order; the nested key is none |
| ColumnOrder.HugeNumberIsAnError | internal/duck/decode.go:63-67 | When 1e999 is out of range, one row with it is an error for columnOrder |
| ColumnOrder.CutResult | internal/duck/decode.go:93-123 | For every prefix of the tokens of an array of rows, commas and colons included: an error exactly when it is empty, ends inside a member of the first row or behind the comma in front of one, or holds a number out of range; otherwise the keys of the members that are whole |
| ColumnOrder.TruncatedRowIsAccepted | internal/duck/decode.go:108-122 | A stream that ends between two members of the first row yields the columns read so far in front of the comma, and an error behind it |
| Ansi.AnsiSeqLen | internal/uikit/render_md.go:215-240 | The loops compute the length of the CSI, OSC or two-byte sequence at the front, and 0 exactly when there is none |
| Ansi.CsiSequence | internal/uikit/render_md.go:220-226 | An escape character and `[` begin a sequence up to the first character from `@` to `~`, or to the end of the text |
| Ansi.OscSequence | internal/uikit/render_md.go:227-236 | An escape character and `]` begin one up to a bell character or an escape and a backslash, or to the end of the text |
| Ansi.TwoByteSequence | internal/uikit/render_md.go:215-240 | An escape and any other character are one of two characters; a lone escape, and any other character, begin none |
| Ansi.PiecesAreWellCut | internal/uikit/render_md.go:213-240 | Every text is cut into pieces that read the same whatever follows them, except possibly the last one |
| Spans.ScanIsOrdered | internal/uikit/render_md.go:133-143 | One token's matches are occurrences of it, in order and without overlap |
| Spans.ScanFindsAll | internal/uikit/render_md.go:133-143 | Every occurrence of the token begins inside a reported match |
| Spans.ScanHits | internal/uikit/render_md.go:122-143 | With both sides lower-cased, the scan finds the first place where the word stands but for its case, then the first one after it, and so on to the end |
| Spans.HitsAreDetermined | internal/uikit/render_md.go:133-143 | Those places are determined by the text and the word |
| Spans.AppendMatches | internal/uikit/render_md.go:133-143 | The inner loop appends exactly the token's matches and ends |
| Spans.CollectMatches | internal/uikit/render_md.go:125-143 | The outer loop collects the matches of all non-empty tokens, token by token |
| Spans.MatchesCover | internal/uikit/render_md.go:125-143 | A position lies in a collected match exactly when some token's scan covers it |
| Spans.MergeInPlace | internal/uikit/render_md.go:154-164 | Writing the merge over the front of the array that is being read computes the same spans as merging onto a separate list |
| Spans.MergeKeepsCoverage | internal/uikit/render_md.go:147-164 | Merging spans sorted by start leaves them in order with a gap between each two, and covers exactly the positions covered before |
| Spans.PreparedSpans | internal/uikit/render_md.go:122-164 | The spans the walk gets are in order, apart, inside the text, and cover exactly what some token's left-to-right scan covers, ignoring case |
| Text.LowerIgnoresCase | internal/uikit/render_md.go:123-129 | Two texts are equal when lower-cased exactly when they are the same but for capital and small letters at the same place of the alphabet |
| Highlight.NextPiece | internal/uikit/render_md.go:174-178 | The next step is the whole escape sequence at this position, or one plain byte when there is none |
| Highlight.WriteSequence | internal/uikit/render_md.go:176-187 | An escape sequence is written through, and reverse video is switched on again after it inside a highlight |
| Highlight.WriteByte | internal/uikit/render_md.go:189-204 | A visible byte is written with an on mark before it at a span's start and an off mark after it at a span's end |
| Highlight.WalkStyled | internal/uikit/render_md.go:166-210 | The walk over the bytes writes what the walk over pieces writes |
| Highlight.NothingToHighlight | internal/uikit/render_md.go:118-146 | Without tokens or matches the text is returned as it is, which is also what the walk would write |
| Highlight.HighlightMatchesTokens | internal/uikit/render_md.go:117-211 | The whole function: the walk over the text along the sorted and merged matches of its plain text, early returns included; what that shows is said by the rows below |
| Highlight.WalkShows | internal/uikit/render_md.go:170-210 | From any point of the walk, the cells shown are the remaining visible bytes, reversed on the spans, and only there unless the text itself turns reverse video on |
| Highlight.WalkReparses | internal/uikit/render_md.go:170-210 | Reading the written text back gives the pieces that were written: the marks disturb no sequence around them |
| Highlight.HighlightShowsMatches | internal/uikit/render_md.go:105-117 | Unless a lone escape is kept and matched, every visible byte is shown once, in order, and reversed where some token's scan covers it; nowhere else, unless the text itself turns reverse video on |
| Highlight.OnlyMatchIsMarked | internal/uikit/render_md.go:166-211 | A word that occurs once, in whatever case, is put between `ESC [7m` and `ESC [27m`, and the text around it stays as it is |
| Highlight.PlainTextIsKept | internal/uikit/render_md.go:105-117 | Erasing the escape sequences of the result gives back the plain text: always when `ansi.Strip` drops a lone escape at the end, and otherwise if and only if the text does not end in one that a token matches |
| Highlight.HighlightedEscapeLeaks | internal/uikit/render_md.go:195-204 | In that case the escape is gone from the plain text and the last three bytes of the closing mark and its bracket are visible in its place |
| Highlight.LoneEscapeLeaks | internal/uikit/render_md.go:117-211 | An escape character on its own, searched for, comes out as the text `[27m` |
| QueryHighlight.HighlightMatches | internal/uikit/render_md.go:105-111 | The tokens of the query are highlighted; the rows below say what that marks |
| QueryHighlight.PhrasesAreMarkedWhole | internal/uikit/render_md.go:105-111 | For a query of quoted phrases, every place where a phrase occurs as one run begins highlighted, and nothing but parts of such runs is |
| QueryHighlight.WordsAreMarked | internal/uikit/render_md.go:105-111 | For a query without quotes, the same for the places where any of its words occurs |
| QueryHighlight.HelloIsMarked | internal/uikit/render_md.go:105-111 | The query `hello` puts the two marks around the text `Hello`, letter for letter |
| QueryHighlight.QuotedHelloIsMarked | internal/uikit/render_md.go:105-111 | The same for the quoted query within a text |
| Tokenize.TokenizeQuery | internal/uikit/tokenize.go:17-50 | The nested loops over one index compute the tokens read from the front, and end on every input |
| Tokenize.ReadPhrase | internal/uikit/tokenize.go:28-40 | At a quote, the phrase up to the next quote is added unless blank, or the quote alone is dropped when it is never closed |
| Tokenize.ScanWord | internal/uikit/tokenize.go:41-47 | A word runs up to the next white space or quote and is never empty |
| Tokenize.SkipSpaces | internal/uikit/tokenize.go:22-27 | Skipping white space loses no token and stops at something else |
| Tokenize.TokensAreTokens | internal/uikit/tokenize.go:5-17 | No token is empty and none contains a quote |
| Tokenize.QuotingRoundTrips | internal/uikit/tokenize.go:5-17 | Quoting a list of phrases and joining them with spaces tokenizes back to the list, if and only if the phrases are free of quotes and not blank |
| Tokenize.TokensKeepText | internal/uikit/tokenize.go:17-50 | Put together, the tokens hold every character of the query that is neither white space nor a quote, in order |
| Tokenize.TokensOfParts | internal/uikit/tokenize.go:21-48 | After balanced quotes, white space and a quote that is never closed both separate the query into two that are tokenized independently |
| Tokenize.OpenQuoteReadsAsSpace | internal/uikit/tokenize.go:11-13 | With an odd number of quotes only the last one is dropped: the query reads as with a space in its place |
| Tokenize.UnquotedQuery | internal/uikit/tokenize.go:41-47 | A query without quotes is split at white space |
| Tokenize.WordPhraseWord | internal/uikit/tokenize.go:5-17 | A word, a quoted phrase and a word are the three tokens, whatever white space of the four kinds is between them and whatever the phrase holds |
| Brewfile.ParseBrewfileEntries | internal/brew/brewfile.go:30-54 | The loop returns the entries of the lines in order, skipping blanks, comments and single words |
| Brewfile.CommentsAreIgnored | internal/brew/brewfile.go:32-40 | A line whose first visible character is `#` yields no entry, nor does a line of a single word |
| Brewfile.AppendedEntries | internal/brew/brewfile.go:168-193 | Parsing after appending entries that read back gives the old entries followed by the new ones, whether or not the text ended in a newline |
| Brewfile.File.AppendEntries | internal/brew/brewfile.go:170-193 | The file ends as the old text, terminated, followed by the entries' lines; the names are returned in order |
| Brewfile.File.RemoveEntries | internal/brew/brewfile.go:320-360 | The file keeps exactly the lines whose type and name are not among the entries'; the names of the lines taken out are returned in order |
| Brewfile.RemovedLines | internal/brew/brewfile.go:318-360 | After a removal the lines are the kept lines byte for byte and in order, and the entries are the old ones without the removed types and names |
| Brewfile.RemovingNothing | internal/brew/brewfile.go:353-355 | Splitting and rejoining without a removal gives back the same text, trailing newline included |
| Brewfile.RemovesTheLine | internal/brew/brewfile.go:318-360 | Removing an entry takes out the line that declares it and leaves the text before and after it as it is |
| Brewfile.AppendsTheLine | internal/brew/brewfile.go:168-193 | Appending an entry ends the last line when the text does not, and adds the entry's line |
| Brewfile.AppendingMissingCompletes | internal/brew/brewfile.go:145-166 | Appending the missing entries of a dump declares all of them: nothing is missing afterwards, and the old entries are still first |
| Brewfile.ReadEntryIsWritable | internal/brew/brewfile.go:46-51 | The trimmed line stored with an entry reads back as the same entry |
| BrewSync.Sync | internal/brew/brewfile.go:217-316 | The file ends as the text that the snapshot and the old text determine, and the names reported are those added and taken out; the rows below say which these are |
| BrewSync.SyncKeepsAndAdds | internal/brew/brewfile.go:204-316 | After a Sync the file declares what it declared and is still on the system (or of another type), in the old order, followed by the installed names it did not declare, all of them, each in a new line, in the order of type and name |
| BrewSync.OldEntryStaysIff | internal/brew/brewfile.go:249-295 | An entry of the file survives exactly when: a formula of its bare name is listed under any tap; a cask is listed or its app is on disk; a tap or a uv tool is listed; or its type is another one |
| BrewSync.ReportsWhatGoes | internal/brew/brewfile.go:306-313 | The names reported as removed are those of the entries that do not survive, in the order of the file |
| BrewSync.ExternalCaskStays | internal/brew/brew.go:125-181 | With nothing listed and one cask's app on disk, the file that declares this cask stays letter for letter |
| BrewSync.OptionsAreRead | internal/brew/brewfile.go:43-51 | A declaration with extras in brackets and options after a comma reads back as its type and bare name, with the extras in the spec and the line as it is |
| BrewSync.ValuesOutside | internal/brew/brewfile.go:278-282 | The values outside a set of keys come out each once, in no promised order |
| BrewSync.AdditionOrderIsDetermined | internal/brew/brewfile.go:278-289 | However the map is iterated, the sorted additions are the same, and they are exactly the missing ones |
| BrewSync.NewEntryReadsBack | internal/brew/brewfile.go:244-248 | The line formatted for a new entry with a printable name, Unicode letters included, reads back as its type and name |
| BrewSync.QuoteEscapes | internal/brew/brewfile.go:246 | In the line of a new entry, a quote or backslash of the name has a backslash in front |
| BrewSync.EntriesAfterSync | internal/brew/brewfile.go:297-315 | The entries in the file after a Sync are the old ones and the additions, without the obsolete types and names |
| BrewSync.AddedEntriesStay | internal/brew/brewfile.go:278-313 | No entry that a Sync adds is removed by the same Sync |
| BrewSync.NothingLeftToDo | internal/brew/brewfile.go:204-217 | When every leaf is listed as installed, a Sync leaves nothing to add and nothing to remove |
| BrewSync.SyncFlips | internal/brew/brewfile.go:249-295 | With a leaf that is not listed as installed, every Sync adds its entry if absent and removes it if present |
| BrewSync.OneLeafFlips | internal/brew/brewfile.go:249-295 | With any one leaf of a printable name and nothing listed as installed, a Sync of an empty file writes its line and the next one leaves the file empty, letter for letter |
| BrewSync.BatFlips | internal/brew/brewfile.go:249-295 | The same with the leaf `bat`: the line comes and goes |
| BrewSync.SecondSyncChangesNothingIff | internal/brew/brewfile.go:204-316 | For a fixed system with printable names, a second Sync changes nothing if and only if every leaf is listed as an installed formula, up to its tap |
| BrewSync.MissingIffObsolete | internal/brew/brew.go:101-123 | Among the four scannable types, an entry is missing for Install exactly when Sync would remove it; other types are always missing and never removed |
| BrewSync.Install | internal/brew/commands.go:49-83 | The missing entries are reported, and they are exactly those that name nothing on the system; the file is made to agree with whatever system the installation leaves, and is untouched when nothing was missing |
| BrewSync.ReportedIff | internal/brew/brew.go:101-123 | An entry is reported as missing exactly when no formula of its bare name is listed, a cask is neither listed nor on disk, a tap or uv tool is not listed, or its type is another one |
| BrewSync.NoneMissingAfterSyncIff | internal/brew/brewfile.go:204-217 | After a Sync no scannable entry of the file is missing, exactly when the file already knew every leaf that is not listed as installed |
| BrewSync.NoneMissingAfterInstallIff | internal/brew/commands.go:43-83 | However many of the missing entries could be installed, afterwards no scannable entry of the file is missing, exactly when none was missing before or the file knew every leaf that is not listed as installed |
| Leaves.Compact | internal/brew/leaves.go:106-107 | On a sorted list, each element stays once, in strictly ascending order |
| Leaves.ComputeRequestedLeaves | internal/brew/leaves.go:93-108 | The result is strictly ascending and holds exactly the full names of the formulae installed on request that no receipt depends on |
| Leaves.LeafIff | internal/brew/leaves.go:32-108 | A leaf was installed on request and no receipt depends on it under whatever tap; its full name has the tap in front unless that is Homebrew's own |
| Leaves.LeavesFromReceiptsConverge | internal/brew/leaves.go:43-60 | When brew lists every formula that has a receipt, a second Sync over leaves computed from receipts changes nothing |
| Tree.Place | internal/share/tree.go:56-74 | One object is in a folder of the directory, a file in it, or not below it |
| Tree.Collect | internal/share/tree.go:53-75 | The loop gathers the folder names as a set and the files in object order, for every key and directory |
| Tree.ChildrenAt | internal/share/tree.go:47-97 | The listing is a function of the objects and the directory alone |
| Tree.ListingIgnoresMapOrder | internal/share/tree.go:77-95 | In whatever order the map yields the folders, the stable sort gives the same listing |
| Tree.ListingShape | internal/share/tree.go:40-97 | Folders come first, each group is in name order and no folder is listed twice, for all keys; with listable keys the parent of every entry is the directory it is listed in |
| Tree.ListingHolds | internal/share/tree.go:47-97 | An entry is listed exactly when it is a file directly in the directory, with its size, address and time, or the folder of a name under which some object lies, with the joined path and nothing else |
| Paths.CleanedPath | internal/share/tree.go:81 | `path.Clean` drops empty names and dots, and two dots take the name in front of them |
| Paths.CleanedClimb | internal/share/tree.go:81 | In front of everything two dots stay, and from the root they lead nowhere |
| Tree.ParentOfChild | internal/share/tree.go:99-108 | ParentPath undoes joining a name onto a directory, the root included |
| Tree.FolderKeyIff | internal/share/tree.go:78-84 | In every directory, the root included, a folder's key is the prefix of its own objects exactly when its name leads down: not empty, and below the root, in a directory other than `.`, not `.`, nor `..` except after another `..` |
| Tree.BadFolderLeadsAway | internal/share/tree.go:81 | Where any other folder leads: back to the directory for an empty name or `.`, to the parent for `..`, and out of `.` to the top level |
| Tree.ListsItselfIff | internal/share/tree.go:53-84 | A directory, the root included, lists itself as a folder exactly when some object below it lies in a folder with an empty name, or below the root in one named `.` |
| Tree.ListingStaysInPlaces | internal/share/tree.go:78-84 | For all keys, every folder reached is the root or a cleaned path without a leading slash, and every file reached has a listable key |
| Tree.FolderGoesDown | internal/share/tree.go:78-84 | With listable keys, every folder of a listing is a cleaned path with less room below it |
| Tree.WalkReaches | internal/share/tree.go:47-97 | With listable keys, the walk from any directory ends and lists exactly the objects below it, each as often as it occurs |
| Tree.WalkListsEveryObjectOnceIff | internal/share/tree.go:47-97 | The walk from the root ends and lists the multiset of all objects if and only if every key is listable: a name after the last slash, and before it nothing or a path without leading slash that path.Clean leaves alone |
| Tree.WalkOfItselfNeverEnds | internal/share/tree.go:47-97 | From a directory that lists itself, no walk ends, however deep it may go |
| Tree.LeadingSlashNeverEnds | internal/share/tree.go:64-66 | One key with a leading slash, among any others, makes the root list itself, and no walk from the root ends |
| NameNormal.TokensOfCommaName | internal/cass/match.go:44-49 | The tokens of "Last, First" are the words of First and then those of Last, whatever white space surrounds the comma |
| NameNormal.SameNormalIff | internal/cass/match.go:33-59 | Two names normalize to the same string exactly when they have the same bag of tokens |
| NameNormal.CommaOrderDoesNotMatter | internal/cass/match.go:35 | "Last, First" and "First Last" normalize to the same string |
| NameNormal.NormalizeIsIdempotent | internal/cass/match.go:38-59 | Normalizing twice is normalizing once |
| NameNormal.CaseDoesNotMatter | internal/cass/match.go:39 | Names that differ in the case of letters alone have the same normal form |
| NameNormal.LettersAreKept | internal/cass/match.go:39-59 | Each letter of the alphabet occurs in the normal form as often as, in either case, in the name |
| NameNormal.NormalForm | internal/cass/match.go:55-58 | The normal form is made of words of small letters in lexicographic order with one space between two |
| NameNormal.OBrien | internal/cass/match.go:38-59 | `O'Brien, Mary-Jane` and ` Mary-Jane O'Brien` both come out as `maryjane obrien` |
| NameMatch.ScoreName | internal/cass/match.go:106-134 | 100 means equal normalized names and nothing else does; any other score is 0 or between 45 and 90 |
| NameMatch.ScoreIsShare | internal/cass/match.go:106-134 | The score is 100 for equal names, 0 unless the names share a word and at least half of the words of one of them, and otherwise 90 times the shared words over the shorter name's words, rounded down |
| NameMatch.ScoreIsDetermined | internal/cass/match.go:106-134 | Only one number meets that, and it is positive exactly for the names that are equal or alike |
| NameMatch.PartScores90 | internal/cass/match.go:124-133 | A name whose words are all among the other's scores 90, however many more the other has |
| NameMatch.FindCandidates | internal/cass/match.go:78-104 | The students whose names are alike, each as often as listed, with the score that the share of common words gives, best first, with no promise about ties; none for an empty name |
| NameMatch.CandidatesAreRanked | internal/cass/match.go:78-104 | Who is listed, said by the words of the names alone: a student is a candidate exactly when both normal forms are non-empty and alike |
| NameMatch.FirstUnused | internal/cass/match.go:160-166 | The first candidate whose student is not used |
| NameMatch.Choose | internal/cass/match.go:158-168 | A student is chosen exactly when an unused one has the same non-empty normalized name |
| NameMatch.MatchOne | internal/cass/match.go:157-174 | One loop step keeps the matched names equal to what the names seen and the students have in common, and the unused students equal to the rest |
| NameMatch.AutoMatch | internal/cass/match.go:152-176 | The matching is one-to-one, pairs only equal normalized names, accounts for each name once and in order as matched or unmatched, and its names are the bag intersection of both lists |
| NameMatch.PickedIsPart | internal/cass/match.go:154-176 | The normalized names of any choice of distinct positions are part of the bag of all of them |
| NameMatch.GreedyMatchingIsMaximum | internal/cass/match.go:154-176 | No matching of positions with equal non-empty normalized names is larger than the greedy one, whose size is the sum over the names of the smaller count |
| NameMatch.AutoMatchNames | internal/cass/match.go:152-176 | With the program's own normal form, the matching is good, accounts for every name and is a maximum matching |
| GradeSync.Database.DiffLocal | internal/cass/diff.go:75-123 | The changes are one for each non-empty local grade that the baseline lacks or has differently, in slug and student order, whatever order the rows are read in |
| GradeSync.DiffHolds | internal/cass/diff.go:75-123 | A change is listed exactly when its row has a non-empty grade that the baseline lacks or has differently, with both grades and the Canvas cell, in the order of slug and student number, no row twice |
| GradeSync.GroupByAssignment | internal/cass/push.go:33-40 | The nested maps hold, for every Canvas cell, the last change to it and nothing else |
| GradeSync.PostGroup | internal/cass/push.go:43-57 | One assignment's post: on success exactly its cells are added to what has been written, on failure any part of them |
| GradeSync.PostGroups | internal/cass/push.go:42-60 | The loop over the assignments, in any order: after the last one Canvas holds the whole target and the count is its size; at a failure the assignments before it are written whole and counted, the failed one in any part, and no other |
| GradeSync.PushGrades | internal/cass/push.go:30-61 | On success Canvas holds every change and the count is the number of cells; on failure whole assignments are written and counted, and any part of one more |
| GradeSync.StoppedIsPartlyWritten | internal/cass/push.go:45-60 | After a failure every cell is as before or as the changes say |
| GradeSync.Database.SyncGrades | internal/cass/push.go:102-115 | The baseline becomes the non-empty local grades, which stay as they are |
| GradeSync.Database.Revert | internal/cass/diff.go:232-263 | Local rows without a baseline go, the others get their baseline grade, and the count is of the grades that changed |
| GradeSync.Push | cmd/sci/cass.go:494-540 | The command: nothing for no changes, the baseline refreshed only after a push that completed |
| GradeSync.TargetOfDiff | internal/cass/diff.go:85-92 | With one Canvas cell per row, a push writes exactly the pending rows, each to its own cell |
| GradeSync.NothingPendingAfter | internal/cass/diff.go:75-123 | After a completed push, and after a revert, no change is pending |
| GradeSync.PushKeepsAgreement | internal/cass/push.go:102-115 | When the baseline agrees with Canvas, a completed push keeps it so and puts every non-empty local grade on Canvas |
| GradeSync.PushRestoresAgreementIff | internal/cass/push.go:102-115 | From any state, a push with changes makes the baseline agree with Canvas exactly when no row without a pending change disagrees already |
| GradeSync.EveryRunKeepsAgreement | cmd/sci/cass.go:494-540 | In every run of edits, deletions, completed pushes and reverts, the baseline agrees with Canvas on every baseline row |
| GradeSync.RetriesConverge | internal/cass/push.go:43-60 | However many pushes fail and whatever part each applied, the push that completes reaches the state of one full push |
| GradeSync.EditingBackHidesDisagreement | internal/cass/diff.go:85-92 | Editing a grade back after a half-applied push leaves nothing pending while Canvas keeps the abandoned grade |
| GradeSync.CanvasMatchesLocalIff | internal/cass/diff.go:85-92 | After a completed push Canvas shows the local grade of every row, an absent one counting as empty, exactly when it showed none for the rows whose grade is empty |
| GradeSync.EmptiedGradeStays | internal/cass/diff.go:90 | A grade that is emptied locally stays on Canvas, with nothing pending |
| GradeSync.RevertRestoresExactly | internal/cass/diff.go:232-258 | A revert restores the baseline exactly when no baseline row was deleted locally, and reverting twice is reverting once |
| GradeSync.DeletedRowStaysDeleted | internal/cass/diff.go:232-258 | From an agreeing state with one row, deleting it and reverting does not bring it back |
| CastPlayer.CastPlayer.constructor | internal/uikit/ui_castplayer.go:124-130 | A new player has shown nothing and is neither paused nor finished |
| CastPlayer.CastPlayer.ScheduleNext | internal/uikit/ui_castplayer.go:272-293 | The tick scheduled is for the current event, after its distance to the previous one held within 0 and two seconds; none past the last event |
| CastPlayer.CastPlayer.Init | internal/uikit/ui_castplayer.go:136-139 | Playback starts with the tick for the current event |
| CastPlayer.CastPlayer.Update | internal/uikit/ui_castplayer.go:141-174 | Every message changes the fields and schedules a tick as one step of the state machine; the rows below say what each message does |
| CastPlayer.CurrentTickPlays | internal/uikit/ui_castplayer.go:144-154 | The tick for the current event shows its data and sends the next one, or finishes the player after the last event |
| CastPlayer.OtherTicksDoNothing | internal/uikit/ui_castplayer.go:145-147 | A tick for another event, or while paused or finished, is only used up |
| CastPlayer.SpacePauses | internal/uikit/ui_castplayer.go:158-163 | Space pauses a running player and changes nothing else |
| CastPlayer.SpaceResumes | internal/uikit/ui_castplayer.go:158-163 | Space lets a paused player go on, with a tick for its event on the way unless it has finished |
| CastPlayer.RestartStartsOver | internal/uikit/ui_castplayer.go:164-169 | Restart sets every player back to event 0 with empty output, running, and a tick for it on the way |
| CastPlayer.OtherKeysDoNothing | internal/uikit/ui_castplayer.go:156-173 | Any other key changes nothing |
| CastPlayer.Delay | internal/uikit/ui_castplayer.go:276-288 | The wait is never negative and never above two seconds |
| CastPlayer.DelayIsNearest | internal/uikit/ui_castplayer.go:276-288 | The wait is the distance to the previous event (to the start for the first) if that lies within 0 and two seconds, and the nearer of the two bounds otherwise |
| CastPlayer.ActKeepsInv | internal/uikit/ui_castplayer.go:142-174 | From every reachable world, any delivery, stray tick or key press is handled without failure and keeps the invariant |
| CastPlayer.EveryRunKeepsInv | internal/uikit/ui_castplayer.go:142-174 | Under any interleaving of ticks, duplicates, pauses and restarts the output is the concatenation of the first `current` events, and a player neither paused nor finished has a tick for `current` on its way |
| CastPlayer.RunsGoOn | internal/uikit/ui_castplayer.go:142-174 | Any list of actions can be carried out up to the first tick that is not outstanding |
| CastPlayer.DeliveriesAreConserved | internal/uikit/ui_castplayer.go:144-154 | In any delivery order, deliveries, outstanding ticks and ticks still to schedule add up to a constant, and the events played are the next ones, each once |
| CastPlayer.DeliveringAllPlaysAll | internal/uikit/ui_castplayer.go:144-154 | Deliveries come to an end, and when no tick is left every event has been played once and in order |
| CastPlayer.PausedStands | internal/uikit/ui_castplayer.go:145-147 | While the player is paused, no list of outstanding or stray ticks moves it |
| CastPlayer.PauseAndResume | internal/uikit/ui_castplayer.go:158-163 | Pausing, any ticks, and pausing again leaves the same player, with a tick for its event outstanding unless it has finished |
| CastPlayer.RestartPlaysAll | internal/uikit/ui_castplayer.go:164-169 | From a restart in any reachable world, delivering until no tick is left plays all events, from the first on, each once |
| CastPlayer.PlayOut | internal/uikit/ui_castplayer.go:142-174 | The same on the object: whichever outstanding tick comes next, the player ends finished with everything shown |
| TableWidths.FrameWidth | internal/uikit/table.go:140-149 | The loop computes contents, padding and borders |
| TableWidths.FrameAdds | internal/uikit/table.go:140-149 | Each column adds its content and one cell on either side, and there is one border more than columns |
| TableWidths.FindWidest | internal/uikit/table.go:126-135 | The leftmost of the widest columns above the floor, or none when all are at it |
| TableWidths.ShrinkToFit | internal/uikit/table.go:120-138 | It ends; no column goes below the smaller of its natural width and 3; the table fits or every column is at the floor; a shrunk table that fits fills the width exactly; every shrunk column is within one cell of the widest |
| TableWidths.FitsIffFloorFits | internal/uikit/table.go:120-124 | The result fits exactly when the table with every column at its floor would |
| TableWidths.WidestColumnIsMinimal | internal/uikit/table.go:120-138 | No assignment within the natural widths and with the same total has a smaller widest column |
| TableWidths.ShrinkingIsDetermined | internal/uikit/table.go:120-138 | Those promises leave only one possible result |
| TableWidths.TwoColumns | internal/uikit/table.go:120-138 | Columns of 10 and 4 become 4 and 4 in 15 cells, 3 and 3 in none, and stay in 21; nothing else meets the promises |
| WordWrap.WrapParagraph | internal/uikit/layout_compose.go:161-182 | The loop over the words of a paragraph writes the greedy lines onto the result |
| WordWrap.WordWrap | internal/uikit/layout_compose.go:151-185 | The whole function: the text itself for an empty text or no width, otherwise paragraph by paragraph |
| WordWrap.NoWidth | internal/uikit/layout_compose.go:151-154 | Without any width to keep to, the text stays as it is |
| WordWrap.GreedyIsBreaking | internal/uikit/layout_compose.go:165-182 | The lines keep the words in order, are within the limit unless a single word, and no line could have taken the first word of the next |
| WordWrap.GreedyIsAhead | internal/uikit/layout_compose.go:165-182 | Against any breaking that keeps to the limit, greedy has fewer lines, or as many with no more words on the last |
| WordWrap.GreedyUsesFewestLines | internal/uikit/layout_compose.go:165-182 | No breaking that keeps to the limit uses fewer lines |
| WordWrap.WrappingKeepsWords | internal/uikit/layout_compose.go:151-185 | Over the whole text, no word is dropped, added, split or moved |
| WordWrap.WrapAllLines | internal/uikit/layout_compose.go:157-164 | The output is the greedy lines of the paragraphs in turn, blank ones as empty lines, without the blank ones before the first word |
| WordWrap.BreaksAreKeptIff | internal/uikit/layout_compose.go:151-160 | All paragraph breaks are kept exactly when there is one paragraph or the first of several is not blank |
| WordWrap.LeadingBreakIsLost | internal/uikit/layout_compose.go:157-160 | A newline followed by a letter comes out as the letter alone, at any width |
| WordWrap.WidthIsLength | internal/uikit/layout_compose.go:165-176 | Where every character is one cell wide, a written line of more than one word is no longer than the limit |
| WordWrap.ThreeWords | internal/uikit/layout_compose.go:165-182 | Words of 3, 2 and 2 characters in 6 cells come out as two lines, the first of two words |
| Headers.ReplaceUnsafe | internal/store/helpers.go:164-180 | Runs of invalid bytes and every unsafe rune become underscores, everything else stays in place |
| Headers.CleanHeaders | internal/store/helpers.go:137-143 | Every header trimmed, made safe, and named by its position when nothing is left |
| Headers.UnsafeCharacters | internal/store/helpers.go:88-104 | Of printable ASCII only the quote and the backslash are unsafe; control characters, the byte order mark and other invisible format characters always are |
| Headers.CleanedHeaders | internal/store/helpers.go:128-135 | One header for each of the first three steps: blank, with outer white space, with an unsafe character, with invalid bytes |
| Headers.BlankRow | internal/store/helpers.go:132 | In a row of blank headers the names tell the places, the first one being 1 |
| Headers.NextFree | internal/store/helpers.go:151-154 | The search ends, and starting above the counter finds the least free number of all |
| Headers.Assign | internal/store/helpers.go:146-159 | A free name stays, a taken one gets the least free suffix, and the counters stay below numbers that are all taken |
| Headers.SanitizeImportHeaders | internal/store/helpers.go:136-162 | The in-place loop over the slice and the map gives the cleaned names their least free suffixes from left to right |
| Headers.BlockingShrinks | internal/store/helpers.go:151-159 | Each rejected candidate leaves fewer taken names in the way: the pigeonhole argument behind termination |
| Headers.DecimalIsInjective | internal/store/helpers.go:153 | Different numbers print differently |
| Headers.DecimalMeans | internal/store/helpers.go:153 | The digits stand for the number, without leading zero |
| Headers.SanitizedNamesAreSafeAndDistinct | internal/store/helpers.go:125-136 | On every input the result has one name per header, every name safe and no two the same |
| Headers.UnchangedIffClean | internal/store/helpers.go:125-136 | A row is left alone exactly when its names are safe, trimmed and distinct |
| Headers.SanitizingIsIdempotent | internal/store/helpers.go:136-162 | Sanitizing a sanitized row changes nothing |
| Headers.Duplicates | internal/store/helpers.go:133 | Three equal headers get the suffixes `_1` and `_2`, and a number that a header has already is passed over |
| WriteKeyword.ContainsWriteKeyword | internal/store/helpers.go:43-61 | True exactly when some keyword occurs with no letter directly before or after it |
| WriteKeyword.Scan | internal/store/helpers.go:45-58 | The skip-ahead search for one keyword finds a hit that stands alone whenever there is one |
| WriteKeyword.NothingStandsInside | internal/store/helpers.go:57 | Jumping past a rejected hit loses nothing, for any keyword of letters, self-overlapping ones included |
| WriteKeyword.SixWords | internal/store/helpers.go:44 | Each of the six words, letter for letter, is found between texts that end and begin with nothing, a space, a parenthesis, a digit, an underscore, a semicolon or a newline |
| WriteKeyword.OtherWords | internal/store/helpers.go:39-55 | `SELECT * FROM x` and `INSERTED` hold none of them |
| WriteKeyword.LettersAre | internal/store/helpers.go:52-53 | Among ASCII characters, letters are those of the two alphabets |
| WriteKeyword.DocumentedIff | internal/store/helpers.go:39-55 | An occurrence counts by the comment exactly when it counts in the code and nothing but a space or parenthesis is beside it |
| WriteKeyword.DigitIsABoundary | internal/store/helpers.go:39-55 | A keyword after a digit is found, though the comment does not name digits |
| Promote.PromoteSQLite | internal/duck/promote.go:95-155 | The loops give each column, in order, the resolved type, the failure count and the projection that the probe of its cells determines |
| Promote.CountsTellFailures | internal/duck/promote.go:178-191 | The difference of the two counts is the number of non-blank cells that fail to cast, and 0 only when there is none |
| Promote.ProbedColumnIsTypedIff | internal/duck/promote.go:133-146 | A probed column keeps its type exactly when none of its cells fails to cast, and falls back to VARCHAR exactly when one does |
| Promote.PromotionLosesNothingIff | internal/duck/promote.go:136-155 | Rows keep their number and width and columns their order; a VARCHAR column is unchanged; a column loses content exactly when it is not declared VARCHAR, its type is not one to promote, and a cell of it fails to cast |
| Promote.BlobCellsAreCast | internal/duck/promote.go:157-173 | Whatever the cast does, BLOB cells that differ in outer spaces come out the same and blank ones as NULL, and a cell the cast rejects is lost, although the comment says they pass verbatim |
| Promote.CellsAreCast | internal/duck/promote.go:168-173 | What is cast is what stands between a cell's outer spaces; an absent or blank cell becomes NULL and never counts as failing |
| Promote.ToPromoteIff | internal/duck/promote.go:157-162 | Every type is to be promoted but VARCHAR and BLOB, in any letter case |
| Promote.ValidTypeIff | internal/duck/promote.go:30-42 | The types allowed into the probe are a capital letter followed by capitals, digits and underscores, alone or with digits, spaces and commas in one pair of parentheses |
| Promote.ProbedTypes | internal/duck/promote.go:101-112 | INTEGER, DOUBLE and DECIMAL(18, 3) columns are probed; VARCHAR, BLOB, small letters and nested types are not |
| Order.SortByIsStableSort | internal/share/tree.go:87-95 | The sort the models use orders the elements, keeps each of them, and keeps the order of ties |
| Order.StrLeqIsLexicographic | internal/brew/brewfile.go:283-289 | Strings are compared in lexicographic order |
| Order.StableSortIsUnique | internal/share/tree.go:87-95 | A sorted arrangement is fixed by the order within each group of ties, so every stable sort gives this result |
| Order.SortIsUnique | internal/brew/brewfile.go:283-289 | When only equal elements tie, every sort gives the same result, stable or not |

## Left out

- Bytes and runes: a text is a sequence of characters; where Go indexes bytes, read them as byte values, and header rows are runes and invalid bytes. Lower- and upper-casing are ASCII and keep the length; Unicode case mapping is not modelled.
- `ansi.Strip` (an external library): assumed to erase exactly the sequences that `ansiSeqLen` measures; whether it keeps a lone escape at the end is a parameter.
- `encoding/json`: string bodies stay undecoded, so two spellings of a key are two keys; which numbers `strconv.ParseFloat` takes is an arbitrary predicate; an error is not told from the end of the text.
- ColumnOrder.CutResult: cuts between tokens; for a text that is cut inside a token, `ColumnsIff` speaks of the tokens that are left.
- BrewSync.NewEntryReadsBack: code points that Unicode has not assigned count as printable, which `%q` escapes.
- `lipgloss.Width`: an arbitrary non-negative width per word; table widths are given.
- `%q`: only quotes and backslashes are escaped. The convergence theorems are about printable names without either, for which `%q` adds nothing but the quotes.
- Go's sorts: stable insertion sort stands for them; where ties are possible and the sort is not stable, no order of ties is promised (`FindCandidates`).
- The type, tab, name key of Brewfile entries is a pair: a type read from a line holds no tab.
- ScoreName: the overlap ratio is a real number; the rounding of `float64` is not modelled.
- Event times are real numbers; durations in nanoseconds, time stamps and `updated_at` columns are not modelled.
- UpdateGrades and polling: one nondeterministic step that may apply any part of its form when it fails; requests, time limits and the grade form's encoding are not modelled.
- SyncGrades: its delete and insert are taken to succeed together; SQLite failures between them, and database errors anywhere, are not modelled.
- Promote: tables are sequences of cells and casting is an arbitrary partial function; SQL text, column names that clash in the probe, and DuckDB's own errors are not modelled.
- Sync: file errors are not modelled, and the snapshot is fixed while it runs; the probing of casks on disk is a set of names.
- `InstallEntries`: the subprocess steps; what they leave installed is any system.
- Subprocesses, HTTP, SSH, terminals, forms and views: everything around these cores.
- `internal/cass/pull.go` (upserts from the API), `DiffRemote`, `Slugify`, `ValidateReadOnlySQL`, `TableNameFromFile`, `ParseCast`, `LineEditor`, the flex and grid layouts, padding helpers, version comparison and transfer logs would add only easier members, or depend on floating point and library joins.
