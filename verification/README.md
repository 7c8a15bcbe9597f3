# Verification of sysak's JSON library, page scanners, probe compiler and IO tracer

A Dafny model of the most intricate parts of the system-analysis kit, with proofs of what they are for.
`dafny verify dfyconfig.toml` checks everything.

**cJSON** (`source/lib/uapi/cJSON.c`). `Json` defines trees, their printed text and the reading of text as
functions; everything imperative is proved against these. `Grammar` says which texts are accepted and what they
mean without reading them byte by byte, `Layout` how printed text looks. `Literal` and `Decode` treat string
literals, with the two passes of the parser over them, `Bits` the bitwise operators used there, and `CodePoints`
ties literals to characters. `ParseBuffer` is the parser on an explicit heap (`Heap`, `HeapTree`,
`HeapList`) in which any allocation may be refused and only live blocks can be freed. `HeapTree` says when nodes
represent a tree and own its blocks, `HeapRead` what a reader sees who only follows links, whoever owns them:
`PrintBuffer`, the printer with its growing buffer, `CompareNodes` and `Duplicate` walk such nodes. `RoundTrip`,
`RoundTripEqual` and `Reparse` relate printing and parsing. `Minify` and `MinifyInPlace`, `ListEdit`, `TreeEdit`
and `Compare` cover the other operations on texts and trees; `MinifyParts` says what minifying leaves,
`MinifyExact` and `MinifyWeight` exactly when it keeps the meaning of a text, and `Canonical` what comparing means. Strings are bytes, and pointers are numbers into the heap, so sharing and
freeing are visible. Numbers are reals, the two infinities and NaN. The C library's two number formats and its
number reader are parameters; for integers below 10^15 a concrete library is given, shown to be faithful and put
into the round trip (`Reparse.IntegersRoundTrip`).

`Compare.EqualsItselfExactly` and `Duplicate.CopyCompares` are exact for every number comparison, but their
condition follows the comparison member by member. The conditions to use are `Regular` (nothing missing or invalid,
members with matching keys hold equal values) and `DistinctKeys` (nothing missing or invalid, finite numbers, no two
matching keys): `Compare.RegularEqualsItself`, `Compare.DistinctKeysRegular`, `Duplicate.CopyEqualsOriginal`.

**Page fragments** (`pagescan/fragement.c`). `Bitmap` is the word-wise bit search on 64-bit words, `Fragment` the
greedy decomposition of a run of pages into buddy blocks with its optimality, `BuddyStat` the statistics of a
whole bitmap.

**surftrace** (`surftrace.py`). `FetchArg` gives the kernel's reading and execution of a fetch argument,
`StructTable` the C layouts, the flat member tables made from them and the lookups, `Surftrace` the compiler and
its exact behaviour against a semantics of member chains, with C's rules and with the compiler's more lenient
ones, `ShownAs` the way a value is shown by its type, `InBounds` that chains stay within their structs, `ChainText`
the way from the chain's text.

**IO latency** (`bpf_iosdiag_common.h`, `format_json.c`). `IoTracer` is a step system over the per-sector table,
every handler one step, which `IoLog` relates to a plain log of events; `DelayFormat` is the delay arithmetic of
the report.

**2 MiB block scanning** (`pagescan.c`, `zero_subpage.c`, `movability.c`). `PageWindows` walks a region,
`ZeroSubpages` holds the scanner with its static variables, the scan of huge pages and the dump of both
histograms, `Movability` the page classification and the counters per node. `ZeroCounts` and `MovabilityCounts`
say what is counted, as numbers of pages, blocks and windows (`Counting`).

Where the code differs from what one would expect, the model follows the code:

- cJSON_Minify takes a closing quote behind an escaped backslash for an escaped one (`Minify.StopsAtClose`);
  the meaning can change (`Minify.MinifyChangesMeaning`). It does not exactly where no byte inside a literal is
  dropped (`MinifyWeight.MinifyExactly`), provided the literals decode without a NUL; behind a NUL the rest of
  a literal does not matter (`MinifyWeight.NulHides`).
- cJSON_Compare is not transitive because of its relative tolerance (`Compare.ToleranceNotTransitive`); it is
  exactly where the tolerance is (`Compare.TransitiveExactly`), such as on integers below 2^52
  (`Compare.IntegersTransitive`, `Compare.IntegersTight`).
- cJSON_Compare takes a node for equal to itself whatever it holds (`CompareNodes.SharedNotANumber`,
  `CompareNodes.AlikeEqual`).
- An infinity, such as 1e999 reads as, compares equal to every number but itself (`Numbers.ComparedCases`,
  `Compare.InfinityEqualsAll`, `Compare.InfinityTransitive`).
- print_number keeps 15 digits when they are close enough, so digits can get lost (`Numbers.FifteenDigitsLose`,
  `RoundTripEqual.PrintParseEqual`). It also keeps them when they overflow: the largest double comes back as an
  infinity and then as null (`RoundTripEqual.LargestTree`), exactly where the 15 digits are beyond every double
  (`Numbers.OverflowExactly`, `RoundTripEqual.PrintParseFinite`).
- A `\u` escape with a byte that is not a hexadecimal digit reads as code 0, and a backslash before the closing
  quote can take the quote with it in the second pass (`Literal.Next`).
- cJSON_PrintPreallocated needs the rendered length plus 2, not the 5 bytes more that its header advises.
- get_max_delay wraps around when a point is missing or late (`DelayFormat.GapsWithinTotal`), and the tracer emits
  such records (`DelayFormat.MissingPointWraps`); `DelayFormat.RunsInOrder` says which.
- The surftrace compiler accepts chains that C does not. It builds, but does not raise, its error for an arrow
  behind an inline struct (`Surftrace.ArrowInsideTaken`), looks only at the last star of a pointer type
  (`Surftrace.ManyStarsTaken`), ignores a cast on an inline struct (`Surftrace.CastInlineIgnored`), lets such a cast
  on the last link hide that the chain is not finished (`Surftrace.CastAtEndTaken`), takes a dot on the register
  itself (`Surftrace.DotOnRegisterTaken`), ignores what stands behind the first brackets of a link
  (`Surftrace.BehindBrackets`), and drops a trailing operator (`ChainText.TrailingDropped`). It rejects a final cast
  to `char` (`Surftrace.CastToCharRejected`), and takes any array whose type has a word beginning with `char` for
  text (`ShownAs.ChargersAreChars`). `Surftrace.CompileExact`, `Surftrace.TakenExactly` and
  `ChainText.TextExact` say exactly what is accepted and what it then means.
- scan_movability charges a block to the node of the frame that follows it (`Movability.Overcharged`); that is
  right exactly where no node boundary lies between them (`Movability.ChargedExactly`).
- A compound head inside a block is counted as 512 pages on top of those before it (`Movability.StrayHeadCounted`,
  `Movability.CountsExactly`).

## Model

| member | source | states |
|---|---|---|
| `RoundTrip.PrintThenParse` | source/lib/uapi/cJSON.c:1308-1821 | parsing the printed text of a tree, formatted or not, succeeds exactly when at most 1000 containers are nested, consumes all of it and yields the tree with each number as its digits give it, an infinity where they overflow (missing strings as empty, numbers that are not finite as null) |
| `RoundTripEqual.PrintParseEqual` | source/lib/uapi/cJSON.c:545-608 | a tree of at most 1000 nested containers that prints as JSON, with finite numbers, present strings and distinct keys, comes back from print and parse as one that cJSON_Compare takes for the old one if and only if every number is recovered, within compare_double (which takes an infinity for any number), by its 15 or by its 17 digits |
| `RoundTripEqual.NormalEqual` | source/lib/uapi/cJSON.c:2977-3100 | the same for the tree itself: equal to what its text expresses exactly when its numbers are recovered |
| `RoundTripEqual.PrintParseFinite` | source/lib/uapi/cJSON.c:545-608 | with 17 digits that read back as finite numbers, the tree that comes back from print and parse holds finite numbers only if and only if no number has 15 digits beyond every double |
| `RoundTripEqual.NormalFinite` | source/lib/uapi/cJSON.c:567-576 | the same for what the text expresses |
| `RoundTripEqual.LargestTree` | source/lib/uapi/cJSON.c:545-608 | the largest double comes back from print and parse as an infinity, which cJSON_Compare takes for it, and the second time as null, which it does not |
| `RoundTrip.ParseRendered` | source/lib/uapi/cJSON.c:1308-1821 | the same for a value in any context: any nesting depth before it and any text after it that does not prolong a number |
| `Reparse.ParsePrintParse` | source/lib/uapi/cJSON.c:1091-1168 | any tree that came out of a text survives print and parse up to the digits of its numbers; it is unchanged when its numbers are finite and read back exactly |
| `Reparse.ValueYielded` | source/lib/uapi/cJSON.c:1308-1360 | whatever the text, a parsed value plus its context never nests more than 1000 containers and has no missing string or key |
| `Reparse.IntegersRoundTrip` | source/lib/uapi/cJSON.c:305-608 | with the C library on integers, a tree of integers below 10^15 with nothing missing and at most 1000 nested containers comes back from print and parse exactly as it was, formatted or not |
| `Grammar.DocumentParses` | source/lib/uapi/cJSON.c:1034-1707 | every document of the grammar (an optional byte order mark, blanks up to byte 32 in every place the code allows them, and whatever follows) is parsed to its value exactly if it nests at most 1000 containers and, where the whole text has to be one, nothing but blanks follows |
| `Grammar.AcceptedDocument` | source/lib/uapi/cJSON.c:1034-1707 | conversely whatever text is accepted, as a whole or in front, is such a document, with a syntax tree of that value |
| `Grammar.ValueParses` | source/lib/uapi/cJSON.c:1308-1360 | the same for a value in any place: each syntax tree is parsed to its value, leaving what follows |
| `Grammar.ValueSyntax` | source/lib/uapi/cJSON.c:1308-1360 | and each parsed value has a syntax tree that spells exactly the bytes consumed |
| `Numbers.SmallIntegersFaithful` | source/lib/uapi/cJSON.c:305-379 | integers below 10^15 in magnitude print to at most 25 bytes that read back as the same number, whatever the C library does with other numbers |
| `Numbers.ReadBackClose` | source/lib/uapi/cJSON.c:567-576 | the text print_number settles on reads back as a number that compare_double takes for the old one if and only if the 15 or the 17 digits do |
| `Numbers.FifteenDigitsLose` | source/lib/uapi/cJSON.c:567-576 | it need not read back exactly: 0.1 + 0.2 in binary floating point is printed as 0.3 |
| `Numbers.ComparedCases` | source/lib/uapi/cJSON.c:538-542 | compare_double on all doubles: a NaN equals nothing, an infinity equals everything else but itself, finite numbers are equal within the relative tolerance |
| `Numbers.OverflowExactly` | source/lib/uapi/cJSON.c:567-576 | with 17 digits that read back as a finite number, the printed text reads back as an infinity, and prints as null from then on, if and only if the 15 digits are beyond every double |
| `Numbers.LargestLost` | source/lib/uapi/cJSON.c:567-576 | that happens: the 15 digits of the largest double are kept and read back as an infinity |
| `Numbers.SaturateNearest` | source/lib/uapi/cJSON.c:361-373 | for a finite number valueint is an int on the number's side of zero, no further from zero than the number, and the furthest such int; for an infinity it is the extreme int |
| `Literal.UnescapeEscape` | source/lib/uapi/cJSON.c:898-1017 | decoding inverts the escaping of every NUL-free byte string |
| `Literal.CloseAtEscape` | source/lib/uapi/cJSON.c:782-811 | the first pass finds the closing quote of every escaped string, whatever follows |
| `Literal.DecodedFits` | source/lib/uapi/cJSON.c:782-881 | for every closed literal body, well formed or not, the decoded bytes and the terminator fit the block sized by the first pass |
| `Literal.LiteralFits` | source/lib/uapi/cJSON.c:782-881 | so for every text behind an opening quote: if the literal closes and decodes, bytes and terminator fit the block |
| `Literal.StepFits` | source/lib/uapi/cJSON.c:814-881 | each second-pass step writes no more than the reserved room it gives up, also where the two passes disagree on escape boundaries |
| `Literal.PiecesDecode` | source/lib/uapi/cJSON.c:648-766 | section 7 of RFC 8259: raw bytes and well-formed escapes decode to the concatenated UTF-8 (section 3 of RFC 3629) of their code points, surrogate pairs combined |
| `Literal.OnlyPiecesDecode` | source/lib/uapi/cJSON.c:648-766 | conversely every body that decodes is such a sequence of pieces, and its value is theirs |
| `Literal.UnpairedSurrogateRejected` | source/lib/uapi/cJSON.c:665-713 | a surrogate escape that is not half of a pair makes the literal invalid |
| `CodePoints.LiteralMeans` | source/lib/uapi/cJSON.c:646-895 | a literal whose characters are written in any of the ways of section 7 of RFC 8259 (raw, by letter, by one or two numbers in either case) is read as the UTF-8 of exactly these characters, as the grammar in section 4 of RFC 3629 decodes it, and what follows the closing quote is left |
| `CodePoints.FirstEncoded` | source/lib/uapi/cJSON.c:714-757 | the bytes written for a character are decoded back to it by that grammar, whatever follows |
| `CodePoints.FirstIsEncoded` | source/lib/uapi/cJSON.c:714-757 | and whatever the grammar takes for a character is what is written for it |
| `CodePoints.HalvesCombine` | source/lib/uapi/cJSON.c:703-703 | the UTF-16 halves of every character beyond the first 65536 combine to it |
| `CodePoints.EscapeWritten` | source/lib/uapi/cJSON.c:898-1017 | how each byte is printed: with its letter if it has one other than the slash, else by a number in lower case below 32, else as it is |
| `CodePoints.EscapeShortest` | source/lib/uapi/cJSON.c:898-1017 | of all literals of RFC 8259 for the same bytes none is shorter than the printed one |
| `Decode.FindClose` | source/lib/uapi/cJSON.c:782-806 | the first-pass loop finds the closing quote and the number of escapes, and fails exactly when there is none |
| `Decode.ParseHex4` | source/lib/uapi/cJSON.c:611-644 | four hexadecimal digits give their value, anything else gives 0 |
| `Decode.EncodeUtf8` | source/lib/uapi/cJSON.c:714-757 | the byte-filling loop with its masks produces the UTF-8 encoding of every code point |
| `Decode.Masks` | source/lib/uapi/cJSON.c:743-757 | on machine words the masks and the shift of the encoder are the arithmetic the encoding loop is modelled with |
| `Decode.PairBits` | source/lib/uapi/cJSON.c:703-703 | masking both halves to ten bits, shifting the first and joining them is the code point of the pair |
| `Decode.Lead` | source/lib/uapi/cJSON.c:750-758 | the mark of a first byte lies over bits that are clear |
| `Bits.Tail` | source/lib/uapi/cJSON.c:743-749 | a tail byte is the mark 0x80 over the low six bits |
| `Decode.Utf16ToUtf8` | source/lib/uapi/cJSON.c:648-766 | one or two \\u sequences: the bytes and the length consumed, or nothing when invalid |
| `Decode.DecodeStep` | source/lib/uapi/cJSON.c:824-869 | one escape of the second pass agrees with the reference step |
| `Decode.DecodeBody` | source/lib/uapi/cJSON.c:814-881 | the second pass decodes exactly when the reference does, writing only inside the block the first pass sized; it is given the text up to the closing quote and nothing behind it, so no read lies beyond that quote |
| `Printing.PrintBuffer.Ensure` | source/lib/uapi/cJSON.c:439-522 | reserves needed + 1 bytes behind the offset exactly when the limit (INT_MAX or the preallocated capacity) allows it and no request is refused, keeping the text before the offset on both growth paths; a new buffer has twice what is needed, or INT_MAX |
| `Printing.PrintBuffer.UpdateOffset` | source/lib/uapi/cJSON.c:525-535 | moves the offset to the end of the text just written |
| `Printing.PrintBuffer.PrintNumber` | source/lib/uapi/cJSON.c:545-608 | appends null if the number is not finite, else its 15 digits, or the 17 if compare_double does not take what those read back as for the number, or fails exactly as the limit demands |
| `Printing.PrintBuffer.CountEscapes` | source/lib/uapi/cJSON.c:920-948 | the counting pass equals the growth of the escaped form |
| `Printing.PrintBuffer.PrintString` | source/lib/uapi/cJSON.c:898-1023 | appends the quoted, escaped string inside the space reserved for it |
| `Printing.PrintBuffer.PrintArray` | source/lib/uapi/cJSON.c:1535-1594 | walking the child list, appends the rendering of the array that the nodes show; every write is inside reserved space |
| `Printing.PrintBuffer.PrintObject` | source/lib/uapi/cJSON.c:1710-1821 | walking the child list, appends the rendering of the object with indentation and separators |
| `Printing.PrintBuffer.PrintValue` | source/lib/uapi/cJSON.c:1363-1434 | for any node in the heap, shared nodes and references included: succeeds exactly when the tree it shows can be printed, its text with two spare bytes fits and no request is refused; then the buffer holds the old text followed by the rendering |
| `Printing.PrintPreallocated` | source/lib/uapi/cJSON.c:1288-1305 | true if and only if there is a node, its tree can be printed and the capacity is at least the rendered length plus 2; nothing beyond the capacity changes |
| `Printing.PrintBuffered` | source/lib/uapi/cJSON.c:1258-1286 | the rendered text from any initial size; copying reads past the old block exactly when that size is 0 and reallocation is unavailable |
| `Printing.Print` | source/lib/uapi/cJSON.c:1183-1256 | a block holding exactly the rendering and its NUL, on the realloc and on the copying path |
| `RenderFacts.NulFreeRender` | source/lib/uapi/cJSON.c:1363-1434 | a rendering never contains a NUL, so strlen finds its end |
| `Layout.PrintedLayout` | source/lib/uapi/cJSON.c:1535-1821 | told by scanning the text: unformatted text has no byte up to 32 and no slash outside literals; formatted text is the unformatted one with a new line behind each opening brace and each comma between members and before each closing brace, a tab for each open container on each of these lines, a tab behind each colon and a blank behind each comma between elements |
| `Layout.LaidThinned` | source/lib/uapi/cJSON.c:1535-1821 | laying out any text in this way adds nothing but blanks outside literals |
| `Layout.FormattedThinned` | source/lib/uapi/cJSON.c:1535-1821 | so the two forms of a tree differ by blanks outside literals only |
| `Layout.MinifyPrinted` | source/lib/uapi/cJSON.c:2829-2875 | minifying the formatted text of a tree gives its unformatted text, if no literal but one at the very end ends in an escaped backslash |
| `Heap.Memory.Delete` | source/lib/uapi/cJSON.c:253-274 | frees exactly the blocks the list owns, each live when freed and none twice; references and constant keys are left alone |
| `Heap.Memory.Allocate` | source/lib/uapi/cJSON.c:241-251 | a new block or a refusal at any point |
| `Parsing.Parse` | source/lib/uapi/cJSON.c:1075-1168 | succeeds exactly when the reference parser does and no allocation is refused; success adds exactly the nodes and strings of the result, array elements without keys, and deleting it restores the heap; failure leaves the heap as it was |
| `Parsing.ParseBuffer.ParseValue` | source/lib/uapi/cJSON.c:1308-1360 | follows the reference parser, restores the depth, strictly advances the offset without passing the NUL, and fills in the node with new blocks only; on failure frees all it allocated |
| `Parsing.ParseBuffer.ParseString` | source/lib/uapi/cJSON.c:769-895 | the decoded string on a new block, or nothing allocated |
| `Parsing.ParseBuffer.ParseNumber` | source/lib/uapi/cJSON.c:305-379 | the number that the copied run of at most 63 bytes denotes, its saturated valueint, and the offset behind what was used |
| `Parsing.ParseBuffer.ParseArray` | source/lib/uapi/cJSON.c:1437-1532 | the list of elements with mutual links and head->prev the tail, or the heap as before |
| `Parsing.ParseBuffer.ParseObject` | source/lib/uapi/cJSON.c:1597-1707 | the list of named members, or the heap as before |
| `Parsing.ParseBuffer.SkipWhitespace` | source/lib/uapi/cJSON.c:1034-1057 | drops every byte up to 32 without running past the terminator |
| `Parsing.ParseBuffer.SkipBom` | source/lib/uapi/cJSON.c:1060-1073 | skips a byte order mark that at least one more byte follows |
| `HeapTree.RepFrame` | source/lib/uapi/cJSON.c:253-274 | a represented tree survives any change outside its blocks and of its own sibling links |
| `HeapTree.RepOwns` | source/lib/uapi/cJSON.c:253-274 | the blocks of a represented tree are exactly those cJSON_Delete would free |
| `HeapRead.StandsShows` | source/lib/uapi/include/cJSON.h:103-123 | every tree with its own blocks can be read by following child and next alone |
| `HeapRead.ReadsUnique` | source/lib/uapi/include/cJSON.h:103-123 | one node shows one tree, whatever is shared: value, keys and nodes are determined by the heap |
| `HeapList.Discard` | source/lib/uapi/cJSON.c:1524-1531 | a list under construction, with a half-filled last node, can be deleted, and that restores the heap it was built on |
| `HeapList.Finish` | source/lib/uapi/cJSON.c:1510-1522 | closing the list and hanging it below the container completes the representation |
| `Minify.MinTwice` | source/lib/uapi/cJSON.c:2829-2875 | minifying twice equals minifying once, for every text |
| `MinifyParts.MinIsLeft` | source/lib/uapi/cJSON.c:2780-2875 | for every text: it falls apart into strings (up to a quote without a backslash before it), comments and single bytes; what is left is made of the strings and of the single bytes other than space, tab, return, newline and slash, in their order |
| `MinifyParts.Segments` | source/lib/uapi/cJSON.c:2829-2875 | every text has such parts |
| `MinifyParts.SegmentsUnique` | source/lib/uapi/cJSON.c:2829-2875 | and only one way to have them |
| `Minify.MinifyKeepsMeaning` | source/lib/uapi/cJSON.c:2829-2875 | an accepted text, NULs in its literals or not, means the same after minifying, if no byte inside a literal is dropped |
| `MinifyWeight.MinifyExactly` | source/lib/uapi/cJSON.c:2829-2875 | an accepted text whose literals decode without a NUL means the same after minifying if and only if no byte of a literal is dropped, a condition on the text alone: comments, lone slashes and blanks, wherever the copier has lost step with the literals, never cancel out |
| `MinifyWeight.NulHides` | source/lib/uapi/cJSON.c:2829-2875 | with a NUL only one direction holds: a blank behind it is dropped from the literal, and the text still reads the same |
| `MinifyExact.ThinnedExactly` | source/lib/uapi/cJSON.c:2807-2875 | for every text, that condition says exactly that what is left differs from the text by blanks outside literals only, up to a slash outside literals or a quote that is never closed, behind which no parser gets |
| `MinifyWeight.NothingCut` | source/lib/uapi/cJSON.c:2829-2875 | a text whose meaning survives has lost nothing but blanks: every dropped slash makes the text lighter, measured by the slashes and letters u it decodes to |
| `MinifyWeight.CutLighter` | source/lib/uapi/cJSON.c:2829-2875 | for any blanks, lone slashes and comments dropped from a text with proper escapes, also where a backslash before the gap then escapes another byte |
| `MinifyWeight.ValueWeighed` | source/lib/uapi/cJSON.c:1308-1360 | a value that parses weighs at most what its text does, and exactly that if its literals decode without a NUL |
| `MinifyExact.ValueForced` | source/lib/uapi/cJSON.c:1308-1360 | if two texts, one of them the other without some blanks, read as the same value, no literal has lost a byte |
| `Minify.MinifyKeepsClean` | source/lib/uapi/cJSON.c:2829-2875 | which is so if no literal but one at the very end of the text ends in an escaped backslash |
| `Minify.ThinnedSame` | source/lib/uapi/cJSON.c:1308-1707 | dropping any blanks outside literals, whoever does it, leaves the tree of an accepted text alone |
| `Minify.ThinnedNotClean` | source/lib/uapi/cJSON.c:2807-2827 | a text with such a literal from which nothing is dropped: the condition on the dropped bytes is strictly weaker |
| `Minify.MinifyChangesMeaning` | source/lib/uapi/cJSON.c:2807-2827 | without a condition it is false: a blank inside the literal after one that ends in an escaped backslash is lost |
| `Minify.StopsAtClose` | source/lib/uapi/cJSON.c:2807-2827 | the string copier stops at the end of a literal if and only if the literal does not end in an escaped backslash or is the last thing in the text |
| `MinifyInPlace.MinifyString` | source/lib/uapi/cJSON.c:2807-2827 | copies the string down the buffer without touching what is still to be read |
| `MinifyInPlace.SkipOnelineComment` | source/lib/uapi/cJSON.c:2780-2791 | stops behind the line comment or at the terminator |
| `MinifyInPlace.SkipMultilineComment` | source/lib/uapi/cJSON.c:2793-2805 | stops behind the block comment or at the terminator |
| `MinifyInPlace.MinifyBuffer` | source/lib/uapi/cJSON.c:2829-2875 | in place: the write position never passes the read position, nothing behind the terminator changes, and the minified text and its NUL are left |
| `ListEdit.GetArrayItem` | source/lib/uapi/cJSON.c:1847-1864 | the node at a position, or NULL beyond the end |
| `ListEdit.AddItemToArray` | source/lib/uapi/cJSON.c:1952-1983 | appends to the list, all links and head->prev in order; only sibling links of its items and the child pointer change |
| `ListEdit.InsertItemInArray` | source/lib/uapi/cJSON.c:2259-2286 | inserts before a position, or appends when there is none there |
| `ListEdit.DetachItemViaPointer` | source/lib/uapi/cJSON.c:2183-2217 | removes that position from the list and leaves the item in no list |
| `ListEdit.ReplaceItemViaPointer` | source/lib/uapi/cJSON.c:2288-2335 | puts the replacement at that position and deletes the old item with all it owns, and nothing else |
| `TreeEdit.Append` | source/lib/uapi/cJSON.c:1952-1989 | the container then represents the members followed by the new one, whether or not it carries a key |
| `TreeEdit.Insert` | source/lib/uapi/cJSON.c:2259-2286 | the container then represents the members with the new one at that position, whether or not it carries a key |
| `TreeEdit.DetachItemFromArray` | source/lib/uapi/cJSON.c:2219-2227 | the container represents the members without that one, which stands beside it unchanged |
| `TreeEdit.DeleteItemFromArray` | source/lib/uapi/cJSON.c:2229-2232 | as detaching, and exactly the blocks of that member are freed |
| `TreeEdit.ReplaceItemInArray` | source/lib/uapi/cJSON.c:2337-2345 | the container represents the members updated at that position, whether or not the new one carries a key; exactly the old blocks are freed |
| `TreeEdit.Edited` | source/lib/uapi/cJSON.c:2183-2335 | any relinking that leaves a proper list of standing children makes the container represent the new members |
| `ListEdit.BothWays` | source/lib/uapi/include/cJSON.h:103-123 | a child list is read the same along next from the head and along prev from the tail, which the prev of the head is |
| `Compare.EqualSymmetric` | source/lib/uapi/cJSON.c:2977-3100 | comparison is symmetric on all trees, in either case mode, for any symmetric number comparison |
| `Compare.EqualTransitive` | source/lib/uapi/cJSON.c:2977-3100 | it is transitive on three trees when the number comparison is transitive on the numbers in them |
| `Canonical.CompareMeans` | source/lib/uapi/cJSON.c:2977-3100 | for trees with distinct keys: cJSON_Compare is true if and only if their canonical forms, in which an object is a map from names in the chosen case mode, agree up to compare_double on the numbers in the same places |
| `Canonical.SameMeans` | source/lib/uapi/cJSON.c:2977-3100 | with exact numbers, if and only if the canonical forms are equal |
| `Canonical.EqualNear` | source/lib/uapi/cJSON.c:2977-3100 | trees that compare equal have such forms whatever names occur twice, the first of a name counting |
| `Canonical.RecordFind` | source/lib/uapi/cJSON.c:1876-1906 | the map of an object holds under each name the member that the lookup finds |
| `Compare.TransitiveExactly` | source/lib/uapi/cJSON.c:2977-3100 | for any set of numbers and any number comparison: transitive on all trees over these numbers if and only if the number comparison is transitive on them |
| `Compare.IntegersTransitive` | source/lib/uapi/cJSON.c:538-542 | so the code's comparison, tolerance included, is transitive on all trees whose numbers are integers below 2^52 in magnitude, or that hold none |
| `Compare.IntegersExact` | source/lib/uapi/cJSON.c:538-542 | on these integers the tolerance is exact equality |
| `Compare.IntegersTight` | source/lib/uapi/cJSON.c:538-542 | the bound is tight: 2^52 compares equal to 2^52 - 1 |
| `Compare.ToleranceNotTransitive` | source/lib/uapi/cJSON.c:538-542 | with the relative tolerance it is not: three neighbouring numbers around 1 |
| `Compare.InfinityEqualsAll` | source/lib/uapi/cJSON.c:538-542 | an infinity compares equal to every number and to the other infinity, but not to itself or a NaN |
| `Compare.InfinityTransitive` | source/lib/uapi/cJSON.c:538-542 | so a set of numbers that holds an infinity compares transitively if and only if there is nothing else but NaN in it |
| `Compare.NumbersSymmetric` | source/lib/uapi/cJSON.c:538-542 | the tolerance comparison is symmetric on all doubles, infinities and NaN included; C equality is symmetric, and transitive on every set of numbers |
| `Compare.RegularEqualsItself` | source/lib/uapi/cJSON.c:2977-3100 | a tree equals a copy of itself if nothing is missing or invalid, numbers equal themselves, and members with matching keys hold equal values |
| `Compare.OnlyRegularEqualsItself` | source/lib/uapi/cJSON.c:2977-3100 | and only then, when the number comparison is symmetric and transitive on the numbers of the tree |
| `Compare.EqualsItselfExactly` | source/lib/uapi/cJSON.c:2977-3100 | for any number comparison, the code's own included: a tree equals its copy if and only if each member agrees with the first one its key finds |
| `Compare.DistinctKeysRegular` | source/lib/uapi/cJSON.c:2977-3100 | pairwise distinct keys in the chosen case mode suffice, with the tolerance or without |
| `Compare.FindIsFirst` | source/lib/uapi/cJSON.c:1876-1906 | the member found is the first that matches, and when none is found no member that the search reaches matches |
| `Compare.FindMatching` | source/lib/uapi/cJSON.c:1876-1906 | names that match in the case mode find the same member |
| `CompareNodes.CaseInsensitiveStrcmp` | source/lib/uapi/cJSON.c:133-154 | zero exactly when the lowered strings are equal |
| `CompareNodes.GetObjectItem` | source/lib/uapi/cJSON.c:1876-1906 | the first child with a matching key, also among keyed elements of an array; the case-sensitive search ends at a child without a key |
| `CompareNodes.CompareItems` | source/lib/uapi/cJSON.c:2977-3100 | on any two nodes, whatever their trees share, decides exactly the comparison in which a valid node equals itself |
| `CompareNodes.ApartAlike` | source/lib/uapi/cJSON.c:2977-3100 | for trees without a common node that is the equality of the trees |
| `CompareNodes.AlikeEqual` | source/lib/uapi/cJSON.c:2977-3100 | and for regular trees too, however much they share |
| `CompareNodes.EqualAlike` | source/lib/uapi/cJSON.c:2977-3100 | sharing never makes equal trees compare unequal |
| `CompareNodes.SharedNotANumber` | source/lib/uapi/cJSON.c:2977-3100 | it can make unequal ones compare equal: two arrays holding the same node, a number that does not equal itself |
| `Duplicate.Copy` | source/lib/uapi/cJSON.c:2697-2778 | a copy with equal value on fresh blocks only, with a proper child list, sharing no node, of any tree that can be read, references and shared nodes included; a refused allocation leaves the heap as it was |
| `Duplicate.StandsCopyable` | source/lib/uapi/cJSON.c:2697-2778 | every tree with its own blocks can be copied |
| `Duplicate.CopyCompares` | source/lib/uapi/cJSON.c:2697-3100 | cJSON_Compare of an item and its copy is true if and only if each member agrees with the first one its key finds, for any number comparison |
| `Duplicate.CopyEqualsOriginal` | source/lib/uapi/cJSON.c:2697-3100 | so it is, both ways round, with finite numbers, present strings and distinct keys |
| `Duplicate.Complete` | source/lib/uapi/cJSON.c:2760-2765 | closing the copied list completes a tree made of new blocks only |
| `Duplicate.GiveUp` | source/lib/uapi/cJSON.c:2769-2777 | the half-built copy owns exactly what was added, so deleting it restores the heap |
| `Bitmap.FindNext` | source/tools/detect/mem/pagescan/fragement.c:18-60 | the word-wise search returns the first position with the wanted bit value from the start on, or the size, exactly as a bit-by-bit search |
| `Fragment.OrderIsLargest` | source/tools/detect/mem/pagescan/fragement.c:67-74 | the order picked by the two bit scans is the largest that is aligned, fits the rest of the run and is at most 10 |
| `Fragment.AlignedIsDivisible` | source/tools/detect/mem/pagescan/fragement.c:67-74 | the alignment the bit scan finds is divisibility of the first page by the block size |
| `Fragment.GreedyTiles` | source/tools/detect/mem/pagescan/fragement.c:62-81 | the greedy blocks tile the run exactly, each starting at a multiple of its size and of order at most 10 |
| `Fragment.GreedyIsOptimal` | source/tools/detect/mem/pagescan/fragement.c:62-81 | no tiling of the run by such blocks is shorter, and none other is as short |
| `Fragment.Nested` | source/tools/detect/mem/pagescan/fragement.c:62-81 | a block inside a larger aligned block never sticks out of it |
| `BuddyStats.BuddyStat.MarkUsed` | source/tools/detect/mem/pagescan/fragement.c:62-81 | the counters grow by the number of greedy blocks of each order, and their weighted sum by the length of the run |
| `BuddyStats.BuddyStat.Generate` | source/tools/detect/mem/pagescan/fragement.c:83-103 | every maximal run is counted once: used grows by the number of set bits, and the sum of 2^k * nr[k] stays equal to used |
| `BuddyStats.PlanIsOptimal` | source/tools/detect/mem/pagescan/fragement.c:83-103 | no account of the whole bitmap by aligned blocks of used pages and free pages uses fewer blocks than the counted ones |
| `BuddyStats.PlanCovers` | source/tools/detect/mem/pagescan/fragement.c:83-103 | the counted blocks are such an account |
| `Surftrace.CompileCorrect` | source/tools/detect/generic/surftrace/surftrace.py:1284-1432 | for every set of struct layouts, memory and register: a member chain that C accepts (arrows, dots into embedded and inline structs, indices, casts) compiles if and only if its last type can be shown, and the kernel reading of the emitted text makes the same loads in the same order, yields the same value and shows it in the style of that type |
| `Surftrace.FetchCorrect` | source/tools/detect/generic/surftrace/surftrace.py:1377-1432 | whether or not its type can be shown, the text before the suffix means what the chain means in C |
| `Surftrace.WidthIsSize` | source/tools/detect/generic/surftrace/surftrace.py:1284-1316 | under any rules, a number is shown with as many bits as its type has: 8, 16, 32 or 64 |
| `Surftrace.CompileExact` | source/tools/detect/generic/surftrace/surftrace.py:1284-1446 | for any chain whatever: it compiles if and only if it can be read, C accepts it under five relaxations (an arrow behind an inline struct, several stars, a cast on an inline struct, such a cast on the last link, a dot on the register itself) and its last type can be shown; the emitted text then makes the loads, yields the value and has the style that these rules give |
| `Surftrace.TakenExactly` | source/tools/detect/generic/surftrace/surftrace.py:1395-1432 | C accepts a chain if and only if the relaxed rules do and no link uses a relaxation |
| `Surftrace.ArrowInsideTaken` | source/tools/detect/generic/surftrace/surftrace.py:1413-1415 | an arrow behind an inline struct, which C rejects, compiles to what a dot there means |
| `Surftrace.ManyStarsTaken` | source/tools/detect/generic/surftrace/surftrace.py:1402-1409 | an arrow on a pointer to a pointer compiles as if one star were there, one load short |
| `Surftrace.CastInlineIgnored` | source/tools/detect/generic/surftrace/surftrace.py:1416-1429 | a cast on an inline struct has no effect on the member behind it |
| `Surftrace.CastAtEndTaken` | source/tools/detect/generic/surftrace/surftrace.py:1425-1442 | a chain that ends in an inline struct is taken when its last link carries a cast, and shows what lies before that struct, its load left out |
| `Surftrace.DotOnRegisterTaken` | source/tools/detect/generic/surftrace/surftrace.py:1395-1432 | so is a dot on an argument that is itself a struct |
| `Surftrace.CastToCharRejected` | source/tools/detect/generic/surftrace/surftrace.py:1284-1316 | a chain whose last link carries a cast to char is rejected: the code looks up a member name that a cast does not have |
| `Surftrace.BehindBrackets` | source/tools/detect/generic/surftrace/surftrace.py:1246-1270 | whatever stands behind the first brackets of a link is ignored |
| `ChainText.TextCorrect` | source/tools/detect/generic/surftrace/surftrace.py:1224-1446 | the same as the correctness of compiling, from the text of the chain, casts included |
| `ChainText.TextExact` | source/tools/detect/generic/surftrace/surftrace.py:1224-1446 | for every text: it compiles if and only if it can be cut and read, the relaxed rules accept the chain and its last type can be shown, and then the emitted text yields and shows what they give |
| `ChainText.TrailingDropped` | source/tools/detect/generic/surftrace/surftrace.py:1377-1432 | an operator at the end of a written chain changes nothing: the chain compiles, or not, as without it |
| `ChainText.LinkRead` | source/tools/detect/generic/surftrace/surftrace.py:1367-1375 | a written link gives back its cast and its member |
| `Surftrace.Compiler.CellCheck` | source/tools/detect/generic/surftrace/surftrace.py:1377-1446 | the loop and the suffix behind it compute the compilation function, or fail where it does |
| `Surftrace.Compiler.Round` | source/tools/detect/generic/surftrace/surftrace.py:1391-1430 | one round of the loop: type and mode checks, pending nested names, lookup, offset, extension of the text |
| `Surftrace.Compiler.ProcFxpr` | source/tools/detect/generic/surftrace/surftrace.py:1347-1365 | extends the text by the member offset in the given mode |
| `Surftrace.Compiler.AddSuffix` | source/tools/detect/generic/surftrace/surftrace.py:1284-1316 | the display suffix of the last type: text, string or number of bits, or the failure |
| `ShownAs.ShownByType` | source/tools/detect/generic/surftrace/surftrace.py:1284-1316 | told from the C type alone: a chain that C accepts compiles if and only if its object can be shown; a pointer whose innermost type is a char type is then shown as the string at its value, with that load last; an array of chars in place; anything else as a number of 8, 16, 32 or 64 bits by its size; and the display is a string in the first two cases only |
| `ShownAs.CharacterTypes` | source/tools/detect/generic/surftrace/surftrace.py:1284-1316 | char, alone or behind a qualifying word, is such a type |
| `ShownAs.ChargersAreChars` | source/tools/detect/generic/surftrace/surftrace.py:1284-1316 | but so is any name with a word that begins with char: an array of pointers to struct charger is shown as text |
| `InBounds.ChainInBounds` | source/tools/detect/generic/surftrace/surftrace.py:1377-1432 | in a program whose members fit their structs, a member named by a chain that C accepts lies within the bounds of a struct that a part of the chain leads to |
| `InBounds.ElementsTile` | source/tools/detect/generic/surftrace/surftrace.py:1141-1163 | the elements of an array follow each other without gaps, the first one where the array is |
| `InBounds.PointersWide` | source/tools/detect/generic/surftrace/surftrace.py:1284-1316 | a pointer member is shown as text or as 64 bits |
| `Surftrace.ExtendShown` | source/tools/detect/generic/surftrace/surftrace.py:1272-1282 | editing the text is adding to the outermost offset, or wrapping in one more dereference, of the fetch argument it shows |
| `Surftrace.Keeps` | source/tools/detect/generic/surftrace/surftrace.py:1391-1430 | round by round the text shows a fetch argument whose last load is that of the object C has reached |
| `StructTable.MemInStruct` | source/tools/detect/generic/surftrace/surftrace.py:1067-1085 | the loop returns the first row for the member, a nested marker for a prefix, or nothing |
| `StructTable.MemberOffset` | source/tools/detect/generic/surftrace/surftrace.py:1141-1163 | the loop returns the offset of the named row and element |
| `StructTable.FocusPath` | source/tools/detect/generic/surftrace/surftrace.py:1067-1085 | in the flat table a search for a member behind a path of inline structs finds what it finds among the rows of that member alone, and nothing if there is none |
| `StructTable.LeafFound` | source/tools/detect/generic/surftrace/surftrace.py:1141-1163 | the row of a plain member answers for it, at its own offset plus index times element size, and only for an element if it is an array |
| `StructTable.InlineFound` | source/tools/detect/generic/surftrace/surftrace.py:1067-1085 | the rows of an inline struct announce it, and do not answer for an element of it |
| `ChainText.SplitPr` | source/tools/detect/generic/surftrace/surftrace.py:1224-1244 | the loop cuts the text into members and operators, or fails on a dash without an arrow |
| `ChainText.CutChain` | source/tools/detect/generic/surftrace/surftrace.py:1224-1244 | cutting a written chain gives back its links, also with an operator at its end |
| `FetchArg.ReadShow` | source/tools/detect/generic/surftrace/surftrace.py:1272-1282 | reading a printed fetch argument gives it back |
| `FetchArg.ReadShown` | source/tools/detect/generic/surftrace/surftrace.py:1272-1316 | so does reading one with its display suffix, whatever that is |
| `FetchArg.IntNumeral` | source/tools/detect/generic/surftrace/surftrace.py:1141-1163 | a printed index is read back by the reading of Python, which also takes signs, blanks around it and underscores between digits |
| `IoTracer.RunKeeps` | source/tools/combine/iosdiag/latency/bpf_iosdiag_common.h:54-198 | over every run of handlers with a positive monotone clock: each reported request has its start at or before, and its completion at or after, every recorded point |
| `IoTracer.OneReportEach` | source/tools/combine/iosdiag/latency/bpf_iosdiag_common.h:91-198 | over every run, reports of a sector, plus one if a request of it is live, never exceed the requests started on it |
| `IoLog.RunRefines` | source/tools/combine/iosdiag/latency/bpf_iosdiag_common.h:54-198 | over every run with a positive monotone clock the tracer is a digest of the plain log of events per sector: start, first event at the driver, last further issue or else first probe at the device, first response, length, processors; and what it reports are the digests of the finished logs with both device points, in their order |
| `IoLog.PassedExactly` | source/tools/combine/iosdiag/latency/bpf_iosdiag_common.h:168-198 | a finished request is reported if and only if its log has an event for both device points |
| `IoTracer.RunSourced` | source/tools/combine/iosdiag/latency/bpf_iosdiag_common.h:54-198 | over every run, each recorded time of a live or reported request is that of an event of its sector that records this point |
| `IoTracer.RunDriversFirst` | source/tools/combine/iosdiag/latency/bpf_iosdiag_common.h:128-156 | where no driver probe reports the device point, every request passed the driver before the device |
| `IoTracer.RunOrdered` | source/tools/combine/iosdiag/latency/bpf_iosdiag_common.h:54-156 | where every device point comes after the driver point and every response after the device point of its request, each live or reported request has them in that order |
| `IoTracer.StepKeeps` | source/tools/combine/iosdiag/latency/bpf_iosdiag_common.h:54-198 | each handler keeps that invariant |
| `IoTracer.Tracer.BlockGetRq` | source/tools/combine/iosdiag/latency/bpf_iosdiag_common.h:91-115 | a fresh record with its start point, dropped when the table is full |
| `IoTracer.Tracer.BlockRqIssue` | source/tools/combine/iosdiag/latency/bpf_iosdiag_common.h:128-156 | the first issue is recorded as the driver point, later ones as the device point |
| `IoTracer.Tracer.DriverRoute` | source/tools/combine/iosdiag/latency/bpf_iosdiag_common.h:54-80 | a driver point is recorded once |
| `IoTracer.Tracer.BlockRqComplete` | source/tools/combine/iosdiag/latency/bpf_iosdiag_common.h:168-198 | records the completion, reports a request seen at both device points, and removes it |
| `DelayFormat.DelayConvert` | source/tools/combine/iosdiag/latency/format_json.c:151-190 | the skipping loop reports a component exactly for each point later than all before it |
| `DelayFormat.ComponentsTelescope` | source/tools/combine/iosdiag/latency/format_json.c:151-190 | the components add up to the span from start to the latest point, whatever points are missing or out of order |
| `DelayFormat.ComponentsMean` | source/tools/combine/iosdiag/latency/format_json.c:151-190 | a component is reported if and only if its point is later than all before it, under its own number, with the microseconds since the latest of those |
| `DelayFormat.ComponentsInOrder` | source/tools/combine/iosdiag/latency/format_json.c:151-190 | in the order of the points |
| `DelayFormat.ComponentsExact` | source/tools/combine/iosdiag/latency/format_json.c:88-91 | they add up to the total delay if and only if no point is later, in microseconds, than the completion |
| `DelayFormat.ReportsExact` | source/tools/combine/iosdiag/latency/format_json.c:151-190 | so they do for every request the tracer reports |
| `DelayFormat.RunsExact` | source/tools/combine/iosdiag/latency/format_json.c:151-190 | over every run of the tracer with a monotone clock, the components of every emitted record add up to its total |
| `DelayFormat.MaxDelay` | source/tools/combine/iosdiag/latency/format_json.c:93-121 | the largest gap and the first point that has it |
| `DelayFormat.GapsWithinTotal` | source/tools/combine/iosdiag/latency/format_json.c:93-105 | no gap exceeds the total if and only if the points are in order; otherwise a gap wraps around |
| `DelayFormat.RunsInOrder` | source/tools/combine/iosdiag/latency/format_json.c:93-121 | over every run of the tracer: no gap of an emitted record wraps around if and only if its driver point was recorded (or it started in the first microsecond) and its driver, device and response points are in order |
| `DelayFormat.OrderlyRuns` | source/tools/combine/iosdiag/latency/format_json.c:93-121 | so in runs whose probes come in turn no gap wraps around |
| `DelayFormat.MissingPointWraps` | source/tools/combine/iosdiag/latency/format_json.c:93-121 | a run of four events that does: a request whose driver point was never seen is reported with a total of 3 and a largest gap of 2^64 - 1 |
| `PageWindows.ScanStep` | source/tools/detect/mem/pagescan/pagescan.c:656-666 | the next window is page aligned, holds 1 to 512 pages, does not cross a 2 MiB boundary and ends at one or at the end of the region; none is left exactly at the end |
| `PageWindows.WindowsTile` | source/tools/detect/mem/pagescan/pagescan.c:656-712 | the windows of a page-aligned region hold each of its pages once, in order |
| `PageWindows.WindowsSmall` | source/tools/detect/mem/pagescan/pagescan.c:656-666 | every window has 1 to 512 pages of one 2 MiB block |
| `ZeroSubpages.RegionScan.ScanMemoryRegion` | source/tools/detect/mem/pagescan/pagescan.c:668-712 | marks exactly the frames of the present pages of the region, and accounts its windows one by one |
| `ZeroSubpages.Scanner.ScanBase` | source/tools/detect/mem/pagescan/zero_subpage.c:139-192 | call by call the static variables describe the part of the window seen, and the last call adds exactly the per-window account |
| `ZeroSubpages.Scanner.EndRound` | source/tools/detect/mem/pagescan/zero_subpage.c:174-191 | the account of one window: deferred split, histogram, last huge page |
| `ZeroSubpages.HistogramConserved` | source/tools/detect/mem/pagescan/zero_subpage.c:183-187 | over any windows the base histogram adds up to its total |
| `ZeroSubpages.HistogramMeans` | source/tools/detect/mem/pagescan/zero_subpage.c:183-187 | its entry k counts the blocks of base pages with exactly k pages missing |
| `ZeroCounts.ThpMeans` | source/tools/detect/mem/pagescan/zero_subpage.c:159-172 | the huge page of a window is the one of 512 aligned frames that holds its first present page, if the flags of that page say so |
| `ZeroCounts.PresentMeans` | source/tools/detect/mem/pagescan/zero_subpage.c:155-159 | the count of present pages is their number |
| `ZeroCounts.DeferredMeans` | source/tools/detect/mem/pagescan/zero_subpage.c:174-191 | over any windows the deferred splits are those on a huge page with less than 512 pages or some not present, consecutive windows on the same huge page counted once |
| `ZeroCounts.ResidentMeans` | source/tools/detect/mem/pagescan/zero_subpage.c:156-159 | the resident pages are the present ones |
| `ZeroCounts.FramesMean` | source/tools/detect/mem/pagescan/pagescan.c:668-712 | the marked frames are those that a present page maps to |
| `ZeroCounts.ThpHistogramMeans` | source/tools/detect/mem/pagescan/zero_subpage.c:87-127 | entry k of the histogram of huge pages counts the anonymous huge pages, of the given processes if any, with exactly k zero frames before the first unreadable one, and the read-only zero pages are counted apart |
| `ZeroCounts.ZeroMeans` | source/tools/detect/mem/pagescan/zero_subpage.c:106-121 | the count of zero frames of a block is their number |
| `ZeroSubpages.ThpConserved` | source/tools/detect/mem/pagescan/zero_subpage.c:87-127 | over any huge pages, with blocks skipped by the bitmap or by their flags, the read-only zero page and unreadable frames, the histogram of huge pages adds up to its total |
| `ZeroSubpages.ThpScanner.ScanThp` | source/tools/detect/mem/pagescan/zero_subpage.c:87-127 | the loop over the blocks adds exactly their accounts |
| `ZeroSubpages.ThpScanner.CountZero` | source/tools/detect/mem/pagescan/zero_subpage.c:109-121 | the zero pages of a block before its first unreadable frame, at most 512 |
| `ZeroSubpages.Dump` | source/tools/detect/mem/pagescan/zero_subpage.c:47-73 | ten lines with the bounds 0, 1, 2, 4 and so on up to 512 (or 513), each with the blocks and subpages of its own part; they tile the histogram, so each zero subpage is counted in exactly one, and the printed blocks add up to the histogram |
| `ZeroSubpages.HugeStatDump` | source/tools/detect/mem/pagescan/zero_subpage.c:29-73 | for either histogram kept in step with its counter, the printed blocks add up to that counter; nothing is printed when it is 0 |
| `Movability.ScanBlock` | source/tools/detect/mem/pagescan/movability.c:45-107 | the loop with its skips computes the counts of a block |
| `Movability.CountsWithin` | source/tools/detect/mem/pagescan/movability.c:45-107 | with compound heads only at block start, free, slab, movable and pinned pages never exceed 512 |
| `Movability.CountsExactly` | source/tools/detect/mem/pagescan/movability.c:45-107 | in a readable block, counting from any page, more than 512 pages are counted if and only if a compound head is reached before the count is given up and some page before it was counted |
| `Movability.StrayHeadCounted` | source/tools/detect/mem/pagescan/movability.c:45-107 | 511 free pages and a compound head at page 511 are counted as 1023 pages |
| `Movability.CountsAreKinds` | source/tools/detect/mem/pagescan/movability.c:45-107 | in a readable block of single pages each count is the number of pages of that kind |
| `Movability.HugeCounts` | source/tools/detect/mem/pagescan/movability.c:74-106 | a block that starts with a THP is counted as 512 pinned or 512 movable pages |
| `Movability.FreeMeansAllFree` | source/tools/detect/mem/pagescan/movability.c:139-147 | a block counts as free exactly when all its pages are free |
| `Movability.KindsMean` | source/tools/detect/mem/pagescan/movability.c:118-148 | a block of single pages is unmovable exactly with a slab or pinned page, and compactable exactly when all its pages are free or movable with some of each |
| `Movability.AddCounts` | source/tools/detect/mem/pagescan/movability.c:112-148 | the nested counter updates add one block to every counter it belongs to |
| `Movability.KindsExclusive` | source/tools/detect/mem/pagescan/movability.c:118-148 | no block, wherever its heads lie, is both unmovable and free or compactable |
| `Movability.CountersConsistent` | source/tools/detect/mem/pagescan/movability.c:109-148 | over every run of blocks, however they are assigned to nodes, and for every node: free + compact <= candidate, unmovable <= slab + pinned, unmovable + free + compact <= blocks, and the sub-counters stay below their parents |
| `MovabilityCounts.CountersMean` | source/tools/detect/mem/pagescan/movability.c:109-148 | for blocks of single pages, however assigned: each of the eleven block counters of a node is the number of its blocks that have the pages it speaks of, by their flags |
| `MovabilityCounts.PagesMean` | source/tools/detect/mem/pagescan/movability.c:109-116 | and each page counter the number of pages of that sort in its blocks |
| `MovabilityCounts.CountsMean` | source/tools/detect/mem/pagescan/movability.c:45-107 | the counts of a block are the numbers of its pages of each sort |
| `Movability.PagesConserved` | source/tools/detect/mem/pagescan/movability.c:109-116 | with aligned heads the page counters of a node never exceed the pages of the blocks counted for it |
| `Movability.ChargedExactly` | source/tools/detect/mem/pagescan/movability.c:109-116 | a node is charged what its own blocks hold, for every content of the blocks, if and only if no block lies on another side of a boundary of the node than the frame behind it |
| `Movability.Overcharged` | source/tools/detect/mem/pagescan/movability.c:109-116 | two blocks of slab pages on two nodes: the second owns 512 pages and is charged 1024 |
| `Movability.Scan.ScanMovability` | source/tools/detect/mem/pagescan/movability.c:19-149 | the counters of every node are the sums over the blocks charged to it, each by the frame behind it |

## Left out

- Floating-point text: `sprintf` and `strtod` are parameters, `sscanf` reads what `strtod` reads, and `compare_double` treats infinities and NaN as C does but finite numbers over the reals, without rounding. The locale's decimal point is a dot.
- `valueint` is set by the parser for numbers and for true, and copied with a node, but trees do not carry it. cJSON's global error pointer beyond the reported end position, hook installation, and the create, add-to-object and type-test wrappers.
- Parsing a buffer of given length without a final NUL; the bounds claims are for the NUL-terminated entry.
- Sizes are unbounded except for the INT_MAX limit of the printer and the 64-bit words of the bit search and the delay arithmetic: overflow of counters, addresses and `size_t` is not modelled.
- Duplicate.Copy: for trees without constant keys, which a copy would share with its original; the represented trees have none.
- The list edits of objects by name, and renaming on replacement: they combine the lookup with the edits proved here.
- `_find_next_bit` with a second bitmap: both callers pass NULL.
- C types in surftrace are a datatype that is spelled in one way (`TypeText`), and how a type is read and how large the database says it is are parameters; digits other than ASCII in an index, members that are arrays of inline structs, flexible arrays, bit-fields, and the skb layer casts are not modelled.
- surftrace's databases, regular expressions, filters and ftrace files.
- Overlap of two tracer handlers inside one another; each handler is one step. Process names, disk names and operation flags of a record.
- The text of the reports, percentages and bars.
- Incomplete pagemap reads, /proc and kcore parsing, and the kernel 3.10 variants.
