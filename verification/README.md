# Verified models of the game server and its libraries

Dafny models of the parts of this repository whose correctness is hardest to see by reading:
the vendored XML engine above all, and eight small state machines and codecs around it. Each
model follows the code branch by branch; loops over buffers, linked nodes and object fields
are methods with loops over arrays, classes and fields, proved against functions about which
the theorems are stated.

**XML engine** (`game_server/tinyxml2.cpp`, `.h`). The parser is modelled twice: as functions
from positions of the original text to trees (`XmlParserSpec`), and as the recursive methods of
`XMLDocument` that work on one mutable character buffer, leave every string as a pair of offsets
and decode it in place when it is first read (`XmlParser`, `XmlBuffer`). The second is proved to
compute the first although terminators and decoded bytes are written behind the cursor all the
while. The printer is modelled as the recursive print of a tree (`XmlPrinterSpec`), as a machine
with the flags and depths of `XMLPrinter`, and as a class over a growable array.

Three results say what all this should be without reference to the parser. A text is read as a
document if and only if a grammar spells it, with all the freedom of whitespace and quotes that the
parser allows, and then as what the spelling means (`XmlGrammar`, `XmlSpelled`); a text with a fault
is reported with the code and the line of that fault, however deep it stands (`XmlFaults`), and what
is read remembers the line it is in (`XmlLines`); and values are decoded piece by piece: characters,
line ends, entities, numeric references (`XmlPieces`). A
document comes back from compact printing and parsing exactly if it is `Printable`; `XmlPrintRead`
says what comes of every other well-formed document, `XmlPrintSpelt` what the options change about
it, and `XmlPretty` what line breaks and indentation do. The tree
itself (`DomForest` to `DomXml`) is a heap of nodes with five pointers and a list of attributes,
relinked in place; each operation is proved to refine an operation on lists of children, and the
counters of all four pools to be exact after every operation, which decides when the debug
comparison in `Clear` holds. The parser runs on this heap too, driven by the text, through every
failure (`DomParse`, `DomReader`), and so does the printer, walking the links (`DomText`): a tree
built and moved about in any way, printed and parsed into another, is the same document there
exactly if it is `Printable`.

**Around it.** The timer list against absolute deadlines, with timers that add timers while they
are called (`TimerService`, `TimerCallbacks`), the worker pool of the database service under every
interleaving (`WorkerPool`), the length-prefixed framing fed in chunks (`Framing`,
`FramingChunks`), the single-writer send queue (`WriteQueue`), Base64 (`Base64`), the service
message format (`KnetMessage`), the connection pool (`ConnectionPool`) and the free-list allocator
(`MemPool`). `Bytes` holds what framing and messages share: integers laid out in bytes.

Text is a sequence of characters, one per byte. Integers have no bound unless the width
matters: numeric references, timer ticks, frame lengths, message ids and the length Base64 encodes
wrap or truncate as the code does, and the index Base64 decodes with ends where its range does. In
the class models a ghost parameter or field only tells the proof which list position, client or
tree is meant.

Where the code does not do what one would expect, the model does what the code does, a lemma
says exactly when the two agree, and another shows the difference where it is not obvious:

- An `&` that starts no known entity is passed without being copied, so a byte left by an
  earlier, shorter result shows through (`DecodedIsIdeal`, `StaleByteShows`); where every `&`
  starts a reference nothing is lost (`ReferencesDecode`).
- Pretty printing indents an element even where it follows a text, and the spaces become part of
  that text when it is read (`PrettyExact`, `MixedNotKept`).
- A frame with data takes whatever is left of the buffer (`DecodeExact`, `TogetherExact`), so a
  stream comes out right only if every such frame ends a read (`StreamExact`).
- A heartbeat with nothing pending calls nothing although a timer of zero ticks is due, and an
  overflow of the pending time delays every timer by 2^32 ticks (`BeatExact`, `OverflowGood`).
- `executeRemainTask` called while a worker is committed to a pop leaves that worker waiting
  (`SupplyExact`, `DrainStrands`).
- `InsertAfterChild` corrupts the list when a node is put after itself, and dereferences null
  when the last child is put where it is (`AfterExact`, `NoGap`); a node put below itself makes
  a cycle (`MoveExact`).
- Base64 decodes with a signed 32-bit index, which overflows on what 1.5 * 2^30 bytes and more are
  encoded to (`RoundTripExact`); from 2^32 bytes on the string interface does not even encode them
  all (`CastExact`).
- An element that was never put anywhere upsets the debug comparison in `Clear` as soon as it owns
  a child or an attribute (`Clear`, `Balance`, `OrphanWithAttribute`).

## Model

| member | source | states |
|---|---|---|
| XmlDecode.DecodedIsIdeal | game_server/tinyxml2.cpp:266-364 | In-place decoding of any bytes gives the decoding one would write out of place if and only if every byte left stale by a failed entity happens to be the `&` that belongs there; the lengths always agree |
| XmlDecode.StaleByteShows | game_server/tinyxml2.cpp:340-344 | The unmatched `&` after an entity was shortened comes out as another byte: a concrete string whose value is not the expected one |
| XmlDecode.ReferencesDecode | game_server/tinyxml2.cpp:306-352 | Where every ampersand of the text starts a numeric reference or one of the five entities, or entities are off, in-place decoding gives the out-of-place one |
| XmlPieces.PiecesDecoded | game_server/tinyxml2.cpp:278-352 | Text put together from characters, line ends of all four forms, predefined entities and numeric references is decoded to what those pieces mean, under all flags; the pieces and their meaning are written down without the decoder |
| XmlPieces.LinesNormal | game_server/tinyxml2.cpp:280-304 | Lines joined by CR LF, LF CR, CR or LF have as normal form the same lines joined by LF |
| XmlPieces.LinesRead | game_server/tinyxml2.cpp:266-364 | The same for the values of texts and attributes, with whitespace collapsed to single spaces if that is asked for |
| XmlPieces.AllPieces | game_server/tinyxml2.cpp:280-304 | Every text without references consists of such pieces |
| XmlPieces.UnfinishedKept | game_server/tinyxml2.cpp:306-329 | Numeric references without a semicolon are left as they are |
| XmlPieces.DigitTable | game_server/tinyxml2.cpp:470-530 | The digits of both bases and their values |
| XmlDecode.CollapseJoinsWords | game_server/tinyxml2.cpp:237-263 | Whitespace collapsing gives the words of the text joined by single spaces |
| XmlBuffer.GetStr | game_server/tinyxml2.cpp:266-364 | On every input the in-place result is the decoded value as a C string, bytes are written only from the start to the terminator of the pair, and reading the pair again changes nothing |
| XmlBuffer.DecodeInPlace | game_server/tinyxml2.cpp:278-352 | The decoding loop with its two cursors writes the pure decoding and never overtakes what it still has to read |
| XmlBuffer.CollapseWords | game_server/tinyxml2.cpp:248-261 | The inner loop of whitespace collapsing, in place |
| XmlBuffer.CharacterRef | game_server/tinyxml2.cpp:451-541 | A numeric reference is read exactly as the digit loops do, right to left, with 32-bit wrap-around; the cursor after a failure included |
| XmlBuffer.ConvertUTF32ToUTF8 | game_server/tinyxml2.cpp:402-448 | The switch without breaks writes the UTF-8 bytes of the code point into the output buffer |
| XmlBuffer.StringEqual | game_server/tinyxml2.h:573-581 | Byte comparison of two C strings decides equality of the strings they hold |
| XmlNumbers.ReferenceValue | game_server/tinyxml2.cpp:451-541 | The right-to-left digit loops give the left-to-right value of the numeral, modulo 2^32 for numerals of any length and exactly below it |
| XmlNumbers.ScanBackValue | game_server/tinyxml2.cpp:470-530 | One digit loop: with a multiplier that has wrapped, the sum is congruent to the numeral scaled by its place |
| XmlNumbers.EncodeDecode | game_server/tinyxml2.cpp:402-448 | A text is the concatenated UTF-8 of code points below 0x200000 if and only if it decodes, shortest form only, to exactly those code points |
| XmlNumbers.OneWritten | game_server/tinyxml2.cpp:402-448 | One code point is written at a position if and only if shortest-form decoding there gives it and its length |
| XmlEscape.EscapeHasNoDelimiter | game_server/tinyxml2.cpp:2355-2402 | Escaped text contains no `<`, and in the full set no quote, so the terminator is found exactly where it was printed |
| XmlEscape.ValueOfEscaped | game_server/tinyxml2.cpp:2355-2402 | Decoding an escaped string gives back the string with line ends normalised, for every NUL-free string and both sets of entities |
| XmlEscape.ValueOfMarkup | game_server/tinyxml2.cpp:1161-1171 | The text of comments, declarations and unknown markup comes back with line ends normalised |
| XmlEscape.NormalIsFixpoint | game_server/tinyxml2.cpp:288-304 | A string is its own normal form if and only if it has no carriage return |
| XmlPieces.WrittenAs | game_server/tinyxml2.cpp:2355-2402 | A character is written as the entity predefined for it, quotes only in attribute values, and otherwise as it is |
| XmlPieces.CharacterClasses | game_server/tinyxml2.h:551-576 | Whitespace and name characters, by their tables |
| XmlLines.LinesRecorded | game_server/tinyxml2.cpp:654-713 | In every parsed document each node and each attribute carries the number of the line it is in: that of its `<`, of a text's first character that is not whitespace, of an attribute's name |
| XmlPieces.LineOfLines | game_server/tinyxml2.h:533-544 | The line counter at the end of a text is the number of its lines |
| XmlSpelled.ReadExactly | game_server/tinyxml2.cpp:958-1056 | For every text and all options: the parser reads it as a document if and only if a spelling of the grammar is that text, and the document is what the spelling means |
| XmlSpelled.ReadSpelled | game_server/tinyxml2.cpp:958-1056 | Whatever is read can be spelled: every element is closed by an end tag of its name, names and attributes are well formed, declarations come first |
| XmlSpeltRead.SpeltRead | game_server/tinyxml2.cpp:2284-2298 | Whatever the grammar spells is read as what it means, including `</a/>`, attributes of end tags, and an end tag that closes nothing and ends the document |
| XmlSpeltRead.ItemsRead | game_server/tinyxml2.cpp:958-1056 | Spelled siblings, nested to any depth, are read as what they mean and parsing goes on right behind them |
| XmlSpeltRead.TagRead | game_server/tinyxml2.cpp:1852-1872 | A tag with any whitespace behind its `<` and before its end, with its slash, name and attributes |
| XmlSpeltRead.AttRead | game_server/tinyxml2.cpp:1309-1334 | An attribute in either kind of quotes, with any whitespace in front and around the equals sign |
| XmlFaults.FaultyDocument | game_server/tinyxml2.cpp:958-1056 | A fault anywhere, within any elements and behind any siblings, under all options: the text is refused with the error code of that fault and its line |
| XmlFaults.FaultFails | game_server/tinyxml2.cpp:985-1050 | Each kind of fault with its code: markup never closed, text up to the end, a tag without a name, broken or doubled attributes, a late declaration, a wrong or missing end tag |
| XmlFaults.EmptyDocumentFails | game_server/tinyxml2.cpp:2284-2294 | Whitespace alone, or a byte order mark alone, is an empty document |
| XmlPrintSpelt.EndTagExact | game_server/tinyxml2.cpp:1031-1050 | A written element with an end tag of any name: read if and only if the end tag names it, and otherwise a mismatch in the first line, under all options |
| XmlPrintSpelt.EndTagMustMatch | game_server/tinyxml2.cpp:1031-1050 | The same for what the printer writes, with the default options |
| XmlPrintSpelt.WrongEndInside | game_server/tinyxml2.cpp:1031-1050 | Within any written parents and behind any written siblings a wrong end tag fails the whole document, in the line of its start tag |
| XmlPrintSpelt.WrittenRead | game_server/tinyxml2.cpp:2191-2220 | Under all four options: a document that begins and ends with markup, written with or without entities and read with the same options, is read as its normal form, its texts collapsed to words if that is asked for |
| XmlWritten.DocumentWritten | game_server/tinyxml2.cpp:2617-2675 | A compact printer writes the document with values escaped or as they are, as the option says |
| XmlRoundTrip.TextRead | game_server/tinyxml2.cpp:1095-1118 | Printed text is parsed back as one text node with its normalised value, or as nothing when it is blank |
| XmlRoundTrip.AttributesRead | game_server/tinyxml2.cpp:1768-1826 | A printed attribute list with distinct good names is parsed back attribute by attribute |
| XmlReadBack.NodesRead | game_server/tinyxml2.cpp:958-1056 | Printed siblings, nested to any depth, are parsed back as their normal forms and parsing goes on right behind them |
| XmlParserOutput.LoopWellFormed | game_server/tinyxml2.cpp:958-1056 | Whatever the parser links into the tree is well formed: names, distinct attributes, markup that cannot end early, declarations first |
| XmlParserOutput.ReadIsWellFormed | game_server/tinyxml2.cpp:2284-2298 | Every document that parses, from any bytes and with any options, is well formed |
| XmlLayout.LoopLaidOut | game_server/tinyxml2.cpp:958-1056 | The strings of a parsed tree are disjoint stretches of the buffer in document order, so decoding one never touches another |
| XmlTheorems.PrintableIsRead | game_server/tinyxml2.cpp:2355-2675 | Compact printing then parsing gives back the same document |
| XmlTheorems.ReadIsPrintable | game_server/tinyxml2.cpp:2284-2298 | A document that comes back from its printed form satisfies every condition of printability |
| XmlTheorems.RoundTrip | game_server/tinyxml2.cpp:2191-2220 | For every document of C strings: parsing its compact print gives it back if and only if it is printable, a condition on names, attributes, values and neighbouring texts |
| XmlTheorems.NormalNodesFixed | game_server/tinyxml2.cpp:266-364 | A forest equals its normal form exactly when it has no carriage returns, no blank texts and no two plain texts side by side |
| XmlPrintRead.PrintThenRead | game_server/tinyxml2.cpp:2284-2298 | For every well-formed document, printable or not: reading its compact print fails exactly on text that is not blank behind the last markup or on nothing at all, and otherwise gives the normal form of the document, less the whitespace and the byte order mark the parser passes over in front |
| XmlPrintRead.MarkupThenRead | game_server/tinyxml2.cpp:2284-2298 | A well-formed document that begins and ends with markup comes back as its normal form |
| XmlPrintRead.OneRoundSettles | game_server/tinyxml2.cpp:2284-2298 | Whatever a first round of printing and reading made of a document survives every further round unchanged, if and only if it has any children |
| XmlPrintRead.ReadPrintRead | game_server/tinyxml2.cpp:2284-2298 | A text that begins and ends with markup, read, printed and read again: the result is the normal form of what was read first, and the same document if and only if that was settled |
| XmlPretty.PrettyIsCompact | game_server/tinyxml2.cpp:2417-2509 | For every document, what a printer with line breaks and indentation writes is the compact print of the same document with texts of whitespace put in, at places that follow from its flags and depths |
| XmlPretty.SpacedFlow | game_server/tinyxml2.cpp:2425-2430 | Within an element the whitespace put in is lost again in reading if and only if no element, at any depth, follows a text that is not blank |
| XmlPretty.PrettyThenRead | game_server/tinyxml2.cpp:2284-2298 | A well-formed document without text outside its elements, printed with line breaks and read, gives the normal form of the document with the whitespace put in |
| XmlPretty.PrettyExact | game_server/tinyxml2.cpp:2417-2532 | Such a document is read back from pretty print as it is from compact print if and only if no element follows a text that is not blank |
| XmlPretty.PrettyRoundTrip | game_server/tinyxml2.cpp:2284-2298 | Any document of C strings without text outside its elements comes back from pretty printing if and only if it is printable and no element follows a text that is not blank |
| XmlPretty.MixedNotKept | game_server/tinyxml2.cpp:2422-2427 | An element in the middle of a text: a concrete document that comes back from compact print and not from pretty print |
| XmlPretty.SpacedSample | game_server/tinyxml2.cpp:2345-2350 | What is put in, by example: a line break and four spaces a level, a line break before an end tag, an empty line between elements on their own, nothing around a text |
| XmlPretty.PrettyReread | game_server/tinyxml2.cpp:2191-2231 | On the real buffers: printed with line breaks and parsed again, a document object shows the same document |
| XmlPrintRead.NormalNodesSettled | game_server/tinyxml2.cpp:266-364 | A normal form is settled: no carriage returns, no blank texts, no two plain texts side by side |
| XmlParser.XMLDocument.ParseText | game_server/tinyxml2.cpp:192-214 | Finds the end tag and counts the line feeds passed; the line counter is one plus the line feeds before the cursor in the original text |
| XmlParser.XMLDocument.ParseName | game_server/tinyxml2.cpp:217-233 | Delimits the longest name at the cursor, and fails exactly on no name |
| XmlParser.XMLDocument.IdentifyNode | game_server/tinyxml2.cpp:651-718 | Skips whitespace, recognises the header in the order of the source and backs up for text, with the node kind and line of the specification |
| XmlParser.XMLDocument.ParseAttributeDeep | game_server/tinyxml2.cpp:1309-1334 | One attribute: name, equals sign, quoted value, with every failure |
| XmlParser.XMLDocument.ParseAttributesDeep | game_server/tinyxml2.cpp:1768-1826 | The attribute loop, with the duplicate check that reads earlier names in place, equals its specification on the original text |
| XmlParser.XMLDocument.CompareNames | game_server/tinyxml2.cpp:1031-1046 | Comparing the end tag with the name flushes both in place and decides mismatch as the specification does |
| XmlParser.XMLDocument.ParseElementDeep | game_server/tinyxml2.cpp:1852-1877 | An element with its children, in the mutable buffer, equals the specification on the original text |
| XmlParser.XMLDocument.ParseChildrenDeep | game_server/tinyxml2.cpp:958-1056 | The mutually recursive loop terminates with the bytes left as measure and links exactly the nodes of the specification, while strings behind the cursor are rewritten |
| XmlParser.XMLDocument.ParseBuffer | game_server/tinyxml2.cpp:2284-2298 | A whole buffer: byte order mark, empty document, children, error and line |
| XmlParser.XMLDocument.Parse | game_server/tinyxml2.cpp:2191-2220 | The imperative parser computes the specification: tree, error code, error line and line counter; after an error no children are left |
| XmlParser.XMLDocument.SkipWhiteSpaceLines | game_server/tinyxml2.h:533-544 | The loop over whitespace stops where the specification does, with the line counter at one plus the line feeds passed in the original text |
| DynArrays.DynArray.EnsureCapacity | game_server/tinyxml2.h:281-294 | Growing keeps the contents, doubles what was asked for, and copies what is in use |
| DynArrays.DynArray.PushArr | game_server/tinyxml2.h:218-225 | Room for more elements behind the old ones, which keep their values; size, capacity and copies made stay those of the operations so far |
| DynArrays.CopiesBounded | game_server/tinyxml2.h:211-294 | Over every sequence of pushes and pops from the start, growth copies fewer elements than twice the largest size reached, and none while the first block suffices; beyond it the room is at most twice the largest size |
| XmlPrinter.XMLPrinter.Print | game_server/tinyxml2.cpp:2325-2344 | Appends the text over the terminator and keeps the output terminated by a NUL |
| XmlPrinter.XMLPrinter.PrintString | game_server/tinyxml2.cpp:2355-2402 | Run by run, the buffer receives the escaped string |
| XmlPrinterSpec.EscapedSample | game_server/tinyxml2.cpp:2355-2402 | Every escaped character with its entity, in both sets |
| XmlPrinterSpec.MarkupSample | game_server/tinyxml2.cpp:2521-2615 | The delimiters of each kind of markup, character for character |
| XmlPrinter.XMLPrinter.OpenElement | game_server/tinyxml2.cpp:2417-2434 | Both modes: indentation, name and the open flag as the printer state prescribes |
| XmlPrinter.XMLPrinter.CloseElement | game_server/tinyxml2.cpp:2485-2509 | Both modes: the short end, or an end tag with or without indentation |
| XmlPrinter.XMLPrinter.PushText | game_server/tinyxml2.cpp:2521-2532 | Text is sealed, noted for its depth and escaped with the small set; CDATA is wrapped and not escaped |
| XmlPrinter.XMLPrinter.PushMarkup | game_server/tinyxml2.cpp:2581-2615 | Comments, declarations and unknown markup, both modes |
| XmlPrinter.EscapeStep | game_server/tinyxml2.cpp:2363-2389 | A run of plain bytes and the entity behind it, printed one after the other, extend the escaped prefix by exactly those characters |
| XmlPrinter.CompactVisit | game_server/tinyxml2.cpp:2627-2675 | In compact mode the printer, flag by flag and depth by depth, writes the recursive print of the node |
| XmlPrinter.CompactVisitAll | game_server/tinyxml2.cpp:2627-2675 | The same for siblings |
| XmlAccept.AcceptNode | game_server/tinyxml2.cpp:1920-1933 | Printing a parsed tree decodes strings in place as it goes; what is written is the print of the decoded tree, and the tree goes on standing for it |
| XmlAccept.PrintTo | game_server/tinyxml2.cpp:2222-2231 | Printing a document to a printer writes the visit of the document it shows |
| XmlAccept.ParsedShows | game_server/tinyxml2.cpp:2191-2220 | After a successful parse the buffer and the pairs show the document of the specification |
| XmlAccept.CompactDocument | game_server/tinyxml2.cpp:2617-2625 | In compact mode the visit of a document is its printed form |
| XmlAccept.Reread | game_server/tinyxml2.cpp:2191-2231 | End to end on the real buffers: a parsed printable document, printed in memory and parsed again, shows the same document |
| DomForest.UnlinkedForest | game_server/tinyxml2.cpp:786-805 | After unlinking, every list is a well-formed doubly linked list, the child is in none, and all others keep their order |
| DomForest.LinkedForest | game_server/tinyxml2.cpp:818-905 | Linking a parentless node between neighbours puts it at that position and changes no other list |
| DomForest.XMLNode.Unlink | game_server/tinyxml2.cpp:786-805 | The pointers written, and no others |
| DomForest.XMLNode.LinkEnd | game_server/tinyxml2.cpp:827-844 | The pointers written by the second half of InsertEndChild |
| DomForest.XMLNode.LinkFirst | game_server/tinyxml2.cpp:857-874 | The pointers written by the second half of InsertFirstChild |
| DomForest.XMLNode.LinkAfter | game_server/tinyxml2.cpp:899-904 | The pointers written by the second half of InsertAfterChild |
| DomSteps.MoveExact | game_server/tinyxml2.cpp:818-846 | Putting a node below another keeps the tree free of cycles if and only if the new parent is not in its subtree |
| DomSteps.NoGap | game_server/tinyxml2.cpp:898-902 | After the preamble the next sibling is null, and would be dereferenced, exactly when the moved node was that sibling and the last |
| DomSteps.AfterExact | game_server/tinyxml2.cpp:879-905 | Where InsertAfterChild relinks, the links are well formed afterwards if and only if a node is not put after itself |
| DomSteps.Balance | game_server/tinyxml2.cpp:2001-2008 | The counters of all four pools, attributes included, agree exactly when no live node has a parent or owns an attribute |
| DomTree.DocumentTree.NewNode | game_server/tinyxml2.h:1838-1847 | A node from its pool: one more live node, one more untracked |
| DomTree.DocumentTree.Unlink | game_server/tinyxml2.cpp:786-805 | Lists, links and counters after unlinking; the node waits to be put back or freed |
| DomTree.DocumentTree.InsertChildPreamble | game_server/tinyxml2.cpp:1068-1077 | Out of its list, or tracked: either way a root that the counters no longer miss |
| DomTree.DocumentTree.InsertEndChild | game_server/tinyxml2.cpp:818-846 | Refuses a node of another document with nothing changed; else refines: remove from the old position, insert at the end |
| DomTree.DocumentTree.InsertFirstChild | game_server/tinyxml2.cpp:848-876 | Refuses a node of another document with nothing changed; else refines: remove from the old position, insert at the front |
| DomTree.DocumentTree.InsertAfterChild | game_server/tinyxml2.cpp:879-905 | Refused for a node of another document or a neighbour that is no child; else refines: remove from the old position, insert right behind the neighbour, or at the end when it was last |
| DomTree.DocumentTree.SetAttribute | game_server/tinyxml2.cpp:1721-1746 | The first attribute of that name gets the value, or a new one is made, counted as tracked at once, and linked last; no list of children changes |
| DomTree.DocumentTree.DeleteAttribute | game_server/tinyxml2.cpp:1749-1765 | The first attribute of that name leaves the list and goes back to its pool |
| DomTree.DocumentTree.FreeAttributes | game_server/tinyxml2.cpp:1458-1465 | The loop of the destructor gives all attributes back to their pool |
| DomAttributes.NamedFound | game_server/tinyxml2.cpp:1721-1746 | A value set by name is the value found by name; every other name keeps its value, and distinct names stay distinct |
| DomAttributes.DroppedFound | game_server/tinyxml2.cpp:1749-1765 | Where names are distinct, a name deleted is not found any more and every other name keeps its value |
| DomAttributes.WithGood | game_server/tinyxml2.cpp:1829-1846 | Changing the attributes of an element keeps every list of children and every counter exact |
| DomTree.DocumentTree.DeleteChildren | game_server/tinyxml2.cpp:776-783 | Exactly the subtrees of the children go, with their attributes; the counters still tell the truth |
| DomTree.DocumentTree.DeleteChild | game_server/tinyxml2.cpp:808-815 | The child leaves its list and its subtree goes |
| DomTree.DocumentTree.DeleteNode | game_server/tinyxml2.cpp:2067-2082 | Exactly the subtree of the node goes, whether it was linked or never put anywhere |
| DomTree.DocumentTree.Clear | game_server/tinyxml2.cpp:1982-2009 | The debug comparison of the four pools holds if and only if no node outside the document had a parent or owned an attribute |
| DomDelete.BaredStep | game_server/tinyxml2.cpp:776-783 | Deleting the next child takes the tree from one stage of the loop to the next |
| DomDelete.BaredAll | game_server/tinyxml2.cpp:1058-1066 | Deleting all children and then the node leaves everything outside its subtree, links included |
| DomTree.DocumentTree.SetValue | game_server/tinyxml2.cpp:764-773 | The value of one node changes, and nothing else of the tree |
| DomTree.DocumentTree.DropNode | game_server/tinyxml2.cpp:1058-1066 | Exactly the subtree of a node that was put nowhere goes; its own node leaves its pool without ever being tracked |
| DomTree.DocumentTree.ClearPools | game_server/tinyxml2.h:330-341 | Whatever was lost before, afterwards nothing is counted and the bare document is all there is |
| DomParse.EndTagGone | game_server/tinyxml2.cpp:1019-1029 | An end tag, made, given the attributes it came with and deleted on the spot, leaves the tree as it was |
| DomParse.ReadInVain | game_server/tinyxml2.cpp:990-997 | A node whose reading fails at any depth, deleted with all that was already linked below it, leaves every other node, list and link as it was |
| DomParse.ParseTracks | game_server/tinyxml2.cpp:1019-1029 | A successful parse leaves the untracked counters of all four pools unchanged |
| DomReader.ReadAttributes | game_server/tinyxml2.cpp:1768-1826 | The attribute loop on the heap gives the result of the specification and links the attributes it lists; after a spoilt or doubled attribute only the attributes of this element have changed and the pool counts them exactly |
| DomReader.ReadElement | game_server/tinyxml2.cpp:1852-1877 | Name, attributes and children of an element, with the result of the specification; value, attributes and children on the heap are those of the parsed element, and after a failure only the element itself and new nodes below it have changed |
| DomReader.ParseDeep | game_server/tinyxml2.cpp:958-1056 | Driven by the text, with the result of the parser specification, failures included: the nodes read become the last children of the parent, in their order and nesting, with their values and attributes, and nothing else moves |
| DomReader.ParseText | game_server/tinyxml2.cpp:2284-2298 | A whole buffer on the heap: result, byte order mark and the nodes linked below the document, for every text and all options |
| DomReader.Parse | game_server/tinyxml2.cpp:2191-2220 | From any earlier tree: after success the document holds exactly the nodes of the specification; after an error no node but the document is left and nothing is counted |
| DomText.ReadStandsFor | game_server/tinyxml2.cpp:2284-2298 | A heap that holds the nodes read stands for the document of the specification |
| DomText.PrintChildren | game_server/tinyxml2.cpp:1920-1933 | Following the links from the first child gives the print of the whole list of children, to any depth |
| DomText.PrintDocument | game_server/tinyxml2.cpp:2222-2231 | Following the links of the document writes the compact print of the document the heap stands for |
| DomText.ParseShows | game_server/tinyxml2.cpp:2191-2220 | Whatever was there before, after a parse the heap stands for what reading the bytes gives, or is bare when reading fails |
| DomText.ThroughText | game_server/tinyxml2.cpp:2191-2231 | A tree, however it was built and moved about, printed by following its links and parsed into a second tree: that one stands for the same document if and only if the document is printable, and otherwise for what the specification reads |
| DomXml.ParseAndClear | game_server/tinyxml2.cpp:1982-2009 | Whatever text is parsed into a new document, its tree stands for the document the parser reads, and clearing it leaves the document alone with the four pools in balance |
| DomXml.OrphanWithAttribute | game_server/tinyxml2.cpp:2001-2008 | An element made, given an attribute and put nowhere makes the comparison fail |
| MemPools.MemPoolT.Alloc | game_server/tinyxml2.h:353-377 | Never returns a live item; live and free items stay a partition of all items of all blocks; the counters are exact |
| MemPools.MemPoolT.Free | game_server/tinyxml2.h:379-390 | A live item goes to the front of the free list |
| MemPools.MaxIsLargest | game_server/tinyxml2.h:370-372 | The maximum kept is one of the live counts reached, and none was larger |
| TimerService.TimerQueue.AddTimer | game_server/world/TimerService.cpp:16-29 | The timer goes in by its absolute deadline, before those not due earlier; the rotation on the way meets no expired timer |
| TimerService.TimerQueue.Heartbeat | game_server/world/TimerService.cpp:31-40 | What a heartbeat calls and leaves, in absolute deadlines, with zero pending time and 32-bit overflow |
| TimerService.TimerQueue.TimerRotation | game_server/world/TimerService.cpp:42-60 | The erase loop keeps and calls what its specification does, on any list |
| TimerService.RotationTells | game_server/world/TimerService.cpp:42-60 | After a rotation the remaining times tell the deadlines of the timers still waiting |
| TimerService.RotationCalls | game_server/world/TimerService.cpp:42-60 | A rotation calls exactly the timers whose deadlines have come, in the order of the list |
| TimerService.DueIsFront | game_server/world/TimerService.cpp:35-37 | The due timers are a front part of the list, so comparing with the first is enough |
| TimerService.BeatExact | game_server/world/TimerService.cpp:31-40 | A heartbeat calls exactly the due timers if and only if the pending time does not overflow and is not zero while something is due |
| TimerService.OverflowGood | game_server/world/TimerService.cpp:35-37 | When the 32-bit sum wraps, nothing is called and every timer is delayed by the whole range |
| TimerService.Run | game_server/world/TimerService.cpp:16-60 | Every run: each punctual heartbeat calls exactly the timers added before, not called yet and due, earlier deadlines first, ties newest first |
| TimerCallbacks.CallFunction | game_server/world/TimerService.cpp:16-29 | Timers added by a function in the middle of the calling loop, whose list they rotate and insert into: the iterator stays at its timer, and the rest of the list is as if they had been added later |
| TimerCallbacks.RotationCalling | game_server/world/TimerService.cpp:42-60 | The erase loop, with functions that add timers, calls the due timers in order and leaves the list the additions make of what is kept |
| TimerCallbacks.HeartbeatCalling | game_server/world/TimerService.cpp:31-40 | A heartbeat whose calls add timers calls and leaves what a heartbeat without them does, with the same additions made afterwards |
| TimerCallbacks.BeatThenAdd | game_server/world/TimerService.cpp:16-60 | Against absolute deadlines: a punctual heartbeat calls exactly the timers due, none of those just added, and those added are waiting with their deadlines |
| WorkerPool.Conserves | game_server/database/DataBaseService.cpp:58-115 | Every step of every thread keeps: tasks queued in submission order, popped from the front, each popped one held once or executed once |
| WorkerPool.OnePlace | game_server/database/DataBaseService.cpp:58-115 | Each submitted task is in exactly one place: queue, a worker, or the log of executed ones |
| WorkerPool.SupplyExact | game_server/database/DataBaseService.cpp:58-67 | After the pushes of stop the queue is at least as long as the number of workers committed to a pop, and every step keeps that except a drain while one is committed |
| WorkerPool.NoWorkerStuck | game_server/database/DataBaseService.cpp:101-115 | After stop every worker not yet out of its loop can take its next step |
| WorkerPool.StopEnds | game_server/database/DataBaseService.cpp:101-115 | However threads interleave, workers take at most three steps each after the flag is cleared |
| WorkerPool.RunKeeps | game_server/database/DataBaseService.cpp:58-115 | Both invariants over every run without an early drain |
| WorkerPool.NothingLeft | game_server/database/DataBaseService.cpp:78-91 | Once all workers have exited, executing the remaining tasks leaves none: every submitted task ran exactly once |
| WorkerPool.RunInLoop | game_server/database/DataBaseService.cpp:101-115 | In no run does a worker leave its loop before the stop |
| WorkerPool.WorkEnds | game_server/database/DataBaseService.cpp:101-115 | While the service runs and nothing more is submitted, workers take exactly as many steps as there is work, however they are scheduled |
| WorkerPool.QuietIsDone | game_server/database/DataBaseService.cpp:101-115 | When no worker can take a step while the service runs, the queue is empty and every submitted task was executed once |
| WorkerPool.RunningProgress | game_server/database/DataBaseService.cpp:101-115 | From every state a running service with workers can reach, worker steps alone lead to a state in which everything submitted has been executed once |
| WorkerPool.OnlyWorkersPop | game_server/database/DataBaseService.cpp:78-80 | Before the stop tasks leave the queue only by the pops of workers, one at a time, whoever calls for the remaining tasks |
| WorkerPool.OneWorkerInOrder | game_server/database/DataBaseService.cpp:78-115 | In every run of a single worker in which no drain passes over its head, tasks are executed in the order of submission |
| WorkerPool.OrderExact | game_server/database/DataBaseService.cpp:78-115 | The one step that breaks the order: executing the remaining tasks while the worker has one in its hand and others are queued |
| WorkerPool.StopsOnce | game_server/database/DataBaseService.cpp:58-67 | Over every run from a service of n workers, however often stop is called: n empty tasks were queued once a stop is complete and none before |
| WorkerPool.DrainStrands | game_server/database/DataBaseService.cpp:78-91 | Draining while a worker is committed to a pop strands it |
| WorkerPool.CommittedAtStop | game_server/database/DataBaseService.cpp:101-106 | Such a moment can be reached |
| WorkerPool.DataBaseService.AsyncSubmit | game_server/database/DataBaseService.h:59-69 | The queue and the log after a submission |
| WorkerPool.DataBaseService.StopPush | game_server/database/DataBaseService.cpp:62-66 | One empty task for each thread, behind everything queued |
| WorkerPool.DataBaseService.ExecuteRemainTask | game_server/database/DataBaseService.cpp:78-91 | Nothing while running; else everything queued is executed in order |
| WorkerPool.DataBaseService.PopTask | game_server/database/DataBaseService.cpp:104-109 | The front task moves to the worker |
| Framing.DecodeExact | network/stream_server/CallbackUtility.cpp:11-40 | On any buffer below 2^31 bytes the decoder agrees with a decoder that takes each frame by its length if and only if no complete frame with data has bytes behind it |
| Framing.OneFrame | network/stream_server/CallbackUtility.cpp:11-57 | Any chunking of one frame gives nothing until the last chunk and then exactly the id and payload, and leaves the buffer empty |
| Framing.AllFrames | network/stream_server/CallbackUtility.cpp:11-57 | The same for any sequence of frames with no chunk across a frame boundary |
| Framing.TogetherExact | network/stream_server/CallbackUtility.cpp:11-40 | Frames that arrive in one piece come out right if and only if only the last has data |
| FramingChunks.StreamExact | network/stream_server/RWHandler.cpp:90-115 | However a stream of frames is cut into reads of at most 1024 bytes, exactly the messages sent come out if and only if no read that completes a frame with data also holds bytes behind it |
| FramingChunks.ChunksExact | network/stream_server/CallbackUtility.cpp:11-40 | The same from any point in the middle of a frame, for reads of any size that fits 32 bits together with a frame |
| FramingChunks.FrontDecoded | network/stream_server/CallbackUtility.cpp:11-40 | On the front part of a stream the decoder gives the complete messages and keeps the rest, unless a frame with data is followed by further bytes; then it gives a message that was not sent |
| Bytes.LoadStored | network/stream_server/CallbackUtility.cpp:21-29 | An integer stored in memory and loaded again is the same |
| Bytes.LittleEndian | network/stream_server/CallbackUtility.cpp:45-50 | The stored bytes are the digits of the number to base 256, the least significant first |
| Framing.FrameBytes | network/stream_server/CallbackUtility.cpp:42-57 | A frame byte for byte: length, id, data |
| Framing.CallbackMessageDecoder | network/stream_server/CallbackUtility.cpp:11-40 | The loop over the buffer computes the specification, the exception included |
| Framing.CallbackMessageEncoder | network/stream_server/CallbackUtility.cpp:42-57 | The vector filled by a moving position is the frame |
| Framing.ByteBuffer.Append | network/stream_server/ByteBuffer.h:89-99 | The unread bytes grow at the end; read position <= write position = storage size |
| Framing.ByteBuffer.ReadSkip | network/stream_server/ByteBuffer.cpp:117-122 | Skips unread bytes, or refuses and changes nothing |
| Framing.ByteBuffer.ExtractAll | network/stream_server/ByteBuffer.h:122-130 | Takes all that is left |
| Framing.ByteBuffer.ShrinkToFit | network/stream_server/ByteBuffer.cpp:124-156 | The unread bytes move to the front and stay the same |
| Framing.ReadAll | network/stream_server/RWHandler.cpp:90-115 | A connection that reads chunk after chunk gives what the chunk-wise specification gives, until it fails |
| WriteQueue.Keeps | network/stream_server/RWHandler.cpp:47-78 | Every callback keeps: a write is in flight exactly when the queue is not empty and none failed; completed and queued messages are those posted |
| WriteQueue.SilentAfterFailure | network/stream_server/RWHandler.cpp:66-73 | After a failed write nothing more is handed to the socket, whatever is posted |
| WriteQueue.EveryRun | network/stream_server/RWHandler.cpp:47-78 | Every run: completed messages are a front part of the posted ones, and at most one more was started; the connection is closed if and only if some event closed it, and the owner has heard of the first such event and of nothing else, unless that was a shutdown of its own |
| WriteQueue.RunCloses | network/stream_server/RWHandler.cpp:122-137 | From any state: closing, its one notice with the reason of the first event that closes, and failure if and only if a write failed |
| WriteQueue.RWHandler.SendPosted | network/stream_server/RWHandler.cpp:47-57 | The posted lambda, and whether it starts a write |
| WriteQueue.RWHandler.DoWriteCallback | network/stream_server/RWHandler.cpp:66-78 | The completion, and whether it starts the next write |
| WriteQueue.RWHandler.MarkClosed | network/stream_server/RWHandler.cpp:122-137 | The first reason closes; an active shutdown is not notified |
| Base64.StandardAlphabet | zylib/Base64.cpp:7-11 | The table is the alphabet of RFC 4648; a place is found of its characters and of no others |
| Base64.EncodedNumber | zylib/Base64.cpp:20-62 | For bytes of any number: the encoding is the bytes as one long number to base 256, written to base 64 in the standard alphabet, filled with zero bits and padded |
| Base64.DecodedNumber | zylib/Base64.cpp:65-105 | For any characters of the alphabet, in any number: the decoding is the bytes of the number they write to base 64, less the bits beyond the last byte |
| Base64.UsableIs | zylib/Base64.cpp:72 | Decoding reads the longest front part in the alphabet |
| Base64.RoundTrip | zylib/Base64.cpp:20-105 | Decoding the encoding gives back the bytes below 1.5 * 2^30 of them, and overflows the signed index of the decoder from there on |
| Base64.RoundTripExact | zylib/Base64.cpp:13-17 | Through the string interface the bytes come back if and only if there are fewer than 1.5 * 2^30 |
| Base64.GroupsRoundTrip | zylib/Base64.cpp:20-105 | The groups encoded decode to the bytes, whatever their number, and the usable characters are counted exactly |
| Base64.CastExact | zylib/Base64.cpp:13-17 | The cast of the length to an unsigned 32-bit number loses bytes exactly from 2^32 of them on |
| Base64.EncodedLength | zylib/String.h:26-29 | Four characters for every three bytes begun |
| Base64.MergeSplit | zylib/Base64.cpp:85-101 | Merging undoes splitting, and the bytes kept of a short group do not depend on the 255 that stands for its padding |
| Base64.EncodeBytes | zylib/Base64.cpp:20-62 | The loop over a three-byte buffer writes the encoding |
| Base64.Decode | zylib/Base64.cpp:65-105 | The loop over a four-character buffer writes the decoding of the usable front part, for any text of fewer than 2^31 usable characters, and reports the overflow of its index for every other |
| KnetMessage.EmptyIdSendsNothing | knet/detail/MessageDetail.cpp:37-43 | Nothing is written exactly when a service id is empty |
| KnetMessage.MessageBytes | knet/detail/MessageDetail.cpp:37-58 | A message byte for byte: sender, zero, receiver, zero, id, payload |
| KnetMessage.DecodeExact | knet/detail/MessageDetail.cpp:37-115 | Decoding what was encoded restores all fields if and only if both service ids are not empty and have no zero byte |
| KnetMessage.EncodeDecoded | knet/detail/MessageDetail.cpp:60-115 | Encoding what was decoded gives back the bytes |
| KnetMessage.AcceptedExactly | knet/detail/MessageDetail.cpp:60-115 | With a key, the bytes accepted are exactly the encodings of messages with proper service ids |
| KnetMessage.SendMsg.Encode | knet/detail/MessageDetail.cpp:37-58 | The buffer filled by a moving position is the encoding, and is left alone for an empty id |
| KnetMessage.Decode | knet/detail/MessageDetail.cpp:60-115 | The scan with its two markers computes the specification |
| ConnectionPool.AcquireOldest | mysqlcpp/mysqlcpp/ConnectionPool.cpp:59-68 | Fails exactly when all connections are held; otherwise takes one nobody holds, of those the one released longest ago |
| ConnectionPool.ReleaseLast | mysqlcpp/mysqlcpp/ConnectionPool.cpp:80-96 | Frees that connection alone and moves it behind all others |
| ConnectionPool.EveryRun | mysqlcpp/mysqlcpp/ConnectionPool.cpp:59-111 | Over every run by holders: the connections never change, none has two holders, and list order is the order of last release |
| ConnectionPool.SlotPool.GetConn | mysqlcpp/mysqlcpp/ConnectionPool.cpp:59-68 | The search over the slots acquires as specified |
| ConnectionPool.SlotPool.ReleaseConn | mysqlcpp/mysqlcpp/ConnectionPool.cpp:80-96 | Clearing, erasing and pushing back the slot releases as specified, and keeps the same slots |

## Left out

- XmlPretty.PrettyRoundTrip: of pretty printing, documents with plain text outside all elements are
  left out, because there the printer breaks lines around the text as well. That pretty print is the
  compact print of the document with whitespace put in (`PrettyIsCompact`) holds for them too.
- Files, streams and visitors: loading, saving, `printf` conversion of numbers, handles, cloning,
  error strings. The parser starts from bytes in memory.
- Debug assertions of the XML engine: the release behaviour is modelled; the one debug comparison
  in `Clear` is a result of the model.
- The parsed tree of `XmlParser` is a value holding offsets into the mutable buffer; the heap of
  linked nodes is filled from the text, with values and attributes decoded when they are read. The
  attributes of an element are a sequence, not objects with links.
- XmlTheorems.RoundTrip: the equivalence is stated for the two default options, the only ones this
  repository constructs documents with. For the others `WrittenRead` says what a document is read as
  that begins and ends with markup; without entity processing a written `<` or quote is markup.
- DomReader.Parse: the line of an error is part of the result, but nodes keep no line on the heap;
  a pointer a caller still has to a node that a parse or `Clear` frees is not part of the model.
- Line numbers, sizes and counters of the XML engine are unbounded integers; the array growth
  assertions about `INT_MAX` are not modelled.
- XmlNumbers.ReferenceValue: the sum of the digit loops is an unsigned long of 64 bits, taken as
  unbounded here; only the 32-bit multiplier wraps.
- TimerService.TimerQueue.Heartbeat: calls are recorded; functions that add timers are the subject
  of `TimerCallbacks`, and functions that run a heartbeat themselves are not modelled.
- WorkerPool.Conserves: the mutex and the condition variable appear only as the atomicity of the
  steps; wake-ups are not lost because every push notifies under the lock. A second `init`, the
  connection pools, futures and exceptions of tasks are not part of the model.
- Framing.ByteBuffer.Append: a null source and the reserved capacity are not modelled, nor the
  numeric and string conversions that framing does not use.
- WriteQueue.EveryRun: the socket is its completions; reads, timers and the log are left out, and
  a shutdown request is the closing it posts.
- Base64.Decode: where the index of the source would overflow, no result is returned; what the
  program does from there on is undefined. Masks and shifts are written as division and remainder.
- KnetMessage.Decode: a null key pointer is an empty key, and the log is left out.
- ConnectionPool.SlotPool.ReleaseConn: only the holder of a connection releases it, as the guard
  class does; opening connections, clearing their error state and the lock are foreign calls.
- MemPools.MemPoolT.Alloc: an item is one object with a link; its raw bytes and the size of a
  block beyond its number of items are not modelled.
- Sockets, MySQL, Redis, Kafka, protobuf, the login server's copies of these services, the
  front end and the games: plumbing, duplicates or user interface.
