# A verified model of the service-mesh agent

The repository is an agent that sits beside a service: a consumer-side agent in C
accepts HTTP requests, picks a provider, and talks to the provider's agent in Java over
a small framed protocol; it brings its own red-black tree, memory pool, thread pool and
JSON library. This project models the parts whose correctness is not evident from one
function body, and proves in Dafny what they promise.

| part | files |
|---|---|
| red-black tree (`rbtree.c`) | `RbModel`, `RbTree`, `RbRun` |
| JSON parser, printer, minifier, comparison (`cJSON.c`) | `ByteText`, `JsonString`, `JsonNumber`, `JsonDecimal`, `JsonGrammar`, `JsonShape`, `JsonParse`, `JsonBytes`, `JsonDecoder`, `JsonParser`, `JsonPrint`, `JsonPrinter`, `JsonLayout`, `JsonMinify`, `JsonPieces`, `JsonMinifier`, `JsonRoundTrip`, `JsonCompare` |
| agent channel (`agent-client-manager.c`, `ProviderAgentAdvanceDecoder`, `ProviderAgentEncoder`, `Bytes`) | `Octets`, `Frames`, `FrameCodecs`, `ProviderDecoder`, `AcmReader`, `AgentChannel`, `AgentWire`, `AgentProgress`, `AgentRuns`, `AgentLink`, `RequestMap` |
| memory pool (`mmpool.c`) | `Arith`, `MemRing`, `MemAges`, `MemPool`, `MemRuns` |
| thread pool (`tdpool.c`) | `ThreadPool`, `ThreadProgress` |
| HTTP decoder (`http-server.c`) | `HttpRequest`, `HttpDecoder` |
| endpoint selection (`service-discovery.c`) | `ServiceDiscovery`, `ServiceScan` |

How the parts are modelled:

* **Heap structures** live in explicit memory, a map from addresses to records that the
  methods overwrite field by field, so that sharing, parent links and the shared
  sentinel (whose `parent` field deletion uses) are all there. A ghost tree, or a ghost
  sequence for the rings, says what the memory stands for; the fix-up loops of the
  red-black tree carry a ghost zipper, the way from the flawed node to the root.
* **Threads** are interleavings of atomic steps. A state machine per protocol
  (`AgentChannel`, `ThreadPool`, `ServiceScan`) has its steps at the accesses to shared
  data; the theorems hold after every possible run.
* **Streams** come in chunks of any size: short sends and receives are
  nondeterministic, and the resumable decoders are proved against a decoder of the
  whole stream.
* **JSON** has an independent grammar: a syntax tree that keeps every byte
  (`JsonGrammar`). The parser accepts exactly the texts of such trees, with their
  meaning; the printer and the minifier are shown to write such trees. The parser,
  printer, string decoder and minifier as they run (moving offset, growing buffer, two
  passes, in place) are proved against the functions. The language and the layout are
  also told in byte values, with no name that the code uses (`JsonBytes`, `JsonDecimal`,
  `JsonLayout`).

Where the code does not do what it intends, the model follows the code, and there is a
lemma with a run or an input that shows it and a theorem that says exactly when all is
well:

* `agent-client-manager.c:454-463` adds the -1 of an EAGAIN to the write index in the
  data phase: `AgentRuns.FaultExample`, in which a byte is sent twice, and
  `AgentWire.AtRest`.
* `agent-client-manager.c:267-280` puts a request into the write queue without asking
  whether there is room: `AgentRuns.OverflowExample`, in which a request is lost, and
  `AgentWire.AtRest`: the wire is right exactly if no slot that is filled again had bytes
  still to send. An over-full queue alone does no harm: `AgentRuns.ReuseExample`. A slot
  filled again between the header and the data of its task sends the writer in front of a
  buffer: `AgentRuns.StrayExample`, `AgentWire.StraysExactly`.
* `agent-client-manager.h:58` promises no collisions while requests do not outnumber the
  table: `RequestMap.CountIsNotEnough`, `RequestMap.ServedExactly`,
  `RequestMap.OrderlyServed`.
* `tdpool.c:277` compares counters that are never reduced, so the queue is never judged
  full: `ThreadPool.NeverFull`, `ThreadPool.CountIsNotEnough`, `ThreadPool.OwnCallsExactly`.
* `mmpool.c:159-170` leaves choices unassigned when classes run out, contrary to the
  comment at line 154: `MemRuns.StrayExample`, `MemAges.FoundExactly`, and over whole runs
  `MemRuns.RunPool`. Rounding a size up can wrap around (`mmpool.h:25-26`):
  `MemPool.AlignEnough`.
* `service-discovery.c:426-440` uses an unassigned pointer when no endpoint can be
  chosen: `ServiceDiscovery.Saturated`, `ServiceDiscovery.UnsetExactly`,
  `ServiceDiscovery.NothingToChoose`, and with responses during the scan
  `ServiceScan.UnsetScan`.
* `cJSON.c:2396-2464` reads past the terminator in an unfinished literal or comment:
  `JsonPieces.LoneQuote`, `JsonPieces.MinifiedExact`.
* `cJSON.c:2566-2689` judges an object with a repeated name not equal to its copy when the
  members disagree: `JsonCompare.TrueAndFalse`, `JsonCompare.SameDecides`.
* `cJSON.c:493-526` reads bad hexadecimal digits as 0, which puts the two passes of
  `parse_string` out of step: `JsonString.OutOfStep`, `JsonString.InStep`. The output array
  is large enough all the same: `JsonDecoder.DecodeLiteral`.

`dafny verify dfyconfig.toml` checks the whole project.

## Model

| member | source | states |
|---|---|---|
| RbTree.RbTree.Search | src/main/c/src/com/rbtree.c:28-45 | finds exactly what the finite map of the tree holds, comparing just the keys on the way down, at most 2*log2(n+1) of them |
| RbTree.RbTree.LeftRotate | src/main/c/src/com/rbtree.c:55-82 | memory holds the rotated tree in the same place, every link right, the sentinel's parent untouched |
| RbTree.RbTree.RightRotate | src/main/c/src/com/rbtree.c:92-117 | the mirror image |
| RbTree.RbTree.InsertFixup | src/main/c/src/com/rbtree.c:126-183 | from a tree whose only flaw is one red node under a red parent, a valid red-black tree with the same entries |
| RbTree.RbTree.Insert | src/main/c/src/com/rbtree.c:192-224 | a new key is added and nothing else, all red-black properties hold; an existing key is refused and nothing changes |
| RbTree.RbTree.Transplant | src/main/c/src/com/rbtree.c:236-246 | another subtree, or the sentinel, hangs in the place of a node, its parent link set |
| RbTree.RbTree.TreeMinimum | src/main/c/src/com/rbtree.c:255-265 | the leftmost node, with the way down to it |
| RbTree.RbTree.DeleteFixup | src/main/c/src/com/rbtree.c:275-346 | a tree one black node short at the focus, which may be the sentinel, becomes a valid red-black tree with the same entries |
| RbTree.RbTree.Unlink | src/main/c/src/com/rbtree.c:366-400 | taking the node out leaves every other entry and at most a missing black at one place |
| RbTree.RbTree.Delete | src/main/c/src/com/rbtree.c:356-407 | a valid red-black tree that holds exactly the other nodes |
| RbModel.HeightLog | src/main/c/src/com/rbtree.c:28-45 | the height of a red-black tree of n nodes is at most 2*log2(n+1) |
| RbTree.PushedFlaw | src/main/c/src/com/rbtree.c:137-147 | recolouring moves the red-red flaw two levels up and changes nothing else |
| RbTree.OuterFlaw | src/main/c/src/com/rbtree.c:148-161 | the rotation of an outer red node ends the flaw |
| RbTree.RedSiblingFlaw | src/main/c/src/com/rbtree.c:282-290 | case 1 of deletion keeps the missing black where it is, under a red parent |
| RbTree.PassUpFlaw | src/main/c/src/com/rbtree.c:291-299 | case 2 passes the missing black to the parent |
| RbTree.FarNephewFixed | src/main/c/src/com/rbtree.c:307-315 | case 4 restores the missing black |
| RbRun.Replay | src/main/c/src/com/rbtree.c:11-407 | any run of inserts, deletes and searches on an initially empty tree answers as a finite map does |
| JsonString.TokensRead | src/main/c/src/com/cJSON.c:651-777 | both passes over a literal made of plain bytes, letter escapes, escapes of scalar values and surrogate pairs read it as it is meant |
| JsonString.EscapesDenote | src/main/c/src/com/cJSON.c:493-648 | any non-zero scalar values, escaped, denote their UTF-8 encoding, which an independent UTF-8 reader reads back |
| JsonString.LoneSurrogate | src/main/c/src/com/cJSON.c:549-591 | half a surrogate pair after any tokens makes the literal fail, whatever follows |
| JsonString.InStep | src/main/c/src/com/cJSON.c:651-777 | a literal that both passes accept is a list of tokens, and is read as one, exactly if every escape that the first pass meets has four hexadecimal digits |
| JsonString.OutOfStep | src/main/c/src/com/cJSON.c:493-526 | a literal with a bad digit that the two passes take apart differently: the second takes the closing quote for an escaped one |
| JsonString.Utf8Reads | src/main/c/src/com/cJSON.c:600-642 | the encoding of every scalar value is the shortest UTF-8 form of just that value |
| JsonString.EscapeDenotes | src/main/c/src/com/cJSON.c:780-899 | what is printed for a string is a literal that denotes it |
| JsonNumber.ConvertedCut | src/main/c/src/com/cJSON.c:258-291 | what strtod converts, taken alone, is converted completely |
| JsonNumber.IntTextGood | src/main/c/src/com/cJSON.c:427-490 | integers of at most 15 digits are printed as number tokens that have their value |
| JsonGrammar.TextPlaced | src/main/c/src/com/cJSON.c:1147-1543 | the text of a syntax tree stands in a buffer exactly if each of its parts stands in its place |
| JsonShape.Complete | src/main/c/src/com/cJSON.c:1147-1543 | the recursive descent reads every well-placed syntax tree as it is meant |
| JsonShape.Sound | src/main/c/src/com/cJSON.c:1147-1543 | whatever the recursive descent reads is a well-placed syntax tree with that meaning, nested at most 1000 deep |
| JsonParse.TokensCovered | src/main/c/src/com/cJSON.c:1156-1183 | every word, literal and number of the lexicon that stands in the buffer is read |
| JsonParse.TokensSourced | src/main/c/src/com/cJSON.c:1156-1183 | everything read as a word, literal or number is in the lexicon |
| JsonParse.ParseExact | src/main/c/src/com/cJSON.c:937-1014 | a text is accepted with a tree as result exactly if it is a document of the grammar with that meaning |
| JsonParse.StringsExact | src/main/c/src/com/cJSON.c:651-777 | quoted lists of tokens with their meaning are exactly the strings of the lexicon whose escapes have digits |
| JsonParse.ParseStrict | src/main/c/src/com/cJSON.c:937-1014 | a document of the grammar with strings as token lists is accepted with its meaning; it is any accepted document whose literals have digits in their escapes |
| JsonBytes.LetterEscapes | src/main/c/src/com/cJSON.c:714-735 | what each escape of one character stands for, in byte values, and that no other is accepted |
| JsonBytes.HexDigits | src/main/c/src/com/cJSON.c:493-526 | the value of each hexadecimal digit, in byte values |
| JsonBytes.HexEscape | src/main/c/src/com/cJSON.c:493-648 | four digits stand for the UTF-8 of the number they spell, or fail on half a surrogate pair |
| JsonBytes.EscapedByte | src/main/c/src/com/cJSON.c:780-899 | what is printed for each byte of a string, in byte values |
| JsonBytes.EscapedMore | src/main/c/src/com/cJSON.c:780-899 | a string is printed byte by byte |
| JsonBytes.IntegerText | src/main/c/src/com/cJSON.c:427-490 | an integer is printed in decimal without leading zeros, with a minus sign exactly if it is negative |
| JsonBytes.Words | src/main/c/src/com/cJSON.c:1156-1183 | the bytes of true, false and null are parsed to these values |
| JsonBytes.NumeralParsed | src/main/c/src/com/cJSON.c:219-293 | a numeral of at most 63 bytes is parsed to its value |
| JsonBytes.Lists | src/main/c/src/com/cJSON.c:1281-1543 | the texts of arrays and objects, and white space, in byte values |
| JsonDecimal.Numerals | src/main/c/src/com/cJSON.c:219-293 | sign, digits, fraction and exponent are converted completely, to the number they write, and make a token exactly if they are at most 63 bytes |
| JsonDecoder.ScanLiteral | src/main/c/src/com/cJSON.c:664-688 | the first pass finds the closing quote and counts the escapes it met |
| JsonDecoder.ParseHex4 | src/main/c/src/com/cJSON.c:493-526 | the number four hexadecimal digits spell, 0 for anything else |
| JsonDecoder.WriteUtf8 | src/main/c/src/com/cJSON.c:600-642 | writes the UTF-8 encoding of the code point, last byte first |
| JsonDecoder.Utf16ToUtf8 | src/main/c/src/com/cJSON.c:530-648 | reads one escape or a surrogate pair, writes its UTF-8 encoding, or fails |
| JsonDecoder.DecodeLiteral | src/main/c/src/com/cJSON.c:690-755 | every write of the second pass and the terminator lies in the array that the first pass sized, whatever the text, and the string is the one specified |
| JsonDecoder.RoomEscape | src/main/c/src/com/cJSON.c:664-755 | an escape of 2m bytes, wherever it starts, covers at most m escapes of the first pass, so there is room for m bytes |
| JsonParser.ParseBuffer.SkipWhitespace | src/main/c/src/com/cJSON.c:916-934 | stops at the next byte above 32, or at the final NUL |
| JsonParser.ParseBuffer.ParseString | src/main/c/src/com/cJSON.c:651-777 | the string and the new offset are those of the token at the offset, failure if there is none |
| JsonParser.ParseBuffer.ParseNumber | src/main/c/src/com/cJSON.c:219-293 | the value of the longest convertible prefix of at most 63 number bytes |
| JsonParser.ParseBuffer.ParseItem | src/main/c/src/com/cJSON.c:1147-1200 | result and offset of the specification; the depth is back where it was |
| JsonParser.ParseBuffer.ParseArray | src/main/c/src/com/cJSON.c:1281-1372 | the loop builds the specified list in order, or fails as specified |
| JsonParser.ParseBuffer.ParseObject | src/main/c/src/com/cJSON.c:1437-1543 | the loop builds the specified members in order, or fails as specified |
| JsonParser.Parse | src/main/c/src/com/cJSON.c:937-1014 | the specified tree, with or without the demand that the text ends after it |
| JsonPrint.RenderText | src/main/c/src/com/cJSON.c:1203-1657 | what is printed is the text of a syntax tree |
| JsonPrint.RenderGood | src/main/c/src/com/cJSON.c:1203-1657 | that syntax tree is of the grammar, means the printed tree and is as deeply nested |
| JsonPrint.PrintParse | src/main/c/src/com/cJSON.c:1147-1657 | parsing a printed tree, formatted or not, gives it back, with member order and repeated names, exactly if it is nested at most 1000 deep |
| JsonLayout.Compact | src/main/c/src/com/cJSON.c:1375-1657 | unformatted text has no blank outside its literals, and minifying formatted text gives it |
| JsonLayout.Formatted | src/main/c/src/com/cJSON.c:1375-1657 | formatted text is the unformatted one with each member on a line of its own, indented by the number of open brackets, the closing brace on its own line, a tab after the colon and a space after the comma of an array |
| JsonPrinter.PrintBuffer.Ensure | src/main/c/src/com/cJSON.c:326-411 | room for the needed bytes and one more, or failure exactly if the buffer cannot get that large; what was printed stays |
| JsonPrinter.PrintBuffer.UpdateOffset | src/main/c/src/com/cJSON.c:414-424 | the offset moves to the end of the text |
| JsonPrinter.PrintBuffer.PrintString | src/main/c/src/com/cJSON.c:780-899 | the specified literal with a terminator, in exactly the room it computed |
| JsonPrinter.PrintBuffer.PrintValue | src/main/c/src/com/cJSON.c:1203-1278 | the specified text with a terminator behind what was there; fails exactly if there is no room for two bytes more than the text, for a number one |
| JsonPrinter.PrintBuffer.PrintArray | src/main/c/src/com/cJSON.c:1375-1434 | likewise for arrays |
| JsonPrinter.PrintBuffer.PrintObject | src/main/c/src/com/cJSON.c:1546-1657 | likewise for objects, indentation included |
| JsonPrinter.Print | src/main/c/src/com/cJSON.c:1024-1081 | the specified text, unless it comes within two bytes of INT_MAX |
| JsonPrinter.PrintPreallocated | src/main/c/src/com/cJSON.c:1125-1144 | succeeds exactly if the given buffer is two bytes longer than the text, for a number one |
| JsonMinify.MinText | src/main/c/src/com/cJSON.c:2396-2464 | minifying the text of a syntax tree gives the text of the tree without its blanks, whatever follows |
| JsonMinify.MinifyPreserves | src/main/c/src/com/cJSON.c:2396-2464 | an accepted text is minified to an accepted text, not longer, with the same tree |
| JsonMinifier.CopyLiteral | src/main/c/src/com/cJSON.c:2440-2452 | a literal is copied to where the writing stands, never past the reading |
| JsonPieces.MinifiedExact | src/main/c/src/com/cJSON.c:2396-2464 | the minifier stays inside a text exactly if it is a sequence of blanks, finished comments, finished literals and other bytes, and then keeps the last two; it runs past the terminator exactly if behind such pieces a literal or comment is unfinished |
| JsonPieces.LoneQuote | src/main/c/src/com/cJSON.c:2440-2452 | a lone quote, or a lone comment opening, runs past the terminator |
| JsonMinifier.Minify | src/main/c/src/com/cJSON.c:2396-2464 | in place and with the write position never past the read position, the minified text as specified, or past the terminator as specified |
| JsonRoundTrip.MinifyAny | src/main/c/src/com/cJSON.c:2396-2464 | minifying any text in place keeps its literals and other bytes, and runs past the terminator exactly if something is unfinished |
| JsonRoundTrip.PrintAndParse | src/main/c/src/com/cJSON.c:937-1081 | printing with the growing buffer and parsing with the moving offset gives the tree back |
| JsonRoundTrip.MinifyAndParse | src/main/c/src/com/cJSON.c:2396-2464 | an accepted text, minified in place, parses to the same tree |
| JsonCompare.GetObjectItem | src/main/c/src/com/cJSON.c:1712-1738 | the first member of that name, in either mode of comparison |
| JsonCompare.FindsFirst | src/main/c/src/com/cJSON.c:1712-1738 | a lookup finds the first member whose name is equal, or equal but for the case of the 26 letters, or there is none |
| JsonCompare.ComparePointers | src/main/c/src/com/cJSON.c:2566-2689 | identical pointers, or the specified comparison |
| JsonCompare.Compare | src/main/c/src/com/cJSON.c:2598-2689 | the specified comparison, on every two trees |
| JsonCompare.SameDecides | src/main/c/src/com/cJSON.c:2566-2689 | any two trees are judged the same exactly if they are equal with objects taken as finite maps and in both, members of the same name agree |
| JsonCompare.DistinctCoherent | src/main/c/src/com/cJSON.c:1712-1738 | without repeated names nothing can disagree, so the comparison decides equality |
| JsonCompare.SameEquivalence | src/main/c/src/com/cJSON.c:2566-2689 | it is symmetric and transitive on all trees, and reflexive exactly on those whose members of the same name agree |
| JsonCompare.MembersSwap | src/main/c/src/com/cJSON.c:2647-2680 | exchanging members of different names gives the same object |
| JsonCompare.RepeatedName | src/main/c/src/com/cJSON.c:2647-2680 | an object with a repeated name is the same as its copy exactly if the members agree |
| JsonCompare.TrueAndFalse | src/main/c/src/com/cJSON.c:2647-2680 | an object that is not the same as its copy |
| JsonCompare.Duplicate | src/main/c/src/com/cJSON.c:2317-2394 | a recursive duplicate is the same tree; otherwise the children are left out |
| JsonCompare.CompareWithCopy | src/main/c/src/com/cJSON.c:2317-2394 | a tree compares equal to its duplicate exactly if its members of the same name agree |
| FrameCodecs.AcmInt2Bytes | src/main/c/src/core/agent-client-manager.c:694-699 | four big-endian bytes, nothing else written |
| FrameCodecs.AcmBytes2Int | src/main/c/src/core/agent-client-manager.c:701-706 | the big-endian number of four bytes |
| FrameCodecs.AcmLong2Bytes | src/main/c/src/core/agent-client-manager.c:708-717 | eight big-endian bytes, nothing else written |
| FrameCodecs.AcmBytes2Long | src/main/c/src/core/agent-client-manager.c:719-729 | the big-endian number of eight bytes |
| FrameCodecs.JavaInt2Bytes | src/main/java/com/yiran/agent/Bytes.java:57-62 | the bytes of a signed int, big endian |
| FrameCodecs.JavaLong2Bytes | src/main/java/com/yiran/agent/Bytes.java:71-80 | the bytes of a signed long, big endian |
| FrameCodecs.JavaBytes2Long | src/main/java/com/yiran/agent/Bytes.java:89-98 | the signed long of eight bytes |
| FrameCodecs.JavaBytes2Int | src/main/java/com/yiran/agent/Bytes.java:100-105 | the signed int of four bytes |
| Frames.BERoundTrip | src/main/java/com/yiran/agent/Bytes.java:57-105 | a number written big endian is read back |
| Frames.DecodeStream | src/main/c/src/core/agent-client-manager.c:307-389 | decoding a stream of frames gives exactly its messages, in order |
| Frames.DecodeResume | src/main/java/com/yiran/agent/ProviderAgentAdvanceDecoder.java:26-68 | decoding may stop anywhere and resume with what is left over |
| ProviderDecoder.Decoder.ChannelRead | src/main/java/com/yiran/agent/ProviderAgentAdvanceDecoder.java:26-68 | fires exactly the messages completed by this read and keeps the rest, or throws exactly on a negative length |
| ProviderDecoder.ReceiveAll | src/main/java/com/yiran/agent/ProviderAgentAdvanceDecoder.java:26-68 | however a stream of frames is cut into reads, and wherever it stands, exactly the messages received completely come out, in order |
| ProviderDecoder.Encoder.Encode | src/main/java/com/yiran/agent/ProviderAgentEncoder.java:16-25 | appends the frame of the response, whatever the reused header array held |
| AcmReader.Reader.ReadThread | src/main/c/src/core/agent-client-manager.c:307-389 | what is heard, held back and left waiting is that of the specified reading, for whatever each `recv` returns |
| AcmReader.HearKeeps | src/main/c/src/core/agent-client-manager.c:307-389 | the next messages are heard in order, and every other byte is held back or still waits |
| AcmReader.HearStops | src/main/c/src/core/agent-client-manager.c:307-389 | the thread stops only at a `recv` that fails or returns less than it wants; if that returned all there was, nothing is left |
| AcmReader.HearAll | src/main/c/src/core/agent-client-manager.c:307-389 | if every `recv` returns as much as is wanted and there, nothing is left waiting and exactly the complete messages are heard |
| AcmReader.ReadEvents | src/main/c/src/core/agent-client-manager.c:307-389 | whatever arrives when, the peer's messages are heard in order and no byte is lost: what is not heard is held back or still waits; once nothing waits, all are heard but an empty last one; if every `recv` returns what is there, all are heard |
| AgentChannel.StepInv | src/main/c/src/core/agent-client-manager.c:270-495 | every step of requesters, event loop and writers keeps the protocol invariant |
| AgentChannel.Protocol | src/main/c/src/core/agent-client-manager.c:270-297 | in every reachable state at most one writer consumes, it has something to consume, and no wakeup is lost: an event that has not fired is registered, about to be, or in the event loop's hand |
| AgentWire.StepWire | src/main/c/src/core/agent-client-manager.c:267-484 | every step keeps the slots of the queue, the account of the bytes and, as long as none is lost, the wire |
| AgentWire.WireIntact | src/main/c/src/core/agent-client-manager.c:404-484 | in every reachable state, if no slot with bytes still to send was filled again, the wire carries the frames of the requests in order, as far as they got, exactly if no data send met EAGAIN |
| AgentWire.Conserved | src/main/c/src/core/agent-client-manager.c:267-484 | when the queue is empty again, the bytes on the wire and those lost are the bytes of all requests and one for each EAGAIN of a data send |
| AgentWire.AtRest | src/main/c/src/core/agent-client-manager.c:267-484 | when the queue is empty again and no data send met EAGAIN, the wire is the stream of the requests exactly if no slot with bytes still to send was filled again; and if none was, exactly if no data send met EAGAIN |
| AgentWire.CanSend | src/main/c/src/core/agent-client-manager.c:425-458 | a writer in the loop always finds a task it can send from |
| AgentWire.StraysExactly | src/main/c/src/core/agent-client-manager.c:454-458 | a writer takes data from in front of its buffer exactly if a slot is filled again between the header and the data of the request in it |
| AgentProgress.FailedExactly | src/main/c/src/core/agent-client-manager.c:437-442 | a writer stops for good exactly if a send fails with another error than EAGAIN |
| AgentProgress.NeverStuck | src/main/c/src/core/agent-client-manager.c:404-500 | in every reachable state with a request in the queue a wakeup is coming, or the holder of the lock or the thread filling a slot can take its next step, or the holder has failed or strayed |
| AgentProgress.Drains | src/main/c/src/core/agent-client-manager.c:404-500 | from every such state whose holder has not, some run empties the queue |
| AgentProgress.AlwaysDrains | src/main/c/src/core/agent-client-manager.c:404-500 | and so it does after every run in which no send fails and no slot is filled again between header and data |
| AgentRuns.FaultExample | src/main/c/src/core/agent-client-manager.c:454-463 | a run with one EAGAIN in a data phase that leaves an empty queue and a header byte twice on the wire |
| AgentRuns.OverflowExample | src/main/c/src/core/agent-client-manager.c:267-280 | a run in which a queue of one loses a request |
| AgentRuns.ReuseExample | src/main/c/src/core/agent-client-manager.c:267-280 | a run in which the queue is over-full and both requests arrive |
| AgentRuns.StrayExample | src/main/c/src/core/agent-client-manager.c:454-458 | a run in which no byte is lost and a writer takes data from in front of its buffer |
| AgentLink.RequestsArrive | src/main/c/src/core/agent-client-manager.c:404-484 | in every interleaving and for every pattern of short sends without those faults, the wire decodes to the requests sent so far, in order |
| AgentLink.Deliver | src/main/java/com/yiran/agent/ProviderAgentAdvanceDecoder.java:26-68 | and however that wire is cut into reads, the provider's decoder fires them |
| AgentLink.EncodeAll | src/main/java/com/yiran/agent/ProviderAgentEncoder.java:16-25 | the encoder's output for a list of responses is the stream that the C reader reads back |
| RequestMap.Handle.Hold | src/main/c/src/core/agent-client-manager.c:640-665 | holds the listener, or refuses exactly if the entry is taken |
| RequestMap.Handle.Request | src/main/c/src/core/agent-client-manager.c:261-264 | a fresh id, held or not |
| RequestMap.Handle.Respond | src/main/c/src/core/agent-client-manager.c:379-388 | calls the listener of the entry and frees it |
| RequestMap.WindowNoClash | src/main/c/src/core/agent-client-manager.c:640-665 | within a window of ids no new id clashes |
| RequestMap.Serve | src/main/c/src/core/agent-client-manager.c:379-388 | the table serves any run, each request held and each answer to its own listener once, up to the first clash or answer without request, and no less |
| RequestMap.ServedExactly | src/main/c/src/core/agent-client-manager.c:640-665 | a run is served to its end exactly if no request meets a clash and every answer is to an outstanding request |
| RequestMap.OrderlyServed | src/main/c/src/core/agent-client-manager.c:640-665 | while ids stay in the window, it is |
| RequestMap.CountIsNotEnough | src/main/c/inc/core/agent-client-manager.h:58 | a run after which one request is outstanding in a table of two, and the next one collides |
| MemRing.Unhooked | src/main/c/src/com/mmpool.c:106-113 | the ring without its first node is a ring |
| MemRing.Hooked | src/main/c/src/com/mmpool.c:89-98 | the ring with a new second node is a ring |
| MemAges.SortByAge | src/main/c/src/com/mmpool.c:131-148 | a permutation of the classes, least recently requested first |
| MemAges.Pick | src/main/c/src/com/mmpool.c:150-171 | the oldest classes with idle blocks as far as there are any, then what the code leaves there |
| MemAges.PickExact | src/main/c/src/com/mmpool.c:150-171 | exactly if three classes have idle blocks or the last one has, all choices are such classes; else stack contents are chosen |
| MemAges.FoundExactly | src/main/c/src/com/mmpool.c:150-171 | told without the order: all choices are classes exactly if three classes have idle blocks or the class requested last has |
| MemAges.PicksOldest | src/main/c/src/com/mmpool.c:150-171 | with three classes to choose from, the choices differ and no class left aside is older |
| MemPool.AlignEnough | src/main/c/inc/com/mmpool.h:25-26 | the rounded size is enough exactly if rounding does not wrap around |
| MemPool.ClassExactly | src/main/c/src/com/mmpool.c:210-214 | the classes 1 to 10 are the sizes up to one to ten boundaries, everything else is class 0 |
| MemPool.ThinnedAt | src/main/c/src/com/mmpool.c:172-193 | each chosen class loses half its blocks and one, no other loses any |
| MemPool.Pool.GetMem | src/main/c/src/com/mmpool.c:205-254 | hands out the first idle block of the class, or a new one of the rounded size; no other block is new, blocks in use are untouched, every idle one is in the ring of its class |
| MemPool.Pool.RlsMem | src/main/c/src/com/mmpool.c:262-315 | the block joins its ring, or goes back with an eviction exactly if too much would lie idle; a block not in use is refused; stack contents that are no class are used exactly if there are idle classes but not enough |
| MemPool.Pool.Evict | src/main/c/src/com/mmpool.c:122-196 | the classes are ordered by age, picked and thinned out, never from an empty ring; the counters stay right; it traps exactly if stack contents are chosen and are no class |
| MemPool.Pool.ReleaseHalf | src/main/c/src/com/mmpool.c:172-193 | exactly n/2+1 of the n blocks of a class go back |
| MemPool.BulkIsProduct | src/main/c/src/com/mmpool.c:205-315 | the count kept for class i is i times the number of its idle blocks |
| MemRuns.RunPool | src/main/c/src/com/mmpool.c:205-315 | any run is one specified step after the other from one sound state to the next, and ends early exactly where a release would use stack contents that are no class, or a caller breaks the rules |
| MemRuns.LiveBlocks | src/main/c/src/com/mmpool.c:205-315 | over any run, blocks handed out and not released are in use, in no ring, not handed out again, and as large as asked for exactly if rounding did not wrap around |
| MemRuns.BlocksKept | src/main/c/src/com/mmpool.c:205-315 | a step loses no block: besides the one handed out or released, just the blocks that leave the rings leave the pool |
| MemRuns.SameAgain | src/main/c/src/com/mmpool.c:205-315 | a size requested, released with room for it and requested again gets the same block, exactly if no other block of its class lies idle |
| MemRuns.StrayExample | src/main/c/src/com/mmpool.c:150-193 | a run of two requests and two releases whose last one uses the stack contents as a class |
| ThreadPool.StepCounted | src/main/c/src/com/tdpool.c:112-290 | semaphore, pending posts and pending claims account for every queued call, after every step |
| ThreadPool.NeverFull | src/main/c/src/com/tdpool.c:277-281 | the full branch is never taken, whatever the capacity |
| ThreadPool.ReadExact | src/main/c/src/com/tdpool.c:112-131 | a worker reads its own call exactly until the call one period later has been stored |
| ThreadPool.Accounted | src/main/c/src/com/tdpool.c:112-290 | in every reachable state head < tail, the counters add up and every ticket is with one reader or done once |
| ThreadPool.OwnCallsExactly | src/main/c/src/com/tdpool.c:112-290 | over a whole run, the worker with ticket k runs the k-th call exactly if every read came before the call one period later was stored |
| ThreadPool.CountIsNotEnough | src/main/c/src/com/tdpool.c:265-290 | a run with at no time more unread calls than slots, in which a worker runs another's call |
| ThreadProgress.Serves | src/main/c/src/com/tdpool.c:112-290 | from every reachable state some run, in which one worker comes back for call after call, starts every call in the queue |
| HttpRequest.AtoiDecimal | src/main/c/src/core/http-server.c:587-600 | blanks, a sign, decimal digits and anything else give the number of the digits |
| HttpRequest.LengthFieldGood | src/main/c/src/core/http-server.c:562-600 | the field of the length in byte values is recognised with its number |
| HttpRequest.PlainRequest | src/main/c/src/core/http-server.c:526-601 | a request line that is no GET, that field and a body of that length are a well-formed request |
| HttpRequest.HeadScanned | src/main/c/src/core/http-server.c:526-601 | scanning the head of a well-formed request byte by byte ends at the body, with its length found |
| HttpDecoder.Channel.DecodeLine | src/main/c/src/core/http-server.c:540-559 | follows the scanner through the request line; at its end calls the handler exactly for a GET and puts a NUL at index 3, which in a line of less than three bytes hits what follows |
| HttpDecoder.Channel.DecodeKey | src/main/c/src/core/http-server.c:562-586 | follows the scanner through field names; recognises the length field in any case |
| HttpDecoder.Channel.DecodeValue | src/main/c/src/core/http-server.c:587-600 | follows the scanner through field values |
| HttpDecoder.Channel.Decode | src/main/c/src/core/http-server.c:526-624 | resumes where it stopped; calls the handler exactly when the request is complete |
| HttpDecoder.Channel.IoRead | src/main/c/src/core/http-server.c:416-462 | the next part of the request is stored and decoded |
| HttpDecoder.Serve | src/main/c/src/core/http-server.c:158-624 | however a well-formed request is cut, the handler is called once, by the completing chunk, with exactly the body |
| ServiceDiscovery.ServiceNode.InsertEndpoint | src/main/c/src/core/service-discovery.c:17-42 | the ring stays a ring ordered by load level, the new endpoint before its equals, all else unchanged |
| ServiceDiscovery.ServiceNode.FindOptimal | src/main/c/src/core/service-discovery.c:421-439 | the first of the least loaded endpoints below 200 requests, if there is one |
| ServiceDiscovery.ServiceNode.GetOptimal | src/main/c/src/core/service-discovery.c:421-447 | that endpoint gets one request more; an unassigned pointer is used exactly if none can be chosen |
| ServiceDiscovery.FairStep | src/main/c/src/core/service-discovery.c:421-442 | a choice keeps the shares fair |
| ServiceDiscovery.Balance | src/main/c/src/core/service-discovery.c:421-442 | over any run of choices (req_i - 1)*load_j <= req_j*load_i while req_j is below 200, and it stops only when all are saturated |
| ServiceDiscovery.Serve | src/main/c/src/core/service-discovery.c:421-442 | any run of choices and responses does exactly what is specified, as far as it gets |
| ServiceDiscovery.UnsetExactly | src/main/c/src/core/service-discovery.c:426-440 | a run uses the unassigned pointer exactly if it gets to a choice with no endpoint to choose |
| ServiceDiscovery.OutcomeAccounted | src/main/c/src/core/service-discovery.c:421-442 | as far as a run gets, outstanding requests are accounted for and never more than 200 |
| ServiceDiscovery.NothingToChoose | src/main/c/src/core/service-discovery.c:426-440 | nothing can be chosen exactly if every endpoint is saturated |
| ServiceDiscovery.Saturated | src/main/c/src/core/service-discovery.c:426-440 | with one endpoint, 200 choices in a row go well and the 201st uses the unassigned pointer |
| ServiceScan.ScanBound | src/main/c/src/core/service-discovery.c:421-442 | with responses between any two reads of a scan, still never more than 200 requests, all accounted for, and the pick is the first of the least loaded as they were read, and no busier than then |
| ServiceScan.UnsetScan | src/main/c/src/core/service-discovery.c:426-440 | the unassigned pointer is used exactly at the end of a scan that read no endpoint to choose |
| ServiceScan.WholeScan | src/main/c/src/core/service-discovery.c:421-442 | a scan without responses in between is the choice in one step |

## Left out

- Sockets, epoll, curl, thread creation and logging: only their effects are modelled (short sends and receives, EAGAIN, events armed and fired, locks).
- Critical sections under a spin lock, a mutex or a semaphore are atomic where nothing outside the lock reads what they write.
- A `send` and the update of the write index after it are one step, and so is the filling of a slot; a thread that sends from in front of a buffer goes no further.
- RequestMap.Handle.Hold: `acm_hold_request` tests and writes an entry without a lock; here that is one step, so that two requests whose ids share an entry do not both find it free.
- ServiceDiscovery.Serve: a choice is one step; `ServiceScan` has one for each read, with responses in between.
- Counters, sizes and ids are unbounded, except where wrap-around matters: `MMPL_ALIGN`, the byte codecs, `INT_MAX` in the printer, the frame length.
- Bit operations on disjoint bits are written as arithmetic (`|` as `+`, shifts as multiplication and division).
- The request id of `acm_request` is unbounded; it is an `int` variable there (agent-client-manager.c:261).
- Numbers in JSON are exact: rounding to double, infinities, negative zero and the locale's decimal point are not modelled, and only integers of at most 15 digits are printed.
- JsonPrinter.PrintBuffer.PrintNumber: takes the text that `sprintf` makes as given, because formatting is a library function.
- JsonParse.ParseExact: its strings are those that the two passes accept; `JsonParse.StringsExact` and `JsonParse.ParseStrict` say which of them are strings of the grammar.
- The integer copy of a number (`valueint`), the position of a parse error, allocation failure, hooks, reference items, raw items, array editing and the one-line constructors of `cJSON.c`.
- JsonCompare.Compare: the items of two trees are taken to be different objects, so that the shortcut for identical pointers applies at the top only.
- The ratio of requests to load level is exact, not a float.
- A pool block's boundary need not be a power of two; `MMPL_ALIGN` is then taken as rounding down to a multiple.
- Pool and pool-thread teardown, cross-thread ownership of blocks, the master thread of `tdpool.c`.
- HTTP requests with an empty body, with anything after the body, or as long as the buffer; responses; URL decoding.
- HttpDecoder.Serve: is about request lines of at least three bytes, as every well-formed one is; `HttpDecoder.Channel.DecodeLine` says what happens to shorter ones.
- Etcd registration and lookup, the disabled balancers, the service table, Netty set-up, Dubbo encoding, form data and the plain Java value classes: plumbing or easier variants of what is here.
