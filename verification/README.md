# Verified core of open-rfc-go

A Dafny 4.11 model of the parts of open-rfc-go, a Go implementation of the SAP
classic RFC protocol stack, in which correctness is hardest to see: the
normaliser of recursive type graphs, the connection pool, SAP Binary XML, the
NI frame separator, the LZ4 block decoder, the APPC conversation layer, and the
CPIC field chain with the CUT (classic Unicode) requests and responses on top of
it. `dafny verify dfyconfig.toml` checks all of it.

Loops and objects of the source are methods and classes proved against
functions; the laws are lemmas about those functions. What each part proves:

- **Type graph** (`Digraph`, `FinishOrder`, `Components`, `Condensation`,
  `TypeComponents`, `TypeNodes`, `TypeGraph`, `Normalizer`, `GraphConsumers`,
  `DeepGraph`).
  Iterative Kosaraju numbers two types alike exactly when each reaches the
  other; Kahn's loop finds the longest chain of components from a root;
  `Normalize` accepts exactly the inputs a declarative condition describes and
  flags exactly the references that lie on a cycle; schema rendering and input
  coercion therefore terminate on the flags alone, and for each of them the
  lengths of reference chains at which the depth cap of 32 shows are exact.
- **Pool** (`PoolBook`, `PoolRuns`). Every lock-held region is a step of a
  system of callers, janitor and shutdown. In every interleaving occupancy is
  conserved, nobody queues while something could be handed out, grants are first
  come first served, each resource is in exactly one place, and after a shutdown
  each has been closed exactly once, or was in the hands of a Close that gave up.
- **Binary XML** (`BxmlFormat`, `BxmlDecoder`, `BxmlEncoder`, `BxmlRoundTrip`).
  Whatever the printer accepts is parsed back, normalised, if and only if no
  string it wrote has 0x200000 bytes or more.
- **NI frames** (`NiFrame`). The chunk queue with its cursor and compaction
  refines a flat buffer; results do not depend on how the stream is chunked.
- **LZ4** (`Lz4`, `Lz4Meaning`). The decoder's answer is exactly the meaning of
  a sequence list that serialises to its input, early bail-outs included.
- **APPC** (`AppcConversation`, `AppcSetup`, `AppcPlan`, `ResponseRecords`,
  `RequestSending`, `Session`). Reassembly over every run of records; the server's
  record splitter and the client's reassembler undo each other; outgoing plans
  concatenate to the message, keep the barrier rule and never trip the state
  machine; an encoded answer reaches the client's result through all layers.
- **Field chain and CUT messages** (`FieldChain`, `LogonGrammar`,
  `ErrorEnvelope`, `CutNames`, `CutFields`, `CutRequest`, `CutServer`,
  `CutRoundTrip`, `ClassicResult`, `CutResponse`, `CutResponseRoundTrip`).
  Round trips with their exact conditions, the order independence of the error
  envelope, and the completeness of greedy grammar matching.

Some expectations do not hold as they stand. For each there is an input at which
the code fails it and a proof of the exact condition under which it holds:

| expectation | fails at | holds exactly when |
|---|---|---|
| printed binary XML parses back | `BxmlRoundTrip.LongTextIsLost` | no string has 0x200000 bytes or more (`RoundTripIff`) |
| a schema shows every type | `DeepGraph.SchemaIsCut` | no chain of unflagged references is longer than the cap allows (`GraphConsumers.ParamCapIff`) |
| a value of the described shape is taken | `DeepGraph.SchemaPromisesTooMuch` | no such chain is longer than coercion allows, for tables one less than the schema shows (`GraphConsumers.CoercionCapIff`) |
| `Close` closes every idle resource, as its comment says | `PoolRuns.CloseCanDrop` | it does not return on `ctx.Done` with resources in hand (`ShutdownIff`) |
| a dropped field-chain record is noticed | `FieldChain.DropUnnoticed` | its tag differs from its predecessor's and it is not the last (`DropDetectedIff`) |
| requests arrive as sent | `CutRoundTrip.CallIsMisread` | the server guesses the byte order of every name right, none ends in blank or NUL, and XML documents carry their parameters' names (`RequestRoundTripIff`) |
| responses and exception keys arrive as sent | `CutResponseRoundTrip.SupplementaryIsReplaced` | names are within the basic plane, legible and distinct and tables with rows have a width (`ResponseRoundTripIff`, and likewise `ExceptionRoundTripIff`) |

One remark on the source: a session always plans with streaming disabled, so a
request above 28000 bytes is refused by the planner although the encoder and the
trailer inspection support it (`RequestSending.RequestIsPlanned`).

## Model

| member | source | states |
|---|---|---|
| `FinishOrder.Compute` | internal/metadata/recursive.go:950-974 | The explicit-stack search lists every node once, and an edge from an earlier-finished node to a later one means the later one reaches everything finished in between |
| `FinishOrder.SearchFrom` | internal/metadata/recursive.go:957-973 | One search keeps the stack invariant, visits its start and unvisits nothing |
| `Components.Reverse` | internal/metadata/recursive.go:943-948 | A node is listed behind v in the reversed graph exactly when it has an edge to v |
| `Components.Sweep` | internal/metadata/recursive.go:986-1000 | A backward sweep assigns its number only to unassigned nodes that reach its start, lists each once, and leaves none of their predecessors unassigned |
| `Components.Partition` | internal/metadata/recursive.go:976-1003 | Two nodes get one number exactly when each reaches the other; the member lists are the components, sorted; every predecessor of an assigned node is assigned |
| `TypeComponents.FindCyclic` | internal/metadata/recursive.go:1005-1016 | A component is marked cyclic exactly when one of its nodes lies on a non-empty closed walk, self-loops included |
| `TypeComponents.ComponentCyclic` | internal/metadata/recursive.go:1005-1016 | More than one member or a self-loop holds exactly when some member lies on a cycle |
| `Condensation.Condense` | internal/metadata/recursive.go:1018-1030 | Component d is a successor of c exactly when they differ and some edge joins their members |
| `Condensation.ReachableFrom` | internal/metadata/recursive.go:1042-1054 | The worklist collects exactly the components below a root |
| `Condensation.CountIndegrees` | internal/metadata/recursive.go:1056-1063 | Each counter is the number of reachable predecessors |
| `Condensation.LongestPath` | internal/metadata/recursive.go:1064-1103 | Kahn's loop takes every reachable component exactly once, in a topological order, and returns the length of the longest chain from a root |
| `TypeComponents.CondensedDepth` | internal/metadata/recursive.go:1018-1103 | The depth is the number of components on the longest condensation path starting at a root |
| `TypeComponents.GraphComponents` | internal/metadata/recursive.go:930-1108 | Whether accepted or refused, the depth is the longest chain of strongly connected components from a root; DEPTH_LIMIT exactly when it exceeds the limit, else components, cyclic marks and depth |
| `TypeNodes.ClassifyReference` | internal/metadata/recursive.go:480-492 | Refused exactly for a nested type without an associated type; a table exactly for type h, scalar exactly when not nested; otherwise the target is the associated type |
| `TypeNodes.GroupRows` | internal/metadata/recursive.go:496-516 | Accepts exactly the row lists in which no type name returns after another; groups are the rows cut at name changes, one per type |
| `TypeNodes.CountBlank` | internal/metadata/recursive.go:525-530 | Zero exactly when every row is named |
| `TypeNodes.BuildFields` | internal/metadata/recursive.go:550-582 | Accepts exactly groups with one total, one timestamp, distinct names, ascending geometry within the totals and targets where needed; the fields are the rows in order |
| `TypeNodes.BuildNode` | internal/metadata/recursive.go:523-593 | Accepts exactly when an unnamed row stands alone and the fields are acceptable; a table or scalar node is one unnamed line |
| `TypeNodes.BuildNodes` | internal/metadata/recursive.go:496-596 | Accepts exactly contiguous rows within the node and edge limits with acceptable groups; one well-shaped node per type name |
| `TypeNodes.RefineTableNodeKinds` | internal/metadata/recursive.go:598-638 | A scalar line becomes a table exactly when a field or parameter uses its name as a table type; nothing else changes |
| `TypeNodes.ValidateNodeTargets` | internal/metadata/recursive.go:640-660 | Accepts exactly when every reference names a node of its own kind |
| `TypeGraph.Adjacency` | internal/metadata/recursive.go:931-942 | The index graph has an edge exactly where a field refers to the target |
| `TypeGraph.FinalNodes` | internal/metadata/recursive.go:1110-1142 | Each node keeps its fields; a reference is flagged exactly when both ends share a cyclic component |
| `TypeGraph.FlagExact` | internal/metadata/recursive.go:1123-1129 | Same cyclic component exactly when the edge lies on a cycle |
| `TypeGraph.FinalCyclicExact` | internal/metadata/recursive.go:1110-1142 | In the final nodes a reference is flagged exactly when it lies on a cycle of types |
| `TypeGraph.DescentRanked` | internal/metadata/recursive.go:1128 | Ranks climb along every unflagged reference: without the flagged edges the graph has no cycle |
| `TypeGraph.AllDescentsBounded` | internal/metadata/recursive.go:1077-1085 | A walk along unflagged references visits at most maximumDepth types, all different |
| `Normalizer.PickRoots` | internal/metadata/recursive.go:1241-1266 | Refused exactly for an unknown root; otherwise explicit roots, then parameter roots, each once, or every type if there are none |
| `Normalizer.ReachableTypes` | internal/metadata/recursive.go:1269-1287 | Collects exactly the types a root reaches |
| `Normalizer.FinalCycles` | internal/metadata/recursive.go:1174-1187 | The cycles are the member names of the cyclic components, in component order |
| `Normalizer.Normalize` | internal/metadata/recursive.go:1191-1310 | Accepts exactly admissible rows and roots whose longest chain of strongly connected components is within the limit and whose roots reach every type; the result is normalised, holds the rows' types, and lists a type in a cycle exactly when it lies on one |
| `Normalizer.IsNormalised` | internal/metadata/recursive.go:1110-1142 | References resolve to their kind, table nodes are one unnamed field, flags are exact, descents are bounded by maximumDepth and ranked |
| `GraphConsumers.NormalisedRenders` | rfc/recursive.go:416-451 | Every normalised graph renders without the depth cap, and with maximumDepth up to 33 the cap changes nothing |
| `GraphConsumers.CapHarmlessIff` | rfc/recursive.go:423-451 | The capped rendering equals the uncapped one exactly when no chain of unflagged references has more than 33 types |
| `GraphConsumers.ParamCapIff` | rfc/recursive.go:407-451 | The schema of a whole parameter is uncut exactly when no such chain has more than 33 types, 34 below the line type of a table parameter |
| `GraphConsumers.CoercionCapIff` | rfc/recursive.go:298-375 | For every type, the cap refuses no value of any shape exactly when no such chain has more than 33 types, 32 for a table parameter whose rows are structures |
| `GraphConsumers.CoercionCapNeverFires` | rfc/recursive.go:298-375 | On a normalised graph no deeper than that, coercion with the cap equals coercion without it, for every input value |
| `GraphConsumers.SchemaOutrunsCoercion` | rfc/recursive.go:298-303 | For a table parameter the schema shows one type more than coercion lets a value nest through: complete schema, refused value |
| `GraphConsumers.CoercionSettles` | rfc/recursive.go:298-375 | If coercing a scalar twice is coercing it once, the same holds for every parameter: nothing but scalars changes |
| `DeepGraph.ChainIsNormalised` | rfc/recursive.go:65-68 | The chain of n structures is a normalised graph of depth n, for every n |
| `DeepGraph.SchemaIsCut` | rfc/recursive.go:423-451 | A chain of 34 structures whose rendering the cap changes |
| `DeepGraph.SchemaPromisesTooMuch` | rfc/recursive.go:298-322 | A table of 33 nested structures with a complete schema and a refused value |
| `PoolBook.Pool.constructor` | internal/pool/pool.go:102-121 | A non-positive size selects eight; everything is free |
| `PoolBook.Pool.PopWaiter` | internal/pool/pool.go:163-168 | Takes the head of the queue |
| `PoolBook.Pool.GrantAll` | internal/pool/pool.go:143-161 | Hands idle resources, then free slots, to the queue from its head until one side is empty |
| `PoolBook.Pool.TakeOrQueue` | internal/pool/pool.go:193-219 | The region of Acquire: refuse, take the last idle resource, take a slot, or queue |
| `PoolBook.Pool.GiveSlotBack` | internal/pool/pool.go:247-251 | The region shared by failed validation, failed creation, an abandoned permit and discard |
| `PoolBook.Pool.Forget` | internal/pool/pool.go:170-178 | Removes the caller's place and says whether it had one |
| `PoolBook.Pool.Restore` | internal/pool/pool.go:293-309 | A released resource goes to the head of the queue or becomes idle; after Close the caller must close it |
| `PoolBook.Pool.EvictExpired` | internal/pool/pool.go:344-364 | Exactly the entries older than the cutoff leave, each freeing a slot |
| `PoolBook.Pool.CloseLocked` | internal/pool/pool.go:385-395 | The first Close takes the idle list, later ones change nothing |
| `PoolRuns.ReturnSlotOnce` | internal/pool/pool.go:247-251 | In a reachable state a returned slot makes exactly one grant, to the head, or becomes free |
| `PoolRuns.EvictSplits` | internal/pool/pool.go:348-360 | Eviction splits the idle resources into kept and expired, losing and duplicating none |
| `PoolRuns.StepConsistent` | internal/pool/pool.go:143-409 | Every step keeps counters, queue, channels and the place of every resource |
| `PoolRuns.Reachable` | internal/pool/pool.go:143-409 | Every state of every interleaving is consistent: each created resource is in exactly one of idle, an in-flight grant, one goroutine, closed, or lost to an expired Close |
| `PoolRuns.Occupancy` | internal/pool/pool.go:143-318 | In every run idle + leased + freeSlots is MaxSize while open and at most MaxSize after; a non-empty queue means no idle resource and no free slot |
| `PoolRuns.AbandonNeverBlocks` | internal/pool/pool.go:272-290 | A waiter abandon does not find in the queue always has its one grant waiting |
| `PoolRuns.NoOvertaking` | internal/pool/pool.go:183-219 | A step grants only to the head of the queue and lets a newcomer straight in only when nobody is queued |
| `PoolRuns.FirstComeFirstServed` | internal/pool/pool.go:143-178 | Over any run, while x stays queued and y behind it does not walk away, y is still queued behind x |
| `PoolRuns.ShutdownIff` | internal/pool/pool.go:385-409 | In every run that ends closed with every goroutine ended, each created resource was closed exactly once if and only if no Close returned early with idle resources in hand; in any case each was either closed once or dropped that way |
| `PoolRuns.CloseCanDrop` | internal/pool/pool.go:397-404 | A run of seven steps after which the only resource is never closed |
| `BxmlFormat.WriteLength` | internal/bxml/bxml.go:130-141 | One to four bytes, as many as the first one announces, the others continuation bytes |
| `BxmlFormat.ReadLength` | internal/bxml/bxml.go:103-127 | Refused exactly when the bytes its first one announces run past the end; reads just those, and a length below 0x200000 |
| `BxmlFormat.LengthRoundTrip` | internal/bxml/bxml.go:103-141 | Reading a written length gives it modulo 0x200000 |
| `BxmlFormat.ReadString` | internal/bxml/bxml.go:144-153 | A string read is the bytes that end where reading stops, fewer than 0x200000 |
| `BxmlFormat.StringRoundTrip` | internal/bxml/bxml.go:144-153 | A written string shorter than the limit is read back, whatever surrounds it |
| `BxmlDecoder.Decode` | internal/bxml/bxml.go:160-282 | The token loop computes the document, or reports it malformed, for every input |
| `BxmlDecoder.Child` | internal/bxml/bxml.go:82-92 | The first child of that name, none exactly when there is none |
| `BxmlDecoder.DecodedIsShort` | internal/bxml/bxml.go:160-282 | Whatever the input, no decoded string reaches 0x200000 bytes |
| `BxmlEncoder.Encoder.Ref` | internal/bxml/encode.go:21-32 | The name map stays the inverse of the reader's name list; a new name is declared before its reference |
| `BxmlEncoder.Encoder.Header` | internal/bxml/encode.go:34-40 | Appends the header token with its two strings |
| `BxmlEncoder.Encoder.Str` | internal/bxml/encode.go:42-46 | Appends a token and its string |
| `BxmlEncoder.Encoder.Elem` | internal/bxml/encode.go:83-105 | Appends the element with its attributes, content and children, and extends the table by the names they need |
| `BxmlEncoder.WriteEnvelope` | internal/bxml/encode.go:61-81 | Writes the envelope and leaves its seven names in the table |
| `BxmlEncoder.Encode` | internal/bxml/encode.go:112-120 | The document, refused exactly when a reference would not fit its byte |
| `BxmlRoundTrip.ReferenceLeads` | internal/bxml/bxml.go:189-195 | At a reference the reader's names become the writer's table |
| `BxmlRoundTrip.ElementLeads` | internal/bxml/bxml.go:176-277 | A printed element, whatever is open and whatever follows, adds exactly its normal form to the innermost open element and leaves the writer's table as the reader's names |
| `BxmlRoundTrip.EnvelopeLeads` | internal/bxml/encode.go:61-81 | The envelope opens abap and values under the document |
| `BxmlRoundTrip.PayloadOfAround` | internal/bxml/bxml.go:286-299 | The payload root is found under abap and values |
| `BxmlRoundTrip.RoundTripIff` | internal/bxml/encode.go:112-120 | Parsing an encoded tree gives its normal form (no text beside a body, absent contents empty) exactly when no string of that form reaches 0x200000 bytes |
| `BxmlRoundTrip.LongTextIsLost` | internal/bxml/encode.go:112-120 | A text of 0x200000 letters that is printed and not parsed back |
| `NiFrame.FrameDecoder.PeekPayloadLength` | ni/frame.go:177-197 | Reads the prefix of the flat buffer across any chunk boundaries; the inconsistent-queue error is unreachable |
| `NiFrame.FrameDecoder.Consume` | ni/frame.go:201-226 | Removes and returns the first bytes of the flat buffer, or fails exactly when it is shorter |
| `NiFrame.FrameDecoder.Compact` | ni/frame.go:231-248 | Never changes the flat buffer |
| `NiFrame.FrameDecoder.Wipe` | ni/frame.go:251-256 | Clears exactly the chunks in the range |
| `NiFrame.FrameDecoder.Push` | ni/frame.go:115-150 | Returns the frames of the buffer followed by the chunk and keeps the rest; fails exactly when a reached prefix advertises more than the limit |
| `NiFrame.FrameDecoder.Finish` | ni/frame.go:154-159 | Accepts exactly at a frame boundary |
| `NiFrame.FrameDecoder.Reset` | ni/frame.go:167-173 | Empties the buffer |
| `NiFrame.SeparateMore` | ni/frame.go:115-150 | Separating a stream in two goes is separating it in one |
| `NiFrame.ChunkingIndependence` | ni/frame.go:107-150 | However a stream is chunked, a push fails exactly when the whole stream reaches an excessive length, and otherwise payloads and leftover are those of the whole stream |
| `NiFrame.PushChunks` | ni/frame.go:107-150 | Pushing chunk after chunk into a fresh decoder gives the frames and leftover of the whole stream, or fails exactly when that reaches an excessive length |
| `NiFrame.StuckOnTooLarge` | ni/frame.go:111-114 | After the failure no further input gets past the advertised length |
| `NiFrame.FramesRoundTripIff` | ni/frame.go:64-73 | Encoded payloads come back in order with nothing left over exactly when none exceeds the limit |
| `Lz4.ReadRunLength` | internal/fastser/lz4.go:51-67 | The 255-chain loop gives the run length, and bails out only when the chain is cut or its total exceeds what is wanted |
| `Lz4.CopyMatch` | internal/fastser/lz4.go:112-118 | The byte-by-byte copy is the periodic extension of the last offset bytes, overlap included |
| `Lz4.DecompressBlock` | internal/fastser/lz4.go:39-125 | Succeeds exactly when the declarative decoding does and the size is in range, with output of exactly the wanted length and all input consumed |
| `Lz4Meaning.BlockDecodes` | internal/fastser/lz4.go:39-125 | Every well-formed sequence list, serialised per the block format, decodes to its meaning |
| `Lz4Meaning.Explained` | internal/fastser/lz4.go:39-125 | Every successful decoding is the meaning of a well-formed sequence list that serialises to the input |
| `Lz4Meaning.DecodesIff` | internal/fastser/lz4.go:39-125 | The answer is out exactly when the input serialises a well-formed block whose meaning is out and has the wanted length |
| `Lz4Meaning.DecodeCompressedAt` | internal/fastser/lz4.go:160-189 | Succeeds exactly when both sizes fit and the block decodes to the declared size; returns the data and the offset behind it |
| `AppcConversation.ConversationDecoder.PushRecord` | internal/appc/conversation.go:326-458 | One push is: pass over a foreign record between messages, refuse and change nothing, hold, or deliver the held records with this one |
| `AppcConversation.ConversationDecoder.CheckLimits` | internal/appc/conversation.go:485-493 | Accepts exactly what is within both limits |
| `AppcConversation.ConversationDecoder.ConcatChunks` | internal/appc/conversation.go:526-532 | The chunks end to end |
| `AppcConversation.ConversationDecoder.Finish` | internal/appc/conversation.go:496-501 | Accepts exactly when nothing is buffered |
| `AppcConversation.ObserveTruthful` | internal/appc/conversation.go:326-493 | A refused push changes nothing; an accepted one keeps held counters equal to the sums over the records accepted since the last delivery |
| `AppcConversation.FreshRunTruthful` | internal/appc/conversation.go:326-493 | Over every run counters and limits hold and each delivered message is the in-order concatenation of the records accepted since the delivery before, all of one conversation, sequence number and indices |
| `AppcSetup.ClientSetup.Sent` | internal/appc/conversation.go:141-187 | Advances exactly along the table of admitted sends and otherwise changes nothing |
| `AppcSetup.ClientSetup.Received` | internal/appc/conversation.go:190-234 | Advances exactly along the table of admitted replies and otherwise closes |
| `AppcSetup.ClientSetup.ResponseComplete` | internal/appc/conversation.go:131-138 | Ready exactly from a pending response, else closed |
| `AppcSetup.ClosedIsAbsorbing` | internal/appc/conversation.go:131-234 | No run leaves the closed state |
| `AppcPlan.PlanOutgoingDataFragments` | internal/appc/fragmentation.go:242-374 | Accepts exactly a compact packet with a matching tail or a larger one with streaming enabled, within the limits; the plan is one record, or the data slices and an empty terminator |
| `AppcPlan.PlanConcatenates` | internal/appc/fragmentation.go:333-372 | The planned slices concatenate to the message, none above 28000 bytes |
| `AppcPlan.BarrierEvery21` | internal/appc/fragmentation.go:151-183 | Any 22 consecutive records hold one that is not F_ASEND_DATA |
| `AppcPlan.PlanEncodes` | internal/appc/fragmentation.go:400-456 | Every step of a plan encodes, and the record's header and data say what the step says |
| `AppcPlan.AckAccepted` | internal/appc/conversation.go:46-90 | The canonical acknowledgement moves a pending barrier back to sending |
| `AppcPlan.WriteDataPlan` | internal/client/session.go:486-516 | Writes the steps up to the first failure, the records being the encodings in order |
| `AppcPlan.PlanRuns` | internal/client/session.go:486-516 | From ready, with a valid acknowledgement for every barrier, a plan never trips the state machine and ends in response-pending |
| `ResponseRecords.CutPieces` | internal/rfcserver/response_eclipse.go:231-240 | The slices of 28000 bytes with a short last one topped up from the one before |
| `ResponseRecords.PiecesFacts` | internal/rfcserver/response_eclipse.go:226-240 | The pieces concatenate to the response, hold at most 28000 bytes each, and the last of several at least 8 |
| `ResponseRecords.BuildEclipseRecord` | internal/rfcserver/response_eclipse.go:265-300 | Fills the buffer with every header field, the conversation id, the operation info and the data |
| `ResponseRecords.EclipseRecords` | internal/rfcserver/response_eclipse.go:226-251 | One framed record per piece: F_SAP_SEND first, F_RECEIVE after, only the last one final |
| `ResponseRecords.ResponseRecordsFor` | internal/rfcserver/response_eclipse.go:218-224 | Communication index zero and the caller's connection index |
| `ResponseRecords.SplitThenReassemble` | internal/rfcserver/response_eclipse.go:218-300 | Pushing the records of a response within the limits yields nothing until the last and then one message equal to the response with the identity the caller checks |
| `RequestSending.RequestIsPlanned` | internal/client/session.go:397-430 | An encoded request is planned exactly when it is compact or streaming is enabled and it is within the limit; data and tail are the encoded bytes |
| `Session.ReceiveMessage` | internal/client/session.go:435-484 | The receive loop: advance the state machine, reassemble, refuse a second message or leftovers, check identity, complete |
| `Session.ReplyDecided` | internal/client/session.go:463-479 | The checks for a second message and for leftovers never fire: a completed message is refused exactly for its address or the session's state |
| `Session.AnswerArrives` | internal/client/session.go:435-484 | An encoded answer, split and received, leaves the session ready with the very bytes, or still waiting exactly when it is over 256 MiB; the result is the server's answer exactly when that is within the limit and returnable |
| `ResponseRecords.RecordsOverflow` | internal/appc/conversation.go:485-493 | Of a response over the limits each record is held up to the one that crosses a limit, which is refused |
| `FieldChain.HeaderRoundTripIff` | internal/rfcpro/rfcpro.go:82-159 | A header has the computed length and is read back, whatever follows, exactly when its length is within the limit |
| `FieldChain.FieldChainByteLength` | internal/cpic/cpic.go:276-299 | The length of the chain, refused exactly when count, a field or the total exceeds its limit |
| `FieldChain.EncodeFieldChain` | internal/cpic/cpic.go:303-325 | Fills a buffer of exactly that length with the chained records |
| `FieldChain.ReadRecord` | internal/cpic/cpic.go:361-395 | One record: limits, predecessor tag, short or extended header, value; `ChainRoundTrip` and `DropDetectedIff` are its laws |
| `FieldChain.DecodeFieldChainRegion` | internal/cpic/cpic.go:345-407 | The decoding loop over a region or up to a terminal tag |
| `FieldChain.ChainRoundTrip` | internal/cpic/cpic.go:303-337 | Whatever the encoder takes, the decoder under the same limits gives back, all bytes consumed |
| `FieldChain.PrefixRoundTrip` | internal/cpic/cpic.go:341-407 | Prefix decoding stops right behind the first terminal tag whatever follows |
| `FieldChain.DroppedIsSlice` | internal/cpic/cpic.go:303-325 | Cutting a record out of the bytes leaves the records before it and those after it |
| `FieldChain.DropDetectedIff` | internal/cpic/cpic.go:367-370 | A dropped record is noticed exactly when it has a successor and its tag differs from its predecessor's |
| `FieldChain.DropUnnoticed` | internal/cpic/cpic.go:367-370 | Three fields of which the second can be dropped unnoticed |
| `LogonGrammar.GreedyIsComplete` | internal/cpic/grammar.go:95-119 | Where no optional tag reappears later, the greedy pass accepts exactly what some choice of optional coordinates reads |
| `LogonGrammar.RichGrammarHasNoReappearance` | internal/cpic/grammar.go:34-70 | The initial rich grammar meets that condition |
| `LogonGrammar.GreedCanFail` | internal/cpic/grammar.go:95-119 | A grammar without it that greed misreads |
| `LogonGrammar.MatchInitialRichGrammar` | internal/cpic/grammar.go:95-119 | Accepts exactly the readable field lists; the preamble ends at the response start, and the embedded tag is reported exactly when present |
| `ErrorEnvelope.DecodeStrictUtf16` | internal/rfcerr/rfcerr.go:194-224 | Strict UTF-16LE without NUL or unpaired surrogates, trailing blanks trimmed |
| `ErrorEnvelope.AddField` | internal/rfcerr/rfcerr.go:318-396 | One field of the pass: its own limit, single tags, running totals |
| `ErrorEnvelope.EndIndices` | internal/rfcerr/rfcerr.go:289-301 | End is accepted exactly when it stands once, last and empty |
| `ErrorEnvelope.Conclude` | internal/rfcerr/rfcerr.go:399-431 | The classification from the facts gathered so far, which `OrderIndependence` shows to depend on the body as a multiset |
| `ErrorEnvelope.Decode` | internal/rfcerr/rfcerr.go:254-450 | The one-pass decoder gives the verdict defined on totals, membership and facts of the whole body |
| `ErrorEnvelope.OrderIndependence` | internal/rfcerr/rfcerr.go:254-449 | Permuting the fields before End changes neither acceptance nor outcome, success control or any text fact |
| `CutNames.LooksBigEndian` | internal/rfcserver/request.go:388-399 | More pairs with the zero byte first than second |
| `CutNames.NameRoundTripIff` | internal/rfcserver/request.go:327-344 | A name is read back exactly when its zero bytes do not suggest big-endian, it has no unpaired surrogate and ends in neither blank nor NUL |
| `CutNames.PrintableSurvives` | internal/rfcserver/request.go:323-326 | Printable ASCII without trailing blanks always is |
| `CutFields.UnicodeBytes` | internal/cpic/cpic.go:226-236 | UTF-16LE, refused exactly when empty, too long, not valid text or holding NUL |
| `CutFields.EncodeUtf16Le` | internal/rfcserver/response.go:190-202 | One unit a character, everything beyond the basic plane as U+FFFD |
| `CutFields.WriteNamed` | internal/cpic/function.go:246-255 | A name and a value field per parameter, refused exactly when a name is |
| `CutFields.WriteTables` | internal/cpic/function.go:256-278 | Name, header and rows per table, refused exactly when a width, name or row is |
| `CutFields.WriteXml` | internal/cpic/function.go:279-295 | 16 KiB chunks between empty boundaries, refused exactly for an empty value or a bad name |
| `CutFields.AllDistinct` | internal/cpic/function.go:164-173 | True exactly when no name repeats |
| `CutRequest.EncodeCutFunctionRequest` | internal/cpic/function.go:177-308 | Accepts exactly distinct, fitting names, rows of the declared width, non-empty XML and a chain within the limits; prefix, chain and trailer |
| `CutRequest.FramingAgrees` | internal/cpic/function.go:88-121 | The trailer inspection picks compact or streamed exactly as the encoder did, never confusing the two |
| `CutServer.DecodeCutFunctionRequest` | internal/rfcserver/request.go:93-258 | The field loop with its pending halves computes the request, or refuses it |
| `CutServer.Take` | internal/rfcserver/request.go:157-239 | One field of that loop; its law is `CutRoundTrip.RequestDecodes` |
| `CutRoundTrip.RequestDecodes` | internal/rfcserver/request.go:93-258 | Decoding an encoded request gives outputs, imports, tables and rejoined XML in order, names as reread and XML under the documents' own names; refused exactly when that leaves no function name or a document has none |
| `CutRoundTrip.RequestRoundTripIff` | internal/rfcserver/request.go:93-258 | An accepted request comes back unchanged exactly when every name on the wire survives its encoding and every XML document carries its parameter's name |
| `CutRoundTrip.CallIsMisread` | internal/rfcserver/request.go:388-399 | A call of the function named U+0100 is accepted by the client and read as a call of U+0001 |
| `ClassicResult.LegibleIff` | internal/classicrfc/classicrfc.go:157-166 | A name the server wrote is read as itself exactly when it is non-empty, within the basic plane, free of control characters and does not end in a blank |
| `ClassicResult.DecodeSimpleCompressedRow` | internal/classicrfc/classicrfc.go:196-216 | A short row is filled with its last byte to the declared width; empty and long rows are refused |
| `ClassicResult.PreflightResultBytes` | internal/classicrfc/classicrfc.go:218-230 | Accepts exactly within the field and byte limits |
| `ClassicResult.PreflightTableBytes` | internal/classicrfc/classicrfc.go:232-296 | Accepts exactly when every named table is well-formed and their decoded bytes stay within the limits |
| `ClassicResult.DecodeResult` | internal/classicrfc/classicrfc.go:310-455 | The index walk groups the fields into outputs, scalars, tables and XML values, or refuses |
| `CutResponse.EncodeCutFunctionResponse` | internal/rfcserver/response.go:49-98 | Accepts exactly names of up to 30 UTF-8 bytes, rows of the declared width, non-empty XML and a chain within the limits |
| `CutResponse.EncodeCutFunctionExceptionResponse` | internal/rfcserver/response.go:206-223 | Accepts exactly a non-empty key within the limits |
| `CutResponse.DecodeFunctionResultFields` | internal/cpic/function.go:310-377 | Prefix, chain up to End, two-byte trailer, then the envelope's verdict |
| `CutResponseRoundTrip.AnswerIsReceived` | internal/cpic/function.go:310-377 | Every encoded answer is classified as success with the very fields that were sent |
| `CutResponseRoundTrip.ResponseRoundTripIff` | internal/classicrfc/classicrfc.go:310-455 | Scalars, tables and XML values come back in order and unchanged exactly when names are legible (basic plane, no control characters, no trailing blank) and distinct and tables with rows have a width |
| `CutResponseRoundTrip.SupplementaryIsReplaced` | internal/rfcserver/response.go:190-202 | An export named U+1D49C is accepted and comes back named U+FFFD |
| `CutResponseRoundTrip.ExceptionRoundTripIff` | internal/rfcserver/response.go:206-223 | An accepted exception response is reported as an ABAP exception with the same key exactly when the key is within the basic plane, has no NUL and no trailing blank and fits the text limit |
| `CutResponseRoundTrip.ExceptionReported` | internal/rfcserver/response.go:206-223 | For every key, what the client reports: the key as written without trailing blanks, or nothing |

## Left out

- Error texts, wrapping and paths: a refusal is a value; reason codes are kept in the type-graph and NI parts, elsewhere every refusal is the same.
- Snapshotting and budgets of `Normalize` (internal/metadata/recursive.go:199-478): text checks and byte accounting on the raw rows; the model starts from decoded rows.
- Normalizer.Normalize: parameters enter as the type names they make roots and the names they use as tables; their own checks in `provisionalParameters` and `finalParameters` (internal/metadata/recursive.go:678-928 and 1144-1172) are one branch per parameter class and would add easy members.
- Descriptions, decimals and component types of fields, which the normaliser only passes on.
- Map iteration order in the component loops: the model picks any order, so the results hold for all of them; the sorting of queue and targets adds nothing to the result.
- The loops of the schema renderer and of input coercion are recursion on values; scalar schemas and scalar coercion are parameters.
- `lastUsed` and cutoffs of the pool are integers chosen by each step; validation and creation outcomes, cancellation and timeouts are actions of the environment. Progress under a fair scheduler is not stated.
- Unclosed resources of the pool may exceed MaxSize for a while, because discard and eviction free the slot before closing; only idle + leased is bounded.
- Binary XML elements join their parent when they are closed instead of sharing a pointer while open, which no caller can observe; strings are byte sequences.
- `FindCompressed` and the heuristic scanners of internal/fastser.
- AppcPlan.PlanOutgoingDataFragments: optional header overrides other than conversation id and sequence number are not modelled, and the dry run of the encoder inside it, which cannot fail at that point, is omitted.
- AppcConversation.ConversationDecoder.PushRecord: the pending message is a value replaced on each push; the source's record is updated in place and never shared.
- Fixed-layout setup records, gateway records, logon, passwords, SAProuter, sockets, TLS, HTTP and the command-line tools.
- Strings are sequences of UTF-16 code units, so a Go string that is not valid UTF-8 is no value of the model; only the server's encoder would take one.
- The root element's name of an XML parameter and DEFLATE are functions supplied to `CutServer.DecodeCutFunctionRequest`.
- `DecodeFunctionRequest` for calls without the CUT prefix, and `EncodeCutFunctionResponseS4`.
- ClassicResult.DecodeResult: the S/4 table records 0x0333 and 0x0335 are refused in the model; the source reads them.
- ErrorEnvelope.Decode: provenance and the list of unresolved controls, which record positions and so do depend on order, are not part of the model's envelope.
- Integers are unbounded; 32-bit header fields wrap explicitly where the source converts to them.
