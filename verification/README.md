# Verified model of the parser core

hyperpb compiles Protobuf message types to tables and parses messages with a table-driven virtual machine. This
project models its algorithms in Dafny and proves what they are for. `dafny verify dfyconfig.toml` checks everything.

The modules follow the packages of the repository.

| Files | Subject |
|---|---|
| Graphs, Scc, SccInfo, SccExact | Tarjan's algorithm, the dependencies it records, and the analysis of required fields that relies on them |
| SwissCtrl, SwissProbe, SwissTable | the hash table: control words, probing, search, insertion, rehashing |
| Words, Bits, Base128, TagSwar, Tag, Utf8, Runes | word-at-a-time decoding of varints, tags and UTF-8 |
| Wrappers, Wire, Values, MapEntry, VmSpec | the wire format, values, map entries, and parsing as a recursive descent |
| VmRecords, VmFields, VmUnknown, VmLoop | the parser loop and the field parsers |
| Records, RecordValues, VmTrees | trees of records and how they are written, and that reading undoes it |
| VmMeaning, VmRoundTrip | what a message means, and that parsing a tree leaves messages that mean it |
| VmSlots, VmValues, VmContents | what the slots of messages lead to and hold, also where a oneof shares them; lists, maps and bits |
| Schedule, Codegen, Layout | parser control flow, parser tables and struct layout |
| ArenaSize, Arena, ArenaSlice, Numbers, ArenaNumbers, ArenaRun | the bump allocator, its slices, and runs of both |
| VarintCount, Repeated, MapField, RepeatedMessage | repeated, map and repeated message fields |

Three reference definitions carry the main results. `Scc.Decomposes` says what a decomposition into strongly connected
components is. `VmSpec.Walk` is parsing as a recursive descent over records, with the values it stores; the loop, its
stack, its predictions and its shortcuts are proved to take the same steps. `Utf8.WellFormed` is the grammar of RFC
3629, section 4. Finite maps (`Table.View`), sequences (`Field.List`, `List.Addresses`), live regions (`Arena.live`)
and what a run of operations writes (`ArenaRun.ApplyAll`) do the same for the data structures.

The reference definitions of parsing are themselves pinned by round trips with a writer that knows nothing of reading.
`Records.Write` writes a tree of records by the encoding rules, with varints minimal or not; `VmMeaning.Means` says what
messages mean a tree. `VmRoundTrip.RoundTrip` and `VmRoundTrip.EveryParse` say that parsing what was written for a tree
leaves messages that mean it, and that nothing else is parsed. `Runes.TextExact` does this for UTF-8, and
`ArenaRun.RunKeepsAll` says what a run of operations leaves.

Where the code does less than it should or than its comments say, the model follows the code:

- The members of a oneof share one slot (internal/tdp/compiler/ir.go:133-147). A message member is entered through
  whatever address is in the slot: `parseOneofMessage` writes the which-word without reading it
  (internal/tdp/thunks/oneof.go:285-288), and `parseMessage` allocates only if the slot is zero
  (internal/tdp/thunks/singular.go:345-352). After another message member, its message is parsed into, by its parser;
  after a number, the number is taken for an address. `VmSlots.WrongParser` shows both. `VmSlots.AgreesExactly` says
  when parsing is right: exactly if no message field shares its slot, and then `VmLoop.RunKeepsOneofs` holds.
- The dependency list of a component is rebuilt for each of its members (internal/scc/scc.go:174-179), so only the
  last member's edges are kept. `SccInfo` says exactly when that loses a dependency, shows a graph where it does, and
  that a required field is then missed. `SccExact.RightExactly` says on which graphs none is ever missed.
- `matches` (internal/swiss/ctrl.go:85-92) can flag a byte above a true match. `SwissCtrl.MatchesExact` says which, and
  `SwissTable.FlaggedIsOccupied` that it does no harm.
- A varint's tenth byte is read without a check of the end (internal/tdp/vm/varint.go:155), and tags of ten bytes are
  refused even where their value would fit (internal/tdp/vm/run.go:505-514). If that byte lies right after the end, a
  length prefix of any size is accepted (internal/tdp/vm/vm.go:294), as `VmRecords.LengthPrefix` states.
- After eight bytes of a tag that continue, `checkLargeVarint` reads and consumes a ninth without a check of the end
  (internal/tdp/vm/run.go:505-511). `Tag.ReadsPastEnd` has the input on which the tag then ends after the message.
- A repeated bool keeps the low byte of its varint (internal/tdp/thunks/repeated.go:155-162), a singular one whether
  the varint is zero. `Repeated.BoolsExact` says when they agree, and `Repeated.BoolLost` where they do not.
- A slice that grows to 4 GiB or more records a capacity of zero (internal/arena/slice/slice.go:196).

`Layout.DoLayout` ends both regions on a multiple of 8, which is what `Arena.AllocMessage` and repeated messages demand
of the size of a message. `Codegen.Compile` establishes the agreement of tables that `VmRecords.Dispatch` demands.

## Model

| member | source | states |
|---|---|---|
| Scc.Sort | internal/scc/scc.go:49-61 | For every finite graph and root: the keys are exactly the nodes the root reaches, each in exactly one component; two nodes share a component iff each reaches the other; every edge goes to the same or an earlier component; the recorded deps are those of the last member |
| Scc.Tarjan.Rec | internal/scc/scc.go:127-187 | One visit keeps the invariant of the search and terminates on the set of unvisited nodes; a node whose low is its index leaves the stack as a whole component |
| Scc.Tarjan.Emit | internal/scc/scc.go:155-184 | Popping the stack down to an offset appends one component with those members and the deps of the last of them |
| Scc.Tarjan.CollectDeps | internal/scc/scc.go:166-179 | The deps of one member: the sorted indices of the earlier components its edges lead to; the set used to build them is left empty |
| Scc.RootIsClosed | internal/scc/scc.go:155-160 | When index equals low, no edge leaves the nodes above the root for another active node, so they reach nothing but themselves and finished components |
| Scc.MemberReachesRoot | internal/scc/scc.go:140-160 | Every node above a root on the stack reaches the root |
| Scc.EmittedInv | internal/scc/scc.go:155-184 | Emitting a component keeps every clause of the invariant of the search |
| Scc.AfterCall | internal/scc/scc.go:141-147 | Lowering by the result of a visit keeps the invariant |
| Scc.AfterBackEdge | internal/scc/scc.go:149-152 | Lowering by the index of a node on the stack keeps the invariant |
| Scc.RootComponent | internal/scc/scc.go:140-160 | Once all edges of a root were followed, the stack from it on is one class of mutual reachability whose edges lead into itself or finished components |
| SccInfo.DepsSound | internal/scc/scc.go:161-183 | Every recorded dep is the index of an earlier component that a member has an edge into |
| SccInfo.DepsCompleteIff | internal/scc/scc.go:161-183 | The recorded deps are all the earlier components the members lead to iff the last member leads to all of them; always so for a single member |
| SccInfo.CycleLosesDep | internal/scc/scc.go:174-179 | Counterexample: on the graph 0 -> 1, 0 -> 2, 1 -> 0 the edge to 2 is not recorded, because the list is rebuilt for every member |
| SccInfo.NewSccInfo | internal/tdp/compiler/ir.go:114-130 | A component has required fields iff a recorded dep has or a member has |
| SccInfo.ComputeRequired | internal/tdp/compiler/compile.go:115-116 | The pass in topological order gives each component the answer that recorded deps lead to |
| SccInfo.RequiredSound | internal/tdp/compiler/ir.go:114-130 | A positive answer for a type is right: it reaches a type with a required field |
| SccInfo.RequiredExact | internal/tdp/compiler/ir.go:114-130 | The answers are right for every placement of required fields iff recorded deps lead to the component of every edge |
| SccInfo.CompleteDepsCover | internal/tdp/compiler/ir.go:117-120 | Complete deps, such as those of single-member components, lead to the component of every edge |
| SccExact.RightExactly | internal/tdp/compiler/ir.go:114-130 | A condition on the graph alone: the answers are right on every correct decomposition and for every placement of required fields iff every node that may be last in its component leads on, by edges that leave the component, to all that the component has edges to; a root that is not alone in its component is never last |
| SccExact.SameExitsRight | internal/tdp/compiler/ir.go:114-130 | The answers are always right where what one node of a cycle has an edge into, outside it, all its nodes do |
| SccExact.AcyclicRight | internal/scc/scc.go:161-183 | The answers are always right on graphs without cycles of two or more types |
| SccInfo.CycleMissesRequired | internal/tdp/compiler/ir.go:114-130 | Counterexample: on the same graph a required field of node 2 is missed for node 0 |
| SwissCtrl.MatchesExact | internal/swiss/ctrl.go:85-92 | A byte is flagged iff it equals the needle, or differs from it by 0x01 right above a flagged byte |
| SwissCtrl.FirstExact | internal/swiss/ctrl.go:102-107 | first is exact: the lowest byte equal to the needle, or 8 |
| SwissProbe.LoadFactorExact | internal/swiss/table.go:478-492 | The hard cap is a power of two divisible by 8, the soft cap is 7/8 of it, and holds the given number of entries |
| SwissProbe.TriangleInjective | internal/swiss/ctrl.go:52-62 | Triangular numbers of different indices below a power of two differ modulo it |
| SwissProbe.ProbesCover | internal/swiss/ctrl.go:39-65 | From any start, the first hard/8 windows cover every slot |
| SwissProbe.ProbesDistinct | internal/swiss/ctrl.go:39-65 | No two of the first hard/8 probes start in the same place |
| SwissTable.H2SignBit | internal/swiss/hash.go:38 | The control byte of a key has its high bit set, and so does the byte that may be flagged in its stead |
| SwissTable.VacantWindow | internal/swiss/table.go:350-354 | One of the first hard/8 windows has an empty slot, so a search ends |
| SwissTable.KeyIsFlagged | internal/swiss/table.go:361-363 | A key in the window that is probed is flagged, also in the mirrored tail |
| SwissTable.FlaggedIsOccupied | internal/swiss/table.go:366-372 | A flagged slot is occupied, so no key is read from an empty slot |
| SwissTable.Table.Search | internal/swiss/table.go:338-391 | Finds the slot of a key iff it was inserted, and otherwise an empty slot where it belongs |
| SwissTable.Table.Lookup | internal/swiss/table.go:217-235 | The value that the represented map has for the key |
| SwissTable.Table.Insert | internal/swiss/table.go:242-273 | Refuses iff the table is at its soft cap; otherwise returns the slot of the key, new or not, keeps all other entries, and counts a new one |
| SwissTable.Table.All | internal/swiss/table.go:281-310 | Every entry once, and nothing else, stopping as soon as all were seen |
| SwissTable.Table.CopyFrom | internal/swiss/table.go:131-202 | Rehashing under another seed represents the same map |
| Base128.ParseVarint | internal/tdp/vm/varint.go:26-176 | The exact outcome on every input that is not empty: value and position, truncation before each of bytes two to nine, overflow at the tenth, which is read unchecked |
| Base128.ParseExact | internal/tdp/vm/varint.go:26-176 | On every varint of at most ten bytes and 64 bits, overlong or not, the base-128 value and the length |
| Base128.ParseEncode | internal/tdp/vm/varint.go:26-176 | Round trip: parsing the canonical encoding of any 64-bit value, wherever it stands, gives back the value and its length |
| TagSwar.TagBitsExact | internal/tdp/vm/run.go:228-233 | The count of trailing zeros finds the terminator of a tag of up to eight bytes |
| TagSwar.MaskedByte | internal/tdp/vm/run.go:220-237 | Byte by byte, the masked word is the groups of seven bits, and zero past the terminator |
| Tag.Decode | internal/tdp/tag.go:42-65 | Gathers the five lowest groups of seven bits |
| Tag.DecodeEncodeTag | internal/tdp/tag.go:34-65 | Decode inverts EncodeTag for every field number and wire type |
| Tag.OverflowsExact | internal/tdp/tag.go:79-83 | A tag overflows iff its value needs more than 32 bits |
| Tag.SpreadInjective | internal/tdp/vm/run.go:273 | Tag words are equal iff the tags are |
| Tag.ReadTagMeans | internal/tdp/vm/run.go:205-256 | On every input the loop reads the value of the varint, one group to a byte, or fails as TagAt says: truncated if its bytes, up to eight, go past the end; overflowing if eight bytes continue, unless the eighth is 0x80 and a zero follows |
| Tag.ReadTagExact | internal/tdp/vm/run.go:205-256 | Every tag below 2^32 in up to nine bytes is read as its value, one group to a byte, with the right length |
| Tag.ReadTenFails | internal/tdp/vm/run.go:496-517 | A tag of ten bytes is always refused, although parseVarint would accept some |
| Tag.ReadsPastEnd | internal/tdp/vm/run.go:505-511 | Eight continuing bytes right before the end, the last of them 0x80: a zero byte after the end is taken as part of the tag |
| Utf8.RuneBytesForBits | internal/tdp/vm/utf8.go:31-41 | The table holds the encoded length of every rune of the given bit length, 0 beyond the range |
| Utf8.AsciiCountExact | internal/tdp/vm/utf8.go:101-109 | The masked word counts the ASCII bytes before the first other byte |
| Utf8.RuneExact | internal/tdp/vm/utf8.go:120-179 | The verdict on a wide rune is that of the grammar of RFC 3629, section 4: no bad tail, overlong form, surrogate or value above U+10FFFF |
| Utf8.VerifyRunes | internal/tdp/vm/utf8.go:95-197 | The decoding loop accepts iff the rest is well formed |
| Utf8.VerifyUTF8 | internal/tdp/vm/utf8.go:48-198 | Accepts n bytes iff they are well-formed UTF-8, returns exactly their range, and loads at most seven bytes past the end |
| Runes.TextExact | internal/tdp/vm/utf8.go:48-198 | What is well formed: exactly the encodings, as section 3 of RFC 3629 defines them, of sequences of code points up to U+10FFFF that are no surrogates |
| VmRecords.VarintMeets | internal/tdp/vm/varint.go:26-176 | On a varint that ends in time parseVarint returns the value and the end that the reference gives |
| VmRecords.LengthPrefix | internal/tdp/vm/vm.go:284-298 | Success before the end iff there is a length and that many bytes, as the reference reads them; success past the end iff the tenth byte of the length lies right after the end; otherwise the error of the length, or truncation if it exceeds what is left |
| VmRecords.Dispatch | internal/tdp/vm/run.go:205-366 | On every input, whatever parser is predicted and however many misses are allowed: the error of a tag that cannot be read; the unique parser with the tag; overflow iff no parser has the tag and it needs more than 32 bits; otherwise the unknown path with its number |
| VmRecords.TagStart | internal/tdp/vm/run.go:417-424 | From the end of any nonzero tag, minimal or overlong, the backward scan lands on its first byte |
| VmRecords.SkipRecord | internal/tdp/vm/run.go:449-494 | Skips exactly the body of a well-formed record: whatever body the encoding rules write for the tag, it ends where that writing ends |
| VmRecords.SkipGroup | internal/tdp/vm/run.go:469-485 | Skips exactly the records of a group and its end tag, whatever records are written in it |
| Records.BodyRead | internal/tdp/vm/run.go:449-494 | Where a body ends does not depend on how it is read: a varint, four or eight bytes, a length and bytes, or a group of records and its end tag, in groups nested within the limit, end where they were written to |
| Records.BodyOf | internal/tdp/vm/run.go:449-494 | And every body that has an end is the writing of one |
| VmFields.ParseValue | internal/tdp/thunks/singular.go:263-335 | Singular values, exactly as the reference reads them, with text refused iff it is not UTF-8. Whatever is written for the kind is read to its end as what it stands for: the number, truncated, in two's complement from zigzag order or little endian; for bytes and text a word that says where they start and how long they are |
| Values.ZigZagExact | internal/zigzag/zigzag.go:28-38 | Zigzag decoding gives back every signed number of 32 or 64 bits, in two's complement |
| VmFields.ParseEntry | internal/tdp/thunks/map.go:847-906 | The fast path and the loop read the same entry, refused iff text is not UTF-8. Whatever records are written for an entry, the last key and the last value are read; so a key and a value in either order are that key and that value |
| RecordValues.KeyAndValue | internal/tdp/thunks/map.go:847-906 | What is written for a key of field 1 and a value of field 2, each with the wire type of its kind, in either order, is an entry with that key and that value |
| RecordValues.EntryRead | internal/tdp/thunks/map.go:847-906 | An entry that was written, with any records in any order, is read: its last key and its last value |
| RecordValues.KeyMeans | internal/tdp/thunks/map.go:908-937 | Keys are compared by what they stand for: the bytes that were written, wherever they are, or the number |
| VmUnknown.WalkInOrder | internal/tdp/vm/run.go:433-444 | Every parse meets unknown records in stream order |
| VmUnknown.StoredIsSeparated | internal/tdp/vm/run.go:433-444 | The stored ranges of a message are increasing, disjoint and never adjacent |
| VmUnknown.StoredKeepsBytes | internal/tdp/vm/run.go:437-442 | Joining adjacent ranges loses nothing: their bytes are the unknown records of the message, in stream order |
| VmUnknown.UnknownOfParse | internal/tdp/vm/run.go:412-447 | Both of these, after any whole parse |
| VmSpec.ElisionHarmless | internal/tdp/vm/vm.go:350-354 | Eliding frames changes nothing of any parse, however it ends, that stays within the depth limit without |
| VmLoop.Machine.LeaveMessage | internal/tdp/vm/run.go:392-400 | Popping leaves the rest of the parse as it was, or ends the parse with the last frame; the stack is never empty before |
| VmLoop.Machine.EnterMessage | internal/tdp/thunks/singular.go:339-353 | A message field after its length, empty or not: the message its slot leads to, with the type that message has, or a new one, and its frame. The rest of the parse is that of the recursive descent, whose steps RoundTrip gives; it fails iff that is too deep or the slot holds a number |
| VmLoop.Machine.Descend | internal/tdp/vm/vm.go:342-368 | Entering a submessage, with or without a frame, leaves the rest of the parse that the recursive descent has; it fails iff that is too deep |
| VmLoop.Machine.ParseField | internal/tdp/vm/run.go:286-308 | Running the parser of a field stores what it reads, in a slot, a list, a map or a bit, consumes its record and leaves the rest of the parse; it fails iff and as the recursive descent does |
| VmLoop.Machine.HandleUnknown | internal/tdp/vm/run.go:412-447 | Skips one unknown record and, unless it is to be discarded, stores its range, joined to the last one if adjacent; the rest of the parse is that of the recursive descent, whose unknown bytes RoundTrip gives |
| VmLoop.Machine.SkipUnknowns | internal/tdp/vm/run.go:353-389 | Skips records up to one with a known tag, which is left unread, or to the end |
| VmLoop.Machine.Loop | internal/tdp/vm/run.go:158-406 | The loop ends, having taken exactly the steps of the recursive descent and stored the values and unknown ranges these call for, or having failed iff and as that fails; each round consumes input or pops a frame |
| VmLoop.Run | internal/tdp/vm/run.go:71-155 | On every buffer that the recursive descent does not find malformed: the same steps, messages, values and unknown ranges; or the failure it has: nested too deep, text that is not UTF-8 or a packed record of odd length, a number taken for the address of a message |
| VmRoundTrip.RoundTrip | internal/tdp/vm/run.go:158-447 | Round trip: parsing what is written for any tree of records that its types admit takes exactly one step for each record, in stream order, unknown ones only where they are kept, and leaves messages that mean the tree; a tree that nests deeper than allowed is too deep. Every slot has the value of its last record, every list an element for each that was written and a new message for each submessage, also an empty one, every map the last value of each key, every submessage all the records of its field, and the unknown bytes are those that were written |
| VmRoundTrip.EveryParse | internal/tdp/vm/run.go:158-447 | The converse: whatever is parsed is what is written for some tree, and the parse means that tree |
| VmRoundTrip.ApplyAlong | internal/tdp/vm/run.go:286-447 | What every record keeps: each message means the records parsed into it so far, and with those still to come it will mean all of its own; no message is in two places |
| VmTrees.KnownRead | internal/tdp/thunks/singular.go:263-335 | A field parser reads a body it admits to its end, and what it reads stands for that body: number, range, list or entry |
| VmLoop.RunKeepsOneofs | internal/tdp/vm/run.go:71-155 | If no message field shares its slot, the outcome is what oneofs demand, and no number is ever taken for an address. What is written for a tree is parsed into messages that mean it, in one step a record, or it is too deep; whatever is parsed was written for a tree; and the unknown ranges stored for a message hold the bytes of its unknown records |
| VmSlots.AgreesExactly | internal/tdp/thunks/oneof.go:285-288 | The parser does what oneofs demand on every input iff no message field shares its slot with another field |
| VmSlots.WalkAgrees | internal/tdp/thunks/singular.go:345-352 | Without shared slots every field finds the submessage it stored before, with the type of the field, at every point of every parse |
| VmSlots.ClashDiffers | internal/tdp/thunks/oneof.go:285-288 | Counterexample: for any two fields that share a slot, the second a message, two short records on which the parser enters another message than oneofs demand |
| VmSlots.WrongParser | internal/tdp/thunks/singular.go:345-352 | And what happens on such records: the contents of the second message are parsed into the message of the first, by its parser; after a number, the number is taken for an address |
| VmSlots.SharedByOneof | internal/tdp/compiler/ir.go:133-147 | The layout lets field parsers share a slot iff they are of one field or of members of one oneof |
| VmValues.LastWins | internal/tdp/thunks/oneof.go:215-283 | After any parse, the slot of a number or range loads the value of its last record, the which-word of a slot names the field of the last record that used it, and unused slots are zero |
| VmValues.AllGathered | internal/tdp/thunks/repeated.go:232-555 | After any parse, every list holds the elements of all its records, packed or not, or its messages, in stream order; every map the last value of each key; every presence bit and bool what the last record made of it |
| VmContents.VarintList | internal/tdp/thunks/repeated.go:232-411 | Those lists are what the repeated field makes of the records that the parse met, each of which it accepts: varints |
| VmContents.FixedList | internal/tdp/thunks/repeated.go:413-517 | The same for numbers of a fixed size |
| VmContents.MapEntries | internal/tdp/thunks/map.go:843-937 | Those maps are what the map field makes of the records that the parse met, with keys compared by what they stand for |
| Schedule.SortedBySide | internal/tdp/compiler/ir.go:290-301 | The stable sort lists every parser once: hot ones first, each side in field order |
| Schedule.Next | internal/tdp/compiler/ir.go:329-370 | A retrying parser leads to itself; any other to the first parser or to a hot one for another field or oneof; with contiguous oneofs, to the next such parser after its field |
| Schedule.FirstFollows | internal/tdp/compiler/ir.go:340-369 | With contiguous oneofs the search stops at the very next parser that is hot and for another field |
| Schedule.NoneFollows | internal/tdp/compiler/ir.go:355-362 | Running into the cold section means that no such parser exists |
| Schedule.Schedule | internal/tdp/compiler/ir.go:278-370 | Order and successors of all parsers; every successor is a valid index |
| Codegen.WriteLUT | internal/tdp/compiler/compile.go:472-488 | Each byte of the table is the last entry for that tag whose index fits, and 0xff without one |
| Codegen.Codegen | internal/tdp/compiler/compile.go:334-407 | The parser table, the tag table and the table for small tags agree, as the parser needs, iff no two parsers expect the same tag; small tags are found in the table whenever the index fits |
| Codegen.Compile | internal/tdp/compiler/compile.go:118-122 | From fields to tables: the same, and every parser of every field is reachable by its tag |
| Codegen.RingCovers | internal/tdp/compiler/compile.go:348-351 | NextErr is one ring: from any parser each one is reached exactly once before it comes back |
| Layout.Group | internal/tdp/compiler/ir.go:134-147 | Two fields share a slot iff they are members of one oneof |
| Layout.StableSort | internal/tdp/compiler/ir.go:170-180 | A stable sort by side and falling alignment, as a rearrangement of the slots |
| Layout.Place | internal/tdp/compiler/ir.go:197-247 | All slots are apart, in their regions and words, and no region wastes more than seven bytes a slot |
| Layout.StartExact | internal/tdp/compiler/ir.go:223-226 | The offset of a cold field is recovered by complement, and no offset is truncated |
| Layout.DisjointAt | internal/tdp/compiler/ir.go:197-247 | Members of a oneof share storage; other fields share no byte, presence bit or which-word |
| Layout.DoLayout | internal/tdp/compiler/ir.go:133-270 | Unless it panics, which it does iff a region outgrows 32-bit offsets: every field has an aligned range, disjoint from those of other slots, the header and the words; bits and which-words do not overlap and stay in bounds; regions are multiples of 8; a slot is on the hot side, with offsets from zero on, iff its fields are hot, and each side holds its slots by falling alignment, in order |
| ArenaSize.SuggestExact | internal/arena/alloc.go:30-43 | The least power of two from 64 on that is large enough |
| ArenaSize.SizeRecomputed | internal/arena/slice/slice.go:278-285 | The size recomputed from the capacity of a slice is the size allocated, for every element size |
| ArenaSize.GrownCapExact | internal/arena/slice/slice.go:195-197 | The capacity that Grow records is right iff the new size is below 4 GiB, and 0 otherwise |
| Arena.GrowsBeyond | internal/arena/alloc.go:45-53 | A block of at least twice the last cap is larger than every block held, so none is handed out twice |
| Arena.TotalBound | internal/arena/alloc.go:30-70 | All blocks together are less than twice the largest |
| Arena.LastRegion | internal/arena/slice/slice.go:170-178 | Only the most recent region ends at Next: blocks are kept apart by the pointer after each |
| Arena.NewBlockApart | internal/arena/alloc.go:45-70 | A new block overlaps no live region |
| Arena.Arena.Grow | internal/arena/arena.go:171-181 | A new, larger block, at least twice the last; live regions are untouched |
| Arena.Arena.Alloc | internal/arena/arena.go:105-124 | A zeroed, aligned region, apart from all live ones and inside its block; a new block is taken iff it does not fit |
| Arena.Arena.AllocMessage | internal/tdp/vm/message.go:93-124 | The same for a message: header stored, fields zero |
| Arena.Arena.AllocAll | internal/arena/arena.go:105-124 | A run of allocations whose rounded total fits never calls Grow; each starts where the ones before it end |
| Arena.Arena.Reserve | internal/arena/arena.go:128-132 | Afterwards the given number of bytes fits |
| Arena.Arena.Free | internal/arena/arena.go:140-166 | Only the largest block is kept, zeroed and wholly free |
| ArenaRun.World.Run | internal/arena/arena.go:105-124 | Over any run of Alloc, AllocMessage, Make, Append, Grow and added messages on any number of slices and lists, up to one for which there is no memory: every slice holds all that was appended to it and zeros after, every list its messages at the addresses they were given, every block its bytes, each in live regions of its own |
| ArenaRun.RunKeepsAll | internal/arena/arena.go:105-124 | What a run leaves: every list all its messages in order, every slice all the bytes that were appended to it, every block that was handed out |
| ArenaRun.MadeKeepsAll | internal/arena/slice/slice.go:55-63 | A slice that was made anew holds its zeros and all that was appended since |
| ArenaRun.World.RegionsApart | internal/arena/arena.go:105-124 | The regions of different slices, lists and blocks do not overlap, nor do they reach what is still to be handed out |
| ArenaSlice.Make | internal/arena/slice/slice.go:55-63 | Zeroed memory that the capacity accounts for |
| ArenaSlice.Realloc | internal/arena/slice/slice.go:164-193 | Either of these: in place only for the most recent region |
| ArenaSlice.Grow | internal/arena/slice/slice.go:152-198 | Room for n more elements; contents survive in order; the capacity is right iff the new size is below 4 GiB; every other live region stays as it is |
| ArenaSlice.SliceSteady | internal/arena/slice/slice.go:164-193 | A slice keeps its memory, its elements and the zeros after them whatever another slice does |
| ArenaSlice.Append | internal/arena/slice/slice.go:121-149 | The new elements follow the old ones wherever the slice moves, and zeros stay zeros after them; every other live region stays live, where it is, with its contents; the slice stays in its region or moves to a new one; without growth it stays |
| VarintCount.EndsExact | internal/tdp/thunks/repeated.go:287-310 | A packed record holds as many varints as bytes that end one |
| VarintCount.CountVarints | internal/tdp/thunks/repeated.go:287-310 | The count, a word at a time, is exact |
| VarintCount.AllOneByte | internal/tdp/thunks/repeated.go:316-324 | When every byte ends a varint the values are the bytes |
| Repeated.StatesApart | internal/arena/slice/slice.go:249-271 | One address word tells empty, borrowed and arena memory apart by zero and the sign bit, and flipping all bits gives the borrowed address back |
| Repeated.DecodeSmall | internal/tdp/thunks/repeated.go:357-368 | The loop for one-byte varints stores the values of the record in arena memory after the elements there, inside the capacity, and changes nothing else |
| Repeated.DecodeMixed | internal/tdp/thunks/repeated.go:369-389 | The loop with shortcuts for one and two bytes stores the same |
| Repeated.DecodeLarge | internal/tdp/thunks/repeated.go:390-403 | The plain loop stores the same |
| Repeated.Field.Prepare | internal/tdp/thunks/repeated.go:314-346 | An arena slice with room for the new elements that holds the old ones, in place, grown or spilled; no other live region changes |
| Repeated.Field.Spill | internal/tdp/thunks/repeated.go:328-338 | Leaving the input keeps the list, in a new region |
| Repeated.Field.ParsePackedVarint | internal/tdp/thunks/repeated.go:277-411 | The list grows by the values of the record, truncated to the element type, unless memory is lacking; the field moves only from empty to borrowed to arena; no other live region changes |
| Repeated.Field.ParseRepeatedVarint | internal/tdp/thunks/repeated.go:232-269 | The list grows by the truncated value of the record, or nothing changes for want of memory |
| Repeated.Field.ParseAllVarints | internal/tdp/thunks/repeated.go:232-411 | Over any run of packed and single records in any mixture, from any state, up to one for which there is no memory: the list grows by their values in order, the stage never goes back, and no other live region changes |
| Repeated.Field.ParseRepeatedFixed | internal/tdp/thunks/repeated.go:413-454 | The list grows by the number; the record is cut short iff fewer bytes are left, and then nothing changes |
| Repeated.Field.ParsePackedFixed | internal/tdp/thunks/repeated.go:460-517 | The list grows by the numbers of the record, which an empty field borrows; it fails iff the length is not a multiple, and then nothing changes |
| Repeated.Field.ParseAllFixed | internal/tdp/thunks/repeated.go:413-517 | Over any run of packed and single records of fixed-size numbers, up to one that is cut short or for which there is no memory: the list grows by the little-endian numbers in order, the stage never goes back, and no other live region changes |
| Repeated.Field.Get | internal/tdp/repeated/scalars.go:55-63 | Element n of the list, borrowed or on the arena |
| Repeated.BoolsExact | internal/tdp/repeated/bools.go:44-47 | A repeated bool keeps the low byte of each varint: its elements are those of singular bools iff no varint but zero is a multiple of 256 |
| Repeated.BoolLost | internal/tdp/thunks/repeated.go:155-162 | Counterexample: the varint 256 becomes false |
| MapField.Field.Enlarged | internal/tdp/thunks/map.go:924-929 | The larger table has the same entries under any fresh hash, and room for one more |
| MapField.Field.Put | internal/tdp/thunks/map.go:908-933 | The map with the entry set, through a table under any fresh hash if the old one refuses; the second Insert never does; panics iff Layout does, and then the map is unchanged |
| MapField.Field.ParseRecord | internal/tdp/thunks/map.go:843-937 | One whole record: the key and value it holds are set in the map, and the position is its end; it fails iff a key or value is not UTF-8 |
| MapField.Field.ParseAll | internal/tdp/thunks/map.go:843-937 | Over any run of records up to one that fails, through any number of growths and any seeds: the map of the last value of each key; a panic only with more keys than any table may hold |
| RepeatedMessage.SpillRoom | internal/tdp/thunks/repeated_message.go:141 | Twice the room of the inline slice is room for its messages and one more |
| RepeatedMessage.List.Get | internal/tdp/repeated/messages.go:55-66 | The address of the n-th message in either layout |
| RepeatedMessage.List.AllocInPlace | internal/tdp/thunks/repeated_message.go:87-93 | The next message of the slice; its fields are zero, and the others are untouched |
| RepeatedMessage.List.Spill | internal/tdp/thunks/repeated_message.go:135-154 | The spill keeps all addresses in order, in a new arena slice with room for the next one, and changes no live region |
| RepeatedMessage.List.AllocOutlined | internal/tdp/thunks/repeated_message.go:96-114 | A message of its own, apart from all others, and its address at the end of the slice, which grows if it is full; only that slice changes |
| RepeatedMessage.List.Alloc | internal/tdp/thunks/repeated_message.go:62-115 | One more address at the end of the list; no earlier one changes or moves, nor does a message, nor any live region but the own slice of the list; the list spills exactly when the slice is full; without memory there is no more message |

## Left out

- Known group fields: entering a group reads a register that dispatch through the tag table has cleared, so they have no clean specification; endGroup is always unset in the model. Groups inside unknown records are included.
- VmLoop.Run: says nothing of input with malformed records, varints or lengths, at the level of a whole parse; text that is not UTF-8 and packed records of odd length are included. The outcome of parseVarint, of a length prefix and of UTF-8 validation is exact on all input.
- VmLoop.Machine.EnterMessage: what the parser does once it has taken a number for the address of a message is not modelled; a slot that was overwritten in part is always counted as such a number.
- VmRoundTrip.RoundTrip: where message fields share slots, this is the parse that heeds the which-words, from which the parser departs as VmSlots.WrongParser says; for the parser itself it is stated where none does, in VmLoop.RunKeepsOneofs.
- The parser loop and the arena are not one state: the lists and maps of a parse are values in VmSpec. VmContents shows what Repeated and MapField make of the same records; for lists of messages, strings and bytes there is no such lemma.
- Message-valued maps (`parseMapKxM`) and the parser for map entries: the fast path compares against a tag of field 1 for the value.
- VmFields.ParseEntry: the skipping of unexpected records, protowire.ConsumeFieldValue, is a parameter, as that library is not part of this model.
- Repeated.Field.ParsePackedVarint: slices must stay below 4 GiB, where GrownCapExact shows that capacities go wrong; reaching that counts as lacking memory.
- SwissTable.Table.CopyFrom: the smaller table is read as sequences of control bytes, keys and values; hash values are an arbitrary function of the key. Tables are arrays of their own, not arena memory.
- Layout.DoLayout: alignments are those of Go types on 64-bit machines, oneofs are contiguous as protoc lists them, and a slot of alignment 0, which no archetype has, gets no storage.
- Schedule.Next: without contiguous oneofs, as when an extension shares an index with a field, it is only stated that the successor is the first parser or a hot one for another field or oneof.
- Codegen.Codegen: parsers for known groups are excluded; tables are keyed by the unsigned tag, of which the signed key is a renaming.
- Arena.Arena.Alloc: the address at which the runtime places a new block is a parameter; what the runtime guarantees of it is the precondition.
- ArenaSlice.Append: AppendOne is Append of one element; element types of size zero are excluded, as Make divides by the size.
- ArenaRun.World.Run: writes to the fields of messages after they were allocated are not among the operations.
- Scc.Sort: the graph is a function with finitely many nodes reachable; iteration order of a node's edges is that of the function.
- The linker, symbol tables and relocations; reflection, registries, extensions and getters.
- Locks, pools, profiling, statistics, page-boundary relocation, debug logging, and liveness for the garbage collector.
- The panic mechanism of Fail: failures are results.
- Generated stencils, which repeat the generic code.
- The arena slices of repeated strings and bytes, and `Messages.Values` and `Messages.All`, whose inline branch does not return.
