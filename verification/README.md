# Verified model of the BPF tooling in this repository

This Dafny project models the parts of the vendored bpftool and libbpf sources that have the most
state and branching, and proves what they promise:

- **Control-flow graphs** (`CfgSpec`, `Cfg`, `CfgSimulation`; `lib/bpftool/src/cfg.c`). The builder's
  linked lists are fields of node objects that its methods reassign. For every program whose calls
  and jumps stay local, the functions partition the program, the blocks partition each function,
  every edge has a destination, and the graph simulates execution (successors as in section 4.3 of
  RFC 9669) exactly when no unconditional jump is hidden from the builder; then every run is
  shadowed by a walk from the ENTRY node.
- **BTF minimisation** (`BtfFormat`, `BtfIter`, `Reachability`, `EarlyReturn`, `BtfGraph`,
  `BtfMark`, `BtfGen`, `BtfBound`, `BtfAccess`, `BtfMinimise`; the `btfgen_*` functions of
  `lib/bpftool/src/gen.c` and the field iterator of `lib/libbpf/src/btf_iter.c`). Types are rows of
  32-bit words. Recording relocations marks exactly what they reach, the marks are closed, and the
  minimised object is the image of the marked graph with every reference renumbered once. A walk
  returns at the first type it cannot handle, so it terminates exactly when no cycle can be reached
  along the calls it really makes; where every type is of a handled kind, exactly when the type
  graph has no cycle to reach.
- **The JSON writer** (`JsonText`, `JsonWriter`, `JsonRoundTrip`, `JsonExact`, `JsonScalars`,
  `JsonLayout`; `lib/bpftool/src/json_writer.c`). The text of a well-nested sequence of calls,
  compact or pretty, is turned back into the tree that was written, by a reader after RFC 8259,
  exactly when its strings and names have no control characters but the five that are escaped and
  its quoted texts need no escaping; and it is, character by character, the compact or the indented
  text of the tree.
- **Line information** (`LineInfo`; `lib/libbpf/src/bpf_prog_linfo.c` and the cursor loops of
  `lib/bpftool/src/xlated_dumper.c`). The dissection is stored exactly when one exists; the lookup is
  a floor search; the moving cursor shows each record once exactly on clean record lists.
- **Bits** (`Bits`, `BtfDumper`, `CoreBitfield`; `lib/bpftool/src/btf_dumper.c`,
  `lib/libbpf/src/bpf_core_read.h`). Words are rows of bits, least significant first, and `Val` is
  the number they denote.
- **Code generation** (`Datasec`, `HexEmitter`; `lib/bpftool/src/gen.c`). The struct for a data
  section has every variable at its place on both kinds of target exactly for aligned variables; the
  string literal for binary data decodes to the data (C11, sections 5.1.1.2 and 6.4.4.4).
- **Descriptors and map replacement** (`FdSearch`, `MapReplace`; `lib/bpftool/src/common.c`,
  `lib/bpftool/src/prog.c`). Searches against a kernel that may answer anything leak no descriptor,
  and one that succeeds has gone through the kernel's whole list. Replacement requests are carried
  out exactly when they can all be met.
- **Orders** (`Sorting`, `BtfSort`, `KernelSyms`; `lib/bpftool/src/btf.c`,
  `lib/bpftool/src/xlated_dumper.c`). The comparison of the sorted C dump is a total order, so the
  result does not depend on the algorithm; the comparison of kernel symbols follows addresses on a
  range exactly when the range is narrower than 2^31.

`Common` and `Arithmetic` hold the shared words, options and facts about division.

Where the code does less than its callers might expect, the code is kept and the exact condition is
proved, with an input that fails:

- A block is not split after `JA` or `EXIT` (`lib/bpftool/src/cfg.c:181-192`). Dead code after
  `EXIT` is harmless; dead code after `JA`, and the 32-bit `JA` whose offset is in `imm`, hide a
  jump. `SimulatesIffJumpsVisible` gives both directions and `HiddenJump` a program. Edges to EXIT
  over-approximate (`ExitEdgeOnlyFromLastBlock`).
- `btfgen_mark_type_match` says that a struct behind a pointer is a leaf, but arrays and prototypes
  reset the flag, so a struct whose callback takes the struct by value makes it recurse for ever
  (`ByValueCallbackDiverges`; `TerminatesIffAcyclic` has the condition). The same cycle does no harm
  behind a member the walk fails on (`TaggedCallbackStops`).
- The writer escapes five control characters and leaves the others as they are, and its quoting
  printf escapes nothing (`ReadsBackIffCallsOk` for whole documents, `StringsThatAreLost`). So a
  dumped character is lost exactly if it is a quotation mark or a backslash (`CharReadsBackIff`).
- The range test of the dissection wraps around when a function at address 0 has a record at the last
  address (`PartInCode`, `WrappedPart`); it cannot when no function is at address 0 (`PartsInCode`).
- `nr_skip` counts shown records, so the cursor goes wrong on gaps and repeats
  (`ShowsEachOnceIffClean`, `RepeatedOffsetIsLost`).
- A variable whose offset is not a multiple of its alignment is emitted at another place, with no
  error (`CodegenDatasecDef`, `MisalignedVariableMoves`).
- The comparison of kernel symbols cannot order a range of 2^31 addresses or more (`AgreesIffNarrow`,
  `CmpIsNotTransitive`), and a search returns a symbol 2^32 away (`SearchConfusesAddresses`).

Modules follow the source files. A method that stands for a C function is proved against a
specification function or predicate, and the lemmas are about that specification. Where such a
function decodes an opcode, a record or a field, a lemma pins it to the numbers of the format
(`OpcodeTests`, `NextByWords`, `TakesField`, `MemberByWords`, `RankByKind`, `FieldIsNumber`). Ghost
parameters named `d` bound the depth of a recursion; `BtfGraph.TerminatesIffAcyclic`,
`BtfSort.EndsIffAcyclic`, `RankEndsIff` and `HashEndsIffAcyclic` say when such a bound exists. On an
input without one the C recursion does not return, so there is no result to speak of. Which large
enough bound is taken does not matter: `BoundDoesNotMatter` for relocations, `DatumIgnoresBound` for
the sorted dump.

## Model

| member | source | states |
|---|---|---|
| CfgSpec.FirstBlockAtStart | lib/bpftool/src/cfg.c:165-214 | in any graph the builder may leave, the first block begins where the function does and every block is a non-empty range inside it |
| CfgSpec.BlocksInOrder | lib/bpftool/src/cfg.c:199-214 | blocks do not overlap and stand in program order |
| CfgSpec.BlocksPartitionFunction | lib/bpftool/src/cfg.c:165-214 | every instruction of a function is in exactly one of its blocks |
| CfgSpec.LocalJumpsStayInside | lib/bpftool/src/cfg.c:131-197 | if the program's branches and calls are local, each function found by the builder lies in the program and its branches stay in it |
| CfgSpec.FunctionsPartitionProgram | lib/bpftool/src/cfg.c:131-158 | every instruction of the program is in exactly one function |
| CfgSpec.FunctionsInOrder | lib/bpftool/src/cfg.c:131-158 | functions do not overlap and stand in program order |
| CfgSpec.OpcodeTests | lib/bpftool/src/cfg.c:131-183 | the tests of the builder on an opcode, as numbers: branches are classes 5 and 6 with operations other than 8 and 9, unconditional ones have operation 0, a pseudo call is 0x85 with source register 1 |
| Cfg.CfgGraph.AppendFunc | lib/bpftool/src/cfg.c:63-86 | sorted insertion: the list of starts gains the new one and no other, stays strictly sorted, and numbers stay a permutation of 0 .. n-1; an existing function is returned, not duplicated |
| Cfg.CfgGraph.PartitionFuncs | lib/bpftool/src/cfg.c:131-158 | functions begin at instruction 0 and at every pseudo-call target and nowhere else, and each ends right before the next |
| Cfg.FuncNode.AppendBb | lib/bpftool/src/cfg.c:88-112 | sorted insertion of a block head, without duplicates and without touching other nodes |
| Cfg.FuncNode.PartitionBbHead | lib/bpftool/src/cfg.c:165-197 | block heads are exactly the start of the function, its branch targets and the instructions after conditional branches, of both jump classes |
| Cfg.FuncNode.PartitionBbTail | lib/bpftool/src/cfg.c:199-214 | each block ends right before the next and the last with the function; numbers are dense from 2 |
| Cfg.FuncNode.AddSpecialBb | lib/bpftool/src/cfg.c:216-231 | ENTRY is put first and EXIT last; the blocks between stay as they are |
| Cfg.FuncNode.PartitionBb | lib/bpftool/src/cfg.c:233-241 | the two passes leave fresh, distinct nodes that cut the function at its heads |
| Cfg.FuncNode.SearchBbWithHead | lib/bpftool/src/cfg.c:243-254 | a block with the head is found if and only if there is one |
| Cfg.FuncNode.AddEdgesOf | lib/bpftool/src/cfg.c:296-329 | a block gets its fall-through edge, its jump edge or both, as its last instruction demands, and no edge has a null destination |
| Cfg.FuncNode.AddFixedEdges | lib/bpftool/src/cfg.c:277-294 | ENTRY leads to the first block and the last block to EXIT |
| Cfg.FuncNode.AddEdges | lib/bpftool/src/cfg.c:277-332 | all edges of the function, without changing heads, tails or numbers |
| Cfg.FuncNode.Build | lib/bpftool/src/cfg.c:334-353 | a function whose branches stay inside ends up with the specified graph |
| Cfg.CfgGraph.BuildCfg | lib/bpftool/src/cfg.c:334-353 | for every program with local jumps, the functions split the program, are numbered by a permutation, and each carries its specified graph, undisturbed by the building of the others |
| CfgSimulation.SimulatesIffJumpsVisible | lib/bpftool/src/cfg.c:165-332 | every execution step inside a function, as its numeric opcode says, stays in a block or follows an edge if and only if every unconditional jump is seen by the builder |
| CfgSimulation.HiddenJump | lib/bpftool/src/cfg.c:181-192 | a three-instruction program whose jump stands inside a block: the graph is the one the builder leaves, and execution takes a step no edge stands for |
| CfgSimulation.RunIsWalk | lib/bpftool/src/cfg.c:165-332 | every run of a function, of any length, is shadowed by a walk along edges from ENTRY |
| CfgSimulation.FunctionRunIsWalk | lib/bpftool/src/cfg.c:334-353 | the same for any function of a whole program that the builder has split |
| CfgSimulation.ExitEdgeOnlyFromLastBlock | lib/bpftool/src/cfg.c:304-310 | a block that ends in EXIT has an edge to the EXIT node only if it is the last; otherwise its edge goes where execution cannot |
| CfgSimulation.EdgesAreSuccessors | lib/bpftool/src/cfg.c:277-332 | unless a block ends in an exit, or in a jump of class 6 whose immediate and offset differ, its edges lead exactly to where execution goes on after its last instruction |
| CfgSimulation.EdgeFlags | lib/bpftool/src/cfg.c:296-329 | an edge flagged 1 leads to the block laid out next, one flagged 2 to the block at the target of the last instruction, and there are no others |
| BtfIter.SlotsExact | lib/libbpf/src/btf_iter.c:16-143 | for every kind and length, the slots of the descriptor are exactly the id (or name) words of the record, in strictly increasing order |
| BtfIter.UnknownKinds | lib/libbpf/src/btf_iter.c:16-143 | the iterator refuses exactly the kinds the format does not define |
| BtfFormat.SlotsByNumber | lib/libbpf/src/btf_iter.c:16-143 | which words of a record hold type ids and names, by the numbers of the kinds |
| BtfIter.FieldIter.constructor | lib/libbpf/src/btf_iter.c:16-143 | a started iterator has all the slots before it, and none for an unknown kind |
| BtfIter.FieldIter.Next | lib/libbpf/src/btf_iter.c:145-177 | each call returns the first remaining slot and removes it, so every slot comes once; afterwards the end is reported for ever |
| Reachability.AcyclicIsGrounded | lib/bpftool/src/gen.c:2227-2314 | a walk over finitely many nodes that meets no cycle ends within as many steps as there are nodes |
| Reachability.GroundedIsAcyclic | lib/bpftool/src/gen.c:2227-2314 | a walk whose recursion ends cannot reach a cycle |
| EarlyReturn.WalkPasses | lib/bpftool/src/gen.c:2090-2314 | a recursive walk that returns at the first node it cannot handle passes if and only if every call there is nests at most so deep and every node can be handled; it fails only on a node it really meets |
| EarlyReturn.EndsIffMadeGrounded | lib/bpftool/src/gen.c:2090-2314 | such a walk comes back, with or without success, if and only if the calls it really makes nest at most so deep |
| EarlyReturn.EndsIffAcyclic | lib/bpftool/src/gen.c:2090-2314 | over finitely many nodes it ends if and only if no cycle can be reached along the calls really made; a graph without cycles is enough, and necessary if every node can be handled |
| BtfGraph.TerminatesIffAcyclic | lib/bpftool/src/gen.c:2090-2314 | the marking walks, which return -EINVAL at the first unsupported kind, terminate from a type if and only if no cycle of (type, flag) pairs can be reached along the calls they really make, and then within four times the number of types; no cycle in the type graph is enough, and necessary when all types reached are of handled kinds |
| BtfGraph.NextByWords | lib/bpftool/src/gen.c:2101-2313 | the types a walk goes on to are the ids in the words of the record, for exactly the kinds the walk handles, except the members of structs not in front of pointers and the target of a pointer on the shallow walk; and the flag passed on |
| BtfGraph.ListNodeTerminates | lib/bpftool/src/gen.c:2219-2314 | a struct that points to itself is walked in three steps, since a struct behind a pointer is a leaf |
| BtfGraph.ByValueCallbackDiverges | lib/bpftool/src/gen.c:2276-2306 | a struct holding a pointer to a function that takes the struct by value is walked for ever |
| BtfGraph.TaggedCallbackStops | lib/bpftool/src/gen.c:2307-2311 | on a struct with a tagged member before such a callback the walk fails at the tag and terminates, although the type graph has a cycle |
| BtfMark.VisitKeepsClosed | lib/bpftool/src/gen.c:2090-2163 | adding everything a walk reaches keeps the marks closed |
| BtfMark.MarkedIffReached | lib/bpftool/src/gen.c:2090-2314 | a walk marks a type if and only if it reaches it, and a member if and only if it reaches its struct in front of a pointer |
| BtfMark.MemberKeepsClosed | lib/bpftool/src/gen.c:2165-2217 | marking a member of a marked struct and then its type keeps the marks closed |
| BtfMark.FreshCloneUnmarked | lib/bpftool/src/gen.c:2050-2078 | the second copy of the object, as parsed, carries no mark |
| BtfGen.BtfgenInfo.MarkMember | lib/bpftool/src/gen.c:2082-2088 | exactly the one member gains a mark |
| BtfGen.BtfgenInfo.MarkType | lib/bpftool/src/gen.c:2090-2163 | wherever the walk terminates: it succeeds if and only if all types that can be reached are of handled kinds, and then marks exactly the types reached, whatever was marked before |
| BtfGen.BtfgenInfo.MarkTypeMatch | lib/bpftool/src/gen.c:2227-2314 | wherever the walk terminates, the same for the matching walk, including the members of structs in front of pointers |
| BtfGen.BtfgenInfo.StepInto | lib/bpftool/src/gen.c:2180-2214 | one step of an access string marks the member stepped through and what its type reaches, and nothing for an array; it fails exactly on other kinds or an unhandled member type |
| BtfGen.BtfgenInfo.RecordFieldRelo | lib/bpftool/src/gen.c:2165-2217 | the root, each member stepped through and what their types reach are marked, and nothing else; the invariant is kept |
| BtfAccess.FieldReloByPosition | lib/bpftool/src/gen.c:2165-2217 | position by position of the access string from 1 on: the members marked are exactly those accessed in the structs that the types on the path come down to, the types marked exactly those reached from the path, and the relocation succeeds exactly when the walks from all of the path pass |
| BtfAccess.FieldReloHasPath | lib/bpftool/src/gen.c:2165-2217 | when a field relocation succeeds every position of its access string has led to a type |
| BtfAccess.FirstMemberIsMarked | lib/bpftool/src/gen.c:2180-2199 | an access to the first member of a list node marks that member |
| BtfGen.BtfgenInfo.RecordTypeRelo | lib/bpftool/src/gen.c:2325-2333 | type and enum relocations mark what is reached with or without following pointers |
| BtfGen.BtfgenInfo.RecordTypeMatchRelo | lib/bpftool/src/gen.c:2320-2323 | match relocations mark what the matching walk reaches |
| BtfGen.BtfgenInfo.RecordReloc | lib/bpftool/src/gen.c:2335-2359 | every kind of relocation adds exactly its own marks, succeeds exactly when its walks meet only handled kinds, and keeps the invariant |
| BtfGen.BtfgenInfo.RecordAll | lib/bpftool/src/gen.c:2442-2474 | after any number of recorded relocations the marks are theirs and no others, and the invariant holds |
| BtfAccess.ReloNeeds | lib/bpftool/src/gen.c:2335-2359 | a local type id needs nothing and every other kind its root; what a pointer points to is kept for type and match relocations and not for enumerators; all members are kept for a match |
| BtfBound.ReloAgrees | lib/bpftool/src/gen.c:2165-2359 | a relocation whose recursions end within one bound on their depth succeeds under a larger one if and only if it does under the first, and then asks for the same marks |
| BtfBound.BoundDoesNotMatter | lib/bpftool/src/gen.c:2442-2474 | so whether a list of relocations can be recorded, and which marks it asks for, does not depend on the bound |
| BtfMinimise.Btf.AddField | lib/libbpf/src/btf.c:2640-2694 | a member is appended to the last type exactly when a struct gets whole bytes or a bitfield of 1 to 255 bits not too far in, and a union something at offset 0 |
| BtfMinimise.WithFieldIsRestricted | lib/libbpf/src/btf.c:2640-2694 | appending the next kept member to a restriction of a struct gives the restriction with that member: name, type, offset and bit size are those of the original |
| BtfMinimise.KeptExact | lib/bpftool/src/gen.c:2523-2554 | the members kept are exactly the marked ones, in order, each once |
| BtfMinimise.NewIdsInOrder | lib/bpftool/src/gen.c:2510-2564 | new ids of marked types keep the order of the old ones |
| BtfMinimise.NewIdsDense | lib/bpftool/src/gen.c:2510-2564 | every new id from 1 to the number of marked types is the new id of some marked type |
| BtfMinimise.Btf.RenumberType | lib/bpftool/src/gen.c:2566-2578 | one type's ids are rewritten through the table, each once, and nothing else of the object changes |
| BtfMinimise.RenumberRecord | lib/bpftool/src/gen.c:2566-2578 | every id word r of a record becomes ids[r], once, although the words are rewritten in place while the iterator runs; all other words stay |
| BtfMinimise.CopyComposite | lib/bpftool/src/gen.c:2523-2554 | a struct is rebuilt with its marked members if and only if each of them can be added |
| BtfMinimise.CopyMarked | lib/bpftool/src/gen.c:2510-2564 | the first pass copies exactly the marked types and records their new ids |
| BtfMinimise.CopiedIffMembersFit | lib/libbpf/src/btf.c:2654-2665 | the marked types can all be rebuilt if and only if every marked struct member is a bitfield with a width or on a byte boundary and every marked union member is at offset 0, read off the words of the records |
| BtfMinimise.RenumberAll | lib/bpftool/src/gen.c:2566-2578 | with closed marks the second pass cannot fail, and rewrites every copy |
| BtfMinimise.GetBtf | lib/bpftool/src/gen.c:2491-2588 | succeeds exactly when every marked struct member is a bitfield with a width or on a byte boundary and every marked union member is at offset 0, and yields the exact image of the marked graph |
| BtfMinimise.OnlyPointersLoseTargets | lib/bpftool/src/gen.c:2491-2588 | an id of the output that is void was void in the input, except for the target of a pointer |
| BtfMinimise.MinimizeBtf | lib/bpftool/src/gen.c:2613-2652 | once the relocations can be recorded, the marks are exactly theirs and closed, and the output is produced if and only if every marked member fits, by its own words; it is then the image of exactly these marks |
| JsonWriter.JsonWriter.Puts | lib/bpftool/src/json_writer.c:57-87 | appends the quoted string with the seven escapes, and changes nothing else |
| JsonWriter.JsonWriter.Begin | lib/bpftool/src/json_writer.c:126-132 | the separator, the bracket, one level deeper, and no separator due |
| JsonWriter.JsonWriter.End | lib/bpftool/src/json_writer.c:134-143 | one level up, a new line unless the container is empty, the bracket, and a separator due |
| JsonWriter.JsonWriter.Name | lib/bpftool/src/json_writer.c:147-156 | separator, line, name and colon, with no separator due before the value |
| JsonWriter.JsonWriter.Printf | lib/bpftool/src/json_writer.c:166-174 | separator and text, unquoted |
| JsonWriter.JsonWriter.VprintfEnquote | lib/bpftool/src/json_writer.c:158-164 | separator and text in quotes, unescaped |
| JsonRoundTrip.StepKeeps | lib/bpftool/src/json_writer.c:29-195 | every call that is in place and has clean text keeps the writer in step with the document written so far |
| JsonRoundTrip.RunKeeps | lib/bpftool/src/json_writer.c:29-195 | so does any run of such calls: the depth is the number of open containers and the writer's own assertion is never tripped |
| JsonRoundTrip.RoundTrip | lib/bpftool/src/json_writer.c:29-195 | for calls with clean strings and names and plain quoted texts (the exact condition, see ReadsBackIffCallsOk), where a caller's own formatted text is any number, literal or quoted string: with pretty printing on, off or switched midway, the output of every complete, well-nested sequence parses to the tree that was written, and the depth is back at 0 |
| JsonExact.ReadsBackIffCallsOk | lib/bpftool/src/json_writer.c:29-195 | the output of every complete, well-nested sequence of calls reads back as the tree written if and only if all strings and names are clean and all quoted texts need no escaping; where a string or name is at fault the text is no JSON at all |
| JsonExact.ParseSound | lib/bpftool/src/json_writer.c:29-195 | the reader the round trips are stated with is exact: when it reads tokens as a tree they are the tree's own tokens, so each text denotes at most one tree |
| JsonLayout.DocumentText | lib/bpftool/src/json_writer.c:29-195 | every value can be written, and the output is character by character its compact or its indented text: fields and closing brackets begin a line four spaces deeper per container, elements do not |
| JsonLayout.TextReadsBackIffClean | lib/bpftool/src/json_writer.c:29-195 | either text denotes the value if its strings and names are clean, and is no JSON otherwise |
| JsonScalars.StringReadsBackIffClean | lib/bpftool/src/json_writer.c:57-87 | a written string reads back as itself if and only if its control characters are among the five escaped; otherwise the output is not JSON |
| JsonScalars.EnquoteReadsBackIffPlain | lib/bpftool/src/json_writer.c:158-164 | quoted printf output reads back as itself if and only if it needs no escaping |
| JsonScalars.PlainQuotedValue | lib/bpftool/src/xlated_dumper.c:277-284 | text that a caller of the printf quotes itself, as for hexadecimal numbers, denotes what is between the quotes if it needs no escaping, and is written like the quoting printf writes it |
| JsonScalars.CharReadsBackIff | lib/bpftool/src/btf_dumper.c:444-453 | a character that the dumper prints, as itself or as an escape with four digits, reads back as itself if and only if it is neither a quotation mark nor a backslash |
| JsonScalars.StringsThatAreLost | lib/bpftool/src/json_writer.c:57-87 | a string of one other control character makes the text no JSON, and a quoted text of one quotation mark does not read back |
| JsonScalars.IntegerReadsBack | lib/bpftool/src/json_writer.c:226-244 | an integer in decimal is a JSON number with that value |
| LineInfo.ProgLinfo.DissectJitedFunc | lib/libbpf/src/bpf_prog_linfo.c:22-86 | succeeds if and only if the records can be dissected by function, and stores the dissection and the lengths of its parts |
| LineInfo.DissectedIsExact | lib/libbpf/src/bpf_prog_linfo.c:22-86 | the one-pass search finds a dissection if there is any |
| LineInfo.DissectionIsUnique | lib/libbpf/src/bpf_prog_linfo.c:22-86 | there is at most one dissection |
| LineInfo.PartsCoverRecords | lib/libbpf/src/bpf_prog_linfo.c:44-80 | no part is empty and every record is in exactly one part |
| LineInfo.PartsClimb | lib/libbpf/src/bpf_prog_linfo.c:44-76 | within a part other than the last the addresses climb strictly, and none after the first is the address of the next function |
| LineInfo.PartInCode | lib/libbpf/src/bpf_prog_linfo.c:56-60 | the records of a function other than the last lie in its code if and only if it is not at address 0 with a last record at the last address, where the 64-bit test wraps around |
| LineInfo.PartsInCode | lib/libbpf/src/bpf_prog_linfo.c:56-60 | so they all do when no function is at address 0, which a caller can check |
| LineInfo.WrappedPart | lib/libbpf/src/bpf_prog_linfo.c:56-60 | three records and two functions that pass the test although a record is outside its function |
| LineInfo.LastNotAfterIsFloor | lib/libbpf/src/bpf_prog_linfo.c:180-246 | on sorted records the result of a lookup is the floor of the key |
| LineInfo.Lfind | lib/libbpf/src/bpf_prog_linfo.c:218-246 | returns the last record of the longest run of records not after the offset, counted from nr_skip |
| LineInfo.LfindAddrFunc | lib/libbpf/src/bpf_prog_linfo.c:180-216 | the same by address, within the part of one function |
| LineInfo.DumpXlated | lib/bpftool/src/xlated_dumper.c:321-350 | begins with slot 0, goes on by two slots after a 16-byte load and by one otherwise, to the end of the program; each instruction has the record that the lookup finds after skipping as many as were shown |
| LineInfo.ShowsEachOnceIffClean | lib/bpftool/src/xlated_dumper.c:321-350 | the cursor shows each record exactly once, before its own instruction, if and only if the offsets climb strictly, are in the program and name no second slot |
| LineInfo.RepeatedOffsetIsLost | lib/bpftool/src/xlated_dumper.c:321-350 | with two records for one instruction the cursor shows the second twice and the first never |
| BtfDumper.Int128Shift | lib/bpftool/src/btf_dumper.c:310-349 | the branches on 64 make up a left and then a right shift of one 128-bit number |
| BtfDumper.DumperBitfield | lib/bpftool/src/btf_dumper.c:351-375 | the number printed has the selected bits of the data and zeros above |
| BtfDumper.DumperIntBits | lib/bpftool/src/btf_dumper.c:378-393 | splitting the offset into bytes and bits selects the same bits of the whole buffer |
| BtfDumper.PrintedValue | lib/bpftool/src/btf_dumper.c:351-393 | the number printed is floor(D / 2^offset) mod 2^nr_bits of the buffer's value D |
| CoreBitfield.ReadBitfield | lib/libbpf/src/bpf_core_read.h:90-116 | yields the field, zero- or sign-extended, for every storage size; 0 for a size that is none |
| CoreBitfield.FieldIsNumber | lib/libbpf/src/bpf_core_read.h:90-116 | the field read is floor(D / 2^at) mod 2^n of the value D of memory, or its signed counterpart |
| CoreBitfield.WriteBitfield | lib/libbpf/src/bpf_core_read.h:121-147 | replaces the bits of the field and no other bit of memory; a size that is none writes nothing |
| CoreBitfield.FieldHasRelo | lib/libbpf/src/bpf_core_read.h:90-147 | every field inside a unit of one, two, four or eight bytes has the relocations that the reads and writes ask for |
| CoreBitfield.ReadAfterWrite | lib/libbpf/src/bpf_core_read.h:90-147 | reading after writing gives the value mod 2^n, or its two's-complement counterpart |
| CoreBitfield.WriteAfterRead | lib/libbpf/src/bpf_core_read.h:90-147 | writing back what was read leaves memory as it was |
| CoreBitfield.DisjointFields | lib/libbpf/src/bpf_core_read.h:118-147 | writes to disjoint fields commute and are invisible to each other's reads |
| Bits.ValOfSlice | lib/bpftool/src/btf_dumper.c:351-375 | selecting bits of a number is dividing and taking the remainder |
| Bits.MemIsLittleEndian | lib/libbpf/src/bpf_core_read.h:100-105 | the value of memory counts the first byte once and those after it 256 times |
| Bits.SignedValIsWrapped | lib/libbpf/src/bpf_core_read.h:111-114 | the sign-extended value is the remainder moved below zero when its top bit is set |
| Datasec.CodegenDatasecDef | lib/bpftool/src/gen.c:147-233 | declares exactly the non-static variables, each at its offset on 32-bit and on 64-bit targets if and only if the offsets are multiples of the respective alignments; padding stands exactly where the next multiple of the alignment, or of four, is not the offset, and padding members have different names; refuses exactly overlapping or unalignable sections |
| Datasec.MisalignedVariableMoves | lib/bpftool/src/gen.c:168-228 | a four-byte variable right after two bytes is accepted and lands at offset 4 instead of 2 |
| Datasec.LongNeedsPadding | lib/bpftool/src/gen.c:192-213 | an eight-byte variable at offset 8 after four bytes gets padding, since a 32-bit target would put it at 4 |
| Datasec.MirrorsMore | lib/bpftool/src/gen.c:168-228 | one more variable, with or without padding, keeps the struct a mirror of the section under both alignments |
| Datasec.ExposedExact | lib/bpftool/src/gen.c:177-179 | the variables exposed are those that are not static, each as often as it is listed |
| Arithmetic.RoundingUp | lib/bpftool/src/gen.c:168-228 | padding up to an alignment is the smallest multiple not below, for every alignment |
| HexEmitter.PrintHex | lib/bpftool/src/gen.c:467-484 | for every byte string the spliced output decodes to it and no line is longer than 78 characters before its continuation |
| HexEmitter.DecodeEscape | lib/bpftool/src/gen.c:479-482 | each escape is read as its byte whatever escape follows it |
| HexEmitter.LinesExtend | lib/bpftool/src/gen.c:475-478 | text after a continuation extends the last line only, and splicing keeps it |
| FdSearch.FdByNametag | lib/bpftool/src/common.c:812-878 | failure leaves nothing open and means that the kernel or an allocation failed; success means that the kernel's list was followed from its beginning to the end the kernel reported, each object on it was described, and one descriptor is held for each match, in the order of the ids |
| FdSearch.MatchingIdsExact | lib/bpftool/src/common.c:843-856 | the matches are the described objects whose whole tag or whole name is that of the handle |
| FdSearch.ParseFds | lib/bpftool/src/common.c:880-944 | for every kind of handle: nothing open on failure, which means a refused handle or a failing kernel or allocation, and exactly the returned descriptors on success; for a name or tag these are the matches of the kernel's whole list |
| FdSearch.RefusedHandles | lib/bpftool/src/common.c:915-931 | malformed handles are refused, and names longer than 127 characters for programs and 15 for maps, which have no tags |
| FdSearch.ParseFd | lib/bpftool/src/common.c:946-971 | exactly one descriptor is open when one is returned and none otherwise; it refers to the object of a given id; a name or tag is accepted only if the kernel's whole list was gone through and has one match, and without failures of the kernel and of allocation nothing is refused but a malformed handle and a name or tag for which the whole list has none or several |
| FdSearch.KeepMatch | lib/bpftool/src/common.c:1016-1036 | a match that is opened again with other options, or dropped, is never open twice; it is opened again exactly when the options differ, and room is asked for exactly when it is not the first |
| FdSearch.CloseFds | lib/bpftool/src/common.c:873-877 | the error path closes everything found so far and nothing else |
| MapReplace.ReplaceMaps | lib/bpftool/src/prog.c:1782-1836 | succeeds if and only if every request denotes a map, no two denote the same and no reuse is refused; then each request is applied once, to the map it denotes |
| MapReplace.Merge | lib/bpftool/src/prog.c:1809-1836 | walking maps and sorted requests side by side applies all requests or fails, exactly as they can be met |
| MapReplace.ResolveNames | lib/bpftool/src/prog.c:1788-1803 | the names at the front get the index of the first map of that name, or the lookup fails |
| MapReplace.OrderOfRequests | lib/bpftool/src/prog.c:1782-1809 | whether requests can be met does not depend on their order |
| BtfSort.CompareIsTotalOrder | lib/bpftool/src/btf.c:728-744 | the comparison is antisymmetric and transitive, and zero only for equal data |
| BtfSort.CompareIsLexicographic | lib/bpftool/src/btf.c:728-744 | the comparison is negative exactly when the first comes before the second by rank, sort name, own name, hash and index, names being compared at their first difference |
| BtfSort.SortIsUnique | lib/bpftool/src/btf.c:746-770 | any sorted permutation of the data is the same one, whatever algorithm sorts |
| BtfSort.SortBtfC | lib/bpftool/src/btf.c:746-770 | fills the array with the rank, the names and the hash of every type, in ascending order of rank, sort name, own name, hash and index |
| BtfSort.EndsIffAcyclic | lib/bpftool/src/btf.c:631-660 | the name recursion along references ends if and only if the chain does not run into a cycle |
| BtfSort.RankEndsIff | lib/bpftool/src/btf.c:590-629 | the rank recursion ends if and only if it stops at once, at a type that is no reference or at an unnamed one, or the chain does not run into a cycle |
| BtfSort.RankByKind | lib/bpftool/src/btf.c:590-629 | the ranks by kind number: anonymous enums 0, named ones 1, numbers 2, named structs 3, named prototypes 4, references with a name what they refer to, everything else 10 |
| BtfSort.SortNameByKind | lib/bpftool/src/btf.c:631-660 | a type that is no reference sorts by its own name, an anonymous enum not reached by reference by its first enumerator |
| BtfSort.HashEndsIffAcyclic | lib/bpftool/src/btf.c:676-726 | the hash recursion ends for every type, however structs refer to each other, if and only if no chain of references runs into a cycle |
| BtfSort.BtfTypeDisambigHash | lib/bpftool/src/btf.c:662-726 | the loops and calls compute the hash of names, enumerators, members and referenced types that HashIsOneLevelDeep is about |
| BtfSort.HashOfReference | lib/bpftool/src/btf.c:662-726 | a reference to a number hashes its own name and then that of the number |
| BtfSort.HasherAdds | lib/bpftool/src/btf.c:662-665 | a value is added to 31 times what was hashed before, modulo 2^64 |
| BtfSort.HashIsOneLevelDeep | lib/bpftool/src/btf.c:676-726 | the hash depends on the struct that the type leads to and, of all other structs, on their names only: changing their members changes nothing |
| BtfSort.DatumIgnoresBound | lib/bpftool/src/btf.c:590-766 | rank, name and hash of a type do not depend on the bound on the recursions |
| BtfSort.ChainSortsLikeItsEnd | lib/bpftool/src/btf.c:590-660 | a reference sorts by the name of the type it leads to and, once named, by the rank that type has under a name |
| Sorting.SortedIsUnique | lib/bpftool/src/btf.c:767-767 | where a comparison tells all elements apart there is only one sorted permutation |
| KernelSyms.AgreesIffNarrow | lib/bpftool/src/xlated_dumper.c:20-24 | the truncated difference orders all addresses of a range correctly if and only if the range is narrower than 2^31 |
| KernelSyms.DumpData.constructor | lib/bpftool/src/xlated_dumper.c:26-70 | keeps exactly the symbols with an address, sorted if the comparison orders them; nothing when addresses are hidden |
| KernelSyms.WithAddressExact | lib/bpftool/src/xlated_dumper.c:26-70 | the table has every listed symbol whose address is not 0, as often as it is listed |
| KernelSyms.DumpData.Search | lib/bpftool/src/xlated_dumper.c:77-87 | within such a range an entry is found if and only if one has the address; elsewhere what halving the table finds |
| KernelSyms.CmpIsNotTransitive | lib/bpftool/src/xlated_dumper.c:20-24 | outside such a range the comparison can go round in a circle |
| KernelSyms.SearchConfusesAddresses | lib/bpftool/src/xlated_dumper.c:77-87 | in a table of one symbol the search for an address 2^32 above it returns that symbol |

## Left out

- Allocation failures, except in the descriptor searches where a failed reallocation is one of the adversary's moves.
- DOT drawing, text formatting, help output, and `dump_xlated_for_graph`.
- `func_info` records in the instruction dumps; only line records move the modelled cursor.
- The per-object part of `btfgen_record_obj`: candidate search, its hash map, and the computation of relocation specifications, which are inputs here.
- Deduplication of BTF strings: a name word stands for its string, so copying a type between objects keeps it.
- `btfgen_record_field_relo` on an access index beyond the members of a struct: the specification computed by libbpf excludes it, and so do the callers' requirements here.
- Surrogate pairs in the escapes of the JSON reader, which nothing here emits, and UTF-8: characters pass through the writer as they are. Unquoted text in the printf that is no JSON value, as plain-text dumps use it. `jsonw_reset`, floating-point formats and the convenience functions that call a name and a value function.
- Big-endian variants of the bit-field code.
- BtfDumper.DumperBitfield: requires bit_offset + nr_bits to be at most 127, because 128 makes the C code shift a 64-bit value by 64, which is undefined.
- LineInfo.ProgLinfo.DissectJitedFunc: records of the last function after its first are neither ordered nor in range by contract, because the code never looks at them (`lib/libbpf/src/bpf_prog_linfo.c:46-48`).
- The 32-bit overflow of `nr_skip * rec_size` in the line lookups.
- FdSearch.FdByNametag: the kernel's ids are taken to rise, as its interface promises; a kernel that repeats ids would keep the C loop running.
- Descriptor search: the program and the map search are one method, since they differ only in the second opening of a match; which descriptors are opened read-only is not recorded.
- MapReplace.ReplaceMaps: `map_replace_compar` subtracts without overflow here, whose C behaviour would be undefined; an index past the int range wraps before it enters the model.
- The hash of one string, `str_hash`, is a parameter of the sorted dump; no property of the order depends on it.
- That the sorted dump visits every type: the loop over the sorted data starts at its second element (`lib/bpftool/src/btf.c:814-815`), so only order and permutation are claimed.
- The C library's `qsort` and `bsearch` stand as a sorting function with its contract and a binary search.
- Parsing of `/proc/kallsyms` lines, of command lines, and object files.
- Name sanitising and the emitted type text of `codegen_datasec_def`; sections without an identifier, for which it emits nothing.
- Syscalls, netlink, procfs, mounts, perf and signing code, libbpf's loaders, and this repository's own collector programs, which are straight-line.
