# Models of gem5's hard parts, with proofs

A Dafny 4.11 project over a gem5 tree whose addition is `OptCPU`, a cache simulator with optimal
replacement. `dafny verify dfyconfig.toml` checks all of it. Each group below names its main
result.

- **Optimal replacement** (`Replacement`, `SetAssociative`, `LookupTable`, `OptHeap`, `OptCpu`).
  `OptCPU` sorts a memory trace into cache sets, annotates each reference with the next use of its
  block, and replays every set with a heap of next uses and a three-level lookup table. The misses
  it counts are the minimum over *every* demand-fetching replacement policy of a set-associative
  cache, knowing the whole trace or not, on every trace (`OptCpu.Simulate`). Its class comment speaks of a
  fully-associative cache; the code is set-associative and the model follows the code.
- **The decoder generator** (`DecodeTree`, `IsaParser`, `DecodeErrors`). The grammar actions of the
  ISA parser turn a decode tree into nested C `switch` statements without a `break` after a nested
  `switch`. The first instruction reached is always the one a reference decoder selects, and it is
  the only one exactly when its code leaves the function or nothing follows it on the way out.
  Exactly the trees all of whose parts are sound compile; the others are refused with their first problem.
- **Bit selectors** (`BitOps`, `BitMeaning`). `x<a:b>` becomes `bits(x, a, b)`. What the rewriting
  does to every statement is computed. The rewritten text evaluates to the selected bits exactly when
  selectors stand on names or bare groups and the text does not start with such a group.
- **Operand indices** (`IsaOperands`). Generated reads and writes use the slot that the generated
  constructor filled with their own register; with predicated operands exactly when the registers
  of the sub-list are a prefix of those of the master list and the sub-list has a predicated operand
  of its own, without which the running index is not declared.
- **libelf** (`Stailq`, `ElfTypes`, `ElfSections`, `ElfExtents`, `ElfOrder`, `ElfImage`, `ElfRegions`,
  `ElfUpdate`, `ElfDescriptors`, `ElfArchive`). The tail queue refines a sequence. Which sections are
  accepted, and the only place each can get, are determined. Section layout and re-sorting
  end for every list of sections; they succeed exactly under a stated order condition if sections
  without contents are out of the way, and the list comes out in order exactly if no section lies
  inside the headers and none without contents misleads the search. The file that is written, in
  either layout and with old and new sections, is what its headers say exactly if everything is
  written in file order and the program header table follows the file header. Every run of open
  and close calls keeps the descriptor counts right and loses a descriptor exactly for archives
  whose front cannot be read; archive iteration visits exactly the members behind the special ones.
- **The pipeline viewer** (`PipeView`). The bounded reorder queue prints in order exactly when every
  instruction arrives in time for the flushes before it. At most `min_threshold` places of
  displacement are enough for that, one more can be too many, and the comment in the source that
  more always comes out wrong holds only if the two thresholds are equal. Which instructions are never printed when the trace
  ends is determined.
- **On-chip networks** (`ShortestPath`, `Routing`, `Delivery`, `Network`, `Grid`, `Mesh`, `Torus`, `Topology`,
  `XYRouting`, `Cluster`). The in-place relaxation ends with the weight of a cheapest walk between every two
  switches, and with the latency and length of such a walk. If every router has a controller,
  messages between controllers that follow the routing tables always arrive, on a cheapest path,
  exactly if no link between different routers has weight 0. In the meshes and tori that the builders make, that cost is column distance plus twice
  row distance, round the ring in a torus, plus 2; a message for which it exceeds the weight that
  stands for a missing link never leaves its sender. With the choice that garnet's routers make
  between the entries of their tables, messages go along the row first and then along the column,
  as the builders intend. Clusters become trees.
- **Include sorting** (`IncludePatterns`, `IncludeLines`, `SortIncludes`, `IncludeKeys`, `IncludeBlocks`,
  `SortedTwice`). The nine regular expressions are functions on strings that match what the expressions
  read, first pattern and longest name. Every block is replaced in place by its groups, in which each
  directory is one stretch. No line is lost or made up, and sorting a file a second time changes
  nothing exactly if in every block no header moves to another class once it is cleaned up, or
  those that do are the whole of the first group behind a missing group of C headers.
- **Checksums, address maps, years** (`Checksum`, `AddrRangeMap`, `CopyrightYears`, `Decimals`,
  `Splitting`). The
  unrolled Internet checksum is the plain sum, verifies to zero and does not depend on byte order;
  point lookup in the address map is linear search as long as every insertion is safe; a list
  of years reads back exactly if years that follow one another have four digits.

Where a promise of the code turns out not to hold in general, there is a lemma with the inputs for
which it fails (`FallsIntoNextCase`, `SelectAstray`, `UndeclaredIndex`, `TouchingRejected`,
`OverlapAccepted`, `InsideHeaders`, `EmptyArchiveForgotten`, `OnePlaceTooMany`, `LateYetInOrder`,
`ZeroWeightStrands`, `ColumnHopInTables`, `ShortReadsOn`, `UnsafeInsert`, `NotIdempotent`,
`CommentDecides`) and a theorem that says when it holds.

Operating-system outcomes, user format code and field values are parameters. Machine integers are unbounded except where width matters (the ELF32 header fields, the
checksum, the 36-bit block addresses of the lookup table). Two loops of the sources are folded: the
sixteen unrolled additions of the checksum are one inner loop, and library sorting is insertion
sort.

## Model

| member | source | states |
|---|---|---|
| `OptCpu.Simulate` | gem5/src/cpu/trace/opt_cpu.cc:46-179 | on every trace the simulated misses are the minimum over all demand-fetching replacement policies; hits plus misses are the references |
| `OptCpu.OptCPU.constructor` | gem5/src/cpu/trace/opt_cpu.cc:46-103 | each set holds its references in trace order, annotated with next uses, and every table entry in use is -1 |
| `OptCpu.OptCPU.LogBlockSize` | gem5/src/cpu/trace/opt_cpu.cc:55-61 | for a power of two the shift found gives the block size back, so the assertion holds |
| `OptCpu.OptCPU.LoadTrace` | gem5/src/cpu/trace/opt_cpu.cc:62-71 | every reference goes to the set its address selects, in order |
| `OptCpu.OptCPU.AnnotateAll` | gem5/src/cpu/trace/opt_cpu.cc:76-84 | after the backward pass every reference knows the index of the next reference to its block in its set, or infinity |
| `OptCpu.OptCPU.FillCache` | gem5/src/cpu/trace/opt_cpu.cc:108-129 | filling keeps the simulation on an optimal course, and ends early only when the references do |
| `OptCpu.OptCPU.BuildHeap` | gem5/src/cpu/trace/opt_cpu.cc:130-132 | establishes the heap order without losing an entry, table in step |
| `OptCpu.OptCPU.ReplaceOne` | gem5/src/cpu/trace/opt_cpu.cc:137-147 | evicting the root on a miss keeps heap, table and optimal course |
| `OptCpu.OptCPU.TouchOne` | gem5/src/cpu/trace/opt_cpu.cc:148-158 | the three assertions made on a hit always pass; heap, table and optimal course are kept |
| `OptCpu.OptCPU.ProcessSet` | gem5/src/cpu/trace/opt_cpu.cc:105-161 | the misses added for a set are the optimum of that set |
| `OptCpu.OptCPU.Tick` | gem5/src/cpu/trace/opt_cpu.cc:162-173 | the misses of all sets together are the optimum of the whole cache |
| `OptCpu.OptCPU.HeapSwap` | gem5/src/cpu/trace/opt_cpu.hh:131-138 | exchanges two entries and keeps the table pointing at them |
| `OptCpu.OptCPU.Heapify` | gem5/src/cpu/trace/opt_cpu.hh:148-163 | sifting down from a hole restores the heap order from lo on and permutes the heap |
| `OptCpu.OptCPU.ProcessRankIncrease` | gem5/src/cpu/trace/opt_cpu.hh:179-186 | sifting up restores the heap order and permutes the heap |
| `OptHeap.RankIsFirstUse` | gem5/src/cpu/trace/opt_cpu.cc:76-84 | an annotation stays the first use of its block until that use |
| `OptHeap.RootIsMax` | gem5/src/cpu/trace/opt_cpu.hh:165-177 | the order between parents and children makes the root the maximum |
| `OptHeap.HitIsLeaf` | gem5/src/cpu/trace/opt_cpu.cc:151-154 | a block that is hit is where the table says, has the current index as rank and sits at a leaf, which is what the assertions claim |
| `OptHeap.RootIsFurthest` | gem5/src/cpu/trace/opt_cpu.cc:138-145 | on a miss the root is a cached block whose next use is furthest away |
| `Replacement.ServesExchange` | gem5/src/cpu/trace/opt_cpu.cc:138-145 | a cache that holds a block used sooner instead of one used later serves the same references with no more misses |
| `Replacement.ServesEvictFurthest` | gem5/src/cpu/trace/opt_cpu.cc:138-145 | m misses suffice from a full cache iff m - 1 suffice after evicting the block used furthest away |
| `Replacement.ServesHit` | gem5/src/cpu/trace/opt_cpu.cc:149-158 | on a hit nothing is lost by keeping the cache as it is |
| `Replacement.ServesFill` | gem5/src/cpu/trace/opt_cpu.cc:114-129 | with room left nothing is lost by only adding the block |
| `SetAssociative.SetOfPowerOfTwo` | gem5/src/cpu/trace/opt_cpu.cc:67-68 | with a power of two of sets the mask selects the set by remainder |
| `SetAssociative.SetSizesAddUp` | gem5/src/cpu/trace/opt_cpu.cc:167-173 | sorting a trace into sets loses no reference |
| `SetAssociative.RunSplits` | gem5/src/cpu/trace/opt_cpu.cc:168-173 | every run of the whole cache splits into services of its sets whose misses add up |
| `SetAssociative.SetsCompose` | gem5/src/cpu/trace/opt_cpu.cc:168-173 | the optimum of the cache is the sum of the optima of its sets |
| `LookupTable.IndicesDetermine` | gem5/src/cpu/trace/opt_cpu.hh:105-112 | no two addresses share a table entry |
| `LookupTable.Table.LookupValue` | gem5/src/cpu/trace/opt_cpu.hh:105-112 | reads the map that the three levels stand for |
| `LookupTable.Table.SetValue` | gem5/src/cpu/trace/opt_cpu.hh:117-124 | changes the map at one address only |
| `LookupTable.Table.InitTable` | gem5/src/cpu/trace/opt_cpu.cc:181-193 | makes an entry for the address; entries that exist keep their values, new ones get the initial value |
| `LookupTable.Table.Reset` | gem5/src/cpu/trace/opt_cpu.cc:86-97 | sets every existing entry to -1 and no other |
| `IsaParser.DecodeFunctionCorrect` | gem5/src/arch/isa_parser.py:1597-1719 | running the emitted switch reaches the reference decoder's instruction first, and it alone iff its code returns or nothing follows |
| `IsaParser.BlockRuns` | gem5/src/arch/isa_parser.py:1597-1606 | the same for a nested block under any inherited default, followed by any code |
| `IsaParser.ListArm` | gem5/src/arch/isa_parser.py:1629-1637 | jumping to a label in the code of a statement list runs the arm that the reference finds |
| `IsaParser.FallsIntoNextCase` | gem5/src/arch/isa_parser.py:1687-1695 | after a nested decode whose instruction does not return, control falls into the next case |
| `IsaParser.Parser.DecodeBlock` | gem5/src/arch/isa_parser.py:1597-1606 | emits the compiled block and leaves the default and format stacks as they were |
| `IsaParser.Parser.OptDefault` | gem5/src/arch/isa_parser.py:1612-1627 | pushes the block's own default, or the inherited one again |
| `IsaParser.Parser.DecodeStmtList` | gem5/src/arch/isa_parser.py:1629-1637 | joins the statements' code, refuses two defaults, restores both stacks |
| `IsaParser.Parser.DecodeStmt` | gem5/src/arch/isa_parser.py:1656-1704 | the four kinds of statements, format blocks leaving the format stack as it was |
| `DecodeErrors.CompilesIff` | gem5/src/arch/isa_parser.py:1597-1704 | a tree compiles iff every block, format block and instruction in it is sound: a default of its own or inherited and not two of its own, known formats, a format in force, code that the format can make |
| `DecodeErrors.BlockAnswers` | gem5/src/arch/isa_parser.py:1597-1704 | a tree that does not compile is refused with the first of its problems, in the order of the text |
| `DecodeErrors.ExplicitFormatFirst` | gem5/src/arch/isa_parser.py:1734-1761 | an instruction is compiled by the format it names, else by the one in force |
| `BitOps.SubstBitOps` | gem5/src/arch/isa_parser.py:363-390 | the two passes and the rewriting loop compute the rewriting that the lemmas are about, and end |
| `BitOps.FindOpen` | gem5/src/arch/isa_parser.py:372-382 | the backward search ends with the matching parenthesis, or gives up at the start of the text |
| `BitOps.TurnUsesSelector` | gem5/src/arch/isa_parser.py:371-389 | every turn of the loop removes exactly one selector |
| `BitOps.SubstInStatement` | gem5/src/arch/isa_parser.py:363-390 | in every statement all expressions are rewritten to Actual and the text between them is kept; the rewriting gives up iff a selected group comes first |
| `BitOps.ActualCorrect` | gem5/src/arch/isa_parser.py:369-389 | Actual is the meaning of the selectors iff all stand on names or bare groups |
| `BitOps.SelectAstray` | gem5/src/arch/isa_parser.py:371-389 | a selector on a call or on another selector is always rewritten wrongly |
| `BitOps.SubstCorrect` | gem5/src/arch/isa_parser.py:363-390 | a statement is desugared correctly iff all its expressions are plain and it does not start with a selected group |
| `BitMeaning.BitsAreSelected` | gem5/src/base/bitfield.hh:52-59 | shifting and masking yields bits first to last of the value, bit by bit |
| `BitMeaning.DesugaredMeans` | gem5/src/arch/isa_parser.py:363-390 | read as an expression, the text with calls of bits evaluates to the selected bits, for every expression |
| `BitMeaning.ActualMeansIff` | gem5/src/arch/isa_parser.py:369-389 | what the rewriting makes of an expression evaluates to the selected bits iff all selectors stand on names or bare groups; else it is no expression |
| `BitMeaning.SubstMeansIff` | gem5/src/arch/isa_parser.py:363-390 | the same of the whole rewriting behind any text, which gives up iff a selected group comes first |
| `IsaOperands.Enumerate` | gem5/src/arch/isa_parser.py:814-848 | static indices count the register operands before each one; the flags say whether any predicate exists |
| `IsaOperands.ConstructorBuilds` | gem5/src/arch/isa_parser.py:537-555 | the generated constructor fills the arrays with the registers whose predicates hold, in order |
| `IsaOperands.OwnArrays` | gem5/src/arch/isa_parser.py:537-555 | an operand goes to the array of its role, under its own predicate for that role if it is an integer register |
| `IsaOperands.OwnAccess` | gem5/src/arch/isa_parser.py:557-599 | an operand is read or written in its role only, under its own predicate for that role if it is an integer register |
| `IsaOperands.OwnSlotHolds` | gem5/src/arch/isa_parser.py:537-555 | the slot of an operand whose predicate holds contains its own register |
| `IsaOperands.StaticAgrees` | gem5/src/arch/isa_parser.py:557-599 | without predicates every operand of any sub-list accesses its own register |
| `IsaOperands.DynamicAgreesIff` | gem5/src/arch/isa_parser.py:557-599 | with predicates the indices used agree in every state iff the registers of the sub-list are a prefix of the master list's |
| `IsaOperands.DynamicWorksIff` | gem5/src/arch/isa_parser.py:177-185 | the generated code declares the index it uses and every access uses its own slot, in every state, iff that prefix holds and the sub-list is predicated itself or accesses no register |
| `IsaOperands.RightRegistersIff` | gem5/src/arch/isa_parser.py:557-599 | that prefix always finds the right registers; if no two operands share a register nothing else does in every state |
| `IsaOperands.UndeclaredIndex` | gem5/src/arch/isa_parser.py:182-185 | a sub-list without the predicated operand uses an index that nothing declares, although the indices would agree |
| `IsaOperands.WholeListWorks` | gem5/src/arch/isa_parser.py:177-185 | the whole list in its own order always works |
| `IsaOperands.PrefixAgrees` | gem5/src/arch/isa_parser.py:557-599 | such a prefix gives every access its own index, in every state |
| `IsaOperands.AgreeingIsPrefix` | gem5/src/arch/isa_parser.py:177-181 | agreement when all predicates hold already forces the prefix |
| `IsaOperands.ComposeWriteback` | gem5/src/arch/isa_parser.py:206-220 | write-backs keep operand order and the PC is written once, right after the last of its parts |
| `Stailq.Head.Init` | gem5/ext/libelf/elf_queue.h:249-252 | an empty queue whose last pointer is the head slot |
| `Stailq.Head.InsertHead` | gem5/ext/libelf/elf_queue.h:260-264 | puts the element in front; last pointer kept right |
| `Stailq.Head.InsertTail` | gem5/ext/libelf/elf_queue.h:266-270 | puts the element behind; last pointer kept right |
| `Stailq.Head.InsertAfter` | gem5/ext/libelf/elf_queue.h:254-258 | puts the element behind a given one |
| `Stailq.Head.Remove` | gem5/ext/libelf/elf_queue.h:280-293 | takes a member out, its search loop ending; last pointer kept right |
| `Stailq.Head.RemoveHead` | gem5/ext/libelf/elf_queue.h:295-299 | takes the first element out |
| `Stailq.Head.Concat` | gem5/ext/libelf/elf_queue.h:226-232 | appends one queue to another and empties it |
| `ElfSections.ComputeSectionExtents` | gem5/ext/libelf/elf_update.c:74-226 | new offset, size and data offsets of a section, or rejection leaving it alone, as Extent describes; what that is, AcceptedIff, ExtentLaid and LaidOutOnce say |
| `ElfSections.SectionAlignment` | gem5/ext/libelf/elf_update.c:136-160 | the largest alignment of the data, or the rejections the loop makes |
| `ElfSections.SectionData` | gem5/ext/libelf/elf_update.c:162-173 | data placed one behind the other at aligned offsets, or the end of data placed by the application |
| `ElfSections.ComputeExtents` | gem5/ext/libelf/elf_update.c:281-284 | all sections laid out in list order, or failure |
| `ElfExtents.AcceptedIff` | gem5/ext/libelf/elf_update.c:117-184 | a section gets an extent iff it is hollow or clean, or its type is known, its data have that type, the version and powers of two that suit the alignment, and in application layout fit it |
| `ElfExtents.ExtentLaid` | gem5/ext/libelf/elf_update.c:164-225 | an extent is the first place at the least alignment that header and data ask for, with the data packed at that alignment and the entry size of the type |
| `ElfExtents.LaidOutOnce` | gem5/ext/libelf/elf_update.c:164-225 | there is only one such extent |
| `ElfExtents.ExtentsLaid` | gem5/ext/libelf/elf_update.c:281-284 | all sections are laid out iff each is acceptable, each behind the end of those before it |
| `ElfSections.InsertSection` | gem5/ext/libelf/elf_update.c:233-264 | inserts before the first section that does not end before it, unless it reaches that section |
| `ElfOrder.OrderSections` | gem5/ext/libelf/elf_update.c:286-313 | for every list: ends, and succeeds iff the pure walk does; then the list is a permutation in the order of that walk and rc its end; sections in order stay where they are |
| `ElfOrder.TurnSound` | gem5/ext/libelf/elf_update.c:286-313 | why the loop ends although sections can be put behind the one to be visited next: each is moved there at most once |
| `ElfOrder.SortedIff` | gem5/ext/libelf/elf_update.c:286-313 | if sections without contents end before the others start, the walk succeeds iff the list is admissible, wherever sections lie, and sorts it |
| `ElfOrder.SortedIsOrdered` | gem5/ext/libelf/elf_update.c:286-313 | with all sections past the headers the walk is the pass that places them one after the other |
| `ElfOrder.SortedFacts` | gem5/ext/libelf/elf_update.c:296-318 | a successful walk loses no section and its end of file is the end of the last section, so the two cursors agree |
| `ElfOrder.InsideHeaders` | gem5/ext/libelf/elf_update.c:300-307 | a section that lies inside the headers is accepted where it is |
| `ElfOrder.ResyncSections` | gem5/ext/libelf/elf_update.c:266-318 | succeeds iff every section can be given a place and the walk succeeds; leaves the places of the first pass in the order of the walk; if sections without contents end before the others start, that is iff the list is admissible, and it is sorted |
| `ElfSections.OrderedAscendingIff` | gem5/ext/libelf/elf_update.c:240-257 | with any sections without contents, a successful pass sorts iff none of them, in the list given to it, stops the search for a moved section in front of a section that stays and starts before the moved one ends |
| `ElfSections.HollowMisplaces` | gem5/ext/libelf/elf_update.c:240-257 | a section without contents makes a successful pass put a section in front of one that does not lie behind it |
| `ElfSections.OverlapAccepted` | gem5/ext/libelf/elf_update.c:240-257 | so a list with one section inside another is accepted |
| `ElfSections.OrderedInOrder` | gem5/ext/libelf/elf_update.c:300-313 | sections listed in order are not moved |
| `ElfSections.TouchingRejected` | gem5/ext/libelf/elf_update.c:296-310 | two sections that touch are accepted in one list order and rejected in the other |
| `ElfSections.MaxEndAttained` | gem5/ext/libelf/elf_update.c:312-315 | the returned end is the end of some section that occupies the file |
| `ElfRegions.ExtentFit` | gem5/ext/libelf/elf_update.c:164-225 | in every layout the data of a section that can be translated lie inside it as whole objects at its alignment; in library layout one behind the other |
| `ElfRegions.FileLenExact` | gem5/ext/libelf/elf_update.c:583-590 | data of whole objects take the file size of one object for each |
| `ElfUpdate.LibraryInOrder` | gem5/ext/libelf/elf_update.c:281-313 | in library layout the list is in order iff the sections that keep their places start behind everything before them |
| `ElfUpdate.SortedInOrder` | gem5/ext/libelf/elf_update.c:286-313 | a list in order is left as it is |
| `ElfUpdate.SortedInOrderIff` | gem5/ext/libelf/elf_update.c:286-313 | a successful walk leaves the list in order iff no section lies inside the headers and none without contents misleads the search |
| `ElfUpdate.Object.ResyncElf` | gem5/ext/libelf/elf_update.c:408-494 | succeeds iff the tables fit where the application puts them and the sections can be laid out; header table, sections and section table are aligned, each section is at its only place, the section table at the first aligned place behind all, the list in the order of the walk, the size predicted their end; header fields as stored |
| `ElfUpdate.WriteScn` | gem5/ext/libelf/elf_update.c:501-600 | writes the data of a section, or the bytes of the file it was read from, and the gaps before them; fails iff that file is needed and not there |
| `ElfUpdate.Object.WriteHeaders` | gem5/ext/libelf/elf_update.c:663-721 | writes the file header and the program headers; unless the table follows the file header its first byte is not where e_phoff says |
| `ElfUpdate.Object.WriteSections` | gem5/ext/libelf/elf_update.c:727-729 | writes all sections in list order |
| `ElfUpdate.Object.WriteShdrs` | gem5/ext/libelf/elf_update.c:735-767 | fills up to the section table and writes it to the end of the file |
| `ElfUpdate.Object.WriteElf` | gem5/ext/libelf/elf_update.c:620-772 | ends at the predicted size iff there are fewer than 0xff00 sections; then the image is faithful iff its regions are in file order and the program header table follows the file header |
| `ElfUpdate.TableLost` | gem5/ext/libelf/elf_update.c:710-720 | a program header table that the application puts further back than the file header is not found there in the image |
| `ElfUpdate.Object.Update` | gem5/ext/libelf/elf_update.c:835-884 | layout and writer together, for both layouts and all sections: exact success, places of the sections, exact faithfulness of the image; in library layout, with kept sections in order, the list is unchanged and the image faithful |
| `ElfUpdate.FileInOrder` | gem5/ext/libelf/elf_update.c:727-767 | sections past the headers, none misleading, with data in order give a file in order |
| `ElfRegions.HeadersOverwritten` | gem5/ext/libelf/elf_update.c:727-729 | contents that start inside the headers never give a file in order |
| `ElfImage.FaithfulIff` | gem5/ext/libelf/elf_update.c:710-766 | writing regions one after the other with filler before them shows every region at its place and filler elsewhere iff no region reaches beyond the start of a later one |
| `ElfImage.Passed` | gem5/ext/libelf/elf_update.c:738-742 | everything between the start of a region and the end of the file is written again after it |
| `ElfImage.Emit` | gem5/ext/libelf/elf_update.c:738-765 | fills the gap and writes one region |
| `ElfDescriptors.Library.Begin` | gem5/ext/libelf/elf_begin.c:82-154 | returns a descriptor iff the version is set and the arguments and bytes allow it: a new one of the right kind, command and file, a member, or the given one activated again; counts of open members and mappings stay right and no mapping is left behind; loses one descriptor iff it reads an archive whose front does not open |
| `ElfDescriptors.Library.OpenObject` | gem5/ext/libelf/elf_begin.c:39-80 | a new descriptor with its own mapping, or nothing; the descriptor of a bad archive is lost |
| `ElfDescriptors.Library.OpenMember` | gem5/ext/libelf/libelf_ar.c:279-321 | a new member below its archive, whose count goes up by one; the descriptor of a bad archive in the archive is lost |
| `ElfDescriptors.Library.Memory` | gem5/ext/libelf/elf_memory.c:35-89 | a descriptor of the kind the bytes say, or none; it is lost iff the bytes start an archive whose front does not open |
| `ElfDescriptors.ForgottenIff` | gem5/ext/libelf/elf_memory.c:63-88 | bytes lead to a lost descriptor iff they start with the archive magic and the search of the front fails |
| `ElfDescriptors.ArchiveForgottenIff` | gem5/ext/libelf/libelf_ar.c:344-391 | of the well-formed archives exactly those without members and those with a single slash-named one |
| `ElfDescriptors.EmptyArchiveForgotten` | gem5/ext/libelf/libelf_ar.c:350-353 | the archive without members is such a case |
| `ElfDescriptors.Library.Allocate` | gem5/ext/libelf/libelf_allocate.c:40-66 | a descriptor with one activation and no members |
| `ElfDescriptors.Library.End` | gem5/ext/libelf/elf_end.c:36-85 | returns one activation less; releases exactly descriptors without activations and open members, each once, and the mappings they own |
| `ElfDescriptors.Library.Climb` | gem5/ext/libelf/elf_end.c:50-82 | releases upward as long as the parent is no longer in use |
| `ElfDescriptors.Library.ReleaseOne` | gem5/ext/libelf/elf_end.c:75-81 | the parent's count goes down by one; exactly the mapping that the descriptor owns goes with it |
| `ElfDescriptors.MappingUnshared` | gem5/ext/libelf/elf_end.c:75-76 | when a file descriptor is released nobody else uses its mapping |
| `ElfDescriptors.Library.NoneInUse` | gem5/ext/libelf/elf_end.c:36-85 | when every activation is given back no descriptor is in use; only lost ones remain |
| `ElfArchive.GetNumber` | gem5/ext/libelf/libelf_ar.c:76-107 | blanks, then digits up to a blank or a digit outside the base; fails at other characters |
| `ElfArchive.NumberRoundTrip` | gem5/ext/libelf/libelf_ar.c:76-107 | a number written in decimal and padded with blanks reads back |
| `ElfArchive.NumberReads` | gem5/ext/libelf/libelf_ar.c:76-107 | of every field, in every base: the digits behind the blanks count up to a blank, the end or a digit too large for the base, and any other character is an error |
| `ElfArchive.Archive.Open` | gem5/ext/libelf/libelf_ar.c:323-394 | where reading starts and the two tables, or the failures of the search |
| `ElfArchive.OpensIff` | gem5/ext/libelf/libelf_ar.c:344-391 | any file opens iff its first or second member has no slash name or both have one; reading starts there; a size of 0 aborts |
| `ElfArchive.TablesFound` | gem5/ext/libelf/libelf_ar.c:370-386 | in every archive that opens, the symbol table is the data of the skipped member named with one slash, the table of long names that of the one named with two |
| `ElfArchive.OpenFindsFirst` | gem5/ext/libelf/libelf_ar.c:344-391 | in every archive reading starts behind the leading slash names, of which at most two are skipped; with no member left it fails, except behind two, where it stops at the end of the file |
| `ElfArchive.StartsInsideIff` | gem5/ext/libelf/libelf_ar.c:289-300 | the first header to be read lies inside the file iff a member is left |
| `ElfArchive.StartsAtFirstOrdinary` | gem5/ext/libelf/libelf_ar.c:362-389 | that is the first ordinary member iff both tables are there or its name has no slash in front |
| `ElfArchive.Archive.OpenMember` | gem5/ext/libelf/libelf_ar.c:289-312 | the stretch of the member at the cursor, or why there is none, including a header that does not lie in the file |
| `ElfArchive.Archive.Advance` | gem5/ext/libelf/elf_next.c:53-56 | the cursor goes to the next even offset, or to 0 at the end of the file |
| `ElfArchive.Archive.Visit` | gem5/ext/libelf/elf_next.c:34-59 | repeated opening and advancing visits all members from the cursor on, in order, up to the first that is not accepted, then stops |
| `ElfArchive.ReadArchive` | gem5/ext/libelf/libelf_ar.c:279-394 | the same from opening the archive, for every archive: what opens, what is visited and how the last attempt ends |
| `ElfArchive.VisitsInOrder` | gem5/ext/libelf/elf_next.c:53-56 | offsets are even and strictly increasing, members do not overlap |
| `ElfArchive.VisitsData` | gem5/ext/libelf/libelf_ar.c:300-311 | the bytes visited are the data of the member |
| `ElfArchive.WrittenIsArchive` | gem5/ext/libelf/libelf_ar.c:41-46 | concatenating padded members gives a file of the described format |
| `PipeView.RunConserves` | gem5/util/o3-pipeview.py:153-165 | printed and waiting instructions are the queued ones, with multiplicity; the queue stays within max_threshold |
| `PipeView.RunInStep` | gem5/util/o3-pipeview.py:153-165 | while instructions arrive in time, nothing still to come belongs before what was printed |
| `PipeView.PrintedInOrder` | gem5/util/o3-pipeview.py:47-57 | with no instruction displaced by more than min_threshold places all output is in order |
| `PipeView.PrintedInOrderIff` | gem5/util/o3-pipeview.py:153-165 | the output is in order iff for every flush and every instruction after it at most min_threshold earlier ones have a larger number |
| `PipeView.LateYetInOrder` | gem5/util/o3-pipeview.py:51-52 | more displacement can still come out in order, for all thresholds that differ |
| `PipeView.EqualThresholds` | gem5/util/o3-pipeview.py:51-52 | with equal thresholds the output is in order iff no instruction is displaced by more than min_threshold places |
| `PipeView.LeftAtEnd` | gem5/util/o3-pipeview.py:142-158 | never printed when the trace ends are the min_threshold largest up to the last flush and all instructions after it |
| `PipeView.AllPrinted` | gem5/util/o3-pipeview.py:160-165 | emptying the queue at the end prints every instruction as often as it was queued |
| `PipeView.OnePlaceTooMany` | gem5/util/o3-pipeview.py:51-52 | for all thresholds one more place of displacement can come out wrong |
| `PipeView.Viewer.QueueInst` | gem5/util/o3-pipeview.py:153-158 | queueing in place follows the run that the lemmas are about |
| `PipeView.Viewer.PrintInsts` | gem5/util/o3-pipeview.py:161-182 | pops the smallest down to the threshold and shows those inside the window |
| `PipeView.ShownExactly` | gem5/util/o3-pipeview.py:166-181 | shown are exactly the instructions inside the tick window, and committed if asked for, each once and in order |
| `ShortestPath.Relax` | gem5/src/mem/ruby/network/Topology.cc:296-317 | one pair takes the best detour; latency and switch count are those of the same detour |
| `ShortestPath.Pass` | gem5/src/mem/ruby/network/Topology.cc:293-319 | a pass lowers the total of the matrix, or changes nothing and no detour improves anything |
| `ShortestPath.ExtendShortestPath` | gem5/src/mem/ruby/network/Topology.cc:285-321 | ends with the weight of a cheapest walk between every two switches, and the latency and intermediate switches of one such walk |
| `ShortestPath.RelaxedIsLeast` | gem5/src/mem/ruby/network/Topology.cc:299-301 | no walk of any length is cheaper than a matrix without improving detours says |
| `ShortestPath.TotalBelow` | gem5/src/mem/ruby/network/Topology.cc:292-312 | why the loop ends: totals of smaller matrices are smaller |
| `Routing.CountSwitches` | gem5/src/mem/ruby/network/Topology.cc:146-157 | one past the highest switch that a link touches |
| `Routing.FillMatrices` | gem5/src/mem/ruby/network/Topology.cc:155-193 | weights of links, 0 on the diagonal, the infinite weight elsewhere; latencies of links, -1 elsewhere |
| `Routing.ShortestPathToNode` | gem5/src/mem/ruby/network/Topology.cc:338-364 | exactly the machines whose output queue the link leads to on a cheapest path |
| `Routing.MakeTables` | gem5/src/mem/ruby/network/Topology.cc:198-207 | a table for each link of positive finite weight |
| `Routing.CreateLinks` | gem5/src/mem/ruby/network/Topology.cc:143-208 | cheapest walks and the tables that follow from them |
| `Routing.TablesHoldHops` | gem5/src/mem/ruby/network/Topology.cc:201-204 | a machine is in the table of a link iff the link is a hop of a cheapest path to it |
| `Routing.RoutesDeliver` | gem5/src/mem/ruby/network/Topology.cc:331-336 | whichever table entries a message follows, it is stuck only at its destination, arrives within dist hops, and on a cheapest path |
| `Delivery.ReliableIff` | gem5/src/mem/ruby/network/Topology.cc:199-204 | if every router has a machine, messages between machines are stuck only at their destination's output iff no link between different switches has weight 0 |
| `Delivery.TablesDeliverIff` | gem5/src/mem/ruby/network/Topology.cc:198-207 | the same of the routing tables: whichever entries a message follows, there is a next one until it reaches its destination, iff so |
| `Delivery.AllArrive` | gem5/src/mem/ruby/network/Topology.cc:331-336 | without weight 0 every message between machines within reach arrives, whether or not every router has a machine |
| `Delivery.ZeroWeightStrands` | gem5/src/mem/ruby/network/Topology.cc:199-204 | a link of weight 0 between different switches strands the message of some machine to another |
| `Delivery.RouterStuck` | gem5/src/mem/ruby/network/Topology.cc:199-204 | at a router with a link of weight 0 to the destination's router no table entry leads on |
| `Topology.NetworkDeliversIff` | gem5/src/mem/ruby/network/Topology.cc:82-123 | of the link map built from external and internal links: all messages within reach are served iff the internal links that count between different routers have weight |
| `Routing.NoHop` | gem5/src/mem/ruby/network/Topology.cc:199-202 | no table entry leads over a link of weight 0, so a message between its ends is stuck |
| `Network.Attach` | gem5/configs/topologies/Mesh.py:63-87 | one external link per controller, ids in order, round the routers; fails iff a controller left over is not DMA |
| `Network.EvenLoad` | gem5/configs/topologies/Mesh.py:61-87 | every router gets the same number of controllers, router 0 the remainder as well |
| `Mesh.MakeTopology` | gem5/configs/topologies/Mesh.py:42-114 | fails iff the grid is not full or a controller does not fit; else exactly the links of the grid, rows from west to east before columns from north to south, with consecutive ids |
| `Mesh.CheapestPath` | gem5/configs/topologies/Mesh.py:89-112 | the cheapest path between two routers costs column distance plus twice row distance |
| `Torus.MakeTopology` | gem5/configs/topologies/Torus.py:47-126 | the same with wrap-around links of latency 2 |
| `Torus.CheapestPath` | gem5/configs/topologies/Torus.py:94-124 | each distance is min(d, n - d) |
| `Grid.CheapestIsDistance` | gem5/configs/topologies/Torus.py:94-124 | both results at once: some path reaches the distance and no path is cheaper |
| `Topology.BuildLinkMap` | gem5/src/mem/ruby/network/Topology.cc:82-123 | every link gives two one-way entries and there are no others; of several links between two switches the last counts |
| `Topology.ControllerDistance` | gem5/src/mem/ruby/network/Topology.cc:184-197 | in the network of every mesh or torus the matrix holds the router distance plus 2 for every two controllers, up to the weight of a missing link |
| `Topology.FirstLeg` | gem5/src/mem/ruby/network/Topology.cc:199-204 | a message leaves its controller, and only for its router, iff the cost of its path is not above the weight of a missing link |
| `Topology.RouteGrid` | gem5/src/mem/ruby/network/Topology.cc:143-208 | builder, link map and relaxation together: that cost for every two controllers of every mesh or torus that can be built |
| `Topology.MessageArrives` | gem5/src/mem/ruby/network/Topology.cc:195-207 | every message between two controllers arrives at exactly that cost; above the weight of a missing link it is stuck at its sender |
| `XYRouting.RouteCompute` | gem5/src/mem/ruby/network/garnet/fixed-pipeline/RoutingUnit_d.cc:65-90 | the loop chooses the first link of least weight whose table holds the destination, and none iff no such link is lighter than the infinite weight |
| `XYRouting.ChosenHop` | gem5/src/mem/ruby/network/garnet/fixed-pipeline/RoutingUnit_d.cc:65-90 | a link of least weight goes along the row while the destination is in another column, then along the column, then to the destination |
| `XYRouting.RowThenColumn` | gem5/configs/topologies/Torus.py:94-124 | in every mesh or torus whoever follows such choices goes along the first row and then stays in the destination's column: XY routing |
| `XYRouting.ColumnHopInTables` | gem5/src/mem/ruby/network/Topology.cc:198-204 | the tables alone do not give XY routing: they hold a hop along the column in every other row, of weight 2 |
| `Cluster.Builder.MakeTopology` | gem5/configs/topologies/Cluster.py:76-116 | builds the network that the lemmas are about from the shared counters |
| `Cluster.ClusterIsTree` | gem5/configs/topologies/Cluster.py:76-120 | one router per cluster, one internal link fewer than routers, one external link per controller, consecutive ids |
| `Cluster.Connected` | gem5/configs/topologies/Cluster.py:83-105 | every router is connected to the router of the outermost cluster |
| `Cluster.BuildMembers` | gem5/configs/topologies/Cluster.py:83-114 | every nested cluster is linked to the cluster around it and every controller to its own, in order; settings of a nested cluster override those around it |
| `Checksum.CksumAdd` | gem5/ext/dnet/ip.h:427-476 | the unrolled loop adds the words it reads and the odd byte, within an int |
| `Checksum.PlainWhenLong` | gem5/ext/dnet/ip.h:433-473 | from two bytes on these are exactly the words of the buffer |
| `Checksum.ShortReadsOn` | gem5/ext/dnet/ip.h:433-471 | for 0 or 1 bytes the result depends on what lies behind the buffer |
| `Checksum.CksumCarry` | gem5/ext/dnet/ip.h:478-483 | folding gives the complement of the ones' complement sum |
| `Checksum.Cksum` | gem5/src/base/inet.cc:190-195 | the complement of the ones' complement sum of what is read; from two bytes on the checksum of section 1 of RFC 1071 |
| `Checksum.StoredChecksumVerifies` | gem5/ext/dnet/ip.h:427-483 | a buffer with its checksum stored in a zero word has checksum zero |
| `Checksum.ByteOrderIndependent` | gem5/ext/dnet/ip.h:427-483 | hosts of both byte orders compute the same two bytes, for every length |
| `Checksum.ExchangedChecksum` | gem5/ext/dnet/ip.h:427-483 | exchanging the bytes of every word exchanges the bytes of the checksum, as in section 2(B) of RFC 1071 |
| `AddrRangeMap.FindAddress` | gem5/src/base/addr_range_map.hh:114-124 | looking up an address returns the one range that contains it, or the end |
| `AddrRangeMap.OverlapMeans` | gem5/src/base/addr_range_map.hh:76-86 | two ranges overlap iff some address is in both |
| `AddrRangeMap.FindMisses` | gem5/src/base/addr_range_map.hh:68-89 | a range lookup misses an overlap iff the entry before does not reach the range and a later one starts inside it |
| `AddrRangeMap.InsertedDisjoint` | gem5/src/base/addr_range_map.hh:136-143 | an insertion keeps the ranges disjoint iff it is safe in that sense |
| `AddrRangeMap.FoundThrough` | gem5/src/base/addr_range_map.hh:136-143 | after any insertion the addresses of the new range below the next start are found through it, the others as if it had not been inserted |
| `AddrRangeMap.UnsafeInsert` | gem5/src/base/addr_range_map.hh:136-143 | an insertion makes addresses of the new range unreachable through it iff it is not safe |
| `AddrRangeMap.RangeMap.FindAddr` | gem5/src/base/addr_range_map.hh:114-124 | lookup agrees with searching all entries |
| `AddrRangeMap.RangeMap.Intersect` | gem5/src/base/addr_range_map.hh:126-134 | for any range, true only for an overlap, and for every overlap when safe |
| `AddrRangeMap.RangeMap.Insert` | gem5/src/base/addr_range_map.hh:136-143 | adds exactly one entry unless an overlap is seen or, for a range that ends before it starts, its key exists; disjointness kept iff nothing is added or the insertion is safe |
| `AddrRangeMap.RangeMap.Erase` | gem5/src/base/addr_range_map.hh:151-155 | removes one entry and keeps the rest in order and disjoint |
| `CopyrightYears.DateStr` | gem5/util/find_copyrights.py:175-199 | prints the longest runs of consecutive years in increasing order; fails for no years |
| `CopyrightYears.ProcessDates` | gem5/util/find_copyrights.py:99-116 | the union of the years of all items |
| `Splitting.SplitParts` | gem5/util/find_copyrights.py:100 | every text is the join of its parts, none of which holds the separator |
| `Splitting.SplitJoin` | gem5/util/find_copyrights.py:100 | parts without the separator come back from their join |
| `CopyrightYears.RangeFound` | gem5/util/find_copyrights.py:98-106 | an item is a range only if it starts with four digits, a dash with blanks around it and four digits |
| `CopyrightYears.RangeItem` | gem5/util/find_copyrights.py:98-108 | such an item stands for all years from the first to the second, whatever blanks surround it |
| `CopyrightYears.YearItem` | gem5/util/find_copyrights.py:109-112 | an item of digits stands for that year, whatever blanks surround it |
| `CopyrightYears.YearsRoundTripIff` | gem5/util/find_copyrights.py:98-116 | reading what was printed gives back the set of years iff years that follow one another have four digits |
| `CopyrightYears.RoundTrip` | gem5/util/find_copyrights.py:175-199 | printing and reading any set of years in place gives it back iff so |
| `SortIncludes.SortIncludes.Call` | gem5/util/sort_includes.py:105-176 | the generator writes what Process describes |
| `IncludeBlocks.BlocksInPlace` | gem5/util/sort_includes.py:105-176 | a file made of other lines and blocks comes out with the other lines in place and every block replaced by its groups, and a blank line behind it iff there was one |
| `IncludeBlocks.FileRendered` | gem5/util/sort_includes.py:105-176 | every file is made in this way, so this is what the generator writes for it |
| `SortIncludes.SortIncludes.DumpBlock` | gem5/util/sort_includes.py:83-103 | classes in order, one blank line between them |
| `SortIncludes.DumpGroup` | gem5/util/sort_includes.py:96-103 | the sorted lines of a class without neighbouring repeats |
| `SortIncludes.SortStable` | gem5/util/sort_includes.py:99-100 | sorting keeps the order of lines with equal keys |
| `SortIncludes.TidyProperties` | gem5/util/sort_includes.py:96-103 | each class comes out sorted by key, with exactly its set of includes, and stable under another pass |
| `IncludeKeys.TextFound` | gem5/util/sort_includes.py:30-37 | the text that the key is made from is what the regular expression reads: most in front of the delimiter, then most inside |
| `IncludeKeys.TextNone` | gem5/util/sort_includes.py:34-35 | no text is found iff the regular expression cannot read the line |
| `IncludeKeys.NameReadIff` | gem5/util/sort_includes.py:30-37 | for every cleaned-up line the assertion holds, and the text is the header's name iff nothing behind the name closes and nothing in it opens |
| `IncludeKeys.CommentDecides` | gem5/util/sort_includes.py:30-37 | a header in a comment is sorted by instead of the header of the line |
| `IncludeKeys.DirectoriesFirstIff` | gem5/util/sort_includes.py:31-50 | in every directory, subdirectories come before a file iff the directory is not dnet and the name of the file starts above the blank |
| `IncludeKeys.FilesByName` | gem5/util/sort_includes.py:41-50 | files of one directory are ordered by name; those of dnet have equal keys |
| `IncludeKeys.LineUnderIff` | gem5/util/sort_includes.py:39-50 | a key starts with the prefix of a directory iff the header lies in it |
| `IncludeKeys.OneStretch` | gem5/util/sort_includes.py:96-103 | in the output for a class the headers below one directory, however deep, form one stretch |
| `IncludePatterns.CleanAgain` | gem5/util/sort_includes.py:59-69 | a cleaned-up line is an include again and stays as it is; its class can only change from stl or cc to c |
| `IncludePatterns.ChangesClassIff` | gem5/util/sort_includes.py:60-63 | exactly those lines change class in whose text the pattern for C headers finds a longer name, and they have several blanks |
| `IncludeLines.MatchIff` | gem5/util/sort_includes.py:59-69 | each of the nine pattern functions matches exactly the lines that its regular expression reads |
| `IncludeLines.ClassifiedIff` | gem5/util/sort_includes.py:121-146 | a line is an include iff one of the expressions reads it |
| `IncludeLines.FirstAndLongest` | gem5/util/sort_includes.py:121-124 | every include line has a first pattern and a longest name |
| `IncludeLines.WrittenAs` | gem5/util/sort_includes.py:121-140 | it gets that pattern's class and is written with one blank and otherwise as it was, except that in C++ files the seventeen C headers become their C++ headers |
| `SortedTwice.ReadsBack` | gem5/util/sort_includes.py:110-146 | reading back what was written for a block leads into a block of the same lines, each in the class it now has |
| `SortedTwice.ReadBackAt` | gem5/util/sort_includes.py:121-140 | every class is read back from its own group, C headers from the groups of stl and cc as well |
| `SortedTwice.SettledIff` | gem5/util/sort_includes.py:83-103 | a block is written as before iff no line moves, or those that move are the whole of the first group behind a missing group of C headers |
| `SortedTwice.IdempotentIff` | gem5/util/sort_includes.py:105-176 | sorting the output again changes nothing iff every block of the file is settled in that sense |
| `SortedTwice.Idempotent` | gem5/util/sort_includes.py:105-176 | in particular if no line of the file changes class |
| `SortedTwice.NotIdempotent` | gem5/util/sort_includes.py:60-63 | a C header and a standard header with two blanks and a C header in its comment: the second pass moves it |
| `SortedTwice.OthersKept` | gem5/util/sort_includes.py:147-171 | lines that are neither blank nor includes are all kept, in order, in every file |
| `SortedTwice.LinesKept` | gem5/util/sort_includes.py:105-176 | the lines written are exactly the lines read, includes cleaned up |
| `SortedTwice.DumpLines` | gem5/util/sort_includes.py:83-103 | a block keeps exactly its set of cleaned-up includes |

## Left out

- ElfOrder.SortedIff: for lists in which sections without contents lie among the others and sections lie inside the headers, the walk is modelled and ends, but no condition on the list for its success is given.
- ElfUpdate.Object.Update: in library layout an ELF32 image of 4 GiB or more is laid out but not written, because the stored offsets are truncated; a raw descriptor that the application fetched before changing the size of its section is not modelled.
- Routing.RoutesDeliver: links have positive weight, which Delivery.ReliableIff shows to be necessary, and the destination has no link to itself, which no output queue has.
- OptCPU: the trace reader, event scheduling and printed statistics; block addresses beyond 36 bits, which an assertion excludes.
- The fully-associative LRU tag store, whose insertion is empty at this commit, and the rest of the cache and memory system.
- ISA parser: lexing, the `exec` of format code (a parameter), header, decoder and exec outputs, and the effect of preprocessor directives.
- Bit selectors: text is a sequence of tokens, so a name and the `bits` put behind it stay apart, while in the text they run together; the comment shows `<n>` for one bit, the code needs `<n:>`.
- Operand lists: the regular expressions that find operands, and custom read or write code.
- libelf: error codes, so that calls only succeed or fail; translation of data is opaque; header identity checks, the fields of section 0 for extended numbering, and wrap-around of 64-bit sizes.
- ElfDescriptors.Library.Begin: the outcomes of system calls are parameters; archives whose special members have size 0 are excluded, because an assertion ends the program there.
- The pipeline viewer's trace parsing and formatting.
- Network builders: negative counts; MeshDirCorners, whose DMA links reuse ids; the simple network, and of garnet all but the choice of an output link.
- Clusters: values rather than objects, so a cluster that contains itself is not covered, and the router a cluster keeps is a result of the build.
- Year lists: negative years, and the copyright blocks and owners around them.
- Include sorting: lines hold no line breaks.
- IncludeKeys.DirectoriesFirstIff: files whose names start with a blank, which the key does not tell from directories.
- Command-line scripts, configuration files, gzstream, and the field accessors of libelf, which would only add easy members.
