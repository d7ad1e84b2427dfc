# Boot staging: a verified model

This project models the parts of the boot-staging library that turn untrusted bytes into guest
memory, and proves that each compact in-place algorithm computes a simple mathematical object:

* the stage-1 page tables: a growing byte buffer of 16 KiB tables, read back by a three-level walk,
  is a finite map from pages to pages;
* the kernel-collection pipeline: the inspector accepts a layout, the staging plan copies it into an
  arena, the auditor walks relocations and pointer chains and sweeps for overlaps, and the rebaser
  patches words and verifies the result with one sweep; the later stages never fail on a fact that an
  earlier stage has established;
* the guest-memory ledger: generations, tokens, an aligned first-fit allocator, snapshots and commits,
  as a class and as runs of any number of ledgers over one owner counter;
* the device-tree codecs: the strict encoder and validator, the template-aware firmware parser, the
  template substituter, and the DRAM reader that walks a validated tree a second time;
* the startup images: two images placed above an occupied range and read through tables built from
  their placements;
* the EFI jumpstart of an APFS container: the Fletcher check words and the extent copy loop.

`dafny verify dfyconfig.toml` checks everything.

## Layout

| file | models |
|---|---|
| `Wrappers.dfy`, `Words.dfy` | absent values and error returns; machine words, masks, little-endian bytes |
| `Sorting.dfy`, `Spans.dfy` | sorting by a key; half-open spans, their merged union, binary search, union sizes |
| `PageTree.dfy`, `Stage1.dfy` | tables at rest and their walk; the class that builds them |
| `DeviceTree.dfy`, `FlatDt.dfy`, `FlatEncode.dfy`, `FlatCodec.dfy` | the shared byte layout; the strict validator; the encoder; both as the program runs them |
| `FirmwareDt.dfy`, `RuntimeDt.dfy`, `BootArgs.dfy` | the template-aware parser; template substitution; the DRAM reader |
| `Ledger.dfy`, `GuestMemory.dfy` | the ledger as a value, and runs of ledgers; the class |
| `Collection.dfy`, `Inspector.dfy` | collection metadata, the inspector and the fixup table; what the inspector accepts, without its loops |
| `Staging.dfy`, `StagingArena.dfy` | the staging plan; the arena, the copy and both readbacks |
| `OverlapSweep.dfy`, `FixupAudit.dfy`, `AuditSafety.dfy`, `AuditExact.dfy`, `FixupAuditor.dfy` | the sweep; the audit as a function of its state; that only limits stop it; what it records, stated on the bytes; the class |
| `ClassicRebase.dfy`, `SmallCollection.dfy` | the rebase plan, its application and its verification; one collection that passes every stage |
| `StartupImage.dfy` | layout, placement and staging of the startup images |
| `Jumpstart.dfy` | check words, metadata checks and extraction |

## How the model is written

A function states what an operation computes, in the program's own branches and errors; the methods
and classes that carry the program's loops and fields are proved equal to it; the theorems about it are
lemmas. Where a result is described independently (a tree and its layout, a page map, a set union, the
byte an arena offset must hold), an all-inputs lemma ties the function to that description.

* `u8` to `u64` are bounded naturals. Every `checked_add` is a comparison with the limit, `wrapping_sub`
  and saturating subtraction are written out, and little-endian conversions are functions on byte
  strings. `usize` has 64 bits.
* Bit operations on page-table entries, alignments and protections are the bitwise functions of
  `Words`. Fields at fixed positions (the high bit of a page start, the template flag, the parts of a
  chain word or a relocation) are written with `/` and `%`.
* A string is its UTF-8 bytes. The program checks names byte by byte for printable ASCII, so no decoding
  is involved.
* The SHA-256 identity of a firmware source is a number that arrives with the source.
* `sort_unstable` is a stable sort here. No result depends on the order of equal keys: segment and word
  keys are distinct once the checks pass, and the sweep sorts by address and record index.
* Load commands arrive decoded, as segments, sections, entries and file ranges. The fixup table, with
  its page starts, is parsed at byte level.
* A readback compares byte strings. The program's volatile and aligned reads serve hardware, not
  values.
* The closure of an exclusive loan is the memory it leaves behind.
* The owner counter is passed in and returned, in place of an atomic.
* The partition under a jumpstart is a byte string that does not change between reads.

The comment on `allocate` says "lowest aligned first fit"; the code can also answer with an arithmetic
overflow where no fit exists. The model follows the code: `Ledger.AllocateExact` shows that it answers
so only when there is no fit.

## Model

| member | source | states |
|---|---|---|
| PageTree.WalkIsLookup | src/arm64_stage1_tables.rs:188-209 | for every address of either half, the three-level walk of the bytes equals a lookup in the finite page map that the tree invariant carries |
| PageTree.OneReference | src/arm64_stage1_tables.rs:188-209 | every table other than the roots is referenced by exactly one descriptor among those of the roots and middle tables |
| PageTree.LinkKeepsTree | src/arm64_stage1_tables.rs:166-209 | appending an empty table and linking it keeps the tree and maps nothing new |
| PageTree.MapKeepsTree | src/arm64_stage1_tables.rs:196-208 | writing a page descriptor maps that page and leaves every other page as it was |
| Stage1.TranslationExact | src/arm64_stage1_tables.rs:43-136 | translation by the finished bytes gives each alias, identity and linear address its physical byte, and no other 64-bit address one |
| Stage1.AliasesDisjoint | src/arm64_stage1_tables.rs:94-125 | accepted aliases meet neither the mapped ranges nor each other, so an address has one target |
| Stage1.BothPathsSize | src/arm64_stage1_tables.rs:56-77 | two ranges of at most 1 GiB need at most 72 tables, roots included |
| Stage1.AliasPathsBound | src/arm64_stage1_tables.rs:94-134 | with two aliases, at most 86 tables are needed |
| Stage1.NoMapError | src/arm64_stage1_tables.rs:166-209 | under the table bound, mapping a page that is not mapped meets no capacity limit, address overflow or occupied leaf |
| Stage1.VirtualAddressInverts | src/arm64_stage1_tables.rs:154-164 | `virtual_address` answers exactly for addresses of memory, and the tables translate its answer back |
| Stage1.Stage1Tables.AllocateTable | src/arm64_stage1_tables.rs:166-186 | appends one zeroed table, or fails with the exact error and changes nothing |
| Stage1.Stage1Tables.AddChild | src/arm64_stage1_tables.rs:193-197 | allocates a table and links it where there was none; a failure changes nothing |
| Stage1.Stage1Tables.Descend | src/arm64_stage1_tables.rs:190-201 | follows the existing child, or creates and links it, keeping the tree |
| Stage1.Stage1Tables.MapPage | src/arm64_stage1_tables.rs:188-209 | adds exactly one page to the page map or fails with the exact error, and creates only tables the page needs |
| Stage1.Stage1Tables.MapBoth | src/arm64_stage1_tables.rs:63-76 | the build loop cannot fail and leaves exactly the two ranges mapped |
| Stage1.Stage1Tables.Roots | src/arm64_stage1_tables.rs:60-68 | two empty roots, which always fit, map nothing |
| Stage1.Stage1Tables.MapAlias | src/arm64_stage1_tables.rs:127-133 | the page loop of one alias cannot fail and adds exactly its pages |
| Stage1.Stage1Tables.MapAliases | src/arm64_stage1_tables.rs:126-134 | all aliases are mapped within 86 tables |
| Stage1.Stage1Tables.CheckAliases | src/arm64_stage1_tables.rs:85-125 | finds the first alias error exactly |
| Stage1.Stage1Tables.New | src/arm64_stage1_tables.rs:43-77 | fails exactly on range errors; otherwise at most 72 tables that translate exactly the two ranges |
| Stage1.Stage1Tables.NewWithAliases | src/arm64_stage1_tables.rs:79-136 | fails exactly on alias and range errors; otherwise at most 86 tables that translate exactly the ranges and aliases |
| FlatDt.DecodeExact | src/flat_dt.rs:216-285 | validation succeeds with a tree exactly when the bytes are the layout of that canonical tree within the limits |
| FlatDt.AcceptsExact | src/flat_dt.rs:216-227 | the validator accepts exactly the layouts of canonical trees |
| FlatDt.PrefixFree | src/flat_dt.rs:216-227 | no proper prefix and no proper extension of an accepted string is accepted |
| FlatDt.NodeSound | src/flat_dt.rs:229-285 | a node that is read is laid out at the cursor, and the budget has paid exactly its cost |
| FlatDt.NodeComplete | src/flat_dt.rs:229-285 | a strict node laid out at the cursor and affordable is read, and the cursor ends behind it |
| FlatDt.CostBytes | src/flat_dt.rs:72-117 | the bytes a tree is charged are the length of its layout |
| FlatEncode.MeasureExact | src/flat_dt.rs:130-164 | the preflight succeeds exactly on canonical layouts and counts them exactly |
| FlatEncode.EncodeExact | src/flat_dt.rs:119-214 | encoding succeeds exactly on trees with a canonical layout; it gives that layout, which decodes back, with the length of the preflight budget |
| FlatEncode.EncodeDecode | src/flat_dt.rs:119-227 | the validator accepts every encoding, and decoding it gives the encoded tree |
| FlatEncode.EncodeInjective | src/flat_dt.rs:119-128 | two trees with the same encoding are equal |
| FlatEncode.EncodeImage | src/flat_dt.rs:119-227 | the encoder reaches exactly the accepted strings whose nodes put the name property first |
| FlatCodec.Budget.Spend | src/flat_dt.rs:106-116 | spends bytes or reports the limit |
| FlatCodec.Budget.EnterNode | src/flat_dt.rs:79-104 | charges a node with its counts and depth, or fails exactly at a limit |
| FlatCodec.Validate | src/flat_dt.rs:216-227 | the cursor walk accepts exactly the accepted strings and fails with the same error as decoding |
| FlatCodec.ReadPropertyAt | src/flat_dt.rs:243-274 | reads one property and moves cursor and budget as specified |
| FlatCodec.ReadNodeAt | src/flat_dt.rs:229-285 | reads one node with all below it: same name, cursor, budget and error as the specification |
| FlatCodec.MeasureNode | src/flat_dt.rs:130-157 | the mutable budget ends as the measure of the tree, or the same error is returned |
| FlatCodec.WriteProperty | src/flat_dt.rs:202-214 | appends one padded property and keeps the output aligned to four bytes |
| FlatCodec.WriteNode | src/flat_dt.rs:184-200 | appends exactly the layout of the tree |
| FlatCodec.EncodeTree | src/flat_dt.rs:119-128 | encodes as specified, and what it returns decodes to the tree |
| FirmwareDt.ParseExact | src/firmware_dt.rs:127-144 | the parser accepts exactly the layouts of well-named trees within its limits |
| FirmwareDt.ParseSound | src/firmware_dt.rs:195-269 | a parsed source is the layout of a tree; the result is that tree with true offsets and exact statistics |
| FirmwareDt.ParseComplete | src/firmware_dt.rs:195-269 | every such layout is parsed, with those offsets and statistics |
| FirmwareDt.LocateInjective | src/firmware_dt.rs:195-269 | the parsed, located tree determines the source tree |
| FirmwareDt.AcceptedIsParsed | src/firmware_dt.rs:127-144 | whatever the strict validator accepts, the firmware parser accepts with the same tree and no template |
| FirmwareDt.RuntimeBytesExact | src/firmware_dt.rs:159-167 | a parsed tree has runtime bytes exactly when the strict validator accepts its source, and they are the source |
| FirmwareDt.Parser.TakeNext | src/firmware_dt.rs:176-186 | advances over the requested bytes, or stays and fails |
| FirmwareDt.Parser.NextProperty | src/firmware_dt.rs:225-255 | reads one property with padding and template flag as specified, moving position and statistics |
| FirmwareDt.Parser.NextNode | src/firmware_dt.rs:195-269 | the recursive reader moves position and statistics exactly as specified |
| FirmwareDt.Parser.ParseSource | src/firmware_dt.rs:127-144 | the parser object computes the specified parse |
| RuntimeDt.PrepareExact | src/runtime_dt.rs:221-304 | preparation succeeds exactly when the source lays out a parsable tree without a node-name template, each binding names a different template of that tree and every template is named, and the filled tree is canonical and short enough; a binding to an offset that is no template is refused |
| RuntimeDt.PrepareMeaning | src/runtime_dt.rs:221-304 | the output decodes, strictly and by the firmware parser, to the source tree with every template replaced by its binding and all else equal; its length is the measured length; without templates it is the source byte for byte |
| RuntimeDt.CollectExact | src/runtime_dt.rs:47-72 | collection fails exactly on a template of a node name or on too many templates, and lists as many offsets as there are templates |
| RuntimeDt.CollectFinds | src/runtime_dt.rs:47-72 | an offset is collected exactly when some property of the tree stands there and is a template |
| RuntimeDt.MeasureFill | src/runtime_dt.rs:103-149 | the measured length of a template tree is the length of its filled layout, and filling changes only templates |
| RuntimeDt.BindingsFitExact | src/runtime_dt.rs:233-267 | the binding checks and the missing list together mean that each binding names a different template of the tree, and that no template is left |
| RuntimeDt.CollectTemplates | src/runtime_dt.rs:47-72 | the growing list of template offsets, or the first error |
| RuntimeDt.MeasureNode | src/runtime_dt.rs:103-125 | the running total of the filled length, or overflow |
| RuntimeDt.WriteFilled | src/runtime_dt.rs:127-149 | appends exactly the layout of the filled tree |
| RuntimeDt.PrepareTree | src/runtime_dt.rs:221-304 | the whole preparation, step by step, with its errors |
| RuntimeDt.CheckBindings | src/runtime_dt.rs:233-255 | the nested loops find the first binding error |
| RuntimeDt.FindMissing | src/runtime_dt.rs:256-264 | lists exactly the templates without a binding, in order |
| RuntimeDt.WriteReserved | src/runtime_dt.rs:187-219 | writes the bytes at the reservation and nothing else, or changes nothing and gives the exact error |
| RuntimeDt.MaterializeInto | src/runtime_dt.rs:345-356 | succeeds exactly when preparing and writing do; memory changes only then, and only in the written range |
| BootArgs.DramRangeExact | src/xnu_arm64_boot_args.rs:269-347 | on an accepted tree the second walk never runs out of bytes and decides as the child named `chosen` does |
| BootArgs.DramRangeDecided | src/xnu_arm64_boot_args.rs:301-347 | on an accepted tree the range is that of the two eight-byte properties of the root child named `chosen`, base first, size second; it is missing exactly when one of them is not declared, and invalid exactly when both are declared but the size is zero, a length is not eight or the end is no word |
| BootArgs.OneChosen | src/xnu_arm64_boot_args.rs:301-347 | an accepted tree has at most one root child of any name |
| BootArgs.VisitChild | src/xnu_arm64_boot_args.rs:301-347 | a child of the root sets the range exactly when it is named `chosen` |
| BootArgs.Cursor.NextProperties | src/xnu_arm64_boot_args.rs:308-325 | the property loop remembers what the specification does and advances as far |
| BootArgs.Cursor.NextNode | src/xnu_arm64_boot_args.rs:301-347 | the recursive reader advances and decides as specified |
| BootArgs.Cursor.NextChildren | src/xnu_arm64_boot_args.rs:343-345 | the child loop carries the last range found |
| BootArgs.Cursor.FindDram | src/xnu_arm64_boot_args.rs:269-274 | the reader computes that range or error, whatever the bytes are |
| Ledger.AlignUpLeast | src/guest_memory.rs:198-203 | no multiple of the alignment lies between an address and its aligned address, and alignment overflows only if no multiple is left |
| Ledger.PowerOfTwoExact | src/guest_memory.rs:188-196 | the alignments that are accepted are the powers of two and nothing else |
| Ledger.SearchExact | src/guest_memory.rs:337-367 | the skip loop ends at the least aligned free extent, and reports no space or overflow only when there is none |
| Ledger.AllocateExact | src/guest_memory.rs:337-367 | allocation puts the lowest aligned free extent in the first free slot under the next token and changes nothing else; every error has its exact cause, and nothing changes with it |
| Ledger.ReserveExact | src/guest_memory.rs:291-334 | a reservation succeeds exactly for bytes of the aperture, on their alignment, that no reservation meets, with a free slot and a generation left; the first free slot then holds it and nothing else has changed, and otherwise the first thing that is wrong is the error |
| Ledger.AddedReserves | src/guest_memory.rs:291-334 | after it the ledger has its old reservations and the new one, and no others |
| Ledger.ReleaseExact | src/guest_memory.rs:370-376 | a release succeeds exactly when the token is live and the generation can move; the slot of the token and no other is then empty, no byte has changed, the token is dead and every other token keeps its reservation |
| Ledger.ReleasedPlaceIsFree | src/guest_memory.rs:291-376 | what a release gives up can be reserved again |
| Ledger.ReadExact | src/guest_memory.rs:378-408 | exactly the live tokens read, and they read the bytes from the address of their reservation for its size |
| Ledger.CopyExact | src/guest_memory.rs:412-427 | a copy is refused for the first thing that is wrong, or leaves the data at its offset in the reservation and every other byte and all slots as they were |
| Ledger.BindExact | src/guest_memory.rs:446-459 | a tree is bound exactly to a snapshot of this ledger at this generation and to a live tree reservation on four bytes with room for it |
| Ledger.CommitExact | src/guest_memory.rs:462-469 | a commit succeeds exactly when binding would and the generation can move, and writes the tree at the start of the reservation and nothing else |
| Ledger.LoanExact | src/guest_memory.rs:489-495 | a loan keeps every slot, moves the generation and leaves the bytes of the borrower |
| Ledger.ReserveSound | src/guest_memory.rs:291-334 | reservations stay nonempty, aligned, inside the aperture and pairwise disjoint, and serials stay unique |
| Ledger.StepEffect | src/guest_memory.rs:291-496 | a failed call changes nothing; a successful one moves the generation by one, and a new token carries it |
| Ledger.SlotExact | src/guest_memory.rs:266-274 | a lookup finds exactly the live tokens and tells released from foreign ones |
| Ledger.DeadTokenRefused | src/guest_memory.rs:266-278 | a call with a released or foreign token fails and changes nothing |
| Ledger.OpenSound | src/guest_memory.rs:180-243 | a new ledger is sound and takes the next owner from the counter |
| Ledger.OpenExact | src/guest_memory.rs:180-243 | a ledger is opened exactly over some bytes that end at a word, with an owner left; it is empty, at generation zero, and holds those bytes |
| Ledger.RunSound | src/guest_memory.rs:180-496 | over every list of events on any number of ledgers, all ledgers stay sound, keep their owners, and have different ones |
| Ledger.TokensNeverReused | src/guest_memory.rs:180-334 | over every run no token is issued twice, nor one that was issued before |
| Ledger.DeadForever | src/guest_memory.rs:266-376 | a token that is spent and dead stays dead through every run |
| Ledger.ReleasedForever | src/guest_memory.rs:266-376 | once an event of a run has released a token, every call of every ledger of every later world that presents it fails and changes nothing |
| Ledger.SameGenerationSameLedger | src/guest_memory.rs:260-289 | over every run, a ledger with its old generation is the old ledger, byte for byte |
| Ledger.CommitOnlyUnchanged | src/guest_memory.rs:446-469 | after any run, a tree bound to a snapshot can be committed exactly to the ledger of the snapshot, exactly if that ledger is unchanged since |
| Ledger.CommitHolds | src/guest_memory.rs:462-469 | after a commit the reservation begins with the tree, which the strict validator accepts |
| Ledger.HeldIsRead | src/guest_memory.rs:404-408 | reading the reservation shows the tree first, and no other accepted tree is a prefix of what is read |
| Ledger.StepHolds | src/guest_memory.rs:291-469 | every call but a loan or the release of the same token leaves an accepted tree in place: the same one, or the one this call commits there |
| Ledger.CommittedTreeStays | src/guest_memory.rs:291-469 | the same over every run of events on all ledgers |
| GuestMemory.Create | src/guest_memory.rs:227-243 | takes an owner and builds the ledger over the given bytes, or fails as specified |
| GuestMemory.GuestMemory.constructor | src/guest_memory.rs:227-243 | an empty table of 64 slots at generation zero over the backing |
| GuestMemory.GuestMemory.ReserveAt | src/guest_memory.rs:291-334 | the object's whole state and answer are those of the ledger as a value; a success adds exactly the reservation that was asked for, under a token that was not live, and a failure changes nothing |
| GuestMemory.GuestMemory.Position | src/guest_memory.rs:266-274 | the slot of a live token, or whose dead token it is |
| GuestMemory.GuestMemory.CheckStamp | src/guest_memory.rs:280-288 | refuses stamps of other ledgers and of other generations |
| GuestMemory.GuestMemory.TreeRange | src/guest_memory.rs:429-442 | the place of a tree in a tree reservation, by purpose, alignment and capacity |
| GuestMemory.GuestMemory.FurthestBlocking | src/guest_memory.rs:354-361 | the greatest end of the reservations that meet the candidate, if any does |
| GuestMemory.GuestMemory.Allocate | src/guest_memory.rs:337-367 | the skip loop ends, and state and answer are those of the search on the ledger as a value |
| GuestMemory.GuestMemory.Release | src/guest_memory.rs:370-376 | succeeds exactly for a live token with a generation left, and then exactly the slot of the token is empty, no byte has changed and the token is dead; otherwise nothing has changed |
| GuestMemory.GuestMemory.Range | src/guest_memory.rs:378-402 | the place of a range in the backing, which is inside it |
| GuestMemory.GuestMemory.Read | src/guest_memory.rs:404-408 | the bytes of a live reservation |
| GuestMemory.GuestMemory.CopyInto | src/guest_memory.rs:412-427 | writes exactly the range of another purpose's reservation, or changes nothing |
| GuestMemory.GuestMemory.BindDeviceTree | src/guest_memory.rs:446-459 | binds only to a current snapshot of this ledger and a fitting tree reservation |
| GuestMemory.GuestMemory.CommitDeviceTree | src/guest_memory.rs:462-469 | copies the tree and counts one generation, or changes nothing |
| GuestMemory.GuestMemory.WithGuestMemory | src/guest_memory.rs:489-495 | counts the loan before memory changes; an exhausted generation refuses the loan and changes nothing |
| GuestMemory.PreparedTreesArePossible | src/runtime_dt.rs:277-279 | every tree the substituter produces meets what the run theorems ask of committed trees |
| Collection.InspectAccepted | src/kernel_collection.rs:234-334 | an inspected collection has every fact the later stages rely on |
| Inspector.InspectExact | src/kernel_collection.rs:234-334 | a collection is accepted exactly when its outer image and all members are valid, the entry runs, each member shows its header and segments where the collection maps them, and the budgets suffice; the inspection reports exactly those images |
| Inspector.ImageExact | src/kernel_collection.rs:342-639 | an image is accepted, at an address, exactly when header, segments, ranges, symbol groups and fixup table are valid, a segment places the header at that address, and the budget suffices |
| Inspector.SegmentExact | src/kernel_collection.rs:641-720 | a segment is accepted exactly when its ranges, protections and flags are in order, every section is named, aligned and placed as it must be, and nonempty sections are pairwise apart |
| Inspector.HeaderExact | src/kernel_collection.rs:556-572 | in segments that share no file byte, the header address found is the only one at which a segment holds the header |
| Inspector.FixupsExact | src/kernel_collection.rs:722-871 | a fixup table is accepted exactly when its head is valid, every listed record is framed, matches its segment and has valid pages, records overlap neither each other nor imports and symbols, and all page starts fit the visit budget; every record is reported with exact totals |
| Inspector.TableExact | src/kernel_collection.rs:406-440 | the member table is accepted exactly when entries have identifiers and offsets in the file and share no offset, address or identifier |
| Inspector.MembersExact | src/kernel_collection.rs:244-287 | the members are accepted exactly when each is a valid image at its listed address with the collection's processor, shown where the collection maps it, and the budgets suffice for all |
| Collection.ImageChecked | src/kernel_collection.rs:342-639 | an accepted image has valid, pairwise disjoint segments, a mapped header, relocation tables inside the file and a valid fixup table |
| Collection.SegmentChecked | src/kernel_collection.rs:641-720 | an accepted segment and its relocation tables are inside the file, without overflow |
| Collection.NonOverlapExact | src/kernel_collection.rs:926-942 | sorting and comparing neighbours accepts exactly the segment lists that are pairwise disjoint in memory and in the file |
| Collection.HeaderPlaced | src/kernel_collection.rs:556-572 | the header address comes from a segment whose file bytes hold the header |
| Collection.MultiStartsExact | src/kernel_collection.rs:836-851 | a list of page starts is accepted exactly when each start is valid and the list ends inside its table and within the visit budget; each slot costs one visit |
| Collection.PagesExact | src/kernel_collection.rs:817-881 | the pages of a segment are accepted exactly when each is empty, has one valid start, or a valid list behind the page slots; the totals count visits, pages with fixups and pages with lists |
| Collection.FixupsChecked | src/kernel_collection.rs:722-871 | every segment record of an accepted table is inside the data with the right displacement and page size, and all its pages are valid |
| Collection.ValidateNonoverlap | src/kernel_collection.rs:926-942 | the two window loops decide pairwise disjointness |
| Collection.WalkStarts | src/kernel_collection.rs:840-851 | the cursor loop over a list of starts |
| Collection.WalkPages | src/kernel_collection.rs:817-853 | the page loop with its counters |
| Collection.ReadFixups | src/kernel_collection.rs:722-871 | the whole table parse with its errors |
| Sorting.SortPairwise | src/kernel_collection.rs:926-942 | sorting does not change whether a symmetric property holds of all pairs |
| Spans.NeighboursDecide | src/kernel_collection.rs:926-942 | after sorting, neighbours are apart exactly when all pairs are |
| Spans.PartitionPointSplits | src/kc_fixup_audit.rs:320-337 | the binary search splits sorted spans at the bound |
| Spans.MergedLookupExact | src/kc_fixup_audit.rs:738-768 | a binary search in the merged ranges answers exactly whether some unmerged range meets the query |
| Spans.DistinctIsUnion | src/kc_staging.rs:389-421 | for sorted spans, the running count of what lies beyond the covered end is the size of the union |
| Staging.SpanExact | src/kc_staging.rs:139-281 | the arena runs from the page of the lowest address of a nonempty segment to the page boundary at or after the highest end, and is refused exactly when that boundary is no address or more than the limit away |
| Staging.SpanHolds | src/kc_staging.rs:139-170 | every nonempty segment lies in the arena |
| Staging.OneOwner | src/kernel_collection.rs:244-287 | the outer segment that shows a member segment's file bytes is the one that maps its memory |
| Staging.EntryMapped | src/kernel_collection.rs:883-917 | the entry address of an accepted collection is memory of one of its segments |
| Staging.HeaderMapped | src/kernel_collection.rs:556-572 | the header of an accepted image is file-backed memory of one of its segments |
| Staging.ViewFits | src/kc_staging.rs:489-524 | a view inside the segment that shows it is found, with equal displacement |
| Staging.PlanExact | src/kc_staging.rs:139-281 | for every accepted collection, planning succeeds exactly when the rounded span does; no mapping is found invalid and no image empty, and the header and entry offsets are those of the header address and the instruction pointer |
| Staging.ViewsExact | src/kc_staging.rs:222-270 | every view occurs in the plan exactly as often as members have it: one view for each header and one for each nonempty segment, with its address, memory size, file range and flag |
| Staging.AmountsExact | src/kc_staging.rs:171-270 | the plan stages the file bytes and memory of the nonempty segments, and has one header view for each member and one segment view for each of their nonempty segments |
| SmallCollection.IsRebased | src/kc_classic_rebase.rs:87-223 | a small collection with one relocation is accepted by the inspector, staged and audited, and has a rebase plan for every slide, so the theorems about accepted collections and about plans speak of something |
| StagingArena.OwnedByte | src/kc_staging.rs:317-336 | an offset inside a segment holds that segment's file byte, or zero behind it |
| StagingArena.ArenaExact | src/kc_staging.rs:317-388 | the arena in the collection's terms: each segment address holds its file byte or zero, and every other byte is zero |
| StagingArena.ExpectedShows | src/kc_staging.rs:389-421 | the planned arena shows every member view, so the member pass cannot fail after the outer pass |
| StagingArena.SharedPartShown | src/kc_staging.rs:389-421 | what a view shares with earlier views has been compared already |
| StagingArena.VerifySegments | src/kc_staging.rs:346-388 | the outer pass accepts exactly the planned arena; copied, zero-tail and hole bytes sum to its size |
| StagingArena.VerifyViews | src/kc_staging.rs:389-421 | the covered-end pass accepts exactly the arenas that show all views, and counts the size of the union of their file-backed ranges in the arena |
| StagingArena.MemberBytesOnce | src/kc_staging.rs:389-421 | for the plan of an accepted collection that count is the number of different file bytes behind the headers and nonempty segments of the members: every one is compared once |
| StagingArena.CountsExact | src/kc_staging.rs:317-422 | the counts of a verified arena, in the collection's terms: file bytes, memory, holes, one header for each member and one view for each nonempty member segment |
| StagingArena.VerifyViewsInFull | research/handoff/bp74-export-20260924/src/kc_staging.rs:354-374 | the older pass, which compares every view in full, accepts the same arenas |
| StagingArena.Verify | src/kc_staging.rs:346-422 | accepts exactly the planned arena, with exact counts |
| StagingArena.VerifyInFull | research/handoff/bp74-export-20260924/src/kc_staging.rs:316-377 | the older verification accepts exactly the same arenas, and differs only in the member byte count |
| StagingArena.PlanReadable | src/kc_staging.rs:346-422 | for an accepted collection neither verification can overflow its counters |
| StagingArena.Fill | src/kc_staging.rs:322-334 | clearing and copying produce the planned arena |
| StagingArena.StageInto | src/kc_staging.rs:317-336 | a destination of the right size always ends as the planned arena; any other is left as it was |
| OverlapSweep.OverlapReport | src/kc_fixup_audit.rs:697-715 | at a write, an overlap with a mechanism is reported exactly when an earlier write of that mechanism intersects it, and the witness named does |
| OverlapSweep.DuplicateReport | src/kc_fixup_audit.rs:684-696 | at a write, a repeated visit is reported exactly when an earlier chain write has the same address |
| OverlapSweep.SweepSound | src/kc_fixup_audit.rs:665-716 | every reported conflict names two different writes that conflict as it says |
| OverlapSweep.SweepComplete | src/kc_fixup_audit.rs:665-716 | every conflicting pair is reported at its later write, in its own kind |
| OverlapSweep.SilentIffDisjoint | src/kc_fixup_audit.rs:665-716 | nothing is reported exactly when all writes are disjoint |
| OverlapSweep.DuplicateOnce | src/kc_fixup_audit.rs:684-696 | each repeated visit is reported once |
| FixupAudit.ContainingFinds | src/kc_fixup_audit.rs:239-245 | the binary search finds the segment that holds a range |
| FixupAudit.ContainingMeans | src/kc_fixup_audit.rs:239-245 | what it finds is a nonempty segment that holds the range |
| FixupAudit.FileLocationFinds | src/kc_fixup_audit.rs:246-249 | a range inside the file bytes of a segment has its file offset as location |
| FixupAudit.FileLocationMeans | src/kc_fixup_audit.rs:246-249 | a location is found only for such ranges |
| AuditSafety.AuditOnlyLimits | src/kc_fixup_audit.rs:777-817 | for every accepted collection the audit can fail only at a configured limit, and every chain started is counted with at least one record |
| AuditSafety.StartSafe | src/kc_fixup_audit.rs:443-550 | a chain that starts where the inspector allows leaves at least one record |
| AuditSafety.ChainSafe | src/kc_fixup_audit.rs:443-550 | a chain ends, and fails only at a limit |
| AuditSafety.StartsSafe | src/kc_fixup_audit.rs:638-660 | walking a list of starts again never leaves its table |
| AuditSafety.RecordRead | src/kc_fixup_audit.rs:601-621 | the segment record read again from the source is the one the inspector checked |
| AuditSafety.MemberRangesHold | src/kc_fixup_audit.rs:738-768 | the member ranges of an accepted collection are built without error, as the sorted union |
| AuditSafety.MemberOverlapExact | src/kc_fixup_audit.rs:320-337 | the members a write is said to overlap are exactly those with memory in it |
| AuditSafety.OrderedWritesExact | src/kc_fixup_audit.rs:665-675 | the sweep sees exactly the file-backed records, in order of address and index |
| AuditSafety.ConflictsSound | src/kc_fixup_audit.rs:665-716 | every conflict issue of a finished audit is true of the two records it names, and carries the image of the later one |
| AuditSafety.ConflictsComplete | src/kc_fixup_audit.rs:665-716 | every pair of records in conflict is reported, in its own kind |
| AuditSafety.CleanAudit | src/kc_fixup_audit.rs:777-817 | without issues, every record is clean and no two file-backed records write a byte in common |
| AuditExact.AuditRuns | src/kc_fixup_audit.rs:551-817 | the audit of an accepted collection is the run of its events, which are listed from the bytes alone, followed by the conflicts of the writes; it fails exactly when that exceeds a limit |
| AuditExact.RecordsExact | src/kc_fixup_audit.rs:338-550 | a finished audit has one record for each entry of each table and for each word of each chain, in order; the fields of each are the stated bits of its little-endian words, its address is the base plus the signed displacement or the place in the page, and file offset, stored value, target and overlap are what the segments say |
| AuditExact.EntriesExact | src/kc_fixup_audit.rs:352-591 | the entries are exactly those of the local table, the external table and the section tables of the collection and its members, one for each eight bytes, with the base given by file type |
| AuditExact.WordsExact | src/kc_fixup_audit.rs:592-664 | the words are exactly the positions of the chains that start at a start of a page of a fixed-up segment of pointer format 11: the slot of the page, or a slot of the list it names, up to the one with the high bit |
| AuditExact.ChainShape | src/kc_fixup_audit.rs:443-550 | a chain is the start and then each position plus bits 51 to 62 of the word stored there; it ends at a word where they are zero, or reports the bound that its next word would cross |
| AuditExact.OneChain | src/kc_fixup_audit.rs:443-550 | no other list of positions is a chain from that start |
| AuditExact.IssuesExact | src/kc_fixup_audit.rs:294-312 | the issues besides conflicts are exactly the remarks on images, pages and chain ends, and the codes that the fields of each record deserve |
| AuditExact.CountersExact | src/kc_fixup_audit.rs:313-319 | the counters count the page starts, chains, finished chains and pages with lists that were met |
| AuditExact.BaseExact | src/kc_fixup_audit.rs:551-562 | displacements count from the first segment of a kext, and from the first writable segment of any other image |
| FixupAuditor.Auditor.PushIssue | src/kc_fixup_audit.rs:294-312 | appends the issue, or fails at the limit and changes nothing |
| FixupAuditor.Auditor.PushRecord | src/kc_fixup_audit.rs:338-351 | appends the record and gives its index, or fails at the limit |
| FixupAuditor.Auditor.PageStart | src/kc_fixup_audit.rs:313-319 | counts one page start, or fails at the limit |
| FixupAuditor.Auditor.ClassicTable | src/kc_fixup_audit.rs:352-442 | the relocation table loop ends in the state, or the error, of the audit as a function; on success it has appended one record for each entry, with the bits of the entry |
| FixupAuditor.Auditor.WalkChain | src/kc_fixup_audit.rs:443-550 | the chain loop, likewise; on success it has appended one record for each word of the chain, with the bits of the word |
| FixupAuditor.Auditor.WalkStarts | src/kc_fixup_audit.rs:641-660 | the loop over a list of starts, likewise |
| FixupAuditor.Auditor.WalkPage | src/kc_fixup_audit.rs:622-661 | one page, likewise |
| FixupAuditor.Auditor.WalkSegment | src/kc_fixup_audit.rs:605-662 | the pages of one segment, with its record read again from the source, likewise |
| FixupAuditor.Auditor.WalkFixups | src/kc_fixup_audit.rs:592-664 | the chained fixups of an image, likewise |
| FixupAuditor.Auditor.WalkSections | src/kc_fixup_audit.rs:580-591 | the relocation tables of all sections, likewise |
| FixupAuditor.Auditor.WalkImage | src/kc_fixup_audit.rs:551-664 | one image, likewise |
| FixupAuditor.Auditor.WalkOverlaps | src/kc_fixup_audit.rs:665-716 | the sweep with its two furthest writes and last chain visit reports exactly the specified conflicts |
| FixupAuditor.RunAudit | src/kc_fixup_audit.rs:777-817 | the audit of all images and the sweep; on an accepted collection its records are exactly those of the entries and words of the collection, and it fails only at a limit |
| ClassicRebase.PlanRebaseExact | src/kc_classic_rebase.rs:87-223 | over an accepted collection there is a plan exactly when staging and audit raise nothing, there is one executable member, there are classic records and all of them are acceptable; it patches one word per classic record and no other, clear of all headers; each error names its cause, or the condition the first unacceptable record breaks; a conflict is refused only if the audit reported it, so the adjacent-pair check never fires |
| ClassicRebase.RecordStepExact | src/kc_classic_rebase.rs:132-205 | for a clean record, the step succeeds exactly when the record has the supported profile, a kernel segment maps its address to its file offset, it is clear of every header in memory and in the file, and its value plus the slide fits; the error is the first condition it breaks |
| ClassicRebase.MappingExact | src/kc_classic_rebase.rs:351-371 | in disjoint segments the first one that holds the address decides as any would: the mapping matches exactly when some segment maps the address to the file offset |
| ClassicRebase.HeadersExact | src/kc_classic_rebase.rs:152-161 | the header checks never overflow, and pass exactly when the write is clear of every header in memory and in the file |
| ClassicRebase.RebaseExact | src/kc_classic_rebase.rs:118-309 | the rebased arena is the staged arena with every classic word increased by the slide without wrap; chain words and headers are untouched, nothing else differs, and `changed_bytes` is the exact number of differing bytes |
| ClassicRebase.ClassicSlid | src/kc_classic_rebase.rs:162-205 | each recorded word holds its old little-endian value plus the slide |
| ClassicRebase.ChainPreserved | src/kc_classic_rebase.rs:115-131 | no byte of a chain word changes |
| ClassicRebase.HeaderPreserved | src/kc_classic_rebase.rs:152-161 | no byte of any image's header changes |
| ClassicRebase.ChangedExact | src/kc_classic_rebase.rs:189-193 | the per-word count of changed bytes sums to the number of offsets where the arenas differ |
| ClassicRebase.WordWritten | src/kc_classic_rebase.rs:234-250 | each planned word is found in the result, whatever is written after it |
| ClassicRebase.EndAhead | src/kc_classic_rebase.rs:254-309 | the sweep's guard against an empty stretch never fires |
| ClassicRebase.AllWordsPassed | src/kc_classic_rebase.rs:254-309 | at the end of the arena every word has been compared |
| ClassicRebase.PlanApplies | src/kc_classic_rebase.rs:234-250 | the plan of an accepted collection meets what applying and verifying require |
| ClassicRebase.Collect | src/kc_classic_rebase.rs:118-206 | the record loop builds words and counters together |
| ClassicRebase.Apply | src/kc_classic_rebase.rs:234-250 | staging, patching and verifying always succeed on an arena of the right size and leave the rebased arena |
| ClassicRebase.VerifyRebased | src/kc_classic_rebase.rs:254-309 | the sweep with three cursors accepts exactly the rebased arena |
| StartupImage.LayoutHolds | src/arm64_startup_image.rs:301-350 | a laid-out image has the segments it was given, sorted, apart in memory and in the file and above page zero, inside a page-aligned span; one of them holds the header, and the copied bytes are the sum of the file sizes |
| StartupImage.LayoutExact | src/arm64_startup_image.rs:301-350 | an image is laid out exactly when its segments, in the order given, are apart, in the file and in the address space, above page zero, with the header in one of them, and the span of whole pages around them is small enough; it is then laid out over that span |
| StartupImage.ImageByte | src/arm64_startup_image.rs:374-397 | the image byte of each linked address is its segment's file byte or zero |
| StartupImage.PlaceHolds | src/arm64_startup_image.rs:97-124 | the two spans are aligned, disjoint, inside the arena and not below the occupied end |
| StartupImage.PlaceExact | src/arm64_startup_image.rs:88-124 | the images go to the first page boundary after what is occupied and to the first one after the first image, exactly when both fit the arena; otherwise the error says whether an end overflows |
| StartupImage.SpanReads | src/arm64_stage1_tables.rs:79-136 | reading through an alias of a placement shows the image |
| StartupImage.StagedImagesRead | src/arm64_startup_image.rs:88-144 | through tables built from the returned placements, every linked address of either image reads its segment byte or zero |
| StartupImage.StageImage | src/arm64_startup_image.rs:374-397 | clears, copies and reads back exactly the span, and cannot fail |
| StartupImage.StageStartupImages | src/arm64_startup_image.rs:88-144 | every rejection leaves memory as it was; success stores exactly the two images |
| Jumpstart.ChecksumCloses | src/apfs_jumpstart.rs:97-112 | appending the low and then the high check word drives both sums to zero modulo 2^32-1 |
| Jumpstart.OnlyCheckWordsClose | src/apfs_jumpstart.rs:97-112 | no other two nonzero words do |
| Jumpstart.ChecksumExact | src/apfs_jumpstart.rs:263-288 | the stored checksum equals the computed one exactly when the words of the block, closed by it, sum to zero and neither check word is zero |
| Jumpstart.OneWordDetected | src/apfs_jumpstart.rs:97-112 | changing one word, other than by 2^32-1, changes the check words |
| Jumpstart.SumsExact | src/apfs_jumpstart.rs:97-112 | the running sums are the sum of the words and the sum of the sums of all prefixes, modulo 2^32-1 |
| Jumpstart.WordsAre | src/apfs_jumpstart.rs:97-112 | the summed words are the bytes after the first eight, four at a time, least significant first |
| Jumpstart.MetadataExact | src/apfs_jumpstart.rs:121-226 | the metadata is accepted exactly as the bytes state it: both blocks sealed and of their kind, the file length at offset 40 of the record, the number of extents at 44, and each extent the two words at 176 and 184 plus sixteen for each extent before it, nonempty, inside the container, with room for the file |
| Jumpstart.MetadataRefused | src/apfs_jumpstart.rs:121-226 | refused metadata is refused for the first check that its bytes fail |
| Jumpstart.StreamByte | src/apfs_jumpstart.rs:228-252 | byte d of block j of an extent stands in the stream after all blocks of the extents before it, and is byte d of that block of the partition |
| Jumpstart.MetadataChecked | src/apfs_jumpstart.rs:121-226 | checked metadata names extents inside the container with room for the file |
| Jumpstart.BlockFits | src/apfs_jumpstart.rs:298-330 | every block the data loop asks for is inside the container |
| Jumpstart.Fletcher64 | src/apfs_jumpstart.rs:97-112 | the modular loop computes the check words |
| Jumpstart.ReadExtentBlocks | src/apfs_jumpstart.rs:238-251 | one extent contributes its blocks in order, up to the file length |
| Jumpstart.ReadFile | src/apfs_jumpstart.rs:228-252 | the file is the extents concatenated and cut to the file length, by exactly the rounded-up number of block reads |
| Jumpstart.Extract | src/apfs_jumpstart.rs:121-261 | succeeds exactly when the bytes state some metadata, and names the first failed check otherwise; every byte of the file is the byte of the partition that its extent, block and place name, and no data read can fail |

## Left out

- BootArgs.DramRangeExact: is about trees the strict validator has accepted, because the encoder validates before it looks for the range; on other bytes only the method's equality with the specified walk is stated.
- Collection.InspectAccepted: one direction only; it says what acceptance guarantees, because later stages use nothing else. When acceptance happens is Inspector.InspectExact.
- Collection.ImageChecked: one direction only, for the same reason; the other one is in Inspector.ImageExact.
- Collection.SegmentChecked: one direction only, for the same reason; the other one is in Inspector.SegmentExact.
- Collection.FixupsChecked: one direction only, for the same reason; the other one is in Inspector.FixupsExact.
- Inspector.ImageExact: starts from decoded load commands; the magic number, processor type, reserved header words, command kinds and sizes and the thread-state layout are not parsed.
- Staging.ViewFits: does not say which of several equal owners is found, because disjointness leaves only one.
- FixupAuditor.Auditor.PushRecord: does not keep the tallies of file-backed records and of member overlaps, which only the summary shows.
- FixupAuditor.RunAudit: leaves out the summary tallies (types, widths, cache levels, straddling words, overlap counts, issue counts), which nothing later reads.
- StartupImage.LayoutExact: says exactly when a layout is refused, but not which of two failed checks is reported.
- StartupImage.LayoutHolds: starts from decoded segments; the Mach-O commands, sections and thread state of a startup image are not parsed.
- Jumpstart.Extract: has no I/O errors and no source that changes between reads, because the partition is a fixed byte string.
- Ledger.CommittedTreeStays: excludes loans of the whole memory and the release of the reservation itself, after which the program promises nothing.
- The order of errors between load commands of one image.
- The list of unmet requirements that the inspector reports beside its result.
- Entry points of member images, beyond the entry of the collection.
- SHA-256 itself, and the record of applied bindings.
- Allocation failure, volatile and word-aligned reads, progress observers, `Display` and `Debug`.
- The register values for translation control and the table bases: fixed formulas over the table address.
- The encoder of the boot-argument page: writes at fixed offsets.
- Property lists, kernel extensions and the plain Mach-O loader: wrappers over external parsers.
- The boot picker, selected-input records, ACPI and device properties: flat field lists and user interface.
- The hand-off and backing size calculations: sums of aligned sizes on top of staging.
