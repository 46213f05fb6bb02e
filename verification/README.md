# dbgscope: what its answers are worth

dbgscope reads targets it does not control: dumps with holes, live kernels, structures that may be
corrupt. Its rule is that what was not read is unknown, not absent: an incomplete answer is never
passed off as a complete one. This project models the engine-free pieces that carry that rule and
proves it of them, for every memory, every run and every point at which a read fails, a budget
expires or a caller asks to stop.

Each piece has a declarative specification (a closed ring, the import table memory holds, the chains
of a directory, a linear scan, the first matching line of a stream), and the code that must meet it or
say it did not. Soundness says that an answer claiming to be whole is that structure. Completeness says
that a structure that is there is never refused. Uniqueness lemmas say there is one such structure, so
the two together pin the answer down. Beneath them, each structure is also written out byte by byte, by plain
arithmetic on offsets that shares nothing with the reads, and what is read back is proved to be what was
written: an import table, a ring of heaps, an upcase table, a path through a kernel's directories.

| modules | what they model |
|---|---|
| `Machine`, `ByteMemory`, `Unicode`, `Sorting` | integer widths, little-endian values, bytes at addresses, text encodings, a stable sort and the uniqueness of its result |
| `PeImage`, `PeTables`, `PeRuns`, `PeImports`, `PeTheorems`, `PeBytes` | the PE import table through a partial, untrusted reader: bounded reads, the table memory holds, the walk as a function of its reader, the walk's loops, what follows, and the bytes a table is written in |
| `HeapRoots`, `HeapBytes`, `HeapSnapshots`, `HeapNeighbours`, `HeapCensus` | heap root discovery, the bytes heaps and their list are written in, coverage, the heap cache, lookup and census |
| `Session` | a target whose memory may change with every read, and a halt predicate used up by asking |
| `UpcaseFold`, `UpcaseTrie`, `UpcaseBytes`, `NameIdentity` | the object manager's name fold: memo, provenance, table format and bytes |
| `ObjectNames`, `ObjectPaths`, `ObjectDirectory`, `Namespace`, `ObjectBytes` | the kernel object namespace, and the bytes it is written in |
| `PoolIndexing`, `PoolCache` | the pool index, hole ranking and its snapshot cache |
| `Announcement` | the streaming matcher for the kernel connection announcement |
| `Arm64` | A64 control-flow decoding |

Memory comes in two forms. For the PE reader it is a partial map from addresses to bytes, and the reader
is any function at all of the read and of how many reads came before it, so that its answers may change:
theorems name `Bounded` (never more than asked), `Honest` (and only what is there) or `Prompt` (a span that
is all there is returned) where they need it. For the object namespace memory is a function of the time of
the read; `Steady` names the case where it holds still. Clocks, deadlines, interrupts and halt requests are
arbitrary streams of answers.

Two properties turn out false of the code as written, and have their exact conditions; two more turn out
to rest on less, or on something else, than the code's comments say.

- `neighbourhood_at` (src/heap.rs:1266-1307) can miss the chunk that contains an address. Two chunks with
  the same user address, the later of them with no usable bytes, defeat its one-candidate search.
  `HeapNeighbours.ATieThatIsMissed` is an instance. `HeapNeighbours.LookupIsExact` proves that on disjoint
  sorted chunks the lookup is a linear search if and only if each chunk ends at or before the user address of
  every later one, and `HeapNeighbours.SnapshotLookupIsExact` that for a whole snapshot whose headers come
  first this fails only at such a tie.
- A comment in `object_at` (src/object.rs:1207-1211) skips names that are not text because no path could
  have meant them. That is a property of the fold in use, not of text: `NameIdentity.SkippingIsSafe` proves
  that a lookup sees every name if and only if the kernel's fold never brings a surrogate together with a unit
  of another kind. `NameIdentity.ALookupThatMisses` lays out a kernel, its upcase table included, in which
  the lookup reads a directory in full and answers that an object in it does not exist.
- Distinctness of heap roots rests on each heap naming its list entry back, together with the visited set
  (`HeapRoots.RootsAreDistinct`).
- The two 32-bit narrowing refusals of the import walk cannot happen with a reader that never returns more
  than it was asked for (`PeImports.ReadImports`), as the test comment at src/pe.rs:1357-1373 claims; nothing
  else need be true of the reader.

## Model

| member | source | states |
|---|---|---|
| `PeImage.CheckedVa` | src/pe.rs:278-296 | succeeds exactly for a range inside the declared image that does not pass the end of the address space, and gives base plus offset |
| `PeImage.At` | src/pe.rs:611-621 | whatever the reader, asks at most once, for the clipped span, inside the image; a refusal is for the span or names a read that failed |
| `PeImage.AtReads` | src/pe.rs:611-621 | an honest answer is memory's bytes, and a span that is all there is answered whole by a prompt reader |
| `PeImage.NextChunk` | src/pe.rs:1145-1159 | one chunk stays inside its 512-byte granule, the name's bound and the image |
| `PeImage.ChunkReads` | src/pe.rs:1145-1159 | along a name whose granules read, each chunk is answered and is not empty |
| `PeImage.ReadCString` | src/pe.rs:1131-1181 | for any reader, no read crosses a granule, leaves the image or passes the name's bound; an honest answer is exactly the bytes before the first NUL within the bound; a name whose own granules read is returned whatever is unreadable beyond them |
| `PeImage.NameIsUnique` | src/pe.rs:1131-1181 | an address holds at most one terminated name |
| `PeImage.NameStep` | src/pe.rs:1154-1174 | a chunk with no NUL extends an unfinished name, and the first NUL ends it at exactly that name |
| `PeImports.ThunkName` | src/pe.rs:1039-1072 | a lookup entry is read as the ordinal or the hint and name it encodes; one that is there is never refused, and none is refused for distance |
| `PeImports.ReadEntry` | src/pe.rs:999-1034 | the slot and lookup value of an entry; each narrowing refusal means that entry's own offset passed 32 bits; with a reader that never returns too much, success puts entry and slot inside the image |
| `PeImports.NextEntryIsNear` | src/pe.rs:1357-1373 | once an entry and its slot are inside the image, the next ones' offsets still fit 32 bits |
| `PeImports.ClaimImport` | src/pe.rs:1039-1090 | an import is added only when its slot is claimed by no other and the table has room |
| `PeImports.ReadThunks` | src/pe.rs:998-1099 | one library's imports are the lookup run up to its zero, appended in order with distinct slots; a run that is there is read whole; for any reader and on any ending, every read is an entry of this lookup table or a chunk of a name one of those gave |
| `PeImports.ReadLibrary` | src/pe.rs:960-1099 | one descriptor gives its library's imports, or lists the library as unnamed when it has no lookup table to name them by; every read is for that descriptor's name or lookup table |
| `PeImports.ReadDescriptors` | src/pe.rs:935-1109 | descriptors in order up to the first all-zero one, which must be inside the directory |
| `PeImports.ReadImports` | src/pe.rs:883-1109 | every read is the directory, an entry of a lookup table whose descriptor was read, or a bounded chunk of a name one of those gave; for any reader, an answer's slots are distinct, inside the image and within the total bound; a halt ends it at the poll that asks; narrowing refusals are unreachable with a reader that never returns too much; an honest answer is exactly the declarative import table; a table that is there, with its names' granules, is never refused |
| `PeTables.TableIsUnique` | src/pe.rs:883-1109 | memory holds at most one import table, libraries, names and order included |
| `PeTables.RunIsUnique` | src/pe.rs:998-1099 | a library's lookup run is determined by memory |
| `PeRuns.ThunksAreConfined` | src/pe.rs:998-1099 | from wherever the thunk loop has got to, its reads are entries of its own lookup table and names they give |
| `PeRuns.ImportsAreConfined` | src/pe.rs:8-26 | whatever the reader answers and however the walk ends, the directory is read once, and then only lookup entries and names that it leads to; no slot is among the purposes of a read |
| `PeRuns.ImportsRestOnTheirReads` | src/pe.rs:883-1109 | readers that answer the walk's own reads alike get the same answer, polls and further reads, whether the walk succeeds, is refused, meets a hole or is interrupted |
| `PeTheorems.BySlotLosesNone` | src/pe.rs:1111-1114 | the index by slot keeps every import if and only if no two imports share a slot |
| `PeTheorems.SlotsAreInTheImage` | src/pe.rs:999-1026 | of the declarative table: every slot, with the pointer it holds, is inside the image |
| `PeTheorems.IndexIsWhole` | src/pe.rs:1111-1114 | the index of any imports with distinct slots inside the image finds every one of them and nothing else |
| `PeTheorems.TableIndexIsWhole` | src/pe.rs:1111-1114 | of the declarative table: its index by slot is whole |
| `PeTheorems.ReadBySlot` | src/pe.rs:883-1114 | for any reader and any halt, the index of whatever the walk answers loses no import, and each slot in it is inside the image |
| `PeTheorems.TableRestsOnWhatItConsults` | src/pe.rs:875-1109 | of the declarative table: memory that differs only outside the bytes a table rests on holds that table still |
| `PeTheorems.ImportsIgnoreTheAddressTable` | src/pe.rs:8-26 | of the declarative table: where its address table keeps clear of the rest, changing or losing the address table leaves it the one table memory holds |
| `PeTheorems.RegionIsIgnored` | src/pe.rs:8-26 | of the walk: any region that shares no byte with the directory or a lookup entry read and no granule with a name read is never read, and readers that differ only there get one answer, every refusal and interruption included |
| `PeTheorems.ReadAroundTheAddressTable` | src/pe.rs:875-1109 | the walk made twice, before and after the slots of the descriptors it reads change or are lost: one answer, and no slot read, for any readers and any halt |
| `PeBytes.TextIsAccepted` | src/pe.rs:1131-1181 | the UTF-8 encoding of any text is accepted as a name |
| `PeBytes.AcceptedIsText` | src/pe.rs:1131-1181 | bytes accepted as a name are the UTF-8 encoding of some text |
| `PeBytes.NamesAreBounded` | src/pe.rs:1131-1181 | a name is at most 511 bytes, and no read for one leaves the 512 bytes from its start or crosses a 512-byte granule |
| `PeBytes.DescriptorDecoded` | src/pe.rs:945-950 | each field of a descriptor comes back from its own four bytes |
| `PeBytes.NullIsAllZeros` | src/pe.rs:945-960 | a descriptor ends the table if and only if all twenty of its bytes are zero |
| `PeBytes.EntryDecoded` | src/pe.rs:1027-1046 | a lookup entry comes back at either width, with the ordinal flag at the top of that width |
| `PeBytes.WrittenIsTable` | src/pe.rs:883-1109 | libraries written out in bytes are the table memory holds, each import with the slot its place gives |
| `PeBytes.ReadWritten` | src/pe.rs:883-1109 | an image that was written and is all there is read back as exactly the imports and unnamed libraries written |
| `HeapRoots.RingIsUnique` | src/heap.rs:799-918 | from a start there is at most one closed ring |
| `HeapRoots.PathIsInTheRing` | src/heap.rs:799-918 | what a stopped walk met is a prefix of the ring's own order |
| `HeapRoots.RootHasEntry` | src/heap.rs:875-894 | each root is the heap of one entry that is not the head, in list order, with its own index and kind |
| `HeapRoots.EntryHasRoot` | src/heap.rs:875-894 | no entry of the walk is left without its root |
| `HeapRoots.RootsAreDistinct` | src/heap.rs:841-894 | no heap is listed twice, because each names its entry back |
| `HeapRoots.HeadsAreNtdllEntries` | src/heap.rs:875-877 | one head counted means exactly one entry of the walk is inside ntdll |
| `HeapRoots.BackAtTheStart` | src/heap.rs:895-918 | back at the start, the two closing checks hold if and only if the walk is one closed ring |
| `HeapRoots.EndIsUnique` | src/heap.rs:799-918 | memory determines the entries a walk of the list meets before it ends, and the reason it ends there |
| `HeapRoots.FollowHeapList` | src/heap.rs:799-918 | terminates on any memory; with time to finish, the entries met and the reason given are exactly what memory holds, the whole closed ring or the first thing wrong; when the clock ends it, the entries met are as many as it was let look at; a ring that is there is never refused; no list is reported only when the process heap names none; an error is the clock's own |
| `HeapRoots.NamedAreRoots` | src/heap.rs:770-795 | the heaps the PEB names that the list does not hold are added after the list's own, in order, once for each time they are named |
| `HeapRoots.EnumerateRoots` | src/heap.rs:750-795 | saying every root was seen is a true claim about memory; without an expiry the reason for doubt is the list's own and is absent if and only if the list is whole; the roots are those of the entries met and then of the PEB's array as far as the looks at the clock went; an error is the clock's own or the PEB's |
| `HeapRoots.NothingIsMissing` | src/heap.rs:575-580 | an enumeration that saw every root has every heap of the list and of the PEB |
| `HeapBytes.HeapIsClassified` | src/heap.rs:457-520 | a heap with one signature where its kind keeps it and not the other is of that kind; with both or neither it is unknown |
| `HeapBytes.NoHeapThere` | src/heap.rs:638-661 | an address outside user memory is no known heap, and a heap whose signatures cannot be read is unreadable |
| `HeapBytes.EntryIsNamed` | src/heap.rs:663-691 | a heap's entry is the pointer at its own kind's offset, and zero there names none |
| `HeapBytes.LinksAreRead` | src/heap.rs:845-870 | an entry's forward link, backward link and heap come back from their own eight bytes |
| `HeapBytes.RingIsClosed` | src/heap.rs:799-918 | entries written as a ring with one head are one closed ring, entered anywhere |
| `HeapBytes.PebIsRead` | src/heap.rs:693-735 | the PEB's array of heaps comes back as it was written |
| `HeapBytes.PebIsRefused` | src/heap.rs:693-735 | a count over 4096, or heaps kept outside user memory, is refused, and a count of zero is no heaps |
| `HeapBytes.NoListIsEntered` | src/heap.rs:663-691 | a process heap with no place for an entry, or zero in it, keeps no list; one of no known kind cannot say |
| `HeapBytes.EnumerateWritten` | src/heap.rs:750-795 | with time to finish, the heaps of a ring written in memory are found in its order, then those only the PEB names, and that is said to be all |
| `HeapSnapshots.KindIsFiled` | src/heap.rs:920-931 | a scope files each root under its own kind and loses none |
| `HeapSnapshots.KindsInOrder` | src/heap.rs:920-931 | a scope keeps each kind of root in the order the roots came in |
| `HeapSnapshots.ScopeFilesEach` | src/heap.rs:920-951 | whichever heap is selected, NT, unknown and unreadable roots are under their own headings, and only Segment heaps that were selected are walked |
| `HeapSnapshots.SelectorIsRefused` | src/heap.rs:933-951 | a selector is refused for the first root at it being of another kind, and for naming none only when every root was seen |
| `HeapSnapshots.CompleteScopeSelects` | src/heap.rs:933-951 | a scope made when every root was seen walks exactly what was asked for: every heap, or the one named |
| `HeapSnapshots.SnapshotIsSorted` | src/heap.rs:953-971 | a snapshot's allocations are the walker's spans in address order, none lost |
| `HeapSnapshots.SnapshotCache.WalkSnapshot` | src/heap.rs:1132-1212 | every answer not from the cache has the walker's own spans, sorted, for the scope asked, and the coverage its walk and its roots give; Complete is reported exactly when every root of the key's PEB was seen and the walker was complete; a hit is an entry stored under the same key, with that evidence; only Complete snapshots are stored; a refresh that fails leaves nothing cached; an incomplete answer says its budget expired exactly when the walker's did; the roots are memory's as far as the enumeration got; a failure is the clock's, the PEB's, the selector's or the walker's own |
| `HeapSnapshots.SnapshotCache.Invalidate` | src/heap.rs:393-398 | empties the cache |
| `HeapSnapshots.SnapshotCache.constructor` | src/heap.rs:371-374 | a new cache is empty |
| `HeapNeighbours.SnapshotIsLaid` | src/heap.rs:953-971 | any disjoint nonempty chunks are laid out in user-address order once a snapshot has sorted them |
| `HeapNeighbours.SeparatedIsFound` | src/heap.rs:1266-1276 | when each chunk ends at or before later user addresses, the chunk containing an address, header bytes included, is the one found |
| `HeapNeighbours.UnseparatedIsMissed` | src/heap.rs:1266-1276 | any two chunks that are not so separated leave a byte of the earlier that the lookup does not find it by |
| `HeapNeighbours.LookupIsExact` | src/heap.rs:1266-1276 | on disjoint chunks in user-address order, the lookup is a linear search if and only if they are so separated |
| `HeapNeighbours.OnlyTiesMatter` | src/heap.rs:1266-1276 | where headers come first, chunks fail to be separated exactly at a tie whose later chunk is empty |
| `HeapNeighbours.SnapshotLookupIsExact` | src/heap.rs:953-971 | over a whole snapshot of disjoint chunks, headers first, the lookup is exact if and only if its ties are in order |
| `HeapNeighbours.ATieThatIsMissed` | src/heap.rs:1266-1276 | two chunks, sorted and laid out as a snapshot has them, for which an address inside one has no answer |
| `HeapNeighbours.NeighboursAreExact` | src/heap.rs:1266-1307 | for any address of a chunk, header bytes included, the offset is its distance from the user address within 64 bits, and the neighbours given are those of a search of the whole snapshot: contiguous chunks of the same heap, backend and subsegment |
| `HeapCensus.CensusOf` | src/heap.rs:1309-1338 | each allocation is in one row, with those of its heap, backend, state and size class and no others; a row's count and capacity are those of its allocations, saturating at 64 bits; the largest comes first, then the one of more chunks, then field by field |
| `HeapCensus.CensusConserves` | src/heap.rs:1309-1338 | no key has two rows and the chunk counts add up to the number of allocations |
| `HeapCensus.CensusIsUnique` | src/heap.rs:1309-1338 | permuting the allocations, or visiting the table in another order, gives the same row sequence |
| `HeapCensus.RowLeIsTotal` | src/heap.rs:1330-1336 | the comparator is total on rows, and no two different rows tie |
| `HeapCensus.SumsIgnoreOrder` | src/heap.rs:1309-1327 | each row's totals depend only on which allocations there are |
| `Session.Target.ReadAt` | src/object.rs:871-884 | a read is answered as memory stands at that moment, and is recorded |
| `Session.Target.Stopped` | src/object.rs:843-845 | asking uses up one answer of the halt predicate, and nothing is asked without one |
| `Session.ObeysThen` | src/object.rs:843-845 | steps that obey a stop compose into a run that does: nothing is read or asked after a yes |
| `UpcaseFold.Upcase.constructor` | src/object.rs:296-330 | nothing is known and nothing read to begin with |
| `UpcaseFold.Upcase.Base` | src/object.rs:456-494 | the table's address is resolved once and kept, failures included |
| `UpcaseFold.Upcase.ReadTrie` | src/object.rs:528-539 | one walk of the 8-4-4 trie in at most three reads, each recorded with its moment, none starting beyond element 0x1000e of the base |
| `UpcaseFold.Upcase.Unit` | src/object.rs:396-414 | one code unit; remembered units and those below the table read nothing; every read made is entered in the account |
| `UpcaseFold.Upcase.Uncached` | src/object.rs:417-448 | a new unit is folded by whichever machine's table answered, and which one is recorded |
| `UpcaseFold.Upcase.FoldName` | src/object.rs:391-393 | a name folds unit by unit to what the memo gives; its folds and reads are entered in the account, and a name with nothing to look up reads nothing |
| `UpcaseFold.Upcase.SameName` | src/object.rs:386-389 | on any memory, two names match exactly when the memo folds them alike, with every fold and read entered in the account; over memory that holds still, exactly when the declarative fold does; on any memory, names below the table's floor match exactly when they are equal up to the case of Latin letters |
| `UpcaseFold.Upcase.Source` | src/object.rs:373-382 | the reported source is the one the memo's history supports; asking folds nothing and reads at most the one pointer |
| `UpcaseFold.UnitLearned` | src/object.rs:417-448 | learning a unit keeps the memo sound: value, provenance, history and read bound |
| `UpcaseFold.ReadsAreBounded` | src/object.rs:361-494 | over any run of folds, comparisons and questions, at most one read and three for each distinct unit in the table's band |
| `UpcaseFold.OneValueForever` | src/object.rs:361-414 | over memory that may change throughout, a unit folds to one value for the whole run |
| `UpcaseFold.ProvenanceIsExact` | src/object.rs:361-382 | Target means every fold in the table's band is what a walk of the table that was really made found; Mixed means a walk that was made found nothing and the host answered; Host means the host answered all |
| `UpcaseFold.MixedStaysMixed` | src/object.rs:361-382 | once mixed, always mixed |
| `UpcaseFold.SteadyMemo` | src/object.rs:396-448 | over memory that holds still, the memo is the declarative fold |
| `UpcaseFold.LettersFold` | src/object.rs:396-404 | below 0xc0 two units fold alike if and only if they are one unit or the two cases of one Latin letter, and no lower case is left |
| `UpcaseFold.PlainNamesMatch` | src/object.rs:386-404 | names below 0xc0 match the same way whichever table answers |
| `UpcaseBytes.FoldIsRead` | src/object.rs:396-494 | in a kernel whose memory holds the table of a fold and the pointer to it, each unit from 0xc0 folds as that fold says |
| `UpcaseBytes.NoTableIsRead` | src/object.rs:417-494 | a null table moves nothing, and a table that is unknown or whose pointer cannot be read leaves the fold to the host |
| `UpcaseTrie.Share` | src/object.rs:2218-2226 | a block is reused where an equal one is laid out and appended otherwise, and what was laid out stays |
| `UpcaseTrie.NewBlockNewRow` | src/object.rs:2229-2236 | while the table fits, a row's second-level block is new exactly when the row of deltas is |
| `UpcaseTrie.TrieEncoding` | src/object.rs:2204-2247 | the encoder lays out every row of a fold in exactly as many elements as the fold has different blocks and rows, and overflows exactly when that number does |
| `UpcaseTrie.DeltaIsThere` | src/object.rs:2204-2247 | two links down from the first level is the unit's own delta |
| `UpcaseTrie.RoundTrip` | src/object.rs:528-539 | walking an encoded table gives the fold back, for every 16-bit unit |
| `UpcaseTrie.EncodeTable` | src/object.rs:2204-2247 | any fold whose own size is at most 65,536 elements is encoded in that size and read back exactly, for every unit |
| `UpcaseTrie.FewMovesFit` | src/object.rs:2249-2261 | a fold that moves at most 2,039 units is such a fold |
| `NameIdentity.SkippingIsSafe` | src/object.rs:1207-1211 | in a given kernel, a lookup matches every object whose own units fold as the component does if and only if that kernel's fold keeps surrogates apart from other units |
| `NameIdentity.ConfusedUnits` | src/object.rs:1207-1211 | any two units of different kinds that a fold confuses give a path that should match a skipped name |
| `NameIdentity.ALookupThatMisses` | src/object.rs:1207-1227 | a kernel with one delta of its table out of place: the directory is listed in full, an object in it is filed under units that fold as the path does, and the lookup answers NotFound |
| `ObjectNames.RenderingIsText` | src/object.rs:1383-1390 | a rendering is always text, and is the name itself exactly when the name is text |
| `ObjectPaths.PathsAreExact` | src/object.rs:1346-1372 | a path is accepted with given components if and only if it spells them: nothing is dropped or merged |
| `ObjectPaths.SplitJoins` | src/object.rs:1346-1372 | cutting a path at separators and joining it gives it back |
| `ObjectPaths.JoinSplits` | src/object.rs:1346-1372 | joining components and cutting gives them back |
| `ObjectPaths.WalkedGrows` | src/object.rs:1249-1253 | the path reached so far is extended as the walk's buffer extends it |
| `ObjectDirectory.ChainIsUnique` | src/object.rs:901-947 | a bucket's head determines its chain |
| `ObjectDirectory.NoEntryTwice` | src/object.rs:901-947 | a chain that ends meets no entry twice |
| `ObjectDirectory.LoopIsNoDirectory` | src/object.rs:901-947 | a directory with a looping chain has no complete answer, even where the loop's objects are null |
| `ObjectDirectory.WalkChain` | src/object.rs:916-944 | one chain's non-null objects in order, within the link bound, two reads for each entry; stopped or not, they are those of the entries linked from the head |
| `ObjectDirectory.EntriesOf` | src/object.rs:901-947 | on any memory one pointer read per bucket and two per link, within the bound, no null object, and nothing after a stop; over still memory, finished means exactly the objects of every chain in order, and stopped means exactly those of the chains and the part of one that the reads made had reached, whatever is broken beyond; a directory that is there is never refused |
| `Namespace.ListingAccounts` | src/object.rs:1084-1167 | every enumerated body is listed, unreadable, malformed or nameless |
| `Namespace.SeenListingAccounts` | src/object.rs:1084-1167 | the same of every listing on any memory, look by look |
| `Namespace.OnlyListedAreObjects` | src/object.rs:1084-1167 | the objects of a listing are exactly the bodies described as listed |
| `Namespace.ListingIsUnique` | src/object.rs:1084-1167 | memory determines a directory's whole listing |
| `Namespace.Namespace.constructor` | src/object.rs:789-813 | a namespace over a checked layout, with a fold that knows nothing yet |
| `Namespace.Namespace.NameAll` | src/object.rs:1089-1167 | one look for each entry found, in order, up to a stop; the listing is what those looks saw, on any memory |
| `Namespace.Namespace.NamedIn` | src/object.rs:1084-1167 | on any memory the listing is what its looks saw; over still memory one not halted is the whole directory, and a halted one is exactly the entries looked at of those the enumeration had reached, with nothing read after the stop; a directory that can be listed is |
| `Namespace.Namespace.FindNamed` | src/object.rs:1212-1215 | the first object whose name is exact and folds to the component, or none |
| `Namespace.Namespace.FindIn` | src/object.rs:1188-1227 | NotFound only after a whole listing with nothing unreadable or malformed, and the partial form carries the counts otherwise |
| `Namespace.Namespace.ResolveFrom` | src/object.rs:1186-1256 | each component is the first match of its directory, each intermediate one typed Directory |
| `Namespace.OneAnswer` | src/object.rs:1170-1256 | memory that holds still has one answer for a path: an object, an absence, a partial absence, or a component that is no directory |
| `Namespace.Namespace.ObjectAt` | src/object.rs:1170-1256 | an object only along a trail of first matches; NotFound only where nothing was left unread, on any memory by the counts of its last looks; a stop is Halted and never an object or NotFound; without a stop, the answer still memory holds is the one given, absence included |
| `Namespace.Namespace.ListPath` | src/object.rs:1264-1291 | the whole listing of the directory a path leads to, or exactly the entries looked at before a stop; every other answer is accounted for by the lookup or by what it found not being a directory; a directory that can be listed is |
| `ObjectBytes.DirectoryIsRead` | src/object.rs:901-947 | buckets and chains written at their offsets are the chains of the directory, bucket by bucket, and hold the objects written |
| `ObjectBytes.NameIsRead` | src/object.rs:955-998 | a counted string comes back as its units, with whether they are text, or is refused as too many |
| `ObjectBytes.NameIsRefused` | src/object.rs:955-998 | a counted string longer than its capacity, of half a unit, or with its units nowhere is malformed |
| `ObjectBytes.TextIsAccepted` | src/object.rs:1383-1390 | the UTF-16 units of any text are text |
| `ObjectBytes.AcceptedIsText` | src/object.rs:1383-1390 | units taken for text are the UTF-16 encoding of some text |
| `ObjectBytes.UnitIsShown` | src/object.rs:1383-1390 | a rendering changes no unit but a surrogate without its other half, which becomes U+FFFD |
| `ObjectBytes.NameIsFound` | src/object.rs:1000-1040 | an object's name is found through its header's mask, the kernel's distance for that mask, and the name header there |
| `ObjectBytes.DescriptorIsFound` | src/object.rs:1042-1054 | a security descriptor's address comes back without the count that shares its word |
| `ObjectBytes.TypeIsFound` | src/object.rs:1056-1082 | a type index mixed bit by bit with the cookie and a byte of the header's address gives back the type at that index |
| `ObjectBytes.ObjectIsDescribed` | src/object.rs:1084-1167 | an object written in memory is described as it was written |
| `ObjectBytes.HeaderIsMissing` | src/object.rs:1084-1167 | an object whose header cannot be read is counted as unreadable |
| `ObjectBytes.HeaderHasNoName` | src/object.rs:1000-1040 | a mask without the name bit is an object with no name, and without the kernel's distances a name cannot be looked for |
| `ObjectBytes.NameDoesNotFit` | src/object.rs:1000-1040 | a distance too short for a name header is counted as malformed |
| `ObjectBytes.DirectoryIsListed` | src/object.rs:1084-1167 | the whole listing of a directory written in memory is the objects written in it, in order, with nothing counted as unread |
| `ObjectBytes.PathIsSpelt` | src/object.rs:1346-1372 | each component behind a backslash is a path with those components |
| `ObjectBytes.PathIsATrail` | src/object.rs:1170-1256 | directories written one inside another are a trail of first matches, whatever the case of the letters |
| `ObjectBytes.FindWritten` | src/object.rs:1170-1256 | a lookup of a path through directories written in memory finds the object written at the end of it |
| `PoolIndexing.SpanLeIsTotal` | src/pool/index.rs:74-78 | the order spans are sorted by is a total preorder |
| `PoolIndexing.SpansAreInOrder` | src/pool/index.rs:74-78 | spans are ordered by heap, field by field, and by address within one heap |
| `PoolIndexing.Build` | src/pool/index.rs:74-103 | the spans sorted with none lost, and postings and rows that agree with a scan of them |
| `PoolIndexing.ContextForTag` | src/pool/index.rs:165-178 | ascending, without duplicates, exactly the spans that share a row with some allocation of the tag |
| `PoolIndexing.ContextIsByRow` | src/pool/index.rs:57-70 | sharing a row is agreeing in pool kind, node, heap, backend, subsegment and size class, and only what is in use carries a tag |
| `PoolIndexing.NeighboursAreInverse` | src/pool/index.rs:120-128 | successor and predecessor undo one another |
| `PoolIndexing.Holes` | src/pool/index.rs:130-161 | exactly the unbroken run of free chunks from the origin within its boundary, with their distances |
| `PoolIndexing.HolesAreFree` | src/pool/index.rs:105-161 | every hole is a free chunk of the origin's pool, node, heap, backend and subsegment, and the span after the last is not |
| `PoolIndexing.HolesAreAtTheirDistance` | src/pool/index.rs:130-161 | a hole's distance is the gap between it and the allocation, and it is immediate when it is next to it with none |
| `PoolIndexing.OverflowHoleHasOneOwner` | src/pool/index.rs:130-161 | a free chunk is an overflow hole of at most one allocation |
| `PoolIndexing.OverflowDistancesGrow` | src/pool/index.rs:130-161 | holes further along an overflow are no nearer |
| `PoolIndexing.RankIsTotal` | src/pool/index.rs:180-197 | the ranking is a total preorder |
| `PoolIndexing.RankedHoles` | src/pool/index.rs:180-197 | the same holes, each no worse than those after it: immediate, then free for reuse, then of the origin's backend and size class, then nearer, then larger, then lower |
| `PoolCache.KeptIsTheLatestBuild` | src/pool/index.rs:219-261 | over any run, an index is cached if and only if it is the latest successful build, under its key, not cut short, with no refresh or invalidation since |
| `PoolCache.SnapshotCache.constructor` | src/pool/index.rs:210-213 | a new cache has an empty history and entry |
| `PoolCache.SnapshotCache.GetOrRefresh` | src/pool/index.rs:219-261 | a hit is that build; a failed refresh leaves the cache empty; a failed ordinary build leaves it as it was; a build cut short empties it |
| `PoolCache.SnapshotCache.Invalidate` | src/pool/index.rs:263-265 | empties the cache |
| `Announcement.ByteAnnounces` | src/dbgeng/kernel_attach.rs:63-87 | a byte announces exactly when it completes the prefix on the current line |
| `Announcement.ByteTracked` | src/dbgeng/kernel_attach.rs:63-87 | the two fields of the matcher are enough to follow the current line of the whole stream |
| `Announcement.AnnouncedInWords` | src/dbgeng/kernel_attach.rs:63-87 | a stream announces if and only if the words come at its start or straight after a line feed |
| `Announcement.Notice.constructor` | src/dbgeng/kernel_attach.rs:56-61 | nothing heard, nothing fired |
| `Announcement.Notice.Feed` | src/dbgeng/kernel_attach.rs:63-87 | true exactly at the chunk after which some line of all normal output so far begins with the prefix, and not before |
| `Announcement.OneCallbackAtMost` | src/dbgeng/kernel_attach.rs:63-87 | over any run of callbacks at most one completes the announcement |
| `Announcement.ChunksDoNotMatter` | src/dbgeng/kernel_attach.rs:63-87 | however the same normal output is cut up and interleaved, it completes in both runs or neither |
| `Announcement.CompletesWhenAnnounced` | src/dbgeng/kernel_attach.rs:63-87 | some callback completes the announcement if and only if the joined output has one |
| `Announcement.Observer.constructor` | src/dbgeng/kernel_attach.rs:89-101 | no interrupt asked for |
| `Announcement.Observer.Receive` | src/dbgeng/kernel_attach.rs:102-128 | keeps the record true: an interrupt was asked for at the completing callback and nowhere else; other output is passed on by the previous mask alone |
| `Announcement.Observer.OneInterrupt` | src/dbgeng/kernel_attach.rs:102-128 | one interrupt in a run that announces, none in one that does not |
| `Announcement.Observer.Validate` | src/dbgeng/kernel_attach.rs:230-240 | success if and only if the announcement completed and its interrupt was accepted |
| `Arm64.ClassesAreDisjoint` | src/arm64.rs:72-206 | no word is in two of the seven encoding classes, so test order decides nothing |
| `Arm64.FieldIsSigned` | src/arm64.rs:209-213 | shifting a field up and back down extends its sign, at every width |
| `Arm64.RelativeIsExact` | src/arm64.rs:209-213 | a field of any width reaches exactly the word-aligned window about the branch, modulo 2^64, each address from one field value |
| `Arm64.DestinationIsInReach` | src/arm64.rs:72-206 | every direct branch goes somewhere in its class's window, by the field its word holds |
| `Arm64.RetargetedWordGoesThere` | src/arm64.rs:72-213 | writing the field for any address of the window into a branch changes where it goes and nothing else it does |
| `Arm64.RetargetedToItself` | src/arm64.rs:72-213 | writing the field for where a branch already goes gives the same word back |
| `Arm64.OneWordForEachDestination` | src/arm64.rs:72-213 | words that agree outside the destination field and go to one address are one word |
| `Arm64.RegisterWord` | src/arm64.rs:113-149 | a register branch assembled from its fields is taken apart into them, whatever its operands |
| `Arm64.RegisterForms` | src/arm64.rs:113-149 | the register branches by mnemonic, for every operand |
| `Arm64.OtherRegisterForms` | src/arm64.rs:113-149 | every register encoding that is not allocated traps |
| `Arm64.BranchForms` | src/arm64.rs:72-82 | `b` jumps and `bl` calls, each to its own address plus four times its displacement modulo 2^64, for every displacement |
| `Arm64.ConditionalForms` | src/arm64.rs:83-98 | a conditional branch may fall through unless its condition is one of the two that always hold; the unallocated half traps |
| `Arm64.CompareForms` | src/arm64.rs:99-104 | `cbz` and `cbnz` branch, at either register width, for every register and displacement |
| `Arm64.TestForms` | src/arm64.rs:105-110 | `tbz` and `tbnz` branch, for every bit, register and displacement |
| `Arm64.OtherWords` | src/arm64.rs:181-206 | a word of none of these classes traps in the reserved space and falls through outside it |
| `Arm64.ExceptionWord` | src/arm64.rs:150-180 | of all exception encodings, exactly the system calls continue at the next word |
| `Arm64.PackedRecord` | src/arm64.rs:240-248 | a packed record gives back the length packed into it, for every flag and every other bit |
| `Arm64.XdataHeader` | src/arm64.rs:265-267 | a version-zero header gives back its length, any other version gives none |

## Left out

- `read_image`, section parsing, `executable_ranges`, `read_exports_at` and `read_import_address_table` (src/pe.rs): the same bounded reads as the import walk, with simpler tables.
- `Layout::check` field by field and `classify_root`: members whose whole content is a list of comparisons. `Namespace.Namespace.constructor` takes a layout that passed the check.
- DbgEng, COM and FFI: callback installation and restoration in `AnnouncementGuard`, waiting, symbol and type lookup, the WoW64 check.
- `walk_user_segment_heaps` and the rest of the pool walker: any function from a scope to spans and flags.
- `RtlUpcaseUnicodeChar` on the host: any function on 16-bit units.
- Operand decoding in src/arm64/operand.rs and `link_target` in src/object.rs.
- Diagnostic text and error wording: errors keep their variant and the values a caller acts on.
- Locks and interior mutability: each method is one step, as the locks make it.
- The clock: a stream of answers, one for each time the source asks, that may expire or interrupt at any of them.
- `Session.Target.Look`: the several reads that describe one object (its name, security descriptor and type) are one look at memory as it stands then, so what is proved of changing memory treats them as simultaneous; none of them polls for a halt.
- `Sorting.SortSorts`: sorting is an insertion sort, sorted and stable as the library's is, not the library's algorithm; likewise `HeapNeighbours.SeparatedIsFound` takes the position a binary search finds as the number of leading chunks at or below the address.
- `HeapCensus.CensusOf`: chunk counts are unbounded where the source's are 64-bit.
- `Announcement.Notice.Feed`: text arrives as bytes; decoding a callback's UTF-16 to UTF-8 is not modelled.
- `UpcaseTrie.EncodeTable`: a fold whose own size is over 65,536 elements has no encoding in the format, and the round trip is not claimed for it.
- `HeapSnapshots.SnapshotCache.WalkSnapshot`: a key's process, image and generation are compared and not interpreted; a hit's evidence is of the process as it was when walked.
- `Arm64.RegisterForms`: words are integers and masks are the bit fields they select, not bit-vectors; likewise `ObjectBytes.TypeIsFound` has exclusive or as the parity of each bit.
