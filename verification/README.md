# A verified model of the quarantine lab's evidence pipeline

The lab snapshots a Windows guest, reads the snapshot disks without booting them, compares registry and file
evidence between snapshots, inspects the captured traffic against an allowlist, and shows the result in a viewer.
This project models the parts of that pipeline whose correctness is not visible from reading one function, and
proves what they promise. `dafny verify dfyconfig.toml` checks all of it.

The model is organised as the program is; each file is one module.

**Snapshot disk reader.** `VdiOverlay` says what a chain of VDI images means, one byte at a time: a zero block is
zero, a free block defers to the parent, anything past a map or past a parent's end is zero, an allocated block is the
byte at a 64-bit file offset. `VdiReader` is the buffer-filling loop itself, recursing through parent objects over
files that may deliver fewer bytes than asked, stop early or fault, and it is proved to deliver exactly the overlay's
bytes. `VdiLayout` writes a file slot by slot, under any block map, and says what is read from it. `VdiFlatten` is the
algebra of replacing a tail of a chain by one copy, whatever the order of its blocks. `VdiOpen` parses headers, loads
block maps and links images; `VdiFile` writes a whole image file field by field and reads it back. `MediaChain` finds
the files of a chain from the machine's media registry. `FlattenProtocol` is the single-flight clone cache as a state
machine over its atomic steps, for any number of callers; `FlattenSafety`, `FlattenAnswers`, `FlattenFiles` and
`FlattenProgress` hold what every reachable state and every run satisfies.

**Registry index pipeline.** `RegistryRecords` has the sort order, `RegistryWalk` the sequential and the parallel hive
walk, `RegistryListing` when they list every value once, `Heap`, `RegistryMerge` and `Interleaving` the k-way merge,
`RegistryDiff` the streaming merge-join over two stateful readers, `RegistryDelta` the map-based comparison it must
agree with and the patch its result is, `RegistryKeys` what the sort key identifies and the same delta place by place,
`RegistryPipeline` the way from two hives to their delta, `ChangedTree` the tree of linked nodes with change markers
that is built from a delta, and `ChangedTreeLaws` what keys spell and what is shown of an entry.

**Allowlist compiler and its auditor.** `NftRules` writes the forward rules, reads the written text back and
interprets it first match first; `PolicyTexts` spells the text and the policy out; `PolicyAudit` decides from a
captured flow whether those rules would have dropped it.

**Lexers, codecs and aggregators.** `Html`, `Lexemes`, `Markup` and `Highlight` are the viewer's highlighters.
`HtmlReader` reads their output back, character by character with its class; `LexemeEnds` and `MarkupEnds` say of
every token where it ends, from its own text and the text after it; `MarkupDocs`, `MarkupPaint` and `MarkupRoundTrip`
write documents out of tags, comments and text, and find each part in its colour. `Base64`, `Utf8` and `Sidecar` the
stored before-content of a file (base64: section 4 of RFC 4648; UTF-8: sections 3 and 4 of RFC 3629); `FlowIds`,
`FlowAggregate`, `FlowTexts` and `FlowReports` the grouping of packets into flows and what a flow reports;
`HttpWindow` the clipping of HTTP rows to a snapshot interval, `HttpWindowNumbers` the same rule in plain numbers,
`HttpWindowBound` and `HttpWindowZero` how far apart the kept rows can be, and `HttpWindowTwice` what filtering again
changes.

**Snapshot deletion.** `SnapshotTree` reads the listing, whose suffixes such as `-1-10-2` encode the tree;
`SnapshotDelete` deletes a snapshot or its branch one leaf at a time.

`Basics`, `Text` and `Decimal` hold shared types, ASCII string functions and decimal numerals; `TextLaws` spells the
folding, trimming and ordering of texts out.

Things the outside world decides are parameters or nondeterministic steps: how much a file read delivers and whether
it fails, whether a clone or a deletion succeeds, whether a cached file is usable, the order in which workers take
work, the order in which a Go map is walked, what the address parser says of a text, what path a disk location
resolves to. A file is called steady here when reads of it make progress and never fault, and prompt when besides one
read delivers all there is. Go strings and slices of bytes are sequences; fields that the source updates are fields
of classes here.

Where the code and its own comments part, the model follows the code, and the property the comments suggest comes
with the exact condition under which it holds:

- the table of generic protocol names holds two mixed-case entries that an upper-case lookup can never find
  (`GenericExactly`);
- the early answer of the clone cache can hand out a file that is still being written (`AnswerDuringClone`,
  `HandedWhileWrittenExactly`), and a successful clone can come without its file, because another caller removed it
  (`SuccessWithoutFile`, `LedAnswerHasFileExactly`);
- the time-window filter is not idempotent (`NotIdempotent`, `IdempotentExactly`); its bound fails for sessions of
  more than some 233 years, for rows stamped with the zero time when the window is not clear of it, and where rows
  at and before the zero time meet (`AlwaysNarrowExactly`, `NarrowFromZeroExactly`, `NarrowForAllExactly`);
- a packet's info text can hide a name (`InfoCanHideAName`, `NamesExact`);
- a walk loses the values under a top-level name that repeats an earlier one but for case (`LaterNameIsLost`,
  `AlwaysPlainExactly`);
- two registry values share a sort key without being the same value when a bar in a key path can be read in two ways
  (`SameKeyExactly`);
- auditor and firewall differ on exactly the carved-out traffic to the internet (`AuditorAgreesWithRules`).

## Model

| member | source | states |
|---|---|---|
| VdiOverlay.PhysicalOffsetExact | go/internal/disk/vdi.go:142-146 | the 64-bit file offset is the exact one if and only if the exact one is below 2^63 |
| VdiOverlay.ZeroRun | go/internal/disk/vdi.go:178-186 | a run inside an absent or zero block is all zero bytes of the overlay |
| VdiOverlay.FreeRun | go/internal/disk/vdi.go:187-198 | a run inside a free block is the parent's run, byte for byte |
| VdiOverlay.AllocatedRun | go/internal/disk/vdi.go:199-203 | a run inside an allocated block is one contiguous slice of the file, or holds a byte the file does not have |
| VdiLayout.LayoutReadsBack | go/internal/disk/vdi.go:142-207 | for a file of any prefix and then slots, each some extra bytes and a block of data, under any block map into the slots: byte r of block i of the disk is byte r of the slot the map names, zero where the map says zero or ends, and the parents' byte where it says free |
| VdiReader.ReadFullAt | go/internal/disk/vdi.go:209-228 | fills the whole window with the file's bytes however short single reads are, never reports plain end of file, and on a steady file fails only when the window is not inside it |
| VdiReader.VdiImage.PhysicalAt | go/internal/disk/vdi.go:142-146 | the offset computed from the image's own fields is the overlay's offset |
| VdiReader.VdiImage.ReadZero | go/internal/disk/vdi.go:178-186 | clears exactly the run, which is what the overlay shows there |
| VdiReader.VdiImage.ReadFree | go/internal/disk/vdi.go:187-198 | the parent's bytes, zeros where the parent ends or is missing, and the parent's error only when it delivered too little |
| VdiReader.VdiImage.ReadAllocated | go/internal/disk/vdi.go:199-203 | the run's bytes from this image's file, or none and an error |
| VdiReader.VdiImage.RunLength | go/internal/disk/vdi.go:168-177 | the piece chosen for one turn is not empty and stays inside the disk and inside one block |
| VdiReader.VdiImage.ReadRun | go/internal/disk/vdi.go:172-203 | one turn delivers the overlay's bytes of its piece, or an error that is never end of file |
| VdiReader.VdiImage.ReadAt | go/internal/disk/vdi.go:148-207 | every byte reported is the overlay's byte and nothing outside the window changes; without a failure exactly min(len, size - off) bytes are delivered and EOF is returned exactly when that is short; on steady files it fails only when some byte really is unreadable |
| VdiFlatten.SplitRead | go/internal/disk/vdi.go:148-207 | a read split anywhere concatenates to the unsplit read, and meets the end of the disk if and only if one of its parts does |
| VdiFlatten.ReplaceTailByte | go/internal/disk/vdi.go:187-198 | exchanging any tail of a chain for one showing the same disk changes no byte |
| VdiFlatten.ReplaceTailRead | go/internal/disk/vdi.go:148-207 | nor any read, end of disk included, as long as the leaf stays |
| VdiFlatten.CopyShows | go/internal/disk/vdi.go:142-207 | a copy with its blocks in any order shows exactly the bytes copied, and zeros after them |
| VdiFlatten.FlattenTail | go/internal/disk/vdi.go:232-268 | any readable tail, the whole chain included, can be replaced by one copy of its contents with the blocks stored in any order, and every read stays the same; below the leaf it may be padded with any number of zeros |
| VdiFlatten.RawCopyAgrees | go/internal/disk/vdi.go:251-255 | reading a plain file that holds a readable chain's contents delivers, at every place, what reading the chain delivers, end of disk included |
| VdiFlatten.WholeRead | go/internal/disk/vdi.go:148-207 | reading a readable chain from the start gives its contents, and the end of the disk exactly when more was asked for |
| VdiOpen.SingleBitExactly | go/internal/disk/vdi.go:101-103 | the bit test on the block size accepts exactly the powers of two |
| VdiOpen.ParseHeader | go/internal/disk/vdi.go:70-115 | an accepted header has a known type, a power of two of at least 512 as block size, and non-zero, bounded geometry |
| VdiOpen.HeaderFromPrefix | go/internal/disk/vdi.go:70-84 | a header accepted from a short read is the header of the whole file |
| VdiOpen.HeaderFromStart | go/internal/disk/vdi.go:70-115 | the bytes read decide exactly as the whole file does, its errors included |
| VdiFile.HeaderReadsBack | go/internal/disk/vdi.go:70-115 | a header written field by field at its offsets, little endian, is read back if and only if version, kind, block size and geometry are sound; whatever is accepted is what was written |
| VdiFile.OneFaultIsNamed | go/internal/disk/vdi.go:86-115 | a header with a single fault is refused with the error for that fault |
| VdiFile.NoVdiExactly | go/internal/disk/vdi.go:70-90 | a file is no VDI exactly when the four signature bytes are not at offset 64 |
| VdiOpen.ParseVdiHeader | go/internal/disk/vdi.go:70-115 | whatever one read delivers, a header it yields is the file's; and when a read delivers all there is, the header or what is wrong with it is exactly that of the file |
| VdiOpen.LoadBlockMap | go/internal/disk/vdi.go:129-140 | the map holds the file's little-endian entries, and loading fails on a steady file only if the file is too short for it |
| VdiFile.MapReadsBack | go/internal/disk/vdi.go:129-140 | a block map written little endian is read back |
| VdiFile.FileReadsBack | go/internal/disk/vdi.go:117-207 | the image loaded from a file that holds a header, a block map and slots at the places the header names shows the slots by the map, over any parents |
| VdiFile.OpensExactly | go/internal/disk/vdi.go:117-140 | such a file opens if and only if the header is sound and the map lies inside the file |
| VdiOpen.LoadImage | go/internal/disk/vdi.go:117-127 | a loaded image is the image its file holds; with prompt files loading fails exactly when the header is not accepted, with that error, or the map is not inside the file |
| VdiOpen.SetParents | go/internal/disk/vdi.go:264-266 | every image but the last gets the next one as its parent, and the last gets none |
| VdiOpen.Link | go/internal/disk/vdi.go:264-266 | after linking, the leaf is a valid reader of exactly the images of all files, in order, so the recursion of ReadAt is well founded |
| VdiOpen.LoadAll | go/internal/disk/vdi.go:242-263 | files are loaded in order up to the first failure; with prompt files it reports the first file that has something wrong, and only that |
| VdiOpen.OpenChain | go/internal/disk/vdi.go:232-268 | an opened chain shows exactly the given files' images leaf first; no files is an error; prompt files open exactly when each has an accepted header and a map inside it, or when the only file is no VDI; otherwise the first failing file gives the error, and a file that is no VDI gives its own when it is not alone |
| VdiOpen.ReadView | go/internal/disk/vdi.go:50-52 | a read through an opened view, raw or chain, delivers what the view shows and touches nothing outside its window |
| VdiOpen.CopyShowsTheSame | go/internal/disk/vdi.go:50-52 | a view of a raw copy of a readable chain shows, for every read, what the view of the chain shows |
| MediaChain.Registry.Walk | go/internal/disk/vbox_parse.go:77-93 | the shared map ends up as the located disks of the forest registered in visiting order, each under the nearest identified disk above it |
| MediaChain.VisitedIsPath | go/internal/disk/vbox_parse.go:96-112 | whatever the map, cyclic or not, a walk visits registered media only, each once, each the parent of the one before, and ends only at a base, at an unregistered medium or where a cycle closes |
| MediaChain.FollowChain | go/internal/disk/vbox_parse.go:96-112 | terminates on every map with the paths of the media that walk visits |
| MediaChain.RegisteredExactly | go/internal/disk/vbox_parse.go:77-93 | with unique identifiers every located disk is registered with its own parent, and a disk without a location not at all |
| MediaChain.FindClimbs | go/internal/disk/vbox_parse.go:77-93 | searching the forest finds exactly the visited identifiers, and the ancestors found are the visited parents |
| MediaChain.FindNoRepeat | go/internal/disk/vbox_parse.go:96-112 | a chain of ancestors in a forest with unique identifiers repeats no disk |
| MediaChain.FollowsTrail | go/internal/disk/vbox_parse.go:96-112 | following the map along a described chain of ancestors gives their paths up to the first one without a location |
| MediaChain.ChainIsLineage | go/internal/disk/vbox_parse.go:77-112 | on a forest with unique identifiers the chain is the leaf-to-root ancestor list, cut at the first unregistered medium |
| MediaChain.SnapshotDisks | go/internal/disk/vbox_parse.go:71-112 | registering a forest and following one leaf gives that ancestor list |
| FlattenProtocol.EnterKeepsInv | go/internal/disk/reader.go:227-249 | the locked first half of a call, the removal of an unusable output included, keeps the protocol's invariant: every open flight is registered and led, every registered flight is open |
| FlattenProtocol.PublishKeepsInv | go/internal/disk/reader.go:267-279 | so does the locked second half, which unregisters, publishes and closes |
| FlattenProtocol.MoveKeepsInv | go/internal/disk/reader.go:242-265 | so do the unlocked steps: starting a clone, its writes of the output, its end, and waking |
| FlattenProtocol.ProbeKeepsInv | go/internal/disk/reader.go:152-170 | so does the locked question whether a usable output exists, which may enter it in the cache |
| FlattenSafety.SingleFlight | go/internal/disk/reader.go:219-280 | in every reachable state at most one caller per snapshot is between registering and closing a flight |
| FlattenSafety.InflightExactlyWhileLed | go/internal/disk/reader.go:247-268 | an in-flight entry exists exactly while some caller leads a flight for that snapshot |
| FlattenSafety.NoOrphanWaiter | go/internal/disk/reader.go:242-246 | nobody waits on a flight that is neither closed nor led |
| FlattenSafety.WaiterGetsLeadersError | go/internal/disk/reader.go:242-279 | a caller that waited returns the error of the leader it waited for |
| FlattenSafety.AnswerDuringClone | go/internal/disk/reader.go:234-239 | a reachable state in which one caller is still cloning, having written some of its output, and another already has that output path |
| FlattenSafety.AnswersAtOnceExactly | go/internal/disk/reader.go:227-246 | in one step: a call is answered at once if and only if it finds a usable cached or output file, whether or not a flight is registered |
| FlattenSafety.CacheAnswersExactly | go/internal/disk/reader.go:227-246 | over every run: a caller is answered from the cache if and only if a usable file was there when it entered |
| FlattenSafety.EarlyAnswersExactly | go/internal/disk/reader.go:227-246 | over every run and for any condition on the state at entry, a registered flight for example: a caller that entered under it is answered from the cache if and only if entering found a usable file then |
| FlattenSafety.HandedWhileWrittenExactly | go/internal/disk/reader.go:227-265 | over every run that starts with an empty or well-named cache: a caller that entered while the output of its snapshot was being written is handed the path of that very output if and only if entering found a usable file then |
| FlattenAnswers.OutPathExactly | go/internal/disk/reader.go:224-225 | two snapshots have the same output file if and only if their identifiers agree up to braces |
| FlattenAnswers.AnswersNameOwn | go/internal/disk/reader.go:219-280 | over every run from an empty cache: a caller is answered with the output of its own snapshot, unless its leader failed |
| FlattenAnswers.OnlyItsOwnWrites | go/internal/disk/reader.go:224-265 | a snapshot's output only ever appears by the write of a caller for that snapshot, up to braces |
| FlattenAnswers.SuccessWasWrittenForIt | go/internal/disk/reader.go:219-280 | over every run from an empty cache and no files: a caller told of success was handed a path that a clone has written, and only callers for the same snapshot up to braces have made it appear |
| FlattenAnswers.CachedWasWritten | go/internal/disk/reader.go:234-279 | over every such run: every cache entry is its own snapshot's output, and that has been written |
| FlattenFiles.FileExactly | go/internal/disk/reader.go:234-265 | after every run a file exists if and only if it was written, or there to begin with, and no caller has removed it since |
| FlattenFiles.LedAnswerHasFileExactly | go/internal/disk/reader.go:234-279 | a leader that reports success has written its output, and the output exists if and only if no caller removed it after its last write |
| FlattenFiles.SuccessWithoutFile | go/internal/disk/reader.go:234-279 | that matters: a reachable state in which leader and waiter both have a success and the file is gone |
| FlattenProgress.RunsAreShort | go/internal/disk/reader.go:219-280 | every step of a call in every interleaving uses up one of the callers' remaining steps, and no write or question gives one back |
| FlattenProgress.SomeoneCanMove | go/internal/disk/reader.go:219-280 | a caller that is not done can move or waits for one that can |
| FlattenProgress.EveryRunAnswersAll | go/internal/disk/reader.go:219-280 | no deadlock: n callers take at most 4n steps, and a run in which no call can go on has answered all of them |
| RegistryRecords.SortRecords | go/internal/registry/hive_extract.go:258-262 | some sorted permutation: ties come in any order |
| RegistryRecords.RecordsSorted | go/internal/registry/hive_index.go:95-102 | comparing neighbours decides sortedness of the whole list |
| RegistryRecords.SortedUnique | go/internal/registry/hive_extract.go:258-262 | with unique keys two sorted lists of the same records are equal |
| TextLaws.CaseOfLetters | go/internal/registry/hive_index.go:31-33 | folding takes each of the 26 capitals to its small letter and leaves small ones; the other way round likewise |
| TextLaws.CaseOfOthers | go/internal/registry/hive_index.go:31-33 | folding changes nothing else |
| TextLaws.LessExactly | go/internal/registry/hive_diff.go:52-73 | a text is less than another exactly when they agree up to some place where it ends or has the smaller character |
| TextLaws.TrimBracesExactly | go/internal/disk/reader.go:224-224 | trimming braces leaves what stands between the braces at both ends |
| TextLaws.TrimSpaceExactly | go/internal/vm/service.go:176-176 | trimming space leaves what stands between the blanks at both ends |
| RegistryKeys.SameKeyExactly | go/internal/registry/hive_index.go:31-33 | sort keys are equal if and only if key path and value name agree up to case, or the longer key path goes on, after a bar, with the beginning of the other name |
| RegistryKeys.SamePlaceExactly | go/internal/registry/hive_index.go:31-33 | so between key paths without a bar they are equal exactly for the same key path and the same value name up to case |
| RegistryWalk.EmitValues | go/internal/registry/hive_parse.go:158-174 | appends one record per value, in order |
| RegistryWalk.WalkKey | go/internal/registry/hive_parse.go:138-156 | appends exactly the records of the key and its named, unskipped descendants |
| RegistryWalk.FindSubkey | go/internal/registry/hive_parse.go:114-125 | a child whose name matches without regard to case, the first of them, or none |
| RegistryWalk.WalkSequential | go/internal/registry/hive_parse.go:60-69 | a sorted listing of exactly the records of the hive, each top-level name looked up in it |
| RegistryWalk.WalkChunks | go/internal/registry/hive_parse.go:78-103 | whatever order workers take the numbers in, slot i holds a sorted listing of branch i; the walk ends if and only if there is nothing to do or some worker can open the hive |
| RegistryWalk.WalkParallel | go/internal/registry/hive_parse.go:71-111 | the same multiset of records, sorted, as the sequential walk, unless no worker can open the hive |
| RegistryWalk.WalkHive | go/internal/registry/hive_parse.go:33-112 | so either way a sorted listing of exactly the hive's records; no listing exactly when the walk is parallel, there are four names or more, and no worker can open the hive |
| RegistryWalk.WalksAgree | go/internal/registry/hive_parse.go:60-111 | with unique sort keys the two walks give the same sequence |
| RegistryListing.ApartIsPlain | go/internal/registry/hive_parse.go:45-69 | when no listed top-level name repeats an earlier one but for case, those records are each value of the tree exactly once |
| RegistryListing.LaterNameIsLost | go/internal/registry/hive_parse.go:62-68 | for any list of names with such a repetition, a hive whose value under the later name is not listed |
| RegistryListing.AlwaysPlainExactly | go/internal/registry/hive_parse.go:45-125 | so walks list every value once, whatever the keys hold, if and only if no listed name that is not skipped anyway repeats an earlier one but for case |
| RegistryListing.RecordsExactly | go/internal/registry/hive_parse.go:138-174 | what is listed below a key, way by way: a record is there exactly when some chain of named subkeys, none of them skipped, leads to a key with that value, under the path the names spell |
| RegistryListing.SkippedExactly | go/internal/registry/hive_parse.go:271-289 | a path is skipped exactly when one of the listed parts stands somewhere in it, whatever its case |
| Heap.Heap.Init | go/internal/registry/hive_extract.go:282 | turns any slice into a heap of the same elements |
| Heap.Heap.Push | go/internal/registry/hive_extract.go:293-297 | adds the element and stays a heap |
| Heap.Heap.Pop | go/internal/registry/hive_extract.go:289 | removes one element, which nothing in the heap precedes, and stays a heap |
| RegistryMerge.FilterNonEmpty | go/internal/registry/hive_extract.go:303-311 | the non-empty chunks in order, so no record is lost and sorted chunks stay sorted |
| RegistryMerge.FirstHeads | go/internal/registry/hive_extract.go:275-281 | the heap starts with exactly the first head of every chunk |
| RegistryMerge.LeastHead | go/internal/registry/hive_extract.go:288-290 | a least head precedes or ties every unread record |
| RegistryMerge.Turn | go/internal/registry/hive_extract.go:288-298 | one turn keeps the heap equal to the next unread heads and the output equal to what was read, sorted, with less left to read |
| RegistryMerge.TakeNext | go/internal/registry/hive_extract.go:288-298 | popping a head and pushing its successor performs such a turn |
| RegistryMerge.MergeThroughHeap | go/internal/registry/hive_extract.go:275-300 | for any number of sorted non-empty chunks: sorted output with the union of their records, each chunk whole and in its own order at places of its own |
| RegistryMerge.MergeSortedRecords | go/internal/registry/hive_extract.go:265-301 | for any sorted chunks, empty ones included: sorted output with the union of their records, each chunk whole and in its own order at places of its own |
| Interleaving.WithEmpties | go/internal/registry/hive_extract.go:303-311 | an interleaving of the non-empty chunks is one of all chunks |
| RegistryDiff.IndexReader.Next | go/internal/registry/hive_index.go:210-229 | hands out the decodable lines in order and stops for good at the end or at the first bad line, whose error it keeps |
| RegistryDiff.Turn | go/internal/registry/hive_diff.go:50-79 | one turn of the loop moves the join forward: what is out plus the join of what is pending never changes |
| RegistryDiff.DiffIndexes | go/internal/registry/hive_diff.go:28-88 | the join of both indexes' records, or the first failing side's error |
| RegistryDelta.JoinIsDifference | go/internal/registry/hive_diff.go:50-79 | on strictly sorted indexes: added are exactly the records whose key the first lacks, removed those whose key the second lacks, modified the pairs with equal keys and different hashes; all three sorted |
| RegistryKeys.JoinByPlace | go/internal/registry/hive_diff.go:50-79 | the same without sort keys: for sorted indexes with no bar in a key path and no place twice, added and removed are exactly the records whose key path and name, up to case, the other side lacks, and modified spells both sides of every place whose hash differs |
| RegistryDelta.JoinIsPatch | go/internal/registry/hive_diff.go:28-88 | applying the delta to the first index gives the second's keys and hashes, and exactly the second when equal hashes mean equal records |
| RegistryDelta.DiffRegistry | go/internal/diff/engine.go:462-494 | the map-based comparison lists, without repeats, exactly the one-sided keys and the pairs whose type or value differ, last record of a key winning |
| RegistryDelta.LastOfKey | go/internal/diff/engine.go:462-494 | of several records with one key the table holds the last |
| RegistryDelta.ComparisonsAgree | go/internal/diff/engine.go:458-494 | the one-pass join and the map-based comparison find the same additions, removals and modifications |
| RegistryPipeline.HiveDelta | go/internal/registry/hive_diff.go:28-88 | from hive to delta: however two hives were walked, if neither has two values with one sort key, joining their listings gives exactly the one-sided values and those whose hash changed, in order, and the result is a patch from the first to the second |
| ChangedTree.MergeLaws | go/internal/registry/parser.go:140-153 | merging changes is commutative, associative and idempotent, with no change as its unit |
| ChangedTree.MarkSummarises | go/internal/registry/parser.go:140-153 | a marker summarises the changes at or below its node: none, the only kind there is, or "modified" for several |
| ChangedTree.MarkOrderFree | go/internal/registry/parser.go:85-138 | markers do not depend on the order of the entries |
| ChangedTree.LastPart | go/internal/registry/parser.go:91-119 | the last part of a trimmed key is empty only when the key is, so every keyed entry is attached |
| ChangedTreeLaws.KeySpells | go/internal/registry/parser.go:91-97 | however many backslashes stand around and between the parts, a key spells its parts |
| ChangedTreeLaws.NodePathSpells | go/internal/registry/parser.go:100-104 | the path text of a node spells the node |
| ChangedTree.MergeNodeChange | go/internal/registry/parser.go:140-153 | changes the marker to the merge and nothing else |
| ChangedTree.Visit | go/internal/registry/parser.go:98-118 | walking one part further finds or makes the child for it and merges the change into exactly that node |
| ChangedTree.AddEntry | go/internal/registry/parser.go:90-136 | after each entry the nodes are exactly the prefixes of the keys so far, each with its merged marker and the values that belong to it |
| ChangedTree.BuildChangedTree | go/internal/registry/parser.go:85-138 | so the finished tree has one node per key prefix, linked by part, each marked with the join of the changes at or below it, and every keyed entry sits exactly once, in order, at the node its key spells |
| ChangedTreeLaws.EntryIsShown | go/internal/registry/parser.go:119-134 | the k-th entry placed at a node is the k-th value there, with both sides of the entry; a modified value without content or type of its own shows the new ones |
| NftRules.UniqueSortedPorts | go/internal/config/nft_policy.go:10-22 | ascending, and exactly the listed ports in 1..65535 |
| NftRules.AscendingUnique | go/internal/config/nft_policy.go:10-22 | that determines the list |
| NftRules.NftPortSet | go/internal/config/nft_policy.go:24-37 | no text exactly when no listed port is in range; otherwise a text from which a reader gets exactly the ports in range, ascending |
| NftRules.PortTextReadsBack | go/internal/config/nft_policy.go:24-37 | a reader of port sets gets the same ports back from the text |
| NftRules.RulesReadBack | go/internal/config/nft_policy.go:39-77 | a reader of the rules gets the same rules back from the written text |
| NftRules.CompiledDecides | go/internal/config/nft_policy.go:41-77 | interpreted first match with default drop, the compiled rules accept exactly the allowed packets |
| NftRules.PermissiveForwardRules | go/internal/config/nft_policy.go:41-77 | for every policy the written text reads back to rules that accept a packet if and only if it is allowed ICMP, or its port is listed, in range, no web port, and no DNS port while DNS is forced |
| PolicyTexts.WrittenText | go/internal/config/nft_policy.go:41-77 | the written text line by line, from the lab to the internet: the ping lines unless ping is forbidden, the DNS drops unless DNS is not forced, one accept line for each protocol with forwardable ports, which are in ascending order, and the closing comment |
| PolicyTexts.CompiledText | go/internal/config/nft_policy.go:41-77 | compiled rules have that text, whatever the port lists |
| PolicyTexts.NothingSaid | go/internal/config/config.go:394-409 | a policy that says nothing allows ping only |
| PolicyTexts.PingExactly | go/internal/config/nft_policy.go:44-47 | ping is allowed unless the policy says no |
| PolicyTexts.PortExactly | go/internal/config/nft_policy.go:53-69 | a port is allowed exactly when it is listed for its protocol, is in range, is no web port, and is no DNS port unless DNS is not forced |
| PolicyAudit.BuildPortSet | go/internal/pcapinspect/policy.go:34-40 | the set of listed ports |
| PolicyAudit.AnnotatePolicyBreaches | go/internal/pcapinspect/policy.go:13-32 | flags exactly the flows with a reason and writes nothing but their two breach fields |
| PolicyAudit.PublicIsInternet | go/internal/pcapinspect/policy.go:42-63 | the internet is every public address other than the gateway's and the guest's |
| PolicyAudit.ReasonMeaning | go/internal/pcapinspect/policy.go:65-117 | a reason is given exactly for unlisted, disallowed or DNS-bypassing traffic to a known address outside the lab that is not exempt |
| PolicyAudit.ReasonInWords | go/internal/pcapinspect/policy.go:65-117 | the same down to the fields of the flow and of the policy: label, transport, port, address kind, what is listed and what is unset |
| PolicyAudit.AuditorAgreesWithRules | go/internal/pcapinspect/policy.go:13-117 | for every flow to the internet, the auditor flags it exactly when the compiled rules drop it, if and only if the flow is outside the carve-outs |
| PolicyAudit.AuditorAgreesWithText | go/internal/pcapinspect/policy.go:13-117 | the same for the rules read back from any text that implements the policy, so for the written one |
| Html.UnescapeEscape | manifest/viewer/highlight.js:17-24 | undoing the five replacements gives back every text |
| Html.EscapeOne | manifest/viewer/highlight.js:17-24 | the five passes in sequence escape a character once: no pass touches another's output |
| Html.EscapeHasNoAngles | manifest/viewer/highlight.js:17-24 | escaped text holds no angle bracket |
| Html.RenderIsLossless | manifest/viewer/highlight.js:88-88 | stripping the span tags from rendered tokens and unescaping gives back their text, and the spans are balanced and never nested |
| HtmlReader.RenderShows | manifest/viewer/highlight.js:88-88 | a reader of tags and escapes sees every character of the text, in order, in the class of the token it is from |
| Lexemes.TokensPartition | manifest/viewer/highlight.js:61-118 | the lexemes of any text are non-overlapping, in order and together the text |
| Lexemes.LiteralEndsAtFirstQuote | manifest/viewer/highlight.js:63-82 | a string literal ends right after the first quote that no backslash protects, or at the end of the text |
| Lexemes.JsonKinds | manifest/viewer/highlight.js:63-117 | each class is given only to its own kind of JSON lexeme |
| Lexemes.KeyBeforeColon | manifest/viewer/highlight.js:84-88 | a string is a key exactly when a colon follows it after optional space |
| Lexemes.JsKinds | manifest/viewer/highlight.js:237-295 | each class is given only to its own kind of JavaScript lexeme |
| LexemeEnds.TokensExactly | manifest/viewer/highlight.js:56-297 | for JSON and JavaScript: a cutting of a text is the highlighter's if and only if each token, from its own text and the text after it, has the right class and ends right: a line comment before a newline or the end, a block comment with the first mark at or after its third character or the end, a literal after its first unprotected quote or the end, numbers and words as maximal runs, keys before a colon, and single characters otherwise |
| LexemeEnds.OneLexing | manifest/viewer/highlight.js:56-297 | there is only one such cutting |
| Markup.WrapIsTokens | manifest/viewer/highlight.js:216-219 | wrapping references in already escaped text is the same as tokenising the raw text and escaping each token |
| Markup.MarkupPartition | manifest/viewer/highlight.js:128-222 | the markup lexemes spell the whole text, in order, each in its own class |
| MarkupEnds.MarkupAllEnd | manifest/viewer/highlight.js:122-222 | every markup token ends right: comments with their first closing mark or the end, names where no name character follows, quoted values with the first quote of their kind or the end, bare ones before white space or the end of the tag, and each reference is one |
| MarkupRoundTrip.DocumentPaints | manifest/viewer/highlight.js:122-222 | a document written out of comments, declarations, tags with any attributes and text with references is highlighted part by part, each in its colour |
| Highlight.ScanLiteral | manifest/viewer/highlight.js:64-82 | the inner loop finds the literal's end |
| Highlight.HighlightJson | manifest/viewer/highlight.js:56-120 | terminates on every text; the result is the rendering of its lexemes, lossless and balanced |
| Highlight.HighlightJs | manifest/viewer/highlight.js:225-297 | terminates on every text; the result is the rendering of its lexemes, lossless and balanced |
| Highlight.PushAttribute | manifest/viewer/highlight.js:167-201 | one attribute with its optional value is pushed as its lexemes, every character once |
| Highlight.PushTag | manifest/viewer/highlight.js:143-208 | one tag is pushed as its lexemes, every character once, closed or not |
| Highlight.HighlightMarkup | manifest/viewer/highlight.js:122-223 | terminates on every text; the result is the rendering of its lexemes, lossless and balanced |
| Base64.DecodeEncode | go/internal/evidence/service.go:210-214 | decoding gives back every byte string that was encoded |
| Base64.EncodeQuanta | go/internal/evidence/service.go:182-190 | a decodable text is the encoding of what it decodes to exactly when its unused bits are zero |
| Base64.GroupAt | go/internal/evidence/service.go:210-214 | each three bytes become the four symbols at the same place, and what is left over one padded group |
| Base64.GroupSpells | go/internal/evidence/service.go:210-214 | four symbols spell, six bits each, the number the three bytes spell, and pads stand for missing bytes |
| Base64.SymbolIsLetter | go/internal/evidence/service.go:210-214 | the symbols are those of the standard alphabet, in its order |
| Utf8.ValidSpells | go/internal/evidence/service.go:215-223 | valid bytes are the encoding of the scalar values read from them |
| Utf8.SpelledIsValid | go/internal/evidence/service.go:215-223 | every sequence of scalar values encodes to valid bytes that read back to it |
| Sidecar.CountControls | go/internal/evidence/service.go:216-222 | the loop counts exactly the control characters of the text |
| Sidecar.EncodeSidecarPayload | go/internal/evidence/service.go:210-228 | text exactly for valid, NUL-free data with under one control character in twenty bytes; base64 for the rest |
| Sidecar.KeptAsTextExactly | go/internal/evidence/service.go:219-228 | bytes are kept as text exactly when they are valid, hold no zero byte, and are empty or have fewer than one place in twenty bytes with a control character; all others become base64 |
| Sidecar.StoredReadsBack | go/internal/evidence/service.go:178-206 | under whichever two keys it was stored, every byte string comes back, the empty one included |
| Sidecar.UnstoredReads | go/internal/evidence/service.go:178-201 | content marked as left out reads as none whatever stands beside the mark; without a mark it reads as it stands, and an empty one as none |
| Sidecar.OtherKeysDoNotMatter | go/internal/evidence/service.go:178-201 | reading one pair of keys depends on nothing else in the row |
| Sidecar.Row.AttachBefore | go/internal/evidence/service.go:204-217 | writes the two before keys and no others, in whatever order; the before-content is then the data and the row's own content is unchanged |
| Sidecar.AttachSidecarBeforeContent | go/internal/evidence/service.go:204-217 | the same for a row that may be missing |
| FlowIds.StreamIdsExactly | go/internal/pcapinspect/aggregate.go:134-145 | a stream id is accepted exactly when, up to outer blanks and the case of the kind, it is a kind, a colon and the canonical numeral of a non-negative stream that fits |
| FlowIds.NamesOneStream | go/internal/pcapinspect/aggregate.go:134-145 | such a text names one stream only |
| FlowIds.MintedStreamReadsBack | go/internal/pcapinspect/aggregate.go:89-145 | every minted TCP or UDP id reads back to its kind and stream, and one with a negative stream is refused |
| FlowIds.MintedIcmpReadsBack | go/internal/pcapinspect/aggregate.go:95-155 | a minted ICMP id gives the filter for its two addresses exactly when both parse |
| FlowReports.IdTexts | go/internal/pcapinspect/aggregate.go:89-104 | the ids themselves, by transport |
| FlowReports.SameStreamExactly | go/internal/pcapinspect/aggregate.go:89-104 | a TCP or UDP packet shares its flow with exactly the packets of the same transport and stream |
| FlowReports.FilterTexts | go/internal/pcapinspect/aggregate.go:134-145 | the filter of a minted stream id names the stream by its number |
| FlowReports.IcmpFilterTexts | go/internal/pcapinspect/aggregate.go:146-155 | the filter of a minted ICMP id names source and destination in this order, in the family the source tells |
| FlowAggregate.Accumulator.Add | go/internal/pcapinspect/aggregate.go:44-66 | one packet updates the accumulator's fields to the next tally |
| FlowAggregate.Route | go/internal/pcapinspect/aggregate.go:19-66 | a packet reaches its own flow's accumulator and no other, made on first sight |
| FlowAggregate.AggregateFlows | go/internal/pcapinspect/aggregate.go:8-87 | one flow per id in order of first appearance, each determined by its own packets alone; all of them up to 5000, and exactly the first 5000 beyond |
| FlowAggregate.FirstIdsExact | go/internal/pcapinspect/aggregate.go:15-43 | the ids are distinct and are exactly those of the packets |
| FlowAggregate.FirstIdsInOrder | go/internal/pcapinspect/aggregate.go:15-43 | reading on only appends ids |
| FlowReports.EndpointsOfFirst | go/internal/pcapinspect/aggregate.go:19-46 | a flow reports source, destination, ports, stream and start of the first packet with its id |
| FlowReports.OfFlowExactly | go/internal/pcapinspect/aggregate.go:19-47 | a packet is counted to the flow of its id and to no other |
| FlowReports.NamesStandIn | go/internal/pcapinspect/aggregate.go:80-83 | a flow without any info text shows its names instead |
| FlowReports.NamesJoin | go/internal/pcapinspect/aggregate.go:82-82 | with a comma and a blank between any two |
| FlowAggregate.CountsExact | go/internal/pcapinspect/aggregate.go:44-45 | a flow's packet count and byte sum are those of its packets |
| FlowAggregate.TotalsConserved | go/internal/pcapinspect/aggregate.go:8-87 | with at most 5000 ids the flows together hold every packet and every byte exactly once |
| FlowAggregate.LastIsLatest | go/internal/pcapinspect/aggregate.go:46-48 | the last time is the latest timestamp of the flow, missing only when all are |
| FlowAggregate.ProtocolIsFirstSpecific | go/internal/pcapinspect/aggregate.go:49-51 | the label is the first specific protocol of the flow; a generic one only when there is no specific one, and then the first given |
| FlowAggregate.GenericExactly | go/internal/pcapinspect/types.go:99-108 | a protocol counts as generic exactly when its upper case is empty or one of six names; the two mixed-case entries of the table match nothing |
| FlowReports.SpecificStays | go/internal/pcapinspect/aggregate.go:106-110 | a specific protocol is the label, without blanks around it |
| FlowReports.GenericGivesWay | go/internal/pcapinspect/aggregate.go:111-121 | for a generic one the service of the destination port decides, then that of the source port; then the generic name stays, and without a name the transport stands in |
| FlowTexts.InfoExact | go/internal/pcapinspect/aggregate.go:52-58 | the info line joins, in order, exactly the flow's non-empty texts that are new when they come, find the line short of 400 characters, and are not the tag of a name already carried |
| FlowTexts.TagTakenExactly | go/internal/pcapinspect/aggregate.go:52-66 | a name's tag is taken as a text if and only if some packet has it as its info text while there is room and before any packet carries the name |
| FlowTexts.NamesExact | go/internal/pcapinspect/aggregate.go:59-66 | the names are distinct, and a name is among them if and only if it is not empty, some packet carries it, and no packet before had its tag as info text while the line had room |
| FlowTexts.NamesInOrder | go/internal/pcapinspect/aggregate.go:59-66 | one packet more leaves the names as they are and puts its own behind them, in its order |
| FlowTexts.InfoCanHideAName | go/internal/pcapinspect/aggregate.go:52-66 | that does happen: a packet whose info text is its only name's tag ends up without the name |
| HttpWindow.HttpTimeSpan | go/internal/diff/http_evidence.go:136-154 | the saturating distance of the running extremes, where zero means none yet |
| HttpWindow.FilterHttpBySnapshotWindow | go/internal/diff/http_evidence.go:74-134 | the rows of the window, or of the tail, or all, as the window rule says |
| HttpWindow.KeptIsPart | go/internal/diff/http_evidence.go:74-134 | never empty for non-empty input, and always an order-preserving part of it |
| HttpWindowNumbers.KeptInNumbers | go/internal/diff/http_evidence.go:74-134 | in numbers, for positive times and gaps whose margins stay below 2^63: with g the distance of the snapshots, at least two minutes, exactly the rows within half an hour of the interval are kept, in order, if there are some and no two are more than g and ten minutes apart; otherwise exactly those no older than the latest by g and its quarter, at least two minutes |
| HttpWindowNumbers.KeptWithoutTimes | go/internal/diff/http_evidence.go:74-100 | without both ends or any timed row nothing is dropped |
| HttpWindowBound.KeptIsNarrow | go/internal/diff/http_evidence.go:85-131 | with both ends known, some row timed, and zero and negative instants not together, the tail is never empty, and the kept rows span at most session + max(10 min, session/4) if no row is at the zero time or the window is clear of it |
| HttpWindowBound.AlwaysNarrowExactly | go/internal/diff/http_evidence.go:121-131 | that bound holds for every capture without a row at the zero time if and only if session plus pad is at most 2^63 nanoseconds |
| HttpWindowBound.HugeSessionKeepsAll | go/internal/diff/http_evidence.go:121-133 | beyond that, rows for which everything is kept however far apart |
| HttpWindowBound.ZeroTimeEscapes | go/internal/diff/http_evidence.go:136-154 | for every interval whose window is not clear of the zero time, a row there that escapes the bound |
| HttpWindowBound.NarrowFromZeroExactly | go/internal/diff/http_evidence.go:85-154 | the bound holds for every capture without a negative instant, zero times allowed, if and only if besides the window begins more than half an hour after the zero time or ends within the allowance |
| HttpWindowZero.NarrowForAllExactly | go/internal/diff/http_evidence.go:85-154 | the bound holds for every capture whatever if and only if besides the window holds the zero time and stays near it on both sides |
| HttpWindowTwice.IdempotentExactly | go/internal/diff/http_evidence.go:74-134 | for every capture and interval, filtering again changes nothing if and only if it is not the case that the first pass kept a tail, and that tail either has a window that fits and leaves rows out, or has no such window and a shorter tail of its own |
| HttpWindowTwice.OnlyTheWindowDrops | go/internal/diff/http_evidence.go:114-131 | unless the session is too long to negate and zero and negative instants meet, a second pass drops rows if and only if the window did not fit, that of the tail does, and the tail reaches outside it |
| HttpWindowTwice.NotIdempotent | go/internal/diff/http_evidence.go:114-131 | rows that a second pass filters further |
| SnapshotTree.PrefixTestIsDescent | go/internal/vbox/vbox.go:215-218 | the string prefix test is exactly the proper-descendant relation on the number paths, so -1 never captures -10 |
| SnapshotTree.SuffixSpells | go/internal/vbox/vbox.go:142-142 | every suffix the listing's pattern accepts spells exactly one path of numerals |
| SnapshotTree.GroupLines | go/internal/vbox/vbox.go:146-160 | lines are grouped by suffix, a later value replacing an earlier one, and the suffixes kept in order of first appearance |
| SnapshotTree.ParseSnapshotTree | go/internal/vbox/vbox.go:144-179 | one entry per suffix that has a name and an identifier, with the last values given, in order of first appearance, and no other |
| SnapshotTree.LastValueIs | go/internal/vbox/vbox.go:146-160 | a field's value is that of the last line for it |
| SnapshotTree.SuffixesInOrder | go/internal/vbox/vbox.go:146-160 | reading on only appends suffixes |
| SnapshotTree.DescendantUUIDs | go/internal/vbox/vbox.go:203-222 | the identifiers strictly below the first entry with the given one, in listing order; none when there is no such entry |
| SnapshotDelete.LeafRemovalKeepsTree | go/internal/vm/service.go:238-242 | a tree without one of its leaves is a tree |
| SnapshotDelete.CollectBranch | go/internal/vm/service.go:220-228 | the delete set is exactly the target with everything below it |
| SnapshotDelete.LongestFirst | go/internal/vm/service.go:230-236 | each entry once, longer suffixes before shorter ones, ties in any order |
| SnapshotDelete.TurnIsLeaf | go/internal/vm/service.go:230-242 | when an entry's turn comes nothing is left below it |
| SnapshotDelete.DeleteInOrder | go/internal/vm/service.go:238-243 | every single deletion is of a leaf; success removes exactly the branch; a failure names a deepest snapshot still left of the branch, which is still there, and leaves the target and, with every removed snapshot, nothing that was below it |
| SnapshotDelete.DeleteSnapshot | go/internal/vm/service.go:175-244 | exactly when each refusal happens; without force the two baselines, whatever the case of their names, leave everything as it was, and only they are refused as protected; refusals change nothing, children without force are named in listing order and kept, success removes exactly the branch of the first entry with that name, which snapshot a failure names, and the snapshots form a tree after every outcome if they did before |
| Decimal.ValueOfShow | go/internal/pcapinspect/aggregate.go:144-144 | a printed number reads back |
| Decimal.ShowOfValue | go/internal/pcapinspect/aggregate.go:144-144 | a canonical numeral is what its number prints as |

## Left out

- Opening and closing files, gzip, JSON and XML decoding, regular-expression matching of listing lines, and time layouts: their results (bytes, records, fields, instants) are inputs.
- Everything that only talks to VirtualBox, the guest, tshark, PowerShell or systemd; cloning and deleting are abstract steps that may fail.
- The NTFS and registry-hive file formats: a hive is a tree of keys with values, and finding a top-level key by name is one operation for both walks.
- The linear-payload offset of legacy caches, closing of the files of a view, and the fallback order of openSnapshotDisk.
- The rule for what makes a flatten cache usable: each look at a file may answer either way.
- Friendly labels of security identifiers in the changed tree, network address translation and output rules, and the other placeholders of the firewall file.
- Highlighting of style sheets and form bodies, language detection and pretty-printing; the form highlighter decodes its input, so it is not lossless by design.
- Noise lists, DNS deduplication, file comparison and the remaining views of the evidence.
- Letter case and blanks beyond ASCII: folding, trimming and the space class follow the ASCII rules.
- WalkChunks: which worker takes which number is not part of this model, and with no worker able to open the hive the wait without end is an outcome of its own.
- SortRecords: the sorting algorithm of Go's library is not modelled; any sorted permutation is allowed.
- LongestFirst: likewise, and walking the delete map is merged with sorting it.
- HighlightJson, HighlightJs, HighlightMarkup: texts are sequences of characters, not of UTF-16 units; `\s` is the set of space characters listed in `Lexemes`.
- AggregateFlows: packet and byte counts are unbounded integers and times are instants rather than formatted text.
- AttachSidecarBeforeContent: the later write of the row to a JSON file is not part of this model.
- EncodeSidecarPayload: the comparison with 0.05 is on exact fractions; floating-point rounding does not change its outcome for any feasible length.
- DeleteSnapshot: identifiers and suffixes of existing snapshots are taken to be unique, as the hypervisor keeps them.
- AuditorAgreesWithRules: addresses are given with their kind instead of being parsed; the texts of the reasons are part of the definition only.
- Registry.Walk: joining a relative location with the machine's folder is the parameter `resolve`.
