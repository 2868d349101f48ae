# A verified model of the file system forensics core

FileSystemForensics reads NTFS and BTRFS structures from disks and disk images. This project
models the parts of it that carry invariants, in Dafny, and proves what they promise. Where
the code changes objects step by step the model does so too, with classes and loops, and each
method is proved against a function on values about which the promises are then proved.

- `Machine`, `Sequences`: fixed-width integers, outcomes of calls (return, error, panic),
  counting and embedding of sequences.
- `DirectoryTreeModel`, `DirectoryTreeRoot`, `DirectoryTreeListing`, `DirectoryTree`: the tree of MFT records with a
  cached entry range in every node. The heap tree spells out a sequence of slots. Insertion
  with range pruning is proved equal to an exhaustive search that never looks at a range, every
  range below the root stays exact, the links stay a tree, and a tree built from distinct
  entries is what one scan over the fields of the records would keep.
- `LittleEndian`, `RunLists`: integers of any width, the nibble-headed run list decoder that
  links its nodes in place, and the encoder it inverts.
- `Files`, `Outcomes`: what is read from a disk and what is handed on for export; calls made in
  turn up to the first that panics.
- `ClusterGather`: the four loops that turn a run list into bytes, in 64-bit arithmetic, and
  the map from virtual to disk clusters that all of them follow.
- `Chains`, `MftTableModel`, `MftLinks`, `MftTable`: slots, lookup by entry and sequence number, parents,
  linked records, names, sizes and paths, with a pigeonhole argument for chains that may loop.
- `MftSelection`: which records of the MFT are handed on, with the early exits of the loop.
- `FreeSpace`, `Bitmaps`: from the cluster bitmap to maximal runs of free clusters, and what is read for
  them.
- `ChannelMachine`, `ExportPipelines`, `UsnPipeline`: goroutines, bounded and unbuffered
  channels, closes and wait groups as interleaved atomic steps.
- `UsnFraming`: which journal records the parser finds in a fragment, byte by byte.
- `Crc32c`, `Crc32cTable`, `NodeChecksum`, `Crc32cResidue`: the literal CRC-32C table against
  the bit-at-a-time code of section 12.1 of RFC 3720, what the checksum of a BTRFS node detects,
  and the known values and the residue that fix the code itself.
- `Unmarshalling`, `SystemChunks`, `Layouts`: decoding by a list of field kinds, the BTRFS
  system chunk array built on it, and the bytes at which each field lies.
- `PathBuilding`: the recursive path construction over BTRFS directory entries.

Disks are functions or byte sequences. An MFT record is reduced to the fields that the
modelled code looks at. Ghost parameters say which node or slot an object is.

## What the code does, where a reader may expect something else

Each entry names the exact condition first, where there is one, and then a lemma at one input.

- Sparse runs are dropped from exported files, not filled with zeros: the file loops and the
  area loops agree only without sparse runs (`ClusterGather.AgreeIffNoSparse`; a file of one
  sparse cluster comes out empty, `ClusterGather.SparseFileIsLost`).
- The last block of free clusters is never sent, and free positions count from 1
  (`FreeSpace.LastBlockIsNotSent`; `FreeSpace.OneFreeClusterIsNotSent`,
  `FreeSpace.SecondOfTwoIsNotSent`).
- A free block is read from its own clusters if and only if its first position times the
  bytes that an 8-bit product loses of the cluster size makes up for the one cluster that a
  position counts too much (`FreeSpace.ReadsOwnPlaceIff`). That is never so for clusters of
  less than 256 bytes (`FreeSpace.SmallClustersAreMissed`) and so for one block at most
  otherwise (`FreeSpace.OneBlockAtMost`; `FreeSpace.SectorsOf512`, `FreeSpace.SectorsOf128`).
  What is sent for a block also repeats what was sent for the blocks before it
  (`FreeSpace.EarlierBytesRepeat`).
- Run offsets of more than four bytes are decoded right only if they fit 32 bits
  (`LittleEndian.SignedReaderExact`; `LittleEndian.WideOffsetIsLost`).
- A run list panics if its last header asks for bytes behind the capacity of its slice
  (`RunLists.DecodePanicsIff`). 30 further bytes rule that out (`RunLists.EnoughCapacity`), and
  the record parser leaves them if the runs start at least 29 bytes into their attribute
  (`RunLists.GuardLeavesRoom`; at 20 bytes, `RunLists.OverrunningHeader`).
- Clusters of size zero make the two file loops panic, one as soon as there is a run, the other
  as soon as there is a run with an offset and a length (`ClusterGather.ZeroClustersPanicIff`).
- An array field panics in an empty slice, whatever its capacity
  (`Unmarshalling.FillPanicsIff`). So the system chunks panic if they come to a pair whose key
  does not end, or whose last stripe does not start, inside the array
  (`SystemChunks.PairsPanicIff`; `SystemChunks.StripeAtTheEndPanics`).
- Two records that name each other as parent are linked, and their paths never end
  (`Chains.NeverEndsIffCycle`; `MftTableModel.MutualParentsNeverEnd`). Two records whose
  attribute lists name each other become each other's origin, and the search for the name or
  the size of either never ends (`MftTableModel.MutualOriginsNeverEnd`).
- The fallback scan of the record lookup indexes beyond the table as soon as it finds a match;
  in a table built by placing records it finds none (`MftTableModel.LookupPanicsIff`,
  `MftTableModel.LookupIsScan`; `MftTableModel.MisplacedRecordPanics`).
- Selecting entries shortens the table but not the record numbers, which makes the table
  panic (`MftSelection.SelectionPanicsIff`; entry 5 of ten,
  `MftSelection.SelectingFivePanics`). The message of the range check says that the start
  exceeds the number of records; the check compares it with the number of records behind the
  start, so that a start beyond the middle is refused (`MftSelection.SecondHalfIsRefused`).
- The root of the directory tree starts with the range 0..0 and does not count itself, unlike
  every other node. Its range covers its own entry if and only if some other entry is as large
  (`DirectoryTreeRoot.RootCoversItselfIff`), and it is never exact
  (`DirectoryTreeRoot.BuiltRootIsNeverExact`; `DirectoryTreeRoot.RootIsOutsideItsRange`).
- The export of files returns if and only if all files can be gathered; it panics at the first
  one that cannot (`ExportPipelines.ExportDeliversIff`, `ExportPipelines.ExportReturnsIff`).
- The export of free space waits for its consumer only. It can return if and only if there is
  an NTFS volume and the first one has free clusters (`ExportPipelines.CanReturnIff`); it then
  holds the blocks of that volume alone. The producer can end without a panic if and only if
  there is at most one such volume and it has free clusters
  (`ExportPipelines.ProducerCanEndIff`). With a second volume the scheduling decides whether
  the export returns before the producer panics (`ExportPipelines.SecondVolumeRaces`;
  `ExportPipelines.TwoSmallVolumes`, `ExportPipelines.FullVolume`,
  `ExportPipelines.NoVolume`).
- A USN fragment panics if 60 bytes, but no 62 bytes of capacity, are left where its last
  record starts (`UsnPipeline.ParsePanicsIff`; any fragment of 60 or 61 bytes that its capacity
  ends with, `UsnPipeline.ShortFragmentPanics`). The pipeline panics if and only if some
  fragment does or the worker does (`UsnPipeline.EveryRunPanicsIff`).
- The path of a directory entry is extended as often as the entry is visited
  (`PathBuilding.AfterAddsPaths`). That is at most once for every entry if and only if no entry
  stands twice in the children lists that are reached, wherever its parent pointer leads
  (`PathBuilding.VisitedAtMostOnceIff`; `PathBuilding.SharedEntryIsExtendedTwice`).

## Model

| member | source | states |
|---|---|---|
| DirectoryTree.Tree.Build | tree/builder.go:28-41 | the pointers spell out the result of adding the records with entry 5 or more in order, and the invariant holds at the end |
| DirectoryTree.Tree.AddRecord | tree/builder.go:43-55 | the first record becomes the root with range 0..0; any other is attached exactly where an exhaustive search would; nodes only grow |
| DirectoryTree.Node.Insert | tree/builder.go:57-93 | pruned insertion into a subtree leaves the state that the unpruned search leaves |
| DirectoryTree.Node.InsertBelow | tree/builder.go:80-89 | the loop over the children, each with its range test, equals the unpruned search below each child |
| DirectoryTree.Node.InsertAt | tree/builder.go:83-87 | one turn of that loop, whether the child is descended into or skipped |
| DirectoryTree.Node.UpdateEntryRange | tree/builder.go:105-119 | exactly the node and its ancestors are widened, once each |
| DirectoryTree.Node.Descend | tree/builder.go:127-138 | the records shown are those of the listing order of the subtree |
| DirectoryTreeModel.PruningIsExact | tree/builder.go:83-86 | if the range of a slot excludes the reference cut to 32 bits, the search below it attaches nothing, even where the cut loses bits |
| DirectoryTreeModel.PointsAreTopmost | tree/builder.go:57-93 | the search attaches at exactly the topmost folders at or below its start that the record names as parent |
| DirectoryTreeModel.PointsOnce | tree/builder.go:57-93 | no node is attached to twice for one record |
| DirectoryTreeModel.Turn | tree/builder.go:80-89 | after the earlier children have been served, asking the next child gives the same as skipping it when its range excludes the reference |
| DirectoryTreeModel.AttachKeepsGood | tree/builder.go:68-73 | attaching below a folder keeps parents before children, only folders with children, and every range below the root exact |
| DirectoryTreeModel.AddKeepsGood | tree/builder.go:43-55 | the invariant survives every addition, whatever the record |
| DirectoryTreeModel.AddAll | tree/builder.go:28-41 | the invariant holds after every sequence of records |
| DirectoryTreeRoot.RootIsOutsideItsRange | tree/builder.go:45-48 | after the first record the range of the root leaves out its own entry |
| DirectoryTreeRoot.RootCoversItselfIff | tree/builder.go:45-48 | the range of the root covers its own entry if and only if some other slot has an entry as large |
| DirectoryTreeRoot.BuiltRootIsNeverExact | tree/builder.go:28-55 | in no tree that is built is the range of the root the exact range of the tree |
| DirectoryTreeModel.OrderOnce | tree/builder.go:127-138 | the listing from a slot names every slot strictly below it exactly once, and no other |
| DirectoryTreeModel.BuildIsOneScan | tree/builder.go:28-93 | for distinct entries the tree holds the records that a single scan keeps (first, or naming one kept before whose flags are 2 or 3, whose entry is the reference and whose sequence number is the one given or its successor), once each, in record order, each below the parent it names |
| DirectoryTreeModel.FileInFolder | tree/builder.go:57-73 | a folder with flags 3 and a file that names it: the tree holds both, the file below the folder |
| DirectoryTreeListing.OrderIsTopDown | tree/builder.go:127-138 | in the listing from any slot parents stand before their children, and the children of one slot in record order |
| LittleEndian.ReadEndianUInt | utils/utils.go:175-184 | the loop returns the little-endian number modulo 2^64 |
| LittleEndian.SignedReaderExact | utils/utils.go:159-173 | the signed reader is exact if and only if the two's complement value fits 32 bits; up to four bytes it always is |
| LittleEndian.ShortInt | utils/utils.go:159-173 | sign fill makes up to four bytes read as their two's complement value |
| LittleEndian.WideOffsetIsLost | utils/utils.go:159-173 | five bytes that spell 2^32 are read as zero |
| LittleEndian.UnsignedBytes | utils/utils.go:175-184 | writing a number and reading it back, for every width that holds it |
| LittleEndian.SignedConcat | utils/utils.go:159-173 | the sign of a number lies in its last byte only |
| RunLists.RunList.Process | FS/NTFS/MFT/attributes/attributes.go:146-179 | panics exactly where decoding overruns; otherwise the list that starts at the receiver holds the decoded runs in order without repetition, further nodes are new, and the sum of lengths modulo 2^64 is returned |
| RunLists.StepIsEncoded | FS/NTFS/MFT/attributes/attributes.go:150-158 | what one step cuts out stands in the buffer as header, length and offset, and the cursor moves behind it |
| RunLists.DecodesIffEncoded | FS/NTFS/MFT/attributes/attributes.go:146-179 | decoding does not panic if and only if the bytes are encoded runs and then a stop, and these runs are what it yields, the last of which may reach past the slice into its capacity |
| RunLists.DecodedIsEncoded | FS/NTFS/MFT/attributes/attributes.go:146-179 | whatever is decoded stands in the buffer, encoded, up to a stop |
| RunLists.DecodePanicsIff | FS/NTFS/MFT/attributes/attributes.go:149-172 | following the headers alone: it panics if and only if the last one is no stop and its run reaches behind the capacity |
| RunLists.EnoughCapacity | FS/NTFS/MFT/attributes/attributes.go:149-172 | 30 bytes of capacity behind the slice rule a panic out |
| RunLists.GuardLeavesRoom | FS/NTFS/MFT/MFT.go:709-712 | the guard of the record parser leaves that room if the runs start at least 29 bytes into their attribute |
| RunLists.OverrunningHeader | FS/NTFS/MFT/MFT.go:709-712 | runs at 20 bytes of an attribute that passes the guard, 83 bytes with a capacity of 104, can panic |
| RunLists.FramingRoundTrip | FS/NTFS/MFT/attributes/attributes.go:146-179 | decoding undoes encoding wherever the runs lie in the buffer and whatever follows the stop |
| RunLists.FieldsRoundTrip | FS/NTFS/MFT/attributes/attributes.go:153-160 | the two fields give back length and signed offset for every sufficient choice of widths |
| RunLists.RunListRoundTrip | FS/NTFS/MFT/attributes/attributes.go:146-179 | any list of runs, encoded, then a header without length and any bytes, decodes to the same runs in order |
| RunLists.KnownRun | FS/NTFS/MFT/attributes/attributes.go:146-179 | the bytes 21 18 34 56 00, in hexadecimal, are one run of 0x18 clusters at offset 0x5634 |
| RunLists.EveryRunFits | FS/NTFS/MFT/attributes/attributes.go:55-59 | every run with a 64-bit length and a 32-bit offset can be encoded |
| ClusterGather.CollectMFTArea | disk/volume/ntfs.go:177-201 | gathers the fragments of all runs, in 64-bit arithmetic |
| ClusterGather.GatherAttribute | FS/NTFS/MFT/MFT.go:113-153 | gathers the fragments up to the first run that starts at or past the partition's size, and cuts them to the actual length, with zeros where they end before it; skips and panics on the sizes as the code does |
| ClusterGather.LocateDataAsync | FS/NTFS/MFT/MFT.go:159-200 | sends resident data, or the fragments of the runs with offset and length, up to the first run that starts past the disk; panics on a cluster size of zero once a run starts on the disk |
| ClusterGather.LocateData | FS/NTFS/MFT/MFT.go:202-250 | hands on name, id and either resident data or the concatenation of exactly those fragments; panics on a negative logical size, and on a cluster size of zero once there is a fragment |
| ClusterGather.FourLoopsAgree | FS/NTFS/MFT/MFT.go:103-250 | when all runs have offset and length and, in plain integers, start on the disk before its end, the four loops deliver the same bytes; with clusters of size zero the two file loops panic as soon as there is a run |
| ClusterGather.StopsAre | FS/NTFS/MFT/MFT.go:126-137 | while the numbers fit 64 bits, a run stops the gathering of an attribute if and only if the partition start plus the moved clusters, scaled, is at or behind the end of the disk |
| ClusterGather.PartitionEndIs | FS/NTFS/MFT/MFT.go:125-145 | the attribute loop ends at the first run that starts at the end of the disk or behind it, and takes all runs before |
| ClusterGather.DataEndIs | FS/NTFS/MFT/MFT.go:174-196 | the file loop ends at the first run that starts behind the end of the disk, and takes all runs before |
| ClusterGather.InsideNeitherStops | FS/NTFS/MFT/MFT.go:103-250 | neither loop stops if and only if all runs start before the end of the disk |
| ClusterGather.ContentsIs | FS/NTFS/MFT/MFT.go:103-157 | an attribute without clusters, or longer than its clusters, is skipped; sizes of more than 63 bits panic; any other is what was gathered, at its actual length |
| ClusterGather.AttributeIsMapped | FS/NTFS/MFT/MFT.go:103-157 | when all runs start before the end of the disk, byte b of virtual cluster v of the bytes returned, up to the actual length, is byte b of the cluster that the prefix-sum map names |
| ClusterGather.MiddleOfTheDisk | FS/NTFS/MFT/MFT.go:125-137 | a run of one cluster in the middle of a disk of one gigabyte is gathered |
| ClusterGather.FileSentIs | FS/NTFS/MFT/MFT.go:202-250 | resident data is handed on unchanged, other data as gathered, under name and id; it panics if and only if the size is negative or gathering does |
| ClusterGather.AgreeIffNoSparse | FS/NTFS/MFT/MFT.go:231-237 | what a file loop gathers is what the area loops gather if and only if no run is sparse |
| ClusterGather.MissingBytes | FS/NTFS/MFT/MFT.go:186-188 | the file loops deliver fewer bytes exactly when a sparse run is among the runs |
| ClusterGather.ZeroOffsetsDoNotMatter | FS/NTFS/MFT/MFT.go:174-196 | deleting the runs without offset never changes what is gathered, and changes what is sent as fragments if and only if clusters have size zero and no run is left of some |
| ClusterGather.ZeroClustersPanicIff | FS/NTFS/MFT/MFT.go:182-236 | with clusters of size zero, gathering panics if and only if some run has offset and length, and sending fragments if and only if there is any run |
| ClusterGather.AreaIsMapped | disk/volume/ntfs.go:177-201 | byte b of virtual cluster v of the gathered area is byte b of the cluster named by the prefix-sum map, past the partition start, and the area has no other bytes |
| ClusterGather.GatheredIsAll | disk/volume/ntfs.go:177-201 | stopping before a last all-zero run loses nothing |
| ClusterGather.FileIsMapped | FS/NTFS/MFT/MFT.go:223-245 | byte b of the n-th cluster of a file, sparse runs or not, is byte b of the cluster that the map of its runs with an offset names, and there are no other bytes |
| ClusterGather.SparseFileIsLost | FS/NTFS/MFT/MFT.go:231-237 | a file of one sparse cluster comes out empty |
| ClusterGather.PositionFromClusters | FS/NTFS/MFT/MFT.go:126-137 | adding clusters and scaling once gives the 64-bit position of a run |
| ClusterGather.PositionFromBytes | FS/NTFS/MFT/MFT.go:176 | adding scaled moves gives the same position |
| Chains.EndsSoonOrNever | FS/NTFS/MFT/MFT.go:352-364 | a chain of links ends within as many steps as there are nodes, or never |
| Chains.NoRepetition | FS/NTFS/MFT/MFT.go:352-364 | a chain that ends meets no node twice |
| Chains.CycleNeverEnds | FS/NTFS/MFT/MFT.go:352-364 | a node that comes back to itself has no end |
| Chains.NeverEndsIffCycle | FS/NTFS/MFT/MFT.go:352-364 | a chain never ends if and only if it leads, within as many steps as there are nodes, to a node that comes back to itself |
| Chains.AncestorsOfParent | FS/NTFS/MFT/MFT.go:352-364 | the ancestors of a node are those of its parent, then the parent |
| MftTable.Table.ProcessRecords | FS/NTFS/MFT/Table.go:27-52 | panics exactly if some record has no slot or a torn last chunk reaches behind the capacity; otherwise the new table holds the last record written per slot, without links |
| MftTable.Table.GetRecord | FS/NTFS/MFT/Table.go:108-132 | returns what the lookup on slot values returns, with both branches and the out-of-range read |
| MftTable.Table.FindParentRecords | FS/NTFS/MFT/Table.go:86-106 | sets exactly the parents that can be looked up; an indexed table does not panic |
| MftTable.Table.CreateLinkedRecords | FS/NTFS/MFT/Table.go:62-84 | appends each slot's targets in order and leaves the origins of the whole pass; an indexed table does not panic |
| MftTable.Table.LinkReferences | FS/NTFS/MFT/Table.go:66-82 | one record's references are followed in order |
| MftTable.Record.GetFullPath | FS/NTFS/MFT/MFT.go:352-364 | if the parent chain reaches entry 5 or nothing, and the origin chains of the ancestors on it end, returns their names, outermost first |
| MftTable.Record.GetFname | FS/NTFS/MFT/MFT.go:804-817 | the most preferred name of the last record on the origin chain, or a dash |
| MftTable.Record.GetFnames | FS/NTFS/MFT/MFT.go:788-802 | the last file name of every name space, and no other |
| MftTable.Record.GetLogicalFileSize | FS/NTFS/MFT/MFT.go:773-786 | the size kept by the last record on the origin chain |
| MftTableModel.PlacedIsIndexed | FS/NTFS/MFT/Table.go:27-52 | every slot is blank or holds the record with its own number |
| MftTableModel.PlacedPanicsIff | FS/NTFS/MFT/Table.go:46 | placing panics if and only if a parsed record has a number beyond the table |
| MftTableModel.LastWriterWins | FS/NTFS/MFT/Table.go:35-50 | a slot holds the last record written to it, and is blank without one |
| MftTableModel.LookupIsScan | FS/NTFS/MFT/Table.go:108-132 | in an indexed table, for a nonzero entry, the lookup succeeds if and only if a linear scan finds entry and sequence number (difference modulo 2^16 at most 1), at the same slot, and the fallback never matches |
| MftTableModel.LookupPanicsIff | FS/NTFS/MFT/Table.go:121-128 | the lookup panics if and only if the entry lies beyond the table and some slot has it all the same |
| MftTableModel.MisplacedRecordPanics | FS/NTFS/MFT/Table.go:121-128 | as in a table of one record with entry 7 |
| MftTableModel.OriginIsLastReferrer | FS/NTFS/MFT/Table.go:79 | the origin of a record is the highest slot that refers to it, or what it was before |
| MftTableModel.LinkedIs | FS/NTFS/MFT/Table.go:80 | each list keeps what it had and gains exactly the targets of its slot, in order |
| MftTableModel.OriginsOneByOne | FS/NTFS/MFT/Table.go:66-82 | following references one at a time leaves the origins that taking all targets at once leaves |
| MftTableModel.OneReferrerInverse | FS/NTFS/MFT/Table.go:79-80 | for a target with at most one referrer, linked and origin are inverse relations |
| MftLinks.TargetsIff | FS/NTFS/MFT/Table.go:62-84 | in an indexed table a record is linked if and only if some reference has another entry than the record itself, the entry of the linked record and its sequence number or the one before; entry 0, which blank slots have too, is the first slot |
| MftLinks.TargetsInOrder | FS/NTFS/MFT/Table.go:66-82 | the linked records stand in the order of the references that lead to them, and every reference that leads somewhere has its linked record |
| MftLinks.NoOwnOrigin | FS/NTFS/MFT/Table.go:67-70 | no record is linked to itself and none is its own origin, whatever its references |
| MftLinks.SelfReferenceIsIgnored | FS/NTFS/MFT/Table.go:67-70 | a record whose attribute list names itself is linked to nothing |
| MftLinks.ParentsIff | FS/NTFS/MFT/Table.go:86-106 | the parent of a record is the one with the entry and the sequence number, or its successor, that its first file name gives; without one it stays what it was |
| MftLinks.PreferredName | FS/NTFS/MFT/MFT.go:788-817 | the last name of name space 1, else of 3, of 0, of 2, else a dash |
| MftLinks.NameOfOrigin | FS/NTFS/MFT/MFT.go:804-817 | a record has the name of its origin, and its own without one |
| MftTableModel.OriginDepthOne | FS/NTFS/MFT/MFT.go:804-817 | if no target refers further, names and sizes are found after at most one step |
| MftTableModel.PathOfParent | FS/NTFS/MFT/MFT.go:352-364 | a path that ends is the parent's path and the parent's name; it is empty without a parent and below the root |
| MftTableModel.MutualParentsNeverEnd | FS/NTFS/MFT/MFT.go:357-361 | two records that name each other are accepted as parents, and neither chain ends |
| MftTableModel.MutualOriginsNeverEnd | FS/NTFS/MFT/Table.go:66-80 | two records whose attribute lists name each other become each other's origin, and neither chain ends |
| MftSelection.ProcessMFT | disk/volume/ntfs.go:123-175 | panics exactly on the two range checks and on picking a torn last record that the capacity does not cover; otherwise the buffer, with both early exits, is that of a full scan |
| MftSelection.TornRecordIff | disk/volume/ntfs.go:157-166 | a torn last record makes it panic if and only if it is picked and not covered |
| MftSelection.PicksCount | disk/volume/ntfs.go:146-172 | every record up to the end of the range is picked as often as it was selected, or, without a selection, once from the start of the range on |
| MftSelection.PicksAscend | disk/volume/ntfs.go:146-172 | the picks are in ascending order of position |
| MftSelection.RangeIsConsecutive | disk/volume/ntfs.go:162-167 | without a selection the picks are the consecutive positions of the range |
| MftSelection.BufferFullIsDone | disk/volume/ntfs.go:168-170 | when as many records are written as were selected, nothing selected is left |
| MftSelection.SelectionPanicsIff | disk/volume/ntfs.go:173 | handing the picks to the table panics if and only if a picked record has a number beyond the number of picks |
| MftSelection.SelectingFivePanics | disk/volume/ntfs.go:173 | selecting entry 5 of ten numbered records does |
| MftSelection.SecondHalfIsRefused | disk/volume/ntfs.go:126-133 | a start is refused if and only if it lies beyond the middle of the table |
| MftSelection.RefusedIff | disk/volume/ntfs.go:126-137 | a range is refused if and only if twice its start exceeds the number of records or its end lies beyond what is left behind its start |
| FreeSpace.GetUnallocatedClusters | FS/NTFS/MFT/attributes/bitmap.go:30-48 | the masks visit all bits of all bytes in order and note the zero bits |
| FreeSpace.FreePositionsAreExact | FS/NTFS/MFT/attributes/bitmap.go:30-48 | the list is strictly increasing and holds exactly the 1-based positions of zero bits |
| Bitmaps.PositionsOfPacked | FS/NTFS/MFT/attributes/bitmap.go:30-48 | for any clusters in use, packed eight to a byte from the least significant bit on, the positions found are those of the other clusters, counted from 1 |
| FreeSpace.CollectUnallocated | disk/volume/ntfs.go:91-121 | sends all blocks found by the walk but the last, each with all bytes read up to it, at offsets and sizes computed in 8 and 16 bits; panics on an empty list |
| FreeSpace.ReadsOwnPlaceIff | disk/volume/ntfs.go:110 | a block is read from its own clusters if and only if its first position times what the 8-bit product loses is the size of a cluster |
| FreeSpace.SmallClustersAreMissed | disk/volume/ntfs.go:110 | no block is, if a cluster has 1 to 255 bytes |
| FreeSpace.OneBlockAtMost | disk/volume/ntfs.go:110 | at most one block is, if clusters are not empty |
| FreeSpace.OffsetIsFullIff | disk/volume/ntfs.go:110 | the offset is the first position times the size of a cluster if and only if that size is less than 256 bytes |
| FreeSpace.ReadSizeIs | disk/volume/ntfs.go:111 | what is read for a block is as long as its clusters, modulo 65536 |
| FreeSpace.BlockAdds | disk/volume/ntfs.go:108-114 | a block adds to what was sent before the bytes of the disk from its first position on, times the cluster size cut to 8 bits, and as many as its clusters have, cut to 16 bits |
| FreeSpace.SectorsOf512 | disk/volume/ntfs.go:110 | with sectors of 512 bytes every block is read from the start of the volume, which is its own place only at position 1 |
| FreeSpace.SectorsOf128 | disk/volume/ntfs.go:110 | with one sector of 128 bytes to a cluster the block of the second cluster is read where the third lies |
| FreeSpace.EarlierBytesRepeat | disk/volume/ntfs.go:96-113 | what is sent for a block begins with what was sent for every earlier one |
| FreeSpace.CoalesceFindsRuns | disk/volume/ntfs.go:98-118 | the blocks of every prefix are its maximal runs of consecutive clusters |
| FreeSpace.RunsAreUnique | disk/volume/ntfs.go:98-118 | there is only one way to cut a list into maximal runs |
| FreeSpace.SizesAddUp | disk/volume/ntfs.go:98-118 | block sizes add up to the number of clusters covered |
| FreeSpace.LastBlockIsNotSent | disk/volume/ntfs.go:101-119 | what is sent falls short of the free space by exactly the last, nonempty block |
| FreeSpace.OneFreeClusterIsNotSent | disk/volume/ntfs.go:98-119 | of one free cluster nothing is sent |
| FreeSpace.SecondOfTwoIsNotSent | disk/volume/ntfs.go:98-119 | of two free clusters apart the first is sent and the second is not |
| ChannelMachine.EveryRunDelivers | exporter/exporter.go:80-88 | for a producer that sends and closes: no panic, no deadlock, runs of bounded length, and a run that cannot go on has returned with all items received in order, the channel closed and drained and the wait group at zero |
| ChannelMachine.RunsComplete | exporter/exporter.go:80-88 | every run can be continued to the return |
| ChannelMachine.ReturnMeansSendAll | exporter/exporter.go:80-88 | only producers that send and then close once, last, let the main thread return |
| ChannelMachine.HowRunsEnd | exporter/exporter.go:37-45 | a run that cannot go on has returned, has panicked, or waits on a channel that is never closed |
| ChannelMachine.OnlyFirstItemsArrive | exporter/exporter.go:39-44 | the consumer receives only what was sent before the first close or panic, and all of it if it gets to its end |
| ChannelMachine.ConsumerCanEndFirst | exporter/exporter.go:39-44 | for any capacity some run ends the consumer with everything received while the producer still runs |
| ChannelMachine.ProducerCanPanicFirst | exporter/exporter.go:39-44 | if the producer goes on after its close, some run panics before the consumer ends |
| ChannelMachine.QueueIsBounded | exporter/exporter.go:80-88 | in no run does the channel hold more than its capacity |
| ExportPipelines.Worker | disk/disk.go:249-270 | sends one file per record without linked records, one per linked record otherwise, none for folders, in order, up to the first that panics |
| ExportPipelines.WhatIsAsked | disk/disk.go:249-270 | nothing is asked for a folder, the record itself without linked records, and these alone with them |
| ExportPipelines.AskedConcat | disk/disk.go:249-270 | records are served one by one, without influence on each other |
| ExportPipelines.ExportDeliversIff | exporter/exporter.go:64-89 | for every capacity and interleaving the first files arrive in order; a run that cannot go on has returned, with all files delivered, if all can be gathered, and has panicked otherwise |
| ExportPipelines.ExportReturnsIff | exporter/exporter.go:64-89 | the export can return if and only if all files can be gathered |
| ExportPipelines.ExportData | exporter/exporter.go:21-35 | each result is removed and written under its name, in order |
| ExportPipelines.IdNamesDiffer | exporter/exporter.go:25-27 | names with an id prefix differ when the ids differ, whatever the rest |
| ExportPipelines.DigitsSpell | exporter/exporter.go:25-30 | the digits in a name spell the id |
| ExportPipelines.FileNameIs | exporter/exporter.go:25-30 | with the id strategy a file is named by its id in brackets and its name, otherwise by its name |
| ExportPipelines.NothingOverwritten | exporter/exporter.go:116-130 | with distinct ids and the id strategy every file is there at the end |
| ExportPipelines.LastOfNameStays | exporter/exporter.go:116-130 | with the other strategy the last file of a name stays |
| ExportPipelines.ServingDiskDelivers | disk/disk.go:303-315 | with one NTFS volume that has free clusters the channel is closed once, after its last send, and all blocks sent arrive in order |
| ExportPipelines.OnlyFirstVolumeArrives | disk/disk.go:303-315 | on any disk only blocks of the first NTFS volume arrive, and all that it sends if the close is seen |
| ExportPipelines.CanReturnIff | exporter/exporter.go:37-45 | the export, which waits for its consumer only, can return if and only if there is an NTFS volume and the first one has free clusters |
| ExportPipelines.ReturnMeansFirstHasFree | exporter/exporter.go:37-45 | every run in which it returns is on such a disk |
| ExportPipelines.ProducerCanEndIff | disk/disk.go:303-315 | the producer can end without a panic if and only if there is at most one NTFS volume and that one has free clusters |
| ExportPipelines.ProducerEndMeans | disk/disk.go:303-315 | every run in which it does is on such a disk |
| ExportPipelines.SecondVolumeRaces | disk/disk.go:303-315 | with two NTFS volumes, the first with free clusters, a run returns with the producer at work, and another panics before it returns |
| ExportPipelines.HowThreadsEnd | exporter/exporter.go:37-45 | if the program lives on until no thread can move, both threads are done on a disk that serves, the consumer is left waiting without an NTFS volume, a deadlock that the Go runtime ends, and the producer has panicked on any other disk |
| ExportPipelines.TwoSmallVolumes | exporter/exporter.go:37-45 | two volumes of one free cluster each: the export can return, the producer cannot end |
| ExportPipelines.FullVolume | disk/volume/ntfs.go:99 | one volume without a free cluster: the export cannot return |
| ExportPipelines.NoVolume | disk/disk.go:306-309 | no NTFS volume: the producer ends, the export cannot return |
| UsnPipeline.FrameAt | FS/NTFS/usnjrnl/usnjrnl.go:139-153 | a frame ends behind its start and inside the fragment, so parsing advances |
| UsnFraming.FrameIsFound | FS/NTFS/usnjrnl/usnjrnl.go:108-153 | a record of 60 bytes and twice the name length that stands in the fragment is found whole, and passed on if and only if one of its bytes 8 to 15 is not zero |
| UsnFraming.FramesRoundTrip | FS/NTFS/usnjrnl/usnjrnl.go:108-153 | of records laid end to end in a fragment with two spare bytes of capacity, exactly those that name an entry are parsed, whole and in order |
| UsnFraming.EveryFragmentConsists | FS/NTFS/usnjrnl/usnjrnl.go:108-153 | every such fragment consists of records laid end to end and a rest that holds no further one |
| UsnFraming.EntryFortyTwo | FS/NTFS/usnjrnl/usnjrnl.go:130-134 | a single record for entry 42 is parsed |
| UsnPipeline.StepConserves | FS/NTFS/usnjrnl/usnjrnl.go:87-137 | each atomic step keeps: collected, then in flight, then the parse of what remains, is the sequential parse |
| UsnPipeline.StepKeepsOrder | FS/NTFS/usnjrnl/usnjrnl.go:108-137 | each step keeps the discipline of both channels and the wait group |
| UsnPipeline.StepDescends | FS/NTFS/usnjrnl/usnjrnl.go:108-137 | each step decreases a measure |
| UsnPipeline.SomeoneMoves | FS/NTFS/usnjrnl/usnjrnl.go:87-106 | short of the return or a panic some thread can move, for every capacity |
| UsnPipeline.EveryRunIsSafe | disk/disk.go:209-239 | in every interleaving no channel is closed twice or sent to after its close, and what is collected is a prefix of the sequential parse |
| UsnPipeline.ClosedChannelsPanic | FS/NTFS/usnjrnl/usnjrnl.go:108-137 | sending on a closed channel or closing it again does panic, so that the absence of such panics means something |
| UsnPipeline.QueueIsBounded | disk/disk.go:209-239 | in no run does the channel of fragments hold more than its capacity |
| UsnPipeline.EveryRunEndsLikeTheParse | FS/NTFS/usnjrnl/usnjrnl.go:87-106 | a run that cannot go on has returned all records of the sequential parse in order with the wait group at zero, or panicked as that parse does after the same records, or the worker panicked after some of them |
| UsnPipeline.ParsePanicsIff | FS/NTFS/usnjrnl/usnjrnl.go:139-153 | a fragment panics if and only if where its last record starts 60 bytes are left in it but no 62 in its capacity |
| UsnPipeline.SpareCapacityIsSafe | FS/NTFS/usnjrnl/usnjrnl.go:139-153 | two bytes of capacity behind the fragment rule a panic out |
| UsnPipeline.ParseAllPanicsIff | FS/NTFS/usnjrnl/usnjrnl.go:108-137 | a sequence of fragments panics if and only if one of them does |
| UsnPipeline.EveryRunPanicsIff | FS/NTFS/usnjrnl/usnjrnl.go:87-137 | in whatever interleaving, a run that cannot go on has panicked if and only if the worker panics or some fragment is cut short so, and has returned otherwise |
| UsnPipeline.AsyncWorker | disk/disk.go:209-239 | supplies the fragments of the record or of its linked records, none for a folder, up to the first that panics |
| UsnPipeline.WhatIsSupplied | disk/disk.go:209-239 | nothing for a folder, the fragments of the record without linked records, those of its linked records in order with them, and nothing behind the first that panics |
| UsnPipeline.ShortFragmentPanics | FS/NTFS/usnjrnl/usnjrnl.go:139-153 | any fragment of 60 or 61 bytes does if its capacity ends with it |
| Crc32c.ShiftsAdd | utils/crc32.go:5-38 | shifting is linear over exclusive or |
| Crc32c.ByteAtOnce | utils/crc32.go:40-43 | feeding eight message bits equals adding the byte and shifting eight times |
| Crc32c.UpperBytesMove | utils/crc32.go:40-43 | the three upper bytes of the register only move down |
| Crc32c.BurstIsDetected | FS/BTRFS/genericnode.go:153-155 | changes confined to 32 consecutive bits, anywhere in a message of any length, change the code |
| Crc32cTable.EntryIsSum | utils/crc32.go:5-38 | all 256 literals are linear combinations of the eight at the powers of two |
| Crc32cTable.TableIsShifts | utils/crc32.go:5-38 | every literal of the table is its index after eight one-bit shifts |
| Crc32cTable.UpdateTakesByte | utils/crc32.go:40-43 | one table step takes the register of the bit-at-a-time code over one byte |
| Crc32cTable.CalcCRC32 | utils/crc32.go:40-43 | the table-driven checksum is the bit-at-a-time CRC-32C of every byte string |
| Crc32cResidue.EmptyMessage | utils/crc32.go:40-43 | the code of no bytes is 0 |
| Crc32cResidue.NineDigits | utils/crc32.go:40-43 | the code of the ASCII digits 1 to 9 is 0xe3069283 |
| Crc32cResidue.CodeOfCode | utils/crc32.go:40-43 | the code of any message followed by its own code, least significant byte first, is 0x48674bc7 |
| Crc32cResidue.ResidueIff | utils/crc32.go:40-43 | no other four bytes behind a message give that code |
| NodeChecksum.VerifyChkSum | FS/BTRFS/genericnode.go:149-155 | compares the little-endian number in the first four checksum bytes with the code of everything from byte 32 on, and panics on shorter data |
| Crc32cResidue.PassesIffResidue | FS/BTRFS/genericnode.go:149-155 | a node passes if and only if what is behind its checksum, followed by the first four checksum bytes, has the code 0x48674bc7 |
| NodeChecksum.FourBytesAreDetected | FS/BTRFS/genericnode.go:153-155 | different messages that agree outside four consecutive bytes have different codes |
| NodeChecksum.FiveBytesAreNot | FS/BTRFS/genericnode.go:153-155 | two messages that differ in 33 consecutive bits have the same code, so four bytes is the limit |
| NodeChecksum.DamageIsFound | FS/BTRFS/genericnode.go:153-155 | a node that passes fails after any change within four consecutive bytes behind its checksum |
| NodeChecksum.FourChecksumBytesCount | FS/BTRFS/genericnode.go:149-155 | of the 32 checksum bytes a change goes unnoticed if and only if it spares the first four |
| Unmarshalling.Unmarshal | utils/utils.go:209-303 | the loop over the fields fills what the field-by-field definition fills, with panics and the error that stops it |
| Unmarshalling.UnmarshalInverts | utils/utils.go:209-303 | for every list of kinds and values in range, filling undoes encoding and the cursor is the sum of the widths |
| Unmarshalling.LongEnoughFills | utils/utils.go:209-303 | whatever the contents, a long enough slice fills every field and moves the cursor by the sum of the widths |
| Unmarshalling.FillPanicsIff | utils/utils.go:209-303 | filling panics if and only if a number reaches behind the capacity or an array meets an empty slice, with no field before it that ends the filling; the contents do not matter |
| Unmarshalling.SignedRoundTrip | utils/utils.go:254-258 | 64-bit signed fields come back, negative ones included |
| Layouts.EachIsRead | utils/utils.go:209-303 | in a structure with a field of each kind, every field is read from its own bytes and the next one starts behind them |
| Layouts.KeyFields | FS/BTRFS/leafnode/structures.go:30-34 | object id, item type and offset of a key lie at bytes 0, 8 and 9 |
| Layouts.ChunkFields | FS/BTRFS/leafnode/structures.go:116-127 | the numbers of a chunk item lie at bytes 0, 8, 16, 24, 32, 36, 40, 44 and 46, the number of stripes at 44 |
| Layouts.StripeFields | FS/BTRFS/leafnode/structures.go:203-207 | device id, offset and UUID of a stripe lie at bytes 0, 8 and 16 |
| Layouts.UsnFields | FS/NTFS/usnjrnl/usnjrnl.go:67-85 | the entry of a journal record lies at byte 8, its name length at byte 58, and reading takes 62 bytes |
| SystemChunks.ParseSystemChunks | FS/BTRFS/btrfs.go:96-119 | the loop finds the pairs from the start of the array, or panics where the fields of a pair do |
| SystemChunks.ParseChunkItem | FS/BTRFS/leafnode/structures.go:704-712 | a chunk item and as many stripes as it announces |
| SystemChunks.PairAt | FS/BTRFS/btrfs.go:103-108 | every pair advances the cursor by at least its 17-byte key |
| SystemChunks.PairPanicsIff | FS/BTRFS/btrfs.go:103-108 | a pair panics if and only if its key does not end, or its last stripe does not start, inside the array, or its numbers reach behind the capacity |
| SystemChunks.StripesPanicIff | FS/BTRFS/leafnode/structures.go:706-710 | only the last stripe can be cut |
| SystemChunks.PairsPanicIff | FS/BTRFS/btrfs.go:96-119 | following the announced sizes, parsing panics if and only if it comes to such a pair |
| SystemChunks.StripeAtTheEndPanics | FS/BTRFS/btrfs.go:102-108 | an array of 65 bytes in 2048 with one stripe announced panics |
| SystemChunks.StripesRoundTrip | FS/BTRFS/leafnode/structures.go:706-710 | any number of 32-byte stripes is read back |
| SystemChunks.SystemChunksRoundTrip | FS/BTRFS/btrfs.go:96-119 | parsing undoes the concatenation of any number of keys and chunk items with any number of stripes, whatever follows in the array |
| PathBuilding.FileDirEntry.BuildPath | FS/BTRFS/filedirentry.go:64-84 | every visit of an entry, in the order of the recursion over children, extends its path by the path defined from the root of its parents down, whether or not the pointers agree |
| PathBuilding.FileDirEntry.CollectNames | FS/BTRFS/filedirentry.go:65-70 | the names on the way up, nearest first |
| PathBuilding.FileDirEntry.ExtendPath | FS/BTRFS/filedirentry.go:72-78 | the names joined the other way round, without empty ones, behind what was there |
| PathBuilding.WalkingUpAgrees | FS/BTRFS/filedirentry.go:64-78 | the walk up gives the path of the top-down definition |
| PathBuilding.AfterAddsPaths | FS/BTRFS/filedirentry.go:72-82 | each path ends up extended as often as its entry is visited, and by nothing else |
| PathBuilding.SharedEntryIsExtendedTwice | FS/BTRFS/filedirentry.go:72-82 | an entry listed under two parents gets its path twice |
| PathBuilding.VisitedAtMostOnceIff | FS/BTRFS/filedirentry.go:80-82 | every entry is visited at most once if and only if no entry stands twice in the children lists that are reached |
| PathBuilding.VisitsAreListings | FS/BTRFS/filedirentry.go:80-82 | an entry is visited once as the start and once for every listing in a visit |
| PathBuilding.VisitedIffDown | FS/BTRFS/filedirentry.go:80-82 | exactly the entries that children lead to are visited |
| PathBuilding.BuiltOnceUnlessListedTwice | FS/BTRFS/filedirentry.go:64-84 | where no entry is listed twice, exactly their paths are extended, once each |
| PathBuilding.VisitedOnce | FS/BTRFS/filedirentry.go:80-82 | where parents and children agree, exactly the entries at and below the start are visited, once each |
| PathBuilding.BuiltOnce | FS/BTRFS/filedirentry.go:64-84 | there, exactly their paths are extended, once each |
| PathBuilding.EveryPathContinuesItsParents | FS/BTRFS/filedirentry.go:64-84 | called at the root of a tree with empty paths, every path is the parent's path, a backslash and the parent's name, or the parent's path alone if that name is empty |

## Left out

- Disk readers, image formats, operating system calls, hashing and logging: `ReadFile` is a function of offset and length.
- Flags, reports and all output except the order in which tree entries are shown; showing a tree without a root, which panics.
- MBR, GPT, LVM and RAID headers: fixed-size field reads and sums.
- The duplicates under `FS/NTFS/ntfs.go` and `disk/lvm2/lvm.go`, filters and attribute predicates: they would only add easy members.
- Attribute dispatch, fix-up arrays, attribute list and index parsing: a record arrives parsed, with its file names and the references of its attribute list.
- Attributes without a run list, on which the file loops dereference nil; the room that `CollectMFTArea` makes in advance.
- DirectoryTree.Node.Insert: does not fetch names for the log, which would never end where origins loop.
- A system chunk array whose size is given as more than 2048 bytes, which panics when it is cut.
- MftTable.Record.GetFullPath: returns the list of names, because joining and cleaning them is a library call.
- `CalculateFileSizes` and `SetI30Size`: the index size of a record is a field that the model reads but never computes.
- ExportPipelines.ExportData: keeps one flat map of names, because path joining and file system errors are library calls.
- The rest of the program while and after free space is exported: it may end the process before the producer panics.
- The strings of USN records and their field layout behind the framing; a negative channel capacity, on which `make` panics.
- The capacity of one USN channel is the logical size of a file; the proofs hold for every capacity.
- `BTRFS` items, leaf nodes and internal block pointers: pointer fields consume no bytes there, so a layout round trip does not hold.
- Reflection: a structure is a list of field kinds. The special case of the field `ChildVCN` is not modelled.
- PathBuilding.FileDirEntry.BuildPath: asks that walks to parents and walks to children come to an end, because otherwise the code does not.
- `Process` for several USN records in a row: the runs of the machine follow one another.
