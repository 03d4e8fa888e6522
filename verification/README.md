# btrfs-peek: a verified model

btrfs-peek reads btrfs filesystems from raw devices without mounting them, copies
trees out of them, and on Windows does so through a helper service that also updates
itself. This project models its core in Dafny and proves that each layer does what
the next one relies on.

## What is modelled

**Reading.** A device is a byte string with damaged positions, delivered in short
counts and with interrupts; `Device.Read` turns that into slices. The chunk map, the
mirrors in stripe order and the checks of a tree block give `NodeOf`, the block an
uncached read delivers. Over it stands the pruned B-tree walk, with the visitor's
captured variables as an accumulator, and over the walk the trees, inodes, extent
lists, directories and path operations. A file means a byte function: byte *p* comes
from the first extent whose record reaches *p*, or is zero. `Reader.Fs` is the reader with its
caches of blocks, tree roots and the last decompressed extent; every operation of it
is proved to return what the uncached function says after any history of calls, and
the uncached functions are proved to mean what a simple specification says: a walk is
a scan of the tree's items in range, `get` is a map lookup, `read_range` delivers the
file's bytes, lookup agrees with the listing, printed subvolume paths resolve to their
subvolumes. `Reader.Fs` reads its blocks and bytes through `Dev.Device`, so the
results reach from a device's short counts and interrupts up to a file's bytes.

**Decompressing.** The codecs are parameters. The LZO framing has a writer, which the
reader inverts, and every success is the decoded stream cut or padded to the declared
size by less than a sector.

**Copying.** Host names are single safe components, differ pairwise in a directory,
and are found within one try more than there are names taken. The copy of a readable
tree to a vacant place, on a host that refuses nothing and with nothing in a file's way,
succeeds without a failure. A copy without failures holds every entry that is not
excluded or skipped at its own destination, files with exactly the bytes the filesystem
means, if and only if no file's temporary name is the place of an earlier file or link;
the ancestor set is restored on every return. Without `--force` nothing that was there is
lost, unless it lies at a temporary name or is written through a link. The sparse file, `cat` and the vector hold
the same bytes.

**The helper.** The server is a function of the bytes it has received, however they
are cut up; a client's call gets the answer to the request just sent. The updater is a
machine of threads and an arbitrary world, any step of which may fail or be the last.

**Dates.** The closed formula of `iso_time` is compared with the calendar itself, the
length of each month and the leap rule of RFC 3339 (section 5.7 and Appendix C).

Four stronger claims are false of the code. Each is stated with what refutes it, and
with the condition under which it holds:

- Reading a range in two parts may give other bytes than reading it at once, when the
  file has an inline extent whose payload is longer than its `ram_bytes`.
  `FileLaws.InlineSplitsExactly`: it does not if and only if each payload byte past
  `ram_bytes` that no extent in front gives is what the following extents give there,
  or those in front reach past the declared end.
  `FileLaws.OverrunningInlineSplitsBadly` and `ShadowingInlineSplitsBadly` name files.
- A copy without failures may have lost a file or a link: one that lies at the temporary
  name of a later file. `Copy.Copier.CopyDir` proves both directions (`TreeClear`).
  Where a link lies there the file is written through it, outside the destination.
  `CopyLaws.CopyTwoFiles`, `CopyLinkAndFile` and `CopyOntoLink` give the names.
- A client loses the framing exactly when a reply's text is longer than 64 KiB
  (`Protocol.Session.OpenDevice`, `ReadAt` and `AskUpdate` state both directions).
  The refusal of a signature whose comment is 11000 delete characters is such a text
  (`LongReplies.AskUnderLongComment`).
- The comments on the restart say that it waits until no session is active. If the last
  look at the counter saw zero, the exit cuts off no session if and only if every one
  that was arriving then or connected since has entered, and every one that entered has
  ended (`Updater.CutOffExactly`); `Updater.CutOffReached` is a run from a first start
  in which one is cut off.

Hypotheses the laws carry: `Faithful` (every copy of a chunk that is read at all holds the same content),
`Tree` (a readable tree of level at most 8 with ordered keys), `Sane` and `GoodFile`
(extents in order, no address past 2^64, a plain inline payload within its declared
size), `RefersAs` (references to one disk address agree on codec and sizes),
`ConsistentDir` (the two indexes of a directory agree), `ClimbMatches` and `Matched`
(the references on the one way up that is climbed are matched by entries, under names
that can stand in a path), `Vacant` (nothing, or an empty directory, at the
destination), `Honest` (a signed build
reports the version it is signed as). The copy also assumes that the host compares
names exactly as the program folds them (`FoldsNames`): on a case-insensitive volume
under Unix, where the program folds nothing, two entries that differ only in case are
one place, and with `--force` the second removes the first without a failure.

## Modules

| file | content |
|---|---|
| `Bytes`, `Disk` | little-endian fields and the on-disk structures, with writers |
| `Dev` | aligned device reads |
| `Decompress` | size settlement and the LZO framing |
| `Volumes`, `Walks` | chunks, mirrors, tree blocks; the B-tree walk |
| `FileData`, `FileLaws` | extents, streaming, the meaning of a file; what can be read, caches, splitting |
| `TreeLaws`, `SubvolLaws` | tree roots, inodes, entries, parents and the subvolume list told from the items of their trees |
| `Namespace`, `Paths`, `Subvols` | lookup and listing, paths up and down, the subvolume list |
| `Fs` (module `Reader`) | the caching reader |
| `Sinks`, `HostNames` | where bytes go; names on the host |
| `HostTree`, `CopyPlan`, `Copy`, `CopyLaws` | the host's tree, what a copy is to do, the copier, what that means |
| `Protocol`, `LongReplies` | the helper's wire protocol, server and client; a reply too long |
| `Decimals`, `Versions`, `Updater` | version texts, accepted builds, the self-update |
| `IsoTime` | dates |

## Model

| member | source | states |
|---|---|---|
| Bytes.Sub | src/disk.rs:57-64 | the bytes asked for when all of them are there, else an error |
| Bytes.U64Head | src/disk.rs:75-77 | a 64-bit field reads back as the little-endian number that was laid out |
| Bytes.LastCountsMost | src/disk.rs:66-77 | numbers are little-endian: every further byte counts 256 times the one before |
| Disk.KeyHead | src/disk.rs:94-101 | parsing a key gives back the key that was laid out |
| Disk.ParseChunk | src/disk.rs:191-208 | the loop collects exactly the declared stripes, or fails on the first missing field |
| Disk.ChunkRoundTrip | src/disk.rs:191-208 | for every list of stripes, parsing inverts the chunk item's layout and counts its bytes, whatever follows |
| Disk.ParseDirEntries | src/disk.rs:299-316 | the loop computes the entries the item holds |
| Disk.DirEntriesRoundTrip | src/disk.rs:299-316 | for every list of packed entries, parsing gives them back |
| Disk.ExtentRoundTrip | src/disk.rs:341-374 | for inline, regular and preallocated extents, parsing inverts the item's layout |
| Disk.ExtentRefused | src/disk.rs:341-374 | an encrypted extent and one of an unknown type are refused, and only a whole item of a known type is parsed |
| Disk.InodeRoundTrip | src/disk.rs:256-276 | parsing an inode gives back the size and mode that were laid out in the 160-byte item |
| Disk.Kinds | src/disk.rs:268-276 | which modes are directories, regular files and symlinks |
| Disk.RefRoundTrip | src/fs.rs:747-755 | an INODE_REF laid out by the format has its name where the climb reads it |
| Disk.BackrefLayout | src/fs.rs:776-790 | a ROOT_BACKREF laid out by the format has its directory and name where the listing reads them |
| Disk.RootLayout | src/fs.rs:334-356 | a ROOT_ITEM laid out by the format has its generation, root directory, address, flags and parent UUID where the reader takes them from |
| Dev.Device.Fill | src/dev.rs:72-89 | under any schedule of short counts and interrupts the buffer fills with the device's bytes up to its end, and fails exactly on damage |
| Dev.Device.Read | src/dev.rs:66-97 | the widened, resumed read is the slice of the device, end of device or fault, whatever the schedule |
| Dev.ReadOf | src/dev.rs:66-97 | a success is exactly bytes [off, off + len); a range past the end is an error |
| Dev.ReadOfExactly | src/dev.rs:66-97 | a fault exactly when the widened range is damaged; else a success exactly when the range asked for exists, and then its bytes |
| Dev.ReadToTheEnd | src/dev.rs:66-97 | an undamaged device can be read up to its last byte, aligned or not, and no further |
| Dev.ReadOfPart | src/dev.rs:66-97 | part of a readable range reads as that part |
| Decompress.Finish | src/decompress.rs:104-131 | the in-place cut and fill settle a stream against its size |
| Decompress.Settled | src/decompress.rs:104-131 | accepted exactly when within the allowed size and short by less than a sector; then the declared bytes, zeros after the decoded ones |
| Decompress.Lzo | src/decompress.rs:136-190 | the frame loop ends, stays within the frame, and keeps its buffer below the declared size plus a sector |
| Decompress.Segment | src/decompress.rs:146-187 | segment data is taken only from inside the declared frame and unpacks to at most a sector |
| Decompress.SegmentsBounded | src/decompress.rs:136-190 | on any input the buffer only grows and stays below the declared size plus a sector |
| Decompress.PaddingFits | src/decompress.rs:160-167 | the bytes skipped bring a header inside a sector, and none are skipped exactly where it fits |
| Decompress.HeadersNeverStraddle | src/decompress.rs:133-135 | every header of a written frame lies within one sector and holds its segment's length |
| Decompress.LzoRoundTrip | src/decompress.rs:133-190 | for every list of nonempty pages of at most a sector, framed so, decoding gives them back zero-padded by less than a sector, even when segments are left over |
| Decompress.Decode | src/decompress.rs:35-80 | dispatch and settling for the four codecs, including refusals |
| Decompress.DecompressionSettles | src/decompress.rs:35-131 | every success is the decoded stream cut or padded to the declared size by less than a sector |
| Decompress.ZlibExactly | src/decompress.rs:35-131 | codec 1 succeeds exactly when the zlib stream fits what the extent declares, and gives it cut or zero-padded |
| Decompress.ZstdExactly | src/decompress.rs:35-131 | the same of codec 3 and zstd |
| Decompress.LzoByNumber | src/decompress.rs:59-80 | codec 2 is the framed LZO |
| Decompress.InlineRoom | src/decompress.rs:45-58 | an inline extent may decode to the end of its last sector, another to its declared size |
| Decompress.FrameRefused | src/decompress.rs:136-145 | a frame whose length is missing, below 4 or past its data is refused |
| Decompress.SegmentRefused | src/decompress.rs:168-187 | a segment is refused exactly when it is empty, leaves the frame, does not decode or decodes to more than a sector |
| Volumes.SearchIsExact | src/fs.rs:178-190 | for chunks that do not overlap, the predecessor search finds the one chunk holding the range, and reports it unmapped exactly when none does |
| Volumes.RefusedExactly | src/fs.rs:178-212 | a range is refused exactly when its chunk does not hold it, stripes over more than one device, or has no device that was given |
| Volumes.CopiesInOrder | src/fs.rs:196-207 | the copies of an address are tried in stripe order |
| Volumes.CopyOfStripe | src/fs.rs:198-206 | a stripe's copy of an address is at the same distance from the stripe's start, if its device was given |
| Volumes.Profiles | src/fs.rs:188-195 | RAID0, RAID10, RAID5 and RAID6 are the profiles that stripe; single, DUP and the RAID1 family are not |
| Volumes.FirstReadExact | src/fs.rs:216-228 | a read succeeds exactly when some mirror can be read, with the bytes of the first that can |
| Volumes.LogicalBytesFaithful | src/fs.rs:216-228 | whichever mirror answers, a logical read delivers the content of the volume |
| Volumes.NodeDecidedByFirstSoundMirror | src/fs.rs:230-265 | the first mirror in stripe order that is readable, self-addressed and checksummed decides; too many items abort even when a later mirror is sound |
| Volumes.NodeLayout | src/fs.rs:240-256 | a tree block laid out by the format has its address, item count and level where the reader takes them from |
| Volumes.SoundBlock | src/fs.rs:240-262 | a block with its own address and the checksum of all that follows is accepted |
| Volumes.ItemLayout | src/fs.rs:297-308 | the i-th item of a leaf reads back as its key and data, or fails when the data leaves the block |
| Volumes.PtrLayout | src/fs.rs:310-322 | the i-th pointer of an inner node reads back as its key and child |
| Walks.WalkKeeps | src/fs.rs:272-323 | on any node graph, cyclic or corrupt, the walk ends and shows the visitor only keys of the range |
| Walks.MisplacedBlockFails | src/fs.rs:272-296 | a block that cannot be read, lies deeper than 8 levels or has another level than its parent expects is an error |
| Walks.BadItemFails | src/fs.rs:297-308 | an item that cannot be read fails the walk of its leaf, after what is readable before it was shown |
| Walks.BadPtrFails | src/fs.rs:310-322 | a pointer that cannot be read, or whose right sibling cannot, fails the walk |
| Walks.NodeIsScanned | src/fs.rs:272-323 | on a well-formed tree the pruned walk visits exactly the items in range, in key order, up to the visitor's first refusal |
| Walks.WalkIsScan | src/fs.rs:268-323 | the walk from a root has the effect of scanning the sorted items in range |
| Walks.TreeItemsOrdered | src/fs.rs:272-323 | a well-formed tree's items rise strictly within its bounds |
| Walks.GetIsLookup | src/fs.rs:325-332 | get is the lookup of a map from keys to data, both directions |
| FileData.StreamDelivers | src/fs.rs:599-692 | streaming from sorted extents of every kind, gapped or overlapping, delivers the file's bytes; a prefix on an error |
| FileData.EmitDelivers | src/fs.rs:571-597 | an emission is zeros up to the extent and then the extent's own bytes, clipped to what is wanted |
| FileData.PreparedContributes | src/fs.rs:602-690 | what an extent is made ready to send is what its record means: the payload, the disk bytes from address and offset on, the decompressed bytes from the offset on, or zeros; and nothing past its end |
| FileData.ReadRangeDelivers | src/fs.rs:561-693 | a read of [start, end) delivers exactly the file's bytes up to its size; on an error the sink holds a prefix |
| FileData.RangesJoin | src/fs.rs:561-693 | read(a, b) followed by read(b, c) is read(a, c) |
| FileLaws.ExtentsAreItems | src/fs.rs:518-531 | a file's extents are its items, parsed, in ascending file offset |
| FileLaws.StreamSucceeds | src/fs.rs:561-693 | a read fails only over an extent of its range that cannot be fetched |
| FileLaws.ReadableExactly | src/fs.rs:602-690 | an extent can be sent exactly when its record allows it: sizes in bounds, every chunk of its disk range readable, its stream decoding to at least what it refers to |
| FileLaws.ReadableStreams | src/fs.rs:561-693 | a read does not fail when the extents of its range are readable, whatever the others are |
| FileLaws.StreamSparse | src/fs.rs:571-692 | data is sent in pieces of at most 1 MiB; of a file with only holes nothing but holes is sent |
| FileLaws.StreamCacheInvisible | src/fs.rs:533-557 | streaming through the one-slot cache sends the same pieces as without it |
| FileLaws.CachedReadDelivers | src/fs.rs:533-693 | a read through the cache delivers the file's bytes and leaves a cache the next read can rely on |
| FileLaws.CacheInvisible | src/fs.rs:533-557 | any series of reads over many files streams what decompressing each time would |
| FileLaws.StreamThrough | src/fs.rs:599-692 | what a read streams of a file with an overrunning inline extent, sane extents in front of it and behind it |
| FileLaws.InlineSplitsExactly | src/fs.rs:599-642 | reads of a file with a plain inline extent, any sane extents around it, join up if and only if its payload past `ram_bytes` agrees with those, or it is never read |
| FileLaws.OverrunningInlineSplitsBadly | src/fs.rs:602-642 | a concrete inline extent whose bytes change when the read is split |
| FileLaws.ShadowingInlineSplitsBadly | src/fs.rs:602-642 | a concrete pair of extents where a zero past `ram_bytes` hides the second one's byte |
| TreeLaws.TreeIsLastRoot | src/fs.rs:334-356 | the root of a subvolume tree is what the last of its ROOT_ITEMs says; without one there is none |
| TreeLaws.RootItemReadBack | src/fs.rs:334-356 | a written ROOT_ITEM says where its tree starts and which directory is its root |
| TreeLaws.InodeIsItem | src/fs.rs:365-384 | an inode is what its INODE_ITEM holds; without one there is none |
| TreeLaws.PlaceholderIsEmpty | src/fs.rs:358-384 | a subvolume that is not linked here is an empty directory |
| TreeLaws.EntryLeads | src/fs.rs:386-418 | an entry leads to an inode of its own tree, or to the root directory of a subvolume that a ROOT_REF links to this tree, else to the stand-in |
| TreeLaws.ParentIsFirstRef | src/fs.rs:742-757 | the climb takes the first INODE_REF of an inode; without one it fails |
| TreeLaws.RefNames | src/fs.rs:747-755 | a written INODE_REF names what was written |
| TreeLaws.ExtentsListed | src/fs.rs:518-531 | a file's extents can be listed exactly when each of its items parses |
| TreeLaws.DirectoryListed | src/fs.rs:457-478 | a directory can be listed exactly when each of its index items parses and what each entry leads to is there |
| Namespace.SortSorts | src/fs.rs:475-477 | a listing is a permutation of the entries, ordered by name |
| Namespace.ListingIsSorted | src/fs.rs:457-478 | a listing holds what each raw entry leads to, as often as the index does, ordered by name |
| Namespace.FindIsFirst | src/fs.rs:448-454 | of several entries with one name and hash the first is found |
| Namespace.BeforeExactly | src/fs.rs:475-477 | names are ordered by the first byte in which they differ, a beginning before what it begins |
| Namespace.RawEntriesAreIndexed | src/fs.rs:457-478 | a scan gathers exactly the entries the index items hold |
| Namespace.LookupAgreesWithScan | src/fs.rs:440-478 | whenever a consistent directory can be listed, lookup gives exactly the listed entry of a name or none, for any hash function |
| Paths.SplitPath | src/fs.rs:483-492 | the split at both separators |
| Paths.SplitExactly | src/fs.rs:483-489 | paths split at slashes and backslashes, empty parts and single dots fall away, and joining puts slashes |
| Paths.PartsOfJoin | src/fs.rs:483-492 | splitting inverts joining for names that can stand in a path |
| Paths.PathResolves | src/fs.rs:483-516 | a path whose parts lead somewhere by lookups resolves there |
| Paths.ResolvedLeads | src/fs.rs:483-516 | whatever resolves is where its parts lead by lookups, with the parts taken away that a `..` goes back from |
| Paths.DotsGoBack | src/fs.rs:490-495 | `..` goes back one place and stays at the top |
| Paths.NoWayThrough | src/fs.rs:496-513 | nothing is looked up in a symlink or another thing that is no directory, and a missing name is reported so |
| Paths.ClimbThenDescend | src/fs.rs:733-763 | climbing parent references and looking the parts up again comes back to the inode, if entries match the references on this climb |
| Paths.PathInTreeLeadsBack | src/fs.rs:733-763 | the path built by climbing leads from the subvolume's root to the inode |
| Paths.ClimbGivesUp | src/fs.rs:733-763 | a chain of at most 4096 parents that ends at the root directory is climbed; 4096 that do not end there are given up |
| Subvols.DedupKeepsFirst | src/fs.rs:793-793 | of several root items with one id the first is listed |
| Subvols.DedupIds | src/fs.rs:793-793 | dropping repeated root items loses no id |
| Subvols.SubvolsAreTheReachable | src/fs.rs:765-835 | the rounds end on any graph and list exactly once, sorted by id, the root items whose back references reach the top-level tree |
| Subvols.GatheredBelow | src/fs.rs:765-793 | whatever the root tree looks like, the top-level tree is not among the items listed |
| Subvols.PrintedPathsResolve | src/fs.rs:765-835 | every printed path whose way up is matched resolves to the root directory of its subvolume, whatever other subvolumes look like |
| SubvolLaws.BackrefsAreItems | src/fs.rs:765-793 | on a well-formed root tree a subvolume is gathered with a parent, directory and name exactly when its last ROOT_BACKREF item says so |
| SubvolLaws.RootsAreItems | src/fs.rs:765-793 | the subvolumes gathered are exactly those with a ROOT_ITEM in the key range |
| SubvolLaws.ListedExactly | src/fs.rs:765-835 | told from the items of the root tree alone: exactly the roots whose references lead up to the top-level tree are listed |
| SubvolLaws.ListedDescribed | src/fs.rs:765-835 | each subvolume is listed with the generation, flags and parent that its own items give |
| SubvolLaws.ListedPathsGo | src/fs.rs:796-832 | each path listed has the parts of its parent's path, then of the directory the subvolume lies in there, then its name, matched by entries or not |
| SubvolLaws.ListingSucceeds | src/fs.rs:765-835 | the listing succeeds exactly when the items of subvolumes parse and the way up from where each reachable one is linked can be climbed |
| SubvolLaws.WrittenBackref | src/fs.rs:776-790 | a written ROOT_BACKREF is read back |
| SubvolLaws.WrittenRoot | src/fs.rs:771-785 | a written ROOT_ITEM is read back: generation, read-only flag, and snapshot exactly when a parent UUID is there |
| Reader.Fs.constructor | src/fs.rs:80-90 | a reader starts with empty caches on the devices of its volume |
| Reader.Fs.ReadLogical | src/fs.rs:216-228 | the loop over mirrors, reading the devices, gives the first readable copy or the last error |
| Reader.Fs.ReadNode | src/fs.rs:230-265 | after any history the block an uncached read gives; at most 8192 blocks are kept, all valid |
| Reader.Fs.Remember | src/fs.rs:257-261 | a full cache is emptied before the new block is kept |
| Reader.Fs.VisitLeaf | src/fs.rs:297-308 | the loop over a leaf's items is the walk of the leaf |
| Reader.Fs.VisitNode | src/fs.rs:272-323 | the recursive loop with pruning is the walk, and keeps the caches valid |
| Reader.Fs.Get | src/fs.rs:325-332 | the cached lookup is the uncached one |
| Reader.Fs.TreeRootOf | src/fs.rs:334-356 | the cached tree root is the one the last ROOT_ITEM gives |
| Reader.Fs.ReadInode | src/fs.rs:365-384 | the inode, the placeholder's stand-in, or the error |
| Reader.Fs.Extents | src/fs.rs:518-531 | the extent list of an uncached read |
| Reader.Fs.CompressedExtent | src/fs.rs:533-557 | the slot's bytes for its address, else the extent read and decompressed, which then fills the slot |
| Reader.Fs.PrepareExtent | src/fs.rs:603-690 | where an extent's bytes come from and where they end, for each kind |
| Reader.Fs.FetchBytes | src/fs.rs:632-690 | the bytes an extent's source gives at a file position |
| Reader.Fs.SendChunks | src/fs.rs:584-592 | pieces of at most 1 MiB, up to the first error |
| Reader.Fs.EmitExtent | src/fs.rs:571-597 | the clipped extent after the gap before it |
| Reader.Fs.StreamExtents | src/fs.rs:599-692 | the loop over extents streams what the recursive form does |
| Reader.Fs.ReadRange | src/fs.rs:561-693 | the pieces, status and cache of the specified read |
| Reader.Fs.ReadEntry | src/fs.rs:386-418 | where a raw entry leads, subvolumes only when a ROOT_REF ties them to this tree |
| Reader.Fs.Lookup | src/fs.rs:440-455 | the cached lookup is the uncached one |
| Reader.Fs.ReadDir | src/fs.rs:457-478 | the cached listing is the uncached one, sorted |
| Reader.Fs.Resolve | src/fs.rs:483-516 | the loop with its stack resolves as the recursive form does |
| Reader.Fs.ReadParent | src/fs.rs:741-755 | an inode's first parent reference |
| Reader.Fs.ClimbParts | src/fs.rs:733-763 | the climb, its parts turned round, bounded against endless parents |
| Reader.Fs.PathInTree | src/fs.rs:733-763 | the cached climb is the uncached one |
| Reader.Fs.RunRound | src/fs.rs:801-824 | one round over the pending subvolumes |
| Reader.Fs.ListSubvols | src/fs.rs:765-835 | the rounds until nothing new resolves |
| Sinks.HostFile.Write | src/copy.rs:312-314 | a write at a cursor that may lie past the end |
| Sinks.HostFile.SkipHole | src/copy.rs:315-324 | seeking over a hole of any length in signed steps counts as sending its zeros |
| Sinks.HostFile.Send | src/copy.rs:312-327 | after each piece the file holds what was sent, zeros left out |
| Sinks.HostFile.Receive | src/copy.rs:309-328 | the sparse file ends up as the pieces flattened, at the inode's length |
| Sinks.WriteZeros | src/main.rs:499-513 | blocks of at most 64 KiB add up to the hole |
| Sinks.Cat | src/main.rs:499-513 | what is written out is the pieces flattened |
| Sinks.Gather | src/fs.rs:706-716 | the grown vector is the pieces flattened |
| Sinks.ReadToVec | src/fs.rs:706-716 | the pieces of the range, flattened, or its error |
| Sinks.ReadSymlinkTarget | src/fs.rs:697-704 | the target's bytes; one past the limit is refused |
| Sinks.SinksAgree | src/copy.rs:309-338 | after a whole-file read all three sinks hold the file's bytes, of exactly the inode's size |
| HostNames.MakeHostName | src/copy.rs:71-107 | the in-place edits compute the host name |
| HostNames.HostNameSafe | src/copy.rs:71-107 | every raw name becomes a component that is not empty, no navigation, without separators and control characters, and on Windows not reserved |
| HostNames.SafeMeans | src/copy.rs:64-107 | what safe means, character by character |
| HostNames.NameStays | src/copy.rs:71-107 | nothing of a name is lost: what is illegal becomes an underscore in its place, and only underscores are put before or after |
| HostNames.HostNameKeepsSafe | src/copy.rs:71-107 | a name that is safe already is left alone |
| HostNames.ChooseName | src/copy.rs:199-208 | the search for a free candidate takes the first one, within one try more than there are names taken |
| HostNames.CandidateSafe | src/copy.rs:199-208 | a numbered candidate stays safe |
| HostNames.NamesSafeAndDistinct | src/copy.rs:176-212 | for every list of raw names the chosen ones are safe and differ pairwise in the host's eyes |
| CopyPlan.KeysAreDistinct | src/copy.rs:176-212 | no two entries of a directory share a destination |
| HostTree.MakeDirsExactly | src/copy.rs:172-172 | a directory and its parents are made exactly when the last thing that is there on the way is no file and the host refuses nothing below it |
| CopyPlan.LeftOutExactly | src/copy.rs:175-187 | an entry is left out exactly when its name or its path from the start of the copy is excluded |
| CopyPlan.RelJoins | src/copy.rs:175-180 | an entry's path from the start of the copy is the names on the way to it, joined by slashes |
| CopyPlan.SkippedExactly | src/copy.rs:246-253 | which subvolume roots are skipped, and when that cannot be told |
| Copy.LeafGoesInside | src/copy.rs:122-130 | a leaf given a directory, or a link to one, goes into it under its own name, else to the place given |
| Copy.Copier.Copy | src/copy.rs:119-131 | a directory copied from the top succeeds and is faithful exactly as below; a leaf's copy is faithful exactly when it is no file or no link lies at its temporary name; without force a leaf whose place is taken fails and changes nothing, and nothing that was there is lost but temporary names and what is written through a link; with it a readable leaf replaces a file |
| Copy.Copier.CopyDir | src/copy.rs:133-152 | the ancestor set is restored on every return; a readable tree is copied to a vacant place without failures; without failures the copy is faithful if and only if no file's temporary name is the place of an earlier file or link; it goes through exactly when the depth, the ancestors, the destination and the listing allow it, and then the report tells of every entry; without force what was there keeps its value, unless at a temporary name or written through a link |
| Copy.Copier.CopyDirInner | src/copy.rs:154-235 | no descent through a link; only the destination changes unless a file is written through a link, which does not happen where the destination holds none and the tree is clear |
| Copy.ReachedNext | src/copy.rs:173-232 | one more entry keeps what the loop has achieved: frame, places free of links, exactly the clear entries in place, success of what can be read |
| Copy.ReachedKeeps | src/copy.rs:173-232 | without force one more entry takes nothing away that was there, but at a temporary name or through a link |
| Copy.Copier.CopyEntries | src/copy.rs:173-232 | while nothing failed, of the entries already passed exactly those are in place that are clear and not overwritten, or a link is gone; a failed entry is counted and does not stop the rest |
| Copy.Copier.NameEntry | src/copy.rs:188-212 | the first free candidate, with a warning when it is not the entry's own name |
| Copy.Copier.CopyEntry | src/copy.rs:237-259 | an entry is skipped and counted, or copied as a directory or a leaf |
| Copy.Copier.CopyLeaf | src/copy.rs:261-307 | a success leaves the complete file or link at its place and no temporary file, except that a file written through a link leaves that link at its place; without force a taken place is an error that changes nothing; a failure leaves at the place what was there or nothing, and no partial file; the report counts what was copied |
| Copy.Copier.WriteFile | src/copy.rs:309-338 | a success leaves exactly the file's bytes under the temporary name and nothing else changes; or a link there is followed and stays |
| CopyLaws.LeavesArrive | src/copy.rs:154-259 | in a faithful copy every leaf reachable through entries that are kept is at its place |
| CopyLaws.PlacesDiffer | src/copy.rs:176-215 | no two leaves of the whole tree share a place |
| Copy.ListingCopied | src/copy.rs:173-232 | after the last entry the directory is copied exactly when nothing in it is overwritten |
| Copy.UnlinkedFirst | src/copy.rs:291-303 | the first write through a link takes the link away from an entry of the tree |
| Copy.UnlinkedSome | src/copy.rs:173-232 | a link that is gone does not come back |
| Copy.AheadSome | src/copy.rs:173-232 | in a clear listing no link ever lies where an entry or its temporary file goes |
| Copy.NothingInTheWay | src/copy.rs:173-232 | a readable entry finds its place free and no directory or link at its temporary name |
| CopyPlan.UnlinkedNotCopied | src/copy.rs:154-259 | a tree that has lost a link is not a faithful copy |
| Copy.EarlierPlace | src/copy.rs:291-303 | writing an entry keeps every earlier place, except that a file's temporary name empties the place of what is called so |
| CopyLaws.CopyTwoFiles | src/copy.rs:173-303 | a concrete directory of two readable files: the copy succeeds without a failure and is not faithful |
| CopyLaws.CopyLinkAndFile | src/copy.rs:173-303 | the same names as a link and a file: no copy without failures is faithful |
| CopyLaws.CopyOntoLink | src/copy.rs:291-311 | a file whose temporary name is a link's place: the copy succeeds, and the link is moved to the file's place |
| CopyLaws.CopiedBytesAreTheMeaning | src/copy.rs:309-338 | a copied regular file has exactly the bytes the filesystem means |
| Protocol.ServeConcat | src/helper.rs:220-305 | serving a stream is serving its parts in turn |
| Protocol.FragmentsDoNotMatter | src/helper.rs:220-305 | the server's state and output do not depend on how its input is cut up |
| Protocol.RequestAnswered | src/helper.rs:235-302 | a whole request is answered and nothing after it is consumed |
| Protocol.ContinuedMeansOneRequest | src/helper.rs:235-302 | every branch on which the server goes on has consumed exactly one whole request and sent exactly its answer |
| Protocol.DeviceNeverChanges | src/helper.rs:236-265 | once a device is open it stays the one device of the session |
| Protocol.OpensExactly | src/helper.rs:238-265 | an OPEN is answered with success exactly when no device was open, the path is UTF-8 and the service opens it; then that is the device, else nothing changes |
| Protocol.EndsExactly | src/helper.rs:220-303 | a session ends exactly by an installed update, or in an error over the greeting, an unknown operation or a path length above 1024, before the path arrives |
| Protocol.LongReadRefused | src/helper.rs:267-273 | a read of more than 4 MiB is refused and the session goes on |
| Protocol.OpenMessage | src/helper.rs:336-348 | an OPEN byte by byte |
| Protocol.ReadMessage | src/helper.rs:350-357 | a READ byte by byte |
| Protocol.ReplyMessage | src/helper.rs:177-183 | a reply byte by byte |
| Protocol.SeriesAnswered | src/helper.rs:220-305 | a series of requests yields the series of their answers, up to the one that ends the session |
| Protocol.Pipe.ReadByte | src/helper.rs:186-196 | one byte, retried when interrupted, or none at the end |
| Protocol.Pipe.ReadExact | src/helper.rs:198-208 | all the bytes asked for, from however many fragments |
| Protocol.ServeClient | src/helper.rs:220-305 | the loop sends what the step function says for everything the client sends, and returns as it ends |
| Protocol.HandleMessage | src/helper.rs:236-301 | one message read from the stream is decided as on whole bytes, and consumes exactly itself |
| Protocol.Session.Start | src/helper.rs:327-334 | the handshake leaves the connection idle and returns the server's version |
| Protocol.Session.OpenDevice | src/helper.rs:336-348 | the reply decoded is the answer to this request; a success means that no device was open, the service opened this path and its device is now the session's, a failure that nothing was opened; the framing survives exactly when the text is one the client takes |
| Protocol.Session.ReadAt | src/helper.rs:350-372 | with a device open the result is what reading it directly gives, without one the read fails; the framing survives exactly when the text is one the client takes |
| Protocol.Session.AskUpdate | src/helper.rs:374-393 | the reply decoded is the answer to this request, and the session ends exactly when a build was installed |
| Protocol.MakeCall | src/helper.rs:336-393 | one call tells the client what the answer to its own request means, and the framing survives exactly when the session goes on |
| Protocol.MakeCalls | src/helper.rs:325-423 | over any series of calls, each reply decoded answers the request just sent, until the session ends or a text is too long |
| Protocol.SessionTells | src/helper.rs:220-423 | over any series of calls each is told what the calls before it determine: an open succeeds on the first device only, every read after it gives what a direct read of that device gives, every read before it fails, and the series ends exactly with an installed update or a text too long |
| Protocol.Session.ReadExact | src/helper.rs:395-412 | all the bytes asked for, from however many fragments of the reply |
| Protocol.Session.Header | src/helper.rs:395-400 | the status and length at the front of the stream |
| Protocol.Session.Message | src/helper.rs:402-412 | exactly the declared bytes, or a refusal that leaves them unread |
| Protocol.Session.ReceiveReply | src/helper.rs:414-422 | what a text reply tells the client |
| LongReplies.AskUnderLongComment | src/helper.rs:374-412 | asked for an update under a comment of 11000 delete characters, the client gives up on the reply and its text stays unread |
| Decimals.DecimalOfValue | src/helper/update.rs:41-48 | a canonical spelling is the printed form of its value |
| Versions.VersionSpelled | src/helper/update.rs:36-67 | one version has one spelling: parsing inverts printing both ways, for versions of at most 19 digits a field |
| Versions.FieldsInOrder | src/helper/update.rs:29-34 | versions are totally ordered, one more in a field counting for more than any fields after it |
| Versions.CommentSpelled | src/helper/update.rs:99-107 | a trusted comment names a version exactly when it is the one comment for it |
| Versions.ReplyReadBack | src/helper/update.rs:76-95 | the client reads the installed version back, and none from any other reply |
| Versions.RepliesDiffer | src/helper/update.rs:78-87 | the reply tells outcomes and versions apart |
| Versions.LongRefusal | src/helper/update.rs:123-128 | such a comment names no version, and quoting it makes a text of more than 64 KiB |
| Versions.Quoted | src/helper/update.rs:123-128 | how the debug format quotes each ASCII character |
| Versions.AcceptedExactly | src/helper/update.rs:114-158 | a build is accepted exactly when the key signed it under the comment for a newer version, and then the signature announced that version |
| Updater.Directory.RemoveIfThere | src/helper/windows/updater.rs:193-197 | a missing file is no error; a running image is never deleted |
| Updater.Directory.Swap | src/helper/windows/updater.rs:193-205 | NEW becomes EXE and EXE becomes OLD; or EXE is what it was; or it is absent, only when putting it back was refused |
| Updater.Directory.Install | src/helper/windows/updater.rs:181-188 | EXE holds exactly the given bytes, or what it held, or is absent only when putting it back was refused |
| Updater.AdvanceKeepsFolder | src/helper/windows/updater.rs:112-205 | every step of a check keeps what EXE, NEW and OLD hold, and records only what is in place |
| Updater.CheckKeepsThreads | src/helper/windows/updater.rs:112-132 | a check's steps keep the lock, the counters and what the threads know |
| Updater.StepKeeps | src/helper/windows/updater.rs:40-221 | the invariant is kept by every step of every thread, by stopping at any point and by starting again |
| Updater.OneSwapPerRun | src/helper/windows/updater.rs:112-132 | over every run at most one swap succeeds |
| Updater.InstalledIsInPlace | src/helper/windows/updater.rs:58-132 | while INSTALLED names a version it is newer than the running one and EXE holds bytes signed as it |
| Updater.ActiveCountsGuards | src/helper/windows.rs:780-796 | ACTIVE is the number of live guards; a thread waiting to restart holds none |
| Updater.OneWaitsOneChecks | src/helper/windows/updater.rs:207-221 | one thread at most waits to exit, only after an update; one at most is inside a check, none after the update |
| Updater.RunningImageSurvives | src/helper/windows/updater.rs:190-205 | the running image is never lost; EXE is absent exactly between the two renames or after a refused put-back |
| Updater.VersionsRise | src/helper/windows/updater.rs:58-132 | from run to run versions never fall, and rise exactly when a swap succeeded in between, if signed builds report their version |
| Updater.GuardsThrough | src/helper/windows.rs:780-796 | until an exit, the sessions with a live guard are those before, with those that entered, without those that ended |
| Updater.ArrivalsThrough | src/helper/windows.rs:780-796 | until an exit, the sessions still before their guard are those before, with those that connected, without those that entered |
| Updater.CutOffExactly | src/helper/windows/updater.rs:207-221 | in every run, an exit decided on a look that saw zero cuts off no session if and only if every one arriving at the look or connected since has entered and every one that entered has ended; whoever is cut off with a guard entered after the look, unless the hour had passed |
| Updater.ExitWasLet | src/helper/windows/updater.rs:207-221 | in every run a thread that is about to exit was let go by an earlier step of its own, in the same process, that found it waiting and no session with a guard, or the hour passed |
| Updater.RestartFollows | src/helper/windows/updater.rs:67-80 | whoever is told of an installed update goes on to wait, unless another waits already |
| Updater.ClientAsks | src/helper.rs:289-297 | a client that asks gets its check once the lock is free; one that left, or did not take its reply, restarts nothing |
| Updater.OtherwiseServesOn | src/helper/windows/updater.rs:112-117 | after any other outcome the session serves on and the daily thread sleeps; once an update is in place every check answers with it |
| Updater.CleansUp | src/helper/windows/updater.rs:58-65 | a start removes OLD and NEW, as far as the system lets it, and keeps EXE |
| Updater.CutOffReached | src/helper/windows/updater.rs:207-221 | a run from a first start in which a session is cut off |
| Updater.UpdateGoesThrough | src/helper/windows/updater.rs:112-205 | with nothing refused, a check that fetches an acceptable build installs it |
| Updater.CheckDecides | src/helper/windows/updater.rs:112-132 | with nothing refused, a check installs exactly what the key signed as newer, is up to date exactly when the announced version is not newer, and else fails; only an installation changes the folder |
| Updater.FailureLeaves | src/helper/windows/updater.rs:181-205 | a write that fails leaves a beginning of the build in NEW and nothing else; EXE is put back unless that is refused |
| IsoTime.IsoTimeCorrect | src/main.rs:170-190 | for every second count a valid date whose day number counted on the calendar is the floor of secs / 86400, and clock fields that give secs back |
| IsoTime.CivilSteps | src/main.rs:170-190 | the formula's date for the next day is the calendar's next day |
| IsoTime.CivilCounts | src/main.rs:170-190 | counting any number of days on the calendar agrees with the formula |
| IsoTime.CivilInjective | src/main.rs:170-190 | no two days share a date |

## Left out

- The zlib, zstd and LZO1X codecs, crc32c, the name hash, minisign and glob matching: functions that are parameters of the model.
- Opening a filesystem (superblock, system chunk array, chunk tree): the volume is given. Node-cache agreement is for the fixed chunk map after `open`; blocks cached while the chunk map was still growing stay cached in the program.
- Dev.Device.Read: addresses are unbounded; a request whose end passes 2^64 is not modelled.
- Volumes.SearchIsExact: chunks and requests end below 2^64, where the source's unchecked sums do not wrap; `Add64` models the wrapping itself.
- FileData.StreamDelivers: assumes no address sum of an extent wraps and a plain inline payload within its declared size; the second is what `FileLaws.InlineSplitsExactly` shows to matter.
- FileData.ReadRangeDelivers: sinks that fail are not modelled; an error comes from the reader.
- Reader.Fs.Resolve: does not read a symlink's target for the text of its error; error texts are left out everywhere.
- Paths.PathInTreeLeadsBack: lossy UTF-8 decoding is a parameter, required to leave the names of the path alone.
- Subvols.PrintedPathsResolve: `tree` keeps the last ROOT_ITEM of an id and the listing the first; the path leads to the root that `tree` gives.
- FileLaws.InlineSplitsExactly: the extents around the inline one are sane; a file with a second overrunning inline extent is not covered.
- HostNames.NamesSafeAndDistinct: how Windows lowercases is a parameter, of which two laws are used: a suffix `~n` is left alone, and a name and its partial file's name fold differently. How a name folds may depend on what follows it.
- Copy.Copier.WriteFile: where a link leads is a parameter; directories are taken not to be reached through links. Running out of space halfway, flushing, times, permissions and the manifest are left out.
- Copy.Copier.CopyDir: promises nothing about the entries that did arrive when others failed.
- Copy.Copier.Copy: whether a subvolume is a snapshot is an answer of the source, not computed.
- Protocol.ServeClient: a read or write error on the pipe other than an interrupt or the end of the stream; decoding of text to lossy UTF-8 on the client.
- Protocol.Session.ReadAt: proved against this server; what a client does with a foreign server's bytes is covered only by its checks of the length.
- Versions.VersionSpelled: fields are unbounded; those of more than 19 digits print but do not parse.
- Updater.UpdateGoesThrough: fetching is one step that brings arbitrary bytes or nothing; curl, its time and size limits and the status file are left out.
- Updater.CutOffExactly: sleeping and the hour's deadline are a choice of the world.
- Versions.LongRefusal: what the debug format does beyond ASCII is not modelled.
- Updater.StepKeeps: changes to the folder by anyone but the service (an administrator's install) are left out, as is a panic inside a check.
- Which pipes, accounts and partitions the helper accepts (`partition_path_ok`, `sid_ok`), the pipe itself and the registry: accept-lists and foreign calls.
- `find`, which does not restore its set of visited directories when a listing fails (src/main.rs:281-284), and all of the command line, its output and exit codes.
- Names of profiles and types, mode strings, UUIDs and the text form of `iso_time`: tables and formatting.
- Log-tree replay, striped profiles and data checksums: the program does none of these.
