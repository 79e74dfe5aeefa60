# Verified model of the disk-image reader and its boot-selection pipeline

The program opens a virtual disk (a raw or QCOW2 file, local or behind HTTP, possibly an overlay on
a chain of backing files), reads it through a stack of read-only byte devices, and decides which boot
entry of which partition would boot. This project models both halves and proves what they promise.

**The storage stack.** Every layer has a meaning that is defined without it, and a method is proved
against that meaning.

- `ClusterMap` and `GuestDisk` define what byte the guest sees at each offset of a QCOW2 chain, from
  the L1/L2 tables, the compressed-cluster descriptors and the backing image. `DiskStack.Qcow2` is the
  imperative reader: the `read_at` loop over clusters, the inflate loop, the shared cluster cache that
  a read mutates, and the fall-through to the backing image. Whatever the offset, the length and the
  number of clusters crossed, a successful read leaves exactly the guest's bytes in the buffer, and
  on a local chain it fails only for a reason the definition gives.
- `Remote` specifies a lazily filled reader over an immutable body and an arbitrary schedule of short
  and failing network reads; `RemoteDevice.RemoteReader` is the object that updates `chunks`, `stream`,
  `streamed` and the disk cache in place, method by method equal to that specification.
- `HttpBody` does the same for the body decoder (length, chunked and to-end framing).
- `Drift` says what becomes of a streaming reader that has lost its place.
- `BackingChain` and `DiskOpen` cover opening: depth cap, cyclic references, the header checks.
- `ClusterCache` is the cache as a state machine in which lookup, inflate and insert of any number
  of readers interleave freely.

**The boot pipeline.** `Grub` is the grub.cfg line machine; `GrubDefault` relates the numbered list it
emits to a menu tree and proves `resolve_default` against looking a path up in that tree one level
at a time; `GrubRender` writes a menu tree in grub-mkconfig's layout and proves that parsing gives it
back. `Vercmp`, `NewestFirst`, `Glob`, `Bls`, `Extlinux`, `Fallback`, `BootScan` cover the other
sources and the choice among them, `Sweep` the renumbering of `retain`, `Guest` and `Bootable` the walk
over the partitions and the merging of Windows. `Partitions`, `Cmdline` and `Kernel` cover partition
numbering, the `root=` rewrite and the kernel unwrapper.

## What the code does where it differs from its documentation

- A failed stream read may have consumed bytes of the chunk it was for, and nothing records it. The
  next read then resumes at the wrong place, succeeds with shifted bytes and stores them in the disk
  cache under a right length (`Remote.FailedStreamReadShiftsLaterChunks`). A run of reads keeps its place
  exactly when none stops inside a chunk of which something had arrived (`Drift.RunKeepsGoodIff`). A lost
  place is never found again; every chunk streamed from there on, until the next loss, is shifted by the
  bytes lost, while copies that were in memory or in the cache directory are served as they are
  (`Drift.StreamToShifts`, `Drift.AheadReadsComeFrom`).
- The cluster cache is called LRU, but a hit does not move an entry: it is first-in first-out
  (`ClusterCache.HitsDoNotRefresh`). The two agree on a run of requests exactly when every hit is on the
  entry stored last (`ClusterCache.IsLruIffHitsAreNewest`). The cache is keyed by host offset alone, and
  is invisible exactly when equal offsets inflate alike (`ClusterCache.TransparentIffCoherent`).
- The chunk-size loop takes the end of the stream for one more blank line. A chunked message that breaks
  off right behind a chunk's data, within the line end there, or before its first byte is therefore never
  given up; one that breaks off anywhere else is answered like a clean end, with bytes missing
  (`HttpBody.BrokenMessageHangsIff`).
- `to_bootable` is said to return always a raw Image. It does exactly when the file below the UKI layers
  is one, is recognised as gzip of one, or is a zboot kernel that holds one (`Kernel.ResultIsRawIff`). A UKI around
  any other kernel yields that kernel as it is (`Kernel.UkiResultMayNotBeRaw`), and a zboot payload is not
  unwrapped again (`Kernel.ZbootResultMayNeedMore`; exactly when that matters: `Kernel.ResultIsUnwrappedIff`).
  It is said to fail only for an unsupported codec; it also fails for three nested UKI layers, for a kernel
  section or payload outside the file and for a corrupt stream (`Kernel.ToBootableFailsIff`).
- `partition_number` takes a trailing `p` for the separator of `nvme0n1p2`, so the partitions of an sd,
  vd, hd or xvd disk are recognised exactly when its letters do not end in `p`: those of /dev/sdp or
  /dev/sdap are not (`Cmdline.DiskIsRecognisedUnlessItEndsInP`).
- The comment beside the synthesised Windows entry says nothing else on that partition boots, so it
  becomes the default. It is the default exactly when nothing is left on its partition
  (`Bootable.WindowsIsDefaultIffAlone`); on a partition that holds the boot manager and a kernel it comes
  second (`Bootable.WindowsCanBeSecond`).

- `drop_stale_entries` is said to keep the originals when it would drop everything. It keeps nothing then
  (`BootScan.AllStaleMeansNothing`; `Bootable.TheOnlyEntryIsDropped` is a filesystem).
- A URL's path is said to start always with a slash. It starts with the question mark exactly when a query
  follows the authority at once, as in `http://h?q` (`Urls.PathStartsWithSlashIff`, `Urls.QueryOnlyPath`).

## How the outside world enters

Inflate, gzip and zstd are arbitrary functions of the input bytes (a record of function values); what is
assumed of them (that more input does not change what has been emitted) is a `requires` where it is needed.
The network is an immutable body and a script of answers: everything asked for, fewer bytes, or a
failure. Files are a map from locators to bytes. A mounted filesystem is a record of readable texts,
directory listings, link targets and existing names. Text is the sequence of its UTF-8 bytes, one `char`
each, with ASCII classes for digits, letters and white space.

## Model

| member | source | states |
|---|---|---|
| ClusterMap.DecodeUndoesEncode | src/disk/qcow2.rs:199-210 | decoding a compressed-cluster descriptor returns the offset and sector count that were encoded, for cluster_bits 9 to 21 and all values that fit the fields |
| ClusterMap.CompressedBounds | src/disk/qcow2.rs:199-210 | every compressed entry decodes to 1 <= csize <= 2 clusters with offset + csize on a sector boundary, and re-encoding restores the descriptor |
| ClusterMap.EntryMeans | src/disk/qcow2.rs:211-219 | an uncompressed L2 entry by its fields: the zero flag beats the offset, offset zero is unallocated, any other offset is where the data lies; copied flag and reserved bits mean nothing |
| ClusterMap.TableMeans | src/disk/qcow2.rs:190-193 | an L1 entry points to its table by the offset field alone |
| ClusterMap.SlotMeans | src/disk/qcow2.rs:184-197 | the mapping of a guest cluster is what the eight big-endian bytes of its slot say; without a table, or behind the L1 table, it is unallocated |
| GuestDisk.WrittenClusterReads | src/disk/qcow2.rs:184-308 | what a guest byte reads as for every kind of entry written in its slot: the file's bytes, zero, the backing image's byte, or the inflation of the sectors the descriptor names |
| GuestDisk.WrittenDataReads | src/disk/qcow2.rs:184-308 | a cluster written with a host offset reads as the file's bytes at that offset |
| Common.Reads64 | src/disk/qcow2.rs:197-197 | eight bytes read in either byte order are the number written in that order |
| ClusterMap.SlotOfGuest | src/disk/qcow2.rs:184-197 | slot (i, j) of the tables serves exactly the guest cluster at its computed offset: one half of the index bijection |
| ClusterMap.GuestOfSlot | src/disk/qcow2.rs:184-197 | each cluster-aligned guest offset is the one its slot serves: the other half |
| ClusterMap.MapIsPerCluster | src/disk/qcow2.rs:184-220 | all offsets of one cluster share that cluster's mapping, moved by the distance into it |
| ClusterMap.PlainMeansNoneCompressed | src/disk/qcow2.rs:162-178 | tables without compressed entries mean that no guest offset at all maps to a compressed cluster |
| ClusterMap.CompressedSlotIsReached | src/disk/qcow2.rs:162-178 | a compressed slot is the mapping of a guest offset that the L1 table covers |
| GuestDisk.TopmostAllocatingImageDecides | src/disk/qcow2.rs:267-281 | a guest byte of a chain is the own byte of the topmost image that allocates it; past the end of a shorter lower image and at the bottom it is zero, whatever lies further down |
| GuestDisk.ServedThenZeros | src/disk/qcow2.rs:267-281 | a prefix from the backing image followed by zeros is what the guest sees over a range that crosses the backing image's end |
| GuestDisk.RunIsShown | src/disk/qcow2.rs:284-308 | bytes delivered for one run inside a cluster, by the rule of its mapping, are the guest's bytes at that position |
| DiskStack.CachedClusterIsInflation | src/disk/qcow2.rs:222-265 | a decompression keeps every cached cluster the inflation of a descriptor with its key, and with fair keys answers as if there were no cache |
| DiskStack.Qcow2.InflateCluster | src/disk/qcow2.rs:236-257 | the inflate loop yields exactly one cluster's bytes, or the decompression error when the input yields less |
| DiskStack.Qcow2.DecompressCluster | src/disk/qcow2.rs:222-265 | result and new cache are those of the sequential cache step; the cache stays within its bound |
| DiskStack.Qcow2.MapAt | src/disk/qcow2.rs:184-220 | reading the L2 entry from the device gives the mapping defined on the host's bytes, or the host's error |
| DiskStack.Qcow2.ReadBacking | src/disk/qcow2.rs:267-281 | fills an unallocated range with what the backing image shows there and zeros past its end or without one |
| DiskStack.Qcow2.ReadRun | src/disk/qcow2.rs:284-308 | one turn of the read loop delivers the guest's bytes of a range inside one cluster and touches nothing else in the buffer |
| DiskStack.Qcow2.ReadInto | src/disk/qcow2.rs:284-308 | a successful read of any length leaves the guest's bytes in the buffer, cluster boundaries and all mappings included; out of bounds is refused before anything is written; on local files a failure means an unreadable byte in the range |
| DiskStack.Qcow2.HasCompressedClusters | src/disk/qcow2.rs:162-178 | an Ok answer is true exactly when some guest cluster covered by the L1 table maps to a compressed cluster |
| DiskStack.DiskImage.ReadInto | src/disk/mod.rs:72-78 | dispatch keeps the promise of the image it dispatches to: a read shows the chain's guest bytes |
| DiskStack.Slice.ReadInto | src/blockdev.rs:70-79 | a partition window returns the guest's bytes shifted by its start and refuses what lies outside it |
| StreamAdapter.IoAdapter.Read | src/blockdev.rs:95-108 | delivers the device's bytes at the position up to its end, moves the position over exactly those, and not at all on an error |
| StreamAdapter.IoAdapter.Seek | src/blockdev.rs:110-125 | moves to the target, or fails and stays when it lies before the start or beyond 64 bits |
| BackingChain.OpenAtDepth | src/disk/mod.rs:28-52 | opening terminates for every set of files and yields chains no longer than the depth cap leaves room for |
| BackingChain.OpensIffChainEnds | src/disk/mod.rs:28-52 | opening succeeds exactly when following the references ends within the cap with every file on the way opening by itself |
| BackingChain.ResolvedWhere | src/source/mod.rs:74-87 | a backing name that is a URL, or absolute beside a local image, stands for itself; any other is looked for in the directory of the image that names it |
| BackingChain.CyclesAreRefused | src/disk/mod.rs:28-52 | a chain that returns to a file it has visited never opens |
| BackingChain.HeaderIsAcceptedIff | src/disk/qcow2.rs:55-144 | a header is accepted exactly for version 2 or 3, no encryption, no feature flag but the dirty bit, cluster_bits 9 to 21, and backing name (at most 1023 bytes) and L1 table inside the file; the opened image then has the file's size, name and L1 entries |
| DiskOpen.ReadHeader | src/disk/qcow2.rs:55-144 | reading the header piece by piece from a device in step gives what the host's bytes say |
| DiskOpen.Open | src/disk/mod.rs:28-52 | what opens is the chain that the files describe, freshly allocated and in step; on local files it fails exactly when, and as, the description does |
| ClusterCache.RunKeepsInv | src/disk/qcow2.rs:222-265 | in every state of every interleaving of lookups, inflations and inserts the cache is bounded and all cached or carried data is the inflation of a request for its key |
| ClusterCache.CacheIsBounded | src/disk/qcow2.rs:222-265 | the cache never exceeds its capacity under any interleaving |
| ClusterCache.TransparentIffCoherent | src/disk/qcow2.rs:222-265 | readers cannot tell the cache is there, under every interleaving, exactly when no two requests for one host offset inflate differently |
| ClusterCache.SequentialKeysStayDistinct | src/disk/qcow2.rs:222-265 | runs of calls that do not overlap never cache one key twice |
| ClusterCache.ConcurrentKeysCanRepeat | src/disk/qcow2.rs:222-265 | two readers that both miss both insert, so overlapping calls can |
| ClusterCache.StoreKeepsDistinctIff | src/disk/qcow2.rs:258-264 | storing keeps keys distinct exactly when no entry that survives the eviction has the key |
| ClusterCache.TouchIsIdleIff | src/disk/qcow2.rs:222-231 | moving a hit to the back, as LRU would, changes nothing exactly when the hit is on the newest entry |
| ClusterCache.IsLruIffHitsAreNewest | src/disk/qcow2.rs:222-265 | over any run of requests the cache is the one LRU would hold, at every step, exactly when every hit is on the newest entry |
| ClusterCache.HitsDoNotRefresh | src/disk/qcow2.rs:222-265 | eviction is by age of insertion: a key hit a moment ago is the one dropped |
| Remote.EnsureKeepsGood | src/source/remote.rs:99-142 | one `ensure` keeps every filled chunk and right-length cache file equal to the remote slice; the whole invariant survives exactly when the stream position does, always on success and with range support |
| Remote.ReadReturnsRemoteBytes | src/source/remote.rs:154-177 | a successful read returns the remote bytes at that offset |
| Remote.RunsReturnRemoteBytes | src/source/remote.rs:99-177 | in every run of reads, over any network schedule and any honest disk cache, each successful read returns the remote bytes, given range support or no earlier network failure |
| Remote.FailedChunkLosesStepIff | src/source/remote.rs:121-138 | when streaming fails on a chunk, the reader stays in step exactly when the connection failed before delivering anything of it |
| Drift.StreamToShifts | src/source/remote.rs:126-138 | from d bytes ahead, streaming stores every chunk it reaches shifted by d, touches no other, and cannot pass a chunk whose shifted range ends behind the body |
| Drift.LastChunkNeverArrives | src/source/remote.rs:126-138 | a reader that is ahead can never stream the last chunk, however reliable the network |
| Drift.FailureExtendsLead | src/source/remote.rs:126-138 | stopping on a chunk, from any lead, leaves the reader at least as far ahead, and farther exactly when something had been delivered of a chunk that still fitted |
| Drift.AheadReadsComeFrom | src/source/remote.rs:99-177 | from any reader d bytes ahead, whatever it holds and whatever is in its cache directory: each byte of a successful read is the one d further on, or that of a copy of its chunk that was there before |
| Drift.NewReadsAreShifted | src/source/remote.rs:99-177 | a successful read of chunks without such a copy returns the bytes d further on, so it is right exactly when the body repeats itself there |
| Drift.RunsShiftWithinLead | src/source/remote.rs:99-177 | after any run with whatever losses every chunk held or cached is shifted by some lead up to the current one, the lead never shrinks, and no answered byte lies further on than that |
| Drift.LostRunsStayLost | src/source/remote.rs:99-177 | no run of reads finds a lost place again |
| Drift.RunKeepsGoodIff | src/source/remote.rs:99-177 | after any run the whole invariant holds exactly when the stream is in step, and exactly when no read stopped inside a chunk of which something had been delivered |
| Drift.ReadsInStepAreRight | src/source/remote.rs:99-177 | in every run a successful read returns the remote bytes unless an earlier one lost bytes; other failures do no harm |
| Remote.FailedStreamReadShiftsLaterChunks | src/source/remote.rs:127-134 | a concrete run in which a read after a failed one succeeds with wrong bytes and stores them in the disk cache |
| Remote.ReadsAreLazy | src/source/remote.rs:154-177 | a read leaves alone chunks behind the last it touches and, with range support, those before the first |
| Remote.ReliableReadsSucceed | src/source/remote.rs:99-177 | on a network that never fails a read succeeds exactly when it is in bounds, however short the stream reads are |
| Remote.FreshIsGood | src/source/remote.rs:70-88 | a new reader satisfies the invariant when right-length cache files are honest |
| RemoteDevice.RemoteReader.Build | src/source/remote.rs:70-88 | an empty image is refused; otherwise the new reader holds no chunk and no stream |
| RemoteDevice.RemoteReader.FillBuffer | src/source/remote.rs:218-228 | fills the whole buffer from the open stream, or fails having moved the stream as the specification says |
| RemoteDevice.RemoteReader.EnsureChunk | src/source/remote.rs:99-142 | the reader's new state and its success are those of the specification of `ensure` |
| RemoteDevice.RemoteReader.ReadInto | src/source/remote.rs:154-177 | new state, result and buffer are those of the specification of `read_at`; nothing outside the range is written |
| HttpBody.FreshChunked | src/source/http.rs:195-203 | a reader opened on chunks in any hexadecimal spelling, padding and extension text yields exactly their joined payload |
| HttpBody.SizeRoundTrip | src/source/http.rs:406-408 | a chunk size is the number that its hexadecimal digits spell, in lower and upper case |
| HttpBody.ReadStep | src/source/http.rs:362-419 | one read hands out the next bytes of the payload, at least one while some remain and the buffer has room, and leaves a reader that yields the rest |
| HttpBody.ReadsYieldPayload | src/source/http.rs:362-419 | for every schedule of short reads and buffer sizes the answers join up to a prefix of the payload, and to all of it after enough reads: decoding undoes encoding (section 7.1 of RFC 9112) |
| HttpBody.NothingFollows | src/source/http.rs:362-419 | once the payload is out every further read answers with nothing |
| HttpBody.ReadFullTakesPrefix | src/source/http.rs:431-441 | filling a buffer takes exactly the next bytes of the payload, and fails when there are fewer |
| HttpBody.SizeLineSpinsIffBlank | src/source/http.rs:398-404 | the size-line loop never returns exactly when the rest of the stream holds nothing but line ends |
| HttpBody.ReadSpinsIff | src/source/http.rs:362-418 | one read never returns exactly when a chunk's size is due and only line ends are left |
| HttpBody.CutHangsIff | src/source/http.rs:362-418 | from any point of a chunked body that breaks off anywhere, for all short reads and buffer sizes: part of the payload is delivered, then the first answer without data hangs exactly when a size is due at the cut, and is a clean end otherwise |
| HttpBody.BrokenMessageHangsIff | src/source/http.rs:362-418 | the same for a message from its start: it hangs exactly when cut before the first byte, right behind a chunk's data or within the line end there |
| HttpBody.BodyReader.Line | src/source/http.rs:421-429 | reading up to a line feed takes as many reads of the connection as needed, and an error loses what had arrived of the line |
| HttpBody.BodyReader.NextLine | src/source/http.rs:398-404 | the loop over the connection's lines finds the specified line, or reports that it would never end |
| HttpBody.BodyReader.ReadChunkedInto | src/source/http.rs:394-418 | object state, answer and buffer are those of the specification of a chunked read |
| HttpBody.BodyReader.ReadInto | src/source/http.rs:362-391 | the same for a read under any framing |
| HttpBody.BodyReader.FillBuffer | src/source/http.rs:431-441 | the loop of `read_full` fills the buffer as its specification says |
| Urls.ParseUndoesDisplayIff | src/source/http.rs:104-139 | parsing the displayed form returns the same URL exactly for the well-formed ones (colons in hosts, default ports and query-only paths included) |
| Urls.ParsesAsSpelled | src/source/http.rs:104-139 | every part of a URL is read as written: userinfo and fragment dropped, port 443 or 80 when missing, path a slash when missing, hosts with colons before an explicit port |
| Urls.ParsedIsWellFormed | src/source/http.rs:104-139 | whatever parses is well formed |
| Urls.PathStartsWithSlashIff | src/source/http.rs:99-139 | the parsed path starts with a slash exactly when no query follows the authority at once, else with the question mark |
| Urls.QueryOnlyPath | src/source/http.rs:113-139 | the path of http://h?q is ?q |
| Urls.DisplayIsFaithful | src/source/http.rs:159-162 | for every string that parses, display and parse again give the same URL |
| Grub.SplitWords | src/boot/grub.rs:296-319 | the character loop yields the words that the quoting round trip is about; none is empty |
| Grub.WordsUndoSpelling | src/boot/grub.rs:296-319 | words written bare or between single quotes, with blanks between them, come back as they were, blanks inside quotes included |
| Grub.CleanPathMeans | src/boot/grub.rs:284-294 | a device in front of a path is dropped and a relative path starts at the root |
| Grub.KernelLineMeans | src/boot/grub.rs:74-82 | linux, linux16 and linuxefi name the kernel; the rest of the line, expanded and trimmed, is the command line |
| Grub.InitrdLineMeans | src/boot/grub.rs:83-85 | initrd, initrd16 and initrdefi replace the list of initrds |
| Grub.ChainloaderLineMeans | src/boot/grub.rs:86-98 | chainloader names its first word that is no option, a block list verbatim and a path cleaned |
| Grub.UsesBlsIff | src/boot/grub.rs:156-158 | a grub.cfg uses BLS exactly when some line outside all entries has the word blscfg |
| BootEntries.ExpandsName | src/boot/mod.rs:367-402 | `$name` becomes the value of the longest name there, or nothing |
| BootEntries.ExpandsBraces | src/boot/mod.rs:367-402 | `${name}` becomes the value of the name up to the brace, or nothing |
| Grub.StepDescribes | src/boot/grub.rs:60-177 | each line takes a state that describes a menu tree to one that describes a menu tree: same entries, numbering, submenus and nesting |
| Grub.RunDescribes | src/boot/grub.rs:47-180 | after every prefix of every text, stray braces, nested submenus and open blocks included, the state describes a menu tree |
| Grub.ParserNumbersEntries | src/boot/grub.rs:47-180 | the (top, sub) keys increase strictly, and the children of each submenu are numbered 0, 1, 2, ... without gaps |
| Grub.BlocksNest | src/boot/grub.rs:53-180 | submenu depth < menuentry depth < current depth whenever those blocks are open |
| GrubDefault.ParseStr | src/boot/grub.rs:47-188 | the loop over the lines, with its six variables, ends in the entries, default and BLS flag of the specified machine |
| GrubRender.ParseUndoesRender | src/boot/grub.rs:47-188 | a menu of entries and submenus written in grub-mkconfig's layout is read back as that tree: same entries with kernel, command line and initrds, same submenus, each entry numbered by its place, nothing left open |
| GrubRender.ParsedTextIsTheMenu | src/boot/grub.rs:47-188 | from the text of such a file with a `set default="..."` line: the entries of the tree in order, the default that the expanded value names in the tree, no BLS |
| GrubRender.SavedEntryIsTheDefault | src/boot/grub.rs:47-188 | with grub-mkconfig's `${saved_entry}` the default is what the environment's saved entry names in the tree, item 0 when nothing is saved |
| Grub.HalfQuoted | src/boot/grub.rs:296-319 | a word that goes on between double quotes is one word without them |
| GrubRender.WrittenDefault | src/boot/grub.rs:200-282 | any `default` spec resolves in the written file to what it names in the tree |
| GrubDefault.ResolvesInMenu | src/boot/grub.rs:200-282 | searching the numbered list gives, for every menu and every `default` spec, what looking the path up in the tree one level at a time gives |
| GrubDefault.DefaultIsInRange | src/boot/grub.rs:200-282 | the default is an index into the entries and absent exactly for an empty menu |
| GrubDefault.PathSelectsChild | src/boot/grub.rs:200-282 | `N>M`, `id>id` and mixtures select exactly the child they name |
| GrubDefault.SubmenuAloneSelectsFirstChild | src/boot/grub.rs:200-282 | a submenu's name or index alone selects its child number 0, unless an entry has that name |
| GrubDefault.ComponentsOf | src/boot/grub.rs:200-215 | a path's components are what is between its angle brackets, trimmed; an empty spec is 0 |
| GrubDefault.NumbersSelect | src/boot/grub.rs:200-282 | the text `N>M` selects child M of item N of every menu |
| GrubDefault.NameSelects | src/boot/grub.rs:200-282 | a name alone is the first entry with that id, else the first with that title |
| GrubDefault.ParsedDefaultIsTheMenus | src/boot/grub.rs:47-188 | for every text there is a menu tree whose entries are those returned and in which the returned default is what the `default` setting names |
| Vercmp.Scan | src/boot/vercmp.rs:32-56 | the nested scanning loops yield the specified segments |
| Vercmp.SegmentsAreWholeRuns | src/boot/vercmp.rs:32-56 | segments are whole runs of digits or letters, and other characters only separate |
| Vercmp.OlderIff | src/boot/vercmp.rs:9-62 | a version is older exactly when, at the first run where the two differ, it has ended, or has the smaller number, the letters that come first in a dictionary, or letters against a number |
| Vercmp.TenIsNewerThanNine | src/boot/vercmp.rs:9-28 | 6.9 is older than 6.10 |
| Vercmp.SegmentsKeepEverything | src/boot/vercmp.rs:32-56 | segmenting drops separators and nothing else |
| Vercmp.Vercmp | src/boot/vercmp.rs:9-28 | the comparison loop with its early return decides the specified order |
| Vercmp.NumericByValue | src/boot/vercmp.rs:58-62 | digit segments of any length compare as their numeric values |
| Vercmp.CompareIsByKeys | src/boot/vercmp.rs:9-62 | the order is the lexicographic order of lists of numbers and letter groups, letters below numbers |
| Vercmp.CompareIsTotalPreorder | src/boot/vercmp.rs:9-62 | reversal symmetry, transitivity, and equality a congruence, on all strings |
| Vercmp.EqualIffSameSegments | src/boot/vercmp.rs:9-62 | equal exactly when the segment lists agree up to leading zeros |
| NewestFirst.SortIsStable | src/boot/bls.rs:72-78 | the sort puts newer versions first, loses and adds nothing, and keeps the order of equal versions |
| NewestFirst.StableOrderIsUnique | src/boot/mod.rs:452-456 | only one list is sorted newest first with equals in their order, so the sort is well defined |
| Glob.MatchIsConcatenation | src/boot/bls.rs:109-120 | a concatenated pattern matches exactly the strings that split into a match of each part |
| Glob.OneCharacterPatterns | src/boot/bls.rs:109-120 | `*` matches everything, `?` any one byte, any other byte itself; with concatenation this determines every pattern |
| Glob.PlainMatchesOnlyItself | src/boot/bls.rs:109-120 | a pattern without wildcards matches only itself |
| Bls.ParseConf | src/boot/bls.rs:41-68 | the loop over a file's lines yields the entry whose meaning `Bls.ConfMeans` states |
| Bls.ConfMeans | src/boot/bls.rs:41-68 | the last title, version and linux lines count, the initrds are the paths of all initrd lines in order, the command line is the trimmed join of all expanded options, and nothing else in the file has any effect |
| Bls.ConfIsListed | src/boot/bls.rs:32-78 | every readable file `stem.conf` becomes one entry of that stem, sorted by its version or else by its stem |
| Bls.ItemIsAConf | src/boot/bls.rs:32-70 | there are no other entries |
| Bls.SavedIff | src/boot/bls.rs:80-103 | the saved entry is found under its own stem or with a boot counter behind it |
| Bls.ParseDir | src/boot/bls.rs:23-98 | the loop over the listing, the sort and the choice of the default yield the specified scan |
| Bls.FirstIsNewest | src/boot/bls.rs:80-95 | the first sorted item with a property is a newest of the listed ones that have it |
| Bls.DefaultIsNewestCandidate | src/boot/bls.rs:80-95 | the default is a newest of the saved entry's files, else of those the loader.conf pattern matches, else of all, whatever order the directory lists them in |
| Extlinux.ParseStr | src/boot/extlinux.rs:23-89 | the loop over the lines ends in the specified entries and default |
| Extlinux.LineMeans | src/boot/extlinux.rs:28-33 | a line is its keyword in lower case and the rest, however indented and spaced; a bare word is nothing |
| Extlinux.KernelMeans | src/boot/extlinux.rs:48-52 | a kernel path is taken as it is when absolute, else from the configuration's directory |
| Extlinux.InitrdMeans | src/boot/extlinux.rs:53-57 | initrd adds the paths between its commas, in order |
| Extlinux.AppendMeans | src/boot/extlinux.rs:58-75 | append is the command line without its `initrd=` word, whose paths are added to the initrds |
| Extlinux.LabelsAreEntries | src/boot/extlinux.rs:23-89 | every label becomes one entry that carries it, in order, and the last `default` line is the one that counts |
| Extlinux.DefaultIsFirstOfLabel | src/boot/extlinux.rs:83-88 | the default is the first entry of that label, else the first entry, and absent exactly for an empty menu |
| Extlinux.BlocksAreIndependent | src/boot/extlinux.rs:23-81 | a configuration cut at a label parses as its two parts one after the other |
| Fallback.FallbackScan | src/boot/mod.rs:404-474 | the loops over prefixes and listings, the sort and the link lookup yield the specified scan |
| Fallback.KernelVersionIff | src/boot/mod.rs:419-425 | a kernel's name is vmlinuz- or Image- and its version |
| Fallback.InitrdVersionMeans | src/boot/mod.rs:426-433 | an initramfs is initramfs- or initrd- and the version, perhaps with .img behind, or initrd.img- and the version |
| Fallback.KernelsAreListed | src/boot/mod.rs:411-425 | every kernel file of a directory that is no rescue or kdump image is found, and no other |
| Fallback.SpecialIff | src/boot/mod.rs:421-424 | rescue and kdump images have that word anywhere in their version |
| Fallback.ItemsArePlain | src/boot/mod.rs:406-450 | every entry has a kernel that is not a rescue or kdump image and at most one initramfs |
| Fallback.ItemsArePaired | src/boot/mod.rs:433-449 | the initramfs of an entry is the first one of the kernel's version in the kernel's directory, and it has none only when no file there is one |
| Fallback.DefaultIsLinkedElseNewest | src/boot/mod.rs:452-474 | the default is what the /vmlinuz link, else the /boot/vmlinuz link, names when an entry has that kernel, else a newest entry |
| Sweep.RetainKeepsOrder | src/boot/mod.rs:267-285 | a sweep keeps exactly the marked entries, each at the number of marked entries before it |
| Sweep.RetainCarriesDefault | src/boot/mod.rs:267-285 | the default follows its entry, else is the first survivor, and is absent exactly without survivors |
| Sweep.TwoSweepsAreOne | src/boot/mod.rs:267-285 | two sweeps in sequence are one sweep with the conjunction of the masks, default included |
| BootScan.ScanFiles | src/boot/mod.rs:158-250 | the loops over configuration paths, the choice of source and the sweep yield the specified scan |
| BootScan.EnvLineMeans | src/boot/grubenv.rs:27-38 | a line key=value of the environment block sets that variable, whatever padding follows; lines that start with a hash mark do not count |
| BootScan.DefaultLineMeans | src/boot/mod.rs:252-265 | the first default line of loader.conf names the default, with or without .conf |
| BootScan.FirstGrubIs | src/boot/mod.rs:182-194 | the grub.cfg that counts is the first that is there and declares entries |
| BootScan.FirstExtlinuxIs | src/boot/mod.rs:211-227 | the same for extlinux and syslinux configurations |
| BootScan.UsesBlsIff | src/boot/mod.rs:182-194 | BLS is handed over to exactly when some grub.cfg that is there says so |
| BootScan.EfiPathsIff | src/boot/mod.rs:171-181 | a grub.cfg is looked for in exactly the vendor directories of the EFI partition |
| BootScan.RootBeforeBoot | src/boot/mod.rs:196-207 | the root's BLS directory and loader.conf come before those of /boot |
| BootScan.KeptIffAlive | src/boot/mod.rs:290-315 | an entry of the source that counts is kept exactly when it chainloads or its kernel is there |
| BootScan.ChosenDefaultOk | src/boot/mod.rs:230-245 | all four sources give a default in range, and all entries come from the one source that counts |
| BootScan.ScanIsSound | src/boot/mod.rs:158-315 | whatever is on the filesystem: default in range, one source, no Windows entry yet, and each entry chainloads or has a kernel that exists |
| BootScan.AllStaleMeansNothing | src/boot/mod.rs:287-315 | a scan is empty exactly when no entry of the source that counts has its kernel or chainloads |
| Bootable.TheOnlyEntryIsDropped | src/boot/mod.rs:287-315 | a filesystem whose only entry has lost its kernel: the scan is empty |
| BootScan.ScanKeepsTheDefault | src/boot/mod.rs:287-315 | the entry that would boot is the source's own default if its kernel exists, else the first of the source whose kernel does |
| Guest.UriRoundTrip | src/guest.rs:311-323 | partition and path can be read back from a URI, whatever the path holds |
| Guest.SameFileIsSameName | src/guest.rs:325-333 | two paths name the same file exactly when their last components agree, case ignored and separators unified |
| Guest.FindOnDisk | src/guest.rs:335-351 | the loop over the components finds the specified path |
| Guest.WalkDisk | src/guest.rs:199-309 | the loop over the partitions, with its variables, ends in the specified walk |
| Guest.VisitsInOrder | src/guest.rs:221-282 | every partition that can be read is listed in its place with the scan of its own filesystem, and no other |
| Guest.MountedIsListed | src/guest.rs:252-279 | a mounted partition is listed with its own scan wherever it comes in the table |
| Guest.WindowsIff | src/guest.rs:284-308 | a disk is called Windows exactly when it has a boot manager, its configuration store, an NTFS volume or a partition type of Windows; its architecture is the first a boot manager has |
| Guest.VerdictRestsOnFirstFinds | src/guest.rs:284-308 | UEFI by the first boot manager found, BIOS by the first NTFS volume that loads Windows and only under Windows' MBR bootstrap; both, one or none of them make the verdict Both, Uefi, Bios or none |
| Guest.VisitsListAll | src/guest.rs:221-282 | every readable partition is listed, with a sound scan |
| Bootable.MarkEntries | src/guest.rs:104-121 | the loop resolves, marks and notes declared entries as specified |
| Bootable.BootableParts | src/guest.rs:94-159 | the sweep over all partitions, the merge and the final filter yield the specified answer |
| Bootable.KeptChainloaders | src/guest.rs:99-120 | a chainloader item is kept exactly when a boot manager was found and the file it names is called bootmgfw.efi, in any case and directory |
| Bootable.MountedIsReturned | src/guest.rs:94-159 | a mounted partition with an entry left is in the answer with the entries and default that its own configuration leaves |
| Bootable.ResultIsAPartition | src/guest.rs:94-159 | everything in the answer is a partition with what its own configuration leaves, perhaps with Windows added |
| Bootable.FilterKeepsOrder | src/guest.rs:157-157 | the last filter keeps the partitions in order |
| Bootable.HostIsFirstManager | src/guest.rs:133-137 | Windows hangs on the partition of the first boot manager, else on the BIOS system volume |
| Bootable.ChainloaderStartsManager | src/guest.rs:108-118 | a kept chainloader item starts the first boot manager under UEFI with the first architecture found, and is otherwise as declared |
| Bootable.AddedEntryMeans | src/guest.rs:141-151 | the added entry has no kernel and names the firmware, loader and architecture found |
| Bootable.HostIsListed | src/guest.rs:128-140 | whenever Windows boots, the partition its entry hangs on is among those listed |
| Bootable.BootableIsSound | src/guest.rs:94-159 | every returned partition has entries and a default among them, each entry has a kernel or a Windows target, and Windows is added exactly once when it boots undeclared and never otherwise |
| Bootable.PartitionIsOneSweep | src/guest.rs:102-126 | from the source's entries to the answer, the two sweeps amount to one by the conjunction of the reasons to stay, default included |
| Bootable.DeclaredEntriesAreReturned | src/guest.rs:128-158 | no startable declared entry is lost, moved or replaced as the default after the sweep |
| Bootable.WindowsIsDefaultIffAlone | src/guest.rs:128-158 | when Windows boots undeclared, its entry is returned last on its host partition, behind all that is left there, and is the default exactly when nothing is |
| Bootable.WindowsCanBeSecond | src/guest.rs:152-153 | a disk whose one partition holds a kernel and the boot manager: Windows comes second and is not the default |
| Partitions.ScanMbrTable | src/part/mbr.rs:52-138 | the loops over slots and extended boot records yield the specified table |
| Partitions.LogicalsAreConsecutive | src/part/mbr.rs:94-138 | however the records are linked, cycles included, logical partitions are numbered consecutively, at most one per record visited |
| Partitions.SelfLinkHitsCap | src/part/mbr.rs:94-138 | a record linked to itself is read until the cap and no further |
| Partitions.MbrNumbering | src/part/mbr.rs:52-138 | numbers increase strictly, primaries 1 to 4 and logicals from 5 without gaps; PARTUUIDs are pairwise distinct with a disk signature and absent without one |
| Partitions.PrimaryMeans | src/part/mbr.rs:36-105 | slot i holds partition i+1 exactly when its type and length say so; start and size are the sector numbers in its bytes |
| Partitions.FirstLogicalMeans | src/part/mbr.rs:107-130 | the first logical partition starts that many sectors behind its record and has the length in it |
| Partitions.LinkMeans | src/part/mbr.rs:131-136 | a link leads to the record that many sectors behind the start of the extended partition |
| Partitions.ExtendedMeans | src/part/mbr.rs:87-90 | the extended partition is the last slot of such a type that has a length |
| Partitions.MbrUuidMeans | src/part/mbr.rs:76-80 | a PARTUUID is the signature's eight hexadecimal digits, a hyphen, and the number in two |
| Partitions.GuidText | src/part/gpt.rs:48-54 | the text of a GUID group by group: three little-endian numbers, then bytes in order |
| Partitions.GptHeaderMeans | src/part/gpt.rs:57-81 | the header's bytes say where the slots start, how many there are and how long each is; what is refused, and what is no GPT |
| Partitions.GptSlotMeans | src/part/gpt.rs:83-128 | slot i holds partition i+1 exactly when its type is not zero and it does not end before it starts; it reaches from its first sector to its last, both included |
| Partitions.TablePriority | src/part/mod.rs:71-91 | a GPT counts before an MBR, and a disk without either is one partition |
| Partitions.MbrIff | src/part/mbr.rs:52-145 | a disk has an MBR exactly when its first sector is signed, some slot is plausible and some partition comes out of it |
| Partitions.FormatGuidInjective | src/part/gpt.rs:48-54 | different GUIDs have different texts (section 5.3.3 of the UEFI Specification) |
| Partitions.ScanGptTable | src/part/gpt.rs:57-131 | the loop over the slots yields the specified table, nothing without a signature, or an error for an implausible or unreadable one; an empty table may lie anywhere in a raw file |
| Partitions.GptNumbering | src/part/gpt.rs:83-128 | GPT numbers increase strictly with the slots |
| Partitions.ScannedTables | src/part/mod.rs:71-91 | every table a scan returns is numbered strictly increasing, with PARTUUIDs free of whitespace |
| Partitions.LookupIsUnique | src/vdafix.rs:49-49 | looking up a number finds the one partition that has it |
| Cmdline.Fix | src/vdafix.rs:20-41 | the loop rewrites token by token, copies whitespace, and answers None exactly when no token is fixable |
| Cmdline.FixedByItsPartition | src/vdafix.rs:43-52 | root= or resume= with a device that is partition k becomes the PARTUUID of partition k |
| Cmdline.FixedOnlyThen | src/vdafix.rs:43-52 | a token is rewritten exactly for those keys, a device with a number of the table, and a partition with a PARTUUID |
| Cmdline.FixedOnScannedDisk | src/vdafix.rs:43-52 | for every disk the scanner reads a token that names partition k gets partition k's PARTUUID |
| Cmdline.NumberIffNamed | src/vdafix.rs:58-81 | a device path has number n exactly when it is /dev/, a recognised disk name and a decimal spelling of n |
| Cmdline.DiskIsRecognisedUnlessItEndsInP | src/vdafix.rs:58-81 | a numbered partition of an sd, vd, hd or xvd disk with any letters is recognised exactly when the letters do not end in p |
| Cmdline.SeparatedNames | src/vdafix.rs:72-75 | in front of the separator p exactly the names that start with nvme or mmcblk are recognised |
| Cmdline.FixedTokenIsFinal | src/vdafix.rs:43-52 | a rewritten token is one token again and is left alone from then on |
| Cmdline.FixKeepsLayoutAndIsIdempotent | src/vdafix.rs:20-52 | the output has the same whitespace runs and number of tokens, each unchanged or in PARTUUID form, and is not rewritten again |
| Cmdline.FixOnScannedTables | src/vdafix.rs:20-52 | this holds for every table the scanner can produce, and there each number names one partition |
| Kernel.SectionOfPrefix | src/kernel.rs:119-140 | a `.linux` section seen in a prefix is where it is in the whole file |
| Kernel.FirstLinuxHeader | src/kernel.rs:119-140 | the kernel lies where the first header named .linux says: pointer at 20, size at 16 |
| Kernel.WrittenUkiHoldsKernel | src/kernel.rs:119-140 | whatever kernel is put into a UKI, behind whatever gap, is the one found in it |
| Kernel.WrittenUkiUnwraps | src/kernel.rs:189-222 | unwrapping a written UKI goes on with exactly the bytes put in |
| Kernel.WrittenZbootUnwraps | src/kernel.rs:233-256 | whatever payload is put into a zboot file is the one decoded, by the codec it names |
| Kernel.GzipUnwraps | src/kernel.rs:189-231 | a gzip stream of an arm64 Image is replaced by what it inflates to |
| Kernel.RawImageStays | src/kernel.rs:167-170 | a raw Image is left as it is |
| Kernel.SniffIsStable | src/kernel.rs:167-185 | a wrapper recognised on at least 60 bytes is the wrapper of the whole file |
| Kernel.ShortSniffMisleads | src/kernel.rs:167-185 | the bound of 60 bytes is sharp: on 59 a raw Image can pass for a zboot kernel (callers pass far longer prefixes) |
| Kernel.ToBootableExactly | src/kernel.rs:189-222 | unwrapping succeeds with r exactly when fewer than three UKI layers enclose a file that opens to r |
| Kernel.ResultIsFinal | src/kernel.rs:189-222 | a result reached without a zboot layer is a fixed point, and after a gzip layer a raw Image |
| Kernel.ToBootableFailsIff | src/kernel.rs:186-256 | unwrapping fails exactly when three UKI layers are nested or one of the first three layers is bad: a kernel section or payload outside the file, a corrupt stream, or a codec other than gzip and zstd |
| Kernel.ResultIsRawIff | src/kernel.rs:189-222 | the result is a raw Image exactly when the file below the UKI layers is one, is recognised as gzip of one, or is a zboot kernel whose gzip payload starts one or whose zstd payload decodes to one |
| Kernel.ResultIsUnwrappedIff | src/kernel.rs:189-222 | the result needs no more unwrapping exactly when the file below the UKI layers is not a zboot kernel or its decoded payload is not itself wrapped |
| Kernel.UkiResultMayNotBeRaw | src/kernel.rs:203-220 | a UKI around something other than an arm64 kernel unwraps to what is no raw Image |
| Kernel.ZbootResultMayNeedMore | src/kernel.rs:189-256 | a zboot payload that is wrapped again is returned as it is |

## Left out

- Remote.RunsReturnRemoteBytes: without range support it asks that no earlier read of the run failed, which a caller can see; the exact condition is that of Drift.ReadsInStepAreRight and Drift.RunKeepsGoodIff.
- GrubRender.ParseUndoesRender: it is about entries with one linux and one initrd line, titles and ids without single quotes, and other words without quotes, variables or a final brace; other texts are covered by Grub.RunDescribes.
- Bootable.DeclaredEntriesAreReturned: it asks for a default in range in the walk's own scan, which every walk has (`Bootable.WalkIsOk`).
- Sockets, TLS, DNS, retries, redirects, timeouts, request headers, `framing_of` and `Url::join`: foreign calls and timing, or direct case lists.
- The insides of inflate, gzip, zstd and md5, and the readers of ext4 and FAT: arbitrary functions and records here.
- The trait `ReadAt` is dispatch over datatypes (file or remote reader; raw, QCOW2); locks appear only in `ClusterCache`, the imperative reader runs one call at a time.
- Wrap-around of 64-bit sums of table offsets (`start + offset`, `first + count`): integers are unbounded there; field widths and masks are modelled.
- I/O errors of local files other than reads past their end, and failures to write the disk cache.
- Collected configuration paths, evidence lines, partition type names, PE machine tables, error texts, progress output.
- The `dma_restricted_pool` lookup, the interactive shell, the command line and the JSON listing.
- Unicode: white space, digits and letter case are those of ASCII, and text decoding is taken as done.
