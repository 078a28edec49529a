# TanjaOS, verified in Dafny

TanjaOS is a small 32-bit kernel with its own file system, on-disk Storefile, TCP
client, virtio network driver, heap, editor and C library. This project models the
parts of it where state, wrap-around arithmetic and several layers meet, and proves
what they promise.

* **Storage** (`FilePool`, `Files`, `Paths`, `Tree`, `TreeRuns`,
  `RootDelete`, `Meaning`, `FileSystem`, `Image`, `Reachable`, `Disk`, `Load`, `Store`,
  `Session`). The first-fit pool keeps a tiling without
  adjacent free blocks; the file table on top of it never loses or mixes bytes; the
  name tables stay a tree in every run and mean finite maps from paths to files and
  directories, which each call updates as its name says; recursive delete removes exactly one subtree;
  and a save through the 64 KiB batch writer, followed by a boot through the windowed
  reader, gives back the same tables exactly when the files fit a fresh pool in slot
  order. Every save fits its region and stays inside it.
* **TCP receive path** (`Tcp`, `TcpRuns`, `TcpAnswers`). For every run of dropped, repeated,
  reordered or re-sliced segments the reader gets a prefix of the peer's stream, the
  advertised right edge never retreats, and each segment and read is answered as stated:
  exactly which FIN, acknowledgement number and SYN+ACK counts, and what is sent back.
* **virtio queues** (`Virtqueue`, `VirtioNet`, `VirtioRx`, `VirtioDriver`). Driver and
  device steps interleave in any order; buffers are never rewritten in flight and every
  completion is collected once, across the wrap of the 16-bit indices; the stack gets
  exactly the frames that arrived, and the wire exactly those that were accepted.
* **Kernel heap** (`Heap`, `Arena`). The linked block list tiles the arena, and the heap
  behaves as a finite map from live pointers to byte sequences; no call takes more than it
  was asked for, and which requests are refused is stated on the free blocks alone.
* **Editor** (`GapBuffer`, `Undo`, `Regex`). The gap buffer is a plain sequence, the two
  rings are stacks, the last six changes can be undone, and the matcher decides the language that a pattern
  spells, for certain while its stars leave enough of the budget.
* **Library algorithms** (`Glob`, `Qsort`, `Calendar`, `Utf8`).

Code that updates state in place is a class or a method over an array, proved against
a function or a predicate on values; the theorems are lemmas about those. `Words` holds
bytes and 32-bit arithmetic. A null pointer is -1 and addresses are offsets.

Where the code does not do what one would expect, the model follows the code and a lemma
gives the exact condition or a concrete case:

* recursive delete reads directory listings back as text, so a name with a newline can make
  it leave the directory (`TreeRuns.NewlineEscapes`); the text comes back exactly when no
  name has one (`TreeRuns.ListingExact`);
* a file system that fills the pool can fail to load again, because loading allocates
  in slot order and a rest below 24 bytes is swallowed (`Load.FullPoolReached`, exact
  condition in `Image.ReloadsExactly`);
* `abs_path` cuts at 255 characters and can then lose one more, exactly outside the
  condition of `Paths.AbsPathExact`; the result may even have an empty component
  (`Paths.TruncationBreaks`);
* a transmit queue with fewer than 16 entries can overwrite an entry the device has not
  read (`VirtioNet.SmallQueueOverwritten`);
* a repeated SYN that carries data makes the receiver skip a byte, exactly when
  `TcpRuns.SynPayloadExact` says (`TcpRuns.SynPayloadReached`);
* a FIN repeated together with data that was accepted before is not taken
  (`TcpAnswers.OldDataHidesFin`, exact condition in `TcpAnswers.FinAfterRun`);
* the root directory is protected from removal under the name "/" only; under another name,
  such as "/.", it is removed whatever it holds (`Meaning.DeleteDirectoryCodes`);
* above 2^32 sectors the address of the Storefile is cut, and the region no longer lies at
  the end of the disk (`Store.PlaceExact`);
* heap requests of more than 2^32 - 36 bytes are rounded to a small block
  (`Heap.RoundCovers`), and small requests leave blocks off the nominal 16-byte
  alignment (`Heap.RoundAligned`);
* the weekday of times before 1970 can be negative (`Calendar.WeekdayExact`);
* a failed write removes an empty file (`Meaning.WriteFileMeans`), and a failed append
  leaves behind the empty file it made (`Meaning.AppendFileMeans`).

## Model

| member | source | states |
|---|---|---|
| `TcpRuns.StreamSafety` | kernel/net.c:258-318 | for a peer stream below 2^31 bytes and any run of lost, repeated, reordered or re-sliced segments, reads, resets and closes: returned bytes followed by ring bytes are a prefix of the stream; once the connection was established, `rcv_nxt` is IRS+1+their count (+1 after FIN) mod 2^32, also after a reset; and a read can report the end only when the whole stream was returned |
| `TcpRuns.RecvReturnsStream` | kernel/net.c:364-384 | after any run, one more `tcp_recv` with any further arrivals returns the next stream bytes, and 0 for a non-empty buffer only when everything was returned |
| `TcpRuns.EdgeNeverRetreats` | kernel/net.c:246 | over any run the advertised right edge never moves left, and each acknowledgement carries the edge of the state that sent it |
| `TcpRuns.NoLossInsideWindow` | kernel/net.c:293-317 | a slice that overlaps the receive position and ends inside a window advertised at any earlier time is accepted completely |
| `TcpRuns.SynPayloadExact` | kernel/net.c:290-305 | a payload that starts at the SYN's own number keeps the stream invariant if and only if it adds nothing or the bytes it adds equal the ones it should have added |
| `TcpRuns.SynPayloadReached` | kernel/net.c:268-305 | from the start of any connection whose peer's first two bytes differ, a SYN and a repeated SYN with data make the receiver accept what is no prefix of the stream |
| `TcpRuns.CallIsRun` | kernel/net.c:364-384 | one `tcp_recv` call is a run of arrivals and at most one read, with the same final state and returned bytes |
| `TcpRuns.AckOnlyAdvances` | kernel/net.c:290-291 | whatever acknowledgement number arrives, the unacknowledged send space never grows and shrinks only to a number inside it |
| `TcpAnswers.FinAfterRun` | kernel/net.c:311-318 | after any run, a FIN of the peer behind a slice at a given offset is taken if and only if it comes alone with everything before it accepted, or the slice starts no later than the receive position, brings something new, and the rest of the stream fits the ring; then the whole stream is accepted, the state is CLOSE-WAIT, the receive position is IRS+2+length and one acknowledgement goes out |
| `TcpAnswers.FinEnds` | kernel/net.c:311-318 | that acknowledgement carries exactly this position and the window, and once the ring is drained every read returns 0 |
| `TcpAnswers.OldDataHidesFin` | kernel/net.c:304-318 | when everything was accepted and the FIN was lost, the same segment with its data again does not deliver the FIN |
| `TcpAnswers.PayloadAnswered` | kernel/net.c:293-318 | every segment with payload is answered by one acknowledgement with the current position and the room left, at most 65535 |
| `TcpAnswers.AckExact` | kernel/net.c:290-291 | an acknowledgement number becomes `snd_una` if and only if it lies above it and not past what was sent, in 32-bit arithmetic |
| `TcpAnswers.HandshakeExact` | kernel/net.c:270-288 | a SYN+ACK for our sequence number, and nothing else, establishes the connection, and is answered |
| `TcpAnswers.ResetReported` | kernel/net.c:268 | a reset closes; the ring can still be read, and then reads return -2, or 0 after a FIN |
| `TcpAnswers.ReadTakes` | kernel/net.c:368-376 | a read takes the oldest bytes, as many as there are and fit |
| `TcpAnswers.WindowReopened` | kernel/net.c:372-376 | a read announces the window exactly when it opens from below 2920 bytes to at least that many |
| `Tcp.TakenCases` | kernel/net.c:294-309 | the bytes that enter the ring and the fate of the FIN flag, by the three branches on signed 32-bit differences |
| `Tcp.Socket.constructor` | kernel/net.c:320-327 | a connection about to send its SYN, with an empty ring |
| `Tcp.Socket.SendAck` | kernel/net.c:238-256 | acknowledgement number and window field put on the wire |
| `Tcp.Socket.Append` | kernel/net.c:296-297 | the copy loop stores the bytes behind the unread ones, wrapping at the end of the ring |
| `Tcp.Socket.InputPayload` | kernel/net.c:293-309 | the payload branches append exactly the in-order bytes that fit and clear FIN when something before it was dropped |
| `Tcp.Socket.Input` | kernel/net.c:258-318 | one segment changes the connection as the state machine `Arrive` says and sends exactly its acknowledgement |
| `Tcp.Socket.TryRead` | kernel/net.c:368-381 | data before FIN before RST; the buffer receives the oldest unread bytes, and a reopened window is announced |
| `Tcp.Socket.Receive` | kernel/net.c:364-384 | the polling loop equals poll-then-read repeated until there is something to return |
| `VirtioNet.TransmitSafety` | kernel/nic.c:880-909 | in every interleaving with a conforming device and at least 16 entries dividing 65536: what was sent is, unaltered and once each, what the device emitted plus what is in flight; the slot to be filled next is owned by nobody; unread avail entries are intact; completions come oldest first |
| `VirtioNet.SentIsGiven` | kernel/nic.c:888-909 | along any run what was sent is, in order, the frames given to `v_send`, each behind a header of zeros; at most the last one is still in hand |
| `VirtioNet.SmallQueueOverwritten` | kernel/nic.c:899-905 | with fewer than 16 entries some interleaving overwrites the entry the device has to read next |
| `VirtioNet.TxStepKeeps` | kernel/nic.c:880-909 | every driver or device step keeps the ownership invariant of the transmit queue |
| `VirtioRx.ReceiveSafety` | kernel/nic.c:866-923 | in every interleaving each receive buffer has exactly one owner, and the frames handed up are the acceptable completions collected so far, once each, in order and unaltered |
| `VirtioRx.Delivery` | kernel/nic.c:911-923 | in every interleaving the stack is handed exactly the frames of more than 14 bytes that fit its buffer, out of the packets collected so far, in order; when all packets carry one, that is all of them |
| `VirtioRx.RxStepKeeps` | kernel/nic.c:866-923 | every driver or device step keeps the ownership and content invariant of the receive queue |
| `Virtqueue.OfferKeeps` | kernel/nic.c:902 | writing the next avail entry disturbs no entry the device has yet to read |
| `Virtqueue.CollectKeeps` | kernel/nic.c:881-885 | comparing the 16-bit indices decides exactly whether a completion waits, and collection takes the oldest |
| `VirtioDriver.Transmitter.Reclaim` | kernel/nic.c:880-886 | the loop is a path of reclaim steps that leaves no completion uncollected |
| `VirtioDriver.Transmitter.Send` | kernel/nic.c:888-909 | refuses frames above 1514 bytes, and others only when all buffers are busy; otherwise the entry it publishes is the header of zeros and the frame, after a path of reclaim, fill, offer and publish steps |
| `VirtioDriver.Receiver.Receive` | kernel/nic.c:911-923 | a path of gather and repost steps; when the oldest waiting packet holds a frame of more than 14 bytes that fits, exactly these bytes are returned, and 0 means that nothing is waiting any more |
| `VirtioDriver.TxPathRuns` | kernel/nic.c:888-909 | a driver path is a run of the interleaved transmit machine under any history, so `TransmitSafety` applies to it |
| `VirtioDriver.RxPathRuns` | kernel/nic.c:911-923 | the same for the receive machine and `ReceiveSafety` |
| `FilePool.TilesEveryByte` | fs/fs.c:174-230 | headers and payloads tile the pool: every byte lies in exactly one block |
| `FilePool.FreeRunInOneBlock` | fs/fs.c:202-230 | in a coalesced pool a contiguous free run lies in one block |
| `FilePool.NoFitNoRun` | fs/fs.c:202-230 | a request that fits no free block fits no contiguous free run, header included |
| `FilePool.PayloadsApart` | fs/fs.c:202-241 | different blocks, headers included, are disjoint and inside the pool |
| `FilePool.Pool.Coalesce` | fs/fs.c:181-200 | no two adjacent blocks are free afterwards, and live blocks are untouched |
| `FilePool.Pool.Search` | fs/fs.c:206-229 | the walk finds the first block that fits, and fails exactly when none does |
| `FilePool.Pool.Alloc` | fs/fs.c:202-230 | first fit with splitting; it fails exactly on size 0 or when no free block holds the rounded size; then nothing changes and no free run could hold it; the block taken has fewer than 24 bytes too many |
| `FilePool.Pool.Free` | fs/fs.c:232-241 | exactly that block stops being live, and the pool is coalesced again |
| `FilePool.Pool.Reset` | fs/fs.c:174-179 | one free block again |
| `Files.FileData.Resize` | fs/fs.c:243-269 | the error codes exactly; the common prefix survives; nothing changes on failure; all other files keep size and bytes |
| `Files.FileData.Store` | fs/fs.c:815-816 | writing inside one file changes only those bytes of that file |
| `Files.FileData.Release` | fs/fs.c:247-252 | the slot becomes empty and every other file keeps its bytes |
| `Files.FilesFitPool` | fs/fs.c:243-269 | in every consistent state the file sizes add up to at most the pool |
| `Paths.ComputeAbsPath` | fs/fs.c:393-462 | the tokenising loop computes the component fold with both bounds checks, for every input |
| `Paths.AbsPathExact` | fs/fs.c:393-462 | for every input, the result is the rendering of the folded stack, without empty, "." or ".." components, if and only if that rendering has at most 255 characters and, when it has exactly 255, the last component that counted was not a ".." |
| `Paths.AbsPathIsCanonical` | fs/fs.c:393-462 | in particular when the combined path has at most 255 characters |
| `Paths.ComponentsSplit` | fs/fs.c:422-428 | a slash between two texts separates their components |
| `Paths.CanonicalFrom` | fs/fs.c:399-411 | for canonical cwd, the stack is the fold of the name's components over nothing when the name starts with a slash and over the components of the cwd otherwise; only the part of the name that fits 511 characters counts |
| `Paths.EntryBelow` | fs/fs.c:393-462 | a plain name that fits means cwd, slash, name |
| `Paths.DotsMean` | fs/fs.c:430-446 | "." is the cwd and ".." the cwd without its last component, up to 255 characters included |
| `Paths.DepthLimitIdle` | fs/fs.c:428-446 | while the path is never deeper than 64, the fold is the plain skip, pop and push |
| `Paths.AbsPathIdempotent` | fs/fs.c:393-462 | applying `abs_path` twice, under any cwd, changes nothing if and only if the first result is canonical, which it is whenever the condition of `AbsPathExact` holds |
| `Paths.CanonicalFixed` | fs/fs.c:393-462 | canonical paths are fixed points |
| `Paths.RenderInjective` | fs/fs.c:393-462 | different component stacks have different texts |
| `Paths.TruncationBreaks` | fs/fs.c:428-455 | a family of paths outside that condition whose result contains an empty component |
| `Tree.ParentText` | fs/fs.c:464-485 | on a canonical path the text surgery of `parent_exists` and `split_parent` finds the parent |
| `Tree.ChildIsParent` | fs/fs.c:530-575 | the prefix-and-no-slash test for a child is exactly "its parent is this directory" |
| `Tree.UpIsParent` | fs/fs.c:434-446 | ".." names the parent directory of the cwd |
| `Tree.DigitsDecide` | fs/fs.c:138-142 | for a mode with octal digits u, g, o: root may do everything, the owner is judged by u and everyone else by o, reading from 4 on, writing by the 2, entering when odd; g never matters |
| `TreeRuns.CreateDirectoryKeeps` | fs/fs.c:487-514 | creating a directory keeps the tree invariant if and only if nothing is made or the path comes out canonical |
| `TreeRuns.CreateFileKeeps` | fs/fs.c:713-741 | the same for creating a file |
| `TreeRuns.DeleteDirectoryKeeps` | fs/fs.c:577-631 | removing an empty directory, under any path, keeps the tree invariant |
| `TreeRuns.WriteFileKeeps` | fs/fs.c:774-828 | writing, with creation and roll-back, keeps the tree invariant |
| `TreeRuns.TreeAlways` | fs/fs.c:464-741 | after any run of operations by any users names are unique across files and directories, and each entry's parent is the root or a live directory |
| `TreeRuns.DeleteRecursiveExact` | fs/fs.c:633-711 | when the recursive delete of a canonical path other than the root, with no newline in a name below it, returns 0, exactly that directory and everything below it is gone |
| `TreeRuns.RecursiveThins` | fs/fs.c:633-711 | whatever it returns, such a delete clears only entries at or below the path and leaves all others as they were |
| `TreeRuns.ListingExact` | fs/fs.c:657-670 | the loop of recursive delete reads back from the listing text exactly the entries that were listed if and only if no name contains a newline |
| `TreeRuns.NewlineEscapes` | fs/fs.c:657-695 | a subdirectory named "x", newline, ".." is read back as a file and a directory whose path resolves to the parent of the directory being deleted |
| `RootDelete.ListingOnce` | fs/fs.c:1011-1097 | a listing shows only live children, as what they are, and none twice |
| `RootDelete.RoomComplete` | fs/fs.c:1011-1097 | it shows every child when the lines of all live entries fit the buffer |
| `RootDelete.RootDeletesExactly` | fs/fs.c:633-711 | root's recursive delete of a directory without newlines below it returns 0 if and only if every directory at or below it lists all of its children |
| `Meaning.CreateDirectoryMeans` | fs/fs.c:487-514 | success adds exactly one new directory owned by the caller to the map of directories; failure changes nothing |
| `Meaning.CreateFileMeans` | fs/fs.c:713-741 | success adds one empty file unless the path is a file already; failure changes nothing |
| `Meaning.DeleteFileMeans` | fs/fs.c:753-772 | success takes exactly that path out of the map of files |
| `Meaning.DeleteDirectoryMeans` | fs/fs.c:577-631 | success takes exactly that path out of the map of directories |
| `Meaning.WriteFileMeans` | fs/fs.c:774-820 | success: the path holds exactly the bytes, owner and mode kept or set at creation, nothing else changes; a failed write leaves no new file, and it removes a file if and only if that file is empty, the caller may write to it, and the bytes are too many or find no room |
| `Meaning.AppendFileMeans` | fs/fs.c:875-914 | success: the bytes follow the old contents; a failed append changes no contents, and it leaves a new empty file if and only if it could make one and the bytes are too many or find no room |
| `Meaning.DeleteRecursiveMeans` | fs/fs.c:633-711 | success, with no newline in a name below the directory: both maps restricted to the paths that are not below it |
| `Meaning.CreateDirectoryCodes` | fs/fs.c:487-514 | on a tree and a canonical path: 0 if and only if the path is new and not the root, its parent is there and writable and a slot is free; -2 if and only if only the permission is missing |
| `Meaning.CreateFileCodes` | fs/fs.c:713-741 | the same, with 0 also for a file that exists |
| `Meaning.DeleteFileCodes` | fs/fs.c:753-772 | 0 if and only if the file is there and its parent writable; -2 if and only if the parent is not |
| `Meaning.DeleteDirectoryCodes` | fs/fs.c:577-631 | 0 if and only if the directory is there, its parent writable and nothing is in it; the root is refused as "/" only |
| `Meaning.WriteFileCodes` | fs/fs.c:774-828 | 0 if and only if the file's own mode allows writing or the file can be made, the size is below 32 MiB and the pool has room for any byte |
| `Meaning.AppendFileCodes` | fs/fs.c:875-914 | the same for the size after appending, and never for no bytes |
| `Meaning.ChangeDirectoryMeans` | fs/fs.c:1099-1121 | the path becomes the cwd if and only if it is a directory that the caller may enter, no path means the root, and both maps stay as they are |
| `Meaning.ListCodes` | fs/fs.c:1011-1034 | a listing succeeds if and only if the directory is there and the caller may read it; an error lists nothing |
| `FileSystem.FileSys.constructor` | fs/fs.c:373-391 | the initial file system: an empty root |
| `FileSystem.FileSys.MakeDirectory` | fs/fs.c:487-514 | equals `Tree.CreateDirectory` on the tables |
| `FileSystem.FileSys.MakeFile` | fs/fs.c:713-741 | equals `Tree.CreateFile` on the tables |
| `FileSystem.FileSys.RemoveFile` | fs/fs.c:753-772 | equals `Tree.DeleteFile` on the tables, and the block goes back to the pool |
| `FileSystem.FileSys.RemoveDirectory` | fs/fs.c:577-631 | equals `Tree.DeleteDirectory` on the tables |
| `FileSystem.FileSys.WriteAll` | fs/fs.c:774-828 | equals `Tree.WriteFile`, with lack of room decided by the pool before the call |
| `FileSystem.FileSys.AppendTo` | fs/fs.c:875-914 | equals `Tree.AppendFile`, with lack of room decided by the pool before the call |
| `FileSystem.FileSys.Enter` | fs/fs.c:1099-1121 | equals `Tree.ChangeDirectory` |
| `FileSystem.FileSys.List` | fs/fs.c:1011-1097 | the buffer receives the lines of the entries in table order, cut where it would overflow |
| `FileSystem.ReadLine` | fs/fs.c:658-663 | one line of at most 255 characters off the listing text, as the parser reads it |
| `FileSystem.FileSys.RemoveTree` | fs/fs.c:633-711 | working through the listing text equals `TreeRuns.DeleteRecursive` and keeps the tree invariant |
| `Image.ParseSerialize` | fs/fs.c:1388-1547 | whatever follows in the stream, the image of a storable file system parses to the same names, flags, sizes, contents, owners, modes and cwd if and only if its files fit a fresh pool in slot order; otherwise it is refused |
| `Image.ImageLayout` | fs/fs.c:1388-1443 | every image byte by byte up to the contents: letters and version, one byte a slot, names in slots of 256 with zeros, sizes as little-endian words, each at its fixed offset |
| `Image.ParseRefuses` | fs/fs.c:1468-1510 | a stream is accepted only with the letters, version 4, all tables and the cwd complete and every size below 32 MiB |
| `Image.OldImageLoads` | fs/fs.c:1523-1545 | an image that ends before its owners loads with owner 0 and mode 0755 everywhere |
| `Image.ReloadsExactly` | fs/fs.c:1511-1519 | that condition in closed form: the rounded blocks fit, and all but the last leave 24 bytes |
| `Image.SlackReloads` | fs/fs.c:1511-1519 | files needing at most the pool size minus 24 always load |
| `Image.FullPoolLost` | fs/fs.c:1511-1519 | tables whose first two files fill the pool load in one slot order and not in the other |
| `Load.FullPoolReached` | fs/fs.c:243-269 | two allocations in an empty pool reach a file table that cannot be loaded again |
| `Reachable.StorableAlways` | fs/fs.c:464-914 | every run of operations with C-string paths and 32-bit uids keeps what the image relies on |
| `Reachable.ReachableRoundTrip` | fs/fs.c:1388-1547 | every reachable file system that leaves 24 pool bytes comes back unchanged |
| `Disk.Drive.Write` | kernel/store.c:129-148 | chunked commands write exactly the buffer at the sector, or nothing when it is out of range |
| `Disk.Drive.Read` | kernel/store.c:108-127 | chunked commands deliver exactly the sectors asked for |
| `Disk.Writer.Flush` | kernel/store.c:232-247 | everything received so far is on disk from the region's first sector on |
| `Disk.Writer.Sink` | kernel/store.c:249-266 | bytes are appended to the image however the call falls on sector and batch boundaries, and all writes stay in the region |
| `Disk.Reader.Fill` | kernel/store.c:191-219 | exactly the next bytes of the image, or an error when they would pass its end, wherever the window lies |
| `Load.LoadTables` | fs/fs.c:1468-1547 | loading through the windowed reader equals the parser on the bytes left in the image, error cases included |
| `Load.LoadData` | fs/fs.c:1511-1519 | file contents allocated and read slot by slot equal the data section |
| `Load.LoadOwners` | fs/fs.c:1523-1545 | owners and modes, with defaults where an old image ends early |
| `Store.SaveTables` | fs/fs.c:1388-1443 | the emitted stream is exactly the image of the tables, whatever was staged before |
| `Store.ImageSize` | fs/fs.c:1353-1369 | the computed size is the length of the emitted image |
| `Store.SavesFit` | fs/fs.c:1340-1369 | in every valid state the image fits the reserved size |
| `Store.AutoSave` | kernel/store.c:268-314 | the size guards never fire, the complete image lands at the region, and the read-back of the header succeeds |
| `Store.PlaceBounds` | kernel/store.c:457-489 | on a disk of any size, address cut to 32 bits included, the region starts at or past sector 16384 and ends before the 16-sector tail, right before it below 2^32 sectors |
| `Store.PlaceExact` | kernel/store.c:82-86 | while the address fits 32 bits, a disk gets a region if and only if it has the announced smallest size; the region ends right before the tail exactly on those disks |
| `Store.RegionBounds` | kernel/store.c:457-489 | every sector written by a save lies in those bounds, and the boot area keeps its bytes |
| `Store.Boot` | kernel/store.c:491-520 | the boot path accepts exactly the images whose header, payload range and tables are acceptable, and loads what they say (`Store.BootExact`) |
| `Store.BootExact` | kernel/store.c:491-520 | on the bytes of the disk: the saved state is taken if and only if the region starts with TJS1, names this build in both words, announces a length within the limits, and these bytes are tables followed by the whole configuration |
| `Store.OtherBuildRefused` | kernel/store.c:176-179 | a complete Storefile of another build is refused |
| `Store.SavedBoots` | kernel/store.c:491-520 | booting from a saved image gives the saved tables and configuration bytes if and only if the files fit the pool in slot order |
| `Store.SaveAndBoot` | kernel/store.c:268-314 | saving one system and booting another from that disk restores it, under the same condition |
| `Session.SaveAndBootAgain` | kernel/store.c:268-520 | end to end: after any run of operations whose files leave 24 bytes of the next pool, save and boot give back all tables, contents, the cwd and the configuration |
| `Heap.RoundCovers` | kernel/libc.c:121-126 | the rounded size covers header and request if and only if the request is at most 2^32 - 36 |
| `Heap.RoundTight` | kernel/libc.c:121-126 | up to that request the rounded size is at most 15 bytes above header and request, or the smallest block |
| `Heap.RoundAligned` | kernel/libc.c:121-126 | sizes are multiples of 4, and of 16 exactly for requests of 13 to 2^32 - 36 bytes |
| `Heap.TilesArena` | kernel/libc.c:110-119 | the linked blocks tile the arena: every byte lies in exactly one |
| `Heap.TakeKeeps` | kernel/libc.c:131-147 | taking a block, split or whole, keeps both links consistent, leaves no two adjacent free blocks and no other live block changes |
| `Heap.TakenTight` | kernel/libc.c:134-144 | the block taken is fewer than 36 bytes larger than the rounded request: the rest of a larger block is split off |
| `Heap.LiveOrFree` | kernel/libc.c:131-147 | each byte of the arena that lies in no live block lies in a free one |
| `Heap.AbsorbKeeps` | kernel/libc.c:163-167 | swallowing the successor keeps the tiling and both links |
| `Heap.ReleaseKeeps` | kernel/libc.c:152-174 | merging with both neighbours keeps the list, leaves no two adjacent free blocks, and exactly the freed block stops being live |
| `Arena.TouchQuiet` | kernel/libc.c:134-144 | header writes never hit a live payload |
| `Arena.Allocator.Malloc` | kernel/libc.c:128-150 | null if and only if no free block held the rounded request before the call; otherwise one new live pointer with at least the payload of the rounded size and fewer than 36 bytes more, and every live payload keeps its bytes |
| `Arena.WriteTied` | kernel/libc.c:88-94 | stores into a live payload leave the header bytes in memory those of the block list |
| `Arena.Allocator.Free` | kernel/libc.c:152-174 | magic and flag are read from memory; exactly a live pointer leaves the map of payloads, and null, freed or foreign pointers change nothing unless the bytes in front of them look like a live header |
| `Arena.Allocator.Calloc` | kernel/libc.c:176-181 | null if and only if the product overflows 32 bits or no free block holds it; otherwise a new zeroed payload |
| `Arena.Allocator.Realloc` | kernel/libc.c:183-202 | in place when the block or the block with its free successor is large enough, otherwise moved, with the size of a new allocation; the old payload is a prefix of the new one and no other payload changes; null if and only if neither is possible, and then nothing changes |
| `Arena.Allocator.Write` | kernel/libc.c:179-199 | storing through one live pointer changes that payload only |
| `GapBuffer.Buffer.At` | bin/vi.c:44-49 | the byte of the text at a position, 0 outside |
| `GapBuffer.Buffer.MoveGap` | bin/vi.c:51-70 | the text is unchanged and the gap opens at the clamped position, with both overlapping copy directions |
| `GapBuffer.Buffer.InsertByte` | bin/vi.c:72-80 | a splice of one byte, refused exactly when the buffer is full |
| `GapBuffer.Buffer.InsertBytes` | bin/vi.c:98-104 | the number of bytes taken, and the text after inserting them one by one |
| `GapBuffer.InsertRunSplices` | bin/vi.c:98-104 | from a position that is not negative this is one splice of what fits |
| `GapBuffer.InsertRunNegative` | bin/vi.c:98-104 | from a negative position the first bytes, as many as it is negative, come out reversed behind the others |
| `GapBuffer.InsertBehind` | bin/vi.c:98-104 | past the end it is appending |
| `GapBuffer.DeleteCuts` | bin/vi.c:82-89 | which bytes remain after a deletion, and where |
| `GapBuffer.DeleteInserted` | bin/vi.c:72-104 | deleting what was inserted gives the old text back |
| `GapBuffer.InsertDeleted` | bin/vi.c:72-104 | and so does inserting what was deleted |
| `GapBuffer.Buffer.DeleteRange` | bin/vi.c:82-89 | cutting the clamped range out of the text |
| `GapBuffer.Buffer.Flatten` | bin/vi.c:91-96 | the buffer receives exactly the text |
| `GapBuffer.Buffer.Restore` | bin/vi.c:344-353 | the text becomes that of the snapshot |
| `GapBuffer.Buffer.DecodeAt` | bin/vi.c:108-132 | at every position of the text, the result of `utf8_decode` on the rest of the flattened text |
| `Undo.StacksBounded` | bin/vi.c:334-385 | under any sequence of pushes, undos, redos and edits the two stacks together hold at most six snapshots |
| `Undo.UndoRedo` | bin/vi.c:354-385 | k undos followed by k redos restore every text on screen and in both stacks, and all cursors that were inside their texts |
| `Undo.UndoRestores` | bin/vi.c:334-369 | undo after a recorded change shows the text from before it, whatever the change was |
| `Undo.SixUndone` | bin/vi.c:334-369 | after any number of recorded changes the last six can be undone one by one, each undo showing the text from before its change |
| `Undo.RingPush` | bin/vi.c:334-343 | writing at the head of a ring pushes onto its stack, and only a full ring loses its oldest entry |
| `Undo.RingPop` | bin/vi.c:361-363 | moving the head back pops the newest entry |
| `Undo.Editor.PushUndo` | bin/vi.c:334-343 | pushes the current text on the bounded undo stack and clears the redo stack |
| `Undo.Editor.DoUndo` | bin/vi.c:354-369 | pops the undo stack onto the screen and pushes what was there on the redo stack, losing nothing |
| `Undo.Editor.DoRedo` | bin/vi.c:370-385 | the mirror image of undo |
| `Regex.Matcher.Match` | bin/vi.c:713-806 | success gives a length whose text is in the pattern's language; failure with budget left means that no length is; and no more budget is used than `Regex.Cost` says |
| `Regex.Matcher.Find` | bin/vi.c:809-821 | the leftmost matching start at or after the given one, unless a budget ran out on the way, which it cannot when the cost is at most 60000 |
| `Regex.Matcher.ClassMatch` | bin/vi.c:660-680 | a bracket class accepts exactly the characters of its ranges, or the others when negated, and ends where the extent says |
| `Regex.Matcher.AtomMatch` | bin/vi.c:684-694 | one atom accepts a character exactly when its meaning does, and advances by its extent |
| `Regex.AtomExtent` | bin/vi.c:697-709 | the extent of an atom in the pattern |
| `Regex.PlainPattern` | bin/vi.c:713-806 | the language of a pattern without special characters is the pattern itself, up to case |
| `Regex.SpelledItems` | bin/vi.c:684-749 | any sequence of anchors, characters, classes and stars, written down with `.`, `\`, `[...]`, `[^...]`, a leading `]`, ranges, `*`, `^` and `$`, is read back as that sequence |
| `Regex.AtomTakes` | bin/vi.c:627-694 | which characters an atom takes: any, the one named, those inside or outside the ranges; ignoring case adds the other case of ASCII letters, and only that |
| `Regex.ItemTakes` | bin/vi.c:713-806 | an anchor takes nothing at its end of the line, an atom one character, a starred atom any number |
| `Regex.LangConcat` | bin/vi.c:713-806 | a sequence takes the line in pieces, one for each part |
| `Regex.BudgetSuffices` | bin/vi.c:713-821 | a pattern of p characters with k stars on a line of n is searched exactly when (p+1)(n+1)^k is at most 60000 |
| `Glob.GlobMatch` | kernel/kernel.c:1464-1475 | true exactly for names in the language where each star stands for any run of characters, by a loop with a lexicographic measure |
| `Glob.GlobConcat` | kernel/kernel.c:1464-1475 | a pattern in two parts matches a name in two pieces |
| `Glob.GlobUnits` | kernel/kernel.c:1464-1475 | a star alone matches every name, and a pattern without one only itself |
| `Glob.LatestStarSuffices` | kernel/kernel.c:1467-1471 | once the literals behind a star were met as early as possible, only the latest star needs to be retried |
| `Qsort.Sort` | kernel/libc2.c:642-668 | for every comparator that is a total preorder: a sorted permutation of the range, nothing outside it changes |
| `Qsort.Partition` | kernel/libc2.c:654-665 | both sides are shorter than the range and every element of the left is at most every element of the right |
| `Qsort.ScanUp` | kernel/libc2.c:658 | the unguarded scan stops inside the range |
| `Qsort.ScanDown` | kernel/libc2.c:659 | the unguarded scan stops inside the range |
| `Qsort.InsertionSort` | kernel/libc2.c:647-652 | a sorted permutation of a short range |
| `Calendar.DaysRoundTrip` | kernel/libc2.c:727-740 | for every day number, negative ones included, `civil_from_days` gives a real date that `days_from_civil` maps back |
| `Calendar.DateRoundTrip` | kernel/tls.c:41-48 | for every real date `civil_from_days` undoes `days_from_civil` |
| `Calendar.ClosedFormCounts` | kernel/libc2.c:1357-1375 | from 1970 on the closed form equals the days added up year by year and month by month |
| `Calendar.Fill` | kernel/libc2.c:744-763 | date, clock and weekday of any time, also before 1970 |
| `Calendar.WeekdayExact` | kernel/libc2.c:757 | the remainder is a weekday exactly when it is not taken of a negative number, multiples of seven aside |
| `Calendar.MakeTime` | kernel/libc2.c:1366-1388 | -1 before 1970, otherwise the seconds counted year by year; sets weekday and day of the year |
| `Calendar.FillAndMake` | kernel/libc2.c:1366-1388 | breaking any time from the epoch on down and putting it together again gives the same time, the right weekday and the right day of the year |
| `Utf8.DecodeExact` | include/utf8.h:21-59 | decoding accepts exactly the encodings of section 3 of RFC 3629, inverts them, and reports one byte otherwise |
| `Utf8.BitTests` | include/utf8.h:29-47 | the masks and tests on a byte, as ranges and remainders |
| `Utf8.DecodeBytes` | include/utf8.h:21-59 | the decoding loop computes that function |
| `Utf8.FeedString` | include/utf8.h:97-134 | streaming the encoding of any string of scalar values yields exactly those scalars and ends idle |
| `Utf8.BatchIsStream` | include/utf8.h:21-134 | decoding such a text in one piece or byte by byte gives the same scalars |
| `Utf8.FeedAny` | include/utf8.h:103-134 | for any bytes, valid or not, the stream reports ASCII as it is, one result for each lead byte with all its continuation bytes, and nothing for broken-off sequences and stray bytes |
| `Utf8.FeedResync` | include/utf8.h:124-133 | a byte that breaks a sequence is taken as from idle, and a byte that can start none is handed back |
| `Utf8.Decoder.Push` | include/utf8.h:103-134 | one byte changes the streaming decoder as `Feed` says |

## Left out

- Hardware access, interrupts, the other network drivers, TLS, DHCP, DNS, HTTP, the shell, accounts, screen drawing, floating point, the Linux layer and ELF loading.
- TCP header and option parsing, checksums, retransmission timers, `tcp_send` and `tcp_close`: segments are values and the clock is the list of polls that arrive before the deadline.
- The virtio transport set-up, notifications, descriptor addresses and the 200 ms wait of `v_send`; a conforming device is the other party of the state machine.
- VirtioDriver.Transmitter.Send: one attempt with the device at rest; the repeated attempts of the original are further steps of the same machine.
- FilePool.Pool.Alloc: block headers are kept in a map beside the payload bytes; `FilePool.PayloadsApart` shows that no header shares a byte with a payload. The corrupt-size checks of the walks never act in a tiled pool and are not modelled.
- Names are byte strings without zeros, padded with zeros in the image; bytes behind a terminator inside a slot are not modelled.
- TreeRuns.TreeAlways: new entries whose path comes out of `abs_path` uncanonical are excluded, since they break the tree (`TreeRuns.CreateDirectoryKeeps`); recursive delete takes canonical paths without newlines below them, so a one-character relative path and aliases of the root are not modelled.
- Group permission bits, `chmod`, `chown`, `fs_write_at`, preallocation, the reading calls and the home archive: they add no property to the ones above.
- The terminating zero behind file contents.
- Failing disk writes: every write inside the disk succeeds.
- Store.Boot: the configuration is an opaque run of bytes; its own validation, the boot module and the fall-back to a fresh file system are not modelled.
- Arena.Allocator.Realloc: requests above 2^32 - 36 bytes, for which the rounded size wraps (`Heap.RoundCovers`) and the copy of the original leaves the new block.
- Arena.Allocator.Calloc: products between 2^32 - 35 and 2^32 - 1, for the same reason.
- Arenas above the 16 MiB that the boot code hands over at most (kernel/kernel.c:2680).
- Arena.Allocator.Free: a pointer that is no block but whose preceding bytes look like a live header; the original then links arbitrary memory into its list.
- Editor marks, messages and the terminating zero of a flattened text.
- Regex.Matcher.Match: patterns with groups, and with them the exact-length argument and the recorded spans.
- Qsort.Sort: element size 0, and comparators that are not total preorders.
- Calendar.DaysRoundTrip: integers are unbounded; the 32-bit original overflows only within 719468 days of the ends of its range.
- `utf8_map_ascii` and `utf8_to_cell`, plain tables.
