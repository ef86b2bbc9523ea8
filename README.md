# Opacity mobile: a verified model of its storage and file-sync core

Opacity is an end-to-end encrypted storage service. This project models, in
Dafny, the parts of its mobile app and libraries whose behaviour can be
stated exactly, and proves what they promise:

- **Byte formats of the storage protocol** (TypeScript and worker threads):
  the length-prefixed packing of metadata changes, the stream that re-chunks
  bytes into fixed-size pieces, the layout of 64 KiB blocks, 32 bytes of
  overhead each and 80 blocks per part, and the hex codecs.
- **The metadata cache** of `MetadataAccess`: when a read is answered from
  the cache and what marking an entry dirty changes.
- **Name and path rules**: filename and directory validation, metadata path
  derivation, share and file handles, and the app's string, array, date and
  thumbnail helpers.
- **Upload and download queues** (MobX stores): status transitions, the
  success map, the observed file, failure counters, key de-duplication, and
  the uploader's counts and priorities. These are classes whose methods
  update ordered maps in place.
- **The Android file-scanner SDK** (Kotlin):
  - the diagnostic logger's chunking, tagging and buffered file writes;
  - sync-rule selection and file status;
  - the database converters;
  - the mapping between database rows and React Native entries;
  - the files table's change classification and directory moves;
  - pagination by 25 and status updates;
  - event suppression while a scan runs.

Each source file becomes one module. Pure code is modelled as functions
with lemmas. Code that changes state is modelled as methods on classes or
as loops, each proved against a specification function. JavaScript `Map`
and plain-object semantics are modelled as sequences of key/value entries
with unique keys, kept in insertion order (module `OrderedMaps`). Strings
are sequences of characters. 32-bit arithmetic is written out where the
source relies on it.

## Model

| member | source | states |
|---|---|---|
| DebugTree.AnonymousSuffix | lib/rn-file-scanner/android/vAndroidSDK/src/main/java/com/opacity/androidsdk/SDKDebugTree.java:26 | the length of the trailing run of `$digits` groups: zero, or a suffix made only of such groups (it starts with '$', ends in a digit, and every '$' is followed by a digit) |
| DebugTree.AnonymousSuffixLongest | lib/rn-file-scanner/android/vAndroidSDK/src/main/java/com/opacity/androidsdk/SDKDebugTree.java:26 | no longer suffix is made of `$digits` groups, so the class-name pattern strips the whole trailing run and no more |
| DebugTree.StripAnonymous | lib/rn-file-scanner/android/vAndroidSDK/src/main/java/com/opacity/androidsdk/SDKDebugTree.java:48-52 | removes exactly that run: the result is a prefix of the class name and has no anonymous suffix left |
| DebugTree.AfterLastDot | lib/rn-file-scanner/android/vAndroidSDK/src/main/java/com/opacity/androidsdk/SDKDebugTree.java:53 | the text after the last '.': a suffix of the input with no '.', preceded by '.' whenever it is shorter than the input |
| DebugTree.GetClass | lib/rn-file-scanner/android/vAndroidSDK/src/main/java/com/opacity/androidsdk/SDKDebugTree.java:46-59 | the tag has no '.', is a prefix of the stripped simple name, is at most 23 characters below API 24, and differs from the simple name only when it was cut to exactly 23 characters below API 24 |
| DebugTree.GetClassAnonymousExample | lib/rn-file-scanner/android/vAndroidSDK/src/main/java/com/opacity/androidsdk/SDKDebugTree.java:38-58 | "com.x.Foo$1$2" gives the tag "Foo" |
| DebugTree.GetPrefixAsWritten | lib/rn-file-scanner/android/vAndroidSDK/src/main/java/com/opacity/androidsdk/SDKDebugTree.java:61-74 | as written: reading element 6 fails with an index fault exactly when the stack has at most 6 elements, otherwise the tag of element 6 |
| DebugTree.GetPrefix | lib/rn-file-scanner/android/vAndroidSDK/src/main/java/com/opacity/androidsdk/SDKDebugTree.java:61-74 | corrected: the same split, but the short stack reports the intended "synthetic stacktrace" error |
| DebugTree.GetPrefixGuardUnreachable | lib/rn-file-scanner/android/vAndroidSDK/src/main/java/com/opacity/androidsdk/SDKDebugTree.java:66-71 | on an empty stack the as-written prefix fails at the read, never at the guard the corrected one reaches |
| DebugTree.NextNewline | lib/rn-file-scanner/android/vAndroidSDK/src/main/java/com/opacity/androidsdk/SDKDebugTree.java:101-102 | the index of the next newline at or after i, or the length when there is none; no newline lies in between |
| DebugTree.LineChunks | lib/rn-file-scanner/android/vAndroidSDK/src/main/java/com/opacity/androidsdk/SDKDebugTree.java:103-114 | one line is emitted as at least one chunk |
| DebugTree.LineChunksSound | lib/rn-file-scanner/android/vAndroidSDK/src/main/java/com/opacity/androidsdk/SDKDebugTree.java:103-114 | every chunk of a line has at most 4000 characters and no newline, and the chunks put back together give the line and the newline that ends it |
| DebugTree.LineChunksHead | lib/rn-file-scanner/android/vAndroidSDK/src/main/java/com/opacity/androidsdk/SDKDebugTree.java:104-105 | the first chunk is message[i..min(newline, i + 4000)], and the rest of the line follows it |
| DebugTree.PartsFromRender | lib/rn-file-scanner/android/vAndroidSDK/src/main/java/com/opacity/androidsdk/SDKDebugTree.java:100-115 | the chunks emitted from position i, joined with one newline per consumed line break, give message[i..] |
| DebugTree.PartsFromEmittable | lib/rn-file-scanner/android/vAndroidSDK/src/main/java/com/opacity/androidsdk/SDKDebugTree.java:100-115 | every emitted chunk has at most 4000 characters and no newline |
| DebugTree.PartsRoundTrip | lib/rn-file-scanner/android/vAndroidSDK/src/main/java/com/opacity/androidsdk/SDKDebugTree.java:100-115 | splitting a long message and joining the parts back reproduces the message exactly |
| DebugTree.Emit | lib/rn-file-scanner/android/vAndroidSDK/src/main/java/com/opacity/androidsdk/SDKDebugTree.java:86-109 | every platform call carries the fixed tag "OpacityAndroid" and the given text, and it is `wtf` exactly for ASSERT priority |
| DebugTree.Pad2 | lib/rn-file-scanner/android/vAndroidSDK/src/main/java/com/opacity/androidsdk/SDKDebugTree.java:28 | two decimal digits that read back as n, the zero-padded "mm" and "ss" fields |
| DebugTree.Pad3 | lib/rn-file-scanner/android/vAndroidSDK/src/main/java/com/opacity/androidsdk/SDKDebugTree.java:28 | three decimal digits that read back as n, the zero-padded "SSS" field |
| DebugTree.Hour12 | lib/rn-file-scanner/android/vAndroidSDK/src/main/java/com/opacity/androidsdk/SDKDebugTree.java:28 | the 12-hour clock hour: in 1..12 and congruent to the hour of the day modulo 12 |
| DebugTree.TimeLabel | lib/rn-file-scanner/android/vAndroidSDK/src/main/java/com/opacity/androidsdk/SDKDebugTree.java:126 | the "hh:mm:ss.SSS" label: 12 characters with ':' ':' '.' in place; its four fields read back as the hour on the 12-hour clock, the minute, the second and the millisecond |
| DebugTree.LogLine | lib/rn-file-scanner/android/vAndroidSDK/src/main/java/com/opacity/androidsdk/SDKDebugTree.java:126 | the buffered line is "[", the time label, "] ", then exactly the message, then a newline (16 characters longer than the message) |
| DebugTree.Save | lib/rn-file-scanner/android/vAndroidSDK/src/main/java/com/opacity/androidsdk/SDKDebugTree.java:119-151 | with no cache directory nothing changes; the buffer keeps holding whole lines |
| DebugTree.SaveWriteRule | lib/rn-file-scanner/android/vAndroidSDK/src/main/java/com/opacity/androidsdk/SDKDebugTree.java:127-149 | the line joins the buffer; when neither a second has passed nor the buffer is over the limit nothing else happens; a successful write sends the buffer to the current hour's file, empties it and records the write time; a failed write changes nothing but the report count |
| DebugTree.SaveConserves | lib/rn-file-scanner/android/vAndroidSDK/src/main/java/com/opacity/androidsdk/SDKDebugTree.java:126-146 | what is written to files plus what is buffered grows by exactly the new line: nothing is lost or duplicated |
| DebugTree.SaveAll | lib/rn-file-scanner/android/vAndroidSDK/src/main/java/com/opacity/androidsdk/SDKDebugTree.java:111-151 | saving the parts of a long message one by one keeps whole lines and does nothing when disabled |
| DebugTree.SaveAllConserves | lib/rn-file-scanner/android/vAndroidSDK/src/main/java/com/opacity/androidsdk/SDKDebugTree.java:111-146 | over several saves, files plus buffer grow by exactly the lines of the saved messages, in order |
| DebugTree.LogTree.constructor | lib/rn-file-scanner/android/vAndroidSDK/src/main/java/com/opacity/androidsdk/SDKDebugTree.java:29-35 | local logging off, no cache directory, write limit 22000, empty buffer, last write at 0 |
| DebugTree.LogTree.SaveToLocal | lib/rn-file-scanner/android/vAndroidSDK/src/main/java/com/opacity/androidsdk/SDKDebugTree.java:119-151 | the buffering state becomes `Save` of the old one; the platform log gains exactly `SaveReport`: the error "can't save log locally - e:" when a due write fails, nothing otherwise; flags and limit are unchanged |
| DebugTree.SaveReport | lib/rn-file-scanner/android/vAndroidSDK/src/main/java/com/opacity/androidsdk/SDKDebugTree.java:141-149 | at most one emission, the `Log.e` error; it is there exactly when the save counts one more failed write, and never when the write succeeds |
| DebugTree.EmitsSavingQuiet | lib/rn-file-scanner/android/vAndroidSDK/src/main/java/com/opacity/androidsdk/SDKDebugTree.java:99-149 | when every write succeeds or local logging is off, a long message sends exactly its chunks to the platform log and nothing else |
| DebugTree.HourOf | lib/rn-file-scanner/android/vAndroidSDK/src/main/java/com/opacity/androidsdk/SDKDebugTree.java:125-126 | the hour of the epoch that contains the instant: `now` lies in [h hours, h + 1 hours) |
| DebugTree.LogTree.Log | lib/rn-file-scanner/android/vAndroidSDK/src/main/java/com/opacity/androidsdk/SDKDebugTree.java:84-116 | a message under 4000 characters: ASSERT gives one `wtf` and never reaches the buffer; otherwise one `println` of prefix + " - " + message (or the stack fault and nothing), then, when local logging is on, the save and its error report if the write fails; a longer message emits its chunks without prefix, in order, each followed by its own save report, and saves them unless ASSERT |
| DebugTree.LogTree.LogLong | lib/rn-file-scanner/android/vAndroidSDK/src/main/java/com/opacity/androidsdk/SDKDebugTree.java:99-115 | the loop emits exactly the chunk sequence, each chunk followed by its save report, and saves exactly those texts |
| DebugTree.LogTree.LogNextLine | lib/rn-file-scanner/android/vAndroidSDK/src/main/java/com/opacity/androidsdk/SDKDebugTree.java:100-115 | one iteration of the outer loop moves past one line (and its newline) and emits that line's chunks |
| DebugTree.LogTree.LogLineChunks | lib/rn-file-scanner/android/vAndroidSDK/src/main/java/com/opacity/androidsdk/SDKDebugTree.java:103-114 | the do-while loop emits the chunks of one line and stops at its newline |
| DebugTree.LogTree.EmitChunk | lib/rn-file-scanner/android/vAndroidSDK/src/main/java/com/opacity/androidsdk/SDKDebugTree.java:104-113 | one chunk ends at min(newline, i + 4000) and is the head of the line's chunks |
| DebugTree.LogTree.EmitPart | lib/rn-file-scanner/android/vAndroidSDK/src/main/java/com/opacity/androidsdk/SDKDebugTree.java:106-111 | one chunk goes to the platform log and, unless ASSERT or local logging is off, to the buffer, followed by the error the save reports if its write fails |
| ChangePacking.RecordsLength | lib/opacity-library/src/account-system/MetadataAccess.ts:59 | the records after the count take `4·n + Σ len(change)` bytes |
| ChangePacking.PackLength | lib/opacity-library/src/account-system/MetadataAccess.ts:59 | the packed length is `4 + 4·n + Σ len(change)`, the length `packChanges` allocates |
| ChangePacking.RecordsSnoc | lib/opacity-library/src/account-system/MetadataAccess.ts:71-84 | one more change appends its big-endian length word and then its bytes |
| ChangePacking.PackChanges | lib/opacity-library/src/account-system/MetadataAccess.ts:58-87 | the filled array is a fresh one holding the count word followed by each change's length word and bytes, in order |
| ChangePacking.PackedStep | lib/opacity-library/src/account-system/MetadataAccess.ts:71-84 | one iteration of the loop extends the written prefix by exactly one record |
| ChangePacking.PutWord | lib/opacity-library/src/account-system/MetadataAccess.ts:64-77 | the four bytes after position i become the big-endian word; the bytes before i are kept |
| ChangePacking.PutBytes | lib/opacity-library/src/account-system/MetadataAccess.ts:79-83 | the change's bytes are copied after position i; the bytes before i are kept |
| ChangePacking.UnpackAt | lib/opacity-library/src/account-system/MetadataAccess.ts:96-102 | reading `count` records yields exactly `count` changes, or fails when a length word runs past the input |
| ChangePacking.Unpack | lib/opacity-library/src/account-system/MetadataAccess.ts:89-105 | a successful unpacking has as many changes as the leading count says |
| ChangePacking.UnpackChanges | lib/opacity-library/src/account-system/MetadataAccess.ts:89-105 | the loop computes `Unpack`: reads the count, then each record's length word and bytes, advancing by 4 + length |
| ChangePacking.UnpackShift | lib/opacity-library/src/account-system/MetadataAccess.ts:96-102 | reading records does not depend on what precedes them |
| ChangePacking.RecordStep | lib/opacity-library/src/account-system/MetadataAccess.ts:97-101 | a record at the front is read back as its change, followed by the records after it |
| ChangePacking.UnpackRecords | lib/opacity-library/src/account-system/MetadataAccess.ts:96-102 | the records of any list of changes read back as that list |
| ChangePacking.UnpackPack | lib/opacity-library/src/account-system/MetadataAccess.ts:58-105 | `unpackChanges(packChanges(cs)) == cs` whenever the count and each length fit 32 bits |
| MetadataCache.ChangesOf | lib/opacity-library/src/account-system/MetadataAccess.ts:425-428 | the changes of all fetched payloads in order, failing when any payload is malformed; no payloads give no changes |
| MetadataCache.ChangesOfPacked | lib/opacity-library/src/account-system/MetadataAccess.ts:425-428 | payloads that are packings of batches of changes read back as all those changes, in order |
| MetadataCache.FetchResult | lib/opacity-library/src/account-system/MetadataAccess.ts:408-429 | "Key not found" gives no document; otherwise the document is the fetched changes, and it fails exactly when a payload is malformed |
| MetadataCache.MarkDirty | lib/opacity-library/src/account-system/MetadataAccess.ts:140-147 | only an existing entry is flagged dirty; no entry is inserted and the others are unchanged |
| MetadataCache.Lookup | lib/opacity-library/src/account-system/MetadataAccess.ts:375-443 | the cached document is returned (and its access time updated) iff not told to refresh, an entry exists and it is clean; otherwise the fetched result is returned, and a fetched document replaces the entry as a clean one; no other key's entry changes when the cache is used |
| MetadataCache.FetchThenHit | lib/opacity-library/src/account-system/MetadataAccess.ts:415-435 | right after a successful fetch, a lookup that does not force a refresh is answered from the cache with the same document |
| MetadataCache.MarkThenFetch | lib/opacity-library/src/account-system/MetadataAccess.ts:140-147 | after the entry is marked dirty, the next lookup always fetches |
| MetadataCache.FetchPacked | lib/opacity-library/src/account-system/MetadataAccess.ts:425-435 | fetching payloads packed from batches caches and returns exactly their concatenated changes |
| MetadataCache.MetadataAccess.constructor | lib/opacity-library/src/account-system/MetadataAccess.ts:119-125 | the cache starts empty |
| MetadataCache.MetadataAccess.MarkCacheDirty | lib/opacity-library/src/account-system/MetadataAccess.ts:140-147 | the cache becomes `MarkDirty` of the old one |
| MetadataCache.MetadataAccess.Get | lib/opacity-library/src/account-system/MetadataAccess.ts:375-443 | the result and the new cache are those of `Lookup` on the old cache |
| MetadataCache.MetadataAccess.Remember | lib/opacity-library/src/account-system/MetadataAccess.ts:353-357 | the entry for the key becomes a clean one holding the document, stamped with the time |
| MetadataCache.MetadataAccess.Forget | lib/opacity-library/src/account-system/MetadataAccess.ts:359-362 | the entry is removed, so the next lookup fetches |
| ChunkStream.Chunks | lib/opacity-library/src/util/streams.ts:152-171 | the full chunks a byte sequence makes, each exactly `size` bytes |
| ChunkStream.ChunksOfSized | lib/opacity-library/src/util/streams.ts:152-177 | full chunks followed by less than one chunk of rest are cut back into exactly those chunks |
| ChunkStream.ConcatSized | lib/opacity-library/src/util/streams.ts:152-171 | n full chunks hold n·size bytes |
| ChunkStream.Determined | lib/opacity-library/src/util/streams.ts:142-177 | whatever the writes, an open stream's output is fixed by its input: the chunks are `Chunks(input)`, their number is `floor(len/size)` and the buffer holds the last `len % size` bytes |
| ChunkStream.TakeChunk | lib/opacity-library/src/util/streams.ts:152-171 | taking one full chunk lowers the number still to take by one and keeps the remainder |
| ChunkStream.NoChunkLeft | lib/opacity-library/src/util/streams.ts:171-177 | when no full chunk is left, what remains fits the buffer |
| ChunkStream.EmittedFull | lib/opacity-library/src/util/streams.ts:158-168 | enqueuing the filled buffer keeps the output plus the unread bytes equal to the input |
| ChunkStream.ChunkStream.constructor | lib/opacity-library/src/util/streams.ts:99-108 | an open stream with an empty buffer of the given size and no output |
| ChunkStream.ChunkStream.Transform | lib/opacity-library/src/util/streams.ts:142-177 | the stream stays open (every chunk out is exactly `size` bytes and out + buffer == all bytes written); `floor((_l + len)/size)` chunks are added after the old ones, and `_l` becomes `(_l + len) % size` |
| ChunkStream.ChunkStream.EmitFull | lib/opacity-library/src/util/streams.ts:155-170 | one iteration: the buffer is topped up from the chunk, enqueued, and replaced by a fresh empty one |
| ChunkStream.ChunkStream.KeepRest | lib/opacity-library/src/util/streams.ts:173-176 | the rest of the chunk is appended to the buffer, which stays under one chunk |
| ChunkStream.ChunkStream.Fill | lib/opacity-library/src/util/streams.ts:158-176 | the copy loop appends chunk[from..to] to the buffer |
| ChunkStream.ChunkStream.Flush | lib/opacity-library/src/util/streams.ts:114-131 | the buffered bytes are enqueued only when `_l != 0`, `_l` becomes 0, the stream is closed, and all chunks out together equal all bytes written |
| BlockLayout.NumberOfBlocks | worker.thread.js:79-81 | `ceil(size / 65536)`: the least number of 64 KiB blocks that hold `size` bytes |
| BlockLayout.SizeOnFS | worker.thread.js:83-85 | the stored size is the plain size plus 32 bytes per block |
| BlockLayout.NumberOfBlocksOnFS | download.thread.js:24-26 | `ceil(sizeOnFS / (65536 + 32))` |
| BlockLayout.BlocksOnFSOfSizeOnFS | download.thread.js:24-26 | counting stored blocks in the stored size gives back the number of plain blocks |
| BlockLayout.PartSize | download.thread.js:10-14 | a part on the file system is `80 · (65536 + 32)` = 5245440 bytes |
| BlockLayout.PartRange | download.thread.js:38 | the requested range of part i starts at `i · partSizeOnFS` and ends before the stored size and within one part |
| BlockLayout.PartRangesTile | download.thread.js:38 | a full part spans exactly one part size and the next part starts right after it; the part holding the end of the file stops at its last byte |
| BlockLayout.HexValue | worker.thread.js:72 | one hex digit's value is below 16 |
| BlockLayout.HexDigitChar | download.thread.js:31 | the lowercase hex digit of a value below 16, which reads back as that value |
| BlockLayout.HexToBytes | worker.thread.js:71-73 | one byte per two hex characters (a lone last digit makes one more), and none for the empty string |
| BlockLayout.RadixHex | download.thread.js:31 | `n.toString(16)`: at least one hex digit |
| BlockLayout.ByteHexDigits | download.thread.js:31 | `('00' + n.toString(16)).slice(-2)` is the two zero-padded lowercase digits of the byte |
| BlockLayout.BytesToHex | download.thread.js:28-35 | exactly two hex digits per byte |
| BlockLayout.HexToBytesOfBytesToHex | worker.thread.js:71-73 | reading back the hex text of bytes gives the bytes |
| BlockLayout.ByteHexOfPair | worker.thread.js:72 | two lowercase hex digits read as a byte print back as themselves |
| BlockLayout.BytesToHexOfHexToBytes | worker.thread.js:71-73 | lowercase hex text of even length printed back from its bytes is itself |
| BlockLayout.BlockAtLength | worker.thread.js:16-17 | block i is `chunk[i·65536 .. min((i+1)·65536, len)]`: non-empty, a full block except the last, which holds the rest |
| BlockLayout.StoredAll | worker.thread.js:33 | each stored block is its ciphertext, then the tag, then the iv |
| BlockLayout.SplitIntoBlocks | worker.thread.js:15-19 | the slicing loop yields `numberOfBlocks` blocks, block k being `BlockAt(chunk, k)`, and together they are the chunk |
| BlockLayout.SealedStrided | worker.thread.js:23-33 | the stored blocks have the lengths of the plain blocks plus 32 |
| BlockLayout.StrideStep | worker.thread.js:14-37 | every block but the last is full, and the last one ends the body exactly at `sizeOnFS` |
| BlockLayout.StoredPrefixLength | worker.thread.js:14-37 | the first i stored blocks fill exactly `i · blockSizeOnFS` bytes, all of them `sizeOnFS`, so every write is in bounds |
| BlockLayout.CreateBody | worker.thread.js:13-46 | the body is a fresh array of `sizeOnFS(len)` bytes holding each block's ciphertext, tag and iv at offset `i · blockSizeOnFS`, in order and without overlap |
| BlockLayout.WriteAt | worker.thread.js:35-39 | the byte loop writes the stored block at its offset and keeps what is before it |
| BlockLayout.Unstore | download.thread.js:46-49 | a block of at least 32 bytes splits into the ciphertext, then the 16-byte tag, then the last 16 bytes as iv |
| BlockLayout.UnstoreStored | worker.thread.js:33 | taking apart what the upload side stored gives back the ciphertext, tag and iv |
| BlockLayout.ReadPart | download.thread.js:43-52 | one entry per stored block of the part, entry j being block j taken apart |
| BlockLayout.StoredBlockOfBody | worker.thread.js:37 | the download side's block j of an uploaded body is exactly the j-th stored block |
| BlockLayout.ReadBackBody | worker.thread.js:13-46 | reading an uploaded body back yields as many blocks as were stored, each with its ciphertext, tag and iv |
| AccountPaths.ValidateFilename | lib/opacity-library/src/account-system/AccountSystem.ts:157-167 | accepted iff 1 ≤ length ≤ 255 and the name has neither '/' nor NUL; a length fault exactly when the length is out of range, a sanitization fault exactly when the length is fine but '/' or NUL occurs |
| AccountPaths.FirstBadDirectory | lib/opacity-library/src/account-system/AccountSystem.ts:174-185 | no fault iff every segment is a valid name; otherwise the fault of the first invalid segment, re-raised as a directory fault |
| AccountPaths.DirectoryPathAccepted | lib/opacity-library/src/account-system/AccountSystem.ts:169-187 | a directory path is accepted iff it is "/" or every segment after the first '/' is a valid file name |
| AccountPaths.DirectoryPathEdges | lib/opacity-library/src/account-system/AccountSystem.ts:169-187 | "" is accepted (its split has no segment after the first); "/a/" fails with a length fault for the empty last segment; "/a/b" is accepted |
| AccountPaths.ValidateDirectoryPath | lib/opacity-library/src/account-system/AccountSystem.ts:169-187 | "/" is accepted; a length fault names the segment and the directory path being checked, a sanitization fault names only the segment |
| AccountPaths.FileDerivePath | lib/opacity-library/src/account-system/AccountSystem.ts:274-276 | the prefix, then "/file/", then the location, and nothing else |
| AccountPaths.FolderDerivePath | lib/opacity-library/src/account-system/AccountSystem.ts:858-860 | the prefix, then "/folder/", then the location, and nothing else |
| AccountPaths.DerivePathsDistinct | lib/opacity-library/src/account-system/AccountSystem.ts:258-276 | `prefix + "/file/" + b64` and `prefix + "/folder/" + b64` are injective, never equal to each other, and never equal to an index path |
| AccountPaths.HandlesSplit | lib/opacity-library/src/account-system/AccountSystem.ts:1310-1312 | a share handle is the location key followed by the encryption key; a file handle is location ++ key when a key is given, else the location |
| AccountPaths.ShareHandle | lib/opacity-library/src/account-system/AccountSystem.ts:1310-1312 | the location key followed by the encryption key: the first part is the location key and the rest the encryption key |
| AccountPaths.FileHandle | lib/opacity-library/src/account-system/AccountSystem.ts:449 | starts with the location; with a key it is the location and key joined as a share handle, without one the location alone |
| UploadQueue.Restatus | src/models/stores/models/file-upload.ts:20-23 | only the entry under the key gets the new status (and progress 0); every other lookup is unchanged, and an absent key changes nothing |
| UploadQueue.KeyedRestatus | src/models/stores/models/queue.ts:20 | changing a status keeps every entry stored under its own path |
| UploadQueue.StepsKeepPath | src/models/stores/models/queue.ts:115-166 | none of the bulk actions changes an entry's path |
| UploadQueue.DismissAllFailedCounts | src/models/stores/models/queue.ts:124-128 | after dismissing all failed entries none is failed, and exactly the failed ones are gone |
| UploadQueue.DismissAllNeedUploadCounts | src/models/stores/models/queue.ts:134-140 | no entry is removed, none is left waiting, and the failed count grows by the number that were waiting |
| UploadQueue.FailAllCounts | src/models/stores/models/queue.ts:155-159 | every entry is kept and every entry is failed |
| UploadQueue.RequeueCounts | src/models/stores/models/queue.ts:160-166 | no entry is removed, none is left in progress, they all wait again, and the failed count is unchanged |
| UploadQueue.RetryCounts | src/models/stores/models/queue.ts:115-123 | after retrying, no entry is failed, and only failed entries whose files are gone are removed |
| UploadQueue.Queue.constructor | src/models/stores/models/queue.ts:19-23 | empty maps and no observed file |
| UploadQueue.Queue.Resolved | src/models/stores/models/queue.ts:39-47 | the observed file is the entry its reference points to, or nothing when the reference is unset or dangling |
| UploadQueue.Queue.ObservedFile | src/models/stores/models/queue.ts:39-47 | returns the resolved entry and clears a dangling reference; the maps are unchanged |
| UploadQueue.Queue.FailCount | src/models/stores/models/queue.ts:28-32 | the loop counts exactly the failed entries |
| UploadQueue.Queue.Set | src/models/stores/models/queue.ts:56-58 | the queue map becomes the old one with the entry put under its path (replaced in place or appended) |
| UploadQueue.Queue.Delete | src/models/stores/models/queue.ts:50-52 | the entry under the key is removed, nothing else changes |
| UploadQueue.Queue.Merge | src/models/stores/models/queue.ts:53-55 | the queue becomes `PutAll` of the items keyed by path: each path named by an item holds the last item with that path, every other key keeps its entry, old keys keep their positions and new ones follow |
| UploadQueue.Queue.SetObservedFileUpload | src/models/stores/models/queue.ts:61-63 | only the observed reference changes |
| UploadQueue.Queue.ClearSuccessful | src/models/stores/models/queue.ts:64-66 | the success map is emptied, nothing else changes |
| UploadQueue.Queue.UpdateFileStatus | src/models/stores/models/queue.ts:67-81 | success moves the entry from the queue to the success map with status success and clears the observed file (and throws when the entry is missing); failed only clears the observed file; in-progress makes the file observed; other statuses change nothing |
| UploadQueue.Queue.GetNextToUpload | src/models/stores/models/queue.ts:82-89 | the first waiting entry in map order, or none |
| UploadQueue.Queue.IsAlreadyInQueue | src/models/stores/models/queue.ts:90-92 | true iff an entry has the file's path |
| UploadQueue.Queue.GetStatus | src/models/stores/models/queue.ts:93-106 | 'not-found' iff absent, 'failed' iff present and the file is failed, 'uploading' iff present and not failed |
| UploadQueue.Queue.RetryFailed | src/models/stores/models/queue.ts:107-114 | the file waits again when it is on disk, and is removed otherwise |
| UploadQueue.Queue.RetryAllFailed | src/models/stores/models/queue.ts:115-123 | each failed entry waits again when its file is on disk and is removed otherwise; the rest are unchanged |
| UploadQueue.Queue.DismissAllFailed | src/models/stores/models/queue.ts:124-128 | the queue keeps exactly its entries that are not failed, in order |
| UploadQueue.Queue.DismissFailedFile | src/models/stores/models/queue.ts:129-133 | a failed file is removed; otherwise nothing changes |
| UploadQueue.Queue.DismissAllNeedUpload | src/models/stores/models/queue.ts:134-140 | every waiting entry becomes failed, in place |
| UploadQueue.Queue.DismissFile | src/models/stores/models/queue.ts:141-147 | a failed file is removed, any other file is marked failed |
| UploadQueue.Queue.DismissInProgress | src/models/stores/models/queue.ts:148-152 | throws exactly when no file is observed; otherwise the observed entry is marked failed; the observed file is cleared |
| UploadQueue.Queue.ResetLoadingErrorFailAll | src/models/stores/models/queue.ts:155-159 | every entry is failed, the success map is empty and nothing is observed |
| UploadQueue.Queue.ResetLoadingError | src/models/stores/models/queue.ts:160-166 | every in-progress entry waits again, the success map is empty and nothing is observed |
| UploadQueue.Queue.Reset | src/models/stores/models/queue.ts:167-171 | both maps are empty and nothing is observed |
| UploadQueue.Queue.ForEach | src/models/stores/models/queue.ts:125-164 | the `forEach` loop that updates or deletes entries computes `MapValues` of the old map, keeping every entry under its path |
| DownloadQueue.Queued | src/models/stores/models/download-queue.ts:57-60 | the stored entry is keyed by its own location, waits with progress 0, and copies name, path, type and size |
| DownloadQueue.Restatus | src/models/stores/models/file-download.ts:19-24 | only the entry under the key gets the new status, path and name; every other lookup is unchanged |
| DownloadQueue.KeyedRestatus | src/models/stores/models/download-queue.ts:14 | changing a status keeps every entry stored under its own location |
| DownloadQueue.StepsKeepLocation | src/models/stores/models/download-queue.ts:139-191 | none of the bulk actions changes an entry's location |
| DownloadQueue.DownloadingCount | src/models/stores/models/download-queue.ts:39-44 | the downloading count is the in-progress count plus the waiting count |
| DownloadQueue.CancelAtGet | src/models/stores/models/download-queue.ts:166-168 | only the entry at the dismissed location becomes cancelled, keeping its path and name |
| DownloadQueue.DropAtGet | src/models/stores/models/download-queue.ts:173-175 | only the entry at the removed location disappears |
| DownloadQueue.RetryCounts | src/models/stores/models/download-queue.ts:139-146 | no entry is removed and none is left failed or cancelled: they all wait again |
| DownloadQueue.DismissAllFailedCounts | src/models/stores/models/download-queue.ts:147-152 | exactly the failed and cancelled entries are removed |
| DownloadQueue.DismissAllNeedDownloadCounts | src/models/stores/models/download-queue.ts:153-157 | exactly the waiting entries are removed |
| DownloadQueue.DismissAllInProgressCounts | src/models/stores/models/download-queue.ts:158-162 | exactly the in-progress entries are removed |
| DownloadQueue.FailAllCounts | src/models/stores/models/download-queue.ts:179-184 | every entry is kept and every entry is failed |
| DownloadQueue.RequeueCounts | src/models/stores/models/download-queue.ts:185-191 | no entry is removed, none is left in progress, and they wait again |
| DownloadQueue.Queue.constructor | src/models/stores/models/download-queue.ts:13-18 | empty maps, fail count 0 and no observed file |
| DownloadQueue.Queue.Resolved | src/models/stores/models/download-queue.ts:26-34 | the observed file is the entry its reference points to, or nothing when unset or dangling |
| DownloadQueue.Queue.ObservedFile | src/models/stores/models/download-queue.ts:26-34 | returns the resolved entry and clears a dangling reference |
| DownloadQueue.Queue.CancelledCount | src/models/stores/models/download-queue.ts:35-38 | the number of cancelled entries, zero iff none is cancelled |
| DownloadQueue.Queue.CurrentlyDownloadingCount | src/models/stores/models/download-queue.ts:39-44 | in-progress plus waiting entries |
| DownloadQueue.Queue.CurrentlyDownloading | src/models/stores/models/download-queue.ts:47-50 | the first in-progress entry in map order, or none iff no entry is in progress |
| DownloadQueue.Queue.FilesCurrentlyInNextUp | src/models/stores/models/download-queue.ts:72-76 | exactly the waiting entries' values, in queue order (`ValuesWhere` of the queue by "needs download") |
| DownloadQueue.Queue.Set | src/models/stores/models/download-queue.ts:57-60 | the key now holds the stored copy of the value and every other key is unchanged |
| DownloadQueue.Queue.Delete | src/models/stores/models/download-queue.ts:51-53 | the entry under the key is removed, nothing else changes |
| DownloadQueue.Queue.Merge | src/models/stores/models/download-queue.ts:54-56 | the queue becomes `PutAll` of the items keyed by location: each location named by an item holds the last item with it, every other key keeps its entry, old keys keep their positions and new ones follow |
| DownloadQueue.Queue.SetObservedFileDownload | src/models/stores/models/download-queue.ts:63-65 | only the observed reference changes |
| DownloadQueue.Queue.ClearSuccessful | src/models/stores/models/download-queue.ts:66-68 | the success map is emptied |
| DownloadQueue.Queue.SetFailCount | src/models/stores/models/download-queue.ts:130-132 | only the fail count changes |
| DownloadQueue.Queue.UpdateFileStatusForCancelled | src/models/stores/models/download-queue.ts:69-71 | the fail count grows by one |
| DownloadQueue.Queue.UpdateFileStatus | src/models/stores/models/download-queue.ts:77-106 | in-progress is ignored while files wait and the file is cancelled or failed, and otherwise makes it observed; failed marks it and adds one to the fail count; cancelled marks it and clears the observed file, leaving the fail count; any other status moves it to the success map under its location with the new path and name |
| DownloadQueue.Queue.GetNextToDownload | src/models/stores/models/download-queue.ts:107-112 | the first waiting entry in map order, or none iff none waits (the cancelled guard never fires) |
| DownloadQueue.Queue.IsAlreadyInQueue | src/models/stores/models/download-queue.ts:113-115 | true iff an entry has the file's location |
| DownloadQueue.Queue.GetStatus | src/models/stores/models/download-queue.ts:116-129 | 'not-found' iff absent, 'failed' iff present and the file is failed, 'in-progress' iff present and not failed |
| DownloadQueue.Queue.RetryFailed | src/models/stores/models/download-queue.ts:133-138 | the file waits again; the fail count drops by one iff the file was failed |
| DownloadQueue.Queue.RetryAllFailed | src/models/stores/models/download-queue.ts:139-146 | failed and cancelled entries wait again and the fail count is 0 |
| DownloadQueue.Queue.DismissAllFailed | src/models/stores/models/download-queue.ts:147-152 | failed and cancelled entries are removed and the fail count is 0 |
| DownloadQueue.Queue.DismissAllNeedDownload | src/models/stores/models/download-queue.ts:153-157 | waiting entries are removed |
| DownloadQueue.Queue.DismissAllInProgress | src/models/stores/models/download-queue.ts:158-162 | in-progress entries are removed |
| DownloadQueue.Queue.DismissFile | src/models/stores/models/download-queue.ts:163-169 | the entry at the file's location is cancelled; the fail count drops by one iff the file was failed |
| DownloadQueue.Queue.RemoveFileFromQueue | src/models/stores/models/download-queue.ts:170-176 | the entry at the file's location is removed; the fail count drops by one iff the file was failed |
| DownloadQueue.Queue.ResetLoadingErrorFailAll | src/models/stores/models/download-queue.ts:179-184 | every entry is failed, the fail count equals the queue size (and the failed count), the success map is empty and nothing is observed |
| DownloadQueue.Queue.ResetLoadingError | src/models/stores/models/download-queue.ts:185-191 | in-progress entries wait again, the success map is empty and nothing is observed |
| DownloadQueue.Queue.Reset | src/models/stores/models/download-queue.ts:192-196 | both maps are empty and the fail count is 0; the observed reference is left as it was but resolves to nothing |
| DownloadQueue.Queue.ForEach | src/models/stores/models/download-queue.ts:140-189 | the `forEach` loop that updates or deletes entries computes `MapValues` of the old map, keeping every entry under its location |
| UserDownload.Appearances | src/models/stores/user-download.ts:37-39 | how many keys name the same file (the text before the first '-' is the location): at most the number of keys, zero iff none does |
| UserDownload.NumberedIsSameFile | src/models/stores/user-download.ts:37-43 | a numbered key `location-n` counts as the same file when the location has no '-' |
| UserDownload.NumberedInjective | src/models/stores/user-download.ts:41-43 | different numbers give different numbered keys |
| UserDownload.KeyAsWritten | src/models/stores/user-download.ts:34-44 | as written: the bare location iff no queued or downloaded key names the file, otherwise `location-(matches + 1)` |
| UserDownload.KeyAsWrittenCollides | src/models/stores/user-download.ts:37-45 | with "L-2" still queued (after "L" itself was removed), downloading "L" again picks the key "L-2", so `set` overwrites the waiting copy |
| UserDownload.DownloadKey | src/models/stores/user-download.ts:34-45 | corrected: the key is in neither map, and it is the as-written key whenever that one is free |
| UserDownload.ToBeDownloadedCount | src/models/stores/user-download.ts:50-55 | the files to be downloaded are all entries but the failed and the cancelled ones |
| UserDownload.UserDownloadStore.constructor | src/models/stores/user-download.ts:13 | an empty download queue |
| UserDownload.UserDownloadStore.CurrentlyDownloading | src/models/stores/user-download.ts:27-29 | an in-progress entry, or none iff no entry is in progress |
| UserDownload.UserDownloadStore.UpdateFileStatus | src/models/stores/user-download.ts:30-32 | the queue's status update with the file's own name: in progress marks it and makes it the observed file; failed marks it and counts it; cancelled marks it and clears the observed file; success moves it to the success map with the new path; in each case the maps it does not name are unchanged |
| UserDownload.UserDownloadStore.DownloadFile | src/models/stores/user-download.ts:33-46 | the file is appended to the queue under a key in neither map, stored as the queue stores it, equal to the as-written key whenever that is free; the success map, fail count and observed file are unchanged |
| UserDownload.UserDownloadStore.DismissFile | src/models/stores/user-download.ts:47-49 | the file's entry is cancelled; the fail count drops by one iff the file was failed; the success map and the observed file are unchanged |
| UserDownload.UserDownloadStore.FileInQueueToBeDownloaded | src/models/stores/user-download.ts:50-55 | exactly the values of the entries that are neither failed nor cancelled, in queue order |
| UserDownload.UserDownloadStore.RemoveFileFromQueue | src/models/stores/user-download.ts:56-58 | the file's entry is removed; the fail count drops by one iff the file was failed; the success map and the observed file are unchanged |
| UserDownload.UserDownloadStore.ResetLoadingError | src/models/stores/user-download.ts:61-63 | every entry is failed, the fail count is the queue size, the success map is empty and nothing is observed |
| UserDownload.UserDownloadStore.Reset | src/models/stores/user-download.ts:64-67 | an empty queue with fail count 0 and, through the snapshot, no observed file |
| UploaderStore.Uploader.constructor | src/models/stores/uploader.ts:17-21 | empty queues, no shadow size, and the backed-up notice dismissed |
| UploaderStore.Uploader.TotalCount | src/models/stores/uploader.ts:24-26 | user queue size plus the auto-sync shadow size: zero iff both are |
| UploaderStore.Uploader.UploadFailCount | src/models/stores/uploader.ts:27-29 | failed entries of both queues: at most their sizes, zero iff neither has a failed entry |
| UploaderStore.Uploader.CurrentlyUploadingCount | src/models/stores/uploader.ts:30-32 | total minus failed, i.e. the user queue's non-failed entries plus the shadow size minus the auto queue's failures |
| UploaderStore.Uploader.UploadSuccessCount | src/models/stores/uploader.ts:33-35 | zero iff both success maps are empty |
| UploaderStore.Uploader.IsAllBackedUp | src/models/stores/uploader.ts:36-38 | true iff the notice is not dismissed and the total count is 0 |
| UploaderStore.Uploader.Observed | src/models/stores/uploader.ts:39-41 | a file is observed iff one of the queues observes one (the user queue first) |
| UploaderStore.Uploader.NextFile | src/models/stores/uploader.ts:73-78 | a waiting file, none iff neither queue has one, and the user queue's first waiting file whenever it has one |
| UploaderStore.Uploader.ObservedFile | src/models/stores/uploader.ts:39-41 | returns the observed file, clearing dangling references as the queues' getters do; the auto queue is asked only when the user queue has none |
| UploaderStore.Uploader.SetDismissAllBackedUp | src/models/stores/uploader.ts:49-58 | sets the flag, and clearing it empties both success maps |
| UploaderStore.Uploader.GetNextFileToUpload | src/models/stores/uploader.ts:73-81 | returns `NextFile`, and finding one resets the dismissed flag |
| UploaderStore.Uploader.UpdateFileStatus | src/models/stores/uploader.ts:68-72 | the update goes to the auto queue for an auto-sync file and to the user queue otherwise, leaving the other untouched; in the chosen queue it throws iff the status is success and the entry is missing, success moves the entry to the success map and clears the observed file, failure only clears the observed file, in-progress makes the file observed, needs-upload and cancelled change nothing |
| UploaderStore.Uploader.StartUploading | src/models/stores/uploader.ts:82-101 | nothing starts while a file is observed; otherwise the next file (user queue first) starts and becomes observed in its own queue |
| UploaderStore.Uploader.DismissAllFailed | src/models/stores/uploader.ts:59-62 | both queues drop their failed entries |
| UploaderStore.Uploader.RetryAllFailed | src/models/stores/uploader.ts:63-67 | both queues retry their failed entries |
| UploaderStore.Uploader.RetryFailed | src/models/stores/uploader.ts:102-107 | the file's own queue requeues it when on disk and removes it otherwise |
| UploaderStore.Uploader.ClearSuccessful | src/models/stores/uploader.ts:108-111 | both success maps are emptied |
| UploaderStore.Uploader.DismissAllNeedUpload | src/models/stores/uploader.ts:112-115 | both queues mark their waiting entries failed |
| UploaderStore.Uploader.DismissInProgress | src/models/stores/uploader.ts:116-124 | with an observed file, its own queue marks it failed (or throws when the reference is dangling, skipping the restart); without one, nothing but the restart happens |
| UploaderStore.Uploader.DismissFile | src/models/stores/uploader.ts:125-134 | a file that is not in progress is removed from its own queue if failed and marked failed otherwise, the other queue unchanged; an automatic-sync file gets the corrected behaviour, see Findings |
| UploaderStore.AutoDismissAsWritten | src/models/stores/auto-sync.ts:98-102 | as written: a failed upload is removed; any other makes the call throw and leaves the queue as it was |
| UploaderStore.AutoDismissAsWrittenKeepsWaiting | src/models/stores/auto-sync.ts:98-102 | a waiting automatic-sync upload stays waiting as written, where marking it failed was intended |
| UploaderStore.Uploader.ResetLoadingError | src/models/stores/uploader.ts:137-141 | the auto queue requeues its in-progress entries, the user queue fails all of its entries, and both success maps are empty |
| UploaderStore.Uploader.Reset | src/models/stores/uploader.ts:142-146 | both queues are empty with nothing observed, the shadow size is 0 and the notice is dismissed, so not all-backed-up |
| ArrayUtils.PathSequence | src/utils/array.ts:12-28 | fails exactly when the path does not start with '/'; "/" gives ["/"]; otherwise at least one entry |
| ArrayUtils.SplitAbsolute | src/utils/array.ts:21-22 | splitting an absolute path yields an empty first piece, which `shift` drops |
| ArrayUtils.PathSequenceStep | src/utils/array.ts:24-26 | each entry is the previous one plus '/' plus the next segment, so the result lists the '/'-prefixes of the path |
| ArrayUtils.PathSequenceLast | src/utils/array.ts:16-27 | the last entry is the whole path without its trailing '/' |
| ArrayUtils.PathSequenceFirst | src/utils/array.ts:4-27 | for a non-root path the first entry is the first directory, never "/" (unlike the example in the comment) |
| ArrayUtils.SortByProperty | src/utils/array.ts:66-69 | always 1 or -1, never 0; 'desc' gives 1 iff `b[k] > a[k]`, 'asc' gives 1 iff `b[k] < a[k]` |
| ArrayUtils.StrLessTotal | src/utils/array.ts:67-68 | string comparison is a strict total order |
| ArrayUtils.SortByPropertyAntisymmetric | src/utils/array.ts:66-69 | for distinct comparable values, swapping the arguments or the order flips the result |
| ArrayUtils.SortByPropertyTies | src/utils/array.ts:66-69 | equal or missing values compare as -1 both ways, so the comparator is not consistent on ties |
| ArrayUtils.ReduceByKey | src/utils/array.ts:71-76 | the result has each key once |
| ArrayUtils.ReduceByKeyGet | src/utils/array.ts:71-76 | each key maps to the last element carrying it: later duplicates overwrite earlier ones |
| ArrayUtils.GroupByPath | src/utils/array.ts:82-89 | each path is a key once |
| ArrayUtils.GroupByPathGet | src/utils/array.ts:82-89 | a path maps to exactly its elements, in input order, and is absent when it has none |
| OrderedMaps.Keys | src/utils/array.ts:101-103 | the map's keys, one per entry, in insertion order |
| OrderedMaps.LastWithId | src/models/stores/models/queue.ts:53-55 | the last item with the identifier: present iff some item has it, and then an item that has it |
| OrderedMaps.GetPutAll | src/models/stores/models/queue.ts:53-55 | after storing items one by one, a key holds the last item with that identifier, or what it held before when no item has it |
| OrderedMaps.PutAllKeepsOrder | src/models/stores/models/download-queue.ts:54-56 | storing items keeps every earlier key at its position, adds at most one entry per item, and every entry is an earlier one or an item |
| OrderedMaps.KeyedByPutAll | src/models/stores/models/queue.ts:53-55 | a map whose entries sit under their own identifiers keeps that after storing items by identifier |
| OrderedMaps.ValuesWhereInOrder | src/models/stores/models/download-queue.ts:72-76 | the filtered values sit at increasing positions of the map, and every passing position is among them: exactly the passing values, in entry order |
| StringUtils.FileExtension | src/utils/string.ts:5 | the text after the last '.': a suffix with no '.', preceded by '.', or the whole name when it has no dot |
| StringUtils.FileNameWithoutExtension | src/utils/string.ts:6 | none iff no name; otherwise the text before the first '.', a prefix with no '.' |
| StringUtils.TruncateString | src/utils/string.ts:26-32 | the input when its length is at most num + 3; otherwise its first num characters followed by "..." (num + 3 characters), never longer than the input; for a negative num, the input without its last -num characters, followed by "..." |
| StringUtils.IsEmpty | src/utils/string.ts:34-36 | true exactly when the value is present and not empty, the opposite of what the name says |
| StringUtils.Slash | src/utils/string.ts:38-40 | "" iff the path ends in '/', else "/" |
| StringUtils.GetUri | src/utils/string.ts:42-44 | the path, then exactly one '/', then the name |
| StringUtils.GetPrevPath | src/utils/string.ts:46-53 | "/" for "/"; otherwise the path without its last '/'-segment, so a path without '/' gives "" |
| StringUtils.GetDirNameFromPath | src/utils/string.ts:55-62 | "" for "/"; otherwise the last segment: a suffix without '/' that follows a '/' or is the whole path |
| StringUtils.PrevPathOfTopLevel | src/utils/string.ts:46-62 | "/a" has previous path "" (not "/") and directory name "a" |
| StringUtils.UriOfPrevPath | src/utils/string.ts:42-62 | joining the previous path and the directory name gives the path back, for any path other than "/" that contains '/' and has no empty inner segment |
| StringUtils.PrevNotSlash | src/utils/string.ts:38-53 | a previous path that ends in a non-empty segment gets a '/' added by `slash` |
| TimeOfDay.DisplayHour | src/utils/date.ts:20-22 | the displayed hour lies in 1..12 and agrees with the hour modulo 12, so 0 and 12 both show as 12 |
| TimeOfDay.DisplayHourDetermines | src/utils/date.ts:19-22 | the displayed hour together with AM/PM determines the hour of the day |
| TimeOfDay.TwoDigits | src/utils/date.ts:24-26 | two decimal digits whose value is the number, with a leading '0' below 10 |
| TimeOfDay.HourText | src/utils/date.ts:20-25 | one or two digits reading back as the displayed hour; exactly two when padding is on |
| TimeOfDay.Suffix | src/utils/date.ts:19-27 | " AM" before noon and " PM" from noon when shown, empty otherwise |
| TimeOfDay.FormatTimeOfDay | src/utils/date.ts:16-29 | length bounds; the two characters before the suffix are the minutes; the text ends in "AM" iff the hour is before noon |
| TimeOfDay.FormatTimeOfDayReadsBack | src/utils/date.ts:16-29 | the leading digits read back as the displayed hour, with or without AM/PM; with AM/PM shown, the suffix gives the half of the day |
| TimeOfDay.FormatTimeOfDayInjective | src/utils/date.ts:16-29 | with AM/PM shown, two times of day that format alike are the same time |
| Thumbnail.PutEach | src/config/thumbnail-data.ts:39-41 | adding one kind's extensions keeps one entry per extension |
| Thumbnail.TypeDict | src/config/thumbnail-data.ts:38-43 | the extension table has one entry per extension |
| Thumbnail.PutEachGet | src/config/thumbnail-data.ts:39-41 | an extension of this kind now maps to it; every other lookup is unchanged |
| Thumbnail.TypeDictGet | src/config/thumbnail-data.ts:38-43 | an extension maps to the last kind that lists it, and is absent when no kind does |
| Thumbnail.KindsLastKind | src/config/thumbnail-data.ts:1-43 | the shipped lists are disjoint, so each listed type maps to the one kind that lists it |
| Thumbnail.ExtensionTypeDict | src/config/thumbnail-data.ts:38-43 | the table built from the shipped lists has one entry per type |
| Thumbnail.GetThumbnail | src/config/thumbnail-data.ts:46-49 | "folder" for a directory; otherwise one of the six kinds or "unsupported" |
| Thumbnail.GetThumbnailKinds | src/config/thumbnail-data.ts:46-49 | a file's listed type gives its kind; a type no list contains gives "unsupported" |
| Thumbnail.ReadProperty | src/config/thumbnail-data.ts:48 | a property read on a plain object finds an own entry, else an inherited Object.prototype member, else undefined |
| Thumbnail.ThumbnailAsWritten | src/config/thumbnail-data.ts:46-49 | the lookup as written returns an inherited member exactly for a file whose type is unlisted and names an Object.prototype member |
| Thumbnail.ThumbnailAsWrittenConstructor | src/config/thumbnail-data.ts:48 | type "constructor" yields the inherited Object constructor instead of "unsupported" |
| Thumbnail.ThumbnailAsWrittenAgrees | src/config/thumbnail-data.ts:46-49 | for every other type the lookup as written agrees with GetThumbnail |
| FileInfos.Name | lib/rn-file-scanner/android/vAndroidSDK/src/main/java/com/opacity/androidsdk/filesys/FileInfo.kt:8-13 | the file name: the part of the path after its last '/', or the whole path when it has none |
| FileInfos.Extension | lib/rn-file-scanner/android/vAndroidSDK/src/main/java/com/opacity/androidsdk/filesys/FileInfo.kt:16 | the extension contains no '.' and is no longer than the name |
| FileInfos.ExtensionOfName | lib/rn-file-scanner/android/vAndroidSDK/src/main/java/com/opacity/androidsdk/filesys/FileInfo.kt:16 | the extension is empty iff the name has no '.' or ends in one; otherwise it is the text after the name's last '.' |
| FileInfos.GetPath | lib/rn-file-scanner/android/vAndroidSDK/src/main/java/com/opacity/androidsdk/filesys/FileInfo.kt:17-37 | a non-empty directory path gets exactly one '/' appended; any other path is returned as is |
| FileInfos.JavaParent | lib/rn-file-scanner/android/vAndroidSDK/src/main/java/com/opacity/androidsdk/filesys/FileInfo.kt:39-41 | java.io.File's parent is absent for "/" and for a path without '/'; otherwise it is a strict prefix of the path |
| FileInfos.GetParent | lib/rn-file-scanner/android/vAndroidSDK/src/main/java/com/opacity/androidsdk/filesys/FileInfo.kt:39-41 | the parent always ends in '/' (an absent parent reads as "null/") |
| FileInfos.GetMimeType | lib/rn-file-scanner/android/vAndroidSDK/src/main/java/com/opacity/androidsdk/util/Util.kt:76-82 | a directory (no extension) has MIME type "" |
| FileInfos.ParentIsDirectoryPath | lib/rn-file-scanner/android/vAndroidSDK/src/main/java/com/opacity/androidsdk/filesys/FileInfo.kt:17-41 | the parent of a child of a directory equals that directory's path, so both sides carry the trailing '/' |
| FileInfos.TopLevelParent | lib/rn-file-scanner/android/vAndroidSDK/src/main/java/com/opacity/androidsdk/filesys/FileInfo.kt:39-41 | an entry directly under "/" has parent "//", which no directory path equals |
| FileInfos.HiddenBelow | lib/rn-file-scanner/android/vAndroidSDK/src/main/java/com/opacity/androidsdk/filesys/FileInfo.kt:78-80 | everything under a hidden directory is hidden, and so is a name starting with '.' |
| FileInfos.IsListContainsPath | lib/rn-file-scanner/android/vAndroidSDK/src/main/java/com/opacity/androidsdk/filesys/FileInfo.kt:86-91 | true iff some listed entry's path equals the given path |
| FileInfos.IsWhiteListed | lib/rn-file-scanner/android/vAndroidSDK/src/main/java/com/opacity/androidsdk/filesys/FileInfo.kt:82-83 | true iff the entry's own path or its parent is in the list |
| FileInfos.ChildOfListedIsWhiteListed | lib/rn-file-scanner/android/vAndroidSDK/src/main/java/com/opacity/androidsdk/filesys/FileInfo.kt:82-91 | a direct child of a listed directory is white-listed through its parent |
| SyncConfigs.IsSyncOnlyNewPhotos | lib/rn-file-scanner/android/vAndroidSDK/src/main/java/com/opacity/androidsdk/db/entity/SyncConfig.kt:33-41 | true iff a start date is set and is after the epoch |
| SyncConfigs.GetSyncRule | lib/rn-file-scanner/android/vAndroidSDK/src/main/java/com/opacity/androidsdk/db/entity/SyncConfig.kt:24-31 | each of the six rules is chosen exactly when its combination of videos, photos and the start date holds |
| SyncConfigs.SyncRuleReadsBack | lib/rn-file-scanner/android/vAndroidSDK/src/main/java/com/opacity/androidsdk/db/entity/SyncConfig.kt:24-31 | apart from "back up all files", the rule gives back whether videos, photos and only new photos are taken |
| SyncConfigs.Parse | lib/rn-file-scanner/android/vAndroidSDK/src/main/java/com/opacity/androidsdk/db/entity/SyncConfig.kt:57-83 | copies the flags and the paths, sets id 0 and the current time, and turns a missing start date into the epoch |
| SyncConfigs.ParseWithoutDate | lib/rn-file-scanner/android/vAndroidSDK/src/main/java/com/opacity/androidsdk/db/entity/SyncConfig.kt:24-83 | a config without a start date never syncs only new photos |
| SyncConfigs.GetWhiteListPaths | lib/rn-file-scanner/android/vAndroidSDK/src/main/java/com/opacity/androidsdk/db/entity/SyncConfig.kt:43-51 | one entry per configured path, in order, built from that path |
| SyncConfigs.WhiteListedByConfig | lib/rn-file-scanner/android/vAndroidSDK/src/main/java/com/opacity/androidsdk/db/entity/SyncConfig.kt:43-51 | a path is listed iff it is the entry path of one of the configured paths |
| SyncConfigs.Int32 | lib/rn-file-scanner/android/vAndroidSDK/src/main/java/com/opacity/androidsdk/db/entity/SyncConfig.kt:53-54 | the 32-bit two's-complement wrap of an integer |
| SyncConfigs.StringHash | lib/rn-file-scanner/android/vAndroidSDK/src/main/java/com/opacity/androidsdk/db/entity/SyncConfig.kt:53-54 | Java's String.hashCode, a 32-bit value |
| SyncConfigs.ListHash | lib/rn-file-scanner/android/vAndroidSDK/src/main/java/com/opacity/androidsdk/db/entity/SyncConfig.kt:53-54 | Java's List.hashCode over the element hashes, a 32-bit value |
| SyncConfigs.IsWhiteListPathsChangedAsWritten | lib/rn-file-scanner/android/vAndroidSDK/src/main/java/com/opacity/androidsdk/db/entity/SyncConfig.kt:53-54 | comparing hash codes never reports equal lists as changed |
| SyncConfigs.IsWhiteListPathsChanged | lib/rn-file-scanner/android/vAndroidSDK/src/main/java/com/opacity/androidsdk/db/entity/SyncConfig.kt:53-54 | true iff the two path lists differ |
| SyncConfigs.AsWrittenReportsOnlyChanges | lib/rn-file-scanner/android/vAndroidSDK/src/main/java/com/opacity/androidsdk/db/entity/SyncConfig.kt:53-54 | everything the hash comparison reports is a real change |
| SyncConfigs.Int32InRange | lib/rn-file-scanner/android/vAndroidSDK/src/main/java/com/opacity/androidsdk/db/entity/SyncConfig.kt:53-54 | wrapping leaves a value already in 32-bit range unchanged |
| SyncConfigs.StringHashCollision | lib/rn-file-scanner/android/vAndroidSDK/src/main/java/com/opacity/androidsdk/db/entity/SyncConfig.kt:53-54 | "/Aa" and "/BB" have the same hash code |
| SyncConfigs.WhiteListHashCollision | lib/rn-file-scanner/android/vAndroidSDK/src/main/java/com/opacity/androidsdk/db/entity/SyncConfig.kt:53-54 | white lists ["/Aa"] and ["/BB"] differ, but the hash comparison reports no change |
| FileRecords.ParseFileStatus | lib/rn-file-scanner/android/vAndroidSDK/src/main/java/com/opacity/androidsdk/db/entity/FileRecord.kt:136-144 | a parsed status is the one whose React Native name is the text; missing or unknown text gives none |
| FileRecords.FileStatusRoundTrip | lib/rn-file-scanner/android/vAndroidSDK/src/main/java/com/opacity/androidsdk/db/entity/FileRecord.kt:129-153 | parsing a status's React Native name gives that status back, and exactly the six names parse |
| FileRecords.ParseSortBy | lib/rn-file-scanner/android/vAndroidSDK/src/main/java/com/opacity/androidsdk/db/entity/FileRecord.kt:167-178 | each of the four names gives its sort order and only that name does; anything else gives none |
| FileRecords.IsFileDateExceedStartDate | lib/rn-file-scanner/android/vAndroidSDK/src/main/java/com/opacity/androidsdk/db/entity/FileRecord.kt:106-120 | true without a start date; otherwise true iff the file was created at or after it |
| FileRecords.GetFileStatus | lib/rn-file-scanner/android/vAndroidSDK/src/main/java/com/opacity/androidsdk/db/entity/FileRecord.kt:65-104 | the status of a freshly scanned file is either needs-sync or no-sync |
| FileRecords.GetFileStatusWanted | lib/rn-file-scanner/android/vAndroidSDK/src/main/java/com/opacity/androidsdk/db/entity/FileRecord.kt:65-104 | needs-sync exactly when the sync rule wants the file: every file for "all files", else videos and/or images as the rule says, photos only from the start date when it is set |
| FileRecords.Build | lib/rn-file-scanner/android/vAndroidSDK/src/main/java/com/opacity/androidsdk/db/entity/FileRecord.kt:44-63 | the record takes key, path, parent, name and MIME type from the scanned file; a directory gets size 0 and needs-sync; a file its length and the rule's status; change CREATED and no last React Native path |
| Converters.FromDateToLong | lib/rn-file-scanner/android/vAndroidSDK/src/main/java/com/opacity/androidsdk/db/converters/Converters.kt:14-16 | the date's milliseconds, 0 for no date |
| Converters.FromLongToDate | lib/rn-file-scanner/android/vAndroidSDK/src/main/java/com/opacity/androidsdk/db/converters/Converters.kt:20-22 | the date at those milliseconds |
| Converters.DateRoundTrip | lib/rn-file-scanner/android/vAndroidSDK/src/main/java/com/opacity/androidsdk/db/converters/Converters.kt:14-22 | date to milliseconds and back is the identity both ways; no date reads back as the epoch |
| Converters.FileStatusValueOf | lib/rn-file-scanner/android/vAndroidSDK/src/main/java/com/opacity/androidsdk/db/converters/Converters.kt:26-34 | a parsed status has that name; any other text is an IllegalArgument error |
| Converters.ChangeValueOf | lib/rn-file-scanner/android/vAndroidSDK/src/main/java/com/opacity/androidsdk/db/converters/Converters.kt:38-46 | a parsed change has that name; any other text is an IllegalArgument error |
| Converters.ScanStatusValueOf | lib/rn-file-scanner/android/vAndroidSDK/src/main/java/com/opacity/androidsdk/db/converters/Converters.kt:50-58 | a parsed scan status has that name; any other text is an IllegalArgument error |
| Converters.EnumNamesRoundTrip | lib/rn-file-scanner/android/vAndroidSDK/src/main/java/com/opacity/androidsdk/db/converters/Converters.kt:26-58 | every status, change and scan status converts to text and back unchanged |
| Converters.WhitelistTextSnoc | lib/rn-file-scanner/android/vAndroidSDK/src/main/java/com/opacity/androidsdk/db/converters/Converters.kt:63-70 | adding a path appends it and one '|' |
| Converters.FromWhitelistedPathsToString | lib/rn-file-scanner/android/vAndroidSDK/src/main/java/com/opacity/androidsdk/db/converters/Converters.kt:61-70 | the paths, each followed by '|', with at least one '|' per path |
| Converters.WhitelistTextBars | lib/rn-file-scanner/android/vAndroidSDK/src/main/java/com/opacity/androidsdk/db/converters/Converters.kt:63-70 | the text has at least one character and one '|' per path |
| Converters.NonEmpty | lib/rn-file-scanner/android/vAndroidSDK/src/main/java/com/opacity/androidsdk/db/converters/Converters.kt:79-83 | keeps only non-empty pieces, each taken from the input |
| Converters.NonEmptySnoc | lib/rn-file-scanner/android/vAndroidSDK/src/main/java/com/opacity/androidsdk/db/converters/Converters.kt:79-83 | an added piece is kept iff it is not empty |
| Converters.WhitelistOf | lib/rn-file-scanner/android/vAndroidSDK/src/main/java/com/opacity/androidsdk/db/converters/Converters.kt:74-86 | the stored text read back as paths: non-empty pieces without '|' |
| Converters.FromStringToWhitelistedPaths | lib/rn-file-scanner/android/vAndroidSDK/src/main/java/com/opacity/androidsdk/db/converters/Converters.kt:72-86 | the loop collects exactly the non-empty pieces between the '|' separators, in order |
| Converters.SplitWhitelistText | lib/rn-file-scanner/android/vAndroidSDK/src/main/java/com/opacity/androidsdk/db/converters/Converters.kt:63-78 | splitting the stored text at '|' gives the paths and one empty tail piece |
| Converters.NonEmptyKeeps | lib/rn-file-scanner/android/vAndroidSDK/src/main/java/com/opacity/androidsdk/db/converters/Converters.kt:79-83 | dropping empty pieces keeps non-empty paths and removes the tail piece |
| Converters.WhitelistRoundTrip | lib/rn-file-scanner/android/vAndroidSDK/src/main/java/com/opacity/androidsdk/db/converters/Converters.kt:61-86 | storing and reading back gives the same list for paths that are non-empty and contain no '|' |
| Converters.EmptyPathDropped | lib/rn-file-scanner/android/vAndroidSDK/src/main/java/com/opacity/androidsdk/db/converters/Converters.kt:61-86 | an empty path is lost in the round trip: [""] is stored as "|" and read back as [] |
| RnFiles.ParseRecord | lib/rn-file-scanner/android/vAndroidSDK/src/main/java/com/opacity/androidsdk/db/data/File.kt:42-53 | status "deleted" for a deleted record, else the record's status name; the path shown is the last React Native path when there is one; updatedPath is the current path exactly when it differs from that one; type and size copied |
| RnFiles.GetMap | lib/rn-file-scanner/android/vAndroidSDK/src/main/java/com/opacity/androidsdk/db/data/File.kt:17-30 | the map has exactly the five keys, the updated path stored as null when absent |
| RnFiles.ReadString | lib/rn-file-scanner/android/vAndroidSDK/src/main/java/com/opacity/androidsdk/db/data/File.kt:59-65 | reading a key gives its string, nothing for a missing or null key, and an error for a number |
| RnFiles.ParseStatusMap | lib/rn-file-scanner/android/vAndroidSDK/src/main/java/com/opacity/androidsdk/db/data/File.kt:55-71 | a record exactly when path and status are strings and the status name parses; an error when either holds a number; nothing otherwise |
| RnFiles.ShownRecordReadsBack | lib/rn-file-scanner/android/vAndroidSDK/src/main/java/com/opacity/androidsdk/db/data/File.kt:17-71 | a record shown to React Native and read back gives its shown path and its status, "deleted" for a deleted record |
| EventsManagers.BuildIntent | lib/rn-file-scanner/android/vAndroidSDK/src/main/java/com/opacity/androidsdk/util/EventsManager.kt:66-149 | each scan event becomes a scan-status intent carrying its React Native value; the file-change event an intent with the file-changed action and no extras |
| EventsManagers.BuildIntentReadsBack | lib/rn-file-scanner/android/vAndroidSDK/src/main/java/com/opacity/androidsdk/util/EventsManager.kt:66-149 | every event's intent identifies that event again |
| EventsManagers.FileChangeIntent | lib/rn-file-scanner/android/vAndroidSDK/src/main/java/com/opacity/androidsdk/util/EventsManager.kt:27-36 | the file-changed intent carries exactly the path and the size |
| EventsManagers.RunningHoldsFileEvents | lib/rn-file-scanner/android/vAndroidSDK/src/main/java/com/opacity/androidsdk/util/EventsManager.kt:43-63 | while the last event sent is "scan running", any run of new-file and file-change events broadcasts nothing and keeps "scan running" as the last event |
| EventsManagers.EventsManager.constructor | lib/rn-file-scanner/android/vAndroidSDK/src/main/java/com/opacity/androidsdk/util/EventsManager.kt:14-15 | no event sent yet and nothing broadcast |
| EventsManagers.EventsManager.Send | lib/rn-file-scanner/android/vAndroidSDK/src/main/java/com/opacity/androidsdk/util/EventsManager.kt:43-63 | broadcasts and records the event unless it is suppressed by a running scan or there is no live context; otherwise nothing changes |
| EventsManagers.EventsManager.SendScanStatusRNEvent | lib/rn-file-scanner/android/vAndroidSDK/src/main/java/com/opacity/androidsdk/util/EventsManager.kt:17-25 | sends the event's own intent under the same rule |
| EventsManagers.EventsManager.SendFileChangeRNEvent | lib/rn-file-scanner/android/vAndroidSDK/src/main/java/com/opacity/androidsdk/util/EventsManager.kt:27-41 | sends the file-change intent with path and size under the same rule |
| FilesDaos.NoChangeIffAsBuilt | lib/rn-file-scanner/android/vAndroidSDK/src/main/java/com/opacity/androidsdk/db/dao/FilesDao.kt:387-398 | a row shows no change exactly when its path, parent, name and (for a file) size match what building a record from the file would give; MODIFIED exactly when a file's size differs |
| FilesDaos.RefreshedIsCurrent | lib/rn-file-scanner/android/vAndroidSDK/src/main/java/com/opacity/androidsdk/db/dao/FilesDao.kt:401-438 | after the update or the restore, the row matches the file on disk and is no longer marked deleted |
| FilesDaos.BuiltIsCurrent | lib/rn-file-scanner/android/vAndroidSDK/src/main/java/com/opacity/androidsdk/db/dao/FilesDao.kt:376-379 | a freshly inserted row matches the file on disk and is not marked deleted |
| FilesDaos.RescanIsQuiet | lib/rn-file-scanner/android/vAndroidSDK/src/main/java/com/opacity/androidsdk/db/dao/FilesDao.kt:371-449 | scanning the same file twice: the second scan changes no row and sends no notice |
| FilesDaos.NewFileIffAbsent | lib/rn-file-scanner/android/vAndroidSDK/src/main/java/com/opacity/androidsdk/db/dao/FilesDao.kt:373-384 | a new-file notice is sent exactly when the file's key has no row yet |
| FilesDaos.MovedChildrenUnderTarget | lib/rn-file-scanner/android/vAndroidSDK/src/main/java/com/opacity/androidsdk/db/dao/FilesDao.kt:452-512 | moving a directory's children keeps the keys; every row below the old directory is now below the new one with the same remainder of its parent path; every other row is unchanged |
| FilesDaos.MoveChildrenRoundTrip | lib/rn-file-scanner/android/vAndroidSDK/src/main/java/com/opacity/androidsdk/db/dao/FilesDao.kt:452-512 | moving children to a directory nothing lives under and back restores every row's path and parent |
| FilesDaos.MovedPathBack | lib/rn-file-scanner/android/vAndroidSDK/src/main/java/com/opacity/androidsdk/db/dao/FilesDao.kt:464-465 | swapping the directory prefix is undone by swapping it back, and a path is below the old directory iff its moved path is below the new one |
| FilesDaos.AsWrittenAgreesWhenLeadingOnly | lib/rn-file-scanner/android/vAndroidSDK/src/main/java/com/opacity/androidsdk/db/dao/FilesDao.kt:460-466 | the query-and-replace as written agrees with the prefix move when the old directory path occurs in each row only at the start, if at all |
| FilesDaos.ReplaceLeading | lib/rn-file-scanner/android/vAndroidSDK/src/main/java/com/opacity/androidsdk/db/dao/FilesDao.kt:464-465 | replacing every occurrence equals swapping the prefix when the old path occurs only at the start |
| FilesDaos.MoveChildrenAsWrittenStrays | lib/rn-file-scanner/android/vAndroidSDK/src/main/java/com/opacity/androidsdk/db/dao/FilesDao.kt:460-466 | a row at "/t/s/a/f" is picked by `instr` when "/s/a/" moves to "/s/b/" and is rewritten to "/t/s/b/f", while the prefix move leaves it alone |
| FilesDaos.LastRNPathsRecorded | lib/rn-file-scanner/android/vAndroidSDK/src/main/java/com/opacity/androidsdk/db/dao/FilesDao.kt:305-321 | applying the records keeps the keys; each row's last React Native path becomes that of the last record with its key, all its other fields stay |
| FilesDaos.StatusesApplied | lib/rn-file-scanner/android/vAndroidSDK/src/main/java/com/opacity/androidsdk/db/dao/FilesDao.kt:322-337 | applying the records keeps the keys; each row takes the status of the last record naming its last React Native path, all its other fields stay |
| FilesDaos.CountsBounded | lib/rn-file-scanner/android/vAndroidSDK/src/main/java/com/opacity/androidsdk/db/dao/FilesDao.kt:67-82 | the count of files with a given status, and of deleted files, never exceeds the count of all files |
| FilesDaos.CountFiles | lib/rn-file-scanner/android/vAndroidSDK/src/main/java/com/opacity/androidsdk/db/dao/FilesDao.kt:80-82 | at most the table size, and zero iff every row is a directory |
| FilesDaos.CountFilesWithStatus | lib/rn-file-scanner/android/vAndroidSDK/src/main/java/com/opacity/androidsdk/db/dao/FilesDao.kt:68-72 | zero iff no file (non-directory row) has the status |
| FilesDaos.CountDeletedFiles | lib/rn-file-scanner/android/vAndroidSDK/src/main/java/com/opacity/androidsdk/db/dao/FilesDao.kt:74-78 | zero iff no file (non-directory row) is marked deleted |
| FilesDaos.Scanned | lib/rn-file-scanner/android/vAndroidSDK/src/main/java/com/opacity/androidsdk/db/dao/FilesDao.kt:371-449 | the scanned file's key is added to the table's keys and no key is lost |
| FilesDaos.Announce | lib/rn-file-scanner/android/vAndroidSDK/src/main/java/com/opacity/androidsdk/db/dao/FilesDao.kt:384-442 | no notice leaves the events manager as it was; otherwise the sent intents grow by at most one, keeping the earlier ones |
| FilesDaos.ScanAll | lib/rn-file-scanner/android/vAndroidSDK/src/main/java/com/opacity/androidsdk/db/dao/FilesDao.kt:359-369 | the sent intents keep the earlier ones and grow by at most one per scanned file |
| FilesDaos.ScanAllKeys | lib/rn-file-scanner/android/vAndroidSDK/src/main/java/com/opacity/androidsdk/db/dao/FilesDao.kt:359-369 | after a scan the table's keys are exactly the old keys plus the keys of the scanned files |
| FilesDaos.MoveChildren | lib/rn-file-scanner/android/vAndroidSDK/src/main/java/com/opacity/androidsdk/db/dao/FilesDao.kt:460-466 | keys are kept; every row whose parent is at or below the old directory is marked MOVED with the current date and keeps its name; no other row changes |
| FilesDaos.MoveChildrenAsWritten | lib/rn-file-scanner/android/vAndroidSDK/src/main/java/com/opacity/androidsdk/db/dao/FilesDao.kt:64-65 | keys are kept; every row whose parent merely contains the old path is marked MOVED with the current date; no other row changes |
| Text.ReplaceAll | lib/rn-file-scanner/android/vAndroidSDK/src/main/java/com/opacity/androidsdk/db/dao/FilesDao.kt:464-465 | replacing a pattern by one of equal length keeps the length, and replacing it by itself changes nothing |
| FilesDaos.FilesDao.constructor | lib/rn-file-scanner/android/vAndroidSDK/src/main/java/com/opacity/androidsdk/db/dao/FilesDao.kt:17-18 | an empty table |
| FilesDaos.FilesDao.ClassifyChange | lib/rn-file-scanner/android/vAndroidSDK/src/main/java/com/opacity/androidsdk/db/dao/FilesDao.kt:387-398 | the change found between a row and the file: MOVED for a new path or parent, RENAMED for a new name, MODIFIED for a new size, each later test overriding the earlier |
| FilesDaos.FilesDao.AddFileOrUpdateIfExists | lib/rn-file-scanner/android/vAndroidSDK/src/main/java/com/opacity/androidsdk/db/dao/FilesDao.kt:371-449 | the table after one scanned file (insert, update or restore) and the notice it sends: new file, file changed with its reported path and size, or nothing |
| FilesDaos.FilesDao.UpdateIfChanged | lib/rn-file-scanner/android/vAndroidSDK/src/main/java/com/opacity/androidsdk/db/dao/FilesDao.kt:386-446 | an existing row is refreshed from the file; a file-change notice goes out when it was modified or restored |
| FilesDaos.FilesDao.AddFilesOrUpdateIfExists | lib/rn-file-scanner/android/vAndroidSDK/src/main/java/com/opacity/androidsdk/db/dao/FilesDao.kt:359-369 | the table and the events after scanning the files in order |
| FilesDaos.FilesDao.MoveSubFiles | lib/rn-file-scanner/android/vAndroidSDK/src/main/java/com/opacity/androidsdk/db/dao/FilesDao.kt:460-473 | every row below the old directory path gets the new prefix on its path and parent and is marked MOVED; no other row changes |
| FilesDaos.FilesDao.UpdateDirNameAndItsSubFiles | lib/rn-file-scanner/android/vAndroidSDK/src/main/java/com/opacity/androidsdk/db/dao/FilesDao.kt:452-477 | the directory's row gets its new path and name, marked RENAMED, then its children are moved |
| FilesDaos.FilesDao.UpdateDirPathAndItsSubFiles | lib/rn-file-scanner/android/vAndroidSDK/src/main/java/com/opacity/androidsdk/db/dao/FilesDao.kt:479-512 | the directory's row gets its new path, parent and name, marked MOVED, then its children are moved |
| FilesDaos.FilesDao.UpdateFilesLastRNPath | lib/rn-file-scanner/android/vAndroidSDK/src/main/java/com/opacity/androidsdk/db/dao/FilesDao.kt:305-321 | the table after recording each record's last React Native path, in order |
| FilesDaos.FilesDao.UpdateFilesStatusByLastRNPath | lib/rn-file-scanner/android/vAndroidSDK/src/main/java/com/opacity/androidsdk/db/dao/FilesDao.kt:322-337 | the table after applying each record's status to the rows with that last React Native path, in order |
| FilesSyncSdk.GetTotalCount | lib/rn-file-scanner/android/vAndroidSDK/src/main/java/com/opacity/androidsdk/FilesSyncSDK.kt:125-145 | all files for a missing or unknown status, the deleted files for "deleted", otherwise the files with that status; never more than all files |
| FilesSyncSdk.ToInt | lib/rn-file-scanner/android/vAndroidSDK/src/main/java/com/opacity/androidsdk/FilesSyncSDK.kt:238 | Kotlin's Double.toInt: rounds toward zero and saturates at the 32-bit bounds |
| FilesSyncSdk.PageEntries | lib/rn-file-scanner/android/vAndroidSDK/src/main/java/com/opacity/androidsdk/FilesSyncSDK.kt:250-268 | at most 25 consecutive entries of the listing from the start index, at least one when the start is inside it |
| FilesSyncSdk.ParseAll | lib/rn-file-scanner/android/vAndroidSDK/src/main/java/com/opacity/androidsdk/FilesSyncSDK.kt:262-267 | each shown row is `File.parse` of the row at the same position |
| FilesSyncSdk.PageReadsBack | lib/rn-file-scanner/android/vAndroidSDK/src/main/java/com/opacity/androidsdk/FilesSyncSDK.kt:237-289 | for a known directory the request fails exactly when the page number is below 1; a non-empty page runs from its 1-based start to its end inclusive, holds at most 25 entries, each the parsed row at that position, and those rows are the ones recorded as shown |
| FilesSyncSdk.EveryEntryOnOnePage | lib/rn-file-scanner/android/vAndroidSDK/src/main/java/com/opacity/androidsdk/FilesSyncSDK.kt:237-239 | the entry at index i lies on page i / 25 + 1 and on no other |
| FilesSyncSdk.PageStartAgrees | lib/rn-file-scanner/android/vAndroidSDK/src/main/java/com/opacity/androidsdk/FilesSyncSDK.kt:237-239 | the 32-bit start index is exact for page numbers up to 85899346 |
| FilesSyncSdk.PageStartWraps | lib/rn-file-scanner/android/vAndroidSDK/src/main/java/com/opacity/androidsdk/FilesSyncSDK.kt:237-239 | page 171798693 overflows: the start index as written is 4 instead of 4294967300 |
| FilesSyncSdk.PageStart | lib/rn-file-scanner/android/vAndroidSDK/src/main/java/com/opacity/androidsdk/FilesSyncSDK.kt:237-239 | for page n ≥ 1, a non-negative multiple of 25 that is the start of page n; negative for n < 1 |
| FilesSyncSdk.PageStartAsWritten | lib/rn-file-scanner/android/vAndroidSDK/src/main/java/com/opacity/androidsdk/FilesSyncSDK.kt:237-239 | a 32-bit value congruent to the exact start index modulo 2^32 |
| FilesSyncSdk.GetFilesInDir | lib/rn-file-scanner/android/vAndroidSDK/src/main/java/com/opacity/androidsdk/FilesSyncSDK.kt:153-292 | the answer is the page described above (the empty dummy page for missing options, an empty path, an unknown directory or a start past the end); the rows shown get their last React Native path recorded |
| FilesSyncSdk.FilesInDir | lib/rn-file-scanner/android/vAndroidSDK/src/main/java/com/opacity/androidsdk/FilesSyncSDK.kt:153-292 | missing options give the empty dummy page and no rows; an error or an unknown directory shows no rows; rows shown are at most one page and the answer's data is exactly their parsed form |
| FilesSyncSdk.StatusUpdates | lib/rn-file-scanner/android/vAndroidSDK/src/main/java/com/opacity/androidsdk/FilesSyncSDK.kt:309-326 | an error is the error of some present item whose map fails to parse |
| FilesSyncSdk.ReadPage | lib/rn-file-scanner/android/vAndroidSDK/src/main/java/com/opacity/androidsdk/FilesSyncSDK.kt:250-268 | the loop collects exactly the page's rows and their parsed files, stopping at the end of the listing |
| FilesSyncSdk.UpdatesNeverStoreFailure | lib/rn-file-scanner/android/vAndroidSDK/src/main/java/com/opacity/androidsdk/FilesSyncSDK.kt:309-326 | at most one update per item, and none of them carries "upload failed" |
| FilesSyncSdk.ShownPageReadsBack | lib/rn-file-scanner/android/vAndroidSDK/src/main/java/com/opacity/androidsdk/FilesSyncSDK.kt:309-326 | the maps of a page's files, sent back unchanged, give one update per file with the path the app knows and the shown status, failures retried |
| FilesSyncSdk.UpdateFilesStatus | lib/rn-file-scanner/android/vAndroidSDK/src/main/java/com/opacity/androidsdk/FilesSyncSDK.kt:294-345 | a missing or empty array answers true and changes nothing; a malformed item fails and changes nothing; otherwise the parsed statuses are applied and the answer says whether any item parsed |
| FilesSyncSdk.StatusErrorSticks | lib/rn-file-scanner/android/vAndroidSDK/src/main/java/com/opacity/androidsdk/FilesSyncSDK.kt:310-326 | once an item throws, later items do not change the outcome |
| Bytes.BE32 | lib/opacity-library/src/account-system/MetadataAccess.ts:64-68 | the four big-endian bytes written for a 32-bit count or length |
| Bytes.ReadBE32 | lib/opacity-library/src/account-system/MetadataAccess.ts:93-97 | the 32-bit value read from four big-endian bytes, below 2^32 |
| Bytes.ReadBE32OfBE32 | lib/opacity-library/src/account-system/MetadataAccess.ts:64-93 | reading back a written word gives the number modulo 2^32 |
| Bytes.BE32OfReadBE32 | lib/opacity-library/src/account-system/MetadataAccess.ts:64-93 | writing back a read word gives the same four bytes |
| Text.Split | src/utils/string.ts:46-53 | one more piece than separators, none containing the separator |
| Text.JoinSplit | src/utils/string.ts:46-53 | joining the pieces of a split with the same separator gives the text back |
| Text.SplitJoin | src/utils/string.ts:46-53 | splitting a join of separator-free pieces gives the pieces back |

## Left out

**Platform and runtime**
- Coroutines, `synchronized` blocks, MobX reactions and Promise ordering: each operation is modelled as one atomic step.
- Clocks and the current date are a parameter of every operation that reads them; one reading is used per call.
- Room and SQL:
  - the queries that list, sort and search a directory are replaced by a parameter (the listing, and whether the directory has a row);
  - the other DAO queries that no modelled operation uses are not modelled;
  - `updateFilesHash` and SHA-256 checksums are not modelled.
- `java.io.File` path normalisation is not modelled; a path is kept as given.
- `Os.stat` and the file key, file length, creation date and MIME-type lookup are values given with each scanned file.
- Kotlin `Double` values (sizes and page positions sent to React Native) are integers in the model. `Double.toInt` on the page number is modelled exactly, by `FilesSyncSdk.ToInt`.
- List sizes near 2^31 are not modelled.
- The camera-folder substitution in `getFilesInDir` is not modelled, because it depends on the storage volumes of the device.
- `GetFilesOptions` and `Config` parsing from React Native maps are not modelled, because they are bridge plumbing.

**Logger**
- The stack inspection in the logger is replaced by the caller's class name, given as an input.
- The Android log sinks are recorded as a list of emissions.
- The file write is a parameter that says whether it succeeded. All writes made in one log call succeed or fail together.
- The logger's static state is one object.

**Protocol, crypto and network**
- Encryption (AES-GCM), Automerge merging, HTTP requests and base64 encodings are not modelled:
  - a stored block is its ciphertext, tag and iv as opaque bytes;
  - a metadata document is the list of its changes;
  - fetched payloads are a parameter;
  - derived paths take the already-encoded location.
- `util/uint.ts` and `util/b64.ts` are not part of this model. `Bytes.BE32` and `Bytes.ReadBE32` state what the packing code needs of them.
- The text of the HTTP `Range` header is not modelled; only its byte bounds are.
- `hexToBytes` is modelled on strings of hex digits; its output for other characters is not modelled.
- The stream's chunk size must be positive, which the source's callers always ensure.

**App helpers not modelled**
- `getRandomList` and `getRandomPhrases`: random, and `getRandomList` never terminates when asked for more items than the array holds.
- `capitalizeFirstLetter`, `toUpperCaseFirstLetter`, `geCameraUploadedFileName`, `getDocumentPath`, `getDateText` and `timeOut`: locale, clock or file-system glue.
- `reduceListByPropUri` is `reduceArrayToObjectByKey` with the key `uri`, so `ArrayUtils.ReduceByKey` covers it.
- `uploadFileList`: it hands files to the `FileUploader` and the database. The uploader store's other actions are modelled.

**Weaker contracts**
- FileInfos.GetMimeType: states only that a directory has MIME type "", because the extension-to-type table belongs to Android's `MimeTypeMap`.
- FileRecords.GetFileStatus: its own contract says only that the status is needs-sync or no-sync. `FileRecords.GetFileStatusWanted` gives the full rule.
- FilesDaos.FilesDao.UpdateDirNameAndItsSubFiles: selects children by path prefix rather than by `instr` and replace-all, per the finding below. `FilesDaos.MoveChildrenAsWritten` models the code as written.
- FilesDaos.FilesDao.UpdateDirPathAndItsSubFiles: the same, per the same finding.
- UserDownload.UserDownloadStore.DownloadFile: uses the collision-free key, per the finding below. `UserDownload.KeyAsWritten` models the code as written.
- AccountPaths.ValidateFilename: measures a name in characters (Unicode scalar values). JavaScript's `length` counts UTF-16 code units, so a name with characters outside the Basic Multilingual Plane is longer in the source than in the model. The same holds for all the string operations below.
- StringUtils.TruncateString: its length test and slice count characters, not UTF-16 code units.
- DebugTree.LineChunks: cuts chunks at 4000 characters, where Java's `substring` cuts at 4000 UTF-16 code units.
- DebugTree.LogTree.SaveToLocal: compares the buffer with the 22000 write limit in characters, not UTF-16 code units. A failed write's report is the fixed text "can't save log locally - e:"; the exception text the source appends to it is not modelled.
- SyncConfigs.StringHash: hashes characters, where Java's `String.hashCode` hashes UTF-16 code units. The two agree on text inside the Basic Multilingual Plane.
- ArrayUtils.SortByProperty: orders strings by `ArrayUtils.StrLess` on characters, where JavaScript's `>` compares UTF-16 code units. The two orders differ only between a character outside the Basic Multilingual Plane and one in U+E000..U+FFFF.
- DebugTree.TimeLabel: renders the time of day in UTC. `SimpleDateFormat` uses the device's time zone, which is not an input of the model.
- DebugTree.HourOf: counts whole UTC hours since the epoch. The source names the hourly file by the local date and hour, so the files cut at the same instants only in whole-hour time zones.
- DebugTree.LogTree.Log: a short stack trace gives the corrected `GetPrefix` fault (`SyntheticStackTooShort`), not the index fault that the code as written raises, per the finding below. `DebugTree.GetPrefixAsWritten` models the code as written.
- FilesSyncSdk.GetFilesInDir: uses the exact start index `PageStart`, without the 32-bit wrap-around, per the finding below. `FilesSyncSdk.PageStartAsWritten` models the code as written.
- UploaderStore.Uploader.DismissFile: an automatic-sync file gets the intended behaviour of the queue's `dismissFile`, per the finding below. `UploaderStore.AutoDismissAsWritten` models the code as written. The database write that marks the file "no-sync" is not modelled, because the file database is not part of the uploader model. The queue change is modelled as happening before `startUploading`, whereas the source may run it after, since the action is asynchronous.
- UploaderStore.Uploader.UpdateFileStatus: for an automatic-sync success or failure, the source also writes the status to the device's file database and calls `startAutoSync`. `startAutoSync` may page in more uploads and start one. Neither effect is modelled: the database and the paging call go through the native module, which is not part of this model.
- UploaderStore.Uploader.DismissInProgress: the call to `FileUploader.removeFromQueue`, which cancels the native upload, is not modelled. The native uploader is not part of this model.
- UploaderStore.Uploader.SetDismissAllBackedUp: the `fromUserIntent` argument and the `authStore.updateUser()` call it triggers are not modelled, because the account store is not part of this model.

## Findings

| source | as written | input that shows it | evidently intended | confidence | as-written member | corrected member |
|---|---|---|---|---|---|---|
| src/models/stores/user-download.ts:37-45 | the number appended to a repeated location counts the keys that start with it, and that key may already be taken | queue holds key "L-2"; downloading location "L" again yields key "L-2" and replaces the waiting entry | a key no entry uses yet | not executed | UserDownload.KeyAsWritten (UserDownload.KeyAsWrittenCollides) | UserDownload.DownloadKey |
| lib/rn-file-scanner/android/vAndroidSDK/src/main/java/com/opacity/androidsdk/db/entity/SyncConfig.kt:53-54 | white-list change detected by comparing `List.hashCode` values | ["/Aa"] and ["/BB"] have equal hash codes, so the change is not seen | compare the lists themselves | not executed | SyncConfigs.IsWhiteListPathsChangedAsWritten (SyncConfigs.WhiteListHashCollision) | SyncConfigs.IsWhiteListPathsChanged |
| src/config/thumbnail-data.ts:48 | lookup in a plain object also finds inherited Object.prototype members | type "constructor" yields the Object constructor function, not "unsupported" | only the listed types have a kind | not executed | Thumbnail.ThumbnailAsWritten (Thumbnail.ThumbnailAsWrittenConstructor) | Thumbnail.GetThumbnail |
| lib/rn-file-scanner/android/vAndroidSDK/src/main/java/com/opacity/androidsdk/db/dao/FilesDao.kt:64-65 | children of a moved directory are picked by `instr` (occurs anywhere) and rewritten by replace-all | row "/t/s/a/f" with parent "/t/s/a/"; moving "/s/a/" to "/s/b/" rewrites it to "/t/s/b/f" | only rows below the directory, rewritten at the front | not executed | FilesDaos.MoveChildrenAsWritten (FilesDaos.MoveChildrenAsWrittenStrays) | FilesDaos.MoveChildren |
| lib/rn-file-scanner/android/vAndroidSDK/src/main/java/com/opacity/androidsdk/FilesSyncSDK.kt:237-239 | start index `(pageNum - 1) * 25` in 32-bit `Int` arithmetic | page 171798693 gives start index 4, so an early page is sent again | the exact start index, past the end of any real listing | not executed | FilesSyncSdk.PageStartAsWritten (FilesSyncSdk.PageStartWraps) | FilesSyncSdk.PageStart |
| lib/rn-file-scanner/android/vAndroidSDK/src/main/java/com/opacity/androidsdk/SDKDebugTree.java:66-71 | element 6 of the stack trace is read before the length guard | an empty stack trace fails with an index fault, so the guard's "synthetic stacktrace" error is never raised | check the length first, then read | not executed | DebugTree.GetPrefixAsWritten (DebugTree.GetPrefixGuardUnreachable) | DebugTree.GetPrefix |
| src/models/stores/auto-sync.ts:98-102 | the automatic-sync `dismissFile` hands the queue `getSnapshot(file)`; for a file that is not failed the queue calls `updateStatus` on that plain snapshot, which has no actions, so the call throws | a waiting automatic-sync upload that the user dismisses stays waiting instead of failing | mark the queue's own entry failed, as the user queue does | not executed | UploaderStore.AutoDismissAsWritten (UploaderStore.AutoDismissAsWrittenKeepsWaiting) | UploaderStore.Uploader.DismissFile |

