# peer-to-file: verified model

peer-to-file shares folders over BitTorrent. Every file travels as AES-256-CTR
ciphertext that no one ever holds whole: the server hashes, serves and seeds it
piecewise, and the browser decrypts it chunk by chunk while a finished download
is saved and its pieces are deleted behind the save. This project models that
pipeline, the drain protocol, the file-tree operations, the limiters, the
account and session state and two small concurrent protocols, and proves what
they promise. `dafny verify dfyconfig.toml` checks all of it.

## How it is laid out

| file | what it models |
|---|---|
| Bytes, Ctr | byte strings, base-256 numbers; counter mode for a whole file (section 6.5 and Appendix B.1 of NIST SP 800-38A), the reference every fast form is proved equal to |
| Cipher, RangeHeaders, CipherKeys, CipherStore | the server's seekable cipher, the Range header, the range generator and the webseed answer, the piece store and the hashing pass |
| BrowserCrypto, Upload | the browser's XOR at an offset, the file iterator, uploads from browser to server |
| ChunkStore, DrainProtocol, DrainedSave | the read cursor, the draining store and its worker; every interleaving of save, peers, other readers, draining and deletion; what the save comes to |
| Paths, FileTree, Move, Search | path strings, symlinks and resolution inside a root, moving and deleting, the bounded search |
| RateLimit, FixedWindow | token bucket, fixed-window counter, debouncer |
| Decimals, Sessions, TransferTokens, AuthDb | printed numbers, sessions and refresh rotation, signed URLs, users, mounts and the admin guards |
| PieceCache, MetaCache | the desktop app's per-file lock chain, the torrent metadata cache |

AES under a file's key is an arbitrary function from counter blocks to keystream
blocks, HMAC an arbitrary collision-free function, SHA-256 an arbitrary
function. Clocks, random ids, row ids, short reads, failing disks and the order
of events are parameters or choices left open, so each result holds for all of
them. Counter bytes are numbers (the code does carry arithmetic on them), data
bytes are bit-vectors (the code XORs them).

## What the proofs show about the code

- The comment above the browser's `length: 64` says it equals the server's
  128-bit counter for any real file because chunks are short. It depends on the
  counter instead: `NoWrap` is the exact condition for one call and `Room` for
  every chunking of a file. With an IV of all ones a first chunk of 17 bytes
  already breaks it (`RealInputDiverges`).
- `isInside` is the component test for every root but `/`; a share of `/`
  accepts nothing but `/` itself.
- A search's `truncated` flag also comes up when exactly `limit` results exist
  and none is missing; `FlaggedCompleteExactly` says when a flagged search is
  complete.
- A user both denied and granted the default mount is shown it in the list and
  refused when opening it; the grant handler does not prevent that state.
- The cursor takes any report that starts at or before it for the save's, so a
  second iterator, and reports from before draining started, can make the store
  delete pieces the save still needs. `Harmless` is the exact condition, step by
  step and over whole runs: it depends on where the cursor stands, not on where
  the save does, so two reports that would each be harmless alone can break the
  save together (`TwoReportsBreakSave`).
- The worker opens a piece exclusively, so a read of the save's own that meets
  another of the same piece can be refused and end the save early; what it was
  given by then is still a true prefix of the file.
- A move across devices whose copy fails removes the partial copy; if that
  removal does not reach all of it, part of the copy stays (`PartStays` is such a
  move) and the answer is the removal's error.
- A piece read makes one file read; if that read comes back short, so does the
  piece, and `CipherChunkStore.Get` says so.

## Model

| member | source | states |
|---|---|---|
| Ctr.CounterCompose | src/server/cipher.ts:33-48 | seeking twice is seeking once: adding block counts to the 128-bit counter composes |
| Ctr.CryptSeek | src/server/cipher.ts:50-67 | a cipher started at block b yields the file's keystream from byte 16b on |
| Ctr.CryptInvolution | packages/shared/src/browserCrypto.ts:15-17 | encrypting twice at the same offset gives the data back |
| Ctr.CryptConcat | src/server/cipher.ts:15-22 | consecutive pieces encrypt independently |
| Cipher.CtrCounter | src/server/cipher.ts:39-48 | the carry loop computes (iv + n) mod 2^128 as 16 bytes, for every iv and n |
| Cipher.CtrStream.Update | src/server/cipher.ts:51-53 | the stream cipher object: XOR at its position, which moves on |
| Cipher.CtrCipherAt | src/server/cipher.ts:51-53 | a fresh cipher standing at a block |
| Cipher.EncryptRange | src/server/cipher.ts:61-67 | any byte offset, aligned or not, gets the reference cipher at that offset |
| Cipher.EncryptRangeIsSlice | src/server/cipher.ts:55-67 | that is the same slice of the whole-file encryption |
| Cipher.DropBytes.Transform | src/server/cipher.ts:70-81 | one chunk through the filter: what passes, what is left to drop |
| Cipher.DropBytesExact | src/server/cipher.ts:69-81 | over any chunking exactly the first n bytes go missing |
| CipherKeys.ReadAt | src/server/cipherKeys.ts:50-51 | a file read may be short but is empty only at the end |
| CipherKeys.EncryptedRange | src/server/cipherKeys.ts:34-71 | for every start and end, in or out of the file, and all short reads, the chunks are non-empty and join to that part of the whole-file encryption |
| CipherKeys.Generate | src/server/cipherKeys.ts:42-68 | the generator's loop: an aligned start and a dropped prefix give exactly the range, and it ends |
| CipherKeys.ReadAndEncrypt | src/server/cipherKeys.ts:49-60 | one turn: no progress only at the end of the file, otherwise the output grows by exactly the bytes read that are in range |
| RangeHeaders.MatchExactly | src/server/app.ts:51-54 | the header pattern matches exactly `bytes=`, digits, a dash and digits, and its groups are the two digit runs |
| RangeHeaders.HeaderReads | src/server/app.ts:49-68 | a printed range, with space around it or not, is read as just the numbers printed |
| RangeHeaders.HeaderExactly | src/server/app.ts:49-54 | every header is read as just the digit runs it asks with, and as no range if it asks with none |
| RangeHeaders.ParseExact | src/server/app.ts:54-68 | a parsed range is exactly the bytes asked for, and it is refused exactly when there are none |
| CipherKeys.ServeRaw | src/server/app.ts:361-405 | without a range asked for: 200, the file's length and its whole ciphertext; with one: 206 and just those bytes as far as the file has them, or 416 if it has none; HEAD answers without the bytes |
| CipherStore.PieceLengthFor | src/server/torrents.ts:104-109 | the least of the doubled lengths that reaches the target or the 8 MiB cap; at most 1024 pieces up to 8 GiB |
| CipherStore.BuildMeta | src/server/torrents.ts:68-95 | the hasher is fed the whole-file encryption and the checksum the plaintext, for any chunking |
| CipherStore.AllPiecesJoin | src/server/torrents.ts:83-92 | cutting into pieces, the short last one included, loses and repeats nothing |
| CipherStore.CipherChunkStore.Get | src/server/cipherStore.ts:59-76 | refuses exactly the out-of-range requests; otherwise the matching ciphertext slice, whole exactly when the file read was |
| CipherStore.WholePieceRequest | src/server/cipherStore.ts:59-70 | a whole-piece request asks for exactly that piece of the hashed stream; past the end it is refused |
| CipherStore.PartRequest | src/server/cipherStore.ts:59-70 | a request with offset and length asks for that stretch of the piece, the same bytes of the file a range would give |
| CipherStore.RestRequest | src/server/cipherStore.ts:59-70 | a request with only an offset asks for the rest of the piece, refused exactly past its end |
| CipherStore.SeedAll | src/server/cipherStore.ts:59-76 | every piece of a full pass is a non-empty prefix of that piece of the hashed stream, and together they are that stream exactly if no read came back short |
| BrowserCrypto.AddToCounter | packages/shared/src/browserCrypto.ts:149-159 | the browser's own carry loop computes the same 128-bit sum |
| BrowserCrypto.CtrXor | packages/shared/src/browserCrypto.ts:123-146 | the call's bytes, and that they are the reference cipher's when the low counter half does not wrap |
| BrowserCrypto.CtrXorExactlyWhenNoWrap | packages/shared/src/browserCrypto.ts:123-146 | one call agrees with the server for every block cipher exactly when the low 64 counter bits do not wrap in it |
| BrowserCrypto.ChunkedExactlyWhenNoChunkWraps | packages/shared/src/browserCrypto.ts:283-296 | a stream in any chunks, from any start, equals the one-shot result exactly when no chunk's call wraps |
| BrowserCrypto.DownloadDecrypts | packages/shared/src/browserCrypto.ts:273-302 | ciphertext from any start, in any chunks, decrypts to the file's bytes from there |
| BrowserCrypto.RealInputDiverges | packages/shared/src/browserCrypto.ts:133-139 | with an IV of all ones, any 17 bytes in one call can come out different from the server's |
| BrowserCrypto.EveryChunkingExactly | packages/shared/src/browserCrypto.ts:133-139 | no chunking of a file wraps exactly if the low half has room for all of its blocks |
| BrowserCrypto.FileIterator.Next | packages/shared/src/browserCrypto.ts:283-296 | each chunk is decrypted where it stands and reported as that interval |
| BrowserCrypto.Drain | packages/shared/src/browserCrypto.ts:273-302 | draining the iterator: every chunk through its own call, with one report each |
| BrowserCrypto.ReportAt | packages/shared/src/browserCrypto.ts:283-296 | the reports are the chunks' intervals, back to back from the start |
| BrowserCrypto.EncryptFileForUpload | packages/shared/src/browserCrypto.ts:182-196 | the upload's parts are the file's chunks, each through its own call |
| Upload.Destination.Receive | src/server/app.ts:879-912 | publishes exactly the decrypted body, only if all of it came, the digest is right, the name free and the link allowed; the temporary file stays only if it cannot be removed |
| Upload.UploadArrivesExactly | src/server/app.ts:879-900 | what the server decrypts is the uploaded file exactly when no chunk's call wrapped |
| Upload.RoundTrip | packages/shared/src/browserCrypto.ts:182-214 | browser and server together publish the file itself |
| ChunkStore.SequentialReadCursor.Advance | packages/shared/src/readProgress.ts:34-37 | moves only on reports that continue the read, never back |
| ChunkStore.SequentialReadCursor.PiecesBehind | packages/shared/src/readProgress.ts:39-42 | counts the pieces behind the read |
| ChunkStore.BehindExact | packages/shared/src/readProgress.ts:39-42 | a piece is counted exactly when its last byte, also of the short last piece, has been consumed |
| ChunkStore.BehindMonotone | packages/shared/src/readProgress.ts:39-42 | reading on never takes a piece back |
| ChunkStore.ExpectedLengthExact | packages/shared/src/opfsChunkStore.ts:195-197 | the length expected of a piece file is the length of that piece |
| ChunkStore.DrainingStore.Reap | packages/shared/src/opfsChunkStore.ts:230-237 | posts the newly passed pieces as one range, and only while draining |
| ChunkStore.DrainingStore.OnConsumed | packages/shared/src/opfsChunkStore.ts:222-225 | a report moves the cursor, then frees what it passed |
| ChunkStore.DrainingStore.StartDraining | packages/shared/src/opfsChunkStore.ts:252-255 | draining starts and frees what is already behind |
| ChunkStore.ReadPieceExact | packages/shared/src/opfsWorkerCore.ts:80-96 | a request inside a full piece gets exactly its bytes |
| ChunkStore.ReadPieceAnswers | packages/shared/src/opfsWorkerCore.ts:80-96 | which reads are refused, and what the others get: the whole piece, its rest, or the stretch asked for with zeros past the end |
| ChunkStore.PieceDirectory.Put | packages/shared/src/opfsWorkerCore.ts:68-78 | a longer old file leaves nothing behind a shorter write |
| ChunkStore.PieceDirectory.Get | packages/shared/src/opfsWorkerCore.ts:80-96 | errors for a missing or wrong-sized piece, zero fill past its end |
| ChunkStore.PieceDirectory.RemoveChunks | packages/shared/src/opfsWorkerCore.ts:104-111 | removes exactly the pieces of the range but those whose removal fails, already missing ones included |
| DrainProtocol.RunKeeps | packages/shared/src/opfsChunkStore.ts:199-255 | every run, whoever else reports, keeps the books of the save, the store and the peers |
| DrainProtocol.ServedExactly | packages/shared/src/opfsChunkStore.ts:203-219 | a peer gets just the bytes it asked for, exactly while the piece is on disk |
| DrainProtocol.StepSafeExactly | packages/shared/src/readProgress.ts:34-42 | a step leaves everything the save has still to read in place exactly if it is harmless: what the cursor then counts ends before the piece the save needs next, and no read of the save's was refused |
| DrainProtocol.HarmlessRunSafe | packages/shared/src/readProgress.ts:6-14 | so after harmless steps alone the save has met no missing piece and will not |
| DrainedSave.DrainedSaveIsFaithful | packages/shared/src/opfsChunkStore.ts:199-255 | in every run the save has a prefix of the server's file, in the end all of it, and peers only true bytes; after harmless steps it has met no missing piece |
| DrainedSave.Share | src/server/torrents.ts:68-95 | from the server's hashing pass to the finished save the file comes back |
| DrainedSave.SaveCanFinish | packages/shared/src/readProgress.ts:6-14 | from a safe state, draining or not, reading and handing on alone complete the save |
| DrainedSave.AlwaysFinishesExactly | packages/shared/src/readProgress.ts:6-14 | however save, peers and worker go on, refused reads aside, the save can be completed, exactly while what it needs stays |
| DrainedSave.StepHarmlessExactly | packages/shared/src/readProgress.ts:34-42 | which report, or start of draining, ends that: exactly one that is not harmless, judged by the cursor |
| DrainedSave.HarmlessRunExactly | packages/shared/src/readProgress.ts:34-42 | a run keeps the save completable throughout exactly if every step of it was harmless, reports from before draining included |
| DrainedSave.SecondIteratorBreaksSave | packages/shared/src/readProgress.ts:34-37 | on any non-empty file draining plus a second iterator running ahead makes the save's first read fail |
| DrainedSave.TwoReportsBreakSave | packages/shared/src/readProgress.ts:34-37 | two reports harmless one by one that are not so one after the other |
| DrainedSave.CursorIsSave | packages/shared/src/readProgress.ts:19-37 | if other reports start past the save or end behind it, the cursor stands exactly where the save does |
| DrainedSave.IgnoredIsHarmless | packages/shared/src/readProgress.ts:19-37 | such runs are harmless exactly if no read of the save was refused |
| DrainedSave.RemovalsExact | packages/shared/src/opfsChunkStore.ts:227-255 | removals are consecutive and cover exactly the pieces the cursor has passed; nothing goes before draining; a full pass leaves only what could not be removed |
| DrainedSave.DrainBoundsDiskUse | packages/shared/src/opfsChunkStore.ts:239-244 | once removals have been tried, pieces held, less those that could not be removed, plus bytes saved stay below the file plus one piece |
| RateLimit.TokenBucketLimiter.Take | src/server/rateLimit.ts:79-93 | the whole new map and the answer, pruning above 5000 keys included |
| RateLimit.BucketPruningInvisible | src/server/rateLimit.ts:73-76 | pruning at any subset of calls never changes an answer, because a pruned bucket would be full |
| RateLimit.GrantedExactly | src/server/rateLimit.ts:84-92 | a call gets a token exactly if one more breaks the bound on no stretch of the key's calls: a call is refused only when it would hand out too many |
| RateLimit.GrantsBounded | src/server/rateLimit.ts:68-95 | in any stretch of calls a key is granted at most capacity plus the refill of that time |
| FixedWindow.FixedWindowLimiter.IsLimited | src/server/rateLimit.ts:39-42 | answers for the open window only |
| FixedWindow.FixedWindowLimiter.Hit | src/server/rateLimit.ts:43-52 | counts in the open window or opens one |
| FixedWindow.FixedWindowLimiter.RetryAfterMs | src/server/rateLimit.ts:53-56 | time left of the open window |
| FixedWindow.WaitIsExact | src/server/rateLimit.ts:39-56 | whatever calls come meanwhile, short of a reset, a limited key stays limited until the told wait is over and is free from then on |
| FixedWindow.LimitedExactly | src/server/rateLimit.ts:39-52 | a key is limited exactly when more than limit hits fell in the window open for it |
| FixedWindow.AttemptedExactly | src/server/app.ts:296-312 | an attempt goes through exactly unless more than limit failures fell in that window |
| FixedWindow.WindowPruningInvisible | src/server/rateLimit.ts:27-30 | pruning at any subset of calls never changes an answer |
| FixedWindow.WindowHoldsLimit | src/server/app.ts:296-312 | with a check before each recorded failure a window never counts past limit + 1 |
| FixedWindow.FailuresBounded | src/server/app.ts:296-312 | any stretch shorter than a window records at most 2 * (limit + 1) failures of a key |
| FixedWindow.Debouncer.Call | src/server/activity.ts:49-61 | the new map and the answer, cleanup above 1000 keys included |
| FixedWindow.SeenPruningInvisible | src/server/activity.ts:54-59 | cleanup after any subset of calls never changes an answer |
| FixedWindow.AcceptedExactly | src/server/activity.ts:46-62 | a call passes exactly when no call of its key passed less than a window before it |
| Paths.IsInsideExactly | src/server/browse.ts:26-28 | the string test is the component-prefix test for every root but "/", where it accepts only "/" |
| Paths.LexicalNormal | src/server/browse.ts:92-102 | the lexical path has no empty, dot or dot-dot component |
| Paths.LexicalExactly | src/server/browse.ts:98-102 | slashes in front aside, the path is the root walked along the segments; plain segments are just appended |
| Paths.WalkedLaws | src/server/browse.ts:99 | empty and dot segments count for nothing wherever they stand, dot-dot takes one component back and stops at the top |
| Paths.SplitExact | src/server/browse.ts:126-139 | the last segment holds no slash; parent, slash and name spell the trimmed path |
| Paths.ValidNameExactly | src/server/browse.ts:31-34 | which names an entry can have |
| Paths.SpellingSplits | src/server/browse.ts:126-139 | any spelling of a path of names, slashes around it or not, splits into its parent's spelling and its last name |
| FileTree.ResolveReal | src/server/browse.ts:107-116 | a resolved path exists and crosses no symlink |
| FileTree.ResolveStays | src/server/browse.ts:107-116 | a path that crosses no symlink resolves to itself |
| FileTree.ResolveSplit | src/server/browse.ts:107-116 | resolving in two steps, symlink budget included, is resolving at once |
| FileTree.RealpathExactly | src/server/browse.ts:107-109 | resolving is writing out the first symlink again and again until none is left, at most 40 times |
| FileTree.ResolvedInside | src/server/browse.ts:92-124 | for any symlinks, a returned path exists, crosses no symlink and lies component-wise inside the root |
| FileTree.ResolveInsideExactly | src/server/browse.ts:81-124 | with symlinks on or off, a request gets exactly the place it names, and escapes, as written or through symlinks, are forbidden |
| FileTree.MissingNotFound | src/server/browse.ts:107-116 | what goes on below no entry or below a file is not found |
| FileTree.WithoutSymlinksExactly | src/server/browse.ts:60-124 | with symlinks off a request succeeds exactly if the lexical path is inside and real, and returns that path |
| FileTree.EntryInside | src/server/browse.ts:191-215 | a change acts on an existing entry inside the root held by a real directory inside it |
| FileTree.NewInside | src/server/browse.ts:142-164 | a destination's parent is a real directory inside the root |
| FileTree.ResolveEntryExactly | src/server/browse.ts:191-215 | the entry acted on is the last segment as it stands, in the place the rest names; a symlink is not followed, and refused if symlinks are off |
| FileTree.ResolveNewExactly | src/server/browse.ts:142-164 | the destination is the last segment, in the directory the rest names |
| FileTree.SpelledExactly | src/server/browse.ts:126-215 | any spelling of real names below the root names just that entry or that destination, symlinks on or off, and is refused as not found or no folder exactly otherwise |
| Move.RelocatedExactly | src/server/browse.ts:260-295 | point by point: moved entries, vacated ones, everything else unchanged |
| Move.RelocatedWellFormed | src/server/browse.ts:260-295 | the tree is still a tree after a move |
| Move.MoveBack | src/server/browse.ts:260-295 | moving back restores the tree |
| Move.CopyThenRemove | src/server/browse.ts:278-293 | the cross-device fallback ends in the same tree as the rename |
| Move.PlanExactly | src/server/browse.ts:263-274 | a move gets past the checks exactly with the named entry and the named free place, not the root and not inside itself; which refusal the others get |
| Move.FileSystem.Transfer | src/server/browse.ts:275-293 | rename, or copy and remove: exactly when it succeeds, what it leaves, what each failure leaves and answers |
| Move.CleanedUp | src/server/browse.ts:280-287 | after a failed copy at most a part of the copy is left, and the old tree exactly if the cleanup got to all of that part |
| Move.PartStays | src/server/browse.ts:280-287 | whatever file was half copied stays if its cleanup is refused |
| Move.RemovalWellFormed | src/server/browse.ts:227-239 | a removal, complete or broken off, leaves a tree |
| Move.FileSystem.MoveEntry | src/server/browse.ts:260-295 | success relocates exactly the named subtree inside the roots; every failure answers with its own error; refusals and failed renames change nothing, a failed copy nothing exactly if its cleanup got to all of it, a failed removal leaves the whole copy and at most less of the source |
| Move.FileSystem.DeleteEntry | src/server/browse.ts:227-239 | removes exactly the entry the request names, never the root; a removal that fails takes nothing but what is at the entry; a tree remains |
| Move.FileSystem.CreateFolder | src/server/browse.ts:298-310 | adds one directory at just the place named, if free, or changes nothing, a refused mkdir included |
| Search.ClampSearchLimit | src/server/search.ts:43-46 | always 1..1000, the whole part of a limit already in range |
| Search.Searcher.Walk | src/server/search.ts:70-128 | the walk examines the preorder, symlink cycles included, and ends by its scan budget |
| Search.Searcher.Visit | src/server/search.ts:79-126 | one entry and what lies below it, with each early stop |
| Search.DepthIrrelevant | src/server/search.ts:25-28 | cutting endless cycles at any depth the budget cannot reach makes no difference |
| Search.SearchTree | src/server/search.ts:60-132 | exactly the first `limit` matches in preorder among the entries the budget reaches, in the tree's order, each findable; truncated exactly when limit is reached or the budget exceeded; if not truncated, exactly what the tree makes findable |
| Search.FlaggedCompleteExactly | src/server/search.ts:72-117 | when a search is flagged truncated though it has found everything |
| Search.ShownExactly | src/server/search.ts:86-103 | what the walk shows, from the tree alone: each step exists where its directory resolves, a symlink only if followed and leading inside the root, all but the last are directories, the last matches |
| Search.ResultsFindable | src/server/search.ts:70-128 | folders come before what is in them, branches in the order they are read |
| Search.RealShownExactly | src/server/search.ts:79-126 | where no symlink is on the way, those are all the matching entries below the scope |
| Search.CompleteExactly | src/server/search.ts:79-132 | a scan within its budget misses no entry at any depth and invents none |
| Search.SearchStaysInside | src/server/search.ts:90-103 | every result leads to a place inside the root, symlinks followed |
| Sessions.SessionTables.GetSessionUser | src/server/db.ts:339-350 | a live session's user; an expired session is deleted |
| Sessions.SessionTables.ConsumeRefreshToken | src/server/db.ts:370-379 | the live token's user, and the token is gone in any case |
| Sessions.SessionTables.DeleteAllUserSessions | src/server/db.ts:386-389 | both tables lose exactly the user's rows |
| Sessions.SessionTables.PruneExpiredSessions | src/server/db.ts:391-395 | both tables lose exactly the expired rows |
| Sessions.AuthService.StartSession | src/server/auth.ts:97-101 | a session and a refresh token with their lifetimes |
| Sessions.AuthService.Refresh | src/server/auth.ts:132-136 | redeems once and starts the next pair, or nothing |
| Sessions.AuthService.Logout | src/server/auth.ts:138-141 | ends the named session and token, absent cookies ignored |
| Sessions.AuthService.LogoutAll | src/server/auth.ts:143-145 | ends everything the user holds |
| Sessions.RedeemedOnce | src/server/db.ts:365-379 | over every run with fresh ids a refresh token is redeemed at most once |
| Sessions.RevokedForGood | src/server/db.ts:370-384 | a presented or logged-out token never works again |
| Sessions.LogoutAllEndsEverything | src/server/db.ts:385-389 | no session or token the user held survives logout-all or deletion |
| Sessions.AuthenticatedExactly | src/server/db.ts:339-350 | a session is let in exactly if it was handed out in the last 48 hours and its user has not signed out of it or everywhere or been deleted since |
| Sessions.RefreshedExactly | src/server/db.ts:370-379 | a refresh token works exactly if it was handed out in the last 30 days and has been neither used nor ended since |
| Sessions.RedeemedInTime | src/server/auth.ts:97-136 | a successful refresh redeems a token some sign-in or rotation of that user handed out, within 30 days |
| Sessions.PruningInvisible | src/server/db.ts:391-395 | pruning at any time never changes a later answer |
| Decimals.DecimalReads | src/server/auth.ts:89-92 | a printed number is all digits and reads back |
| Decimals.LeadingZero | src/server/app.ts:57-66 | leading zeros do not change what digits are read as |
| TransferTokens.MintedVerifies | src/server/auth.ts:78-92 | a token verifies for its own scope exactly up to its expiry |
| TransferTokens.RawScopeInjective | src/server/auth.ts:147-150 | mount and path can be read back from a raw scope, whatever the path contains |
| TransferTokens.RawTokenBound | src/server/auth.ts:57-60 | a raw token's signature verifies only for its mount, path and expiry, however the expiry is spelt, and never for the tracker |
| AuthDb.ApplyKeepsIntegrity | src/server/db.ts:127-198 | every operation keeps all references, unique names and at most one default mount |
| AuthDb.EveryRunKeepsIntegrity | src/server/db.ts:127-198 | so does every run from the empty database |
| AuthDb.NewRowsStartClean | src/server/db.ts:262-268 | a new user or mount inherits nothing even if its row id was used before: no session, token, grant, denial, default or created mount refers to it |
| AuthDb.DefaultMountStays | src/server/db.ts:643-651 | no operation loses or replaces the default mount |
| AuthDb.EnsuredDefaultHasPath | src/server/db.ts:585-593 | startup leaves the default mount at the configured path unless its name was taken |
| AuthDb.AdminRemains | src/server/app.ts:661-676 | no request leaves the server without an admin once it has one |
| AuthDb.RefusedExactly | src/server/app.ts:720-727 | the role and delete guards refuse exactly the requests that would leave no admin |
| AuthDb.EveryRunKeepsAnAdmin | src/server/app.ts:661-733 | nor does any run of requests |
| AuthDb.ListedIsAccessibleExactly | src/server/db.ts:619-641 | the listed mounts are the accessible ones, in order, exactly unless the user is both denied and granted the default mount |
| AuthDb.ContradictionReachable | src/server/app.ts:766-811 | two admin requests reach the state where they differ |
| AuthDb.CreatedExactly | src/server/db.ts:233-246 | when creating a user succeeds, and that the new row has the name and role asked for |
| AuthDb.FirstUserIsAdmin | src/server/db.ts:255-260 | setup succeeds exactly on an empty table and leaves one admin |
| AuthDb.DeletedExactly | src/server/db.ts:262-268 | deletion takes just that user and ends just their sessions |
| AuthDb.UserRowExactly | src/server/db.ts:303-305 | no other operation changes a name or a role but setting it |
| AuthDb.MountRowsExactly | src/server/db.ts:567-593 | a mount's row after any operation |
| AuthDb.PairsExactly | src/server/app.ts:766-811 | a grant or denial stands exactly from its request until it is lifted or its mount or user ends |
| AuthDb.ApiTokensExactly | src/server/db.ts:400-440 | a token stands exactly until it or its owner is deleted |
| AuthDb.DefaultChoiceExactly | src/server/db.ts:292-294 | a user's override is what was last chosen until its mount is deleted |
| AuthDb.HandledExactly | src/server/app.ts:661-733 | a request not refused does what it asks; one refused changes nothing |
| AuthDb.Database.CreateUser | src/server/db.ts:233-246 | refuses bad names, short passwords and taken names; otherwise one new row |
| AuthDb.Database.SetupFirstUser | src/server/db.ts:255-260 | only the very first user, and as an admin |
| AuthDb.Database.DeleteUser | src/server/db.ts:262-268 | the user and everything that refers to them |
| AuthDb.Database.SetUserDefaultMount | src/server/db.ts:292-294 | sets or clears the override; a missing mount is refused |
| AuthDb.Database.CreateMount | src/server/db.ts:567-576 | refuses bad or taken names, a second default and a missing creator |
| AuthDb.Database.EnsureDefaultMount | src/server/db.ts:585-593 | creates the default mount or moves it to the path |
| AuthDb.Database.DeleteMount | src/server/db.ts:644-651 | clears grants, denials and overrides first, so the last statement cannot fail; never the default mount |
| AuthDb.Database.HandleRemoveUser | src/server/app.ts:720-733 | the delete-user handler |
| AuthDb.Database.HandleChangeRole | src/server/app.ts:661-676 | the role handler |
| PieceCache.OneAtATimeInCallOrder | apps/desktop/electron/pieceCache.cts:29-39 | operations on one path run one at a time and in call order, successful or not |
| PieceCache.MapHoldsLast | apps/desktop/electron/pieceCache.cts:32-38 | while anything on a path is unsettled the map holds that path's last operation |
| PieceCache.ReadsAreSerial | apps/desktop/electron/pieceCache.cts:41-70 | a read sees exactly what the calls before it leave, never a half-written piece |
| PieceCache.ReadSeesLastWrite | apps/desktop/electron/pieceCache.cts:41-77 | a read called after a successful write or removal, and no other since, sees just that |
| PieceCache.FirstUnsettledCanRun | apps/desktop/electron/pieceCache.cts:33-39 | no chain gets stuck |
| MetaCache.RequestGetsItsVersion | src/server/torrents.ts:46-66 | every request gets a build of its file for the key its own stat saw |
| MetaCache.CachedExactly | src/server/torrents.ts:57-64 | a build is cached exactly while it is its path's newest and no failure of it has been handled |
| MetaCache.ResumeExactly | src/server/torrents.ts:51-65 | every request that saw a key is answered, with the newest unhandled build for that key or with a new one |
| MetaCache.LateFailureHarmless | src/server/torrents.ts:59-62 | a late failure of a replaced build leaves the cache alone |
| MetaCache.SameKeyShares | src/server/torrents.ts:51-65 | a request that saw the newest build's key shares it instead of building again |

## Left out

- AES, SHA-256, HMAC, HKDF, ECDH and GCM themselves, and the key derivation and wrapping built on them: arbitrary functions or not modelled.
- WebTorrent, create-torrent, parse-torrent, the tracker and the service worker: libraries; the file iterator is modelled as in-order reads of any size and the piece hasher by the bytes it is fed.
- The store registry by infohash (`instances`, `transferReadProgress`) and worker start-up and message ids: one store and its own reports are modelled.
- apps/desktop/src/lib/fsChunkStore.ts repeats the store of packages/shared/src/opfsChunkStore.ts line for line in what it frees and when; it has no second copy here.
- RangeHeaders.HeaderReads: numbers are exact; the original rounds them past 2^53, which changes nothing for files smaller than that.
- CipherKeys.ServeRaw: covers the answer once the request is authorized and the file resolved; of the headers, Content-Length.
- FileTree.ResolveReal: symlink targets are absolute and normalised; relative targets, permissions on lookups, special files and files changing during a request are not modelled.
- closing a seeder's store: it only lets the file handle go, which no later answer shows.
- Move.FileSystem.MoveEntry: rewriting of relative symlinks by the copy, crashes halfway and concurrent writers are not modelled; each rename, copy and removal is one step, whose failure may leave any part done.
- Search.SearchTree: the tree stays put during a search, so entries never vanish; sizes and times of results are not modelled.
- AuthDb.Database.SetUserDefaultMount: and the other database methods take the row id SQLite picked as a parameter, passwords only by length, and password hashing not at all; the download history and `last_used_at` are not modelled.
- AuthDb.EveryRunKeepsAnAdmin: covers the HTTP handlers; the command line's del-user has no such guard.
- RateLimit.GrantsBounded: tokens are exact numbers, without floating-point rounding.
- PieceCache.OneAtATimeInCallOrder: removeKey takes no lock and is not part of the chain.
- MetaCache.RequestGetsItsVersion: says which key a build was started for; a build stats the file again for its cipher key, and a file changing under a build is not modelled.
- TransferTokens.MintedVerifies: the language's number parser and printer are any that agree with each other and print exact whole numbers as decimals, for expiries up to 2^53; a signature with characters outside ASCII makes the original's comparison throw, which counts as not verified.
- Upload.Destination.Receive: the headers and the wrapped key are taken as already read; a stream error at any point is one kind of break-off.
- mapLimit and listDir, the activity log, upload targets given as two parameters, cookies, CSRF, CORS, configuration, the seeder's reaper, downloads' retry timers and the user interface.
