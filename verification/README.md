# Web server core: uploads, locks, pages, roots

This project models the parts of the Windows CE web server and its ASP compiler that carry state or
transform text, and proves what they promise.

- **Request buffer** (`Wire`, `HeaderBlock`, `RequestBuffer`): one array with moving indices. Which
  header block is read, and the verdict on it, depend on the byte stream only, not on how recv cuts it.
- **Secure header reads** (`SecureBuffer`): records are decrypted and squeezed together in place; the
  plain text edge is where it should be after every pass.
- **Chunked uploads** (`ChunkCoding`, `ChunkHeaders`, `ChunkedUpload`): the in-place decoder refines a
  pure one, which inverts the grammar of section 3.6.1 of RFC 2616 and takes exactly the headers stated.
- **WebDAV locks** (`PathNames`, `LockTable`, `LockEffects`, `LockExclusion`, `LockLeases`, `LockExpiry`,
  `LockBusy`, `LockTimeout`, `LockManager`): the lock table as a value with its atomic steps; invariant, mutual
  exclusion, leases that hold and that end, and busy protection over whole runs; and the two-level linked lists, proved to
  carry out those steps.
- **Lock tokens and the If header** (`LockTokens`, `IfHeader`, `IfTexts`, `IfGrammar`, `IfStandard`):
  printing and reading tokens, the pointer walk over the header text, the answer to every text, and the
  meaning of section 9.4 of RFC 2518.
- **ASP compiler** (`AspPage`, `AspScript`, `AspCompiler`, `AspMeaning`, `AspLayout`): the loops compute
  a function, whose results keep meaning, line numbers and size.
- **Include files** (`IncludeFiles`): finding directives, splicing files in, and the inverse line map.
- **Virtual roots** (`VRoots`): the sort and the longest whole-segment match.
- **Tables and requests** (`TableLifetime`): reference counts of the tables of virtual roots while they
  are replaced under running requests; any interleaving is the fold of a pure step.

`CStrings` and `Options` hold what these share. Bytes are `char`s. The network is a sequence of
bytes not received yet, of which recv takes any nonempty part up to the size asked. Times, file
contents, entity tags, the mapping of URLs to files and what a record decrypts to are parameters. A
critical section is one step.

Where the code differs from its comments or from a standard, the model follows the code. The cases that
matter are stated as results, most of them with the exact condition: chunk extensions that end in an odd
number of CRs, and chunks of 0xFFFFFFFF bytes that the initial read does not reach (`ChunkCoding`);
brackets in entity tags and foreign tokens (`IfGrammar`); all lists of an If header have to hold, where
the standard asks for one of them, a resource tag is for one list only, and a token in a list without a
tag need not be held (`IfStandard`); comments that a script block leaves open (`AspMeaning`); pages with
"<%>" (`AspLayout`); redirecting roots of more than one segment and root directories with short names
(`VRoots`); a second copy, or a delete, of a file that is being copied, or one that fails to begin
(`LockBusy`); white space in front of a secure request (`SecureBuffer`).

`dafny verify dfyconfig.toml` checks the whole project.

## Model

| member | source | states |
|---|---|---|
| RequestBuffer.Buffer.Reset | PRIVATE/SERVERS/HTTP/PARSER/buffio.h:74-77 | Between two requests all five indices go back to the front, but a next request that was put aside stays put aside. |
| RequestBuffer.Buffer.AllocMem | PRIVATE/SERVERS/HTTP/PARSER/buffio.cpp:39-79 | There is room for n more bytes behind nextIn, and all bytes are kept; the buffer grows just when fewer than n + 1 are free, by n bytes and by 1024 at least. |
| RequestBuffer.Buffer.TrimWhiteSpace | PRIVATE/SERVERS/HTTP/PARSER/buffio.cpp:88-115 | Drops exactly the leading white space; gives up exactly at eight characters of it; waits exactly while there is nothing else. |
| RequestBuffer.Buffer.RestorePipelined | PRIVATE/SERVERS/HTTP/PARSER/buffio.cpp:173-190 | The bytes put aside, the first one included, become the front of the next header block. |
| RequestBuffer.Buffer.ScanForBlankLine | PRIVATE/SERVERS/HTTP/PARSER/buffio.cpp:230-247 | Finds the first CRLF CRLF at or behind the scan position, given that none begins before it. |
| RequestBuffer.Buffer.RecvHeaders | PRIVATE/SERVERS/HTTP/PARSER/buffio.cpp:131-442 | For every way recv cuts the stream, the verdict is the one of `Verdict` on the whole stream, and the buffer holds the stream from its first solid byte up to at least the blank line, never more than the limit. |
| HeaderBlock.VerdictExactly | PRIVATE/SERVERS/HTTP/PARSER/buffio.cpp:80-322 | The verdict of every stream, by how it is made up: a header block is found if and only if the stream is less than eight white space characters, fewer than the limit, then a block of at most the limit that ends with its first CRLF CRLF, and anything; otherwise the input is an error if white space or text reach those bounds, a timeout if nothing came, and else ends as the connection does. |
| HeaderBlock.BlankLineText | PRIVATE/SERVERS/HTTP/PARSER/buffio.cpp:240-244 | A blank line is the four characters CR LF CR LF. |
| HeaderBlock.OutcomeIsVerdict | PRIVATE/SERVERS/HTTP/PARSER/buffio.cpp:228-322 | The three ways the receive loop can stop give the verdict that the stream alone determines: split independence. |
| HeaderBlock.NoBlockVerdict | PRIVATE/SERVERS/HTTP/PARSER/buffio.cpp:253-322 | If no blank line has come when the limit or the end of the stream is reached, the whole stream has none within the limit. |
| HeaderBlock.TrimmedReading | PRIVATE/SERVERS/HTTP/PARSER/buffio.cpp:231-235 | Trimming what has arrived so far is trimming the stream, or shows that the stream begins with too much white space. |
| HeaderBlock.BlockEndOfPrefix | PRIVATE/SERVERS/HTTP/PARSER/buffio.cpp:230-247 | A blank line found first in what has arrived is the first of the whole stream. |
| HeaderBlock.LeadingSpaceOfPrefix | PRIVATE/SERVERS/HTTP/PARSER/buffio.cpp:88-115 | White space in front of what has arrived against white space in front of the stream. |
| RequestBuffer.Buffer.RecvExactly | PRIVATE/SERVERS/HTTP/PARSER/buffio.cpp:228-322 | Receives n bytes, or all the stream still has, and reports success, end of input or a timeout accordingly, for every cut. |
| RequestBuffer.Buffer.RecvBody | PRIVATE/SERVERS/HTTP/PARSER/buffio.cpp:195-224 | What the body read leaves in the buffer, on the wire and aside, in every case: body already here, body partly here, read for a filter, also while a next request is put aside. |
| RequestBuffer.Buffer.CutBody | PRIVATE/SERVERS/HTTP/PARSER/buffio.cpp:196-216 | If more than two bytes lie behind the body on the first read, exactly the bytes behind the body are put aside, and nothing of the body is touched. |
| RequestBuffer.NextRequest | PRIVATE/SERVERS/HTTP/PARSER/buffio.cpp:173-216 | The next header read starts with exactly the bytes behind the previous body, and is judged as if they had just arrived. |
| RequestBuffer.Buffer.NextToken | PRIVATE/SERVERS/HTTP/PARSER/buffio.cpp:448-489 | The token is the longest run behind blanks that ends at white space, a line end or a colon as asked; it is NUL-terminated in place, and putting the saved character back gives the bytes received. |
| RequestBuffer.Buffer.NextLine | PRIVATE/SERVERS/HTTP/PARSER/buffio.cpp:492-511 | Moves behind the first CRLF, or stays if there is none; nothing received is lost. |
| RequestBuffer.Tokenize | PRIVATE/SERVERS/HTTP/PARSER/parser.cpp:258-317 | After any sequence of NextToken and NextLine calls, restoring the saved character gives back the bytes received. |
| SecureBuffer.SecurityContext.DecryptMessage | PRIVATE/SERVERS/HTTP/AUTH/ssl.cpp:817-831 | The assumed behaviour of the security package: the complete record at the front is decrypted in place, or nothing changes. |
| SecureBuffer.SSLDecrypt | PRIVATE/SERVERS/HTTP/AUTH/ssl.cpp:784-952 | In place, the bytes become the plain texts of the complete records followed by the undecrypted tail, for any number of records; the counters say how long each part is; nothing in front is touched. |
| SecureBuffer.StripRecord | PRIVATE/SERVERS/HTTP/AUTH/ssl.cpp:874-905 | The two memmove calls squeeze out exactly the record header and trailer. |
| SecureBuffer.UnwrapAppend | PRIVATE/SERVERS/HTTP/AUTH/ssl.cpp:784-952 | Decrypting a stream piece by piece, each time with the unfinished tail in front, gives what decrypting it at once gives. |
| SecureBuffer.PlainGrows | PRIVATE/SERVERS/HTTP/AUTH/ssl.cpp:784-952 | More input never changes plain text that is already there. |
| SecureBuffer.DecryptArrived | PRIVATE/SERVERS/HTTP/PARSER/buffio.cpp:337-420 | After every pass nextIn is nextDecrypt plus the offset, what is below nextDecrypt is the plain text of all records completed so far, and the rest is the unfinished record. |
| SecureBuffer.EdgeIsNextIn | PRIVATE/SERVERS/HTTP/PARSER/buffio.cpp:337-420 | The plain text edge in terms of the indices. |
| SecureBuffer.RecvSecureHeaders | PRIVATE/SERVERS/HTTP/PARSER/buffio.cpp:228-442 | A whole secure header read keeps the plain text edge on every pass, for any cut of the records; a header block is found only in plain text; the plain text is a beginning of what the whole stream decrypts to. |
| SecureBuffer.TrimSpacedPlain | PRIVATE/SERVERS/HTTP/PARSER/buffio.cpp:231-235 | With white space in front of the request the edge is lost: nextIn moves and nextDecrypt does not, so the property needs its domain. |
| ChunkCoding.DecodeRendered | PRIVATE/SERVERS/HTTP/PARSER/parser.cpp:801-1014 | Of every well-formed body of section 3.6.1 of RFC 2616, whatever follows it, the decoder recovers the data of the chunks up to the first one it takes for the end. |
| ChunkCoding.RecoveredExactly | PRIVATE/SERVERS/HTTP/PARSER/parser.cpp:948-1007 | The decoder recovers all the data if and only if every chunk of 0xFFFFFFFF bytes has a byte in the buffer when the initial read starts, or fewer bytes of the body in front of it than the initial read wants; otherwise a beginning of the data. |
| ChunkCoding.KeptUntilLost | PRIVATE/SERVERS/HTTP/PARSER/parser.cpp:948-1007 | The chunk at which the decoder stops early is the first lost one, and it stops early only at a lost one. |
| ChunkCoding.ExtensionFoundExactly | PRIVATE/SERVERS/HTTP/PARSER/parser.cpp:861-891 | The CRLF that ends a chunk extension is found if and only if the extension ends in an even number of CRs and is shorter than 4999 bytes. |
| ChunkCoding.LargestChunkLost | PRIVATE/SERVERS/HTTP/PARSER/parser.cpp:967-1096 | Both ways to lose a chunk of 0xFFFFFFFF bytes, at an input each: its header is the last thing the initial read takes, or an extension's read parses it; and the same body where the chunk is kept. |
| ChunkCoding.ParseRenderedHeader | PRIVATE/SERVERS/HTTP/PARSER/parser.cpp:801-912 | A size line written by the grammar parses to its size; the grammar has the digits in either case, each worth its place (see HexDigitExactly). |
| ChunkHeaders.HeaderExactly | PRIVATE/SERVERS/HTTP/PARSER/parser.cpp:801-912 | Headers in any stream, well formed or not: one is read, with its size, if and only if the stream begins with the line end of the chunk before it, if there is one, hexadecimal digits of a 32-bit value, perhaps a semicolon and an extension as the server swallows it, and a line end; more is waited for if and only if the stream ends within these; everything else is refused. |
| ChunkHeaders.LineExactly | PRIVATE/SERVERS/HTTP/PARSER/parser.cpp:826-912 | The same for the line with the size. |
| ChunkHeaders.ExtensionExactly | PRIVATE/SERVERS/HTTP/PARSER/parser.cpp:861-891 | The same for the extension, of which every CR is swallowed with the byte behind it unless that is a LF, and which has to end within 5000 bytes. |
| ChunkCoding.HexValueGrows | PRIVATE/SERVERS/HTTP/PARSER/parser.cpp:849-854 | The accumulated size never decreases, so a 32-bit overflow is caught where it happens. |
| ChunkCoding.HexDigitExactly | PRIVATE/SERVERS/HTTP/PARSER/parser.cpp:833-839 | The d-th of "0123456789ABCDEF", and of the same in small letters, is worth d, for every d under 16, and no other character is a digit. |
| ChunkCoding.HexRoundTrip | PRIVATE/SERVERS/HTTP/PARSER/parser.cpp:826-855 | Every number written in hexadecimal, in either case, is read back as that number by the value of the grammar, whose digits are worth their place. |
| ChunkCoding.PiecesComeBack | PRIVATE/SERVERS/HTTP/PARSER/parser.cpp:801-1014 | Data sent in any pieces of 1 to 0xFFFFFFFE bytes, their sizes written in hexadecimal of either case, comes back whole, however much of it the initial read has. |
| ChunkCoding.DataTaken | PRIVATE/SERVERS/HTTP/PARSER/parser.cpp:1040-1055 | Delivering part of a chunk moves it from what is pending to what is delivered, once and in order. |
| ChunkCoding.ChunkAtHand | PRIVATE/SERVERS/HTTP/PARSER/parser.cpp:956-1014 | Passing over a chunk that is completely in the buffer keeps decoded data and the raw rest together. |
| ChunkedUpload.ChunkParser.GetNextChunkedChar | PRIVATE/SERVERS/HTTP/PARSER/parser.cpp:735-772 | The next byte of the body is the next one at hand, or the next one of the network, wherever the boundary is; it fails exactly at the end of the stream. |
| ChunkedUpload.ChunkParser.ReadExtension | PRIVATE/SERVERS/HTTP/PARSER/parser.cpp:861-891 | The loop over the extension computes the pure one, byte for byte. |
| ChunkedUpload.ChunkParser.ReadSize | PRIVATE/SERVERS/HTTP/PARSER/parser.cpp:826-855 | The loop over the size digits computes the pure one, with its overflow check. |
| ChunkedUpload.ChunkParser.ParseChunkHeader | PRIVATE/SERVERS/HTTP/PARSER/parser.cpp:801-912 | One header, which may straddle any recv boundary, is parsed as the pure parser does, and says how many bytes at hand belong to it; it fails exactly for a malformed header and for one the stream ends in. |
| ChunkedUpload.StripHeader | PRIVATE/SERVERS/HTTP/PARSER/parser.cpp:956-965 | memmove takes exactly the header out of the buffer, and the three indices behind it follow. |
| ChunkedUpload.FillChunk | PRIVATE/SERVERS/HTTP/PARSER/parser.cpp:967-1007 | As much of the current chunk is read as the limit allows; the count of what is left is exact; it fails only if the stream ends in the chunk. |
| ChunkedUpload.DecodeChunks | PRIVATE/SERVERS/HTTP/PARSER/parser.cpp:930-1015 | At every loop head [nextOut, nextUnparsedChunk) is decoded and the rest is raw; the buffer never exceeds the larger of its first content and the limit. |
| ChunkedUpload.DataRead | PRIVATE/SERVERS/HTTP/PARSER/parser.cpp:975-1007 | What the count of undelivered bytes stands for when the initial read has what it wants: that many bytes of the chunk, or, if it is still 0xFFFFFFFF, the end of the body. |
| ChunkedUpload.ParseInitialChunkedUpload | PRIVATE/SERVERS/HTTP/PARSER/parser.cpp:916-1023 | What is in the buffer, followed by what is pending, is the decoded body; the counter is the end marker or the exact number of undelivered bytes of the chunk, never 0; it fails only for malformed or cut off input. |
| ChunkedUpload.HttpRequest.ReadClientNonChunked | PRIVATE/SERVERS/HTTP/EXTNS/extns.cpp:191-202 | On a cleartext connection: some bytes of the stream, in order, into the caller's buffer; failure at the end of the stream. |
| ChunkedUpload.HttpRequest.ReadClientChunked | PRIVATE/SERVERS/HTTP/PARSER/parser.cpp:1027-1106 | For every stream: each call delivers the next bytes of the decoded body, keeps the counter exact and never 0, and takes the next chunk's header off the wire when a chunk ends; it fails only for malformed or cut off input. |
| ChunkedUpload.Upload | PRIVATE/SERVERS/HTTP/PARSER/parser.cpp:916-1106 | End to end, for every recv split and every sequence of read sizes: what the extension has got, followed by what is pending, is the chunk data in front of the first lost chunk; if it keeps asking, nothing is pending, and it has all the data if and only if no chunk is lost. |
| PathNames.PathNameCompare | PRIVATE/SERVERS/HTTP/EXTNS/extns.cpp:500-514 | Returns 0 exactly for names that are equal but for letter case and slash direction. |
| PathNames.SamePathTransitive | PRIVATE/SERVERS/HTTP/EXTNS/extns.cpp:496-514 | That relation is transitive (with its reflexivity and symmetry, an equivalence), as the table's lookups need. |
| CStrings.LowerCaseExactly | PRIVATE/SERVERS/HTTP/EXTNS/extns.cpp:500-514 | Each of the 26 capital letters is folded to its small letter, and no other character changes. |
| LockTable.CreateKeepsInv | PRIVATE/SERVERS/HTTP/WEBDAV/davlock.cpp:1249-1355 | LOCK keeps the invariant: files pairwise different, every file has a lock, an exclusive one exactly one, ids distinct and below the next one; a new id was never held; a failed LOCK leaves the files as they were. |
| LockTable.RefreshKeepsInv | PRIVATE/SERVERS/HTTP/WEBDAV/davlock.cpp:86-103 | A refreshed lease keeps the invariant. |
| LockTable.DeleteKeepsInv | PRIVATE/SERVERS/HTTP/WEBDAV/davlock.cpp:1425-1447 | UNLOCK keeps the invariant, whether or not the file goes with its last lock. |
| LockTable.SweepKeepsOk | PRIVATE/SERVERS/HTTP/WEBDAV/davlock.cpp:1207-1241 | A sweep keeps the invariant, and every file it keeps is an old one with some of its locks. |
| LockTable.UnexpiredKeepsDistinct | PRIVATE/SERVERS/HTTP/WEBDAV/davlock.cpp:1006-1035 | Dropping expired locks of a file keeps its ids distinct and adds none. |
| LockTable.DropKeepsInv | PRIVATE/SERVERS/HTTP/WEBDAV/davimpl.cpp:805-818 | Deleting a file with its locks keeps the invariant. |
| LockTable.SetAllBusyKeepsInv | PRIVATE/SERVERS/HTTP/WEBDAV/davimpl.cpp:861-911 | Setting and clearing busy flags keeps the invariant. |
| LockTable.StepKeepsInv | PRIVATE/SERVERS/HTTP/WEBDAV/davlock.cpp:1249-1447 | Every atomic step of the lock manager keeps the invariant, and ids only go up. |
| LockTable.RunOneMore | PRIVATE/SERVERS/HTTP/WEBDAV/davlock.cpp:1249-1355 | A run takes its steps in order, each from the table that the steps before it have left. |
| LockTable.RunKeepsInv | PRIVATE/SERVERS/HTTP/WEBDAV/davlock.cpp:1006-1447 | The invariant holds after every run of steps, in any order. |
| LockEffects.GrantedExactly | PRIVATE/SERVERS/HTTP/WEBDAV/davlock.cpp:1278-1288 | LOCK is refused if and only if the file is locked and either side is exclusive; when it succeeds; when it does not, no lock changes; and the next id goes up by one exactly if an id has been used. |
| LockEffects.GrantAddsOne | PRIVATE/SERVERS/HTTP/WEBDAV/davlock.cpp:1312-1325 | A granted lock is held on its file under all its names, and nothing else changes. |
| LockEffects.RefreshMovesNone | PRIVATE/SERVERS/HTTP/WEBDAV/davlock.cpp:86-103 | A refresh succeeds exactly for a lock held on the file, and moves no lock. |
| LockEffects.UnlockTakesOne | PRIVATE/SERVERS/HTTP/WEBDAV/davlock.cpp:1425-1447 | UNLOCK succeeds exactly for a lock held on a file that is not busy, and takes away that lock and no other. |
| LockEffects.DropTakesFile | PRIVATE/SERVERS/HTTP/WEBDAV/davimpl.cpp:805-818 | Deleting a file takes away the locks held on it, under all its names, and no others. |
| LockEffects.MayPerform | PRIVATE/SERVERS/HTTP/WEBDAV/davlock.cpp:1358-1403 | Who may change two files, said in terms of who holds which lock. |
| LockEffects.DeleteExactly | PRIVATE/SERVERS/HTTP/WEBDAV/davimpl.cpp:1060-1086 | A DELETE takes exactly the locks of its file, by any of its names, if the client knows one of them, and otherwise none. |
| LockEffects.DeniedDoesNothing | PRIVATE/SERVERS/HTTP/WEBDAV/davimpl.cpp:845-857 | A MOVE or COPY by a client that does not know a lock of each locked file changes nothing. |
| LockExclusion.NoIdComesBack | PRIVATE/SERVERS/HTTP/WEBDAV/davlock.h:151 | An id that is gone never comes back, over any run. |
| LockExclusion.StepEvolves | PRIVATE/SERVERS/HTTP/WEBDAV/davlock.cpp:1006-1447 | Every step only takes locks away, or adds locks with new ids; no lock moves to another file. |
| LockExclusion.AloneUntilGone | PRIVATE/SERVERS/HTTP/WEBDAV/davlock.cpp:1278-1288 | An exclusively locked file stays locked by that one lock over any run, until the lock is gone. |
| LockExclusion.MutualExclusion | PRIVATE/SERVERS/HTTP/WEBDAV/davlock.cpp:1278-1403 | From the grant of an exclusive lock until it is gone, after any run: every LOCK naming the file in any case or slash direction is refused, and every permitted operation on the file names that lock's id. |
| LockLeases.SweepExactly | PRIVATE/SERVERS/HTTP/WEBDAV/davlock.cpp:1006-1241 | A lock of a file is there after a sweep if and only if it was there before, and the file is busy or the sweep comes no later than the time the lock expires. |
| LockLeases.SweepKeepsNodes | PRIVATE/SERVERS/HTTP/WEBDAV/davlock.cpp:1224-1234 | A sweep unlinks exactly the files that have no lock left. |
| LockLeases.SweepInOrder | PRIVATE/SERVERS/HTTP/WEBDAV/davlock.cpp:1207-1241 | A sweep works through the list in order: the sweep of a concatenation is the concatenation of the sweeps. |
| LockLeases.SweepTwice | PRIVATE/SERVERS/HTTP/WEBDAV/davlock.cpp:1207-1241 | A sweep followed by a later one is the later one. |
| LockLeases.LeaseIsExact | PRIVATE/SERVERS/HTTP/WEBDAV/davlock.cpp:909-916 | The expiry is 10,000,000 ticks a second from now, exactly, if and only if the lease is under 2^32 milliseconds. |
| LockLeases.GrantLeases | PRIVATE/SERVERS/HTTP/WEBDAV/davlock.cpp:1264-1325 | A granted lock is leased for its full time. |
| LockLeases.RefreshLeases | PRIVATE/SERVERS/HTTP/WEBDAV/davlock.cpp:64-103 | A refreshed lock is leased for its full new time. |
| LockLeases.LeaseHolds | PRIVATE/SERVERS/HTTP/WEBDAV/davlock.cpp:909-916 | A leased lock is there after every run whose sweeps come within its time, unless the run unlocks it, shortens it, or deletes its file. |
| LockExpiry.LocksAfterStep | PRIVATE/SERVERS/HTTP/WEBDAV/davlock.cpp:909-1355 | No step makes up a lock: one that is there afterwards was there before, or is just the one that LOCK grants or refreshes, with its time. |
| LockExpiry.LeaseEnds | PRIVATE/SERVERS/HTTP/WEBDAV/davlock.cpp:1006-1241 | Locks end, over any run: if a lock is due at some time and no step of the run refreshes it beyond that, the first sweep later than that time that finds its file not busy takes it away, and it is not held again after any steps that follow. |
| LockExpiry.LastsAgainstOthers | PRIVATE/SERVERS/HTTP/WEBDAV/davlock.cpp:1006-1403 | Over any run of steps none of which unlocks or shortens it, sweeps after its time, deletes its file knowing it, or ends a MOVE of its file, an exclusive lock stays, alone on its file and with its time: clients that do not know it cannot end it. |
| LockExpiry.GrantEnds | PRIVATE/SERVERS/HTTP/WEBDAV/davlock.cpp:909-1355 | That for a lock granted at some time for some seconds, under 2^32 milliseconds: it is due 10,000,000 ticks a second later. |
| LockExpiry.RefreshEnds | PRIVATE/SERVERS/HTTP/WEBDAV/davlock.cpp:64-103 | The same for a lock refreshed. |
| LockTimeout.GetLockTimeout | PRIVATE/SERVERS/HTTP/WEBDAV/davlock.cpp:192-232 | By the index of the first item of the Timeout header that is known: "Infinite" gives a day, a number of seconds that number as a DWORD, a day at most, and 0 or an unreadable number an error; a header without a known item gives 0. |
| LockTimeout.GrantedForItsTime | PRIVATE/SERVERS/HTTP/WEBDAV/davmain.cpp:37-38 | Neither source of the timeout, the capped header nor the registry default, overflows: a new lock survives every run whose sweeps come within its time. |
| LockBusy.BusyUntilEnded | PRIVATE/SERVERS/HTTP/WEBDAV/davlock.cpp:978-1035 | What protects a busy file, exactly: one step leaves it busy if and only if it neither ends a MOVE or COPY that names the file, nor is one that fails to begin, nor carries out a DELETE of it; and then it keeps all its locks. |
| LockBusy.BusyThroughoutExactly | PRIVATE/SERVERS/HTTP/WEBDAV/davlock.cpp:978-1035 | The same over runs: the file is busy at every point if and only if no step of the run is one of these. |
| LockBusy.BusyThroughRun | PRIVATE/SERVERS/HTTP/WEBDAV/davlock.cpp:978-1011 | A busy file keeps all its locks through any such run. |
| LockBusy.BusyProtects | PRIVATE/SERVERS/HTTP/WEBDAV/davimpl.cpp:850-921 | For every interleaving of one MOVE or COPY with any steps of other requests, except the end or the failing begin of another MOVE or COPY of the file and a DELETE of it, each file it marked stays linked with all its locks until its flag is cleared. |
| LockBusy.SecondCopyUnprotected | PRIVATE/SERVERS/HTTP/WEBDAV/davimpl.cpp:861-911 | Two copies of one file at once are not protected: the first to end clears the flag for both, and the lock can go under the second (a run where BusyUntilEnded bites). |
| LockManager.LockCell.SetTimeout | PRIVATE/SERVERS/HTTP/WEBDAV/davlock.cpp:909-916 | The expiry is now plus the 32-bit product of seconds and 1000, in ticks. |
| LockManager.FileNode.AddLock | PRIVATE/SERVERS/HTTP/WEBDAV/davlock.cpp:956-970 | The new lock is linked in front; the list stays a list. |
| LockManager.FileNode.FindLock | PRIVATE/SERVERS/HTTP/WEBDAV/davlock.cpp:1038-1054 | Walks to the first lock with the id. |
| LockManager.FileNode.HasLockId | PRIVATE/SERVERS/HTTP/WEBDAV/davlock.cpp:1038-1054 | True exactly if the file has the lock. |
| LockManager.FileNode.HasLockIdInArray | PRIVATE/SERVERS/HTTP/WEBDAV/davlock.cpp:1058-1068 | True exactly if the file has one of the locks. |
| LockManager.FileNode.DeleteLock | PRIVATE/SERVERS/HTTP/WEBDAV/davlock.cpp:978-1004 | Relinks around exactly that lock, unless the file is busy. |
| LockManager.FileNode.RemoveTimedOutLocks | PRIVATE/SERVERS/HTTP/WEBDAV/davlock.cpp:1006-1035 | The pointer loop leaves exactly the unexpired locks, in order, unless the file is busy. |
| LockManager.FileLockManager.GetNodeFromFileName | PRIVATE/SERVERS/HTTP/WEBDAV/davlock.cpp:1174-1185 | The first file with the same path. |
| LockManager.FileLockManager.GetNodeFromID | PRIVATE/SERVERS/HTTP/WEBDAV/davlock.cpp:1161-1172 | The first file that has the lock, and the lock. |
| LockManager.FileLockManager.IsFileAssociatedWithLockId | PRIVATE/SERVERS/HTTP/WEBDAV/davlock.cpp:1187-1204 | True exactly if the lock is held on the file. |
| LockManager.FileLockManager.CanPerformLockedOperation | PRIVATE/SERVERS/HTTP/WEBDAV/davlock.cpp:1358-1403 | Decides as the table says, and returns the files' nodes. |
| LockManager.FileLockManager.RemoveFileNodeFromLinkedList | PRIVATE/SERVERS/HTTP/WEBDAV/davlock.cpp:1405-1423 | Relinks around exactly that file. |
| LockManager.FileLockManager.CreateLock | PRIVATE/SERVERS/HTTP/WEBDAV/davlock.cpp:1249-1355 | The linked lists afterwards stand for the table after the LOCK step, in every case of refusal and failure. |
| LockManager.FileLockManager.RefreshLock | PRIVATE/SERVERS/HTTP/WEBDAV/davlock.cpp:86-103 | The linked lists carry out the refresh step. |
| LockManager.FileLockManager.DeleteLock | PRIVATE/SERVERS/HTTP/WEBDAV/davlock.cpp:1425-1447 | The linked lists carry out the UNLOCK step: the lock, and with the last one the file, are relinked around. |
| LockManager.FileLockManager.RemoveTimedOutLocks | PRIVATE/SERVERS/HTTP/WEBDAV/davlock.cpp:1207-1241 | The two-level pointer loop carries out the sweep. |
| LockManager.FileLockManager.BeginMoveCopy | PRIVATE/SERVERS/HTTP/WEBDAV/davimpl.cpp:850-910 | Both locked files are marked busy if the client may and the others can be opened; if one cannot, the marks of both are taken off in the same critical section, whoever has set them; if the client may not, nothing changes. |
| LockManager.FileLockManager.EndMoveCopy | PRIVATE/SERVERS/HTTP/WEBDAV/davimpl.cpp:904-921 | The flags are cleared through the pointers kept from the beginning, and a moved file is unlinked. |
| LockManager.FileLockManager.DeleteFileAndFileLock | PRIVATE/SERVERS/HTTP/WEBDAV/davimpl.cpp:1060-1086 | A file that may be deleted is unlinked with its locks. |
| LockTokens.TokenRoundTrip | PRIVATE/SERVERS/HTTP/WEBDAV/davlock.cpp:289-341 | Reading a printed token back gives its id, for every 64-bit id and in any letter case. |
| LockTokens.TokensDiffer | PRIVATE/SERVERS/HTTP/WEBDAV/davlock.cpp:289-313 | Different ids print as different tokens. |
| LockTokens.ForeignToken | PRIVATE/SERVERS/HTTP/WEBDAV/davlock.cpp:315-341 | A token with another GUID is not taken for one of ours. |
| LockTokens.Int64RoundTrip | PRIVATE/SERVERS/HTTP/WEBDAV/davlock.cpp:305-336 | Decimal printing and reading of signed 64-bit numbers are inverse. |
| LockTokens.TokenExactly | PRIVATE/SERVERS/HTTP/WEBDAV/davlock.cpp:315-341 | For every text: it reads as an id if and only if it is the prefix and the GUID, each in any letter case, a colon, and a text that reads as that number. |
| LockTokens.Atoi64Exactly | PRIVATE/SERVERS/HTTP/WEBDAV/davlock.cpp:336 | For every text: white space, a sign and digits are read as the 64-bit number congruent to the one written, whatever follows. |
| IfHeader.LockIds.CheckToken | PRIVATE/SERVERS/HTTP/WEBDAV/davlock.cpp:597-616 | A token holds if it is ours and, for a tagged list, held on that file; then, and only then, its id is collected. |
| IfHeader.LockIds.CheckTest | PRIVATE/SERVERS/HTTP/WEBDAV/davlock.cpp:527-577 | One bracketed token or entity tag is read, judged and skipped as the value-level reading says; the patched character is put back. |
| IfHeader.LockIds.CheckList | PRIVATE/SERVERS/HTTP/WEBDAV/davlock.cpp:514-579 | The loop over a list stops at the first condition that fails or cannot be read. |
| IfHeader.LockIds.CheckTaggedList | PRIVATE/SERVERS/HTTP/WEBDAV/davlock.cpp:442-579 | One list with its tag. |
| IfHeader.LockIds.CheckLockHeader | PRIVATE/SERVERS/HTTP/WEBDAV/davlock.cpp:414-592 | The pointer walk over the NUL-patched copy of the header gives the answer of `EvalHeader` on its text, collects its ids, and leaves the text as it was. |
| IfTexts.AnswerExactly | PRIVATE/SERVERS/HTTP/WEBDAV/davlock.cpp:414-590 | For every text of the header, well formed or not. Yes if and only if it is a sequence of lists, each an optional closed tag, "(" up to the first ")", and in between closed tests with an optional "not" that all hold. 400 if and only if, behind lists and tests that hold, something comes that is no list or no test of this form. 412 if and only if, behind such, comes a test that does not hold. |
| IfTexts.YesCollects | PRIVATE/SERVERS/HTTP/WEBDAV/davlock.cpp:605-615 | With a yes, the ids collected are those of the tokens in the text, in order. |
| IfTexts.ListExactly | PRIVATE/SERVERS/HTTP/WEBDAV/davlock.cpp:512-579 | The same for the content of one list. |
| IfTexts.NoTestExactly | PRIVATE/SERVERS/HTTP/WEBDAV/davlock.cpp:520-563 | A text is malformed where a test should be if and only if it does not begin with an optional "not" and a closed bracket of one of the two kinds. |
| IfTexts.SkippedExactly | PRIVATE/SERVERS/HTTP/WEBDAV/davutil.cpp:26-43 | Of every URL with a slash: nothing is skipped in front of a path, otherwise the scheme, its slashes and the host up to the next slash, or up to the slashes if no other follows; a URL without a slash is refused. |
| IfTexts.TokenIdExactly | PRIVATE/SERVERS/HTTP/WEBDAV/davlock.cpp:597-616 | For every text between the brackets: its id is taken if and only if, behind white space and perhaps a quote or a second bracket, it reads as that id, and the file of the list, if it has one, has the lock. |
| IfTexts.ETagExactly | PRIVATE/SERVERS/HTTP/WEBDAV/davlock.cpp:619-646 | For every text between the brackets: it holds if and only if, behind white space and the mark of a weak tag, it is the entity tag of the file. |
| IfGrammar.HeaderMeans | PRIVATE/SERVERS/HTTP/WEBDAV/davlock.cpp:414-592 | For every header of section 9.4 of RFC 2518 made of plain tests, with any white space, the answer is yes exactly if every condition of every list, negated or not, holds; otherwise no, never "malformed"; on yes the ids are those of the own tokens that are not negated, in order. Holding is the code's own rule here: a token of this server's in a list without a tag holds by definition, held or not (see IfStandard). |
| IfGrammar.PlainExactly | PRIVATE/SERVERS/HTTP/WEBDAV/davlock.cpp:503-553 | Which tests are plain, exactly: every header made of a given set of tests is read as it is meant, by every server, if and only if no entity tag among them holds a parenthesis or a closing bracket, and no foreign token a parenthesis. |
| IfGrammar.PrintedIsTest | PRIVATE/SERVERS/HTTP/WEBDAV/davlock.cpp:289-313 | A token printed with its brackets is, character for character, the test of that token in a header. |
| IfGrammar.ListMeans | PRIVATE/SERVERS/HTTP/WEBDAV/davlock.cpp:442-579 | The same for one tagged or untagged list, by the same rule for tokens. |
| IfGrammar.ConditionsMean | PRIVATE/SERVERS/HTTP/WEBDAV/davlock.cpp:514-579 | The same for the conditions of one list, by the same rule for tokens. |
| IfGrammar.TagMeans | PRIVATE/SERVERS/HTTP/WEBDAV/davlock.cpp:446-487 | A tag names the file of its path, with or without scheme and host. |
| IfGrammar.HostSkipped | PRIVATE/SERVERS/HTTP/WEBDAV/davutil.cpp:26-42 | Scheme and host are skipped, up to the path. |
| IfGrammar.GrantedTokenOpens | PRIVATE/SERVERS/HTTP/WEBDAV/davlock.cpp:1312-1403 | The token of a new lock, sent back for the file's URL, opens the file to its holder. |
| IfGrammar.ParenthesisInTest | PRIVATE/SERVERS/HTTP/WEBDAV/davlock.cpp:503-548 | A parenthesis in an entity tag or a foreign token, which the grammar allows, ends the list there: for the whole header the answer is "malformed" if and only if all conditions in front of it hold, and no otherwise. |
| IfGrammar.BracketInEntityTag | PRIVATE/SERVERS/HTTP/WEBDAV/davlock.cpp:542-567 | A closing bracket in an entity tag ends the tag there: the answer is no if the beginning of the tag does not compare as it should, though the whole tag may. |
| IfGrammar.NotPlainIsMisread | PRIVATE/SERVERS/HTTP/WEBDAV/davlock.cpp:503-567 | Each test that is not plain is misread even when it is the whole header. |
| IfGrammar.UnreachedDoesNotMatter | PRIVATE/SERVERS/HTTP/WEBDAV/davlock.cpp:561-567 | One header with a parenthesis in a tag that every server reads as it is meant: a condition in front of it always fails. |
| IfStandard.FairExactly | PRIVATE/SERVERS/HTTP/WEBDAV/davlock.cpp:604-608 | When the server judges one test as section 9.4.1 of RFC 2518 does, for which a token matches if that lock is held on the resource: exactly if a token without a tag is held on the request's file, and behind a tag that maps to no file there is no token and not the tag of the request's file; where they differ, the server takes the test to hold. |
| IfStandard.YesIsStandardYes | PRIVATE/SERVERS/HTTP/WEBDAV/davlock.cpp:442-590 | If the tests that are not negated are of that kind, the server never says yes where the standard, which asks for one list of each resource to match, says no. |
| IfStandard.YesExactly | PRIVATE/SERVERS/HTTP/WEBDAV/davlock.cpp:604-608 | A yes of the server is one of the standard, for every header whose tests that are not negated are among some questions, if and only if all these questions are of that kind. |
| IfStandard.OneListIsStandard | PRIVATE/SERVERS/HTTP/WEBDAV/davlock.cpp:442-590 | Where all tests are of that kind, every resource in the header has one list, and the method is applied to it, the two answers are the same. |
| IfStandard.AnswersExactly | PRIVATE/SERVERS/HTTP/WEBDAV/davlock.cpp:604-608 | For every header of one list for each resource, whose tests are among some questions, the two answers are the same if and only if all these questions are of that kind. |
| IfStandard.UnfairAlone | PRIVATE/SERVERS/HTTP/WEBDAV/davlock.cpp:604-608 | Each test that is not of that kind, alone in a header: the server says yes where the standard says no, and negated no where the standard says yes. |
| IfStandard.UnheldToken | PRIVATE/SERVERS/HTTP/WEBDAV/davlock.cpp:604-608 | With nothing locked, the header of one token of this server's, and of one negated: both answers are the opposite of the standard's. |
| IfStandard.AllListsAreAsked | PRIVATE/SERVERS/HTTP/WEBDAV/davlock.cpp:561-577 | Two lists of which one matches: the standard says yes, the server no. |
| IfStandard.TagIsForOneList | PRIVATE/SERVERS/HTTP/WEBDAV/davlock.cpp:446-461 | A second list behind a tag: the standard takes it for the tagged resource, the server for its own file, and says no. |
| AspCompiler.CalculateBufferSize | PRIVATE/SERVERS/ASP/CORE/parser.cpp:327-401 | The loop computes the sizing pass; no result exactly for a block without an end. |
| AspCompiler.AspState.SkipWhiteWriteReturns | PRIVATE/SERVERS/ASP/CORE/parser.cpp:292-304 | Skips exactly the white space, writes exactly its line ends, and says whether there were any. |
| AspCompiler.AspState.SkipToEndWriteReturns | PRIVATE/SERVERS/ASP/CORE/parser.cpp:308-316 | Writes exactly the line ends up to the end. |
| AspCompiler.AspState.CopyChars | PRIVATE/SERVERS/ASP/CORE/parser.cpp:171-218 | The text of one statement: every character escaped for the language, cut where a VBScript string gets too long. |
| AspCompiler.AspState.CopyPlainText | PRIVATE/SERVERS/ASP/CORE/parser.cpp:159-242 | A plain block becomes its statements and then one CRLF for each of its line feeds. |
| AspCompiler.AspState.CopyScriptText | PRIVATE/SERVERS/ASP/CORE/parser.cpp:246-284 | A block keeps its line ends and its code; a directive keeps its line ends only; an expression is wrapped. |
| AspCompiler.AspState.ConvertToScript | PRIVATE/SERVERS/ASP/CORE/parser.cpp:50-141 | The main loop compiles the page as `Compile` says, and reports a block without an end. |
| AspPage.SegmentsMakeThePage | PRIVATE/SERVERS/ASP/CORE/parser.cpp:80-119 | Cutting a page into plain text, blocks and the white space behind them loses nothing. |
| AspMeaning.CompilationPreservesMeaning | PRIVATE/SERVERS/ASP/CORE/parser.cpp:50-284 | When the script runs, the client gets, in the page's order, each plain text with CR dropped and LF as CR LF and each expression's value, and each code block is run unchanged as a statement of its own, if and only if no comment that a block leaves open takes in what is behind it on its line; read with an evaluator for literals, escapes, chr(), "&", split statements and comments. |
| AspMeaning.ClosedIsSound | PRIVATE/SERVERS/ASP/CORE/parser.cpp:246-284 | Pages whose blocks leave no comment and no string open are of that kind. |
| AspMeaning.CommentTakesText | PRIVATE/SERVERS/ASP/CORE/parser.cpp:107-118 | Pages where a comment takes in text, for each kind of comment that ends with its line, Rem behind Then among them: only a separator, and no line end, is written behind the block. |
| AspMeaning.LiteralMeans | PRIVATE/SERVERS/ASP/CORE/parser.cpp:171-218 | An escaped text between its quotes reads back as the text, in both languages. |
| AspMeaning.CharMeans | PRIVATE/SERVERS/ASP/CORE/parser.cpp:174-212 | The same for one character. |
| AspMeaning.StatementsRun | PRIVATE/SERVERS/ASP/CORE/parser.cpp:159-232 | All statements of a plain block together write its text, however it was split. |
| AspMeaning.SegmentRuns | PRIVATE/SERVERS/ASP/CORE/parser.cpp:84-118 | One segment, with or without an open comment in front of it, does what it is meant to, or is taken in by a comment, or is not closed in itself; and where the engine is behind it. |
| AspMeaning.SegmentsRun | PRIVATE/SERVERS/ASP/CORE/parser.cpp:77-119 | All segments do what they are meant to exactly if no comment takes one in; if one does, there are fewer events. |
| AspMeaning.PiecesAreScript | PRIVATE/SERVERS/ASP/CORE/parser.cpp:84-118 | Compiler-written text and copied code, put together, are the script. |
| AspMeaning.CrlfTextIsReproduced | PRIVATE/SERVERS/ASP/CORE/parser.cpp:196-206 | Text whose lines end in CR LF is reproduced exactly. |
| AspLayout.LinesAreKept | PRIVATE/SERVERS/ASP/CORE/parser.cpp:77-119 | Before the code of each block there are as many line feeds in the script as in the page, and in total: line numbers of errors match. |
| AspLayout.LineFeedsOfSegment | PRIVATE/SERVERS/ASP/CORE/parser.cpp:159-316 | Every segment has as many line feeds in the script as in the page. |
| AspLayout.JScriptFits | PRIVATE/SERVERS/ASP/CORE/parser.cpp:63-75 | A JScript page without "<%>" compiles to at most its own length plus what the sizing pass computed. |
| AspLayout.SizingAgrees | PRIVATE/SERVERS/ASP/CORE/parser.cpp:327-401 | Without "<%>" the sizing pass sees the same segments as the compiler. |
| AspLayout.NoSearchFails | PRIVATE/SERVERS/ASP/CORE/parser.cpp:88-95 | Without "<%>" no search for the end of a block fails behind the sizing pass. |
| AspLayout.HoleIsNotSeen | PRIVATE/SERVERS/ASP/CORE/parser.cpp:349-353 | With it one can: the page "<%>" passes the sizing pass and has no end for the compiler. |
| AspLayout.NullSearchExactly | PRIVATE/SERVERS/ASP/CORE/parser.cpp:88-95 | When exactly such a search fails: the page has a "<%>" where the text in front of it falls into complete segments, and no mark of a block behind it. |
| AspLayout.VbSegmentFits | PRIVATE/SERVERS/ASP/CORE/parser.cpp:377-397 | The room for plain text in VBScript is enough whenever the text is split into no more statements than the thousands of characters begun in it, plus one if they end evenly; so always if it takes one statement. |
| AspLayout.VbScriptFits | PRIVATE/SERVERS/ASP/CORE/parser.cpp:63-75 | The same for a whole VBScript page without "<%>". |
| AspLayout.VbTakesOneStatement | PRIVATE/SERVERS/ASP/CORE/parser.cpp:214-232 | Text whose literal has less than 983 characters takes one VBScript statement. |
| AspLayout.StatementsTake | PRIVATE/SERVERS/ASP/CORE/parser.cpp:159-250 | What text is compiled to is its escaped characters and 24 characters for each statement. |
| AspLayout.ExtraOfTextCounted | PRIVATE/SERVERS/ASP/CORE/parser.cpp:332-397 | The room reserved, by the numbers of quotes, line feeds and backslashes in the text, as literals for each language. |
| AspLayout.VbStatementFits | PRIVATE/SERVERS/ASP/CORE/parser.cpp:214-232 | No emitted VBScript statement is longer than 1025 characters. |
| AspLayout.JsTakesOneStatement | PRIVATE/SERVERS/ASP/CORE/parser.cpp:214-217 | JScript text is never split. |
| IncludeFiles.GetLineNumber | PRIVATE/SERVERS/ASP/PARSEEXT/parseext.cpp:689-701 | Counts the carriage returns between two positions, plus one. |
| IncludeFiles.ReadName | PRIVATE/SERVERS/ASP/PARSEEXT/parseext.cpp:151-185 | A name is found exactly if "file" or "virtual", "=" and a name between quotes, of either kind, are there; and then it is that name. |
| IncludeFiles.WrittenName | PRIVATE/SERVERS/ASP/PARSEEXT/parseext.cpp:147-185 | A name as an author writes it is found: either keyword, white space, an equals sign, and any text without quotes between two quotes of either kind, whatever is in front and behind. |
| IncludeFiles.ReadDirective | PRIVATE/SERVERS/ASP/PARSEEXT/parseext.cpp:147-275 | A directive that is accepted ends at the first end of a comment behind the beginning of its name, has the name that stands in it and, for that name and its kind, "file" or "virtual", the file's contents, and shares its last line with no script block; one that is refused has the fault that the error names. |
| IncludeFiles.FindIncludeFiles | PRIVATE/SERVERS/ASP/PARSEEXT/parseext.cpp:90-289 | All include directives in front of a NUL are found, at most sixteen, in order and apart as the layout checks demand, each ending at its first end of a comment and with the contents of the file it names; or one of them has the fault that the error names, and all those in front of it are found. |
| IncludeFiles.OneSetOfIncludes | PRIVATE/SERVERS/ASP/PARSEEXT/parseext.cpp:90-289 | What a page includes is determined by the page: two searches that end without an error find the same directives, with the same ends, names and files. |
| IncludeFiles.FindWordExactly | PRIVATE/SERVERS/ASP/PARSEEXT/parseext.cpp:98-115 | The search for a word finds its first place, and none exactly if there is none in front of the first NUL. |
| IncludeFiles.ReadIncludeFiles | PRIVATE/SERVERS/ASP/PARSEEXT/parseext.cpp:294-378 | The expanded text is the page with every directive replaced by its file, and every recorded start line is the true one in it. |
| IncludeFiles.ParseIncludes | PRIVATE/SERVERS/ASP/PARSEEXT/parseext.cpp:44-80 | Every page comes out as the page with just those directives replaced by their files that FindIncludeFiles promises, laid out as the line map needs it, or with the error of a faulty directive. |
| IncludeFiles.GetIncErrorInfo | PRIVATE/SERVERS/ASP/PARSEEXT/parseext.cpp:635-685 | The loop computes the search `Locate`, with the file name left alone behind the last include. |
| IncludeFiles.LayoutGivesLines | PRIVATE/SERVERS/ASP/PARSEEXT/parseext.cpp:134-138 | With directives on one line each, the layout check puts each on a line of its own. |
| IncludeFiles.FileLineComesBack | PRIVATE/SERVERS/ASP/PARSEEXT/parseext.cpp:635-685 | Every position of every include file, wherever it is in the expanded text, maps back to that file and its own line. |
| IncludeFiles.PageLineComesBack | PRIVATE/SERVERS/ASP/PARSEEXT/parseext.cpp:635-685 | Every position of the page that shares no line with a directive maps back to its own line of the page. |
| VRoots.CountSignificantSlashesInURL | PRIVATE/SERVERS/HTTP/CORE/vroots.hpp:57-66 | Counts the slashes behind the first character and before the last. |
| VRoots.InitPathEntry | PRIVATE/SERVERS/HTTP/CORE/vroots.hpp:243-359 | An entry with a path drops one slash at its end and has its slashes counted: it is sound unless it is a root directory with a two-character name. |
| VRoots.NamedExactly | PRIVATE/SERVERS/HTTP/CORE/vroots.hpp:270-275 | One slash at most is taken off a name, and what is left ends in no slash, or is just one character, if and only if the name did not end in two. |
| VRoots.InitRedirectEntry | PRIVATE/SERVERS/HTTP/CORE/vroots.hpp:250-280 | An entry that redirects is accepted for exactly the URLs its name serves if the name is one segment, and for none otherwise, because its slashes are not counted. |
| VRoots.VRootTable.Sort | PRIVATE/SERVERS/HTTP/CORE/vroots.hpp:370-383 | The do-while sort ends, and leaves the same entries in descending order of URL length, equal lengths in their old order. |
| VRoots.VRootTable.Pass | PRIVATE/SERVERS/HTTP/CORE/vroots.hpp:374-382 | A pass that swaps lowers the disorder; one that does not has found the table sorted. |
| VRoots.SwapHelps | PRIVATE/SERVERS/HTTP/CORE/vroots.hpp:375-381 | Swapping two neighbours that are out of order lowers the disorder. |
| VRoots.VRootTable.MatchVRoot | PRIVATE/SERVERS/HTTP/CORE/vroots.hpp:118-198 | Returns the first entry that the test accepts, or none; in a sorted table of sound entries that is the longest entry that serves the URL, and none only if none does. |
| VRoots.Follow | PRIVATE/SERVERS/HTTP/CORE/vroots.hpp:164-178 | Skipping slashes never passes the end of the URL. |
| VRoots.HitsIsServes | PRIVATE/SERVERS/HTTP/CORE/vroots.hpp:132-194 | The test accepts exactly "/" and the whole-segment prefixes, ignoring case, for every named entry; except that a root directory with a two-character name is accepted for every URL. |
| VRoots.RedirectHits | PRIVATE/SERVERS/HTTP/CORE/vroots.hpp:257-280 | A redirecting entry is accepted exactly if it serves the URL and its name is one segment: longer ones never match. |
| VRoots.PathEntriesAreSound | PRIVATE/SERVERS/HTTP/CORE/vroots.hpp:250-359 | An entry with a path is sound exactly if it is not a root directory with a two-character name. |
| VRoots.FirstHitIsLongest | PRIVATE/SERVERS/HTTP/CORE/vroots.hpp:118-198 | In a sorted table of sound entries the match is the longest entry that serves the URL, and none only if none does. |
| TableLifetime.CVRoots.DelRef | PRIVATE/SERVERS/HTTP/CORE/vroots.hpp:490-494 | The table deletes itself exactly when its count reaches 0. |
| TableLifetime.WebServer.CreateHTTPConnection | PRIVATE/SERVERS/HTTP/CORE/httpmain.cpp:525-568 | A connection is accepted exactly if there is room, it may be served and a thread can be had; the list and the count agree afterwards, also when it is taken back. |
| TableLifetime.WebServer.RemoveFromList | PRIVATE/SERVERS/HTTP/CORE/request.cpp:569-598 | Relinks around exactly that request, and counts it out. |
| TableLifetime.WebServer.ReInit | PRIVATE/SERVERS/HTTP/CORE/request.cpp:632-671 | Between two requests of a connection the root is forgotten. |
| TableLifetime.WebServer.GetVirtualRootsTableFromWebsite | PRIVATE/SERVERS/HTTP/CORE/request.cpp:1059-1067 | A request changes to the table its site publishes now; the old one is deleted exactly if nobody else has it. |
| TableLifetime.WebServer.MapWebsite | PRIVATE/SERVERS/HTTP/CORE/website.cpp:132-176 | A resolved request holds a reference to the table of its site. |
| TableLifetime.WebServer.ResolveURL | PRIVATE/SERVERS/HTTP/PARSER/parser.cpp:344 | The root of a request is inside the table it holds. |
| TableLifetime.WebServer.ReleaseTable | PRIVATE/SERVERS/HTTP/CORE/request.cpp:617-622 | The first half of the destructor gives the reference back. |
| TableLifetime.WebServer.RefreshVrootTable | PRIVATE/SERVERS/HTTP/CORE/httpmain.cpp:392-427 | A new table is published; requests keep the one they hold, and on failure nothing changes. |
| TableLifetime.WebServer.RefreshAll | PRIVATE/SERVERS/HTTP/CORE/httpmain.cpp:443-455 | All sites in order: exactly those up to the first that cannot be read publish a new table, the others keep theirs. |
| TableLifetime.WebServer.NoDanglingRoot | PRIVATE/SERVERS/HTTP/CORE/request.cpp:1059-1067 | In every state that keeps the invariant, the table of a request is not deleted and its root is inside that table. |
| TableLifetime.WebServer.OneStep | PRIVATE/SERVERS/HTTP/CORE/request.cpp:563-624 | One step of any thread makes of the server, as a value, exactly what the pure step makes of it; the table made, if any, is new. |
| TableLifetime.WebServer.ThreadStep | PRIVATE/SERVERS/HTTP/CORE/request.cpp:563-671 | The same for each kind of step of a request: forgetting its root, changing its table, mapping its site, resolving, letting go, leaving. |
| TableLifetime.WebServer.Run | PRIVATE/SERVERS/HTTP/CORE/request.cpp:563-624 | Any interleaving of threads, connections and refreshes is the fold of its steps: every request's table, root, site and flags, in order, and what the sites publish. After it every table's count is the requests holding it plus the sites publishing it, no held table is deleted, and the connection count is the length of the list and within the maximum. |
| TableLifetime.KeepsItsSeat | PRIVATE/SERVERS/HTTP/CORE/request.cpp:1059-1067 | Over any run: what other threads do, and however often tables are replaced, the table, root, site and flags of a request stay as they are until it takes a step of its own. |
| TableLifetime.OwnStepLasts | PRIVATE/SERVERS/HTTP/CORE/request.cpp:1059-1067 | What a step of its own gives a request, case by case (the table its site publishes at that moment, the table of the mapped site, a root in its table, nothing when it lets go), lasts through any run of the others. |
| TableLifetime.ConnectionsCount | PRIVATE/SERVERS/HTTP/CORE/httpmain.cpp:525-568 | A step changes the number of connections by one up if it is a connection accepted, by one down if it is a request that leaves, and otherwise not. |
| TableLifetime.LeavingMakesRoom | PRIVATE/SERVERS/HTTP/CORE/request.cpp:569-598 | A dying request that leaves is taken out of the list and out of the count, and then the next connection is accepted, also if the maximum had been reached. |
| TableLifetime.StaysUntilDone | PRIVATE/SERVERS/HTTP/CORE/request.cpp:617-624 | A request that is not being deleted, or still holds its table, is not taken out of the list. |
| TableLifetime.RefreshPublishes | PRIVATE/SERVERS/HTTP/CORE/httpmain.cpp:392-427 | A refresh that succeeds replaces the table of its site and of no other, and touches no request. |
| TableLifetime.AcceptedExactly | PRIVATE/SERVERS/HTTP/CORE/httpmain.cpp:525-568 | After any run a connection is accepted if and only if the connections left by the run are fewer than the maximum, it may be served, and a thread can be had. |
| TableLifetime.WebServer.DeleteAllRequestObjects | PRIVATE/SERVERS/HTTP/CORE/request.cpp:1074-1088 | Empties the list, and the count is 0. |
| TableLifetime.WebServer.CleanupGlobalMemory | PRIVATE/SERVERS/HTTP/CORE/website.cpp:30-64 | After shutdown no request is left and every table ever made is deleted. |
| TableLifetime.HeldLives | PRIVATE/SERVERS/HTTP/CORE/vroots.hpp:489-494 | Counting right means that whatever is held or published is alive. |

## Left out

- Sockets, select errors, timeouts while data is outstanding, file handles, the registry, threads and logging: input and output.
- Failing memory allocation of buffers, the 32-bit width of buffer indices, and raw-read filters.
- The handshake, renegotiation, data left over from the handshake, and post data on secure connections; cryptography is a function from records to plain text.
- RequestBuffer.Buffer.RecvExactly: a peer that pauses longer than the timeout in the middle of a body is not modelled.
- ChunkedUpload.HttpRequest.ReadClientChunked: chunked bodies over SSL are not modelled.
- ChunkedUpload.ParseInitialChunkedUpload: a peer that closes the connection in the middle of the body during the initial read is outside its domain, because the body read then reports success without new bytes.
- PathNames.PathNameCompare: letter case is folded for ASCII only.
- LockManager.FileLockManager.CreateLock: lock requests without a share mode, owner strings, name spaces and response bodies are not modelled; the wrap-around of the 64-bit id counter is not either.
- LockTimeout.GetLockTimeout: the splitting of the Timeout header at its commas (CHeaderIter) is a given.
- IfGrammar.HeaderMeans: tokens that begin like this server's but are not as it prints them are neither own nor foreign (`LockTokens.TokenExactly` says how they are read); the lock table does not change between two tokens of one header.
- IfGrammar.BracketInEntityTag: where the beginning of the tag does compare as it should, what the server makes of the rest of the tag is said by `IfTexts.AnswerExactly` only.
- IfStandard.OneListIsStandard: weak comparison of entity tags, and a method that is applied to many resources at once, which has to meet a header without tags for each of them.
- IfHeader.LockIds.CheckLockHeader: on a list that stops early the code frees its copy of the header before it writes the closing parenthesis back into it; here it is put back first. Failing memory allocation, and the canonical form of URLs, which is part of the mapping to files.
- AspLayout.VbScriptFits: nothing is said about the room for VBScript text that is split into more statements than there are thousands of characters begun, because that sizing counts characters of the page where the splitting counts characters of the script.
- AspCompiler.AspState.ConvertToScript: double-byte characters in the search for "<%" and "%>", code pages, and the array behind the script, which is a growing string here.
- AspMeaning.CompilationPreservesMeaning: the evaluator reads compiler-written text, and of the page's own code only where its comments and strings end; regular expression literals are not told from division, so a quote in one counts as a quote; HTML comment marks in code are not comments; and code is taken to be made of whole statements, none of which goes on in the next line or block.
- IncludeFiles.FindIncludeFiles: file sizes against contents, and paths of include files; opening a file is a function of its name.
- IncludeFiles.PageLineComesBack: directives of more than one line, and positions on a directive's own line.
- VRoots.InitPathEntry: permissions, authentication, script types and the path of an entry; entries without a path are unused ones of length 0.
- TableLifetime.WebServer.Run: startup that fails half way, failing memory allocation, and everything a request does besides holding its table.
- Directory listings, property requests, ISAPI extensions, authentication, cookies, script dictionaries and encoders: plumbing around the parts modelled.
