# Verified model of weborf

Weborf is a small threaded HTTP and WebDAV server written in C. This project models its core in
Dafny and proves what that core is relied on for. Each module stands for one source file or one
part of it, in the form the source has: buffers are arrays that are edited in place, objects with
fields are classes, loops are loops with invariants, and each of these is proved equal to a
function whose own properties are then proved as lemmas.

The parts, and the main results about each:

- **Worker pool.** `SynQueue` is the ring buffer, `ThreadInfo` the two counters, `WorkerPool` a
  step machine of the listener and any number of workers in which one step is one hold of a mutex
  or one unlocked action. `PoolInvariant` holds an inductive invariant and `PoolTheorems` its
  consequences in every reachable state: no lost wake-up, exact counters that never wrap, every
  socket in exactly one place and closed once, one retirement for each termination order.
  `PoolDecisions` says over whole runs when a worker is told to leave and when a group of threads
  is asked for, by the true numbers of workers, and `PoolGrowth` exactly when the last group is
  started.
- **Connection input.** `BufferedReader` refines a plain stream under any schedule of chunks,
  stalls and errors; `RequestLoop` gives the meaning of the header scan and of the request loop,
  and shows that the scan's shortcut changes nothing; `Fields` and `RequestText` read methods and
  header fields back as clients write them; `RequestBuffer` takes the request line apart in the
  request buffer; `Connection` has the loops over the real buffers; `Pipelining` and
  `HttpText` show that a list of requests of any method is recovered exactly; `EndToEnd` puts these
  together; `BodyRounds` and `PutFile` are the body of a PUT.
- **Codecs on strings.** `InPlace`, `StringReplace` and `UrlCleanup` edit C strings where they lie;
  `Encoders`, `Base64`, `Auth` and `CacheName` have round trips and injectivity. `CString` and
  `CNumber` are the libc functions these rely on.
- **Ranges.** `Ranges` has the exact condition under which a range is accepted, the answer to every
  header that a client writes, the reassembly of a file from the answers, and the copy loop.
- **Trees.** `Disk` is a file system whose every call may fail, `FileTree` the copies, moves and
  removals on it, `CopyMove` the requests that ask for them.

A byte is a `char` below 256. The network is a list of chunks, stalls and errors; memory, disk
and socket calls fail at the choice of the model (`*`), or succeed where the object is said to be
`healthy` or `reliable`; which reads of a disk fail or come back short is a script, and which
device a path lies on a function. A disk that is healthy otherwise performs every call whose own
conditions hold. What a handler decides about a request is a parameter.

Where the code differs from its comments or from what one would expect, the model follows the
code:

- `init_threads` compares with a strict `<`, so the live workers always stay below MAXTHREAD
  (`PoolTheorems.CountersAreExact`). The listener asks for the last few of them with a number that
  is one too large for the count it has read, so that group is started exactly if a worker retires
  between the unlocked read and the lock (`PoolGrowth.LastGroupStarts`); from one reachable state
  either can happen (`PoolGrowth.LastGroupEitherWay`).
- `bytes_to_send` does not compare the two ends of a range, and an end of -1 wraps around; the
  exact condition is `Ranges.Accepted`, concrete ranges are in `Ranges.RangesThatShouldNotPass`,
  and no byte is sent for exactly the accepted ranges of these two kinds
  (`Ranges.SendsNothingExactly`).
- The name `Range` is looked for anywhere in the header, so an If-Range field in front of the Range
  field is itself taken for it: the request is refused exactly if the client's copy is current, and
  gets the whole file otherwise (`Ranges.IfRangeFirst`). Behind the Range field it does what it
  should (`Ranges.AskedIsAnswered`).
- `dir_move` returns 1 for a rename that fails, which `copy_move` passes on and which then reads as
  OK_CREATED: a directory that is not moved is reported as moved. On a healthy disk and one device
  that happens exactly if the request is not turned away and the rename is not possible
  (`CopyMove.CopyMove`). No other copy or move that
  fails returns a success code (`FileTree.Code`); the 1 of `dir_remove` becomes ERR_FORBIDDEN in its caller.
- `copy_move` gives the two values of the Overwrite field each other's meaning: with `F` an existing
  destination is replaced, and with `T` it is not, while section 10.6 of RFC 4918 asks for the
  opposite (`CopyMove.OverwriteIsInverted`, with a concrete file in `CopyMove.ReplacedAllTheSame`).
- `read_file` ends exactly if the connection holds the announced body (`PutFile.BodyEndsExactly`).
- `uri_encode` asks for three free bytes where an escape takes four with its NUL. It stays inside
  its size exactly if the name is never tight for it (`Encoders.UriEncode`); a space is tight for
  three bytes (`Encoders.SpaceIsTight`), and the names that list_dir encodes never are for its
  buffer (`Encoders.ListedNamesFit`).
- `strReplace` ends exactly if the substring is not empty and, where it is the very replacement
  character, does not occur (`StringReplace.StrReplaceEnds`). With the character further back in
  the substring it ends but may leave an occurrence (`StringReplace.MarkMayCompleteAnother`).
- `modURL` cuts at `../`, so the last segment of a page may still be `..`, exactly if what is kept
  of the decoded path is `..` or ends in `/..` (`UrlCleanup.PageIsSafe`): because it was there
  (`UrlCleanup.LastSegmentMayBeParent`), or because the cut leaves it of longer dots
  (`UrlCleanup.CutMayLeaveParent`). No other segment even ends in two dots.
- `file_copy` takes a read error for the end of the file and does not shorten an existing
  destination. What it reports as a success is a copy exactly under the condition in
  `FileTree.CopyIsExact`; with all reads working, if the old file was not longer. "xy" over "abcd"
  is `FileTree.CopyOverLonger`, and a move that gives up the source after a read error is
  `FileTree.MoveAfterReadError`.
- The page in the message to the authentication program has been decoded, so it may hold a CRLF,
  and the five fields arrive exactly if none of them does (`Auth.FieldsSurviveExactly`,
  `Auth.DecodedPageMayBreak`).
- `replaceEscape` turns a `%` with fewer than two characters behind it into one character and
  leaves what follows it, and a decoded NUL ends the page (`InPlace.ReplaceEscape`).

## Model

| member | source | states |
|---|---|---|
| SynQueue.RingPop | queue.c:71-75 | moving `head` on by one cell leaves exactly the items behind the oldest |
| SynQueue.RingPush | queue.c:99-103 | writing the cell at `tail` appends, around the end of the array too |
| SynQueue.RingQueue.constructor | queue.c:36-55 | an empty ring of the given size with nobody waiting |
| SynQueue.RingQueue.Get | queue.c:61-80 | one hold of the mutex removes the oldest item or blocks and counts the waiter; the ring stays well formed |
| SynQueue.RingQueue.Put | queue.c:82-107 | signals and uncounts a waiter first, then appends, or fails exactly when full and leaves the items alone |
| PoolInvariant.WorkerKeepsWakeups | queue.c:61-80 | a worker's step keeps: sleepers are counted in `n_wait_dt`, and while one sleeps every item has a woken worker coming |
| PoolInvariant.ListenerKeepsWakeups | queue.c:82-107 | a put keeps the same, although it signals before the test for a full queue and may wake several |
| PoolInvariant.ListenerKeepsCounters | listener.c:77-105 | creation and the update of `count` under one lock keep the counters exact and below MAXTHREAD |
| PoolInvariant.WorkerKeepsCounters | instance.c:284-299 | a worker's updates keep the counters exact, also for one that fails its initialisation |
| PoolInvariant.StepKeepsOrder | queue.c:61-107 | everything put is what was taken followed by what is queued, in order |
| PoolInvariant.ListenerKeepsOrders | listener.c:133-145 | only sockets and -1 enter the queue, and the ordered retirements still match; when -1 is put is `PoolDecisions` |
| PoolInvariant.WorkerKeepsOrders | instance.c:294-300 | dequeued -1s and workers told to leave stay equal in number |
| PoolInvariant.ListenerKeepsCustody | listener.c:204-213 | accepting, putting and dropping keep each open socket in one place |
| PoolInvariant.WorkerKeepsCustody | instance.c:294-342 | taking, serving and closing keep each open socket in one place |
| PoolInvariant.GetKeepsCustody | queue.c:61-80 | a socket taken from the ring passes to exactly one worker |
| PoolInvariant.StepKeepsInv | listener.c:190-226 | every step of listener or worker keeps the whole invariant |
| PoolInvariant.RunKeepsInv | listener.c:190-226 | so does every run |
| PoolInvariant.ReachableInv | listener.c:176-226 | it holds in every state reachable from the start of the loop |
| PoolTheorems.NoLostWakeup | queue.c:61-107 | in every reachable state in which a worker sleeps, no more is queued than workers are woken, and one of these takes the oldest item next |
| PoolTheorems.CountersAreExact | listener.c:77-105 | `free` and, with the mutex free, `count` are the true numbers, with `free <= count < MAXTHREAD` |
| PoolTheorems.CountersNeverWrap | instance.c:239-249 | every update of the unsigned counters is the plain sum |
| PoolTheorems.SocketsConserved | listener.c:204-213 | each accepted socket is open in exactly one place or was closed exactly once, by listener or worker |
| PoolTheorems.ClosesOnlyOpenSockets | instance.c:338-338 | neither listener nor worker closes a socket that is not open |
| PoolTheorems.OrdersRetireOneWorkerEach | listener.c:141-144 | the queue is first in, first out over the run, and each -1 taken out retires one worker |
| ThreadInfo.WorkerStepsCall | instance.c:239-249 | with the mutex free, the machine's steps of a worker do to the counters what its calls of change_free_thread do, and its other steps nothing |
| ThreadInfo.CallFromWorker | instance.c:292-354 | where the fields are the true numbers of free and live workers before such a call, they are after it |
| ThreadInfo.ThreadInfo.InitThreads | listener.c:77-105 | `count` grows by the threads that were really created, if the bound allows, and `free` stays |
| ThreadInfo.InitThreadsIsARun | listener.c:77-105 | the machine's steps for init_threads do to the counters what the loop does, whichever creations fail |
| ThreadInfo.InitThreadsUnderLock | listener.c:77-105 | with any steps of workers in between, `count` ends as the method makes it of its value at the lock and of the outcomes of the creations |
| PoolGrowth.CountFalls | listener.c:216-222 | without the listener `count` falls by one for each retirement and by nothing else |
| PoolGrowth.LastGroupStarts | listener.c:216-222 | the last group is started exactly if a worker retires between the unlocked read and the lock |
| PoolGrowth.LastGroupEitherWay | listener.c:86-86 | a reachable state from which one run starts that group and another does not |
| PoolDecisions.DecisionsByNumbers | listener.c:141-222 | in every reachable state t_shape goes on to put -1 if and only if more than MAXFREETHREAD workers are really free, and the check after accept goes on to a group if and only if no more than LOWTHREAD are, a whole one if and only if it fits beside the live ones |
| PoolDecisions.StepBegins | listener.c:133-222 | an order, a check or a group is begun by its own step only, and stays with the listener until it is carried out |
| PoolDecisions.EndsWhatItBegins | listener.c:133-222 | over any run what was begun has been carried out once, or is still pending |
| PoolDecisions.OrdersAreDecisions | listener.c:141-144 | in every run -1 is put as often as t_shape has found more than MAXFREETHREAD workers free, the one still to be put apart; those that found room are queued or have each told one worker to leave |
| PoolDecisions.GroupsAreShortages | listener.c:206-222 | in every run there is one check for each accept, stored, dropped or failed, and one call of init_threads for each check with no more than LOWTHREAD free workers, and one at the start |
| PoolDecisions.OrderWasDecided | listener.c:141-144 | wherever in a run -1 is about to be put, there is an earlier t_shape in a state with more than MAXFREETHREAD free workers and no other order since |
| PoolDecisions.GroupWasNeeded | listener.c:216-222 | wherever a group after the first is about to be started, there is an earlier check with no more than LOWTHREAD free workers and no other group since |
| CString.ParamLayout | utils.c:445-478 | a field written as `name: value` CRLF, whose name does not occur earlier, is read back if and only if it fits with its NUL |
| CString.ParamValue | utils.c:445-478 | a value found fits the caller's buffer with its NUL |
| Fields.FieldRead | utils.c:445-478 | behind lines in which its name does not occur, a written field is read back if and only if it fits |
| Fields.FirstInJoined | utils.c:446-446 | the search finds the first line with the name, not a match across lines |
| CNumber.DecimalRoundTrip | instance.c:1067-1067 | strtol with base 0 reads back every number that printf writes |
| CNumber.QuotedRoundTrip | instance.c:849-849 | it does so in front of a closing quote too |
| CacheName.NamesDoNotCollide | cachedir.c:43-45 | names that fit the buffer are equal if and only if prefix, inode, device and time are |
| CacheName.PropfindNamesDoNotCollide | webdav.c:330-331 | a PROPFIND answer has a name of its own for each property set, never a listing's |
| InPlace.DelChar | mystring.c:109-119 | the first n characters are gone from the buffer and all other cells accounted for; too short a string is left alone |
| InPlace.EscapeAt | mystring.c:75-84 | one round decodes one escape in the buffer and leaves the same text to decode |
| InPlace.ReplaceEscape | mystring.c:67-85 | the buffer holds the recursive decoding of the string; nothing before it or behind its old end changes |
| StringReplace.ReplacedAt | mystring.c:96-99 | the replacement of a string is what stands before its first occurrence, and the replacement of the mark and the rest |
| StringReplace.StrReplaceEnds | mystring.c:96-100 | the loop ends if and only if the substring is not empty and, where it is the character itself, does not occur |
| StringReplace.MarkMayCompleteAnother | mystring.c:96-100 | a concrete string in which an occurrence is left when the character stands further back in the substring |
| StringReplace.StrReplace | mystring.c:92-101 | under that condition the buffer holds the recursive replacement, after exactly as many rounds as the search takes |
| StringReplace.ReplacedLeavesNone | mystring.c:92-101 | with the character at most at the beginning of a longer substring no occurrence is left, and the result is no longer than the input |
| UrlCleanup.PageIsSafe | instance.c:97-108 | a cleaned page is no longer than the request's and nowhere contains `../`; no segment but the last ends in two dots, and the last is `..` if and only if what is kept of the decoded path is, or ends in `/..` |
| UrlCleanup.PageIsKept | instance.c:101-106 | the page is the decoded path up to its first `../` |
| UrlCleanup.ParentFree | instance.c:104-106 | a path is free of `../` if and only if no segment but the last ends in two dots |
| UrlCleanup.ParentSegment | instance.c:104-106 | without `../` a path has the segment `..` if and only if it is `..` or ends in `/..` |
| UrlCleanup.LastSegmentMayBeParent | instance.c:104-106 | `/..` is its own cleaned page |
| UrlCleanup.CutMayLeaveParent | instance.c:104-106 | `/..../x` is cleaned to `/..` |
| UrlCleanup.PlainPathKept | instance.c:128-130 | a path without escapes, parameters and parent directories is its own page |
| UrlCleanup.ModURL | instance.c:101-108 | the same for the bytes in the buffer, read as a C string; all cells outside the string stay, its old NUL included; a NULL pointer does nothing |
| UrlCleanup.CleanAt | instance.c:101-108 | decoding and cutting at `../` one after the other in the buffer leave the cleaned page, and no cell outside the string changes |
| UrlCleanup.SplitGetParams | mystring.c:44-55 | the page ends at the first `?` and the parameters begin behind it |
| UrlCleanup.SplitAndClean | instance.c:128-130 | page and parameters are each cleaned in place without touching the other or the rest of the buffer |
| Encoders.UnescapeIsPctDecode | mystring.c:67-85 | on well-formed escapes the in-place loop decodes as section 2.1 of RFC 3986 says |
| Encoders.UnitFits | utils.c:90-92 | with three bytes free a unit fits the size, and its NUL too unless it is tight |
| Encoders.DecodeAppend | mystring.c:67-85 | decoding distributes over concatenation of well-formed texts |
| Encoders.UriRoundTrip | utils.c:47-94 | replaceEscape undoes uri_encode on every name, names with `%` included |
| Encoders.EscapeRoundTrip | webdav.c:73-92 | replaceEscape undoes escape_uri on every 7-bit string |
| Encoders.HtmlRoundTrip | utils.c:99-143 | reading the five entities back gives the name |
| Encoders.UriIsUnreserved | utils.c:47-94 | an encoded name holds no reserved character of section 2.2 of RFC 3986, and no space, double quote, angle bracket or backslash |
| Encoders.EscapedIsPlain | webdav.c:73-92 | an escaped text holds only letters, digits, `-`, `.`, `/` and `%` |
| Encoders.HtmlIsText | utils.c:99-143 | encoded HTML holds no `<`, `>`, `"` or space |
| Encoders.ThreeBytesEach | utils.c:90-92 | with three bytes a character and a NUL no escape is ever tight |
| Encoders.SpaceIsTight | utils.c:90-92 | a single space is tight for three bytes |
| Encoders.ListedNamesFit | utils.c:172-216 | no file name is tight for the buffer of list_dir |
| Encoders.TightExactly | utils.c:90-92 | where the loop stops, the size has been kept if and only if the name is never tight |
| Encoders.UriEncode | utils.c:47-94 | writes whole units that decode to a prefix of the name, to all of it given 3n+1 bytes; stays inside the size if and only if the name is never tight for it, and otherwise puts its NUL into the one cell behind |
| Encoders.EscapeUri | webdav.c:73-92 | writes whole units that decode to a prefix and no cell from the size on, stops only with fewer than four bytes free, and writes nothing at all for an empty source or a smaller size |
| Encoders.HtmlEncode | utils.c:99-143 | writes whole units inside the size, as many as fit, decodes to a prefix |
| Base64.Split | base64.c:47-73 | every three bytes are four 6-bit codes that the decoder joins again |
| Base64.QuantumRoundTrip | base64.c:47-73 | a padded group decodes to its bytes, with NULs for the padding |
| Base64.DecodeEncode | base64.c:79-89 | decoding the encoding of section 4 of RFC 4648 gives the bytes, and NULs for the padding |
| Base64.Decode4_64 | base64.c:47-73 | three cells of the result become the decoded group and the cells before them stay |
| Base64.Char0 | base64.c:49-56 | the first cell joins six bits and the upper two of the next code, although a char keeps eight |
| Base64.Char1 | base64.c:58-64 | the second cell joins four bits and four |
| Base64.Char2 | base64.c:66-70 | the third cell joins two bits and six |
| Base64.Decode64 | base64.c:79-89 | the buffer holds the decoded text and a NUL; an empty text writes nothing |
| Auth.DecodeCredentials | auth.c:84-96 | the credentials as a C string, through the two local buffers |
| Auth.AuthCheckRequest | auth.c:73-135 | without the field the message has empty credentials; with it the request is refused if and only if its line does not end or the decoded text has no `:`, is too long if and only if it reaches 599 bytes, and otherwise sends the two parts of the decoded text |
| Auth.CheckMeans | auth.c:79-96 | the case without the field, the case of a line that does not end, and that there is no other without credentials |
| Auth.CheckCarried | auth.c:84-135 | the answer to whatever text the field carries, by its length and the first `:` of what it decodes to |
| Auth.FirstLine | qweborf/qweborf/whelper.py:150-162 | splitting at CRLF gives the first field and the rest |
| Auth.MessageFields | auth.c:127-135 | splitting the message at CRLF gives its five leading fields |
| Auth.CredentialsDecode | auth.c:84-104 | decoding and splitting at the first `:` gives back user and password |
| Auth.CredentialsFound | auth.c:79-95 | the base64 text is cut out of the header exactly |
| Auth.FieldsSurviveExactly | auth.c:135-135 | the five leading fields are read back if and only if none of them holds a CRLF |
| Auth.DecodedPageMayBreak | instance.c:129-129 | a page that modURL decodes to text with a CRLF, for which they are not |
| Auth.CredentialsSurvive | auth.c:79-135 | credentials sent as section 2 of RFC 7617 says are what the message is written from, and arrive as fields four and five exactly under that condition |
| Auth.WrittenCredentials | auth.c:79-104 | an Authorization field written behind lines without one is found, and its user and password are sent |
| Auth.MessageFits | auth.c:127-135 | for every request parsed from a header of at most 1022 bytes, its page cleaned, the message fits its buffer |
| Auth.ReceivedMessageFits | auth.c:127-135 | so it does for every request that the header scan of any connection finds |
| BufferedReader.TakeConserves | buffered_reader.c:95-122 | what a read delivers and what it leaves make up the stream |
| BufferedReader.TakeShort | buffered_reader.c:113-117 | a read is short only at a gap, and has then delivered everything before it |
| BufferedReader.ReadsConserve | buffered_reader.c:95-122 | over any sequence of reads no byte is lost, repeated or reordered |
| BufferedReader.ReceiveKeepsStream | buffered_reader.c:57-83 | a refill of the empty buffer keeps the stream, or passes one gap |
| BufferedReader.Reader.Fill | buffered_reader.c:57-83 | the same for the real buffer and its two pointers |
| BufferedReader.Reader.Reset | buffered_reader.c:46-48 | what was buffered is forgotten; the stream is what the socket still holds |
| BufferedReader.Reader.Read | buffered_reader.c:95-122 | delivers exactly a read of the plain stream into the caller's cells, touches no others, and terminates under every schedule |
| RequestLoop.FindFromSafe | instance.c:149-158 | a search from the remembered start finds the first END of the whole buffer, or that there is none |
| RequestLoop.SafeStartKept | instance.c:156-158 | after each read the updated start is safe again |
| RequestLoop.ShortcutIsSound | instance.c:149-165 | for NUL-free input the scan from `from` reads and finds what a scan of the whole buffer does |
| RequestLoop.ReadHeader | instance.c:149-170 | a header never uses more than the buffer, and consumes as much of the stream as it holds |
| RequestLoop.OneRequest | instance.c:142-226 | a round that goes on to another has consumed part of the stream |
| RequestText.KindIsByName | instance.c:175-184 | a header is of a method if and only if it begins with the name of that very method, for all nine |
| RequestText.WrittenIsParsed | instance.c:174-199 | a method name, a space, a path, a space and more are parsed as that method, path and rest |
| RequestText.UnknownIsBad | instance.c:175-187 | a header that begins with no method's name is a bad request |
| RequestText.LengthIsFound | instance.c:1054-1073 | a Content-Length field between other fields announces the number it was printed from, to read_file any, to read_post_data one of at most POST_MAX_SIZE |
| RequestText.NoLength | instance.c:1060-1063 | where the name does not occur no length is announced |
| RequestText.HostIsFound | instance.c:1085-1093 | a Host field on any line but the first names its host, whatever other fields contain the name |
| BodyRounds.RoundsReadBody | instance.c:419-429 | on an uninterrupted stream the rounds of read_file read exactly the announced bytes |
| Pipelining.ScanBlock | instance.c:149-165 | the two-byte scan of a block stops at its end or one byte before, by the parity of its length |
| Pipelining.LastByte | instance.c:167-170 | the second search says exactly whether the last byte is still to be read |
| Pipelining.ReadBlock | instance.c:143-172 | a block of at most 1023 bytes is consumed exactly; a longer one fills the buffer |
| Pipelining.OneMessage | instance.c:142-226 | one request is handed over with its own body, whichever way its method reads it; the next begins where it ends, and is looked for if and only if keep_alive says so |
| Pipelining.BodyIsRead | instance.c:494-545 | the body that a method reads, by read_post_data or by read_file, is the announced one |
| Pipelining.LastMessage | instance.c:142-226 | a request that does not keep the connection is handed over and is the last, whatever follows |
| Pipelining.UnknownIsRejected | instance.c:175-187 | a block that begins with no method's name ends in a 400 and hands nothing over |
| Pipelining.ChunksAreOneRun | buffered_reader.c:57-83 | non-empty chunks without stalls are one uninterrupted run of bytes |
| Pipelining.ServeMessages | instance.c:142-226 | a concatenation of requests is handed over as exactly that list |
| Pipelining.PipelinedRequestsAreRecovered | instance.c:142-226 | the same whatever the non-empty chunks, as section 6.3.2 of RFC 7230 asks |
| Pipelining.LongBlockIsRejected | instance.c:162-163 | a header block of more than 1023 bytes ends in a 400 and hands nothing over |
| HttpText.LinesMakeABlock | instance.c:149-172 | lines followed by an empty line are a header block with its only END at the end |
| HttpText.HeaderParts | instance.c:172-192 | the header text is verb, path and the rest, with one space between each |
| HttpText.RequestLineParsed | instance.c:174-192 | for each of the nine methods the request line is split as it was written |
| HttpText.PlainPathIsThePage | instance.c:128-130 | for a plain path the page that the handlers get is the path |
| HttpText.StaysAlive | instance.c:113-126 | an HTTP/1.1 request without a Connection field keeps the connection |
| HttpText.ConnectionDecides | instance.c:113-126 | `close` ends an HTTP/1.1 connection and nothing else does, a value that begins with `Keep` keeps an older one and nothing else does; values too long for the buffer count as none |
| HttpText.OlderEnds | instance.c:113-126 | without the field a connection older than HTTP/1.1 ends |
| HttpText.AnnouncesItsBody | instance.c:1054-1073 | a request without a body announces none, and any other exactly its own |
| HttpText.TextIsWellFormed | instance.c:142-226 | every request written out as text meets the assumptions of the pipelining theorem |
| HttpText.PipelinedTextIsRecovered | instance.c:142-226 | any list of written-out requests of all nine methods, with the bodies of POST, PUT and PROPFIND, cut into any non-empty chunks, is recovered |
| Connection.Worker.Wipe | instance.c:143-146 | zeroing only the used part leaves the whole buffer zero |
| Connection.Worker.ScanRound | instance.c:149-165 | one search and read in the buffer is one step of the scan |
| Connection.Worker.Scan | instance.c:149-165 | the loop over the buffer computes the scan of the stream |
| Connection.Worker.ReadHeader | instance.c:149-170 | buffer, position and stream are those of the header scan, from a zero buffer |
| RequestBuffer.StrTok | instance.c:188-189 | strtok_r in the buffer: the token ends with a NUL, and token and rest read as they should |
| RequestBuffer.GetBasedir | instance.c:1081-1099 | finds the host's name with a NUL in the buffer and leaves the buffer as it was |
| RequestBuffer.SetConnectionProps | instance.c:113-132 | the path is split and cleaned in the buffer, while http_param reads as before |
| RequestBuffer.ParseInPlace | instance.c:174-199 | afterwards method, page, parameters and http_param read from the buffer are those of the request, the method is the one whose name the header begins with, there is none if no name is a prefix, and nothing from the end of the header on has changed |
| Connection.Worker.CutHeader | instance.c:172-172 | the header text keeps one final CRLF and ends there |
| Connection.Worker.TakeApart | instance.c:172-199 | all that rewriting in the request buffer leaves the unused part of it zero |
| Connection.Worker.SendPage | instance.c:201-224 | the body length is read from http_param in the rewritten buffer, and the handlers get what its strings read as |
| Connection.Worker.ReadBody | instance.c:1054-1073 | the body is a plain read of the stream |
| Connection.Worker.ReadPieces | instance.c:419-429 | the reads of read_file on the connection are the rounds of the stream |
| Connection.Worker.BodyFor | instance.c:494-545 | the body read for a method is the one that the stream function gives |
| Connection.Worker.Answer | instance.c:172-224 | hands over, ends or rejects as the stream function says, through the rewritten buffer |
| Connection.Worker.OneRequest | instance.c:142-226 | one round through the buffers is one round on the stream |
| Connection.Worker.HandleRequests | instance.c:134-234 | the loop over the buffers serves the stream, and leaves the unused part of the buffer zero |
| Connection.ServeConnection | instance.c:325-339 | one connection is served from an empty reader and leaves an empty reader |
| Connection.ServeConnections | instance.c:294-342 | over any connections on one thread each is served as if it were the first |
| EndToEnd.ServePipelined | instance.c:294-342 | after any earlier connections, a pipelined list of requests is handed over exactly: header, method, cleaned page and parameters, http_param and body of each |
| PutFile.BodyEndsExactly | instance.c:419-429 | the loop ends if and only if the connection holds the announced body |
| PutFile.ShortBodyNeverEnds | instance.c:419-429 | with too few bytes on the connection no number of rounds ends the loop |
| PutFile.RoundProgress | instance.c:419-429 | while bytes are left a round reads some or passes a gap |
| PutFile.PutRound | instance.c:419-429 | a round extends the stored prefix of the body by what it consumed |
| PutFile.StoreBody | instance.c:415-429 | succeeds if and only if the file has room for the body, which it then is exactly; exactly those bytes are consumed, in as many rounds as counted |
| PutFile.ReadFile | instance.c:369-435 | the return value is that of the first call that fails, or says whether the file was new: ERR_FORBIDDEN without an authentication program, ERR_NODATA without the field; on success the file is the body whatever it held before; on the exits before the loop nothing is read |
| PutFile.PutWritten | instance.c:369-435 | with a written Content-Length of n the file is exactly the next n bytes, the rest is unread, and the code is OK_NOCONTENT or OK_CREATED by whether the file existed |
| Ranges.IfRangeDecides | instance.c:842-856 | a range counts if there is no If-Range, or if its tag is the file's |
| Ranges.Accepted | instance.c:884-888 | accepted if and only if it begins inside the file and ends inside it or at the last 64-bit value; sends to-from+1 bytes |
| Ranges.SendsNothingExactly | instance.c:884-888 | an accepted range sends nothing if and only if its end lies before its beginning or is the last 64-bit value |
| Ranges.RangesThatShouldNotPass | instance.c:860-888 | two concrete headers that name no part of the file and are accepted |
| Ranges.RangeText | instance.c:860-876 | a header is split at its first `-`, and an empty end means the last byte |
| Ranges.ClosedRangePart | instance.c:856-892 | `from-to` inside the file gets exactly these bytes |
| Ranges.OpenRangePart | instance.c:873-875 | `from-` gets everything from there on |
| Ranges.PieceIsSlice | instance.c:856-892 | the answer to the i-th of consecutive ranges is the i-th slice of the file |
| Ranges.RangesReassemble | instance.c:853-892 | however a file is cut into consecutive ranges, the last open, the bodies make up the file |
| Ranges.AnswerFits | instance.c:884-914 | an answer lies inside the file, or its count is not positive as an off_t |
| Ranges.AskedIsAnswered | instance.c:842-898 | the same as an answer, for every header with a Range field, any other lines and perhaps an If-Range field behind it |
| Ranges.RangeIsFound | instance.c:845-845 | the Range field of such a header is found |
| Ranges.IfRangeIsFound | instance.c:848-853 | so is its If-Range field, or none |
| Ranges.NoRangeSendsAll | instance.c:894-899 | without the name of the field the answer is the whole file |
| Ranges.IfRangeFirst | instance.c:842-866 | an If-Range field in front of every other `Range` is read as the range: refused if and only if it is current, the whole file otherwise |
| Ranges.CopyRound | myio.c:80-93 | one round extends what was sent by what was read, or stops with a prefix of it sent |
| Ranges.FdCopy | myio.c:69-97 | sends a prefix of what was asked for, and succeeds with all of it when nothing fails |
| Ranges.WriteFile | instance.c:949-964 | without `Range` in the header the whole file is sent; a written closed or open range gets exactly its slice where its If-Range, if any, is current, an error if it reaches past the file, and the whole file where it is stale; a prefix of that when a read or write fails, nothing on an error |
| FileTree.CopyIsExact | myio.c:203-210 | a finished copy is the source if and only if nothing else of a longer old file shows behind what was read; with all of it read, if and only if the old file was not longer |
| FileTree.FileCopy | myio.c:179-217 | only the destination changes; on success it begins with exactly what the reads delivered, and is a copy exactly under that condition; a healthy disk lets it succeed if and only if a file can be written there, and ERR_FORBIDDEN is the code where it cannot |
| FileTree.CopyOverLonger | myio.c:187-210 | "xy" over "abcd" leaves "xycd", and on a healthy disk that is a success |
| FileTree.MoveAfterReadError | myio.c:166-170 | a read error after two of four bytes: on an otherwise healthy disk the move succeeds, the source is gone and no file holds the four |
| FileTree.CopyPiece | myio.c:203-210 | one round extends the copied prefix or ends the loop |
| FileTree.WriteOn | myio.c:203-210 | writing the next piece extends the overwritten beginning |
| FileTree.FileMove | myio.c:162-172 | no other path changes, a failure keeps the source; a rename leaves the source at the destination, and a move to another device what file_copy leaves, with the same exact condition; a healthy disk lets it succeed and removes the source |
| FileTree.FileTransferred | myio.c:162-217 | a file's copy or move is a transfer in the sense of the directory functions |
| FileTree.Begun | myio.c:258-274 | after mkdir and opendir every entry is still to be dealt with |
| FileTree.EntryReady | myio.c:277-288 | an entry not dealt with is still whole, with nothing at its destination, and smaller than its directory |
| FileTree.EntryDone | myio.c:283-298 | after an entry all others are as they were |
| FileTree.EntryFailed | myio.c:297-298 | stopped at any entry, no file's data is lost in the whole tree |
| FileTree.AllDone | myio.c:277-299 | when every entry is done the destination is what the source was |
| FileTree.SourceRemoved | myio.c:305-308 | removing the emptied source keeps that, and nothing of the source is left |
| FileTree.Entries | myio.c:277-299 | the loop over the entries, in any order, up to the first failure |
| FileTree.DirMoveCopy | myio.c:254-310 | whatever fails, no file's data is lost and nothing else changes; success makes the destination the old source, a copy keeps the source, a move leaves none of it; with read errors this holds for the beginnings that could be read; on a healthy disk the code is ERR_FORBIDDEN without a new name in a directory, else ERR_FILENOTFOUND without a source directory, else 0; never a code that reads as a success |
| FileTree.DirCopy | myio.c:225-227 | the same for a copy |
| FileTree.DirMove | myio.c:236-247 | the same for a move, by rename, which may also replace an empty directory, or across devices; the code 1 means that nothing has changed |
| FileTree.DirRemove | myio.c:118-153 | nothing outside the directory changes, nothing is added, and after a success nothing of it is left; on a healthy disk it succeeds if and only if there is something to remove, and the code 1 means that nothing has changed |
| CopyMove.Carry | webdav.c:514-528 | the copy or move by kind of source and method; a failure that returns 1 is a directory that has not been moved |
| CopyMove.CopyMove | webdav.c:484-536 | a request turned away changes nothing; OK_NOCONTENT and OK_CREATED tell whether the destination existed and mean that it was carried out, except for a directory whose rename failed; on a healthy disk the exact code, that exception included |
| CopyMove.OverwriteIsInverted | webdav.c:490-512 | the Overwrite field as written is read, and an existing destination turns the request away if and only if section 10.6 of RFC 4918 lets it be replaced |
| CopyMove.ReplacedAllTheSame | webdav.c:490-512 | a concrete file that is replaced on a healthy disk although the field is F |

## Left out

- PutFile.ReadFile: asks, where its loop is entered, that the connection holds the announced body, because without it the loop of the source does not end; `PutFile.BodyEndsExactly` states that this is exactly the condition.
- PutFile.StoreBody: asks the same.
- FileTree.DirMoveCopy: asks that the destination is neither the source nor inside it. A copy into itself nests copies of the new directory in each other until a call fails, at the latest when PATH_LEN cuts the text of both names to the same and mkdir finds it there; paths in the model are lists of names, which no length cuts.
- FileTree.DirMove: asks the same.
- FileTree.DirCopy: asks the same.
- CopyMove.CopyMove: asks the same for a directory, and that the source exists, since the result of stat is not looked at and the kind is then read from memory never written. Its two paths are given as lists of names: cutting the host off the Destination field, and the check that it is there, are not modelled.
- Auth.DecodeCredentials: asks for base64 text of whole groups.
- Auth.AuthCheckRequest: asks for base64 text of whole groups (for other text, and for none, decode64 and its caller read memory that was never written); leaves out the server without an authentication program, where everything is allowed, and the answer of the program.
- Base64.Decode64: asks for whole groups too.
- Encoders.UriEncode: asks the caller to own one byte more than `size` for a name that is tight for it.
- Encoders.EscapeUri: asks for a 7-bit source, since `%02x` of a negative char prints eight digits over the cells behind.
- StringReplace.ReplacedLeavesNone: does not say when an occurrence is left where the character stands further back in the substring; there it depends on what surrounds each occurrence in the text.
- StringReplace.StrReplace: asks for exactly the condition under which the loop of the source ends.
- InPlace.DelChar: models position 0 only, which both callers use.
- Connection.Worker.ReadBody: a negative Content-Length is modelled as an allocation that fails, so that nothing is read.
- Connection.Worker.SendPage: does not follow the handlers; none of them writes into the request buffer of its process (a CGI script's environment is made in a child of its own).
- HttpText.StaysAlive: speaks of requests without a Connection field, although others can keep the connection too; `HttpText.ConnectionDecides` says which, and `Pipelining.WellFormed` covers them.
- SynQueue.RingQueue.constructor: the failing allocation is not modelled.
- CString.ParamValue: gives no value where the field name ends at the very end of the header, where the source goes on behind the terminator.
- `n_wait_dt` is an unbounded integer; the source's `int` would overflow only after two thousand million waits without a signal.
- A header too short to hold a protocol version reads as NUL there, and an If-Range field without a value reads as none; the source reads what the memory holds.
- Symbolic links, permissions and other processes in the tree model.
- Whether a client's socket is closed by a handler itself, as one path of `propfind` does.
- Sockets, TLS, poll, CGI, tar, gzip, syslog and MIME detection: foreign calls.
- Contents and locking of cache files; only their names are modelled.
- HTML and XML pages, response headers and status phrases: formatting.
- `get_props`, entity tags in If-None-Match, option parsing, daemon scripts and the qweborf programs.
- `page_len`, which is computed before escapes are decoded, and the CGI matching that uses it.
