# File transfer over a segmented byte stream

The repository sends a file over TCP in three ways: a libevent request/response protocol in C, a
streaming Boost.Asio client and server in C++, and a chunking client and server in Go. A TCP
connection delivers bytes in order but cuts them where it likes. This project models the three
programs, and the configuration scanner of the C logger, and proves what the receiver ends up
with, for every file and every way the network may cut the stream.

`dafny verify dfyconfig.toml` checks everything.

| file | models |
|---|---|
| Bytes.dfy | bytes, segmentations and blocks, little-endian numbers |
| CLib.dfy | C strings, `basename`, `%lu`, `atoi` |
| Digest.dfy, Stdio.dfy, Net.dfy | contracts of MD5 contexts, stdio files, evbuffers, socket reads |
| CFileInfo.dfy, CInterface.dfy | the 280-byte header; `readfile` and `writefile` |
| CProtocol.dfy | both C parties, their two queues, one step per callback |
| CServer.dfy, CClient.dfy | the callbacks as methods on the programs' state, each equal to its step |
| CRuns.dfy | what every run of the C protocol stores, logs and leaves, however its header is cut |
| CProtocolProofs.dfy, CSplitHeader.dfy, CTransfers.dfy | its phases and where it stops; when a split header does no harm; many connections |
| CppFileInfo.dfy, CppClient.dfy, CppServer.dfy, CppTransfer.dfy | the C++ header, sender and receiver, and both together |
| GoComm.dfy, GoServ.dfy, GoCodec.dfy | Go chunking, reassembly and the digest gate; an encoding that fits |
| SimplogConfig.dfy | the parsing loop of `loadConfig` |

In the classes, a method that mirrors a callback is proved equal to a step function on values; the
theorems about whole runs are about those step functions.

## What the proofs found

- At rest, the C server holds the client's file under the client's name exactly when the file is
  not empty, the disk takes it, and either the 280 header bytes arrived in one piece, or the part
  that did announces the right size, some delivery meets the length test, and the file repeats the
  header bytes that came late (`CSplitHeader.StoredExactly`). It has also read all it was sent
  exactly when the header arrived in one piece (`CSplitHeader.ConsumedExactly`). An empty file
  leaves both sides waiting in DATA.
- After a split header FIN does not mean that the file was stored. If only digest bytes are late
  and the next delivery is as long as the file, the server writes those bytes and the head of the
  file under the client's name and answers FIN, and the client frees its buffer
  (`CSplitHeader.LateBytesCorruptTheFile`). With one late byte the file survives this only if each
  of its bytes is the last byte of its digest (`CSplitHeader.OneLateByte`), as in the file "a",
  whose MD5 ends in the code of "a". If the late bytes and the whole
  content come in one delivery instead, both sides wait in DATA for ever
  (`CSplitHeader.LateBytesStrandTheServer`). For every schedule `CRuns.Outcome` says what is
  stored and logged.
- The request for retransmission that the repository's README.md (line 6) and `c/file_serv.c:162`
  describe cannot succeed: the client's evbuffer was drained by the first transmission
  (`CProtocolProofs.ClientCallback`, `CProtocolProofs.StuckStates`).
- `writefile` is described as returning 1 on failure, but a wrong digest returns 0: the result is
  the documented one exactly when the disk is full or the digest right
  (`CInterface.WrongDigestIsReportedAsSuccess`). A whole header never leads there; a header one
  byte short does, and the server logs the mismatch and answers FIN
  (`CSplitHeader.MismatchIsAnsweredWithFin`).
- `decode_fileinfo` recomputes the printed length: an array whose length is padded with zeros is
  accepted, and the name is taken from too far in front (`CppFileInfo.PaddedLengthShiftsTheName`).
- The Go server loses the content bytes that its header read swallows. Unless MD5 collides, it then
  stores the file only if the file is all zeros (`GoServ.StoredExactly`); any other file that comes
  in one segment with a header shorter than 100 bytes is lost (`GoServ.CoalescedFileIsLost`).

## Model

| member | source | states |
|---|---|---|
| Bytes.BlocksCutTheStream | go/util/comm.go:66-77 | cutting a stream into blocks loses nothing, and every block but the last is full |
| Bytes.BlocksCount | go/util/comm.go:69-75 | the number of blocks is the ceiling of length over block size |
| Bytes.BlocksUnique | go/util/comm.go:66-77 | there is no other way to cut a stream into blocks of that size |
| CLib.BasenameIsLastComponent | c/interface.c:58 | basename of a path with any trailing slashes is what follows its last slash |
| CLib.BasenameOfSlashes | c/interface.c:58 | basename of the empty path is a dot, of slashes a slash |
| CLib.EndsAfterLastSlash | c/interface.c:58 | what basename cuts off is slash-free and begins behind the path's last slash |
| CLib.AtoiOfSigned | c/simplog.c:532 | atoi skips blanks, takes an optional sign and reads any digits up to the first other character, leading zeros included; undefined exactly beyond the ints |
| CLib.AtoiRunsOff | c/simplog.c:532 | without a terminator behind the digits atoi is undefined |
| CLib.ParseOfDigits | c/simplog.c:532 | a run of digits adds its positional value |
| CLib.DecimalIsPositional | cpp/fileinfo.cc:8-12 | each character printed is the decimal digit of its power of ten |
| CLib.DecimalIsWorth | cpp/fileinfo.cc:8-12 | the digits printed are worth the number and have no leading zero |
| CLib.DecimalLength | cpp/fileinfo.cc:8-12 | a number prints in at most k digits exactly when it is below 10 to the k |
| CLib.AtoiOfDecimal | cpp/fileinfo.cc:35 | atoi undoes decimal printing for every int, whatever follows a non-digit, and is undefined beyond |
| StreamingDigest.Md5.UpdateInPieces | c/interface.c:37-41 | updating a digest piece by piece equals updating it with the whole |
| StreamingDigest.Md5.UpdateAbsorbs | c/interface.c:37-41 | an update absorbs every byte, each once and in order |
| CFileInfo.Encode | c/fileinfo.c:8-13 | encode writes the 280 bytes of the struct, name, then size from its least significant byte on, then digest, and nothing beyond |
| CFileInfo.Decode | c/fileinfo.c:3-6 | decode overlays n bytes on the struct, whose fields are then those of the bytes at their offsets, and overruns it exactly when n exceeds 280 |
| CFileInfo.OverlayInvertsImage | c/fileinfo.h:14-18 | name, 64-bit little-endian size and digest survive the image for every header value |
| CFileInfo.ImageBytes | c/fileinfo.h:14-18 | the image byte by byte: name at 0, size at 256 in little-endian order, digest at 264 |
| CFileInfo.ImageInvertsOverlay | c/fileinfo.h:14-18 | every 280 bytes are the image of exactly the header they decode to |
| CFileInfo.DecodeWhole | c/file_serv.c:111-117 | a whole image decoded over anything gives the sender's header |
| CFileInfo.DecodePrefixSize | c/file_serv.c:111-117 | a header cut short and decoded over zeros never announces more than the whole one |
| CInterface.ReadFile | c/interface.c:21-47 | readfile appends exactly the file to the buffer and sets its size and digest |
| CInterface.Drain | c/interface.c:74-77 | writefile's loop empties the buffer in order into file and digest; the file takes what fits the disk |
| CInterface.WriteFile | c/interface.c:50-99 | file, result and log of writefile, including the short write and the digest mismatch |
| CInterface.WrongDigestIsReportedAsSuccess | c/interface.c:49-98 | for every digest announced: the result is 0 exactly when the disk takes everything, and the documented one exactly when the disk is full or the digest right |
| CRuns.ParsedCut | c/file_serv.c:111-117 | a header cut anywhere announces at most the file's length, and names the target once it announces anything |
| CRuns.NameField | c/file_client.c:112-131 | every byte of the name field sent: output name over input name over what was there, each with its NUL |
| CRuns.FirstTwoSteps | c/file_client.c:102-148 | every run begins with the client's header and a first delivery of 1 to 280 bytes |
| CRuns.StepKeeps | c/file_serv.c:104-170 | after any first delivery every callback of either party loses no byte, keeps disk and log those of the chunks drained, and brings the run nearer its end |
| CRuns.RestsExactly | c/file_client.c:69-89 | a run rests exactly when nothing is in flight: answered FIN and the client's buffer freed, or both sides waiting in DATA |
| CRuns.Outcome | c/file_serv.c:104-170 | disk, log, number of writes and FIN after any run, whole header or split, from the first delivery and the deliveries that meet the length test |
| CProtocolProofs.ServerCallback | c/file_serv.c:104-170 | in any state: when the server's callback writes, what it writes and under which name, when it overruns its header, what it reads, decodes and answers, and that it changes nothing else |
| CProtocolProofs.ClientCallback | c/file_client.c:69-173 | in any state: when the client's callback touches a buffer that is not there, and that a second request for data sends nothing |
| CProtocolProofs.StreamingAdvances | c/file_serv.c:136-170 | the length test fires on the delivery that completes the source, and on no other |
| CProtocolProofs.StepAdvances | c/file_serv.c:104-170 | each callback of either party, whatever the network delivers, moves the connection to its next phase or shortens what is left |
| CProtocolProofs.EveryRunKeepsThePhases | c/file_client.c:69-173 | in every reachable state both statuses, both queues and both buffers fit exactly one phase; no memory fault; at most length + 4 callbacks with a whole header, two per byte with a split one |
| CProtocolProofs.FinMeansStored | c/file_serv.c:131-170 | at FIN writefile ran once and the target holds as many bytes behind the first delivery as the header it decoded announced; if that was the whole header, the client's source with nothing logged or left; before that input, wire and client buffer together are the source |
| CProtocolProofs.StuckStates | c/file_serv.c:159-169 | a run rests exactly when complete with the buffer freed, waiting for an empty file, waiting after the disk refused part of it, or, its header split, with nothing in flight |
| CProtocolProofs.CompletionExactly | c/file_serv.c:145-170 | a resting run with a whole header is complete exactly when the file is not empty and fits the disk |
| CProtocolProofs.EverySegmentationIsARun | c/file_serv.c:131-170 | whatever non-empty pieces the content arrives in, the transfer runs to its end: complete, or starved if the disk is too small |
| CSplitHeader.MeetsTheLengthTest | c/file_serv.c:145 | with room for the announced size, a schedule meets the length test exactly if some delivery brings the total to that size |
| CSplitHeader.HoldsExactly | c/file_serv.c:108-170 | after any run the client's file is in place exactly if the announced size fits, the length test was met and that many bytes behind the first delivery are the file |
| CSplitHeader.StoredExactly | c/file_serv.c:108-170 | at rest the file is in place exactly if it is not empty, fits the disk, and the header came whole or was split harmlessly |
| CSplitHeader.ConsumedExactly | c/file_serv.c:108-131 | at rest the file is in place and everything read exactly when the header arrived whole, the file is not empty and the disk takes it |
| CSplitHeader.LateBytesStrandTheServer | c/file_serv.c:114-145 | on the schedule that delivers late digest bytes together with the content the server waits in DATA for ever and stores nothing |
| CSplitHeader.LateBytesCorruptTheFile | c/file_serv.c:114-167 | on the schedule that next delivers as many bytes as the file has the server writes late digest bytes and the head of the file, answers FIN, and the client frees its buffer |
| CSplitHeader.OneLateByte | c/file_serv.c:114-145 | with one byte late that file is the source exactly if every byte of it is the last byte of its digest |
| CSplitHeader.MismatchIsAnsweredWithFin | c/interface.c:88-98 | with one byte late, unless the stored digest ends in zero, writefile logs a mismatch, returns 0 where 1 is documented, and the server answers FIN |
| CTransfers.OneTransfer | c/file_serv.c:84-170 | what one connection, rested or broken off, does to disk and log, without a memory error |
| CTransfers.WholeTransfer | c/file_serv.c:104-170 | a rested connection with a whole header leaves the file, the part the disk took and a complaint, or for an empty file nothing |
| CTransfers.DiskIsTheFold | c/file_serv.c:84-170 | disk and log after any sequence of connections are the folds of what each leaves, whatever state earlier ones left |
| CTransfers.LastWriterWins | c/interface.c:57-79 | each name ends with what the last connection that wrote to it left, other names keep theirs |
| CServer.FileServer.ListenCb | c/file_serv.c:71-86 | a new connection resets the status and asks for the header |
| CServer.FileServer.ReadCb | c/file_serv.c:104-170 | the server's callback on status, header, evbuffer, disk and log is the protocol's server step |
| CServer.FileServer.ReadHeader | c/file_serv.c:108-130 | its HEAD branch clears, reads and decodes the header, then asks for the data |
| CClient.FileClient.ReadCb | c/file_client.c:69-89 | the client's callback on one status word is the protocol's client step; FIN frees the buffer once and disables the events |
| CClient.FileClient.WriteCb | c/file_client.c:102-173 | header on HEAD, the whole buffer on DATA, nothing otherwise |
| CClient.FileClient.SendHeader | c/file_client.c:105-148 | the header sent carries the output name, the size and the digest of the file read |
| CppFileInfo.HeaderFitsExactly | cpp/fileinfo.cc:14-30 | the header fits the 128-character array exactly for names of at most 123 characters |
| CppFileInfo.NumToStr | cpp/fileinfo.cc:8-12 | numToStr prints each decimal digit of a size_t, at most 20, and returns their number |
| CppFileInfo.EncodeFileinfo | cpp/fileinfo.cc:14-30 | the array gets the length in digits, two NULs and the name, and keeps its tail; writes leave it exactly for names over 123 characters |
| CppFileInfo.DecodeFileinfo | cpp/fileinfo.cc:32-39 | decode returns the announced range, recomputing the printed length, or leaves the array |
| CppFileInfo.DecodedRange | cpp/fileinfo.cc:32-39 | for any array: which characters become the name, and that none do unless its number is 0 to 123 |
| CppFileInfo.PaddedLengthShiftsTheName | cpp/fileinfo.cc:35-38 | a length padded with zeros is read, but the name is taken from where it would begin without the padding |
| CppFileInfo.HeaderAnnouncesLength | cpp/fileinfo.cc:32-39 | the leading digits of a header give the length of the name |
| CppFileInfo.DecodeInvertsEncode | cpp/fileinfo.cc:14-39 | decoding inverts encoding for every name, whatever bytes it holds and whatever follows |
| CppFileInfo.HeadersPrefixFree | cpp/fileinfo.cc:14-30 | no header is a prefix of another name's header |
| CppClient.RetryTriesAPrefix | cpp/client.cc:46-86 | endpoints are tried in order up to the first that accepts; the header is written once, to it; a connect error means all failed |
| CppClient.SendAllKeeps | cpp/client.cc:88-112 | what was written after the header and what is unread are together the blocks of the file |
| CppClient.WrittenIsAPrefix | cpp/client.cc:88-121 | whatever the completions, the bytes sent are a prefix of header and file, and all of them after the shutdown |
| CppClient.SendTerminates | cpp/client.cc:93-112 | if writes succeed the callback chain ends after one per block and one more, with the whole length counted |
| CppClient.SendFails | cpp/client.cc:113-120 | a failing write leaves exactly the blocks before it written; end of file closes the socket, another error is reported |
| CppClient.EveryClientRun | cpp/client.cc:46-121 | every run ends in exactly one way, a resolve error, a connect error after all endpoints, an overrun, or one of sending; the shutdown implies header and file were sent in full |
| CppClient.AsyncTcpClient.HandleResolve | cpp/client.cc:46-59 | the first endpoint is tried, or the resolve error reported |
| CppClient.AsyncTcpClient.HandleConnect | cpp/client.cc:61-86 | header on success, next endpoint on failure, error when none is left |
| CppClient.AsyncTcpClient.SendInfo | cpp/client.cc:66-72 | the array sent holds the header of the file's base name |
| CppClient.AsyncTcpClient.HandleReadFile | cpp/client.cc:88-121 | the next block is read, counted and written; at the end of the file the sending side is shut |
| CppServer.AsyncRead | cpp/server.cc:26-30 | an async_read fills its buffer or reports the end, however the stream is segmented |
| CppServer.StepKeeps | cpp/server.cc:40-95 | every callback keeps file, counter, block count and position in step with the stream |
| CppServer.FileIsAPrefix | cpp/server.cc:64-95 | in every reachable state the file is a prefix of the stream, filesize_ its length, and a whole number of blocks until the end was handled |
| CppServer.ServeResult | cpp/server.cc:22-95 | a connection always comes to rest; exactly when it stores a file, reports an error or closes, and what the file holds |
| CppServer.AsyncTcpConnection.HandleReadRequest | cpp/server.cc:40-62 | the header is decoded and the file opened, or the connection ends |
| CppServer.AsyncTcpConnection.HandleWriteFile | cpp/server.cc:64-95 | a block is appended and counted, also the short one at the end of the stream; another error drops it |
| CppServer.AsyncTcpConnection.Dispatch | cpp/server.cc:22-95 | one read and its handler make one step of the connection |
| CppServer.AsyncTcpConnection.Run | cpp/server.cc:126-130 | the event loop of a connection ends, in the state its stream determines |
| CppTransfer.StreamOfSender | cpp/client.cc:65-112 | a complete sender's stream decodes to its name and has the file as its body |
| CppTransfer.TransferComplete | cpp/server.cc:22-95 | for every file and every name up to 123 characters the server ends with that name and file, both counters right, after floor(length / BUFSIZ) + 1 blocks |
| CppTransfer.ServeSender | cpp/server.cc:22-130 | the same of the connection's event loop on its socket, fields and file, whatever segments arrive |
| CppTransfer.TransferCut | cpp/server.cc:64-95 | however the client stops or the connection breaks, the server holds a prefix of the file under its name |
| GoComm.NewBufferList | go/util/comm.go:66-77 | the chunks are the blocks of 1024 of the source, and give it back |
| GoComm.SendData | go/util/comm.go:81-94 | exactly the source goes on the wire, in ceil(length / 1024) writes |
| GoComm.RecvData | go/util/comm.go:96-120 | received bytes padded with zeros to size; panics exactly when a read begins beyond the slice; fatal exactly on a broken stream otherwise |
| GoComm.CopyInto | go/util/comm.go:116-117 | a copy at cnt extends the padded prefix by what fits |
| GoComm.PrefixIsReassembled | go/util/comm.go:96-120 | up to size bytes, cut anywhere, never panic and are returned with zeros behind; a full message is returned unchanged |
| GoComm.ReadsAreBlocks | go/util/comm.go:96-120 | the reads are the blocks of 2048 of each segment, segment by segment |
| GoComm.ReassembledExactly | go/util/comm.go:96-120 | for everything that may arrive and every size: exactly when it panics or dies, and else each byte returned |
| GoServ.HandleClient | go/serv.go:34-110 | header read, receive, digest gate and write, as a function of what arrives |
| GoServ.HandledExactly | go/serv.go:34-110 | for everything that may arrive: exactly when the process dies or panics, and that the disk only changes by data of the announced name, size and digest |
| GoServ.SendFile | go/util/comm.go:81-94 | the encoded header is followed by exactly the content |
| GoServ.StoredIsSourceOrCollision | go/serv.go:60-107 | no panic; whatever is stored has the source's digest, so it is the source or collides with it |
| GoServ.FullDeliveryStores | go/serv.go:60-107 | with the header read alone and everything delivered the file is always stored |
| GoServ.StoredExactly | go/serv.go:42-107 | without a collision the file is stored exactly when no content was swallowed and only zeros are missing, or the file is all zeros |
| GoServ.CoalescedFileIsLost | go/serv.go:42-107 | a file that is not all zeros and comes in one segment with a short header is lost |
| GoCodec.PlainIsLawful | go/filedata/file.go:39-58 | for every digest there is an encoding that decodes to what was encoded whatever follows |
| GoCodec.OneByteFileIsLost | go/serv.go:42-107 | with it a one-byte file is lost when it arrives with its header |
| SimplogConfig.LoadConfig | c/simplog.c:492-540 | the one-pass scanner computes the fold of the lines, and is undefined exactly where the fold is |
| SimplogConfig.EndLine | c/simplog.c:504-538 | at a newline the two fields of the line are applied |
| SimplogConfig.ApplyFields | c/simplog.c:516-535 | the comparisons and conversions of the loop apply one assignment |
| SimplogConfig.SilentLine | c/simplog.c:516-526 | a silent line is defined exactly for the values true and false, and sets the one named |
| SimplogConfig.FlushLine | c/simplog.c:516-528 | the same of flush |
| SimplogConfig.WrapLine | c/simplog.c:516-530 | the same of wrap |
| SimplogConfig.DebugLine | c/simplog.c:531-532 | a debug line sets what atoi makes of its value |
| SimplogConfig.LogfileLine | c/simplog.c:533-534 | a logfile line sets its value |
| SimplogConfig.OtherLines | c/simplog.c:524-535 | a line with any other key changes nothing |
| SimplogConfig.BooleanLinesWellFormed | c/simplog.c:516-530 | a line of a boolean setting is well formed exactly if it says true or false |
| SimplogConfig.LinesOfUnlines | c/simplog.c:500-540 | the lines are exactly the newline-terminated pieces; an unterminated tail is ignored |
| SimplogConfig.ParseLineSplitsAtTheLast | c/simplog.c:501-514 | a line is split at its last equals sign; without one, or with a field too long, it is undefined |
| SimplogConfig.LastAssignmentWins | c/simplog.c:524-535 | for each setting the last assignment wins, and an unassigned one keeps its default |
| SimplogConfig.DefinedExactly | c/simplog.c:512-535 | the result is defined exactly when every line has an equals sign, fields that fit and values its key can take |

## Left out

- Sockets, libevent, Boost.Asio, threads and the file system are contracts: an ordered reliable
  byte stream as in section 1.5 of RFC 793, callbacks run one at a time, each pthread joined before
  its result is used and so a call. `fwrite` falls short only when the disk is full. In C and Go a
  file that cannot be opened ends the program and is not modelled.
- MD5 rounds (section 3 of RFC 1321): the C model uses any byte-by-byte fold, the Go model any
  digest function, and no result assumes that digests do not collide unless it says so.
- `cpp/server.cc:49` opens the decoded name up to its first NUL; the model keeps the decoded name.
- msgpack is any encoding whose decoder returns what was encoded and ignores trailing bytes.
- `finfo` in `c/file_serv.c:107` is a local that the DATA callbacks use as if it survived from the
  HEAD callback; the model makes it part of the server's state.
- Overlapping C connections share one static `Status`; the model runs one connection at a time.
- Status words arrive whole. In runs with a whole header at most one is in flight, which is
  proved; with a split header the model lets the client read queued words one per callback.
- The order in which `async_write` looks at the local header array of `cpp/client.cc:66`: the model
  takes the bytes at the call.
- Undefined behaviour is a final state (`fault`, `overrun`, `None`): nothing is said beyond it.
- `SimplogConfig.LoadConfig`: counts a field of exactly 255 characters, which leaves `var` or `val`
  without a terminator, as undefined, because later calls read beyond it.
- What `HandleClient` does after the end of the stream: it polls for ever.
- `ReadFile` and `WriteFile` of `go/util/comm.go` beyond "the content" and "the file holds it".
- The reading loop of `loadConfig` (`c/simplog.c:481-490`) and the application of the settings.
- `is_data_correct`, `wrapLines`, the logging output, `go-update/`, the Node.js scripts, command
  lines: unused, output only, or thin wrappers.
