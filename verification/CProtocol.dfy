/** The C transfer as a two-party state machine: one step per libevent callback, two FIFO
    queues between the parties (c/file_serv.c and c/file_client.c). */
module CProtocol {
  import opened Bytes
  import opened CLib
  import opened CFileInfo
  import opened CInterface
  import opened StreamingDigest

  datatype RequestType = INIT | HEAD | DATA | FIN

  type FileBytes = s: seq<byte> | |s| < TWO_TO_THE_64 witness []
  type CName = s: seq<byte> | |s| < MAXLEN && 0 !in s witness []
  type Disk = map<seq<byte>, seq<byte>>

  /** What one connection depends on besides the schedule: the digest, the client's file and
      arguments, the stack bytes its uninitialised struct fileinfo lies on, and how many bytes
      the server's disk still takes. */
  datatype Env = Env(md5: Md5, source: FileBytes, infile: CName, outfile: CName, garbage: NameField, room: nat) {
    /** The header the client sends: the output name over the input name over garbage. */
    function Header(): FileInfo {
      FileInfo(StrCpy(StrCpy(garbage, infile), outfile), |source|, md5.Sum(source))
    }

    /** The name the server writes under. */
    function Target(): seq<byte> {
      Basename(outfile)
    }
  }

  // ---- The server

  /** status and finfo outlive a connection, as do the disk and the log; input is the input
      evbuffer of the current connection, writes counts its runs of writefile. fault is set by
      a memory error, after which nothing is specified. */
  datatype Server = Server(status: RequestType, finfo: FileInfo, input: seq<byte>, disk: Disk,
                           log: seq<Complaint>, writes: nat, fault: bool)

  /** listen_cb: a fresh connection, and the request for the header. */
  function Listen(s: Server): (Server, seq<RequestType>) {
    (s.(status := HEAD, input := [], writes := 0), [HEAD])
  }

  /** read_cb: the new state and the status words written to the client. */
  function ServerRead(md5: Md5, room: nat, s: Server): (Server, seq<RequestType>) {
    match s.status
    case HEAD =>
      var data := Take(s.input, BUFSIZ);
      var cleared := s.(finfo := ZERO_FILEINFO, input := Drop(s.input, BUFSIZ));
      if |data| > SIZEOF_FILEINFO then (cleared.(fault := true), [])
      else (cleared.(finfo := Decoded(ZERO_FILEINFO, data), status := DATA), [DATA])
    case DATA =>
      if |s.input| != s.finfo.size then (s, [])
      else
        var w := WriteOutcome(md5, s.finfo.info, s.input, room);
        var status := if w.result != 0 then DATA else FIN;
        (s.(status := status, input := [], disk := s.disk[Basename(CStr(s.finfo.name)) := w.content],
            log := s.log + w.complaints, writes := s.writes + 1), [status])
    case INIT => (s, [])
    case FIN => (s, [])
  }

  // ---- The client

  /** The global evbuffer: never allocated, live with its bytes, or freed. */
  datatype ClientBuffer = Unset | Live(bytes: seq<byte>) | Freed

  datatype Client = Client(status: RequestType, buf: ClientBuffer, enabled: bool, fault: bool)

  const NEW_CLIENT := Client(INIT, Unset, true, false)

  /** write_cb: the new state and the bytes written to the server. */
  function ClientWrite(e: Env, c: Client): (Client, seq<byte>) {
    match c.status
    case HEAD => (c.(buf := Live(e.source)), Image(e.Header()))
    case DATA => if c.buf.Live? then (c.(buf := Live([])), c.buf.bytes) else (c.(fault := true), [])
    case INIT => (c, [])
    case FIN => (c, [])
  }

  /** read_cb on one status word: FIN frees the buffer and disables the events; then write_cb. */
  function ClientRead(e: Env, c: Client, word: RequestType): (Client, seq<byte>) {
    if word == FIN then
      if c.buf.Live? then ClientWrite(e, c.(status := INIT, buf := Freed, enabled := false))
      else (c.(status := FIN, fault := true), [])
    else ClientWrite(e, c.(status := word))
  }

  // ---- Both parties and the network

  /** words travel from server to client, wire from client to server. */
  datatype System = System(server: Server, client: Client, words: seq<RequestType>, wire: seq<byte>)

  /** Either the client reads one status word, or the network hands the next n bytes to the
      server; each ends in one callback. */
  datatype Step = ClientReads | Deliver(n: nat)

  function Connect(s: Server): System {
    System(Listen(s).0, NEW_CLIENT, Listen(s).1, [])
  }

  predicate Enabled(sys: System, step: Step) {
    match step
    case ClientReads => sys.words != [] && sys.client.enabled
    case Deliver(n) => 1 <= n <= |sys.wire|
  }

  ghost predicate Quiescent(sys: System) {
    forall step :: !Enabled(sys, step)
  }

  function Next(e: Env, sys: System, step: Step): System
    requires Enabled(sys, step)
  {
    match step
    case ClientReads =>
      var (client, bytes) := ClientRead(e, sys.client, sys.words[0]);
      sys.(client := client, words := sys.words[1..], wire := sys.wire + bytes)
    case Deliver(n) =>
      var arrived := sys.server.(input := sys.server.input + sys.wire[..n]);
      var (server, words) := ServerRead(e.md5, e.room, arrived);
      sys.(server := server, words := sys.words + words, wire := sys.wire[n..])
  }

  /** The state after a schedule, if every step of it was enabled. */
  function Run(e: Env, sys: System, steps: seq<Step>): Option<System>
    decreases |steps|
  {
    if steps == [] then Some(sys)
    else if !Enabled(sys, steps[0]) then None
    else Run(e, Next(e, sys, steps[0]), steps[1..])
  }
}
