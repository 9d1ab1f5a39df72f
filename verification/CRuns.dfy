/** Every run of the C protocol, however the network cuts the header: what the server has
    consumed, stored and logged, and what is still to come. */
module CRuns {
  import opened Bytes
  import opened CLib
  import opened CFileInfo
  import opened CInterface
  import opened CProtocol

  // ---- The header as the server sees it

  /** The header the server makes of the first k bytes of the client's. */
  function Parsed(e: Env, k: nat): FileInfo
    requires k <= SIZEOF_FILEINFO
  {
    Decoded(ZERO_FILEINFO, Image(e.Header())[..k])
  }

  /** What the server then takes for content: the rest of the header, and the file. */
  function Content(e: Env, k: nat): seq<byte>
    requires k <= SIZEOF_FILEINFO
  {
    Image(e.Header())[k..] + e.source
  }

  lemma ParsedWhole(e: Env)
    ensures Parsed(e, SIZEOF_FILEINFO) == e.Header() && Content(e, SIZEOF_FILEINFO) == e.source
  {
    assert Image(e.Header())[..SIZEOF_FILEINFO] == Image(e.Header());
    DecodeWhole(e.Header(), ZERO_FILEINFO);
  }

  /** The name field the client sends: the output name over the input name over whatever was
      there, each with its NUL. */
  lemma NameField(e: Env, i: nat)
    requires i < 256
    ensures e.Header().name[i] ==
      if i < |e.outfile| then e.outfile[i] else if i == |e.outfile| then 0
      else if i < |e.infile| then e.infile[i] else if i == |e.infile| then 0
      else e.garbage[i]
  {
    var once := StrCpy(e.garbage, e.infile);
    assert once[i] == if i < |e.infile| then e.infile[i] else if i == |e.infile| then 0 else e.garbage[i];
  }

  /** The target name survives both strcpys, the image and the decode. */
  lemma TargetSurvives(e: Env)
    ensures Basename(CStr(e.Header().name)) == e.Target()
  {
    CStrStopsAtNul(e.outfile, StrCpy(e.garbage, e.infile)[|e.outfile| + 1..]);
  }

  /** A cut header never announces more than the whole one, and once it announces anything its
      name is complete. */
  lemma ParsedCut(e: Env, k: nat)
    requires k <= SIZEOF_FILEINFO
    ensures Parsed(e, k).size <= |e.source|
    ensures Parsed(e, k).size > 0 ==> Basename(CStr(Parsed(e, k).name)) == e.Target()
  {
    DecodePrefixSize(e.Header(), k);
    if k <= MAXLEN {
      CutBeforeSize(e.Header(), k);
    } else {
      CutBehindName(e.Header(), k);
      TargetSurvives(e);
    }
  }

  lemma CutBeforeSize(f: FileInfo, k: nat)
    requires k <= MAXLEN
    ensures Decoded(ZERO_FILEINFO, Image(f)[..k]).size == 0
  {
    ImageOfZero();
    ZeroIsZero(8);
    var cut := Image(f)[..k] + Image(ZERO_FILEINFO)[k..];
    assert cut[MAXLEN..MAXLEN + 8] == Zeros(8);
  }

  lemma CutBehindName(f: FileInfo, k: nat)
    requires MAXLEN <= k <= SIZEOF_FILEINFO
    ensures Decoded(ZERO_FILEINFO, Image(f)[..k]).name == f.name
  {
    var cut := Image(f)[..k] + Image(ZERO_FILEINFO)[k..];
    assert cut[..MAXLEN] == Image(f)[..MAXLEN] == f.name;
  }

  /** What the server works with once it has read its header: the header it decoded, and the
      bytes it will take for content. */
  datatype Reading = Reading(finfo: FileInfo, content: seq<byte>)

  function ReadingOf(e: Env, k: nat): Reading
    requires k <= SIZEOF_FILEINFO
  {
    Reading(Parsed(e, k), Content(e, k))
  }

  // ---- The length test

  /** The bytes w runs of writefile drain. */
  function Drained(size: nat, w: nat): nat {
    if w == 0 then 0 else Drained(size, w - 1) + size
  }

  /** The bytes of the content that the w-th run of writefile drains. */
  function Chunk(r: Reading, w: nat): seq<byte>
    requires w > 0
  {
    Take(Drop(r.content, Drained(r.finfo.size, w - 1)), r.finfo.size)
  }

  function DiskAfter(e: Env, r: Reading, disk: Disk, w: nat): Disk {
    if w == 0 then disk else disk[e.Target() := Take(Chunk(r, w), e.room)]
  }

  /** The complaints of w runs of writefile; a second run takes place only after a failed one. */
  function Complaints(e: Env, r: Reading, w: nat): seq<Complaint> {
    if r.finfo.size > e.room then seq(w, _ => FileWriteError)
    else if w == 0 || e.md5.Sum(Chunk(r, 1)) == r.finfo.info then []
    else [FileContentIncorrect]
  }

  /** How often the deliveries of a schedule meet the length test, with have bytes buffered. If
      the announced size fits the disk the first time ends it. */
  function Firings(steps: seq<Step>, have: nat, size: nat, fits: bool): nat
    decreases |steps|
  {
    if steps == [] then 0
    else
      match steps[0]
      case ClientReads => Firings(steps[1..], have, size, fits)
      case Deliver(n) =>
        if have + n != size then Firings(steps[1..], have + n, size, fits)
        else if fits then 1
        else 1 + Firings(steps[1..], 0, size, fits)
  }

  // ---- What every callback keeps once the server has read its header

  /** Content the client has still to write. */
  function Unsent(e: Env, c: Client): seq<byte> {
    if c.status == HEAD then e.source else []
  }

  predicate Answers(words: seq<RequestType>, fits: bool, fin: bool) {
    if fits then words == (if fin then [FIN] else [])
    else forall i :: 0 <= i < |words| ==> words[i] == DATA
  }

  predicate ClientHas(e: Env, c: Client, words: seq<RequestType>, fits: bool, fin: bool) {
    || (c == Client(HEAD, Live(e.source), true, false) && words != [] && words[0] == DATA && Answers(words[1..], fits, fin))
    || (c == Client(DATA, Live([]), true, false) && Answers(words, fits, fin))
    || (c == Client(INIT, Freed, false, false) && words == [] && fits && fin)
  }

  predicate ServerHas(e: Env, before: Server, r: Reading, s: Server) {
    && !s.fault && s.finfo == r.finfo && s.status in {DATA, FIN}
    && (s.status == FIN <==> s.writes > 0 && r.finfo.size <= e.room)
    && (s.status == FIN ==> s.writes == 1) && (s.writes > 0 ==> r.finfo.size > 0)
    && s.disk == DiskAfter(e, r, before.disk, s.writes)
    && s.log == before.log + Complaints(e, r, s.writes)
  }

  /** The content beyond what writefile drained is the input buffer, then the wire, then what the
      client has not sent. */
  predicate Conserved(e: Env, r: Reading, sys: System) {
    var done := Drained(r.finfo.size, sys.server.writes);
    done <= |r.content| && sys.server.input + sys.wire + Unsent(e, sys.client) == r.content[done..]
  }

  /** Once the header was read as r: no byte is lost, disk and log are those of the drained
      chunks, and the client's buffer and the words in flight match. */
  predicate Receiving(e: Env, before: Server, r: Reading, sys: System) {
    && ServerHas(e, before, r, sys.server)
    && ClientHas(e, sys.client, sys.words, r.finfo.size <= e.room, sys.server.status == FIN)
    && Conserved(e, r, sys)
  }

  /** A header that announces content names the client's target. */
  predicate Named(e: Env, r: Reading) {
    r.finfo.size > 0 ==> Basename(CStr(r.finfo.name)) == e.Target()
  }

  /** Bytes the client has still to write, its header included. */
  function Owed(e: Env, c: Client): nat {
    if c.buf.Unset? then SIZEOF_FILEINFO + |e.source| else |Unsent(e, c)|
  }

  /** A bound on the callbacks to come: two per byte still to arrive, one per word. */
  function Pending(e: Env, sys: System): nat {
    2 * (|sys.wire| + Owed(e, sys.client)) + |sys.words|
  }

  lemma ReadKeeps(e: Env, before: Server, r: Reading, sys: System)
    requires Receiving(e, before, r, sys) && Enabled(sys, ClientReads)
    ensures Receiving(e, before, r, Next(e, sys, ClientReads))
    ensures Next(e, sys, ClientReads).server == sys.server
    ensures Pending(e, Next(e, sys, ClientReads)) < Pending(e, sys)
  {
  }

  /** The length test fires on a delivery that brings the buffer to the announced size. */
  predicate Fires(sys: System, n: nat) {
    sys.server.status == DATA && |sys.server.input| + n == sys.server.finfo.size
  }

  lemma QuietDeliveryKeeps(e: Env, before: Server, r: Reading, sys: System, n: nat)
    requires Receiving(e, before, r, sys) && Enabled(sys, Deliver(n)) && !Fires(sys, n)
    ensures Receiving(e, before, r, Next(e, sys, Deliver(n)))
    ensures Next(e, sys, Deliver(n)).server == sys.server.(input := sys.server.input + sys.wire[..n])
    ensures Pending(e, Next(e, sys, Deliver(n))) < Pending(e, sys)
  {
    assert (sys.server.input + sys.wire[..n]) + sys.wire[n..] == sys.server.input + sys.wire;
  }

  lemma ChunkDrained(r: Reading, w: nat, input: seq<byte>, rest: seq<byte>)
    requires |input| == r.finfo.size
    requires Drained(|input|, w) <= |r.content| && input + rest == r.content[Drained(|input|, w)..]
    ensures input == Chunk(r, w + 1)
    ensures Drained(|input|, w + 1) <= |r.content| && rest == r.content[Drained(|input|, w + 1)..]
  {
    var at, size := Drained(|input|, w), |input|;
    assert input == r.content[at..][..size] && rest == r.content[at..][size..];
    assert r.content[at..][size..] == r.content[at + size..];
  }

  lemma ComplaintsGrow(e: Env, r: Reading, w: nat)
    requires (r.finfo.size <= e.room ==> w == 0) && |Chunk(r, w + 1)| == r.finfo.size
    ensures Complaints(e, r, w + 1)
      == Complaints(e, r, w) + WriteOutcome(e.md5, r.finfo.info, Chunk(r, w + 1), e.room).complaints
    ensures Complaints(e, r, 0) == []
  {
    if r.finfo.size > e.room {
      assert seq(w + 1, _ => FileWriteError) == seq(w, _ => FileWriteError) + [FileWriteError];
    }
  }

  /** What the length test leads to. */
  function Fired(e: Env, r: Reading, s: Server): Server {
    s.(status := if r.finfo.size <= e.room then FIN else DATA, input := [],
       disk := s.disk[e.Target() := Take(s.input, e.room)],
       log := s.log + WriteOutcome(e.md5, r.finfo.info, s.input, e.room).complaints, writes := s.writes + 1)
  }

  lemma ServerFires(e: Env, r: Reading, s: Server)
    requires s.status == DATA && s.finfo == r.finfo && Named(e, r) && 0 < |s.input| == r.finfo.size
    ensures ServerRead(e.md5, e.room, s) == (Fired(e, r, s), [Fired(e, r, s).status])
  {
    assert WriteOutcome(e.md5, s.finfo.info, s.input, e.room).content == Take(s.input, e.room);
  }

  lemma FiredKeeps(e: Env, before: Server, r: Reading, s: Server)
    requires ServerHas(e, before, r, s) && s.status == DATA
    requires 0 < |s.input| == r.finfo.size && s.input == Chunk(r, s.writes + 1)
    ensures ServerHas(e, before, r, Fired(e, r, s))
  {
    ComplaintsGrow(e, r, s.writes);
    AppendAssociative(before.log, Complaints(e, r, s.writes), WriteOutcome(e.md5, r.finfo.info, s.input, e.room).complaints);
  }

  lemma AnswerSent(e: Env, c: Client, words: seq<RequestType>, fits: bool)
    requires ClientHas(e, c, words, fits, false)
    ensures ClientHas(e, c, words + [if fits then FIN else DATA], fits, fits)
  {
    if words != [] {
      assert (words + [if fits then FIN else DATA])[1..] == words[1..] + [if fits then FIN else DATA];
    }
  }

  lemma FiringConserves(e: Env, r: Reading, sys: System, n: nat)
    requires Conserved(e, r, sys) && n <= |sys.wire| && |sys.server.input| + n == r.finfo.size
    ensures var input := sys.server.input + sys.wire[..n];
      && input == Chunk(r, sys.server.writes + 1)
      && Conserved(e, r, sys.(server := Fired(e, r, sys.server.(input := input)), wire := sys.wire[n..]))
  {
    var input, rest := sys.server.input + sys.wire[..n], sys.wire[n..] + Unsent(e, sys.client);
    CutAt(sys.server.input, sys.wire, n, Unsent(e, sys.client));
    ChunkDrained(r, sys.server.writes, input, rest);
    assert [] + sys.wire[n..] + Unsent(e, sys.client) == rest;
  }

  lemma CutAt(a: seq<byte>, b: seq<byte>, n: nat, c: seq<byte>)
    requires n <= |b|
    ensures (a + b[..n]) + (b[n..] + c) == a + b + c
  {
    assert b == b[..n] + b[n..];
  }

  lemma FiringDeliveryKeeps(e: Env, before: Server, r: Reading, sys: System, n: nat)
    requires Receiving(e, before, r, sys) && Named(e, r) && Enabled(sys, Deliver(n)) && Fires(sys, n)
    ensures Receiving(e, before, r, Next(e, sys, Deliver(n)))
    ensures Next(e, sys, Deliver(n)).server == Fired(e, r, sys.server.(input := sys.server.input + sys.wire[..n]))
    ensures Pending(e, Next(e, sys, Deliver(n))) < Pending(e, sys)
  {
    var arrived := sys.server.(input := sys.server.input + sys.wire[..n]);
    FiringConserves(e, r, sys, n);
    ServerFires(e, r, arrived);
    FiredKeeps(e, before, r, arrived);
    AnswerSent(e, sys.client, sys.words, r.finfo.size <= e.room);
  }

  /** The runs of writefile a schedule leads to. */
  function Total(e: Env, r: Reading, s: Server, steps: seq<Step>): nat {
    s.writes + if s.status == FIN then 0 else Firings(steps, |s.input|, r.finfo.size, r.finfo.size <= e.room)
  }

  lemma StepKeeps(e: Env, before: Server, r: Reading, sys: System, steps: seq<Step>)
    requires Receiving(e, before, r, sys) && Named(e, r) && steps != [] && Enabled(sys, steps[0])
    ensures var next := Next(e, sys, steps[0]);
      && Receiving(e, before, r, next) && Pending(e, next) < Pending(e, sys)
      && Total(e, r, next.server, steps[1..]) == Total(e, r, sys.server, steps)
  {
    match steps[0]
    case ClientReads => ReadKeeps(e, before, r, sys);
    case Deliver(n) =>
      if Fires(sys, n) {
        FiringDeliveryKeeps(e, before, r, sys, n);
      } else {
        QuietDeliveryKeeps(e, before, r, sys, n);
      }
  }

  lemma {:induction false} RunKeeps(e: Env, before: Server, r: Reading, sys: System, steps: seq<Step>)
    requires Receiving(e, before, r, sys) && Named(e, r) && Run(e, sys, steps).Some?
    ensures var end := Run(e, sys, steps).value;
      && Receiving(e, before, r, end) && end.server.writes == Total(e, r, sys.server, steps)
      && |steps| + Pending(e, end) <= Pending(e, sys)
    decreases |steps|
  {
    if steps != [] {
      StepKeeps(e, before, r, sys, steps);
      RunKeeps(e, before, r, Next(e, sys, steps[0]), steps[1..]);
    }
  }

  /** A run rests when everything in flight has arrived: then either the server has answered FIN
      and the client has freed its buffer, or both wait in DATA. */
  lemma RestsExactly(e: Env, before: Server, r: Reading, sys: System)
    requires Receiving(e, before, r, sys)
    ensures Quiescent(sys) <==> sys.wire == [] && sys.words == []
    ensures Quiescent(sys) ==>
      sys.client == if sys.server.status == FIN then Client(INIT, Freed, false, false) else Client(DATA, Live([]), true, false)
  {
    assert !Enabled(sys, ClientReads) ==> sys.words == [];
    assert !Enabled(sys, Deliver(|sys.wire|)) ==> sys.wire == [];
  }

  /** Taking one step at the front of a run. */
  lemma RunStep(e: Env, sys: System, step: Step, rest: seq<Step>)
    requires Enabled(sys, step)
    ensures Run(e, sys, [step] + rest) == Run(e, Next(e, sys, step), rest)
  {
    assert ([step] + rest)[1..] == rest;
  }

  // ---- From the start

  lemma Begins(e: Env, before: Server, k: nat)
    requires !before.fault && 1 <= k <= SIZEOF_FILEINFO
    ensures var sys := Next(e, Connect(before), ClientReads);
      && sys.wire == Image(e.Header()) && sys.words == [] && Enabled(sys, Deliver(k))
      && Pending(e, sys) < Pending(e, Connect(before))
      && Receiving(e, before, ReadingOf(e, k), Next(e, sys, Deliver(k)))
      && Pending(e, Next(e, sys, Deliver(k))) < Pending(e, sys)
      && Next(e, sys, Deliver(k)).server.writes == 0 && Next(e, sys, Deliver(k)).server.input == []
  {
    var sys := Next(e, Connect(before), ClientReads);
    assert sys.wire == Image(e.Header());
    assert sys.server.input + sys.wire[..k] == Image(e.Header())[..k];
    Starts(e, before, ReadingOf(e, k), Next(e, sys, Deliver(k)));
  }

  lemma Starts(e: Env, before: Server, r: Reading, sys: System)
    requires !sys.server.fault && sys.server.finfo == r.finfo && sys.server.status == DATA && sys.server.writes == 0
    requires sys.server.disk == before.disk && sys.server.log == before.log && sys.server.input == []
    requires sys.client == Client(HEAD, Live(e.source), true, false) && sys.words == [DATA]
    requires sys.wire + e.source == r.content
    ensures Receiving(e, before, r, sys)
  {
    assert sys.server.input + sys.wire + e.source == r.content == r.content[0..];
    assert Complaints(e, r, 0) == [] && before.log + [] == before.log;
  }

  /** Every run begins with the client's header and a first delivery of 1 to 280 bytes of it. */
  lemma FirstTwoSteps(e: Env, before: Server, steps: seq<Step>)
    requires Run(e, Connect(before), steps).Some?
    ensures |steps| >= 1 ==> steps[0] == ClientReads
    ensures |steps| >= 2 ==>
      && steps[1].Deliver? && 1 <= steps[1].n <= SIZEOF_FILEINFO
      && var sys := Next(e, Connect(before), ClientReads);
         && Enabled(sys, steps[1])
         && Run(e, Connect(before), steps) == Run(e, Next(e, sys, steps[1]), steps[2..])
  {
    if |steps| >= 2 {
      var sys := Next(e, Connect(before), ClientReads);
      assert sys.wire == Image(e.Header());
      assert steps[1..][1..] == steps[2..];
    }
  }

  lemma RestingRunHasTwoSteps(e: Env, before: Server, steps: seq<Step>)
    requires Run(e, Connect(before), steps).Some? && Quiescent(Run(e, Connect(before), steps).value)
    ensures |steps| >= 2
  {
    assert Enabled(Connect(before), ClientReads);
    assert Enabled(Next(e, Connect(before), ClientReads), Deliver(SIZEOF_FILEINFO));
    FirstTwoSteps(e, before, steps);
  }

  /** The server's disk and log after any run of at least two callbacks, as a function of the
      first delivery and of the number of times the length test was met; it answers FIN exactly
      when the test was met and the announced size fits the disk. */
  lemma Outcome(e: Env, before: Server, steps: seq<Step>)
    requires !before.fault && Run(e, Connect(before), steps).Some? && |steps| >= 2
    ensures steps[1].Deliver? && 1 <= steps[1].n <= SIZEOF_FILEINFO
    ensures var sys, r := Run(e, Connect(before), steps).value, ReadingOf(e, steps[1].n);
      var w := Firings(steps[2..], 0, r.finfo.size, r.finfo.size <= e.room);
      && Receiving(e, before, r, sys)
      && sys.server.writes == w && sys.server.disk == DiskAfter(e, r, before.disk, w)
      && sys.server.log == before.log + Complaints(e, r, w)
      && (sys.server.status == FIN <==> w > 0 && r.finfo.size <= e.room)
    ensures |steps| <= 2 * (SIZEOF_FILEINFO + |e.source|) + 1
  {
    FirstTwoSteps(e, before, steps);
    var k := steps[1].n;
    Begins(e, before, k);
    ParsedCut(e, k);
    RunKeeps(e, before, ReadingOf(e, k), Next(e, Next(e, Connect(before), ClientReads), steps[1]), steps[2..]);
  }
}
