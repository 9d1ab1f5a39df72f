/** The phases of the C protocol: where a connection stands in every reachable state, how long a
    run lasts and where it can stop. */
module CProtocolProofs {
  import opened Bytes
  import opened CLib
  import opened CFileInfo
  import opened CInterface
  import opened StreamingDigest
  import opened CProtocol
  import opened CRuns

  // ---- One callback in any state, also those that no run reaches

  /** The server's callback runs writefile exactly when it meets the length test in DATA. Only then
      does the disk change, under one name, and the log grow, by one complaint at most. In HEAD it
      takes at most 8192 bytes for a header padded with zeros, and overruns it exactly on more than
      280. It sends at most its status. */
  lemma ServerCallback(md5: Md5, room: nat, s: Server)
    ensures var (t, words) := ServerRead(md5, room, s);
      var meets, name := s.status == DATA && |s.input| == s.finfo.size, Basename(CStr(s.finfo.name));
      && t.writes == s.writes + (if meets then 1 else 0)
      && (!meets ==> t.disk == s.disk && t.log == s.log)
      && (meets ==> t.status == (if |s.input| <= room then FIN else DATA) && t.input == []
                    && name in t.disk && t.disk[name] == s.input[..Min(|s.input|, room)])
      && (forall other :: other != name ==>
            (other in t.disk <==> other in s.disk) && (other in s.disk ==> t.disk[other] == s.disk[other]))
      && s.log <= t.log && |t.log| <= |s.log| + 1
      && (t.fault <==> s.fault || (s.status == HEAD && |s.input| > 280))
      && words == (if meets || (s.status == HEAD && |s.input| <= 280) then [t.status] else [])
      && (s.status != HEAD && !meets ==> t == s) && (s.status != HEAD ==> t.finfo == s.finfo)
      && (s.status == HEAD ==> t.input == s.input[Min(|s.input|, 8192)..])
      && (s.status == HEAD && |s.input| <= 280 ==>
            t.status == DATA && Image(t.finfo) == s.input + Zeros(280 - |s.input|))
  {
    if s.status == HEAD && |s.input| <= 280 {
      ImageOfZero();
      assert Zeros(280)[|s.input|..] == Zeros(280 - |s.input|);
      ImageInvertsOverlay(s.input + Zeros(280 - |s.input|));
    }
  }

  /** The client's callback touches a buffer that is not there exactly when asked for data, or told
      to finish, without one; a header is 280 bytes; and whatever a request for data sent, a second
      one sends nothing. */
  lemma ClientCallback(e: Env, c: Client, word: RequestType)
    ensures var (d, bytes) := ClientRead(e, c, word);
      && (d.fault <==> c.fault || (word in {DATA, FIN} && !c.buf.Live?))
      && (word == HEAD ==> |bytes| == 280 && d.buf == Live(e.source)) && (word in {INIT, FIN} ==> bytes == [])
      && (word == INIT ==> d == c.(status := INIT))
      && (word == FIN && c.buf.Live? ==> d.buf == Freed && !d.enabled && d.status == INIT)
      && (word != FIN ==> d.enabled == c.enabled && d.status == word)
      && (word == DATA && c.buf.Live? ==> bytes == c.buf.bytes && ClientRead(e, d, DATA) == (d, []))
  {
  }

  // ---- Phases

  /** Where a connection stands. Refused and Starved are the path of a write that failed;
      HeaderSplit(k) is that of a first delivery of k < 280 header bytes. */
  datatype Phase = Requested | HeaderSent | DataRequested | Streaming | Written | Refused | Finished | Starved
                 | HeaderSplit(k: nat)

  /** The server has not run writefile on this connection. */
  predicate Untouched(before: Server, s: Server) {
    s.disk == before.disk && s.log == before.log && s.writes == 0
  }

  /** writefile ran once and put the whole source in place, with no complaint. */
  predicate Stored(e: Env, before: Server, s: Server) {
    && 0 < |e.source| <= e.room
    && s.disk == before.disk[e.Target() := e.source] && s.log == before.log && s.writes == 1
  }

  /** writefile ran once and the disk took only a prefix. */
  predicate Truncated(e: Env, before: Server, s: Server) {
    && e.room < |e.source|
    && s.disk == before.disk[e.Target() := e.source[..e.room]]
    && s.log == before.log + [FileWriteError] && s.writes == 1
  }

  predicate ServerAt(e: Env, before: Server, s: Server, wire: seq<byte>, p: Phase) {
    && !s.fault
    && match p
       case Requested => s.status == HEAD && s.input == [] && wire == [] && Untouched(before, s)
       case HeaderSent => s.status == HEAD && s.input == [] && wire == Image(e.Header()) && Untouched(before, s)
       case DataRequested => s.status == DATA && s.finfo == e.Header() && s.input == [] && wire == [] && Untouched(before, s)
       case Streaming =>
         && s.status == DATA && s.finfo == e.Header() && s.input + wire == e.source && Untouched(before, s)
         && (wire == [] ==> e.source == [])
       case Written => s.status == FIN && s.input == [] && wire == [] && Stored(e, before, s)
       case Finished => s.status == FIN && s.input == [] && wire == [] && Stored(e, before, s)
       case Refused => s.status == DATA && s.finfo == e.Header() && s.input == [] && wire == [] && Truncated(e, before, s)
       case Starved => s.status == DATA && s.finfo == e.Header() && s.input == [] && wire == [] && Truncated(e, before, s)
       case HeaderSplit(_) => false
  }

  predicate ClientAt(e: Env, c: Client, words: seq<RequestType>, p: Phase) {
    match p
    case Requested => c == NEW_CLIENT && words == [HEAD]
    case HeaderSent => c == Client(HEAD, Live(e.source), true, false) && words == []
    case DataRequested => c == Client(HEAD, Live(e.source), true, false) && words == [DATA]
    case Streaming => c == Client(DATA, Live([]), true, false) && words == []
    case Written => c == Client(DATA, Live([]), true, false) && words == [FIN]
    case Refused => c == Client(DATA, Live([]), true, false) && words == [DATA]
    case Finished => c == Client(INIT, Freed, false, false) && words == []
    case Starved => c == Client(DATA, Live([]), true, false) && words == []
    case HeaderSplit(_) => false
  }

  predicate At(e: Env, before: Server, sys: System, p: Phase) {
    match p
    case HeaderSplit(k) => 1 <= k < SIZEOF_FILEINFO && Receiving(e, before, ReadingOf(e, k), sys)
    case _ => ServerAt(e, before, sys.server, sys.wire, p) && ClientAt(e, sys.client, sys.words, p)
  }

  /** A state is in at most one phase. */
  lemma PhasesExclude(e: Env, before: Server, sys: System, p: Phase, q: Phase)
    requires At(e, before, sys, p) && At(e, before, sys, q)
    ensures p == q
  {
    if p.HeaderSplit? {
      SplitLeavesMore(e, before, sys, p.k);
    }
    if q.HeaderSplit? {
      SplitLeavesMore(e, before, sys, q.k);
    }
  }

  /** After a split header the bytes not yet drained outnumber the rest of the source. */
  lemma SplitLeavesMore(e: Env, before: Server, sys: System, k: nat)
    requires At(e, before, sys, HeaderSplit(k))
    ensures sys.server.finfo.size <= |e.source|
    ensures |sys.server.input| + |sys.wire| + |Unsent(e, sys.client)| + Drained(sys.server.finfo.size, sys.server.writes)
      == SIZEOF_FILEINFO - k + |e.source|
    ensures Drained(sys.server.finfo.size, 1) == sys.server.finfo.size
  {
    ParsedCut(e, k);
  }

  /** The steps a connection whose header came whole can still take. */
  function StepsLeft(e: Env, sys: System, p: Phase): nat {
    match p
    case Requested => |e.source| + 4
    case HeaderSent => |e.source| + 3
    case DataRequested => |e.source| + 2
    case Streaming => |sys.wire| + 1
    case Written => 1
    case Refused => 1
    case Finished => 0
    case Starved => 0
    case HeaderSplit(_) => Pending(e, sys)
  }

  /** The phase a callback leads to; a rested connection has none and stays. */
  function NextPhase(e: Env, sys: System, p: Phase, step: Step): Phase {
    match p
    case Requested => HeaderSent
    case HeaderSent => if step.Deliver? && step.n < SIZEOF_FILEINFO then HeaderSplit(step.n) else DataRequested
    case DataRequested => Streaming
    case Streaming => if step != Deliver(|sys.wire|) then Streaming else if |e.source| <= e.room then Written else Refused
    case Written => Finished
    case Refused => Starved
    case Finished => Finished
    case Starved => Starved
    case HeaderSplit(k) => HeaderSplit(k)
  }

  /** A callback keeps the connection in its phases and shortens what is left to do. */
  predicate Advances(e: Env, before: Server, sys: System, p: Phase, step: Step)
    requires Enabled(sys, step)
  {
    var next, q := Next(e, sys, step), NextPhase(e, sys, p, step);
    && At(e, before, next, q) && Pending(e, next) < Pending(e, sys)
    && (p.HeaderSplit? || !q.HeaderSplit? ==> StepsLeft(e, next, q) < StepsLeft(e, sys, p))
  }

  /** One callback moves the connection to the next phase, or a streaming one nearer its end. */
  lemma StepAdvances(e: Env, before: Server, sys: System, p: Phase, step: Step)
    requires At(e, before, sys, p) && Enabled(sys, step)
    ensures Advances(e, before, sys, p, step)
  {
    if p == HeaderSent {
      HeaderArrives(e, before, sys, step);
    } else if p == Streaming {
      StreamingAdvances(e, before, sys, step);
    } else if p.HeaderSplit? {
      SplitAdvances(e, before, sys, p, step);
    } else {
      WordArrives(e, before, sys, p, step);
    }
  }

  /** In the other phases only a status word can arrive, and in the last two nothing. */
  lemma WordArrives(e: Env, before: Server, sys: System, p: Phase, step: Step)
    requires At(e, before, sys, p) && Enabled(sys, step) && p !in {HeaderSent, Streaming} && !p.HeaderSplit?
    ensures step == ClientReads && p !in {Finished, Starved}
    ensures Advances(e, before, sys, p, step)
  {
    WordIsRead(e, before, sys, p, step);
  }

  /** Reading a word leaves the server as it is. */
  lemma WordIsRead(e: Env, before: Server, sys: System, p: Phase, step: Step)
    requires At(e, before, sys, p) && Enabled(sys, step) && p !in {HeaderSent, Streaming} && !p.HeaderSplit?
    ensures step == ClientReads && p !in {Finished, Starved}
    ensures Next(e, sys, step).server == sys.server && Next(e, sys, step).words == []
    ensures ClientAt(e, Next(e, sys, step).client, [], NextPhase(e, sys, p, step))
  {
  }

  lemma SplitAdvances(e: Env, before: Server, sys: System, p: Phase, step: Step)
    requires At(e, before, sys, p) && Enabled(sys, step) && p.HeaderSplit?
    ensures Advances(e, before, sys, p, step)
  {
    ParsedCut(e, p.k);
    StepKeeps(e, before, ReadingOf(e, p.k), sys, [step]);
  }

  /** The HEAD callback: a whole header is decoded as sent, of a cut one the rest stays. */
  lemma HeaderArrives(e: Env, before: Server, sys: System, step: Step)
    requires At(e, before, sys, HeaderSent) && Enabled(sys, step)
    ensures step.Deliver? && Advances(e, before, sys, HeaderSent, step)
  {
    HeadCallback(e, sys, step.n);
    if step.n == SIZEOF_FILEINFO {
      ParsedWhole(e);
    } else {
      Starts(e, before, ReadingOf(e, step.n), Next(e, sys, step));
    }
  }

  lemma HeadCallback(e: Env, sys: System, n: nat)
    requires sys.server.status == HEAD && sys.server.input == [] && sys.wire == Image(e.Header())
    requires 1 <= n <= SIZEOF_FILEINFO
    ensures Next(e, sys, Deliver(n))
      == sys.(server := sys.server.(finfo := Parsed(e, n), status := DATA), words := sys.words + [DATA],
              wire := Image(e.Header())[n..])
  {
    assert sys.server.input + sys.wire[..n] == Image(e.Header())[..n];
  }

  /** A piece of the content that is not the last is buffered, and nothing else happens. */
  lemma PieceArrives(e: Env, before: Server, sys: System, n: nat)
    requires At(e, before, sys, Streaming) && 1 <= n < |sys.wire|
    ensures At(e, before, Next(e, sys, Deliver(n)), Streaming)
    ensures Next(e, sys, Deliver(n)).wire == sys.wire[n..] && Next(e, sys, Deliver(n)).words == []
    ensures Next(e, sys, Deliver(n)).server.writes == 0 && Next(e, sys, Deliver(n)).client == sys.client
  {
    assert (sys.server.input + sys.wire[..n]) + sys.wire[n..] == e.source;
  }

  /** The phase once the source was written. */
  function PhaseWritten(e: Env): Phase {
    if |e.source| <= e.room then Written else Refused
  }

  /** The piece that completes the source meets the length test, and the source is written. */
  lemma LastPieceArrives(e: Env, before: Server, sys: System)
    requires At(e, before, sys, Streaming) && sys.wire != []
    ensures At(e, before, Next(e, sys, Deliver(|sys.wire|)), PhaseWritten(e))
    ensures Next(e, sys, Deliver(|sys.wire|)).server.writes == 1
  {
    var arrived := sys.server.(input := e.source);
    DataCallback(e, sys);
    SourceWritten(e, before, arrived);
  }

  lemma DataCallback(e: Env, sys: System)
    requires sys.server.status == DATA && sys.server.finfo == e.Header()
    requires sys.server.input + sys.wire == e.source && sys.wire != []
    ensures var end := Fired(e, Reading(e.Header(), e.source), sys.server.(input := e.source));
      Next(e, sys, Deliver(|sys.wire|)) == sys.(server := end, words := sys.words + [end.status], wire := [])
  {
    assert sys.wire[..|sys.wire|] == sys.wire;
    TargetSurvives(e);
    ServerFires(e, Reading(e.Header(), e.source), sys.server.(input := e.source));
  }

  lemma SourceWritten(e: Env, before: Server, s: Server)
    requires s.input == e.source != [] && s.finfo == e.Header() && !s.fault && Untouched(before, s)
    ensures ServerAt(e, before, Fired(e, Reading(e.Header(), e.source), s), [], PhaseWritten(e))
  {
    assert before.log + [] == before.log;
  }

  /** The length test fires on the delivery that completes the source, and on no other. */
  lemma StreamingAdvances(e: Env, before: Server, sys: System, step: Step)
    requires At(e, before, sys, Streaming) && Enabled(sys, step)
    ensures Advances(e, before, sys, Streaming, step)
    ensures Next(e, sys, step).server.writes == 1 <==> step == Deliver(|sys.wire|)
  {
    if step.n < |sys.wire| {
      PieceArrives(e, before, sys, step.n);
    } else {
      LastPieceArrives(e, before, sys);
    }
  }

  /** The first bytes the server gets are the whole header. */
  predicate HeaderWhole(steps: seq<Step>) {
    |steps| < 2 || steps[1] == Deliver(SIZEOF_FILEINFO)
  }

  /** From phase p on the schedule does not split the header. */
  predicate KeepsWhole(p: Phase, steps: seq<Step>) {
    match p
    case Requested => HeaderWhole(steps)
    case HeaderSent => steps == [] || steps[0] == Deliver(SIZEOF_FILEINFO)
    case HeaderSplit(_) => false
    case _ => true
  }

  lemma WholeStays(e: Env, sys: System, p: Phase, steps: seq<Step>)
    requires steps != [] && KeepsWhole(p, steps)
    ensures KeepsWhole(NextPhase(e, sys, p, steps[0]), steps[1..])
    ensures !NextPhase(e, sys, p, steps[0]).HeaderSplit?
  {
  }

  lemma {:induction false} WholeRunAdvances(e: Env, before: Server, sys: System, p: Phase, steps: seq<Step>)
      returns (q: Phase)
    requires At(e, before, sys, p) && KeepsWhole(p, steps) && Run(e, sys, steps).Some?
    ensures At(e, before, Run(e, sys, steps).value, q) && !q.HeaderSplit?
    ensures |steps| + StepsLeft(e, Run(e, sys, steps).value, q) <= StepsLeft(e, sys, p)
    decreases |steps|
  {
    q := p;
    if steps != [] {
      StepAdvances(e, before, sys, p, steps[0]);
      WholeStays(e, sys, p, steps);
      q := WholeRunAdvances(e, before, Next(e, sys, steps[0]), NextPhase(e, sys, p, steps[0]), steps[1..]);
    }
  }

  /** The phase a run from the connection on ends in. */
  lemma PhaseOfRun(e: Env, before: Server, steps: seq<Step>) returns (q: Phase)
    requires !before.fault && Run(e, Connect(before), steps).Some?
    ensures At(e, before, Run(e, Connect(before), steps).value, q)
    ensures q.HeaderSplit? <==> !HeaderWhole(steps)
    ensures |steps| <= 2 * (SIZEOF_FILEINFO + |e.source|) + 1
    ensures HeaderWhole(steps) ==> |steps| <= |e.source| + 4
  {
    if HeaderWhole(steps) {
      assert At(e, before, Connect(before), Requested);
      q := WholeRunAdvances(e, before, Connect(before), Requested, steps);
    } else {
      Outcome(e, before, steps);
      q := HeaderSplit(steps[1].n);
    }
  }

  /** In every state of every run the connection is in exactly one phase, no callback touches
      freed memory or overruns a buffer, and the callbacks are bounded: by |source| + 4 if the
      header came whole, by two per byte sent otherwise. */
  lemma EveryRunKeepsThePhases(e: Env, before: Server, steps: seq<Step>)
    requires !before.fault && Run(e, Connect(before), steps).Some?
    ensures var sys := Run(e, Connect(before), steps).value;
      && (exists p :: At(e, before, sys, p) && (p.HeaderSplit? <==> !HeaderWhole(steps)))
      && (forall p, q :: At(e, before, sys, p) && At(e, before, sys, q) ==> p == q)
      && !sys.server.fault && !sys.client.fault
    ensures |steps| <= 2 * (SIZEOF_FILEINFO + |e.source|) + 1
    ensures HeaderWhole(steps) ==> |steps| <= |e.source| + 4
  {
    var sys := Run(e, Connect(before), steps).value;
    var phase := PhaseOfRun(e, before, steps);
    forall p, q | At(e, before, sys, p) && At(e, before, sys, q) ensures p == q {
      PhasesExclude(e, before, sys, p, q);
    }
  }

  /** When the server says FIN, writefile ran exactly once, and under the target lie the first
      bytes behind the first delivery, as many as the header it decoded announced. If that
      delivery was the whole header, that is the client's file, nothing was logged and nothing
      left behind; and until then no byte of it is lost, repeated or out of order. */
  lemma FinMeansStored(e: Env, before: Server, steps: seq<Step>)
    requires !before.fault && Run(e, Connect(before), steps).Some?
    ensures var sys := Run(e, Connect(before), steps).value;
      && (sys.server.status == FIN ==>
            && |steps| >= 2 && steps[1].Deliver? && 1 <= steps[1].n <= SIZEOF_FILEINFO && sys.server.writes == 1
            && var r := ReadingOf(e, steps[1].n);
               r.finfo.size <= |r.content| && sys.server.disk == before.disk[e.Target() := r.content[..r.finfo.size]])
      && (sys.server.status == FIN && HeaderWhole(steps) ==>
            Stored(e, before, sys.server) && sys.server.input == [] && sys.wire == [])
      && (sys.server.status == DATA && sys.server.writes == 0 && HeaderWhole(steps) ==>
            sys.client.buf.Live? && sys.server.input + sys.wire + sys.client.buf.bytes == e.source)
  {
    var q := PhaseOfRun(e, before, steps);
    var sys := Run(e, Connect(before), steps).value;
    if |steps| >= 2 {
      Outcome(e, before, steps);
      if sys.server.status == FIN {
        FinChunk(e, before, ReadingOf(e, steps[1].n), sys);
      }
    }
    assert q == DataRequested ==> sys.server.input + sys.wire + sys.client.buf.bytes == e.source;
    assert q == Streaming ==> sys.server.input + sys.wire + [] == e.source;
  }

  lemma FinChunk(e: Env, before: Server, r: Reading, sys: System)
    requires Receiving(e, before, r, sys) && sys.server.status == FIN
    ensures r.finfo.size <= |r.content| && sys.server.disk == before.disk[e.Target() := r.content[..r.finfo.size]]
    ensures Chunk(r, 1) == r.content[..r.finfo.size]
  {
    assert Drained(r.finfo.size, 1) == r.finfo.size;
    assert Chunk(r, 1) == r.content[..r.finfo.size];
  }

  lemma RestingPhases(e: Env, before: Server, sys: System, p: Phase)
    requires At(e, before, sys, p)
    ensures Quiescent(sys) <==>
      || p == Finished || p == Starved || (p == Streaming && e.source == [])
      || (p.HeaderSplit? && sys.wire == [] && sys.words == [])
  {
    if p.HeaderSplit? {
      RestsExactly(e, before, ReadingOf(e, p.k), sys);
    } else {
      assert !Enabled(sys, ClientReads) ==> p in {HeaderSent, Streaming, Finished, Starved};
      assert !Enabled(sys, Deliver(|sys.wire|)) ==> sys.wire == [];
    }
  }

  /** Where a run can stop: file stored and client buffer freed; both sides waiting in DATA for
      an empty file; both sides waiting in DATA after the disk refused part of the file, since
      the buffer that a repeated request would send again has been drained; or, after a split
      header, once everything in flight has arrived. */
  lemma StuckStates(e: Env, before: Server, steps: seq<Step>)
    requires !before.fault && Run(e, Connect(before), steps).Some?
    ensures var sys := Run(e, Connect(before), steps).value;
      Quiescent(sys) <==>
        || At(e, before, sys, Finished)
        || At(e, before, sys, Starved)
        || (At(e, before, sys, Streaming) && e.source == [])
        || (!HeaderWhole(steps) && sys.wire == [] && sys.words == [])
  {
    var sys := Run(e, Connect(before), steps).value;
    var q := PhaseOfRun(e, before, steps);
    RestingPhases(e, before, sys, q);
    forall p | At(e, before, sys, p) ensures p == q {
      PhasesExclude(e, before, sys, p, q);
    }
  }

  /** A run that has come to rest after a whole header has stored the file exactly when there was
      one to send and room for it. */
  lemma CompletionExactly(e: Env, before: Server, steps: seq<Step>)
    requires !before.fault && HeaderWhole(steps) && Run(e, Connect(before), steps).Some?
    requires Quiescent(Run(e, Connect(before), steps).value)
    ensures var sys := Run(e, Connect(before), steps).value;
      At(e, before, sys, Finished) <==> 0 < |e.source| <= e.room
  {
    StuckStates(e, before, steps);
  }

  /** By then writefile has run once, or for an empty file never. */
  lemma RestedWrites(e: Env, before: Server, steps: seq<Step>)
    requires !before.fault && HeaderWhole(steps) && Run(e, Connect(before), steps).Some?
    requires Quiescent(Run(e, Connect(before), steps).value)
    ensures Run(e, Connect(before), steps).value.server.writes == if e.source == [] then 0 else 1
  {
    StuckStates(e, before, steps);
  }

  // ---- Every segmentation is a run

  /** One delivery per segment. */
  function Deliveries(segments: seq<seq<byte>>): seq<Step> {
    if segments == [] then [] else [Deliver(|segments[0]|)] + Deliveries(segments[1..])
  }

  lemma {:induction false} StreamingRun(e: Env, before: Server, sys: System, segments: seq<seq<byte>>, after: seq<Step>)
      returns (end: System)
    requires At(e, before, sys, Streaming) && segments != [] && NonEmpty(segments) && sys.wire == Flatten(segments)
    ensures Run(e, sys, Deliveries(segments) + after) == Run(e, end, after)
    ensures At(e, before, end, PhaseWritten(e))
    decreases |segments|
  {
    var step, rest := Deliver(|segments[0]|), segments[1..];
    end := Next(e, sys, step);
    AppendAssociative([step], Deliveries(rest), after);
    RunStep(e, sys, step, Deliveries(rest) + after);
    if rest == [] {
      LastPieceArrives(e, before, sys);
      assert Deliveries(rest) + after == after;
    } else {
      assert rest[0] != [] && Flatten(rest) != [];
      PieceArrives(e, before, sys, |segments[0]|);
      end := StreamingRun(e, before, end, rest, after);
    }
  }

  /** However the network cuts the content, delivering the pieces one by one completes the
      transfer, or leaves it starved if the disk is too small. */
  lemma EverySegmentationIsARun(e: Env, before: Server, segments: seq<seq<byte>>)
    requires !before.fault && segments != [] && NonEmpty(segments) && Flatten(segments) == e.source
    ensures var steps := [ClientReads] + ([Deliver(SIZEOF_FILEINFO)] + ([ClientReads] + (Deliveries(segments) + [ClientReads])));
      var r := Run(e, Connect(before), steps);
      r.Some? && At(e, before, r.value, if |e.source| <= e.room then Finished else Starved)
  {
    var tail := Deliveries(segments) + [ClientReads];
    var d := Prologue(e, before, tail);
    var end := StreamingRun(e, before, d, segments, [ClientReads]);
    Epilogue(e, before, end, PhaseWritten(e));
  }

  /** The last status word. */
  lemma Epilogue(e: Env, before: Server, sys: System, p: Phase)
    requires At(e, before, sys, p) && p in {Phase.Written, Refused}
    ensures Run(e, sys, [ClientReads]) == Some(Next(e, sys, ClientReads))
    ensures At(e, before, Next(e, sys, ClientReads), if p == Phase.Written then Finished else Starved)
  {
    StepAdvances(e, before, sys, p, ClientReads);
    assert [ClientReads] + [] == [ClientReads];
    RunStep(e, sys, ClientReads, []);
  }

  /** The exchange before the content: request, header, request. */
  lemma Prologue(e: Env, before: Server, tail: seq<Step>) returns (d: System)
    requires !before.fault && e.source != []
    ensures Run(e, Connect(before), [ClientReads] + ([Deliver(SIZEOF_FILEINFO)] + ([ClientReads] + tail))) == Run(e, d, tail)
    ensures At(e, before, d, Streaming) && d.wire == e.source
  {
    var a := Connect(before);
    StepAdvances(e, before, a, Requested, ClientReads);
    RunStep(e, a, ClientReads, [Deliver(SIZEOF_FILEINFO)] + ([ClientReads] + tail));
    var b := Next(e, a, ClientReads);
    StepAdvances(e, before, b, HeaderSent, Deliver(SIZEOF_FILEINFO));
    RunStep(e, b, Deliver(SIZEOF_FILEINFO), [ClientReads] + tail);
    var c := Next(e, b, Deliver(SIZEOF_FILEINFO));
    StepAdvances(e, before, c, DataRequested, ClientReads);
    RunStep(e, c, ClientReads, tail);
    d := Next(e, c, ClientReads);
  }
}
