/** Neither callback reassembles the header: exactly when the C server ends with the client's file
    although the network split it, and two ways in which it does not. */
module CSplitHeader {
  import opened Bytes
  import opened CFileInfo
  import opened CInterface
  import opened CProtocol
  import opened CRuns
  import opened CProtocolProofs

  // ---- Exactly when the file is in place

  /** The server has answered FIN and holds the client's file under the client's name. */
  predicate Holds(e: Env, before: Server, sys: System) {
    sys.server.status == FIN && sys.server.disk == before.disk[e.Target() := e.source]
  }

  /** Byte i of late with the source behind it. */
  function Shifted(late: seq<byte>, source: seq<byte>, i: nat): byte
    requires i < |source|
  {
    if i < |late| then late[i] else source[i - |late|]
  }

  /** Putting late in front of the source changes none of the source's positions. */
  predicate Repeats(late: seq<byte>, source: seq<byte>) {
    forall i :: 0 <= i < |source| ==> source[i] == Shifted(late, source, i)
  }

  lemma RepeatsExactly(late: seq<byte>, source: seq<byte>)
    ensures (late + source)[..|source|] == source <==> Repeats(late, source)
  {
    assert forall i :: 0 <= i < |source| ==> (late + source)[..|source|][i] == Shifted(late, source, i);
  }

  /** The bytes a schedule delivers. */
  function Arrived(steps: seq<Step>): nat
    decreases |steps|
  {
    if steps == [] then 0 else (if steps[0].Deliver? then steps[0].n else 0) + Arrived(steps[1..])
  }

  /** Delivery i brings the buffered bytes, have of them at the start, to size. */
  predicate Completes(steps: seq<Step>, have: nat, size: nat, i: int) {
    0 <= i < |steps| && steps[i].Deliver? && have + Arrived(steps[..i + 1]) == size
  }

  lemma CompletesLater(steps: seq<Step>, have: nat, size: nat, i: nat)
    requires steps != []
    ensures Completes(steps, have, size, i + 1) <==> Completes(steps[1..], have + Arrived(steps[..1]), size, i)
  {
    if i + 1 < |steps| {
      assert steps[..(i + 1) + 1][1..] == steps[1..][..i + 1] && steps[..1][1..] == [];
    }
  }

  /** If the announced size fits the disk, the length test is met exactly if some delivery brings
      the total to that size. */
  lemma {:induction false} MeetsTheLengthTest(steps: seq<Step>, have: nat, size: nat)
    ensures Firings(steps, have, size, true) > 0 <==> exists i :: Completes(steps, have, size, i)
    decreases |steps|
  {
    if steps != [] {
      var have' := have + Arrived(steps[..1]);
      assert steps[..1][1..] == [];
      MeetsTheLengthTest(steps[1..], have', size);
      assert Completes(steps, have, size, 0) <==> steps[0].Deliver? && have' == size;
      if j :| Completes(steps[1..], have', size, j) {
        CompletesLater(steps, have, size, j);
      }
      if i :| Completes(steps, have, size, i) && i > 0 {
        CompletesLater(steps, have, size, i - 1);
      }
    }
  }

  /** The file is in place after a run exactly if the length test was met, the announced size
      fits the disk, and that many bytes behind the first delivery are the source. */
  lemma HoldsExactly(e: Env, before: Server, steps: seq<Step>)
    requires !before.fault && Run(e, Connect(before), steps).Some? && |steps| >= 2
    ensures steps[1].Deliver? && 1 <= steps[1].n <= SIZEOF_FILEINFO
    ensures var r := ReadingOf(e, steps[1].n);
      Holds(e, before, Run(e, Connect(before), steps).value)
      <==> 0 < r.finfo.size <= e.room && Firings(steps[2..], 0, r.finfo.size, true) > 0
           && Take(r.content, r.finfo.size) == e.source
  {
    Outcome(e, before, steps);
    var sys, r := Run(e, Connect(before), steps).value, ReadingOf(e, steps[1].n);
    if sys.server.status == FIN {
      FinChunk(e, before, r, sys);
      assert before.disk[e.Target() := Take(r.content, r.finfo.size)][e.Target()] == Take(r.content, r.finfo.size);
      assert before.disk[e.Target() := e.source][e.Target()] == e.source;
    }
  }

  /** A run that has come to rest leaves the client's file in place exactly if the file is not
      empty, fits the disk, and either the first delivery was the whole header, or it held all of
      the size that matters, the deliveries behind it meet the length test, and the source repeats
      the header bytes that came late. */
  lemma StoredExactly(e: Env, before: Server, steps: seq<Step>)
    requires !before.fault && Run(e, Connect(before), steps).Some?
    requires Quiescent(Run(e, Connect(before), steps).value)
    ensures |steps| >= 2 && steps[1].Deliver? && 1 <= steps[1].n <= SIZEOF_FILEINFO
    ensures var k := steps[1].n;
      Holds(e, before, Run(e, Connect(before), steps).value)
      <==> 0 < |e.source| <= e.room
           && (k == SIZEOF_FILEINFO
               || (Parsed(e, k).size == |e.source| && Firings(steps[2..], 0, |e.source|, true) > 0
                   && Repeats(Image(e.Header())[k..], e.source)))
  {
    RestingRunHasTwoSteps(e, before, steps);
    HoldsExactly(e, before, steps);
    var k := steps[1].n;
    if k == SIZEOF_FILEINFO {
      ParsedWhole(e);
      if 0 < |e.source| <= e.room {
        CompletionExactly(e, before, steps);
      }
    } else {
      SplitSourceExactly(e, k);
    }
  }

  lemma SplitSourceExactly(e: Env, k: nat)
    requires k < SIZEOF_FILEINFO
    ensures var r := ReadingOf(e, k);
      Take(r.content, r.finfo.size) == e.source
      <==> r.finfo.size == |e.source| && Repeats(Image(e.Header())[k..], e.source)
  {
    ParsedCut(e, k);
    RepeatsExactly(Image(e.Header())[k..], e.source);
  }

  // ---- Exactly when everything was read as well

  /** The file is in place, and the server has read every byte it was sent. */
  predicate Consumed(e: Env, before: Server, sys: System) {
    Holds(e, before, sys) && sys.server.input == [] && sys.wire == []
  }

  /** A resting server has the file and nothing left unread exactly if the header's 280 bytes
      arrived in one piece, the file is not empty and the disk takes it. */
  lemma ConsumedExactly(e: Env, before: Server, steps: seq<Step>)
    requires !before.fault && Run(e, Connect(before), steps).Some?
    requires Quiescent(Run(e, Connect(before), steps).value)
    ensures |steps| >= 2
    ensures Consumed(e, before, Run(e, Connect(before), steps).value)
      <==> steps[1] == Deliver(SIZEOF_FILEINFO) && 0 < |e.source| <= e.room
  {
    RestingRunHasTwoSteps(e, before, steps);
    StoredExactly(e, before, steps);
    var k, sys := steps[1].n, Run(e, Connect(before), steps).value;
    if k == SIZEOF_FILEINFO {
      StuckStates(e, before, steps);
    } else if sys.server.status == FIN {
      Outcome(e, before, steps);
      SplitFinLeavesBytes(e, before, sys, k);
    }
  }

  lemma SplitFinLeavesBytes(e: Env, before: Server, sys: System, k: nat)
    requires 1 <= k < SIZEOF_FILEINFO && Receiving(e, before, ReadingOf(e, k), sys)
    requires Quiescent(sys) && sys.server.status == FIN
    ensures |sys.server.input| >= SIZEOF_FILEINFO - k
  {
    RestsExactly(e, before, ReadingOf(e, k), sys);
    SplitLeavesMore(e, before, sys, k);
  }

  // ---- Late bytes of the digest

  const NAME_AND_SIZE: nat := MAXLEN + 8

  /** The server decodes a header that lacks only bytes of the digest as one whose digest ends
      in zeros. */
  lemma LateDigest(e: Env, k: nat)
    requires NAME_AND_SIZE <= k <= SIZEOF_FILEINFO
    ensures Parsed(e, k) == e.Header().(info := e.Header().info[..k - NAME_AND_SIZE] + Zeros(SIZEOF_FILEINFO - k))
    ensures Image(e.Header())[k..] == e.Header().info[k - NAME_AND_SIZE..]
  {
    var f := e.Header();
    var g := f.(info := f.info[..k - NAME_AND_SIZE] + Zeros(SIZEOF_FILEINFO - k));
    ImageOfZero();
    assert Image(f)[..k] + Image(ZERO_FILEINFO)[k..] == Image(g);
    OverlayInvertsImage(g);
  }

  /** The exchange up to the first bytes of the content: header cut at k, and the request for the
      data. */
  lemma CutPrologue(e: Env, before: Server, k: nat, tail: seq<Step>) returns (sys: System)
    requires !before.fault && 1 <= k < SIZEOF_FILEINFO
    ensures Run(e, Connect(before), [ClientReads] + ([Deliver(k)] + ([ClientReads] + tail))) == Run(e, sys, tail)
    ensures Receiving(e, before, ReadingOf(e, k), sys)
    ensures sys.server.writes == 0 && sys.server.input == [] && sys.words == [] && sys.client == Client(DATA, Live([]), true, false)
    ensures sys.wire == Content(e, k)
  {
    var a := Next(e, Connect(before), ClientReads);
    Begins(e, before, k);
    HeadCallback(e, a, k);
    var b := Next(e, a, Deliver(k));
    ReadKeeps(e, before, ReadingOf(e, k), b);
    sys := Next(e, b, ClientReads);
    RunStep(e, Connect(before), ClientReads, [Deliver(k)] + ([ClientReads] + tail));
    RunStep(e, a, Deliver(k), [ClientReads] + tail);
    RunStep(e, b, ClientReads, tail);
  }

  /** One schedule on which late bytes strand both sides: they arrive with the whole content, the
      length test is passed over and the server waits in DATA for ever. */
  lemma LateBytesStrandTheServer(e: Env, before: Server, k: nat)
    requires !before.fault && 0 < |e.source| && NAME_AND_SIZE <= k < SIZEOF_FILEINFO
    ensures var steps := [ClientReads] + ([Deliver(k)] + ([ClientReads] + [Deliver(SIZEOF_FILEINFO - k + |e.source|)]));
      && Run(e, Connect(before), steps).Some?
      && var sys := Run(e, Connect(before), steps).value;
         && Quiescent(sys) && sys.server.status == DATA && sys.server.disk == before.disk
         && |sys.server.input| == SIZEOF_FILEINFO - k + |e.source|
  {
    var n := SIZEOF_FILEINFO - k + |e.source|;
    var c := CutPrologue(e, before, k, [Deliver(n)]);
    LateDigest(e, k);
    assert |c.wire| == n && c.server.disk == before.disk;
    RestsBeyondTheTest(e, before, ReadingOf(e, k), c);
  }

  /** Delivering everything at once, and more than was announced, brings both sides to rest. */
  lemma RestsBeyondTheTest(e: Env, before: Server, r: Reading, sys: System)
    requires Receiving(e, before, r, sys) && sys.server.status == DATA && sys.server.input == [] && sys.words == []
    requires |sys.wire| > r.finfo.size
    ensures var end := sys.(server := sys.server.(input := sys.wire), wire := []);
      Quiescent(end) && Run(e, sys, [Deliver(|sys.wire|)]) == Some(end)
  {
    var n := |sys.wire|;
    assert [] + sys.wire[..n] == sys.wire && sys.wire[n..] == [];
    QuietDeliveryKeeps(e, before, r, sys, n);
    assert [Deliver(n)] == [Deliver(n)] + [];
    RunStep(e, sys, Deliver(n), []);
    RestsExactly(e, before, r, Next(e, sys, Deliver(n)));
  }

  /** What the server stores when the first |source| bytes behind a header cut at k come in one
      piece. */
  function Corrupted(e: Env, k: nat): seq<byte>
    requires NAME_AND_SIZE <= k <= SIZEOF_FILEINFO
  {
    (e.md5.Sum(e.source)[k - NAME_AND_SIZE..] + e.source)[..|e.source|]
  }

  /** One schedule on which late bytes corrupt the file: the length test is met before the content
      is there in full. The server writes the late digest bytes and the head of the file under the
      client's name, answers FIN, and the client frees its buffer; a digest mismatch is at most
      logged. */
  lemma LateBytesCorruptTheFile(e: Env, before: Server, k: nat)
    requires !before.fault && 0 < |e.source| <= e.room && NAME_AND_SIZE <= k < SIZEOF_FILEINFO
    ensures var late := SIZEOF_FILEINFO - k;
      var steps := [ClientReads] + ([Deliver(k)] + ([ClientReads] + [Deliver(|e.source|), ClientReads, Deliver(late)]));
      && Run(e, Connect(before), steps).Some?
      && var sys := Run(e, Connect(before), steps).value;
         && Quiescent(sys) && sys.server.status == FIN && sys.client == Client(INIT, Freed, false, false)
         && sys.server.disk == before.disk[e.Target() := Corrupted(e, k)]
         && sys.server.log == before.log
              + if e.md5.Sum(Corrupted(e, k)) == e.md5.Sum(e.source)[..k - NAME_AND_SIZE] + Zeros(late) then []
                else [FileContentIncorrect]
    ensures Corrupted(e, k) == e.source <==> Repeats(e.md5.Sum(e.source)[k - NAME_AND_SIZE..], e.source)
  {
    var n, late, r := |e.source|, SIZEOF_FILEINFO - k, ReadingOf(e, k);
    var c := CutPrologue(e, before, k, [Deliver(n), ClientReads, Deliver(late)]);
    LateDigest(e, k);
    TargetSurvives(e);
    FiringDeliveryKeeps(e, before, r, c, n);
    var d := Next(e, c, Deliver(n));
    ReadKeeps(e, before, r, d);
    var f := Next(e, d, ClientReads);
    QuietDeliveryKeeps(e, before, r, f, late);
    var g := Next(e, f, Deliver(late));
    assert [Deliver(n), ClientReads, Deliver(late)] == [Deliver(n)] + ([ClientReads] + ([Deliver(late)] + []));
    RunStep(e, c, Deliver(n), [ClientReads] + ([Deliver(late)] + []));
    RunStep(e, d, ClientReads, [Deliver(late)] + []);
    RunStep(e, f, Deliver(late), []);
    RestsExactly(e, before, r, g);
    FinChunk(e, before, r, g);
    RepeatsExactly(e.md5.Sum(e.source)[k - NAME_AND_SIZE..], e.source);
  }

  /** One late byte: the file is moved up by one, which goes unnoticed only if each of its bytes
      is the last byte of its digest. */
  lemma OneLateByte(e: Env)
    requires e.source != []
    ensures Corrupted(e, SIZEOF_FILEINFO - 1) == [e.md5.Sum(e.source)[15]] + e.source[..|e.source| - 1]
    ensures Corrupted(e, SIZEOF_FILEINFO - 1) == e.source <==> forall i :: 0 <= i < |e.source| ==> e.source[i] == e.md5.Sum(e.source)[15]
  {
    var late, source := e.md5.Sum(e.source)[15..], e.source;
    assert late == [e.md5.Sum(e.source)[15]];
    RepeatsExactly(late, source);
    if Repeats(late, source) {
      ShiftedByOne(late[0], source, |source|);
    }
  }

  lemma {:induction false} ShiftedByOne(b: byte, source: seq<byte>, n: nat)
    requires Repeats([b], source) && n <= |source|
    ensures forall i :: 0 <= i < n ==> source[i] == b
  {
    if n > 0 {
      ShiftedByOne(b, source, n - 1);
      assert source[n - 1] == Shifted([b], source, n - 1);
    }
  }

  /** Thus writefile does meet a wrong digest, and its result is not the documented one: with one
      late byte the server answers FIN to it, unless the digest of what is stored ends in zero. */
  lemma MismatchIsAnsweredWithFin(e: Env, before: Server) returns (steps: seq<Step>)
    requires !before.fault && 0 < |e.source| <= e.room
    requires e.md5.Sum(Corrupted(e, SIZEOF_FILEINFO - 1))[15] != 0
    ensures Run(e, Connect(before), steps).Some?
    ensures var sys, stored := Run(e, Connect(before), steps).value, Corrupted(e, SIZEOF_FILEINFO - 1);
      && sys.server.status == FIN && sys.client.buf == Freed
      && sys.server.disk == before.disk[e.Target() := stored] && sys.server.log == before.log + [FileContentIncorrect]
      && WriteOutcome(e.md5, sys.server.finfo.info, stored, e.room).result == 0
      && DocumentedResult(e.md5, sys.server.finfo.info, stored, e.room) == 1
  {
    var n := |e.source|;
    steps := [ClientReads] + ([Deliver(SIZEOF_FILEINFO - 1)] + ([ClientReads] + [Deliver(n), ClientReads, Deliver(1)]));
    LateBytesCorruptTheFile(e, before, SIZEOF_FILEINFO - 1);
    LateDigest(e, SIZEOF_FILEINFO - 1);
    Outcome(e, before, steps);
  }
}
