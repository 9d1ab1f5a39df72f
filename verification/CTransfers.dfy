/** Any number of connections, one after the other: the server's disk and log are the fold of the
    transfers, whatever state earlier ones left behind. */
module CTransfers {
  import opened Bytes
  import opened CFileInfo
  import opened CInterface
  import opened CProtocol
  import opened CRuns
  import opened CProtocolProofs

  datatype Transfer = Transfer(env: Env, steps: seq<Step>)

  /** The transfers one after the other; None when a schedule is impossible. */
  function ServeAll(s: Server, ts: seq<Transfer>): Option<Server>
    decreases |ts|
  {
    if ts == [] then Some(s)
    else
      match Run(ts[0].env, Connect(s), ts[0].steps)
      case None => None
      case Some(sys) => ServeAll(sys.server, ts[1..])
  }

  // ---- One transfer

  /** The bytes of its first delivery, as many of them as the header holds. */
  function FirstPiece(t: Transfer): (k: nat)
    ensures k <= SIZEOF_FILEINFO
  {
    if |t.steps| >= 2 && t.steps[1].Deliver? then Min(t.steps[1].n, SIZEOF_FILEINFO) else 0
  }

  function Read(t: Transfer): Reading {
    ReadingOf(t.env, FirstPiece(t))
  }

  /** The runs of writefile during a transfer: deliveries that meet the length test. */
  function Writes(t: Transfer): nat {
    if |t.steps| < 2 then 0
    else Firings(t.steps[2..], 0, Read(t).finfo.size, Read(t).finfo.size <= t.env.room)
  }

  /** What a transfer leaves under its target: nothing new, or the last chunk it wrote, as far as
      the disk took it. */
  function Leaves(t: Transfer): Option<seq<byte>> {
    if Writes(t) == 0 then None else Some(Take(Chunk(Read(t), Writes(t)), t.env.room))
  }

  function Complains(t: Transfer): seq<Complaint> {
    Complaints(t.env, Read(t), Writes(t))
  }

  /** One transfer to or from any state: no memory error, and disk and log change as said. */
  lemma OneTransfer(s: Server, t: Transfer)
    requires !s.fault && Run(t.env, Connect(s), t.steps).Some?
    ensures var s' := Run(t.env, Connect(s), t.steps).value.server;
      s'.disk == Put(s.disk, t) && s'.log == s.log + Complains(t) && !s'.fault
  {
    if |t.steps| >= 2 {
      Outcome(t.env, s, t.steps);
    } else {
      FirstTwoSteps(t.env, s, t.steps);
      NothingYet(s, t);
    }
  }

  lemma NothingYet(s: Server, t: Transfer)
    requires !s.fault && Run(t.env, Connect(s), t.steps).Some? && |t.steps| < 2
    ensures var s' := Run(t.env, Connect(s), t.steps).value.server;
      s'.disk == s.disk && s'.log == s.log && !s'.fault
    ensures Complains(t) == []
  {
    if t.steps != [] {
      assert t.steps[1..] == [];
    }
  }

  /** A rested transfer whose header came whole leaves the source, or as much of it as the disk
      took together with a complaint, or nothing at all if the source is empty. */
  lemma WholeTransfer(s: Server, t: Transfer)
    requires !s.fault && Run(t.env, Connect(s), t.steps).Some? && HeaderWhole(t.steps)
    requires Quiescent(Run(t.env, Connect(s), t.steps).value)
    ensures Leaves(t) == if t.env.source == [] then None else Some(Take(t.env.source, t.env.room))
    ensures Complains(t) == if |t.env.source| <= t.env.room then [] else [FileWriteError]
  {
    WholeWrites(s, t);
    ParsedWhole(t.env);
    if t.env.source != [] {
      var r := Read(t);
      assert Drained(r.finfo.size, 0) == 0 && r.content[0..] == r.content;
      assert Chunk(r, 1) == t.env.source;
    }
  }

  lemma WholeWrites(s: Server, t: Transfer)
    requires !s.fault && Run(t.env, Connect(s), t.steps).Some? && HeaderWhole(t.steps)
    requires Quiescent(Run(t.env, Connect(s), t.steps).value)
    ensures FirstPiece(t) == SIZEOF_FILEINFO
    ensures Writes(t) == if t.env.source == [] then 0 else 1
  {
    RestingRunHasTwoSteps(t.env, s, t.steps);
    Outcome(t.env, s, t.steps);
    RestedWrites(t.env, s, t.steps);
  }

  // ---- All of them

  function Put(disk: Disk, t: Transfer): Disk {
    if Leaves(t).Some? then disk[t.env.Target() := Leaves(t).value] else disk
  }

  function FoldDisk(disk: Disk, ts: seq<Transfer>): Disk
    decreases |ts|
  {
    if ts == [] then disk else FoldDisk(Put(disk, ts[0]), ts[1..])
  }

  function FoldLog(ts: seq<Transfer>): seq<Complaint>
    decreases |ts|
  {
    if ts == [] then [] else Complains(ts[0]) + FoldLog(ts[1..])
  }

  /** Disk and log afterwards depend on nothing but what they were before and the transfers, and
      the server never touches memory it must not: whatever became of earlier transfers, however
      the network cut headers and contents, and wherever a connection broke off. */
  lemma {:induction false} DiskIsTheFold(s: Server, ts: seq<Transfer>)
    requires !s.fault && ServeAll(s, ts).Some?
    ensures var end := ServeAll(s, ts).value;
      end.disk == FoldDisk(s.disk, ts) && end.log == s.log + FoldLog(ts) && !end.fault
    decreases |ts|
  {
    if ts == [] {
      assert s.log + [] == s.log;
    } else {
      OneTransfer(s, ts[0]);
      var s' := Run(ts[0].env, Connect(s), ts[0].steps).value.server;
      DiskIsTheFold(s', ts[1..]);
      AppendAssociative(s.log, Complains(ts[0]), FoldLog(ts[1..]));
    }
  }

  predicate WritesTo(t: Transfer, name: seq<byte>) {
    Leaves(t).Some? && t.env.Target() == name
  }

  /** Under each name the last transfer that wrote to it wins; other names keep what they had. */
  lemma {:induction false} LastWriterWins(disk: Disk, ts: seq<Transfer>, name: seq<byte>, last: int)
    requires -1 <= last < |ts|
    requires last >= 0 ==> WritesTo(ts[last], name)
    requires forall i :: last < i < |ts| ==> !WritesTo(ts[i], name)
    ensures last >= 0 ==> name in FoldDisk(disk, ts) && Some(FoldDisk(disk, ts)[name]) == Leaves(ts[last])
    ensures last < 0 ==> (name in FoldDisk(disk, ts) <==> name in disk)
    ensures last < 0 && name in disk ==> FoldDisk(disk, ts)[name] == disk[name]
    decreases |ts|
  {
    if ts != [] {
      LastWriterWins(Put(disk, ts[0]), ts[1..], name, if last > 0 then last - 1 else -1);
    }
  }
}
