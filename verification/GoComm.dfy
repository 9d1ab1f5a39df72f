/** go/util/comm.go: cutting a file into chunks, sending them, and putting reads together again. */
module GoComm {
  import opened Bytes
  import opened Net

  const VARSIZE: nat := 1024

  lemma FirstBlock(src: seq<byte>, at: nat, b: nat)
    requires b > 0 && at + b <= |src|
    ensures Blocks(src[at..], b) == [src[at..at + b]] + Blocks(src[at + b..], b)
  {
    assert Take(src[at..], b) == src[at..at + b] && Drop(src[at..], b) == src[at + b..];
  }

  lemma ShortTail(s: seq<byte>, b: nat)
    requires |s| < b
    ensures Blocks(s, b) == if s == [] then [] else [s]
  {
  }

  /** NewBufferList: full chunks, then what is left, if anything. */
  method NewBufferList(src: seq<byte>) returns (lst: seq<seq<byte>>)
    ensures lst == Blocks(src, VARSIZE)
    ensures Flatten(lst) == src && Blocked(lst, 1024) && IsCeiling(|lst|, |src|, 1024)
  {
    BlocksCutTheStream(src, VARSIZE);
    BlocksCount(src, VARSIZE);
    ghost var blocks := Blocks(src, VARSIZE);
    lst := [];
    var lens := |src|;
    var n := lens / VARSIZE;
    ghost var at := 0;
    assert src[0..] == src;
    for i := 0 to n
      invariant at == i * VARSIZE <= lens
      invariant lst + Blocks(src[at..], VARSIZE) == blocks
    {
      FirstBlock(src, at, VARSIZE);
      AppendAssociative(lst, [src[at..at + VARSIZE]], Blocks(src[at + VARSIZE..], VARSIZE));
      lst := lst + [src[i * VARSIZE..(i + 1) * VARSIZE]];
      at := at + VARSIZE;
    }
    ShortTail(src[at..], VARSIZE);
    if lens - n * VARSIZE > 0 {
      lst := lst + [src[n * VARSIZE..]];
    }
  }

  /** The sending end of a connection. Write takes the whole slice. */
  class Sink {
    var sent: seq<byte>
    var writes: nat

    constructor ()
      ensures sent == [] && writes == 0
    {
      sent, writes := [], 0;
    }

    method Write(p: seq<byte>)
      modifies this
      ensures sent == old(sent) + p && writes == old(writes) + 1
    {
      sent, writes := sent + p, writes + 1;
    }
  }

  /** SendData: exactly the source goes on the wire, in ceil(length / 1024) writes. */
  method SendData(conn: Sink, src: seq<byte>)
    modifies conn
    ensures conn.sent == old(conn.sent) + src
    ensures old(conn.writes) <= conn.writes && IsCeiling(conn.writes - old(conn.writes), |src|, 1024)
  {
    var lst := NewBufferList(src);
    var e := 0;
    assert lst[0..] == lst;
    while e < |lst|
      invariant 0 <= e <= |lst|
      invariant conn.sent + Flatten(lst[e..]) == old(conn.sent) + src
      invariant conn.writes == old(conn.writes) + e
    {
      assert lst[e..][1..] == lst[e + 1..];
      AppendAssociative(conn.sent, lst[e], Flatten(lst[e + 1..]));
      conn.Write(lst[e]);
      e := e + 1;
    }
  }

  /** The reads that Read into a buffer of max bytes makes of what arrives. */
  function Reads(segments: seq<seq<byte>>, max: nat): seq<seq<byte>>
    requires NonEmpty(segments) && max > 0
    decreases |Flatten(segments)|
  {
    if segments == [] then []
    else
      ReadTakesFront(segments, max);
      [Take(segments[0], max)] + Reads(AfterRead(segments, max), max)
  }

  lemma ReadTakesFront(segments: seq<seq<byte>>, max: nat)
    requires segments != [] && segments[0] != [] && max > 0
    ensures Flatten(segments) == Take(segments[0], max) + Flatten(AfterRead(segments, max))
    ensures 0 < |Take(segments[0], max)| <= max
  {
    if |segments[0]| > max {
      assert segments[0] == segments[0][..max] + segments[0][max..];
      AppendAssociative(segments[0][..max], segments[0][max..], Flatten(segments[1..]));
    }
  }

  /** The stream cut or padded with zeros to a given size. */
  function Fill(s: seq<byte>, size: nat): (f: seq<byte>)
    ensures |f| == size
  {
    Take(s, size) + Zeros(size - |Take(s, size)|)
  }

  datatype Received = Data(bytes: seq<byte>) | Panic | Fatal

  /** RecvData runs out of its slice exactly when a read follows more than size bytes, or when
      size is negative. */
  predicate OutOfRange(got: seq<seq<byte>>, size: int) {
    size < 0 || (got != [] && |Flatten(got[..|got| - 1])| > size)
  }

  function Reassembled(segments: seq<seq<byte>>, ending: Ending, size: int): Received
    requires NonEmpty(segments)
  {
    if OutOfRange(Reads(segments, 2 * VARSIZE), size) then Panic
    else if ending == Broken then Fatal
    else Data(Fill(Flatten(segments), size))
  }

  lemma FillAt(s: seq<byte>, size: nat, i: nat)
    requires i < size
    ensures Fill(s, size)[i] == if i < |s| then s[i] else 0
  {
  }

  /** Of what was to arrive, done has been read, each read begun within the slice. */
  ghost predicate Progress(all: seq<seq<byte>>, size: nat, done: seq<seq<byte>>, rest: seq<seq<byte>>) {
    && NonEmpty(all) && NonEmpty(rest)
    && done + Reads(rest, 2 * VARSIZE) == Reads(all, 2 * VARSIZE)
    && (done != [] ==> |Flatten(done[..|done| - 1])| <= size)
  }

  lemma ProgressGoesOn(all: seq<seq<byte>>, size: nat, done: seq<seq<byte>>, rest: seq<seq<byte>>)
    requires Progress(all, size, done, rest) && rest != [] && |Flatten(done)| <= size
    ensures var piece := Take(rest[0], 2 * VARSIZE);
      && Progress(all, size, done + [piece], AfterRead(rest, 2 * VARSIZE))
      && Flatten(done + [piece]) == Flatten(done) + piece
    ensures |Flatten(AfterRead(rest, 2 * VARSIZE))| < |Flatten(rest)|
  {
    var piece, rest' := Take(rest[0], 2 * VARSIZE), AfterRead(rest, 2 * VARSIZE);
    ReadTakesFront(rest, 2 * VARSIZE);
    FlattenAppend(done, [piece]);
    assert Flatten([piece]) == piece;
    AppendAssociative(done, [piece], Reads(rest', 2 * VARSIZE));
    assert (done + [piece])[..|done|] == done;
  }

  lemma ProgressEnds(all: seq<seq<byte>>, size: nat, done: seq<seq<byte>>, rest: seq<seq<byte>>, ending: Ending)
    requires Progress(all, size, done, rest)
    ensures rest == [] ==>
      Reassembled(all, ending, size) == if ending == Broken then Fatal else Data(Fill(Flatten(done), size))
    ensures rest != [] && |Flatten(done)| > size ==> Reassembled(all, ending, size) == Panic
  {
    if rest == [] {
      ProgressCompletes(all, size, done, ending);
    } else if |Flatten(done)| > size {
      ReadsSomething(rest, 2 * VARSIZE);
      ProgressBeyond(all, size, done, Reads(rest, 2 * VARSIZE), ending);
    }
  }

  lemma ProgressBeyond(all: seq<seq<byte>>, size: nat, done: seq<seq<byte>>, more: seq<seq<byte>>, ending: Ending)
    requires NonEmpty(all) && Reads(all, 2 * VARSIZE) == done + more
    requires more != [] && |Flatten(done)| > size
    ensures Reassembled(all, ending, size) == Panic
  {
    MoreToCome(done, more);
  }

  lemma ReadsSomething(segments: seq<seq<byte>>, max: nat)
    requires NonEmpty(segments) && segments != [] && max > 0
    ensures Reads(segments, max) != []
  {
  }

  lemma ProgressCompletes(all: seq<seq<byte>>, size: nat, done: seq<seq<byte>>, ending: Ending)
    requires Progress(all, size, done, [])
    ensures Reassembled(all, ending, size) == if ending == Broken then Fatal else Data(Fill(Flatten(done), size))
  {
    ReadsFlatten(all, 2 * VARSIZE);
    assert done + [] == done;
  }

  /** RecvData */
  method RecvData(conn: Stream, size: int) returns (r: Received)
    requires conn.Valid()
    modifies conn
    ensures conn.Valid() && r == Reassembled(old(conn.segments), conn.ending, size)
    ensures r.Data? ==> conn.segments == []
  {
    if size < 0 {
      return Panic;
    }
    ghost var all := conn.segments;
    var buf := new byte[2 * VARSIZE];
    var data := new byte[size](_ => 0);
    var cnt := 0;
    ghost var done: seq<seq<byte>> := [];
    assert data[..] == Fill([], size);
    while true
      invariant conn.Valid() && data.Length == size && cnt == |Flatten(done)|
      invariant Progress(all, size, done, conn.segments)
      invariant data[..] == Fill(Flatten(done), size)
      decreases |Flatten(conn.segments)|
    {
      ghost var rest := conn.segments;
      ProgressEnds(all, size, done, rest, conn.ending);
      var n := conn.ReadSome(buf, 0, 2 * VARSIZE);
      if n == 0 {
        if conn.ending != Eof {
          return Fatal;
        }
        return Data(data[..]);
      }
      if cnt > size {
        return Panic;
      }
      ProgressGoesOn(all, size, done, rest);
      assert buf[0..n] == buf[..n] == Take(rest[0], 2 * VARSIZE);
      CopyInto(data, cnt, buf, n, Flatten(done));
      cnt := cnt + n;
      done := done + [buf[..n]];
    }
  }

  /** copy(data[cnt:], buf[:n]), where data holds what came before */
  method CopyInto(data: array<byte>, cnt: nat, buf: array<byte>, n: nat, ghost past: seq<byte>)
    requires cnt == |past| <= data.Length && n <= buf.Length && data != buf
    requires data[..] == Fill(past, data.Length)
    modifies data
    ensures data[..] == Fill(past + buf[..n], data.Length)
  {
    ghost var before, all := data[..], past + buf[..n];
    var k := Min(n, data.Length - cnt);
    forall i | 0 <= i < k {
      data[cnt + i] := buf[i];
    }
    forall i | 0 <= i < data.Length
      ensures data[i] == Fill(all, data.Length)[i]
    {
      FillAt(past, data.Length, i);
      FillAt(all, data.Length, i);
      assert i >= cnt + k || i < cnt ==> data[i] == before[i];
    }
  }

  lemma MoreToCome(done: seq<seq<byte>>, rest: seq<seq<byte>>)
    requires rest != []
    ensures |Flatten((done + rest)[..|done + rest| - 1])| >= |Flatten(done)|
  {
    assert (done + rest)[..|done + rest| - 1] == done + rest[..|rest| - 1];
    FlattenAppend(done, rest[..|rest| - 1]);
  }

  lemma {:induction false} ReadsFlatten(segments: seq<seq<byte>>, max: nat)
    requires NonEmpty(segments) && max > 0
    ensures Flatten(Reads(segments, max)) == Flatten(segments)
    decreases |Flatten(segments)|
  {
    if segments != [] {
      ReadTakesFront(segments, max);
      ReadsFlatten(AfterRead(segments, max), max);
    }
  }

  // ---- All that RecvData does

  /** No read reaches over a segment's end: the reads are the blocks of the segments, one segment
      after the other. */
  lemma {:induction false} ReadsAreBlocks(segment: seq<byte>, rest: seq<seq<byte>>, max: nat)
    requires segment != [] && NonEmpty(rest) && max > 0
    ensures Reads([segment] + rest, max) == Blocks(segment, max) + Reads(rest, max)
    decreases |segment|
  {
    var segments := [segment] + rest;
    assert NonEmpty(segments) && segments[1..] == rest;
    if |segment| > max {
      var tail := segment[max..];
      ReadsAreBlocks(tail, rest, max);
      AppendAssociative([segment[..max]], Blocks(tail, max), Reads(rest, max));
    } else {
      assert Blocks(segment, max) == [segment];
    }
  }

  lemma FlattenGrows(got: seq<seq<byte>>, k: nat, m: nat)
    requires k <= m <= |got|
    ensures |Flatten(got[..k])| <= |Flatten(got[..m])|
  {
    FlattenAppend(got[..k], got[k..m]);
    assert got[..k] + got[k..m] == got[..m];
  }

  lemma {:induction false} ReadsAreShort(segments: seq<seq<byte>>, max: nat)
    requires NonEmpty(segments) && max > 0
    ensures forall i :: 0 <= i < |Reads(segments, max)| ==> 0 < |Reads(segments, max)[i]| <= max
    decreases |Flatten(segments)|
  {
    if segments != [] {
      ReadTakesFront(segments, max);
      ReadsAreShort(AfterRead(segments, max), max);
    }
  }

  /** RecvData panics exactly if size is negative or some read begins beyond it, which more than
      size + 2048 bytes force and size bytes rule out; else it dies exactly on a broken
      stream; else its bytes are those that arrived, cut or padded with zeros to size. */
  lemma ReassembledExactly(segments: seq<seq<byte>>, ending: Ending, size: int)
    requires NonEmpty(segments)
    ensures var r, all, got := Reassembled(segments, ending, size), Flatten(segments), Reads(segments, 2048);
      && (r == Panic <==> size < 0 || exists k :: 0 <= k < |got| && |Flatten(got[..k])| > size)
      && (|all| > size + 2048 ==> r == Panic) && (0 <= size && |all| <= size ==> r != Panic)
      && (r == Fatal <==> r != Panic && ending == Broken)
      && (r.Data? ==> |r.bytes| == size && forall i :: 0 <= i < size ==> r.bytes[i] == if i < |all| then all[i] else 0)
  {
    var got := Reads(segments, 2048);
    ReadsFlatten(segments, 2048);
    ReadsAreShort(segments, 2048);
    if got != [] {
      LastRead(got);
      forall k | 0 <= k < |got| ensures |Flatten(got[..k])| <= |Flatten(got[..|got| - 1])| {
        FlattenGrows(got, k, |got| - 1);
      }
    }
    if size >= 0 {
      forall i | 0 <= i < size ensures Fill(Flatten(segments), size)[i] == if i < |Flatten(segments)| then Flatten(segments)[i] else 0 {
        FillAt(Flatten(segments), size, i);
      }
    }
  }

  lemma LastRead(got: seq<seq<byte>>)
    requires got != []
    ensures |Flatten(got)| == |Flatten(got[..|got| - 1])| + |got[|got| - 1]|
  {
    var last := got[|got| - 1];
    FlattenAppend(got[..|got| - 1], [last]);
    assert got == got[..|got| - 1] + [last] && Flatten([last]) == last;
  }

  /** What arrives of a message of the announced size, cut anywhere, never runs out of the slice;
      the missing rest reads as zeros. */
  lemma PrefixIsReassembled(segments: seq<seq<byte>>, size: nat)
    requires NonEmpty(segments) && |Flatten(segments)| <= size
    ensures Reassembled(segments, Eof, size) == Data(Flatten(segments) + Zeros(size - |Flatten(segments)|))
    ensures |Flatten(segments)| == size ==> Reassembled(segments, Eof, size) == Data(Flatten(segments))
    ensures Reassembled(segments, Broken, size) == Fatal
  {
    ReassembledExactly(segments, Eof, size);
    ReassembledExactly(segments, Broken, size);
    assert Flatten(segments) + Zeros(0) == Flatten(segments);
  }
}
