/** cpp/server.cc: one accepted connection, from the header to the end of the stream. */
module CppServer {
  import opened Bytes
  import opened CppFileInfo
  import opened Stdio
  import opened Net

  /** The async_read a connection waits for. */
  datatype Op = ReadingInfo | ReadingBlock | Idle
  datatype ReadError = NoError | EndOfFile | Failure

  /** What async_read reports: an error unless the buffer was filled, and the bytes transferred. */
  datatype Completion = Completion(err: ReadError, data: seq<byte>)

  /** incoming: the bytes still to be read; file: what was opened and written; runs counts the
      runs of handle_write_file. overrun is set when decoding leaves the array. */
  datatype Receiver = Receiver(op: Op, incoming: seq<byte>, filename: seq<byte>, file: Option<seq<byte>>,
                               filesize: nat, runs: nat, closed: bool, errors: nat, overrun: bool)

  /** What the world decides: how the stream ends, the room on the disk, whether fopen works. */
  datatype Conditions = Conditions(ending: Ending, room: nat, canOpen: bool)

  function NewReceiver(incoming: seq<byte>): Receiver {
    Receiver(ReadingInfo, incoming, [], None, 0, 0, false, 0, false)
  }

  /** async_read of a whole buffer: it ends when the buffer is full or the stream is over. */
  function AsyncReadOf(incoming: seq<byte>, want: nat, ending: Ending): (Completion, seq<byte>) {
    if want <= |incoming| then (Completion(NoError, incoming[..want]), incoming[want..])
    else (Completion(if ending == Eof then EndOfFile else Failure, incoming), [])
  }

  function OnInfo(w: Conditions, r: Receiver, c: Completion): Receiver {
    if c.err != NoError then r.(op := Idle, errors := r.errors + 1)
    else
      match DecodeHeader(c.data)
      case None => r.(op := Idle, overrun := true)
      case Some(name) =>
        if w.canOpen then r.(op := ReadingBlock, filename := name, file := Some([]))
        else r.(op := Idle, filename := name)
  }

  function OnBlock(w: Conditions, r: Receiver, c: Completion): Receiver
    requires r.file.Some?
  {
    var free := if |r.file.value| < w.room then w.room - |r.file.value| else 0;
    var piece := Take(c.data, free);
    var appended := r.(runs := r.runs + 1, file := Some(r.file.value + piece), filesize := r.filesize + |piece|);
    match c.err
    case NoError => appended.(op := ReadingBlock)
    case EndOfFile => appended.(op := Idle, closed := true)
    case Failure => r.(runs := r.runs + 1, op := Idle, errors := r.errors + 1)
  }

  /** One async_read and its handler. */
  function Step(w: Conditions, r: Receiver): Receiver
    requires r.op == ReadingBlock ==> r.file.Some?
  {
    match r.op
    case ReadingInfo =>
      var (c, rest) := AsyncReadOf(r.incoming, MAX_FILENAME_LEN, w.ending);
      OnInfo(w, r.(incoming := rest), c)
    case ReadingBlock =>
      var (c, rest) := AsyncReadOf(r.incoming, BUFSIZ, w.ending);
      OnBlock(w, r.(incoming := rest), c)
    case Idle => r
  }

  /** The connection after n of its callbacks. */
  function After(w: Conditions, r: Receiver, n: nat): Receiver
    requires r.op == ReadingBlock ==> r.file.Some?
    decreases n
  {
    if n == 0 then r else After(w, Step(w, r), n - 1)
  }

  /** The event loop: callbacks until none is waited for. */
  function Serve(w: Conditions, r: Receiver): Receiver
    requires r.op == ReadingBlock ==> r.file.Some?
    decreases r.op != Idle, |r.incoming|
  {
    if r.op == Idle then r else Serve(w, Step(w, r))
  }

  lemma ServeStep(w: Conditions, r: Receiver)
    requires r.op != Idle && (r.op == ReadingBlock ==> r.file.Some?)
    ensures Serve(w, Step(w, r)) == Serve(w, r)
    ensures Step(w, r).op != Idle ==> |Step(w, r).incoming| < |r.incoming|
  {
  }

  // ---- What the connection keeps

  function Body(stream: seq<byte>): seq<byte> {
    Drop(stream, MAX_FILENAME_LEN)
  }

  ghost predicate Receiving(stream: seq<byte>, w: Conditions, r: Receiver) {
    var body := Body(stream);
    && (r.op == ReadingInfo ==> r == NewReceiver(stream))
    && (r.op == ReadingBlock ==>
          && r.file.Some? && r.runs * BUFSIZ <= |body| && r.incoming == body[r.runs * BUFSIZ..]
          && r.file == Some(Take(body[..r.runs * BUFSIZ], w.room))
          && !r.closed && r.errors == 0)
    && (r.op == Idle && r.file.Some? ==>
          && r.incoming == [] && r.closed == (w.ending == Eof)
          && r.runs > 0 && (r.runs - 1) * BUFSIZ <= |body| < r.runs * BUFSIZ
          && r.file == Some(Take(if r.closed then body else body[..(r.runs - 1) * BUFSIZ], w.room)))
    && (r.file.Some? ==>
          && |stream| >= MAX_FILENAME_LEN && Some(r.filename) == DecodeHeader(stream[..MAX_FILENAME_LEN])
          && r.filesize == |r.file.value| && !r.overrun)
    && (r.op != ReadingInfo ==>
          var named := |stream| >= MAX_FILENAME_LEN && DecodeHeader(stream[..MAX_FILENAME_LEN]).Some?;
          && (r.file.Some? <==> named && w.canOpen)
          && (r.overrun <==> |stream| >= MAX_FILENAME_LEN && !named)
          && r.errors == (if |stream| < MAX_FILENAME_LEN || (r.file.Some? && r.op == Idle && !r.closed) then 1 else 0)
          && (r.file.None? ==>
                && r.op == Idle && !r.closed && r.runs == 0 && r.filesize == 0
                && Some(r.filename) == if named then DecodeHeader(stream[..MAX_FILENAME_LEN]) else Some([])))
  }

  /** Appending a piece to as much of what came before as fits. */
  lemma FileTakesMore(past: seq<byte>, piece: seq<byte>, room: nat)
    ensures var held := Take(past, room);
      held + Take(piece, if |held| < room then room - |held| else 0) == Take(past + piece, room)
  {
  }

  lemma StepKeeps(stream: seq<byte>, w: Conditions, r: Receiver)
    requires Receiving(stream, w, r)
    ensures Receiving(stream, w, Step(w, r))
  {
    match r.op
    case ReadingInfo =>
    case ReadingBlock =>
      if BUFSIZ <= |r.incoming| {
        FullBlockKeeps(stream, w, r);
      } else {
        LastBlockKeeps(stream, w, r);
      }
    case Idle =>
  }

  lemma FullBlockKeeps(stream: seq<byte>, w: Conditions, r: Receiver)
    requires Receiving(stream, w, r) && r.op == ReadingBlock && BUFSIZ <= |r.incoming|
    ensures Receiving(stream, w, Step(w, r))
  {
    var body, at := Body(stream), r.runs * BUFSIZ;
    FullStep(w, r);
    assert (r.runs + 1) * BUFSIZ == at + BUFSIZ;
    NextBlock(body, at, at + BUFSIZ);
    FileTakesMore(body[..at], r.incoming[..BUFSIZ], w.room);
  }

  /** The step that reads a full block. */
  lemma FullStep(w: Conditions, r: Receiver)
    requires r.op == ReadingBlock && BUFSIZ <= |r.incoming| && r.file.Some?
    ensures var held := r.file.value;
      var piece := Take(r.incoming[..BUFSIZ], if |held| < w.room then w.room - |held| else 0);
      Step(w, r) == r.(incoming := r.incoming[BUFSIZ..], runs := r.runs + 1,
                       file := Some(held + piece), filesize := r.filesize + |piece|)
  {
  }

  lemma LastBlockKeeps(stream: seq<byte>, w: Conditions, r: Receiver)
    requires Receiving(stream, w, r) && r.op == ReadingBlock && |r.incoming| < BUFSIZ
    ensures Receiving(stream, w, Step(w, r))
  {
    var body, at := Body(stream), r.runs * BUFSIZ;
    LastStep(w, r);
    assert body[..at] + r.incoming == body;
    assert (r.runs + 1 - 1) * BUFSIZ == at && (r.runs + 1) * BUFSIZ == at + BUFSIZ;
    FileTakesMore(body[..at], r.incoming, w.room);
  }

  /** The step that reads the end of the stream. */
  lemma LastStep(w: Conditions, r: Receiver)
    requires r.op == ReadingBlock && |r.incoming| < BUFSIZ && r.file.Some?
    ensures var held := r.file.value;
      var piece := Take(r.incoming, if |held| < w.room then w.room - |held| else 0);
      var ended := r.(op := Idle, incoming := [], runs := r.runs + 1);
      Step(w, r) == if w.ending == Eof then ended.(file := Some(held + piece), filesize := r.filesize + |piece|, closed := true)
                    else ended.(errors := r.errors + 1)
  {
  }

  lemma WholeBlocks(n: nat, k: nat)
    requires k * BUFSIZ <= n < k * BUFSIZ + BUFSIZ
    ensures n / BUFSIZ == k
  {
  }

  lemma NextBlock(s: seq<byte>, i: nat, j: nat)
    requires i <= j <= |s|
    ensures s[..i] + s[i..][..j - i] == s[..j] && s[i..][j - i..] == s[j..]
  {
  }

  lemma {:induction false} AfterKeeps(stream: seq<byte>, w: Conditions, r: Receiver, n: nat)
    requires Receiving(stream, w, r)
    ensures Receiving(stream, w, After(w, r, n))
    decreases n
  {
    if n > 0 {
      StepKeeps(stream, w, r);
      AfterKeeps(stream, w, Step(w, r), n - 1);
    }
  }

  /** In every reachable state, whatever arrives and however the stream ends, the file is a prefix
      of what follows the header, filesize_ is its length, and until the end of the stream was
      handled that is a whole number of blocks, unless the disk is full. */
  lemma FileIsAPrefix(stream: seq<byte>, w: Conditions, n: nat)
    ensures var r := After(w, NewReceiver(stream), n);
      r.file.Some? ==>
        && r.file.value <= Body(stream) && r.filesize == |r.file.value|
        && (!r.closed ==> r.filesize % BUFSIZ == 0 || r.filesize == w.room)
  {
    AfterKeeps(stream, w, NewReceiver(stream), n);
    var r := After(w, NewReceiver(stream), n);
    if r.file.Some? && !r.closed {
      WholeBlocksTaken(Body(stream), if r.op == Idle then r.runs - 1 else r.runs, w.room);
    }
  }

  lemma WholeBlocksTaken(body: seq<byte>, k: nat, room: nat)
    requires k * BUFSIZ <= |body|
    ensures var taken := Take(body[..k * BUFSIZ], room);
      taken <= body && (|taken| % BUFSIZ == 0 || |taken| == room)
  {
    assert (k * BUFSIZ) % BUFSIZ == 0;
  }

  lemma {:induction false} ServeKeeps(stream: seq<byte>, w: Conditions, r: Receiver)
    requires Receiving(stream, w, r)
    ensures Receiving(stream, w, Serve(w, r)) && Serve(w, r).op == Idle
    decreases r.op != Idle, |r.incoming|
  {
    if r.op != Idle {
      StepKeeps(stream, w, r);
      ServeKeeps(stream, w, Step(w, r));
    }
  }

  /** A connection always comes to rest. It stores a file exactly when the header arrives and
      decodes and the file opens; handle_write_file has then run once per full block and once
      more, and after a clean end the file holds everything behind the header, as far as the
      disk takes it. An error is reported exactly when the stream broke or ended in the header. */
  lemma ServeResult(stream: seq<byte>, w: Conditions)
    ensures var r := Serve(w, NewReceiver(stream));
      var body, named := Body(stream), |stream| >= MAX_FILENAME_LEN && DecodeHeader(stream[..MAX_FILENAME_LEN]).Some?;
      && r.op == Idle
      && (r.file.Some? <==> named && w.canOpen)
      && (r.overrun <==> |stream| >= MAX_FILENAME_LEN && !named)
      && (r.closed <==> r.file.Some? && w.ending == Eof)
      && r.errors == (if |stream| < MAX_FILENAME_LEN || (r.file.Some? && w.ending == Broken) then 1 else 0)
      && Some(r.filename) == (if named then DecodeHeader(stream[..MAX_FILENAME_LEN]) else Some([]))
      && (r.file.None? ==> r.runs == 0 && r.filesize == 0)
      && (r.file.Some? ==>
            && r.runs == |body| / BUFSIZ + 1 && r.filesize == |r.file.value|
            && r.file.value == Take(if r.closed then body else body[..|body| / BUFSIZ * BUFSIZ], w.room))
  {
    ServeKeeps(stream, w, NewReceiver(stream));
    var r := Serve(w, NewReceiver(stream));
    if r.file.Some? {
      WholeBlocks(|Body(stream)|, r.runs - 1);
    }
  }

  // ---- The class

  /** boost's async_read: reads until the buffer is full or the stream is over, however it is
      cut into segments. */
  method AsyncRead(socket: Stream, buf: array<byte>, want: nat) returns (err: ReadError, n: nat)
    requires socket.Valid() && 0 < want <= buf.Length
    modifies socket, buf
    ensures socket.Valid() && n <= want && (err == NoError ==> n == want)
    ensures (Completion(err, buf[..n]), Flatten(socket.segments)) == AsyncReadOf(old(Flatten(socket.segments)), want, socket.ending)
  {
    n := 0;
    ghost var all := Flatten(socket.segments);
    while n < want
      invariant socket.Valid() && 0 <= n <= want
      invariant buf[..n] + Flatten(socket.segments) == all
      decreases want - n
    {
      ghost var past, rest := buf[..n], Flatten(socket.segments);
      var k := socket.ReadSome(buf, n, want - n);
      if k == 0 {
        assert rest == [] && all == buf[..n];
        return if socket.ending == Eof then EndOfFile else Failure, n;
      }
      AppendAssociative(past, buf[n..n + k], Flatten(socket.segments));
      assert buf[..n + k] == past + buf[n..n + k];
      n := n + k;
    }
    return NoError, n;
  }

  class AsyncTcpConnection {
    const socket: Stream
    const info: array<byte>
    const buf: array<byte>
    const canOpen: bool
    const room: nat
    var op: Op
    var filename: seq<byte>
    var fp: OutputFile?
    var filesize: nat
    var runs: nat
    var closed: bool
    var errors: nat
    var overrun: bool

    function Given(): Conditions {
      Conditions(socket.ending, room, canOpen)
    }

    ghost predicate Valid()
      reads this, socket, fp
    {
      && socket.Valid() && info.Length == MAX_FILENAME_LEN && buf.Length == BUFSIZ && info != buf
      && (op == ReadingBlock ==> fp != null)
      && (fp != null ==> fp.Valid() && fp.room == room)
    }

    function View(): Receiver
      reads this, socket, fp
    {
      Receiver(op, Flatten(socket.segments), filename, if fp == null then None else Some(fp.content),
               filesize, runs, closed, errors, overrun)
    }

    /** A new connection; start() leaves it waiting for the header. */
    constructor (socket: Stream, room: nat, canOpen: bool)
      requires socket.Valid()
      ensures Valid() && View() == NewReceiver(Flatten(socket.segments))
      ensures this.socket == socket && this.room == room && this.canOpen == canOpen
      ensures fresh(info) && fresh(buf) && fp == null
    {
      this.socket, this.room, this.canOpen := socket, room, canOpen;
      info, buf := new byte[MAX_FILENAME_LEN], new byte[BUFSIZ];
      op, filename, fp, filesize, runs, closed, errors, overrun := ReadingInfo, [], null, 0, 0, false, 0, false;
    }

    method HandleReadRequest(err: ReadError, n: nat)
      requires Valid() && n <= info.Length && (err == NoError ==> n == info.Length) && fp == null
      modifies this
      ensures Valid() && View() == OnInfo(Given(), old(View()), Completion(err, info[..n]))
      ensures fp != null ==> fresh(fp)
    {
      if err != NoError {
        errors, op := errors + 1, Idle;
        return;
      }
      var name := DecodeFileinfo(info);
      assert info[..n] == info[..];
      if name.None? {
        overrun, op := true, Idle;
        return;
      }
      filename := name.value;
      if !canOpen {
        op := Idle;
        return;
      }
      fp := new OutputFile(room);
      op := ReadingBlock;
    }

    method HandleWriteFile(err: ReadError, n: nat)
      requires Valid() && n <= buf.Length && fp != null
      modifies this, fp
      ensures Valid() && View() == OnBlock(Given(), old(View()), Completion(err, buf[..n])) && fp == old(fp)
    {
      ghost var free := room - |fp.content|;
      assert Take(buf[..n], free) == buf[..n][..Min(n, free)];
      runs := runs + 1;
      if err != NoError {
        if err == EndOfFile {
          var k := fp.Fwrite(buf, n);
          filesize := filesize + k;
          closed := true;
        } else {
          errors := errors + 1;
        }
        op := Idle;
      } else {
        if n > 0 {
          var k := fp.Fwrite(buf, n);
          filesize := filesize + k;
        } else {
          assert Take(buf[..n], free) == [] && fp.content + [] == fp.content;
        }
        op := ReadingBlock;
      }
    }

    /** One turn of the event loop: the pending read completes and its handler runs. */
    method Dispatch()
      requires Valid() && op != Idle && (op == ReadingInfo ==> fp == null)
      modifies this, socket, info, buf, fp
      ensures Valid() && View() == Step(Given(), old(View()))
      ensures op != ReadingInfo && (fp == old(fp) || (old(fp) == null && fresh(fp)))
    {
      if op == ReadingInfo {
        var err, n := AsyncRead(socket, info, MAX_FILENAME_LEN);
        HandleReadRequest(err, n);
      } else {
        var err, n := AsyncRead(socket, buf, BUFSIZ);
        HandleWriteFile(err, n);
      }
    }

    /** The event loop of a connection that has just been accepted. */
    method Run()
      requires Valid() && op == ReadingInfo && fp == null
      modifies this, socket, info, buf
      ensures Valid() && View() == Serve(Given(), old(View()))
    {
      ghost var w, now := Given(), View();
      while op != Idle
        invariant Valid() && (op == ReadingInfo ==> fp == null) && (fp == null || fresh(fp))
        invariant now == View() && Serve(w, now) == Serve(w, old(View()))
        decreases now.op != Idle, |now.incoming|
      {
        ServeStep(w, now);
        Dispatch();
        now := Step(w, now);
      }
    }
  }
}
