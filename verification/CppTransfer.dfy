/** The C++ client and server put together: what one sends is what the other stores. */
module CppTransfer {
  import opened Bytes
  import opened CLib
  import opened CppFileInfo
  import opened Net
  import opened CppClient
  import opened CppServer

  /** The whole stream of a sender that shut its end down: the header array, then the file. */
  lemma StreamOfSender(name: seq<byte>, garbage: InfoArray, content: seq<byte>)
    requires |name| <= LONGEST_NAME
    ensures var stream := HeaderBlock(name, garbage) + content;
      && DecodeHeader(stream[..MAX_FILENAME_LEN]) == Some(name)
      && Body(stream) == content
  {
    var block := HeaderBlock(name, garbage);
    DecodeInvertsEncode(name, block[|Header(name)|..]);
    assert block == Header(name) + block[|Header(name)|..];
    assert (block + content)[..MAX_FILENAME_LEN] == block;
  }

  /** For every file, every name of at most 123 characters, and whatever the resolver, the endpoints
      and the writes do: if the client shut its end down and the stream came through, the server
      ends with the client's name and the file, as far as its disk takes it; both byte counts agree
      with what was read and written; and handle_write_file ran floor(length / BUFSIZ) + 1 times,
      whatever the sender's blocks were. Here the segments matter only through the bytes they hold;
      that they do so in the program is what AsyncRead and Run prove, and ServeSender joins the two. */
  lemma TransferComplete(path: seq<byte>, garbage: InfoArray, content: seq<byte>, found: Option<seq<Endpoint>>,
                         outcomes: seq<bool>, results: seq<WriteError>, segments: seq<seq<byte>>, w: Conditions)
    requires found.Some? ==> found.value != [] && |outcomes| == |found.value|
    requires var s := ClientRun(content, found, InfoBlock(Basename(path), garbage), outcomes, results);
      s.shutdown && Flatten(segments) == Flatten(s.writes)
    requires w.ending == Eof && w.canOpen
    ensures var s := ClientRun(content, found, InfoBlock(Basename(path), garbage), outcomes, results);
      var r := Serve(w, NewReceiver(Flatten(segments)));
      && r.op == CppServer.Idle && r.closed && r.filename == Basename(path)
      && r.file == Some(Take(content, w.room))
      && r.filesize == Min(|content|, w.room) && s.filesize == |content|
      && r.runs == |content| / 8192 + 1
  {
    EveryClientRun(content, found, InfoBlock(Basename(path), garbage), outcomes, results);
    StreamOfSender(Basename(path), garbage, content);
    ServeResult(Flatten(segments), w);
  }

  /** The same of the server's event loop on its socket, fields and file: an accepted connection,
      whatever segments the sender's bytes come in, runs to its end and leaves name and file. */
  method ServeSender(conn: AsyncTcpConnection, path: seq<byte>, garbage: InfoArray, content: seq<byte>,
                     found: Option<seq<Endpoint>>, outcomes: seq<bool>, results: seq<WriteError>)
    requires found.Some? ==> found.value != [] && |outcomes| == |found.value|
    requires conn.Valid() && conn.fp == null && conn.View() == NewReceiver(Flatten(conn.socket.segments))
    requires var s := ClientRun(content, found, InfoBlock(Basename(path), garbage), outcomes, results);
      s.shutdown && Flatten(conn.socket.segments) == Flatten(s.writes)
    requires conn.socket.ending == Eof && conn.canOpen
    modifies conn, conn.socket, conn.info, conn.buf
    ensures conn.Valid() && conn.op == CppServer.Idle && conn.closed && conn.errors == 0 && !conn.overrun
    ensures conn.filename == Basename(path) && conn.fp != null && conn.fp.content == Take(content, conn.room)
    ensures conn.filesize == Min(|content|, conn.room) && conn.runs == |content| / 8192 + 1
  {
    TransferComplete(path, garbage, content, found, outcomes, results, conn.socket.segments, conn.Given());
    ServeResult(Flatten(conn.socket.segments), conn.Given());
    conn.Run();
  }

  /** If the client stops or the connection breaks at any point, what the server has stored is at
      any moment a prefix of the client's file, under its name. */
  lemma TransferCut(path: seq<byte>, garbage: InfoArray, content: seq<byte>, found: Option<seq<Endpoint>>,
                    outcomes: seq<bool>, results: seq<WriteError>, segments: seq<seq<byte>>, w: Conditions, n: nat)
    requires found.Some? ==> found.value != [] && |outcomes| == |found.value|
    requires var s := ClientRun(content, found, InfoBlock(Basename(path), garbage), outcomes, results);
      Flatten(segments) <= Flatten(s.writes)
    ensures var r := After(w, NewReceiver(Flatten(segments)), n);
      r.file.Some? ==>
        && r.filename == Basename(path) && r.file.value <= content && r.filesize == |r.file.value|
        && (!r.closed ==> r.filesize % 8192 == 0 || r.filesize == w.room)
  {
    var stream, info := Flatten(segments), InfoBlock(Basename(path), garbage);
    EveryClientRun(content, found, info, outcomes, results);
    FileIsAPrefix(stream, w, n);
    AfterKeeps(stream, w, NewReceiver(stream), n);
    if |stream| >= MAX_FILENAME_LEN {
      var whole := info.value + content;
      StreamOfSender(Basename(path), garbage, content);
      assert stream <= whole;
      assert stream[..MAX_FILENAME_LEN] == whole[..MAX_FILENAME_LEN];
      assert Body(stream) <= Body(whole);
    }
  }
}
