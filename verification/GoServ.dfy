/** go/serv.go (with go/filedata/file.go): one connection of the Go server. */
module GoServ {
  import opened Bytes
  import opened Net
  import opened GoComm

  /** filedata.ENCODE_SIZE: the buffer the header is read into. */
  const ENCODE_SIZE: nat := 100

  datatype FileInfo = FileInfo(name: seq<byte>, size: int, info: Digest)

  /** The msgpack encoding and md5.Sum, whose insides are not modelled. */
  datatype Codec = Codec(enc: FileInfo -> seq<byte>, dec: seq<byte> -> Option<FileInfo>, md5: seq<byte> -> Digest)

  /** Decoding gives back what was encoded and does not look further. */
  ghost predicate Lawful(codec: Codec) {
    forall info: FileInfo, tail: seq<byte> :: codec.dec(codec.enc(info) + tail) == Some(info)
  }

  type Disk = map<seq<byte>, seq<byte>>

  /** Polling: the loop finds no further data, and goes on asking for ever. */
  datatype End = Polling | Died | Panicked

  /** HandleClient up to the point where it can only poll a connection that has ended. */
  function Handled(codec: Codec, segments: seq<seq<byte>>, ending: Ending, disk: Disk): (Disk, End)
    requires NonEmpty(segments)
  {
    if segments == [] then (disk, if ending == Eof then Polling else Died)
    else
      match codec.dec(Take(segments[0], ENCODE_SIZE))
      case None => (disk, Died)
      case Some(finfo) =>
        match Reassembled(AfterRead(segments, ENCODE_SIZE), ending, finfo.size)
        case Panic => (disk, Panicked)
        case Fatal => (disk, Died)
        case Data(data) =>
          (if codec.md5(data) == finfo.info then disk[finfo.name := data] else disk, Polling)
  }

  /** HandleClient */
  method HandleClient(codec: Codec, conn: Stream, disk: Disk) returns (after: Disk, end: End)
    requires conn.Valid()
    modifies conn
    ensures (after, end) == Handled(codec, old(conn.segments), conn.ending, disk)
  {
    after := disk;
    var buf := new byte[ENCODE_SIZE];
    ghost var first := true;
    while true
      invariant conn.Valid()
      invariant first ==> conn.segments == old(conn.segments) && after == disk
      invariant !first ==> conn.segments == [] && conn.ending == Eof
      invariant !first ==> (after, Polling) == Handled(codec, old(conn.segments), conn.ending, disk)
      decreases first
    {
      ghost var segments := conn.segments;
      var n := conn.ReadSome(buf, 0, ENCODE_SIZE);
      if n == 0 {
        return after, if conn.ending == Eof then Polling else Died;
      }
      assert first && buf[..n] == Take(segments[0], ENCODE_SIZE);
      var finfo := codec.dec(buf[..n]);
      if finfo.None? {
        return after, Died;
      }
      var data := RecvData(conn, finfo.value.size);
      match data {
        case Panic => return after, Panicked;
        case Fatal => return after, Died;
        case Data(bytes) =>
          if codec.md5(bytes) == finfo.value.info {
            after := after[finfo.value.name := bytes];
          }
      }
      first := false;
    }
  }

  /** Whatever arrives, of whatever encoding: the disk only changes by taking, under the name in the
      header that the first read decodes to, data of the announced size and digest, which are the
      bytes behind that read, padded with zeros. The process dies exactly if nothing arrives of a
      broken stream, the first read does not decode, or the stream breaks later without a panic;
      it panics exactly if the announced size is negative or some later read begins beyond it. */
  lemma HandledExactly(codec: Codec, segments: seq<seq<byte>>, ending: Ending, disk: Disk) returns (data: seq<byte>)
    requires NonEmpty(segments)
    ensures var (after, end) := Handled(codec, segments, ending, disk);
      if segments == [] then (after, end) == (disk, if ending == Eof then Polling else Died)
      else
        var first := Take(segments[0], 100);
        match codec.dec(first)
        case None => (after, end) == (disk, Died)
        case Some(f) =>
          var rest, got := Flatten(segments)[|first|..], Reads(AfterRead(segments, 100), 2048);
          && (end == Panicked <==> f.size < 0 || exists k :: 0 <= k < |got| && |Flatten(got[..k])| > f.size)
          && (end == Died <==> end != Panicked && ending == Broken)
          && (end != Polling ==> after == disk)
          && (end == Polling ==>
                && |data| == f.size && (forall i :: 0 <= i < |data| ==> data[i] == if i < |rest| then rest[i] else 0)
                && after == if codec.md5(data) == f.info then disk[f.name := data] else disk)
  {
    data := [];
    if segments != [] {
      ReadTakesFront(segments, 100);
      var first, left := Take(segments[0], 100), AfterRead(segments, 100);
      assert Flatten(segments)[|first|..] == Flatten(left);
      var decoded := codec.dec(first);
      if decoded.Some? {
        ReassembledExactly(left, ending, decoded.value.size);
        var r := Reassembled(left, ending, decoded.value.size);
        data := if r.Data? then r.bytes else [];
      }
    }
  }

  // ---- A file sent by the Go client

  /** SendFile's header for a file. */
  function HeaderFor(codec: Codec, name: seq<byte>, content: seq<byte>): FileInfo {
    FileInfo(name, |content|, codec.md5(content))
  }

  /** SendFile: the encoded header, then the content in chunks. */
  method SendFile(codec: Codec, conn: Sink, name: seq<byte>, content: seq<byte>)
    modifies conn
    ensures conn.sent == old(conn.sent) + codec.enc(HeaderFor(codec, name, content)) + content
  {
    conn.Write(codec.enc(HeaderFor(codec, name, content)));
    SendData(conn, content);
  }

  /** Some of SendFile's bytes arrive, cut anywhere, and the first read holds the whole header. */
  ghost predicate Arrives(codec: Codec, name: seq<byte>, content: seq<byte>, segments: seq<seq<byte>>) {
    var head := codec.enc(HeaderFor(codec, name, content));
    && NonEmpty(segments) && segments != []
    && Flatten(segments) <= head + content
    && |head| <= |Take(segments[0], ENCODE_SIZE)|
  }

  /** The content bytes that the header's read swallows. */
  function Swallowed(codec: Codec, name: seq<byte>, content: seq<byte>, segments: seq<seq<byte>>): int
    requires segments != []
  {
    |Take(segments[0], ENCODE_SIZE)| - |codec.enc(HeaderFor(codec, name, content))|
  }

  /** What RecvData hands on: the content beyond the swallowed bytes, as far as it arrived,
      padded with zeros. */
  function Assembled(codec: Codec, name: seq<byte>, content: seq<byte>, segments: seq<seq<byte>>): seq<byte>
    requires NonEmpty(segments) && segments != []
  {
    Fill(Flatten(AfterRead(segments, ENCODE_SIZE)), |content|)
  }

  lemma ArrivesAsShiftedContent(codec: Codec, name: seq<byte>, content: seq<byte>, segments: seq<seq<byte>>)
    requires Lawful(codec) && Arrives(codec, name, content, segments)
    ensures var k, rest := Swallowed(codec, name, content, segments), Flatten(AfterRead(segments, ENCODE_SIZE));
      && 0 <= k <= |content| && rest <= content[k..]
      && codec.dec(Take(segments[0], ENCODE_SIZE)) == Some(HeaderFor(codec, name, content))
  {
    var head := codec.enc(HeaderFor(codec, name, content));
    var first, rest := Take(segments[0], ENCODE_SIZE), Flatten(AfterRead(segments, ENCODE_SIZE));
    ReadTakesFront(segments, ENCODE_SIZE);
    var stream := head + content;
    assert first + rest <= stream;
    var k := |first| - |head|;
    assert first == stream[..|first|] && stream[..|first|] == head + content[..k];
    assert rest == stream[|first|..][..|rest|] && stream[|first|..] == content[k..];
  }

  /** Whatever arrives, the server does not panic; if it stores anything for the file, that is
      the assembled data, its digest is the source's, and so it is the source unless the two
      collide under the digest. */
  lemma StoredIsSourceOrCollision(codec: Codec, name: seq<byte>, content: seq<byte>, segments: seq<seq<byte>>,
                                  ending: Ending, disk: Disk)
    requires Lawful(codec) && Arrives(codec, name, content, segments)
    ensures var (after, end) := Handled(codec, segments, ending, disk);
      var data := Assembled(codec, name, content, segments);
      && end == (if ending == Eof then Polling else Died)
      && after == (if ending == Eof && codec.md5(data) == codec.md5(content) then disk[name := data] else disk)
      && (after != disk ==> after == disk[name := content] || (data != content && codec.md5(data) == codec.md5(content)))
  {
    ArrivesAsShiftedContent(codec, name, content, segments);
    PrefixIsReassembled(AfterRead(segments, ENCODE_SIZE), |content|);
    var rest := Flatten(AfterRead(segments, ENCODE_SIZE));
    assert Fill(rest, |content|) == rest + Zeros(|content| - |rest|);
  }

  /** With the header read on its own and everything delivered the file is always stored. */
  lemma FullDeliveryStores(codec: Codec, name: seq<byte>, content: seq<byte>, segments: seq<seq<byte>>, disk: Disk)
    requires Lawful(codec) && Arrives(codec, name, content, segments)
    requires Swallowed(codec, name, content, segments) == 0
    requires Flatten(segments) == codec.enc(HeaderFor(codec, name, content)) + content
    ensures Handled(codec, segments, Eof, disk) == (disk[name := content], Polling)
  {
    ArrivesAsShiftedContent(codec, name, content, segments);
    StoredIsSourceOrCollision(codec, name, content, segments, Eof, disk);
    ReadTakesFront(segments, ENCODE_SIZE);
    var rest := Flatten(AfterRead(segments, ENCODE_SIZE));
    assert rest == content;
    assert Fill(content, |content|) == content;
  }

  predicate AllZero(s: seq<byte>) {
    forall i :: 0 <= i < |s| ==> s[i] == 0
  }

  /** Shifting content left by k > 0 and padding with zeros gives it back only if it was zeros. */
  lemma {:induction false} ShiftFixesOnlyZeros(content: seq<byte>, k: nat, t: nat, i: nat)
    requires 0 < k && k + t <= |content| && i < |content|
    requires Fill(content[k..k + t], |content|) == content
    ensures content[i] == 0
    decreases |content| - i
  {
    assert content[i] == Fill(content[k..k + t], |content|)[i];
    if i < t {
      ShiftFixesOnlyZeros(content, k, t, i + k);
    }
  }

  lemma FillIsContentExactly(content: seq<byte>, k: nat, t: nat)
    requires k + t <= |content|
    ensures Fill(content[k..k + t], |content|) == content <==> (k == 0 && AllZero(Drop(content, t))) || AllZero(content)
  {
    var data := Fill(content[k..k + t], |content|);
    assert forall i :: 0 <= i < t ==> data[i] == content[k + i];
    assert forall i :: t <= i < |content| ==> content[i] == Drop(content, t)[i - t];
    if data == content && k > 0 {
      forall i | 0 <= i < |content| ensures content[i] == 0 {
        ShiftFixesOnlyZeros(content, k, t, i);
      }
    }
  }

  /** The header was read on its own and what did not arrive of the file is zeros, or the whole
      file is zeros. */
  predicate Intact(codec: Codec, name: seq<byte>, content: seq<byte>, segments: seq<seq<byte>>)
    requires NonEmpty(segments) && segments != []
  {
    var k, t := Swallowed(codec, name, content, segments), |Flatten(AfterRead(segments, ENCODE_SIZE))|;
    (k == 0 && AllZero(Drop(content, t))) || AllZero(content)
  }

  lemma IntactExactly(codec: Codec, name: seq<byte>, content: seq<byte>, segments: seq<seq<byte>>)
    requires Lawful(codec) && Arrives(codec, name, content, segments)
    ensures Assembled(codec, name, content, segments) == content <==> Intact(codec, name, content, segments)
  {
    ArrivesAsShiftedContent(codec, name, content, segments);
    var k, rest := Swallowed(codec, name, content, segments), Flatten(AfterRead(segments, ENCODE_SIZE));
    assert rest == content[k..k + |rest|];
    FillIsContentExactly(content, k, |rest|);
  }

  /** Unless the digest collides, the server stores the file exactly when it arrives intact, and
      otherwise leaves its disk alone. */
  lemma StoredExactly(codec: Codec, name: seq<byte>, content: seq<byte>, segments: seq<seq<byte>>, disk: Disk)
    requires Lawful(codec) && Arrives(codec, name, content, segments)
    requires var data := Assembled(codec, name, content, segments);
      codec.md5(data) == codec.md5(content) ==> data == content
    ensures Handled(codec, segments, Eof, disk)
      == (if Intact(codec, name, content, segments) then disk[name := content] else disk, Polling)
  {
    IntactExactly(codec, name, content, segments);
    StoredIsSourceOrCollision(codec, name, content, segments, Eof, disk);
  }

  /** A file that arrives in one segment with its header, a header shorter than its buffer, is
      lost unless it is all zeros: the header's read swallows its beginning. */
  lemma CoalescedFileIsLost(codec: Codec, name: seq<byte>, content: seq<byte>, disk: Disk)
    requires Lawful(codec) && |codec.enc(HeaderFor(codec, name, content))| < ENCODE_SIZE && !AllZero(content)
    requires var data := Assembled(codec, name, content, [codec.enc(HeaderFor(codec, name, content)) + content]);
      codec.md5(data) == codec.md5(content) ==> data == content
    ensures var head := codec.enc(HeaderFor(codec, name, content));
      var segments := [head + content];
      && Arrives(codec, name, content, segments)
      && Swallowed(codec, name, content, segments) == Min(|content|, ENCODE_SIZE - |head|) > 0
      && Handled(codec, segments, Eof, disk) == (disk, Polling)
  {
    var head := codec.enc(HeaderFor(codec, name, content));
    assert head + content != [] && Flatten([head + content]) == head + content;
    StoredExactly(codec, name, content, [head + content], disk);
  }
}
