/** c/interface.c: readfile and writefile, the buffer fill and drain loops. */
module CInterface {
  import opened Bytes
  import opened CFileInfo
  import opened StreamingDigest
  import opened Stdio

  /** The two messages writefile logs at FATAL level. */
  datatype Complaint = FileWriteError | FileContentIncorrect

  /** Appending a piece to a file that holds as much of the bytes before it as fits. */
  lemma FileGrows(past: seq<byte>, piece: seq<byte>, room: nat)
    ensures Take(past, room) + piece[..Min(|piece|, room - |Take(past, room)|)] == Take(past + piece, room)
  {
  }

  /** readfile: the whole file goes into the buffer, its size and digest into the header. */
  method ReadFile(md5: Md5, before: FileInfo, fp: InputFile, buf: Evbuffer) returns (finfo: FileInfo)
    requires fp.Valid() && fp.pos == 0 && |fp.content| < TWO_TO_THE_64
    modifies fp, buf
    ensures fp.Valid()
    ensures buf.data == old(buf.data) + fp.content
    ensures finfo == before.(size := |fp.content|, info := md5.Sum(fp.content))
  {
    var ctx := md5.init;
    var data := new byte[BUFSIZ];
    var total: nat := 0;
    var n := fp.Fread(data, BUFSIZ);
    ghost var past: seq<byte> := [];
    while n > 0
      invariant fp.Valid() && 0 <= n <= BUFSIZ && fp.pos == total + n && |past| == total
      invariant n == 0 ==> fp.pos == |fp.content|
      invariant past + data[..n] == fp.content[..fp.pos]
      invariant buf.data == old(buf.data) + past
      invariant ctx == md5.Update(md5.init, past)
      decreases |fp.content| - total
    {
      buf.Add(data, n);
      md5.UpdateInPieces(md5.init, past, data[..n]);
      ctx := md5.Update(ctx, data[..n]);
      total := total + n;
      past := past + data[..n];
      n := fp.Fread(data, BUFSIZ);
    }
    assert past == fp.content;
    finfo := before.(info := md5.final(ctx), size := total);
  }

  /** What writefile leaves in the file, returns and logs, for a buffer, a header and the room
      on the disk. */
  datatype Report = Report(content: seq<byte>, result: int, complaints: seq<Complaint>)

  function WriteOutcome(md5: Md5, info: Digest, data: seq<byte>, room: nat): Report {
    if room < |data| then Report(data[..room], 1, [FileWriteError])
    else Report(data, 0, if md5.Sum(data) == info then [] else [FileContentIncorrect])
  }

  /** The documented result: 0 for success, 1 for failure. */
  function DocumentedResult(md5: Md5, info: Digest, data: seq<byte>, room: nat): int {
    if |data| <= room && md5.Sum(data) == info then 0 else 1
  }

  /** Whatever digest is announced, only a full disk makes the result 1. So the result is the
      documented one exactly if the disk is full or the digest is right, and for everything the
      disk takes there is a digest with which it is not. */
  lemma WrongDigestIsReportedAsSuccess(md5: Md5, data: seq<byte>, room: nat) returns (wrong: Digest)
    ensures forall info: Digest :: (WriteOutcome(md5, info, data, room).result == 0 <==> |data| <= room)
    ensures forall info: Digest ::
      (WriteOutcome(md5, info, data, room).result == DocumentedResult(md5, info, data, room)
       <==> room < |data| || md5.Sum(data) == info)
    ensures |data| <= room ==>
      && WriteOutcome(md5, wrong, data, room) == Report(data, 0, [FileContentIncorrect])
      && DocumentedResult(md5, wrong, data, room) == 1
  {
    var sum := md5.Sum(data);
    wrong := sum[0 := if sum[0] == 0 then 1 else 0];
    assert wrong[0] != sum[0];
  }

  /** writefile's loop: the buffer is drained block by block into the digest and the file. */
  method Drain(md5: Md5, buf: Evbuffer, fp: OutputFile) returns (ctx: nat, total: nat)
    requires fp.Valid() && fp.content == []
    modifies buf, fp
    ensures fp.Valid() && buf.data == []
    ensures fp.content == Take(old(buf.data), fp.room) && total == |fp.content|
    ensures ctx == md5.Update(md5.init, old(buf.data))
  {
    ghost var all := buf.data;
    ctx, total := md5.init, 0;
    var data := new byte[BUFSIZ];
    var n := buf.Remove(data, BUFSIZ);
    ghost var past: seq<byte>, rest := [], all;
    while n > 0
      invariant fp.Valid() && 0 <= n <= BUFSIZ
      invariant past + rest == all && data[..n] + buf.data == rest
      invariant n == 0 ==> buf.data == []
      invariant fp.content == Take(past, fp.room) && total == |fp.content|
      invariant ctx == md5.Update(md5.init, past)
      decreases |rest|
    {
      var piece := data[..n];
      FileGrows(past, piece, fp.room);
      md5.UpdateInPieces(md5.init, past, piece);
      ctx := md5.Update(ctx, piece);
      var k := fp.Fwrite(data, n);
      total := total + k;
      AppendAssociative(past, piece, buf.data);
      past, rest := past + piece, buf.data;
      n := buf.Remove(data, BUFSIZ);
    }
    assert past == all;
  }

  /** writefile: the buffer is emptied into the file in order. A wrong digest is logged, but it
      is not what is returned. */
  method WriteFile(md5: Md5, finfo: FileInfo, buf: Evbuffer, fp: OutputFile)
      returns (result: int, complaints: seq<Complaint>)
    requires fp.Valid() && fp.content == []
    modifies buf, fp
    ensures fp.Valid() && buf.data == []
    ensures Report(fp.content, result, complaints) == WriteOutcome(md5, finfo.info, old(buf.data), fp.room)
    ensures result == DocumentedResult(md5, finfo.info, old(buf.data), fp.room)
      <==> fp.room < |old(buf.data)| || md5.Sum(old(buf.data)) == finfo.info
  {
    var ret := 0;
    complaints := [];
    var len := |buf.data|;
    var ctx, total := Drain(md5, buf, fp);
    var md := md5.final(ctx);
    if total != len {
      complaints := [FileWriteError];
      return 1, complaints;
    }
    if md != finfo.info {
      complaints := [FileContentIncorrect];
      ret := 1;
    }
    return 0, complaints;
  }
}
