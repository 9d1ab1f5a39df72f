/** An encoding with the two properties the Go model asks of msgpack: lengths and numbers in
    decimal, each ended by a zero byte. */
module GoCodec {
  import opened Bytes
  import opened CLib
  import opened Net
  import opened GoServ

  function Magnitude(n: int): nat {
    if n < 0 then -n else n
  }

  function Sign(n: int): byte {
    if n < 0 then 1 else 0
  }

  /** What stands between the name and the digest of a header and all that follows it. */
  function Rest(f: FileInfo, tail: seq<byte>): seq<byte> {
    f.name + ([Sign(f.size)] + (Decimal(Magnitude(f.size)) + ([0] + (f.info + tail))))
  }

  function Encoded(f: FileInfo): seq<byte> {
    Decimal(|f.name|) + ([0] + Rest(f, []))
  }

  /** A number, and what follows its end mark. */
  function TakeNumber(s: seq<byte>): Option<(nat, seq<byte>)> {
    match ParseDigits(s, 0)
    case None => None
    case Some(n) => if |Decimal(n)| < |s| then Some((n, s[|Decimal(n)| + 1..])) else None
  }

  function ParseRest(n: nat, rest: seq<byte>): Option<FileInfo> {
    if |rest| <= n then None
    else
      match TakeNumber(rest[n + 1..])
      case None => None
      case Some((m, tail)) =>
        var size: int := if rest[n] == 1 then -(m as int) else m;
        if |tail| < 16 then None else Some(FileInfo(rest[..n], size, tail[..16]))
  }

  function Parse(s: seq<byte>): Option<FileInfo> {
    match TakeNumber(s)
    case None => None
    case Some((n, rest)) => ParseRest(n, rest)
  }

  function PlainCodec(md5: seq<byte> -> Digest): Codec {
    Codec(Encoded, Parse, md5)
  }

  lemma TakesItsNumber(n: nat, rest: seq<byte>)
    ensures TakeNumber(Decimal(n) + ([0] + rest)) == Some((n, rest))
  {
    AtoiOfDecimal(n, [0] + rest);
    assert (Decimal(n) + ([0] + rest))[|Decimal(n)| + 1..] == rest;
  }

  lemma ParseInvertsRest(f: FileInfo, tail: seq<byte>)
    ensures ParseRest(|f.name|, Rest(f, tail)) == Some(f)
  {
    var number := Decimal(Magnitude(f.size)) + ([0] + (f.info + tail));
    TakesItsNumber(Magnitude(f.size), f.info + tail);
    assert Rest(f, tail)[|f.name| + 1..] == number;
    assert (f.info + tail)[..16] == f.info;
  }

  lemma RestAppends(f: FileInfo, tail: seq<byte>)
    ensures Rest(f, []) + tail == Rest(f, tail)
  {
    assert f.info + [] == f.info;
  }

  lemma ParseInvertsEncoded(f: FileInfo, tail: seq<byte>)
    ensures Parse(Encoded(f) + tail) == Some(f)
  {
    RestAppends(f, tail);
    assert Encoded(f) + tail == Decimal(|f.name|) + ([0] + Rest(f, tail));
    TakesItsNumber(|f.name|, Rest(f, tail));
    ParseInvertsRest(f, tail);
  }

  /** There are such encodings, whatever the digest. */
  lemma PlainIsLawful(md5: seq<byte> -> Digest)
    ensures Lawful(PlainCodec(md5))
  {
    forall f: FileInfo, tail: seq<byte> ensures PlainCodec(md5).dec(PlainCodec(md5).enc(f) + tail) == Some(f) {
      ParseInvertsEncoded(f, tail);
    }
  }

  /** With them the header of a file of one byte fits the header buffer with room to spare, and
      so that file is lost when it arrives together with its header. */
  lemma OneByteFileIsLost(md5: seq<byte> -> Digest, b: byte, disk: Disk)
    requires b != 0 && md5([0]) != md5([b])
    ensures var codec := PlainCodec(md5);
      var segments := [codec.enc(HeaderFor(codec, [], [b])) + [b]];
      && Arrives(codec, [], [b], segments) && Swallowed(codec, [], [b], segments) == 1
      && Handled(codec, segments, Eof, disk) == (disk, Polling)
  {
    var codec := PlainCodec(md5);
    PlainIsLawful(md5);
    var head := codec.enc(HeaderFor(codec, [], [b]));
    assert |head| == 21;
    assert [b][0] != 0;
    assert |head + [b]| <= ENCODE_SIZE && AfterRead([head + [b]], ENCODE_SIZE) == [];
    assert Assembled(codec, [], [b], [head + [b]]) == [0];
    CoalescedFileIsLost(codec, [], [b], disk);
  }
}
