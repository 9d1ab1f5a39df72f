/** c/fileinfo.h and c/fileinfo.c: struct fileinfo and its 280-byte image (x86-64: the name at
    offset 0, the little-endian size at 256, the digest at 264). */
module CFileInfo {
  import opened Bytes

  const MAXLEN: nat := 256
  const SIZEOF_FILEINFO: nat := 280

  type NameField = s: seq<byte> | |s| == MAXLEN witness Zeros(MAXLEN)
  type SizeT = n: nat | n < TWO_TO_THE_64

  datatype FileInfo = FileInfo(name: NameField, size: SizeT, info: Digest)

  const ZERO_FILEINFO: FileInfo := FileInfo(Zeros(MAXLEN), 0, Zeros(16))

  /** The bytes of the struct in memory. */
  function Image(f: FileInfo): (image: seq<byte>)
    ensures |image| == SIZEOF_FILEINFO
  {
    f.name + LittleEndian(f.size, 8) + f.info
  }

  /** The struct a block of memory holds. */
  function Overlay(image: seq<byte>): FileInfo
    requires |image| == SIZEOF_FILEINFO
  {
    EightBytes();
    FromLittleEndianRoundTrip(image[MAXLEN..MAXLEN + 8]);
    FileInfo(image[..MAXLEN], FromLittleEndian(image[MAXLEN..MAXLEN + 8]), image[MAXLEN + 8..])
  }

  /** Reading the image back gives the struct, and every block of 280 bytes is the image of one. */
  lemma OverlayInvertsImage(f: FileInfo)
    ensures Overlay(Image(f)) == f
  {
    EightBytes();
    LittleEndianRoundTrip(f.size, 8);
    assert Image(f)[MAXLEN..MAXLEN + 8] == LittleEndian(f.size, 8);
  }

  lemma ImageInvertsOverlay(image: seq<byte>)
    requires |image| == SIZEOF_FILEINFO
    ensures Image(Overlay(image)) == image
  {
    FromLittleEndianRoundTrip(image[MAXLEN..MAXLEN + 8]);
    assert image == image[..MAXLEN] + image[MAXLEN..MAXLEN + 8] + image[MAXLEN + 8..];
  }

  /** The three fields of a header in its 280 bytes: the name first, then the size from its least
      significant byte on, then the digest. */
  predicate LaidOut(image: seq<byte>, f: FileInfo)
    requires |image| == 280
  {
    && image[..256] == f.name && image[264..] == f.info
    && f.size
         == image[256] as nat + 0x100 * image[257] as nat + 0x1_0000 * image[258] as nat + 0x100_0000 * image[259] as nat
            + 0x1_0000_0000 * image[260] as nat + 0x100_0000_0000 * image[261] as nat
            + 0x1_0000_0000_0000 * image[262] as nat + 0x100_0000_0000_0000 * image[263] as nat
  }

  /** The bytes of the image are those of the fields, at their offsets. */
  lemma ImageBytes(f: FileInfo)
    ensures LaidOut(Image(f), f)
    ensures var b := Image(f);
      f.size == b[256] as nat + 0x100 * b[257] as nat + 0x1_0000 * b[258] as nat + 0x100_0000 * b[259] as nat
                + 0x1_0000_0000 * b[260] as nat + 0x100_0000_0000 * b[261] as nat
                + 0x1_0000_0000_0000 * b[262] as nat + 0x100_0000_0000_0000 * b[263] as nat
  {
    OverlayInvertsImage(f);
    var size := Image(f)[256..264];
    LittleEndianOfEight(size);
    assert forall i :: 0 <= i < 8 ==> size[i] == Image(f)[256 + i];
  }

  /** The struct after memcpy of data over its first bytes. */
  function Decoded(finfo: FileInfo, data: seq<byte>): FileInfo
    requires |data| <= SIZEOF_FILEINFO
  {
    Overlay(data + Image(finfo)[|data|..])
  }

  lemma DecodeWhole(f: FileInfo, before: FileInfo)
    ensures Decoded(before, Image(f)) == f
  {
    assert Image(f) + Image(before)[SIZEOF_FILEINFO..] == Image(f);
    OverlayInvertsImage(f);
  }

  /** A header cut short and decoded over zeros announces no more than the whole one does. */
  lemma DecodePrefixSize(f: FileInfo, n: nat)
    requires n <= SIZEOF_FILEINFO
    ensures Decoded(ZERO_FILEINFO, Image(f)[..n]).size <= f.size
  {
    var cut := Image(f)[..n] + Image(ZERO_FILEINFO)[n..];
    ImageOfZero();
    OverlayInvertsImage(f);
    LittleEndianMonotone(cut[MAXLEN..MAXLEN + 8], Image(f)[MAXLEN..MAXLEN + 8]);
  }

  lemma ImageOfZero()
    ensures Image(ZERO_FILEINFO) == Zeros(SIZEOF_FILEINFO)
  {
    ImageInvertsOverlay(Zeros(SIZEOF_FILEINFO));
    assert FromLittleEndian(Zeros(8)) == 0 by {
      ZeroIsZero(8);
    }
    assert Zeros(SIZEOF_FILEINFO)[MAXLEN..MAXLEN + 8] == Zeros(8);
    assert Overlay(Zeros(SIZEOF_FILEINFO)) == ZERO_FILEINFO;
  }

  lemma {:induction false} ZeroIsZero(n: nat)
    ensures FromLittleEndian(Zeros(n)) == 0
  {
    if n > 0 {
      ZeroIsZero(n - 1);
      assert Zeros(n)[1..] == Zeros(n - 1);
    }
  }

  /** encode: memcpy of the struct into the caller's buffer. */
  method Encode(buf: array<byte>, finfo: FileInfo) returns (n: nat)
    requires SIZEOF_FILEINFO <= buf.Length
    modifies buf
    ensures n == SIZEOF_FILEINFO == 280 && buf[..n] == Image(finfo)
    ensures LaidOut(buf[..280], finfo)
    ensures buf[n..] == old(buf[n..])
    ensures Overlay(buf[..n]) == finfo
  {
    n := SIZEOF_FILEINFO;
    var image := Image(finfo);
    forall i | 0 <= i < n {
      buf[i] := image[i];
    }
    OverlayInvertsImage(finfo);
    ImageBytes(finfo);
    assert buf[..n] == image;
  }

  /** decode: memcpy of n bytes over the struct; more than the struct holds is an overrun. */
  method Decode(before: FileInfo, buf: array<byte>, n: nat) returns (finfo: FileInfo, overrun: bool)
    requires n <= buf.Length
    ensures overrun <==> n > 280
    ensures overrun ==> finfo == before
    ensures !overrun ==> Image(finfo) == buf[..n] + Image(before)[n..]
    ensures !overrun ==> finfo == Decoded(before, buf[..n])
    ensures !overrun ==> LaidOut(buf[..n] + Image(before)[n..], finfo)
  {
    overrun := n > SIZEOF_FILEINFO;
    finfo := before;
    if !overrun {
      finfo := Overlay(buf[..n] + Image(before)[n..]);
      ImageInvertsOverlay(buf[..n] + Image(before)[n..]);
      ImageBytes(finfo);
    }
  }
}
