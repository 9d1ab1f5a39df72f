/** cpp/fileinfo.h and cpp/fileinfo.cc: the self-delimiting header "<length> NUL NUL <name>" in
    an array of 128 characters. */
module CppFileInfo {
  import opened Bytes
  import opened CLib

  const MAX_FILENAME_LEN: nat := 128
  const SEP_CHAR: byte := 0
  const SEP_LEN: nat := 2

  /** The longest name whose header fits the array. */
  const LONGEST_NAME: nat := 123

  type InfoArray = s: seq<byte> | |s| == MAX_FILENAME_LEN witness Zeros(MAX_FILENAME_LEN)

  function Header(name: seq<byte>): seq<byte> {
    Decimal(|name|) + [SEP_CHAR, SEP_CHAR] + name
  }

  lemma HeaderFitsExactly(name: seq<byte>)
    ensures |Header(name)| <= 128 <==> |name| <= 123
    ensures MAX_FILENAME_LEN == 128 && LONGEST_NAME == 123
  {
    DecimalLength(|name|, 1);
    DecimalLength(|name|, 2);
    DecimalLength(|name|, 3);
    assert Pow10(1) == 10 && Pow10(2) == 100 && Pow10(3) == 1000;
  }

  /** For names that fit, one to three digits stand in front of the separator. */
  lemma OffsetOfName(n: nat)
    requires n <= 999
    ensures |Decimal(n)| + SEP_LEN == if n < 10 then 3 else if n < 100 then 4 else 5
  {
    DecimalLength(n, 1);
    DecimalLength(n, 2);
    DecimalLength(n, 3);
    assert Pow10(1) == 10 && Pow10(2) == 100 && Pow10(3) == 1000;
  }

  /** The array after the header was written over what it held. */
  function HeaderBlock(name: seq<byte>, before: InfoArray): (block: InfoArray)
    requires |name| <= LONGEST_NAME
    ensures Header(name) <= block
  {
    HeaderFitsExactly(name);
    Header(name) + before[|Header(name)|..]
  }

  /** The array in plain bytes: the length of the name in digits without a leading zero, two NULs,
      the name, and behind it what was there before. */
  predicate LaidOut(name: seq<byte>, before: seq<byte>, after: seq<byte>)
    requires |before| == |after| == 128
  {
    var n := |name|;
    var d := if n < 10 then 1 else if n < 100 then 2 else 3;
    && n <= 123 && Digits(after[..d]) && Value(after[..d]) == n && (after[0] == 48 <==> n == 0)
    && after[d] == 0 && after[d + 1] == 0 && after[d + 2..d + 2 + n] == name
    && after[d + 2 + n..] == before[d + 2 + n..]
  }

  lemma BlockIsLaidOut(name: seq<byte>, before: InfoArray, block: InfoArray)
    requires |name| <= LONGEST_NAME && block == HeaderBlock(name, before)
    ensures LaidOut(name, before, block)
  {
    var n := |name|;
    OffsetOfName(n);
    DecimalIsWorth(n);
    var d := |Decimal(n)|;
    assert block[..d] == Decimal(n) && block[d] == 0 && block[d + 1] == 0;
    assert block[d + 2..d + 2 + n] == name && block[d + 2 + n..] == before[d + 2 + n..];
  }

  /** What decode_fileinfo makes of an array; None where it reads outside the array or leaves
      atoi or the string constructor undefined. */
  function DecodeHeader(a: seq<byte>): Option<seq<byte>> {
    match Atoi(a)
    case None => None
    case Some(n) =>
      if n < 0 then None
      else
        var start := |Decimal(n)| + SEP_LEN;
        if start + n <= |a| then Some(a[start..start + n]) else None
  }

  /** What decode_fileinfo makes of any array: if its number n is one of a name that fits, the n
      characters behind the digits that n prints in and two more; nothing otherwise. */
  lemma DecodedRange(a: InfoArray)
    ensures DecodeHeader(a) ==
      match Atoi(a)
      case None => None
      case Some(n) =>
        var at := if n < 10 then 3 else if n < 100 then 4 else 5;
        if 0 <= n <= 123 then Some(a[at..at + n]) else None
  {
    match Atoi(a)
    case None =>
    case Some(n) =>
      if 0 <= n <= 999 {
        OffsetOfName(n);
      } else if n >= 0 {
        assert |Decimal(n)| + SEP_LEN + n > 128;
      }
  }

  /** So a length padded with zeros is read, but the name is looked for where it would begin
      without the padding. */
  lemma PaddedLengthShiftsTheName(pad: seq<byte>, name: seq<byte>, rest: seq<byte>)
    requires |pad + Header(name) + rest| == 128 && forall i :: 0 <= i < |pad| ==> pad[i] == 48
    ensures var a, n, at := pad + Header(name) + rest, |name|, |Decimal(|name|)| + 2;
      && DecodeHeader(a) == Some(a[at..at + n])
      && name == a[|pad| + at..|pad| + at + n]
  {
    PaddedLengthIsRead(pad, name, rest);
  }

  lemma PaddedLengthIsRead(pad: seq<byte>, name: seq<byte>, rest: seq<byte>)
    requires |name| <= INT_MAX && forall i :: 0 <= i < |pad| ==> pad[i] == 48
    ensures Atoi(pad + Header(name) + rest) == Some(|name|)
  {
    var digits, tail := pad + Decimal(|name|), [SEP_CHAR, SEP_CHAR] + name + rest;
    DecimalIsWorth(|name|);
    ZerosAreWorthless(pad, Decimal(|name|));
    AtoiOfSigned([], [], digits, tail);
    assert [] + ([] + (digits + tail)) == pad + Header(name) + rest;
  }

  lemma {:induction false} ZerosAreWorthless(pad: seq<byte>, digits: seq<byte>)
    requires Digits(digits) && forall i :: 0 <= i < |pad| ==> pad[i] == 48
    ensures Digits(pad + digits) && Value(pad + digits) == Value(digits)
  {
    if pad == [] {
      assert pad + digits == digits;
    } else {
      ZerosAreWorthless(pad[1..], digits);
      assert (pad + digits)[1..] == pad[1..] + digits;
    }
  }

  /** The leading digits of a header give the length of the name, whatever follows. */
  lemma HeaderAnnouncesLength(name: seq<byte>, rest: seq<byte>)
    ensures ParseDigits(Header(name) + rest, 0) == Some(|name|)
    ensures Atoi(Header(name) + rest) == if |name| <= INT_MAX then Some(|name|) else None
  {
    var tail := [SEP_CHAR, SEP_CHAR] + name + rest;
    AtoiOfDecimal(|name|, tail);
    assert Header(name) + rest == Decimal(|name|) + tail;
  }

  /** Decoding inverts encoding for every name, whatever bytes it holds and whatever bytes follow
      it in the array. */
  lemma DecodeInvertsEncode(name: seq<byte>, rest: seq<byte>)
    requires |name| <= INT_MAX
    ensures DecodeHeader(Header(name) + rest) == Some(name)
  {
    HeaderAnnouncesLength(name, rest);
  }

  /** No header is a prefix of another, so a reader never needs more than the header to tell
      where it ends. */
  lemma HeadersPrefixFree(name: seq<byte>, other: seq<byte>)
    requires Header(name) <= Header(other)
    ensures name == other
  {
    var rest := Header(other)[|Header(name)|..];
    assert Header(other) == Header(name) + rest && Header(other) + [] == Header(other);
    HeaderAnnouncesLength(name, rest);
    HeaderAnnouncesLength(other, []);
    assert rest == [];
    assert name == Header(name)[|Header(name)| - |name|..];
    assert other == Header(other)[|Header(other)| - |other|..];
  }

  /** numToStr: snprintf of "%lu" and its strlen. */
  method NumToStr(tmp: array<byte>, n: nat) returns (len: nat)
    requires tmp.Length == MAX_FILENAME_LEN && n < TWO_TO_THE_64
    modifies tmp
    ensures len == |Decimal(n)| <= 20 && tmp[..len] == Decimal(n) && tmp[len] == 0
    ensures forall i :: 0 <= i < len ==> tmp[i] as int == 48 + n / Pow10(len - 1 - i) % 10
  {
    var digits := Decimal(n);
    DecimalPositions(n);
    DecimalLength(n, 20);
    TenToThe20();
    len := |digits|;
    forall i | 0 <= i < len {
      tmp[i] := digits[i];
    }
    tmp[len] := 0;
  }

  lemma TenToThe20()
    ensures Pow10(20) > TWO_TO_THE_64
  {
    assert Pow10(5) == 100_000 by {
      assert Pow10(3) == 1000;
    }
    assert Pow10(10) == 10_000_000_000 by {
      assert Pow10(8) == 100_000_000 by {
        assert Pow10(6) == 1_000_000;
      }
    }
    assert Pow10(15) == 1_000_000_000_000_000 by {
      assert Pow10(12) == 1_000_000_000_000;
    }
    assert Pow10(18) == 1_000_000_000_000_000_000;
  }

  /** The first half of encode_fileinfo: the length and the separator. */
  method PutLength(a: array<byte>, n: nat) returns (i: nat)
    requires a.Length == MAX_FILENAME_LEN && n < TWO_TO_THE_64
    modifies a
    ensures i == |Decimal(n)| + SEP_LEN <= 22 && a[..i] == Decimal(n) + [SEP_CHAR, SEP_CHAR]
    ensures a[i..] == old(a[i..])
  {
    var tmp := new byte[MAX_FILENAME_LEN];
    var len := NumToStr(tmp, n);
    i := 0;
    while i < len
      invariant 0 <= i <= len
      invariant tmp[..len] == Decimal(n)
      invariant forall k :: 0 <= k < i ==> a[k] == tmp[k]
      invariant forall k :: i <= k < a.Length ==> a[k] == old(a[k])
    {
      a[i] := tmp[i];
      i := i + 1;
    }
    assert a[..len] == tmp[..len];
    a[i] := SEP_CHAR;
    i := i + 1;
    a[i] := SEP_CHAR;
    i := i + 1;
  }

  /** encode_fileinfo. It writes outside the array exactly for names longer than 123; the model
      stops there. */
  method EncodeFileinfo(a: array<byte>, filename: seq<byte>) returns (overrun: bool)
    requires a.Length == MAX_FILENAME_LEN && |filename| < TWO_TO_THE_64
    modifies a
    ensures overrun <==> |filename| > 123
    ensures !overrun ==> a[..] == HeaderBlock(filename, old(a[..]))
    ensures !overrun ==> LaidOut(filename, old(a[..]), a[..])
  {
    HeaderFitsExactly(filename);
    ghost var header := Header(filename);
    var n := |filename|;
    var i := PutLength(a, n);
    var start := i;
    assert header[..start] == a[..start] && header[start..] == filename;
    while i < start + n
      invariant start <= i <= start + n && i <= a.Length
      invariant forall k :: 0 <= k < i ==> a[k] == header[k]
      invariant a[i..] == old(a[..])[i..]
    {
      if i >= a.Length {
        return true;
      }
      a[i] := filename[i - start];
      i := i + 1;
    }
    assert a[..] == header + old(a[..])[i..];
    BlockIsLaidOut(filename, old(a[..]), a[..]);
    return false;
  }

  /** decode_fileinfo */
  method DecodeFileinfo(a: array<byte>) returns (filename: Option<seq<byte>>)
    requires a.Length == MAX_FILENAME_LEN
    ensures filename == DecodeHeader(a[..])
  {
    var parsed := Atoi(a[..]);
    if parsed.None? || parsed.value < 0 {
      return None;
    }
    var n := parsed.value;
    AtoiIsInt(a[..]);
    var tmp := new byte[MAX_FILENAME_LEN];
    var len := NumToStr(tmp, n);
    if len + n + SEP_LEN > a.Length {
      return None;
    }
    filename := Some(a[len + SEP_LEN..len + n + SEP_LEN]);
  }

  lemma AtoiIsInt(s: seq<byte>)
    ensures Atoi(s).Some? ==> -INT_MAX - 1 <= Atoi(s).value <= INT_MAX
  {
  }
}
