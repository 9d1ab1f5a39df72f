/** Bytes, fixed-width little-endian numbers and the theory of segmentations: how a stream
    may be cut into pieces, and how it is cut into blocks of a given size. */
module Bytes {

  newtype byte = x: int | 0 <= x < 256

  datatype Option<+T> = None | Some(value: T)

  /** glibc's BUFSIZ, the block size of every stdio and socket loop of the C and C++ programs. */
  const BUFSIZ: nat := 8192

  const TWO_TO_THE_64: nat := 0x1_0000_0000_0000_0000

  type Digest = s: seq<byte> | |s| == 16 witness Zeros(16)

  function Zeros(n: nat): (z: seq<byte>)
    ensures |z| == n
  {
    seq(n, _ => 0)
  }

  function Min(a: nat, b: nat): (m: nat)
    ensures m <= a && m <= b && (m == a || m == b)
  {
    if a < b then a else b
  }

  function Take<T>(s: seq<T>, n: nat): seq<T> {
    if n < |s| then s[..n] else s
  }

  function Drop<T>(s: seq<T>, n: nat): seq<T> {
    if n < |s| then s[n..] else []
  }

  lemma AppendAssociative<T>(a: seq<T>, b: seq<T>, c: seq<T>)
    ensures a + (b + c) == (a + b) + c
  {
  }

  function Ascii(s: string): seq<byte> {
    seq(|s|, i requires 0 <= i < |s| => (s[i] as int % 256) as byte)
  }

  // ---- Segmentations

  function Flatten<T>(segs: seq<seq<T>>): seq<T> {
    if segs == [] then [] else segs[0] + Flatten(segs[1..])
  }

  predicate NonEmpty<T>(segs: seq<seq<T>>) {
    forall i :: 0 <= i < |segs| ==> segs[i] != []
  }

  lemma {:induction false} FlattenAppend<T>(a: seq<seq<T>>, b: seq<seq<T>>)
    ensures Flatten(a + b) == Flatten(a) + Flatten(b)
  {
    if a == [] {
      assert a + b == b;
    } else {
      FlattenAppend(a[1..], b);
      AppendAssociative(a[0], Flatten(a[1..]), Flatten(b));
      assert (a + b)[0] == a[0] && (a + b)[1..] == a[1..] + b;
    }
  }

  // ---- Blocks

  /** The stream cut into blocks of b: every block full but perhaps the last, none empty. */
  function Blocks<T>(s: seq<T>, b: nat): seq<seq<T>>
    requires b > 0
    decreases |s|
  {
    if s == [] then [] else [Take(s, b)] + Blocks(Drop(s, b), b)
  }

  ghost predicate Blocked<T>(blocks: seq<seq<T>>, b: nat) {
    && (forall i :: 0 <= i < |blocks| ==> 0 < |blocks[i]| <= b)
    && (forall i :: 0 <= i < |blocks| - 1 ==> |blocks[i]| == b)
  }

  /** k is the number of units of b needed to hold n: the ceiling of n / b. */
  ghost predicate IsCeiling(k: nat, n: nat, b: nat) {
    n <= k * b && (k > 0 ==> (k - 1) * b < n)
  }

  lemma {:induction false} BlocksCutTheStream<T>(s: seq<T>, b: nat)
    requires b > 0
    ensures Flatten(Blocks(s, b)) == s
    ensures Blocked(Blocks(s, b), b)
    decreases |s|
  {
    if s != [] {
      var t := Blocks(Drop(s, b), b);
      BlocksCutTheStream(Drop(s, b), b);
      assert s == Take(s, b) + Drop(s, b);
      assert Blocks(s, b)[0] == Take(s, b) && Blocks(s, b)[1..] == t;
      BlockBefore(Take(s, b), t, b);
    }
  }

  /** A full block, or any if it is the only one, goes before blocks. */
  lemma BlockBefore<T>(block: seq<T>, blocks: seq<seq<T>>, b: nat)
    requires Blocked(blocks, b) && 0 < |block| <= b && (blocks != [] ==> |block| == b)
    ensures Blocked([block] + blocks, b)
  {
    forall i | 0 < i < |blocks| + 1 ensures ([block] + blocks)[i] == blocks[i - 1] {
    }
  }

  lemma {:induction false} BlocksCount<T>(s: seq<T>, b: nat)
    requires b > 0
    ensures IsCeiling(|Blocks(s, b)|, |s|, b)
    decreases |s|
  {
    if s != [] {
      BlocksCount(Drop(s, b), b);
      var k := |Blocks(Drop(s, b), b)|;
      assert |Blocks(s, b)| == k + 1;
      assert (k + 1) * b == k * b + b;
      assert k > 0 ==> (k - 1) * b + b == k * b;
      if |s| <= b {
        assert k == 0;
      }
    }
  }

  /** There is only one way to cut a stream into blocks of b. */
  lemma {:induction false} BlocksUnique<T>(blocks: seq<seq<T>>, b: nat)
    requires b > 0 && Blocked(blocks, b)
    ensures blocks == Blocks(Flatten(blocks), b)
  {
    if blocks != [] {
      var tail := blocks[1..];
      BlocksUnique(tail, b);
      var s := Flatten(blocks);
      if tail == [] {
        assert s == blocks[0];
      } else {
        assert Flatten(tail) == tail[0] + Flatten(tail[1..]);
      }
      assert Take(s, b) == blocks[0] && Drop(s, b) == Flatten(tail);
    }
  }

  // ---- Little-endian numbers

  function LittleEndian(v: nat, width: nat): (s: seq<byte>)
    ensures |s| == width
  {
    if width == 0 then [] else [(v % 256) as byte] + LittleEndian(v / 256, width - 1)
  }

  function FromLittleEndian(s: seq<byte>): nat {
    if s == [] then 0 else s[0] as nat + 256 * FromLittleEndian(s[1..])
  }

  function Pow256(n: nat): (p: nat)
    ensures p > 0
  {
    if n == 0 then 1 else 256 * Pow256(n - 1)
  }

  lemma FourBytes(s: seq<byte>, rest: nat)
    requires |s| >= 4 && FromLittleEndian(s[4..]) == rest
    ensures FromLittleEndian(s) == s[0] as nat + 0x100 * s[1] as nat + 0x1_0000 * s[2] as nat + 0x100_0000 * s[3] as nat
                                   + 0x1_0000_0000 * rest
  {
    assert s[1..][1..] == s[2..] && s[2..][1..] == s[3..] && s[3..][1..] == s[4..];
    assert FromLittleEndian(s[3..]) == s[3] as nat + 0x100 * rest;
    assert FromLittleEndian(s[2..]) == s[2] as nat + 0x100 * FromLittleEndian(s[3..]);
    assert FromLittleEndian(s[1..]) == s[1] as nat + 0x100 * FromLittleEndian(s[2..]);
  }

  /** The first byte is the least significant one. */
  lemma LittleEndianOfEight(s: seq<byte>)
    requires |s| == 8
    ensures FromLittleEndian(s)
      == s[0] as nat + 0x100 * s[1] as nat + 0x1_0000 * s[2] as nat + 0x100_0000 * s[3] as nat
         + 0x1_0000_0000 * s[4] as nat + 0x100_0000_0000 * s[5] as nat
         + 0x1_0000_0000_0000 * s[6] as nat + 0x100_0000_0000_0000 * s[7] as nat
  {
    assert s[4..][4..] == [];
    FourBytes(s[4..], 0);
    FourBytes(s, FromLittleEndian(s[4..]));
  }

  lemma {:induction false} LittleEndianRoundTrip(v: nat, width: nat)
    requires v < Pow256(width)
    ensures FromLittleEndian(LittleEndian(v, width)) == v
  {
    if width > 0 {
      LittleEndianRoundTrip(v / 256, width - 1);
    }
  }

  lemma {:induction false} FromLittleEndianRoundTrip(s: seq<byte>)
    ensures FromLittleEndian(s) < Pow256(|s|)
    ensures LittleEndian(FromLittleEndian(s), |s|) == s
  {
    if s != [] {
      FromLittleEndianRoundTrip(s[1..]);
    }
  }

  /** Clearing the high bytes of a little-endian number cannot make it larger. */
  lemma {:induction false} LittleEndianMonotone(s: seq<byte>, t: seq<byte>)
    requires |s| == |t|
    requires forall i :: 0 <= i < |s| ==> s[i] <= t[i]
    ensures FromLittleEndian(s) <= FromLittleEndian(t)
  {
    if s != [] {
      LittleEndianMonotone(s[1..], t[1..]);
    }
  }

  lemma EightBytes()
    ensures Pow256(8) == TWO_TO_THE_64
  {
    assert Pow256(4) == 0x1_0000_0000 by {
      assert Pow256(2) == 0x1_0000;
      assert Pow256(3) == 0x100_0000;
    }
    assert Pow256(6) == 0x1_0000_0000_0000 by {
      assert Pow256(5) == 0x100_0000_0000;
    }
    assert Pow256(7) == 0x100_0000_0000_0000;
  }
}
