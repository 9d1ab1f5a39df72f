/** A streaming digest in the shape of MD5_Init / MD5_Update / MD5_Final. The state of an
    MD5_CTX is finite, so it is coded as a number; what the rounds compute is left open. */
module StreamingDigest {
  import opened Bytes

  datatype Md5 = Md5(init: nat, absorb: (nat, byte) -> nat, final: nat -> Digest) {

    /** The effect of one MD5_Update on the context. */
    function Update(ctx: nat, data: seq<byte>): nat
      decreases |data|
    {
      if data == [] then ctx else Update(absorb(ctx, data[0]), data[1..])
    }

    /** The digest of a whole message, taken in one update. */
    function Sum(data: seq<byte>): Digest {
      final(Update(init, data))
    }

    /** Every byte is absorbed, each once and in order. */
    lemma {:induction false} UpdateAbsorbs(ctx: nat, data: seq<byte>, b: byte)
      ensures Update(ctx, []) == ctx
      ensures Update(ctx, data + [b]) == absorb(Update(ctx, data), b)
    {
      UpdateInPieces(ctx, data, [b]);
      assert [b][1..] == [];
    }

    /** Updating piece by piece is updating with the whole. */
    lemma {:induction false} UpdateInPieces(ctx: nat, a: seq<byte>, b: seq<byte>)
      ensures Update(ctx, a + b) == Update(Update(ctx, a), b)
      decreases |a|
    {
      if a == [] {
        assert a + b == b;
      } else {
        UpdateInPieces(absorb(ctx, a[0]), a[1..], b);
        assert (a + b)[1..] == a[1..] + b;
      }
    }
  }
}
