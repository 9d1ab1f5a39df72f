/** The receiving end of a connection: an ordered, reliable byte stream (section 1.5 of RFC 793)
    that arrives in segments cut wherever the network likes, and then ends or breaks. */
module Net {
  import opened Bytes

  datatype Ending = Eof | Broken

  class Stream {
    var segments: seq<seq<byte>>   // arrived or still to arrive, not yet read
    const ending: Ending           // what follows the last of them

    ghost predicate Valid()
      reads this
    {
      NonEmpty(segments)
    }

    constructor (segments: seq<seq<byte>>, ending: Ending)
      requires NonEmpty(segments)
      ensures Valid() && this.segments == segments && this.ending == ending
    {
      this.segments, this.ending := segments, ending;
    }

    /** One read of at most max bytes into buf at off: what has arrived, as far as it fits; 0 only
        at the end of the stream. */
    method ReadSome(buf: array<byte>, off: nat, max: nat) returns (n: nat)
      requires Valid() && 0 < max && off + max <= buf.Length
      modifies this, buf
      ensures Valid()
      ensures old(segments) == [] ==> n == 0 && segments == []
      ensures old(segments) != [] ==>
        && 0 < n == Min(max, |old(segments)[0]|)
        && segments == AfterRead(old(segments), max)
        && buf[off..off + n] == Take(old(segments)[0], max)
      ensures Flatten(old(segments)) == buf[off..off + n] + Flatten(segments)
      ensures buf[..off] == old(buf[..off])
    {
      if segments == [] {
        return 0;
      }
      var segment := segments[0];
      n := Min(max, |segment|);
      forall i | 0 <= i < n {
        buf[off + i] := segment[i];
      }
      assert buf[off..off + n] == segment[..n] == Take(segment, max);
      AppendAssociative(segment[..n], segment[n..], Flatten(segments[1..]));
      assert segment == segment[..n] + segment[n..];
      segments := AfterRead(segments, max);
    }
  }

  /** The segments left after one read of at most max bytes. */
  function AfterRead(segments: seq<seq<byte>>, max: nat): (rest: seq<seq<byte>>)
    requires segments != []
    ensures NonEmpty(segments) ==> NonEmpty(rest)
  {
    if |segments[0]| <= max then segments[1..] else [segments[0][max..]] + segments[1..]
  }
}
