/** The stdio and libevent objects the transfer loops work on, with the contracts of their calls. */
module Stdio {
  import opened Bytes

  /** A file opened "rb". */
  class InputFile {
    const content: seq<byte>
    var pos: nat

    ghost predicate Valid()
      reads this
    {
      pos <= |content|
    }

    constructor (content: seq<byte>)
      ensures Valid() && this.content == content && pos == 0
    {
      this.content := content;
      pos := 0;
    }

    /** fread(dst, 1, count, fp): a short count only at the end of the file. */
    method Fread(dst: array<byte>, count: nat) returns (n: nat)
      requires Valid() && count <= dst.Length
      modifies this`pos, dst
      ensures Valid()
      ensures n == Min(count, |content| - old(pos)) && pos == old(pos) + n
      ensures content[..old(pos)] + dst[..n] == content[..pos]
    {
      n := Min(count, |content| - pos);
      forall i | 0 <= i < n {
        dst[i] := content[pos + i];
      }
      pos := pos + n;
    }
  }

  /** A file opened "wb" on a disk with room for so many bytes. */
  class OutputFile {
    const room: nat
    var content: seq<byte>

    ghost predicate Valid()
      reads this
    {
      |content| <= room
    }

    constructor (room: nat)
      ensures Valid() && this.room == room && content == []
    {
      this.room := room;
      content := [];
    }

    /** fwrite(src, 1, count, fp): a short count only when the disk is full. */
    method Fwrite(src: array<byte>, count: nat) returns (n: nat)
      requires Valid() && count <= src.Length
      modifies this`content
      ensures Valid()
      ensures n == Min(count, room - |old(content)|)
      ensures content == old(content) + src[..count][..n]
    {
      n := Min(count, room - |content|);
      content := content + src[..n];
    }
  }

  /** libevent's evbuffer: bytes are added at the back and removed from the front. */
  class Evbuffer {
    var data: seq<byte>

    constructor ()
      ensures data == []
    {
      data := [];
    }

    method Add(src: array<byte>, count: nat)
      requires count <= src.Length
      modifies this
      ensures data == old(data) + src[..count]
    {
      data := data + src[..count];
    }

    /** evbuffer_remove(buf, dst, count) */
    method Remove(dst: array<byte>, count: nat) returns (n: nat)
      requires count <= dst.Length
      modifies this, dst
      ensures n == Min(count, |old(data)|)
      ensures dst[..n] + data == old(data)
    {
      n := Min(count, |data|);
      forall i | 0 <= i < n {
        dst[i] := data[i];
      }
      data := data[n..];
    }
  }
}
