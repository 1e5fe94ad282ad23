/** The caller's output buffer, as both heatshrink state machines see it during one poll. */
module Output {
  import opened BitString

  class OutputInfo {
    const buf: array<byte>
    const bufSize: nat
    var outputSize: nat
    /** What earlier polls delivered, and what the caller's buffer held at first. */
    ghost const before: seq<byte>
    ghost const initial: seq<byte>

    /** Nothing past the bytes delivered has been touched. */
    ghost predicate Valid()
      reads this, buf
      ensures Valid() ==> outputSize <= bufSize <= buf.Length
    {
      && outputSize <= bufSize <= buf.Length == |initial|
      && buf[outputSize..] == initial[outputSize..]
    }

    /** Everything delivered up to now, over all polls. */
    ghost function Written(): seq<byte>
      requires Valid()
      reads this, buf
    {
      before + buf[..outputSize]
    }

    constructor (buf: array<byte>, bufSize: nat, ghost before: seq<byte>)
      requires bufSize <= buf.Length
      ensures Valid() && this.buf == buf && this.bufSize == bufSize && outputSize == 0
      ensures this.before == before && Written() == before && initial == buf[..]
    {
      this.buf, this.bufSize, this.outputSize, this.before := buf, bufSize, 0, before;
      this.initial := buf[..];
    }

    predicate CanTakeByte()
      reads this
    {
      outputSize < bufSize
    }

    method PushByte(b: byte)
      requires Valid() && CanTakeByte()
      modifies this`outputSize, buf
      ensures Valid() && outputSize == old(outputSize) + 1
      ensures Written() == old(Written()) + [b]
    {
      buf[outputSize] := b;
      outputSize := outputSize + 1;
      assert buf[..outputSize] == old(buf[..outputSize]) + [b];
      assert buf[outputSize..] == old(buf[outputSize..])[1..] == initial[outputSize..];
    }
  }
}
