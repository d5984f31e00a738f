/** The part of `BufferedTransformation` that the codecs use: bytes put at one end and taken
    at the other. */
module ByteQueues {
  import opened Bytes

  class ByteQueue {
    var contents: seq<Byte>

    constructor (contents: seq<Byte>)
      ensures this.contents == contents
    {
      this.contents := contents;
    }

    method Put(b: Byte)
      modifies this
      ensures contents == old(contents) + [b]
    {
      contents := contents + [b];
    }

    method PutBytes(s: seq<Byte>)
      modifies this
      ensures contents == old(contents) + s
    {
      contents := contents + s;
    }

    method Get() returns (ok: bool, b: Byte)
      modifies this
      ensures ok == (old(contents) != [])
      ensures if ok then b == old(contents)[0] && contents == old(contents)[1..] else contents == []
    {
      ok, b := |contents| > 0, 0;
      if ok {
        b := contents[0];
        contents := contents[1..];
      }
    }

    /** As many bytes as there are, up to n. */
    method GetBytes(n: nat) returns (s: seq<Byte>)
      modifies this
      ensures |s| == if n < |old(contents)| then n else |old(contents)|
      ensures old(contents) == s + contents
    {
      var m := if n < |contents| then n else |contents|;
      s := contents[..m];
      contents := contents[m..];
    }

    /** `TransferTo`: moves up to n bytes and says how many. */
    method TransferTo(target: ByteQueue, n: nat) returns (moved: nat)
      requires target != this
      modifies this, target
      ensures moved == if n < |old(contents)| then n else |old(contents)|
      ensures contents == old(contents)[moved..] && target.contents == old(target.contents) + old(contents)[..moved]
    {
      var s := GetBytes(n);
      target.PutBytes(s);
      moved := |s|;
    }
  }
}
