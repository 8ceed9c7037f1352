/**
 * The byte buffer every `appendToByteBuffer` writes into.  Only the part the
 * codecs use is modelled: the bytes written so far, which only ever grow by
 * appending at the end (the write offset is their length).
 */
module Sink {

  import opened Text

  class ByteSink {
    var data: seq<byte>

    /** A fresh, empty buffer, as `serialize` creates. */
    constructor ()
      ensures data == []
    {
      data := [];
    }

    /** `bytebuffer.append(bytes)`, and the typed writes, which all append. */
    method Append(bytes: seq<byte>)
      modifies this
      ensures data == old(data) + bytes
    {
      data := data + bytes;
    }

    /** A loop of `bytebuffer.append(part)` over serialized parts, in order. */
    method AppendAll(parts: seq<seq<byte>>)
      modifies this
      ensures data == old(data) + Concat(parts)
    {
      var k := 0;
      while k < |parts|
        invariant 0 <= k <= |parts|
        invariant data == old(data) + Concat(parts[..k])
      {
        ConcatSplit(parts[..k], [parts[k]]);
        assert parts[..k + 1] == parts[..k] + [parts[k]];
        Append(parts[k]);
        k := k + 1;
      }
      assert parts[..k] == parts;
    }
  }

  /** Serialized parts written one after the other. */
  function Concat(parts: seq<seq<byte>>): seq<byte> {
    if parts == [] then [] else parts[0] + Concat(parts[1..])
  }

  /** Concatenation distributes over splitting the parts. */
  lemma {:induction false} ConcatSplit(a: seq<seq<byte>>, b: seq<seq<byte>>)
    ensures Concat(a + b) == Concat(a) + Concat(b)
  {
    if a == [] {
      assert a + b == b;
    } else {
      assert (a + b)[1..] == a[1..] + b;
      ConcatSplit(a[1..], b);
    }
  }
}
