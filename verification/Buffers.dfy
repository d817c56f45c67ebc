// The byte buffers of the `bytes` crate: reads consume from the front, writes append at the back.

module Buffers {
  import opened Common

  class Bytes {
    var data: seq<byte>

    constructor (s: seq<byte>)
      ensures data == s
    {
      data := s;
    }

    method GetU8() returns (b: byte)
      requires data != []
      modifies this
      ensures b == old(data)[0] && data == old(data)[1..]
    {
      b := data[0];
      data := data[1..];
    }

    /** `split_to`; `advance` is the same with the result dropped. */
    method SplitTo(n: nat) returns (s: seq<byte>)
      requires n <= |data|
      modifies this
      ensures s == old(data)[..n] && data == old(data)[n..]
    {
      s := data[..n];
      data := data[n..];
    }

    method PutU8(b: byte)
      modifies this
      ensures data == old(data) + [b]
    {
      data := data + [b];
    }

    method Extend(s: seq<byte>)
      modifies this
      ensures data == old(data) + s
    {
      data := data + s;
    }
  }
}
