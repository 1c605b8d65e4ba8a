/** Byte-level vocabulary shared by the sender and the receiver. */
module Bytes {

  /** An unsigned 8-bit value, one element of a Python `bytes` object. */
  type uint8 = x: int | 0 <= x < 0x100

  /** An unsigned 16-bit value, one field of a `!HH` header. */
  type uint16 = x: int | 0 <= x < 0x1_0000

  datatype Option<+T> = None | Some(value: T)

  /** The big-endian 16-bit word `(hi << 8) + lo`. */
  function BigEndian16(hi: uint8, lo: uint8): uint16
  {
    hi * 256 + lo
  }

  /** `b"".join(parts)`: the parts concatenated in order. */
  function Join(parts: seq<seq<uint8>>): (r: seq<uint8>)
  {
    if parts == [] then [] else Join(parts[..|parts| - 1]) + parts[|parts| - 1]
  }

  /** Joining one more part appends it. */
  lemma JoinSnoc(parts: seq<seq<uint8>>, last: seq<uint8>)
    ensures Join(parts + [last]) == Join(parts) + last
  {
    assert (parts + [last])[..|parts|] == parts;
  }

  /** Where part j begins in `Join(parts)`: the lengths of the parts before it, added up. */
  function Offset(parts: seq<seq<uint8>>, j: nat): nat
    requires j <= |parts|
  {
    if j == 0 then 0 else Offset(parts, j - 1) + |parts[j - 1]|
  }

  /** Offsets into a prefix of the parts are offsets into the parts. */
  lemma {:induction false} OffsetPrefix(parts: seq<seq<uint8>>, n: nat, j: nat)
    requires j <= n <= |parts|
    ensures Offset(parts[..n], j) == Offset(parts, j)
  {
    if j > 0 {
      OffsetPrefix(parts, n, j - 1);
    }
  }

  /** A join is as long as all its parts together. */
  lemma {:induction false} JoinLength(parts: seq<seq<uint8>>)
    ensures |Join(parts)| == Offset(parts, |parts|)
  {
    if parts != [] {
      var n := |parts| - 1;
      JoinLength(parts[..n]);
      OffsetPrefix(parts, n, n);
    }
  }

  /** Part j of a join occupies the bytes from `Offset(parts, j)` on. */
  lemma {:induction false} JoinPart(parts: seq<seq<uint8>>, j: nat)
    requires j < |parts|
    ensures Offset(parts, j) + |parts[j]| <= |Join(parts)|
    ensures Join(parts)[Offset(parts, j)..Offset(parts, j) + |parts[j]|] == parts[j]
  {
    var n := |parts| - 1;
    var init := parts[..n];
    assert Join(parts) == Join(init) + parts[n];
    OffsetPrefix(parts, n, j);
    if j == n {
      JoinLength(init);
    } else {
      JoinPart(init, j);
      assert init[j] == parts[j];
    }
  }

  /**
   * The layout of a join: it is as long as all parts together, and part j
   * occupies exactly the bytes after those of parts 0 .. j - 1.
   */
  lemma JoinLayout(parts: seq<seq<uint8>>)
    ensures |Join(parts)| == Offset(parts, |parts|)
    ensures forall j :: 0 <= j < |parts| ==>
      && Offset(parts, j) + |parts[j]| <= |Join(parts)|
      && Join(parts)[Offset(parts, j)..Offset(parts, j) + |parts[j]|] == parts[j]
  {
    JoinLength(parts);
    forall j | 0 <= j < |parts|
      ensures Offset(parts, j) + |parts[j]| <= |Join(parts)|
      ensures Join(parts)[Offset(parts, j)..Offset(parts, j) + |parts[j]|] == parts[j]
    {
      JoinPart(parts, j);
    }
  }

  /** `data.startswith(prefix)`. */
  predicate StartsWith(data: seq<uint8>, prefix: seq<uint8>)
  {
    |prefix| <= |data| && data[..|prefix|] == prefix
  }
}
