/**
 * The fragmenter of Server.py (`split_file`): a file of n bytes becomes
 * FRAGMENT_COUNT contiguous slices of n / FRAGMENT_COUNT bytes each, except
 * the last, which runs to the end of the file and so absorbs the remainder.
 * Each slice is tagged with its index and its checksum.
 */
module Fragmenter {
  import opened Bytes
  import opened InternetChecksum
  import opened Protocol

  /** The `(i, checksum_value, fragment)` triple of `split_file`. */
  datatype Fragment = Fragment(seqNum: uint16, checksum: uint16, payload: seq<uint8>)

  /** `inner_fragment_size = file_size // Fragment_Size`. */
  function BaseSize(n: nat): nat
  {
    n / FRAGMENT_COUNT
  }

  function SliceStart(n: nat, i: nat): nat
  {
    i * BaseSize(n)
  }

  function SliceEnd(n: nat, i: nat): nat
  {
    if i != FRAGMENT_COUNT - 1 then (i + 1) * BaseSize(n) else n
  }

  /** Slices never run backwards or past the end of the file. */
  lemma SliceBounds(n: nat, i: nat)
    requires i < FRAGMENT_COUNT
    ensures SliceStart(n, i) <= SliceEnd(n, i) <= n
  {
    var b := BaseSize(n);
    assert 4 * b <= n;
    // one case per index, so that every product has a constant factor
    if i == 0 {
    } else if i == 1 {
    } else if i == 2 {
    } else {
    }
  }

  /** `file_data[start:end]` for fragment i. */
  function Slice(data: seq<uint8>, i: nat): seq<uint8>
    requires i < FRAGMENT_COUNT
  {
    SliceBounds(|data|, i);
    data[SliceStart(|data|, i)..SliceEnd(|data|, i)]
  }

  /** The i-th element of `split_file`'s result. */
  function FragmentAt(data: seq<uint8>, i: nat): Fragment
    requires i < FRAGMENT_COUNT
  {
    Fragment(i, Checksum(Slice(data, i)), Slice(data, i))
  }

  /**
   * `split_file` on file contents `data`: exactly FRAGMENT_COUNT fragments,
   * numbered 0, 1, ... in order.
   */
  function Fragments(data: seq<uint8>): (fs: seq<Fragment>)
    ensures |fs| == FRAGMENT_COUNT
    ensures forall i :: 0 <= i < FRAGMENT_COUNT ==> fs[i].seqNum == i
  {
    seq(FRAGMENT_COUNT, i requires 0 <= i < FRAGMENT_COUNT => FragmentAt(data, i))
  }

  /** Each fragment carries the checksum of its own payload. */
  lemma FragmentsCarryChecksums(data: seq<uint8>)
    ensures forall i :: 0 <= i < |Fragments(data)| ==>
      Fragments(data)[i].checksum == Checksum(Fragments(data)[i].payload)
  {
  }

  /** The first i + 1 fragments are the first i followed by fragment i. */
  lemma FragmentsSnoc(data: seq<uint8>, i: nat)
    requires i < FRAGMENT_COUNT
    ensures Fragments(data)[..i + 1] == Fragments(data)[..i] + [FragmentAt(data, i)]
  {
  }

  function Payloads(fs: seq<Fragment>): (ps: seq<seq<uint8>>)
    ensures |ps| == |fs|
    ensures forall i :: 0 <= i < |fs| ==> ps[i] == fs[i].payload
  {
    seq(|fs|, i requires 0 <= i < |fs| => fs[i].payload)
  }

  /** Appending a fragment appends its payload to the joined payloads. */
  lemma JoinPayloadsSnoc(fs: seq<Fragment>, f: Fragment)
    ensures Join(Payloads(fs + [f])) == Join(Payloads(fs)) + f.payload
  {
    assert Payloads(fs + [f]) == Payloads(fs) + [f.payload];
    JoinSnoc(Payloads(fs), f.payload);
  }

  /**
   * Every fragment but the last holds `len // Fragment_Size` bytes; the last
   * holds the rest, `len - (Fragment_Size - 1) * (len // Fragment_Size)`.
   */
  lemma FragmentSizes(data: seq<uint8>)
    ensures forall i :: 0 <= i < FRAGMENT_COUNT - 1 ==>
      |Fragments(data)[i].payload| == |data| / FRAGMENT_COUNT
    ensures |Fragments(data)[FRAGMENT_COUNT - 1].payload|
      == |data| - (FRAGMENT_COUNT - 1) * (|data| / FRAGMENT_COUNT)
  {
    forall i | 0 <= i < FRAGMENT_COUNT - 1
      ensures |Fragments(data)[i].payload| == |data| / FRAGMENT_COUNT
    {
      SliceBounds(|data|, i);
      assert SliceEnd(|data|, i) - SliceStart(|data|, i) == BaseSize(|data|);
    }
    SliceBounds(|data|, FRAGMENT_COUNT - 1);
  }

  /** A 101-byte file is cut into 25, 25, 25 and 26 bytes. */
  lemma FragmentSizesExample(data: seq<uint8>)
    requires |data| == 101
    ensures |Fragments(data)[0].payload| == 25 && |Fragments(data)[1].payload| == 25
    ensures |Fragments(data)[2].payload| == 25 && |Fragments(data)[3].payload| == 26
  {
    FragmentSizes(data);
  }

  /** Each slice starts where the previous one ends. */
  lemma SlicesContiguous(n: nat, i: nat)
    requires 0 < i < FRAGMENT_COUNT
    ensures SliceStart(n, i) == SliceEnd(n, i - 1)
  {
  }

  /** The first j fragments together are the file up to where fragment j - 1 ends. */
  lemma {:induction false} JoinFirstFragments(data: seq<uint8>, j: nat)
    requires 0 < j <= FRAGMENT_COUNT
    ensures Join(Payloads(Fragments(data)[..j])) == data[..SliceEnd(|data|, j - 1)]
  {
    var n := |data|;
    var lo, hi := SliceStart(n, j - 1), SliceEnd(n, j - 1);
    SliceBounds(n, j - 1);
    calc {
      Join(Payloads(Fragments(data)[..j]));
      { FragmentsSnoc(data, j - 1); }
      Join(Payloads(Fragments(data)[..j - 1] + [FragmentAt(data, j - 1)]));
      { JoinPayloadsSnoc(Fragments(data)[..j - 1], FragmentAt(data, j - 1)); }
      Join(Payloads(Fragments(data)[..j - 1])) + data[lo..hi];
      { if j > 1 { JoinFirstFragments(data, j - 1); SlicesContiguous(n, j - 1); } }
      data[..lo] + data[lo..hi];
      { assert data[..hi] == data[..lo] + data[lo..hi]; }
      data[..hi];
    }
  }

  /** Reassembly: the payloads concatenated in order are the original file, byte for byte. */
  lemma FragmentsReassemble(data: seq<uint8>)
    ensures Join(Payloads(Fragments(data))) == data
  {
    JoinFirstFragments(data, FRAGMENT_COUNT);
    assert Fragments(data)[..FRAGMENT_COUNT] == Fragments(data);
  }
}
