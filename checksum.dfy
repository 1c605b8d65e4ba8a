/**
 * The 16-bit one's-complement Internet checksum of RFC 1071, section 1, as
 * `checksum` in Server.py and `calc_checksum` in client/Client.py compute it:
 * pad an odd-length buffer with one zero byte, add the big-endian 16-bit
 * words one at a time, folding the carry back in after every addition, and
 * complement the final sum.
 */
module InternetChecksum {
  import opened Bytes

  /** The end-around carry `(s & 0xffff) + (s >> 16)` for a non-negative s. */
  function Fold(s: nat): nat
  {
    s % 0x1_0000 + s / 0x1_0000
  }

  /** One fold of a sum of two 16-bit values: the sum itself below 0x10000, the sum minus 0xFFFF otherwise. */
  lemma FoldValue(s: nat)
    requires s <= 0xFFFF + 0xFFFF
    ensures Fold(s) == if s < 0x1_0000 then s else s - 0xFFFF
  {
  }

  /** The buffer the loop runs over: `file + b'\0'` when the length is odd. */
  function Padded(b: seq<uint8>): (p: seq<uint8>)
  {
    if |b| % 2 != 0 then b + [0] else b
  }

  /**
   * The running sum after the words of the even-length buffer p have been
   * added and folded, left to right. It never leaves 16 bits.
   */
  function RunningSum(p: seq<uint8>): (s: nat)
    requires |p| % 2 == 0
    ensures s <= 0xFFFF
  {
    if p == [] then 0
    else
      var before := RunningSum(p[..|p| - 2]);
      FoldValue(before + BigEndian16(p[|p| - 2], p[|p| - 1]));
      Fold(before + BigEndian16(p[|p| - 2], p[|p| - 1]))
  }

  /** One more word of the buffer: add it and fold. */
  lemma RunningSumStep(p: seq<uint8>, i: nat)
    requires i % 2 == 0 && i + 2 <= |p|
    ensures (i + 2) % 2 == 0
    ensures RunningSum(p[..i + 2]) == Fold(RunningSum(p[..i]) + BigEndian16(p[i], p[i + 1]))
  {
    assert p[..i + 2][..i] == p[..i];
  }

  /** `~s & 0xffff` for a 16-bit s. */
  function Complement(s: uint16): uint16
  {
    0xFFFF - s
  }

  /** The checksum of a byte buffer. */
  function Checksum(b: seq<uint8>): (r: uint16)
    ensures b == [] ==> r == 0xFFFF
  {
    Complement(RunningSum(Padded(b)))
  }

  /** The zero pad exists only for the computation: it does not change the result. */
  lemma PaddingIsTransparent(b: seq<uint8>)
    requires |b| % 2 == 1
    ensures Checksum(b) == Checksum(b + [0])
  {
    assert Padded(b) == b + [0];
    assert Padded(b + [0]) == b + [0];
  }

  // ---------------------------------------------------------------------
  // The reference definition: one's-complement addition is addition modulo
  // 0xFFFF, so the folded running sum agrees with the plain sum of the words
  // modulo 0xFFFF.

  /** The plain (unfolded) sum of the big-endian words of p. */
  function WordSum(p: seq<uint8>): nat
    requires |p| % 2 == 0
  {
    if p == [] then 0 else WordSum(p[..|p| - 2]) + BigEndian16(p[|p| - 2], p[|p| - 1])
  }

  lemma FoldCongruent(s: nat)
    requires s <= 0xFFFF + 0xFFFF
    ensures Fold(s) % 0xFFFF == s % 0xFFFF
  {
    FoldValue(s);
  }

  lemma {:induction false} RunningSumIsOnesComplementSum(p: seq<uint8>)
    requires |p| % 2 == 0
    ensures RunningSum(p) % 0xFFFF == WordSum(p) % 0xFFFF
  {
    if p != [] {
      var q := p[..|p| - 2];
      var w := BigEndian16(p[|p| - 2], p[|p| - 1]);
      RunningSumIsOnesComplementSum(q);
      assert RunningSum(p) == Fold(RunningSum(q) + w);
      assert WordSum(p) == WordSum(q) + w;
      FoldCongruent(RunningSum(q) + w);
      AddCongruent(RunningSum(q), WordSum(q), w);
    }
  }

  lemma AddCongruent(a: int, b: int, w: int)
    requires a % 0xFFFF == b % 0xFFFF
    ensures (a + w) % 0xFFFF == (b + w) % 0xFFFF
  {
    var m := 0xFFFF;
    assert a == m * (a / m) + a % m;
    assert b == m * (b / m) + b % m;
    assert a - b == m * (a / m - b / m);
    ModMultipleShift(b + w, a / m - b / m);
  }

  lemma ModMultipleShift(x: int, k: int)
    ensures (x + 0xFFFF * k) % 0xFFFF == x % 0xFFFF
  {
  }

  /** Two integers that differ by a non-zero amount smaller than 0xFFFF are not congruent. */
  lemma SmallShiftChangesResidue(x: int, e: int)
    requires e != 0 && -0xFFFF < e < 0xFFFF
    ensures (x + e) % 0xFFFF != x % 0xFFFF
  {
    var m := 0xFFFF;
    assert x + e == m * ((x + e) / m) + (x + e) % m;
    assert x == m * (x / m) + x % m;
  }

  /** Changing one byte of an even-length buffer changes its word sum by the byte's weight. */
  lemma {:induction false} WordSumUpdate(p: seq<uint8>, i: nat, v: uint8)
    requires |p| % 2 == 0 && i < |p|
    ensures WordSum(p[i := v]) == WordSum(p) + (v - p[i]) * (if i % 2 == 0 then 256 else 1)
  {
    var q := p[i := v];
    var n := |p|;
    if i < n - 2 {
      assert q[..n - 2] == p[..n - 2][i := v];
      WordSumUpdate(p[..n - 2], i, v);
    } else {
      assert q[..n - 2] == p[..n - 2];
    }
  }

  /**
   * Error detection: a payload whose single byte was altered in transit (in
   * particular one whose single bit was flipped) never has the checksum of
   * the original, so verification always rejects it.
   */
  lemma SingleByteCorruptionDetected(b: seq<uint8>, i: nat, v: uint8)
    requires i < |b| && v != b[i]
    ensures Checksum(b[i := v]) != Checksum(b)
  {
    var p := Padded(b);
    var q := Padded(b[i := v]);
    assert q == p[i := v];
    WordSumUpdate(p, i, v);
    RunningSumIsOnesComplementSum(p);
    RunningSumIsOnesComplementSum(q);
    var e := (v - b[i]) * (if i % 2 == 0 then 256 else 1);
    assert e != 0 && -0xFFFF < e < 0xFFFF;
    SmallShiftChangesResidue(WordSum(p), e);
  }

  /** Flips bit k (0 = least significant) of a byte. */
  function FlipBit(x: uint8, k: nat): uint8
    requires k < 8
  {
    ((x as bv8) ^ ((1 as bv8) << k)) as int
  }

  lemma FlipBitChanges(x: uint8, k: nat)
    requires k < 8
    ensures FlipBit(x, k) != x
  {
    var mask := (1 as bv8) << k;
    assert mask != 0;
    assert (x as bv8) ^ mask != x as bv8;
  }

  /** A single-bit flip anywhere in a buffer is detected. */
  lemma SingleBitFlipDetected(b: seq<uint8>, i: nat, k: nat)
    requires i < |b| && k < 8
    ensures Checksum(b[i := FlipBit(b[i], k)]) != Checksum(b)
  {
    FlipBitChanges(b[i], k);
    SingleByteCorruptionDetected(b, i, FlipBit(b[i], k));
  }
}
