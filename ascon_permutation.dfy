/** The 320-bit permutation `permutation(S, rounds)`: the state is read as
    five big-endian 64-bit words, `rounds` rounds of constant addition,
    substitution layer and linear diffusion layer are applied, and the
    words are written back.

    As written, the round constant of round `i` is computed from the
    round counter of the current call, which always starts at 0: a
    6-round call uses the constants of rounds 0..5 of the 12-round
    schedule, not of rounds 6..11. */
module AsconPermutation {

  import opened AsconWords

  /** The five words x0..x4 of the state. */
  datatype Lanes = Lanes(x0: bv64, x1: bv64, x2: bv64, x3: bv64, x4: bv64)

  /** The macro `ROTR(x, n)`. */
  function Rotr(x: bv64, n: nat): bv64
    requires 0 < n < 64
  {
    (x >> n) | (x << (64 - n))
  }

  /** `ROTR` is a right rotation for every amount the round function uses. */
  lemma RotrRotates(x: bv64)
    ensures Rotr(x, 19) == x.RotateRight(19) && Rotr(x, 28) == x.RotateRight(28)
    ensures Rotr(x, 61) == x.RotateRight(61) && Rotr(x, 39) == x.RotateRight(39)
    ensures Rotr(x, 1) == x.RotateRight(1) && Rotr(x, 6) == x.RotateRight(6)
    ensures Rotr(x, 10) == x.RotateRight(10) && Rotr(x, 17) == x.RotateRight(17)
    ensures Rotr(x, 7) == x.RotateRight(7) && Rotr(x, 41) == x.RotateRight(41)
  {
  }

  /** A value of the `int` round counter: it counts up from 0 and stays
      below `rounds`, itself an `int`. */
  type RoundIndex = i: nat | i < 0x8000_0000

  /** `((0xfull - i) << 4) | i`: the counter is converted to `u64` (which
      keeps its value) and the subtraction wraps around modulo 2^64. */
  function RoundConstant(i: RoundIndex): bv64
  {
    var w := i as bv64;
    ((0xf - w) << 4) | w
  }

  /** The constants of the first six rounds: all a `b`-round call uses. */
  lemma RoundConstantsEarly()
    ensures RoundConstant(0) == 0xf0 && RoundConstant(1) == 0xe1 && RoundConstant(2) == 0xd2
    ensures RoundConstant(3) == 0xc3 && RoundConstant(4) == 0xb4 && RoundConstant(5) == 0xa5
  {
  }

  /** The constants of the last six rounds of an `a`-round call. */
  lemma RoundConstantsLate()
    ensures RoundConstant(6) == 0x96 && RoundConstant(7) == 0x87 && RoundConstant(8) == 0x78
    ensures RoundConstant(9) == 0x69 && RoundConstant(10) == 0x5a && RoundConstant(11) == 0x4b
  {
  }

  /** Addition of the round constant: XOR into x2 only. */
  function AddRoundConstant(s: Lanes, i: RoundIndex): Lanes
  {
    s.(x2 := s.x2 ^ RoundConstant(i))
  }

  /** The substitution layer, built from XOR, NOT and AND across the five
      words. */
  function SubstitutionLayer(s: Lanes): Lanes
  {
    var x0, x4, x2 := s.x0 ^ s.x4, s.x4 ^ s.x3, s.x2 ^ s.x1;
    var x1, x3 := s.x1, s.x3;
    var t0, t1, t2, t3, t4 := !x0 & x1, !x1 & x2, !x2 & x3, !x3 & x4, !x4 & x0;
    var x0, x1, x2, x3, x4 := x0 ^ t1, x1 ^ t2, x2 ^ t3, x3 ^ t4, x4 ^ t0;
    var x1 := x1 ^ x0;
    var x0 := x0 ^ x4;
    var x3 := x3 ^ x2;
    Lanes(x0, x1, !x2, x3, x4)
  }

  /** The linear diffusion layer: each word XORed with two right rotations
      of itself, by 19/28, 61/39, 1/6, 10/17 and 7/41. */
  function LinearLayer(s: Lanes): Lanes
  {
    Lanes(s.x0 ^ Rotr(s.x0, 19) ^ Rotr(s.x0, 28),
          s.x1 ^ Rotr(s.x1, 61) ^ Rotr(s.x1, 39),
          s.x2 ^ Rotr(s.x2, 1) ^ Rotr(s.x2, 6),
          s.x3 ^ Rotr(s.x3, 10) ^ Rotr(s.x3, 17),
          s.x4 ^ Rotr(s.x4, 7) ^ Rotr(s.x4, 41))
  }

  /** One round with round counter `i`. */
  function Round(s: Lanes, i: RoundIndex): Lanes
  {
    LinearLayer(SubstitutionLayer(AddRoundConstant(s, i)))
  }

  /** `f` applied for counters `lo .. hi-1` in order; nothing when `hi <= lo`. */
  function Iterate(f: (Lanes, RoundIndex) -> Lanes, s: Lanes, lo: RoundIndex, hi: Int32): Lanes
    decreases hi - lo
  {
    if hi <= lo then s else f(Iterate(f, s, lo, hi - 1), hi - 1)
  }

  /** The words after the round loop of one call with `rounds` rounds: the
      counter, and so the constant schedule, starts at 0 in every call. */
  function Rounds(s: Lanes, rounds: Int32): Lanes
  {
    Iterate(Round, s, 0, rounds)
  }

  function BytesToLanes(S: seq<Byte>): Lanes
    requires |S| == 40
  {
    Lanes(BigEndianWord(S[0..8]), BigEndianWord(S[8..16]), BigEndianWord(S[16..24]),
          BigEndianWord(S[24..32]), BigEndianWord(S[32..40]))
  }

  function LanesToBytes(w: Lanes): (r: seq<Byte>)
    ensures |r| == 40
  {
    BigEndianBytes(w.x0) + BigEndianBytes(w.x1) + BigEndianBytes(w.x2) +
    BigEndianBytes(w.x3) + BigEndianBytes(w.x4)
  }

  /** The state after `permutation(S, rounds)`. */
  function Permute(S: seq<Byte>, rounds: Int32): (r: seq<Byte>)
    requires |S| == 40
    ensures |r| == 40
  {
    LanesToBytes(Rounds(BytesToLanes(S), rounds))
  }

  /** Reading the state into words and writing them back changes nothing. */
  lemma LanesRoundTrip(S: seq<Byte>)
    requires |S| == 40
    ensures LanesToBytes(BytesToLanes(S)) == S
  {
    BytesOfWord(S[0..8]);
    BytesOfWord(S[8..16]);
    BytesOfWord(S[16..24]);
    BytesOfWord(S[24..32]);
    BytesOfWord(S[32..40]);
    var w := BytesToLanes(S);
    FiveSlices(S, BigEndianBytes(w.x0), BigEndianBytes(w.x1), BigEndianBytes(w.x2), BigEndianBytes(w.x3), BigEndianBytes(w.x4));
  }

  /** Five consecutive eight-byte slices of a 40-byte sequence make it up. */
  lemma FiveSlices(S: seq<Byte>, a: seq<Byte>, b: seq<Byte>, c: seq<Byte>, d: seq<Byte>, e: seq<Byte>)
    requires |S| == 40
    requires a == S[0..8] && b == S[8..16] && c == S[16..24] && d == S[24..32] && e == S[32..40]
    ensures a + b + c + d + e == S
  {
    assert S[0..8] + S[8..16] == S[0..16];
    assert S[0..16] + S[16..24] == S[0..24];
    assert S[0..24] + S[24..32] == S[0..32];
    assert S[0..32] + S[32..40] == S;
  }

  /** A call with no rounds (or a negative count) leaves the state unchanged. */
  lemma PermuteNoRounds(S: seq<Byte>, rounds: Int32)
    requires |S| == 40 && rounds <= 0
    ensures Permute(S, rounds) == S
  {
    LanesRoundTrip(S);
  }

  /** An iteration splits into a prefix and the rest of the same schedule. */
  lemma {:induction false} IterateSplit(f: (Lanes, RoundIndex) -> Lanes, s: Lanes, lo: RoundIndex, mid: RoundIndex, hi: Int32)
    requires lo <= mid <= hi
    ensures Iterate(f, s, lo, hi) == Iterate(f, Iterate(f, s, lo, mid), mid, hi)
    decreases hi - mid
  {
    if hi > mid {
      IterateSplit(f, s, lo, mid, hi - 1);
    }
  }

  /** The 12-round call is the 6-round call followed by rounds 6..11 of
      the same schedule: the 6-round call applies the first six rounds
      (constants 0xf0 .. 0xa5) of the 12-round one, not its last six. */
  lemma PartialRoundsArePrefix(s: Lanes)
    ensures Rounds(s, 12) == Iterate(Round, Rounds(s, 6), 6, 12)
  {
    IterateSplit(Round, s, 0, 6, 12);
  }

  /** The five `store64` calls at offsets 0, 8, .., 32 write the whole state. */
  lemma StoresCompose(s0: seq<Byte>, s1: seq<Byte>, s2: seq<Byte>, s3: seq<Byte>,
                      s4: seq<Byte>, s5: seq<Byte>, w: Lanes)
    requires |s0| == 40
    requires s1 == s0[..0] + BigEndianBytes(w.x0) + s0[8..]
    requires s2 == s1[..8] + BigEndianBytes(w.x1) + s1[16..]
    requires s3 == s2[..16] + BigEndianBytes(w.x2) + s2[24..]
    requires s4 == s3[..24] + BigEndianBytes(w.x3) + s3[32..]
    requires s5 == s4[..32] + BigEndianBytes(w.x4) + s4[40..]
    ensures s5 == LanesToBytes(w)
  {
    assert s2[..16] == BigEndianBytes(w.x0) + BigEndianBytes(w.x1);
    assert s3[..24] == s2[..16] + BigEndianBytes(w.x2);
    assert s4[..32] == s3[..24] + BigEndianBytes(w.x3);
  }

  /** The round loop of `permutation`, over the local words x0..x4: each
      turn is one `Round`. */
  method RoundLoop(w: Lanes, rounds: Int32) returns (r: Lanes)
    ensures r == Rounds(w, rounds)
  {
    var x0, x1, x2, x3, x4 := w.x0, w.x1, w.x2, w.x3, w.x4;
    var i := 0;
    while i < rounds
      invariant 0 <= i && (i <= rounds || i == 0)
      invariant Lanes(x0, x1, x2, x3, x4) == Rounds(w, i)
    {
      // addition of round constant, substitution layer, linear diffusion
      // layer: the statements of the loop body, as the function `Round`
      var t := Round(Lanes(x0, x1, x2, x3, x4), i);
      x0, x1, x2, x3, x4 := t.x0, t.x1, t.x2, t.x3, t.x4;
      i := i + 1;
    }
    r := Lanes(x0, x1, x2, x3, x4);
  }

  /** The five `load64` calls at the head of `permutation`. */
  method LoadLanes(S: array<Byte>) returns (w: Lanes)
    requires S.Length == 40
    ensures w == BytesToLanes(S[..])
  {
    var x0 := Load64(S, 0);
    var x1 := Load64(S, 8);
    var x2 := Load64(S, 16);
    var x3 := Load64(S, 24);
    var x4 := Load64(S, 32);
    w := Lanes(x0, x1, x2, x3, x4);
  }

  /** The five `store64` calls at the end of `permutation`. */
  method StoreLanes(S: array<Byte>, w: Lanes)
    requires S.Length == 40
    modifies S
    ensures S[..] == LanesToBytes(w)
  {
    ghost var s0 := S[..];
    Store64(S, 0, w.x0);
    ghost var s1 := S[..];
    Store64(S, 8, w.x1);
    ghost var s2 := S[..];
    Store64(S, 16, w.x2);
    ghost var s3 := S[..];
    Store64(S, 24, w.x3);
    ghost var s4 := S[..];
    Store64(S, 32, w.x4);
    StoresCompose(s0, s1, s2, s3, s4, S[..], w);
  }

  /** `permutation(S, rounds)`. */
  method Permutation(S: array<Byte>, rounds: Int32)
    requires S.Length == 40
    modifies S
    ensures S[..] == Permute(old(S[..]), rounds)
  {
    var w := LoadLanes(S);
    w := RoundLoop(w, rounds);
    StoreLanes(S, w);
  }
}
