/** The CRC-32 of Ethernet frames and the frame check sequence the TAP driver appends. */
module Crc32 {
  import opened Bits

  /** 0xEDB88320 */
  const POLYNOMIAL := Register(
    B(false, false, true, false, false, false, false, false),
    B(true, false, false, false, false, false, true, true),
    B(true, false, true, true, true, false, false, false),
    B(true, true, true, false, true, true, false, true))

  /** 0x2144DF1C, the CRC of every frame that carries its own FCS (clause 3.2.9 of IEEE 802.3). */
  const RESIDUE := Register(
    B(false, false, false, true, true, true, false, false),
    B(true, true, false, true, true, true, true, true),
    B(false, true, false, false, false, true, false, false),
    B(false, false, true, false, false, false, false, true))

  // ---------- the register ----------

  /** One shift of the reflected register. */
  function BitStep(r: Register): Register {
    if r.y0.b0 then r.ShiftRight().Xor(POLYNOMIAL) else r.ShiftRight()
  }

  /** The register after absorbing `xs`, for any way of absorbing one element. */
  function Fold<R, X>(absorb: (R, X) -> R, r: R, xs: seq<X>): R
    decreases |xs|
  {
    if xs == [] then r else Fold(absorb, absorb(r, xs[0]), xs[1..])
  }

  /** The rounds of the inner loop; each one shifts once. */
  const ROUNDS: seq<nat> := [0, 1, 2, 3, 4, 5, 6, 7]

  function Round(r: Register, j: nat): Register {
    BitStep(r)
  }

  function EightShifts(r: Register): Register {
    Fold(Round, r, ROUNDS)
  }

  function ByteStep(r: Register, b: Byte): Register {
    EightShifts(r.Xor(Widen(b)))
  }

  function Feed(r: Register, bytes: seq<Byte>): Register {
    Fold(ByteStep, r, bytes)
  }

  function Crc(frame: seq<Byte>): Register {
    Feed(Mask(true), frame).Not()
  }

  /** The four FCS bytes, least significant first. */
  function Fcs(crc: Register): seq<Byte> {
    [crc.y0, crc.y1, crc.y2, crc.y3]
  }

  // ---------- the algorithm ----------

  method ComputeCrc(buf: array<Byte>, length: nat) returns (result: Register)
    requires length <= buf.Length
    ensures result == Crc(buf[..length])
  {
    hide BitStep, ByteStep;
    var crc := Mask(true);
    for i := 0 to length
      invariant Feed(crc, buf[i..length]) == Feed(Mask(true), buf[..length])
    {
      ghost var next := ByteStep(crc, buf[i]);
      ByteStepIsEightRounds(crc, buf[i]);
      assert buf[i..length][1..] == buf[i + 1..length];
      crc := crc.Xor(Widen(buf[i]));
      for j := 0 to 8
        invariant Fold(Round, crc, ROUNDS[j..]) == next
      {
        assert ROUNDS[j..][1..] == ROUNDS[j + 1..];
        var mask := Mask(crc.y0.b0);
        MaskedStep(crc);
        crc := crc.ShiftRight().Xor(POLYNOMIAL.And(mask));
      }
    }
    return crc.Not();
  }

  lemma ByteStepIsEightRounds(r: Register, b: Byte)
    ensures ByteStep(r, b) == Fold(Round, r.Xor(Widen(b)), ROUNDS)
  {
  }

  lemma MaskedStep(r: Register)
    ensures r.ShiftRight().Xor(POLYNOMIAL.And(Mask(r.y0.b0))) == BitStep(r)
  {
    Neutral(r.ShiftRight());
    assert POLYNOMIAL.And(Mask(true)) == POLYNOMIAL;
    assert POLYNOMIAL.And(Mask(false)) == Mask(false);
  }

  /** The receive path after `read` put `received` bytes into the buffer (-1 is a read error).
      The caller's buffer has room for the four FCS bytes. */
  method Rx(buf: array<Byte>, received: int) returns (n: nat)
    requires -1 <= received && received + 4 <= buf.Length
    modifies buf
    ensures received <= 0 ==> n == 0 && buf[..] == old(buf[..])
    ensures received > 0 ==>
              && n == received + 4
              && buf[..received] == old(buf[..received])
              && buf[n..] == old(buf[received + 4..])
              && Crc(buf[..n]) == RESIDUE
  {
    hide ByteStep;
    if received <= 0 {
      return 0;
    }
    ghost var frame := buf[..received];
    var crc := ComputeCrc(buf, received);
    buf[received + 0] := crc.y0;
    buf[received + 1] := crc.y1;
    buf[received + 2] := crc.y2;
    buf[received + 3] := crc.y3;
    n := received + 4;
    assert buf[..n] == frame + Fcs(crc);
    FrameWithFcsHasConstantCrc(frame);
  }

  // ---------- linearity ----------

  lemma MasksAdditive(p: bool, q: bool)
    ensures POLYNOMIAL.And(Mask(p != q)) == POLYNOMIAL.And(Mask(p)).Xor(POLYNOMIAL.And(Mask(q)))
  {
  }

  lemma BitStepAdditive(a: Register, b: Register)
    ensures BitStep(a.Xor(b)) == BitStep(a).Xor(BitStep(b))
  {
    hide BitStep;
    MaskedStep(a);
    MaskedStep(b);
    MaskedStep(a.Xor(b));
    MasksAdditive(a.y0.b0, b.y0.b0);
    ShiftXor(a, b);
    Exchange(a.ShiftRight(), POLYNOMIAL.And(Mask(a.y0.b0)), b.ShiftRight(), POLYNOMIAL.And(Mask(b.y0.b0)));
  }

  lemma {:induction false} RoundsAdditive(a: Register, b: Register, js: seq<nat>)
    ensures Fold(Round, a.Xor(b), js) == Fold(Round, a, js).Xor(Fold(Round, b, js))
    decreases |js|
  {
    hide BitStep;
    if js != [] {
      BitStepAdditive(a, b);
      RoundsAdditive(BitStep(a), BitStep(b), js[1..]);
    }
  }

  /** The low `n` bits of the register are clear. */
  predicate LowClear(r: Register, n: nat)
    decreases n
  {
    n == 0 || (!r.y0.b0 && LowClear(r.ShiftRight(), n - 1))
  }

  function ShiftedRight(r: Register, n: nat): Register
    decreases n
  {
    if n == 0 then r else ShiftedRight(r.ShiftRight(), n - 1)
  }

  lemma {:induction false} ClearBitsShiftOut(r: Register, js: seq<nat>)
    requires LowClear(r, |js|)
    ensures Fold(Round, r, js) == ShiftedRight(r, |js|)
    decreases |js|
  {
    if js != [] {
      ClearBitsShiftOut(r.ShiftRight(), js[1..]);
    }
  }

  lemma FourMore(r: Register, n: nat)
    ensures ShiftedRight(r, n + 4) == ShiftedRight(r.ShiftRight().ShiftRight().ShiftRight().ShiftRight(), n)
    ensures LowClear(r, n + 4) ==
            (!r.y0.b0 && !r.y0.b1 && !r.y0.b2 && !r.y0.b3
             && LowClear(r.ShiftRight().ShiftRight().ShiftRight().ShiftRight(), n))
  {
    var r1 := r.ShiftRight();
    var r2 := r1.ShiftRight();
    var r3 := r2.ShiftRight();
    assert ShiftedRight(r, n + 4) == ShiftedRight(r1, n + 3) == ShiftedRight(r2, n + 2) == ShiftedRight(r3, n + 1);
    assert LowClear(r1, n + 3) == (!r1.y0.b0 && LowClear(r2, n + 2));
    assert LowClear(r2, n + 2) == (!r2.y0.b0 && LowClear(r3, n + 1));
  }

  /** The byte that straddles two neighbouring bytes. */
  function Straddle(x: Byte, y: Byte): Byte {
    Byte(x.b4, x.b5, x.b6, x.b7, y.b0, y.b1, y.b2, y.b3)
  }

  lemma FourShifts(r: Register)
    ensures r.ShiftRight().ShiftRight().ShiftRight().ShiftRight() ==
            Register(Straddle(r.y0, r.y1), Straddle(r.y1, r.y2), Straddle(r.y2, r.y3), Straddle(r.y3, Fill(false)))
  {
  }

  lemma StraddleTwice(x: Byte, y: Byte, z: Byte)
    ensures Straddle(Straddle(x, y), Straddle(y, z)) == y
  {
  }

  lemma ByteShift(a: Byte, b: Byte, c: Byte)
    ensures LowClear(Register(Fill(false), a, b, c), 8)
    ensures ShiftedRight(Register(Fill(false), a, b, c), 8) == Register(a, b, c, Fill(false))
  {
    hide Register.ShiftRight;
    var zero := Fill(false);
    var r0 := Register(zero, a, b, c);
    var r4 := Register(Straddle(zero, a), Straddle(a, b), Straddle(b, c), Straddle(c, zero));
    FourShifts(r0);
    FourMore(r0, 4);
    FourShifts(r4);
    FourMore(r4, 0);
    StraddleTwice(zero, a, b);
    StraddleTwice(a, b, c);
    StraddleTwice(b, c, zero);
    assert Straddle(Straddle(c, zero), zero) == zero;
    assert ShiftedRight(r0, 8) == ShiftedRight(r4, 4) && LowClear(r0, 8) == LowClear(r4, 4);
  }

  /** Eight shifts move a register whose low byte is clear down by one byte. */
  lemma ClearByteShiftsOut(a: Byte, b: Byte, c: Byte)
    ensures EightShifts(Register(Fill(false), a, b, c)) == Register(a, b, c, Fill(false))
  {
    ByteShift(a, b, c);
    ClearBitsShiftOut(Register(Fill(false), a, b, c), ROUNDS);
  }

  /** Only the low byte of a register meets the polynomial during eight shifts. */
  lemma HighPartShiftsDown(a: Byte, b: Byte, c: Byte, x: Register)
    ensures EightShifts(Register(Fill(false), a, b, c).Xor(x)) == Register(a, b, c, Fill(false)).Xor(EightShifts(x))
  {
    hide BitStep;
    ClearByteShiftsOut(a, b, c);
    RoundsAdditive(Register(Fill(false), a, b, c), x, ROUNDS);
  }

  lemma {:induction false} FoldAppend<R, X>(absorb: (R, X) -> R, r: R, a: seq<X>, b: seq<X>)
    ensures Fold(absorb, r, a + b) == Fold(absorb, Fold(absorb, r, a), b)
    decreases |a|
  {
    if a == [] {
      assert a + b == b;
    } else {
      assert (a + b)[1..] == a[1..] + b;
      FoldAppend(absorb, absorb(r, a[0]), a[1..], b);
    }
  }

  lemma FoldFour<R, X>(absorb: (R, X) -> R, r: R, b: seq<X>)
    requires |b| == 4
    ensures Fold(absorb, r, b) == absorb(absorb(absorb(absorb(r, b[0]), b[1]), b[2]), b[3])
  {
    var s1 := absorb(r, b[0]);
    var s2 := absorb(s1, b[1]);
    var s3 := absorb(s2, b[2]);
    assert b[1..][1..] == b[2..] && b[2..][1..] == b[3..] && b[3..][1..] == [];
    assert Fold(absorb, s1, b[1..]) == Fold(absorb, s2, b[2..]);
    assert Fold(absorb, s2, b[2..]) == Fold(absorb, s3, b[3..]);
    assert Fold(absorb, s3, b[3..]) == Fold(absorb, absorb(s3, b[3]), []);
  }

  // ---------- the residue ----------

  /** `r` moved down by one byte. */
  function Down(r: Register): Register {
    Register(r.y1, r.y2, r.y3, Fill(false))
  }

  /** Feeding the complement of a register's low byte acts on the rest as if 0xFF had been fed. */
  lemma ComplementByte(r: Register, k: Register)
    ensures ByteStep(r.Xor(k), r.y0.Not()) == Down(r).Xor(ByteStep(k, Fill(true)))
  {
    hide EightShifts;
    ComplementOperand(r, k);
    HighPartShiftsDown(r.y1, r.y2, r.y3, k.Xor(Widen(Fill(true))));
  }

  lemma ComplementOperand(r: Register, k: Register)
    ensures r.Xor(k).Xor(Widen(r.y0.Not())) == Register(Fill(false), r.y1, r.y2, r.y3).Xor(k.Xor(Widen(Fill(true))))
  {
    ComplementedByte(r.y0, k.y0);
    UntouchedByte(r.y1, k.y1);
    UntouchedByte(r.y2, k.y2);
    UntouchedByte(r.y3, k.y3);
    hide Byte.Xor, Byte.Not;
  }

  lemma ComplementedByte(a: Byte, k: Byte)
    ensures a.Xor(k).Xor(a.Not()) == Fill(false).Xor(k.Xor(Fill(true)))
  {
  }

  lemma UntouchedByte(a: Byte, k: Byte)
    ensures a.Xor(k).Xor(Fill(false)) == a.Xor(k.Xor(Fill(false)))
  {
  }

  /** Where the complement of a low byte acts like 0xFF, the complement of a register leads to the same place from
      each. */
  lemma ComplementCancels(absorb: (Register, Byte) -> Register, r: Register)
    requires forall s: Register, k: Register :: absorb(s.Xor(k), s.y0.Not()) == Down(s).Xor(absorb(k, Fill(true)))
    ensures Fold(absorb, r, Fcs(r.Not())) == Fold(absorb, Mask(false), Fcs(Mask(true)))
  {
    var ones := Fill(true);
    var k1 := absorb(Mask(false), ones);
    var k2 := absorb(k1, ones);
    var k3 := absorb(k2, ones);
    Neutral(r);
    Neutral(absorb(k3, ones));
    var r1 := Down(r);
    var r2 := Down(r1);
    var r3 := Down(r2);
    assert absorb(r, r.y0.Not()) == r1.Xor(k1);
    assert absorb(r1.Xor(k1), r.y1.Not()) == r2.Xor(k2);
    assert absorb(r2.Xor(k2), r.y2.Not()) == r3.Xor(k3);
    assert absorb(r3.Xor(k3), r.y3.Not()) == Down(r3).Xor(absorb(k3, ones));
    FoldFour(absorb, r, Fcs(r.Not()));
    FoldFour(absorb, Mask(false), Fcs(Mask(true)));
  }

  // The registers after one, two and three 0xFF bytes: 0x2D02EF8D, 0xBE2612FF and 0x00BE2612.
  const FF1 := Register(
    B(true, false, false, false, true, true, false, true),
    B(true, true, true, false, true, true, true, true),
    B(false, false, false, false, false, false, true, false),
    B(false, false, true, false, true, true, false, true))
  const FF2 := Register(
    B(true, true, true, true, true, true, true, true),
    B(false, false, false, true, false, false, true, false),
    B(false, false, true, false, false, true, true, false),
    B(true, false, true, true, true, true, true, false))
  const FF3 := Register(
    B(false, false, false, true, false, false, true, false),
    B(false, false, true, false, false, true, true, false),
    B(true, false, true, true, true, true, true, false),
    B(false, false, false, false, false, false, false, false))

  lemma EightRounds(r: Register)
    ensures EightShifts(r) == BitStep(BitStep(BitStep(BitStep(BitStep(BitStep(BitStep(BitStep(r))))))))
  {
    hide BitStep;
    FoldAppend(Round, r, ROUNDS[..4], ROUNDS[4..]);
    FoldFour(Round, r, ROUNDS[..4]);
    FoldFour(Round, Fold(Round, r, ROUNDS[..4]), ROUNDS[4..]);
    assert ROUNDS == ROUNDS[..4] + ROUNDS[4..];
  }

  lemma FirstOnes()
    ensures ByteStep(Mask(false), Fill(true)) == FF1
  {
    EightRounds(Mask(false).Xor(Widen(Fill(true))));
  }

  lemma SecondOnes()
    ensures ByteStep(FF1, Fill(true)) == FF2
  {
    EightRounds(FF1.Xor(Widen(Fill(true))));
  }

  lemma ThirdOnes()
    ensures ByteStep(FF2, Fill(true)) == FF3
  {
    EightRounds(FF2.Xor(Widen(Fill(true))));
  }

  lemma FourthOnes()
    ensures ByteStep(FF3, Fill(true)) == RESIDUE.Not()
  {
    EightRounds(FF3.Xor(Widen(Fill(true))));
  }

  lemma FoldPath<R, X>(absorb: (R, X) -> R, r0: R, r1: R, r2: R, r3: R, r4: R, xs: seq<X>)
    requires |xs| == 4
    requires absorb(r0, xs[0]) == r1 && absorb(r1, xs[1]) == r2 && absorb(r2, xs[2]) == r3 && absorb(r3, xs[3]) == r4
    ensures Fold(absorb, r0, xs) == r4
  {
    FoldFour(absorb, r0, xs);
  }

  lemma ResidueValue()
    ensures Feed(Mask(false), Fcs(Mask(true))) == RESIDUE.Not()
  {
    hide ByteStep;
    FirstOnes();
    SecondOnes();
    ThirdOnes();
    FourthOnes();
    FoldPath(ByteStep, Mask(false), FF1, FF2, FF3, RESIDUE.Not(), Fcs(Mask(true)));
  }

  /** The FCS bytes of `!r` cancel the register `r`, whatever it was. */
  lemma FcsCancelsRegister(r: Register)
    ensures Feed(r, Fcs(r.Not())) == RESIDUE.Not()
  {
    hide ByteStep;
    forall s: Register, k: Register
      ensures ByteStep(s.Xor(k), s.y0.Not()) == Down(s).Xor(ByteStep(k, Fill(true)))
    {
      ComplementByte(s, k);
    }
    ComplementCancels(ByteStep, r);
    ResidueValue();
  }

  /** 0xD202EF8D, the CRC-32 of a single zero byte. */
  const OF_ZERO := Register(
    B(true, false, false, false, true, true, false, true),
    B(true, true, true, false, true, true, true, true),
    B(false, false, false, false, false, false, true, false),
    B(true, true, false, true, false, false, true, false))

  /** The register starts with all ones and is complemented at the end. */
  lemma CrcOfNothingAndZero()
    ensures Crc([]) == Mask(false) && Crc([Fill(false)]) == OF_ZERO
  {
    ZeroStep();
    hide ByteStep;
    FoldOne(ByteStep, Mask(true), Fill(false));
  }

  lemma ZeroStep()
    ensures ByteStep(Mask(true), Fill(false)) == OF_ZERO.Not()
  {
    EightRounds(Mask(true).Xor(Widen(Fill(false))));
  }

  lemma FoldOne<R, X>(absorb: (R, X) -> R, r: R, x: X)
    ensures Fold(absorb, r, [x]) == absorb(r, x)
  {
    assert [x][1..] == [];
  }

  /** Every frame followed by its own FCS has the same CRC. */
  lemma FrameWithFcsHasConstantCrc(frame: seq<Byte>)
    ensures Crc(frame + Fcs(Crc(frame))) == RESIDUE
  {
    hide ByteStep;
    var r := Feed(Mask(true), frame);
    FoldAppend(ByteStep, Mask(true), frame, Fcs(r.Not()));
    FcsCancelsRegister(r);
  }

  // ---------- bursts ----------

  /** The inverse of one shift: the polynomial's top bit tells whether it was applied. */
  function BitUnstep(r: Register): Register {
    if r.y3.b7 then r.Xor(POLYNOMIAL).ShiftLeft(true) else r.ShiftLeft(false)
  }

  lemma BitUnstepInverts(r: Register)
    ensures BitUnstep(BitStep(r)) == r
  {
    Cancels(r.ShiftRight(), POLYNOMIAL);
    assert r.ShiftRight().ShiftLeft(r.y0.b0) == r;
  }

  lemma EightShiftsInjective(a: Register, b: Register)
    requires EightShifts(a) == EightShifts(b)
    ensures a == b
  {
    hide BitStep;
    forall r, s, j: nat | Round(r, j) == Round(s, j)
      ensures r == s
    {
      BitUnstepInverts(r);
      BitUnstepInverts(s);
    }
    FoldInjective(Round, a, b, ROUNDS);
  }

  lemma ByteStepInjective(a: Register, b: Register, x: Byte)
    requires ByteStep(a, x) == ByteStep(b, x)
    ensures a == b
  {
    hide EightShifts;
    EightShiftsInjective(a.Xor(Widen(x)), b.Xor(Widen(x)));
    Cancels(a, Widen(x));
    Cancels(b, Widen(x));
  }

  lemma {:induction false} FoldInjective<R(!new), X(!new)>(absorb: (R, X) -> R, a: R, b: R, xs: seq<X>)
    requires StepsInjective(absorb)
    requires Fold(absorb, a, xs) == Fold(absorb, b, xs)
    ensures a == b
    decreases |xs|
  {
    if xs != [] {
      FoldInjective(absorb, absorb(a, xs[0]), absorb(b, xs[0]), xs[1..]);
    }
  }

  /** `e` moved up by one byte, with `low` in the byte that becomes free. */
  function Up(low: Byte, e: Register): Register {
    Register(low, e.y0, e.y1, e.y2)
  }

  /** When two registers agree in the top byte after one byte each, the difference before is that
      difference moved up by one byte, joined with the difference of the bytes. */
  lemma DifferenceBefore(s: Register, t: Register, b: Byte, c: Byte)
    requires ByteStep(s, b).Xor(ByteStep(t, c)).y3 == Fill(false)
    ensures s.Xor(t) == Up(b.Xor(c), ByteStep(s, b).Xor(ByteStep(t, c)))
  {
    hide EightShifts;
    var x, y := s.Xor(Widen(b)), t.Xor(Widen(c));
    var e := ByteStep(s, b).Xor(ByteStep(t, c));
    var up := Up(Fill(false), e);
    HighPartShiftsDown(e.y0, e.y1, e.y2, y);
    Cancels(EightShifts(x), EightShifts(y));
    EightShiftsInjective(up.Xor(y), x);
    DifferenceOf(s, t, Widen(b), Widen(c), up);
    UpJoins(b.Xor(c), e);
  }

  lemma Before(s: Register, t: Register, b: Byte, c: Byte, e: Register) returns (d: Register)
    requires ByteStep(s, b).Xor(ByteStep(t, c)) == e && e.y3 == Fill(false)
    ensures d == s.Xor(t) == Up(b.Xor(c), e)
  {
    DifferenceBefore(s, t, b, c);
    d := s.Xor(t);
  }

  lemma UpJoins(low: Byte, e: Register)
    ensures Up(Fill(false), e).Xor(Widen(low)) == Up(low, e)
  {
  }

  lemma DifferenceOf(s: Register, t: Register, v: Register, w: Register, up: Register)
    requires up.Xor(t.Xor(w)) == s.Xor(v)
    ensures s.Xor(t) == up.Xor(v.Xor(w))
  {
    Cancels(up, t.Xor(w));
    Exchange(s, v, t, w);
    Cancels(s.Xor(t), v.Xor(w));
  }

  /** Four bytes' differences, each joined with the one after it, that end in and start from nothing. */
  lemma NoDifference(x0: Byte, x1: Byte, x2: Byte, x3: Byte)
    requires Up(x0, Up(x1, Up(x2, Up(x3, Mask(false))))) == Mask(false)
    ensures x0 == x1 == x2 == x3 == Fill(false)
  {
  }

  /** From one register, two different four-byte words never lead to the same register. */
  lemma FourBytesInjective(r: Register, a0: Byte, a1: Byte, a2: Byte, a3: Byte, b0: Byte, b1: Byte, b2: Byte, b3: Byte)
    requires ByteStep(ByteStep(ByteStep(ByteStep(r, a0), a1), a2), a3)
        == ByteStep(ByteStep(ByteStep(ByteStep(r, b0), b1), b2), b3)
    ensures a0 == b0 && a1 == b1 && a2 == b2 && a3 == b3
  {
    hide ByteStep;
    var d3 := Before(ByteStep(ByteStep(ByteStep(r, a0), a1), a2), ByteStep(ByteStep(ByteStep(r, b0), b1), b2), a3, b3,
        Mask(false));
    var d2 := Before(ByteStep(ByteStep(r, a0), a1), ByteStep(ByteStep(r, b0), b1), a2, b2, d3);
    var d1 := Before(ByteStep(r, a0), ByteStep(r, b0), a1, b1, d2);
    var d0 := Before(r, r, a0, b0, d1);
    NoDifference(a0.Xor(b0), a1.Xor(b1), a2.Xor(b2), a3.Xor(b3));
    ByteCancels(a0, b0);
    ByteCancels(a1, b1);
    ByteCancels(a2, b2);
    ByteCancels(a3, b3);
  }

  lemma ByteCancels(a: Byte, b: Byte)
    ensures a.Xor(b) == Fill(false) ==> a == b
  {
  }

  ghost predicate StepsInjective<R(!new), X(!new)>(absorb: (R, X) -> R) {
    forall r, s, x :: absorb(r, x) == absorb(s, x) ==> r == s
  }

  ghost predicate WordsInjective<R(!new), X(!new)>(absorb: (R, X) -> R) {
    forall r, a, b :: |a| == |b| == 4 && Fold(absorb, r, a) == Fold(absorb, r, b) ==> a == b
  }

  lemma ByteStepLaws()
    ensures StepsInjective(ByteStep) && WordsInjective(ByteStep)
  {
    hide ByteStep;
    forall r, s, x | ByteStep(r, x) == ByteStep(s, x)
      ensures r == s
    {
      ByteStepInjective(r, s, x);
    }
    forall r, a, b | |a| == |b| == 4 && Fold(ByteStep, r, a) == Fold(ByteStep, r, b)
      ensures a == b
    {
      WordInjective(r, a, b);
    }
  }

  lemma WordInjective(r: Register, a: seq<Byte>, b: seq<Byte>)
    requires |a| == |b| == 4 && Feed(r, a) == Feed(r, b)
    ensures a == b
  {
    hide ByteStep;
    FoldFour(ByteStep, r, a);
    FoldFour(ByteStep, r, b);
    FourBytesInjective(r, a[0], a[1], a[2], a[3], b[0], b[1], b[2], b[3]);
  }

  /** Frames of equal length that differ, but only inside the four bytes from `k`, have different CRCs. */
  lemma FourByteBurstIsDetected(a: seq<Byte>, b: seq<Byte>, k: nat)
    requires |a| == |b| && k <= |a|
    requires a != b
    requires forall i :: 0 <= i < |a| && !(k <= i < k + 4) ==> a[i] == b[i]
    ensures Crc(a) != Crc(b)
  {
    hide ByteStep;
    if Crc(a) == Crc(b) {
      NotInjective(Feed(Mask(true), a), Feed(Mask(true), b));
      ByteStepLaws();
      BurstChangesRegisterAnywhere(ByteStep, Mask(true), a, b, k, Fill(false));
      assert false;
    }
  }

  lemma BurstChangesRegisterAnywhere<R(!new), X(!new)>(absorb: (R, X) -> R, r: R, a: seq<X>, b: seq<X>, k: nat, x: X)
    requires StepsInjective(absorb) && WordsInjective(absorb)
    requires |a| == |b| && k <= |a|
    requires forall i :: 0 <= i < |a| && !(k <= i < k + 4) ==> a[i] == b[i]
    requires Fold(absorb, r, a) == Fold(absorb, r, b)
    ensures a == b
  {
    // Padding puts the whole window inside both sequences and keeps the registers equal.
    var pad := [x, x, x, x];
    FoldAppend(absorb, r, a, pad);
    FoldAppend(absorb, r, b, pad);
    BurstChangesRegister(absorb, r, a + pad, b + pad, k);
    assert a == (a + pad)[..|a|] == (b + pad)[..|a|] == b;
  }

  lemma BurstChangesRegister<R(!new), X(!new)>(absorb: (R, X) -> R, r: R, a: seq<X>, b: seq<X>, k: nat)
    requires StepsInjective(absorb) && WordsInjective(absorb)
    requires |a| == |b| && k + 4 <= |a|
    requires forall i :: 0 <= i < |a| && !(k <= i < k + 4) ==> a[i] == b[i]
    requires Fold(absorb, r, a) == Fold(absorb, r, b)
    ensures a == b
  {
    hide Fold;
    var pre, post := a[..k], a[k + 4..];
    var wa, wb := a[k..k + 4], b[k..k + 4];
    OutsideWindow(a, a, k);
    OutsideWindow(a, b, k);
    FoldThree(absorb, r, pre, wa, post);
    FoldThree(absorb, r, pre, wb, post);
    var s := Fold(absorb, r, pre);
    FoldInjective(absorb, Fold(absorb, s, wa), Fold(absorb, s, wb), post);
    assert wa == wb;
  }

  lemma OutsideWindow<X>(a: seq<X>, b: seq<X>, k: nat)
    requires |a| == |b| && k + 4 <= |a| && forall i :: 0 <= i < |a| && !(k <= i < k + 4) ==> a[i] == b[i]
    ensures b == a[..k] + b[k..k + 4] + a[k + 4..]
  {
    assert b[..k] == a[..k] && b[k + 4..] == a[k + 4..];
  }

  lemma NotInjective(s: Register, t: Register)
    requires s.Not() == t.Not()
    ensures s == t
  {
    assert s.Not().Not() == s && t.Not().Not() == t;
  }

  lemma FoldThree<R, X>(absorb: (R, X) -> R, r: R, x: seq<X>, y: seq<X>, z: seq<X>)
    ensures Fold(absorb, r, x + y + z) == Fold(absorb, Fold(absorb, Fold(absorb, r, x), y), z)
  {
    FoldAppend(absorb, r, x + y, z);
    FoldAppend(absorb, r, x, y);
  }
}
