/** Bytes and 32-bit registers as records of bits, with the C operators the CRC code applies to them. */
module Bits {

  /** Bit `b0` is the least significant one. */
  datatype Byte = Byte(b0: bool, b1: bool, b2: bool, b3: bool, b4: bool, b5: bool, b6: bool, b7: bool) {
    function Xor(o: Byte): Byte {
      Byte(b0 != o.b0, b1 != o.b1, b2 != o.b2, b3 != o.b3, b4 != o.b4, b5 != o.b5, b6 != o.b6, b7 != o.b7)
    }

    function And(o: Byte): Byte {
      Byte(b0 && o.b0, b1 && o.b1, b2 && o.b2, b3 && o.b3, b4 && o.b4, b5 && o.b5, b6 && o.b6, b7 && o.b7)
    }

    function Not(): Byte {
      Byte(!b0, !b1, !b2, !b3, !b4, !b5, !b6, !b7)
    }

    function ShiftRight(carry: bool): Byte {
      Byte(b1, b2, b3, b4, b5, b6, b7, carry)
    }

    function ShiftLeft(carry: bool): Byte {
      Byte(carry, b0, b1, b2, b3, b4, b5, b6)
    }
  }

  /** A byte written with its most significant bit first, as two groups of four. */
  function B(b7: bool, b6: bool, b5: bool, b4: bool, b3: bool, b2: bool, b1: bool, b0: bool): Byte {
    Byte(b0, b1, b2, b3, b4, b5, b6, b7)
  }

  function Fill(bit: bool): Byte {
    Byte(bit, bit, bit, bit, bit, bit, bit, bit)
  }

  /** `y0` is the least significant byte. */
  datatype Register = Register(y0: Byte, y1: Byte, y2: Byte, y3: Byte) {
    function Xor(o: Register): Register {
      Register(y0.Xor(o.y0), y1.Xor(o.y1), y2.Xor(o.y2), y3.Xor(o.y3))
    }

    function And(o: Register): Register {
      Register(y0.And(o.y0), y1.And(o.y1), y2.And(o.y2), y3.And(o.y3))
    }

    function Not(): Register {
      Register(y0.Not(), y1.Not(), y2.Not(), y3.Not())
    }

    function ShiftRight(): Register {
      Register(y0.ShiftRight(y1.b0), y1.ShiftRight(y2.b0), y2.ShiftRight(y3.b0), y3.ShiftRight(false))
    }

    function ShiftLeft(carry: bool): Register {
      Register(y0.ShiftLeft(carry), y1.ShiftLeft(y0.b7), y2.ShiftLeft(y1.b7), y3.ShiftLeft(y2.b7))
    }
  }

  /** The register `-(bit)` in two's complement: all ones or zero. */
  function Mask(bit: bool): Register {
    Register(Fill(bit), Fill(bit), Fill(bit), Fill(bit))
  }

  /** A byte widened to a register. */
  function Widen(b: Byte): Register {
    Register(b, Fill(false), Fill(false), Fill(false))
  }

  lemma ByteAssociates(a: Byte, b: Byte, c: Byte)
    ensures a.Xor(b).Xor(c) == a.Xor(b.Xor(c))
  {
  }

  lemma ByteCommutes(a: Byte, b: Byte)
    ensures a.Xor(b) == b.Xor(a)
  {
  }

  lemma ByteNeutral(a: Byte)
    ensures a.Xor(Fill(false)) == a == Fill(false).Xor(a)
    ensures a.Xor(a) == Fill(false)
  {
  }

  lemma Associates(a: Register, b: Register, c: Register)
    ensures a.Xor(b).Xor(c) == a.Xor(b.Xor(c))
  {
    ByteAssociates(a.y0, b.y0, c.y0);
    ByteAssociates(a.y1, b.y1, c.y1);
    ByteAssociates(a.y2, b.y2, c.y2);
    ByteAssociates(a.y3, b.y3, c.y3);
  }

  lemma Commutes(a: Register, b: Register)
    ensures a.Xor(b) == b.Xor(a)
  {
    ByteCommutes(a.y0, b.y0);
    ByteCommutes(a.y1, b.y1);
    ByteCommutes(a.y2, b.y2);
    ByteCommutes(a.y3, b.y3);
  }

  lemma Neutral(a: Register)
    ensures a.Xor(Mask(false)) == a == Mask(false).Xor(a)
    ensures a.Xor(a) == Mask(false)
  {
    ByteNeutral(a.y0);
    ByteNeutral(a.y1);
    ByteNeutral(a.y2);
    ByteNeutral(a.y3);
  }

  /** Exchanging the inner operands of two xors. */
  lemma Exchange(a: Register, b: Register, c: Register, d: Register)
    ensures a.Xor(b).Xor(c.Xor(d)) == a.Xor(c).Xor(b.Xor(d))
  {
    Associates(a, b, c.Xor(d));
    Associates(b, c, d);
    Commutes(b, c);
    Associates(c, b, d);
    Associates(a, c, b.Xor(d));
  }

  lemma Cancels(a: Register, b: Register)
    ensures a.Xor(b).Xor(b) == a
  {
    Associates(a, b, b);
    Neutral(a);
    Neutral(b);
  }

  lemma ByteShiftXor(a: Byte, b: Byte, p: bool, q: bool)
    ensures a.Xor(b).ShiftRight(p != q) == a.ShiftRight(p).Xor(b.ShiftRight(q))
  {
  }

  lemma ShiftXor(a: Register, b: Register)
    ensures a.Xor(b).ShiftRight() == a.ShiftRight().Xor(b.ShiftRight())
  {
    ByteShiftXor(a.y0, b.y0, a.y1.b0, b.y1.b0);
    ByteShiftXor(a.y1, b.y1, a.y2.b0, b.y2.b0);
    ByteShiftXor(a.y2, b.y2, a.y3.b0, b.y3.b0);
    ByteShiftXor(a.y3, b.y3, false, false);
  }
}
