/** CRC-32: the nibble-table and the byte-table loops against the bit-serial form (section 8 of
    RFC 1952). A 32-bit word is written as eight hexadecimal digits of four bits each. */
module Crc32 {

  datatype Digit = Digit(b3: bool, b2: bool, b1: bool, b0: bool)

  datatype Octet = Octet(hi: Digit, lo: Digit)

  datatype Word = Word(d7: Digit, d6: Digit, d5: Digit, d4: Digit, d3: Digit, d2: Digit, d1: Digit, d0: Digit)

  function XorDigit(x: Digit, y: Digit): Digit {
    Digit(x.b3 != y.b3, x.b2 != y.b2, x.b1 != y.b1, x.b0 != y.b0)
  }

  function Xor(a: Word, b: Word): Word {
    Word(XorDigit(a.d7, b.d7), XorDigit(a.d6, b.d6), XorDigit(a.d5, b.d5), XorDigit(a.d4, b.d4),
         XorDigit(a.d3, b.d3), XorDigit(a.d2, b.d2), XorDigit(a.d1, b.d1), XorDigit(a.d0, b.d0))
  }

  /** A digit shifted right by one bit, `top` moving in from the digit above. */
  function ShiftDigit(top: Digit, x: Digit): Digit {
    Digit(top.b0, x.b3, x.b2, x.b1)
  }

  function Shift1(a: Word): Word {
    Word(ShiftDigit(X0, a.d7), ShiftDigit(a.d7, a.d6), ShiftDigit(a.d6, a.d5), ShiftDigit(a.d5, a.d4),
         ShiftDigit(a.d4, a.d3), ShiftDigit(a.d3, a.d2), ShiftDigit(a.d2, a.d1), ShiftDigit(a.d1, a.d0))
  }

  function Shift4(a: Word): Word {
    Word(X0, a.d7, a.d6, a.d5, a.d4, a.d3, a.d2, a.d1)
  }

  // The hexadecimal digits.
  const X0: Digit := Digit(false, false, false, false)
  const X1: Digit := Digit(false, false, false, true)
  const X2: Digit := Digit(false, false, true, false)
  const X3: Digit := Digit(false, false, true, true)
  const X4: Digit := Digit(false, true, false, false)
  const X5: Digit := Digit(false, true, false, true)
  const X6: Digit := Digit(false, true, true, false)
  const X7: Digit := Digit(false, true, true, true)
  const X8: Digit := Digit(true, false, false, false)
  const X9: Digit := Digit(true, false, false, true)
  const XA: Digit := Digit(true, false, true, false)
  const XB: Digit := Digit(true, false, true, true)
  const XC: Digit := Digit(true, true, false, false)
  const XD: Digit := Digit(true, true, false, true)
  const XE: Digit := Digit(true, true, true, false)
  const XF: Digit := Digit(true, true, true, true)

  // ----- the bit-serial form -----

  /** One bit of the division by a reflected polynomial. */
  function Divide(p: Word, c: Word): Word {
    if c.d0.b0 then Xor(p, Shift1(c)) else Shift1(c)
  }

  /** Four bits of it. */
  function Divide4(p: Word, c: Word): Word {
    Divide(p, Divide(p, Divide(p, Divide(p, c))))
  }

  function Nibble(c: Word): Word {
    Divide4(Word(XE, XD, XB, X8, X8, X3, X2, X0), c)
  }

  function WithByte(c: Word, b: Octet): Word {
    c.(d1 := XorDigit(c.d1, b.hi), d0 := XorDigit(c.d0, b.lo))
  }

  /** The register after a string of bytes. */
  function Register(data: seq<Octet>): Word {
    if |data| == 0 then Word(XF, XF, XF, XF, XF, XF, XF, XF)
    else Nibble(Nibble(WithByte(Register(data[..|data| - 1]), data[|data| - 1])))
  }

  function Crc(data: seq<Octet>): Word {
    Xor(Register(data), Word(XF, XF, XF, XF, XF, XF, XF, XF))
  }

  lemma RegisterNext(data: seq<Octet>, n: nat)
    requires n < |data|
    ensures Register(data[..n + 1]) == Nibble(Nibble(WithByte(Register(data[..n]), data[n])))
  {
    assert data[..n + 1][..n] == data[..n];
  }

  // ----- the division is linear -----

  lemma DigitMoves(p: Digit, x: Digit, y: Digit)
    ensures XorDigit(p, XorDigit(x, y)) == XorDigit(XorDigit(p, x), y) == XorDigit(x, XorDigit(p, y))
    ensures XorDigit(XorDigit(p, x), XorDigit(p, y)) == XorDigit(x, y)
  {
  }

  lemma XorMoves(p: Word, x: Word, y: Word)
    ensures Xor(p, Xor(x, y)) == Xor(Xor(p, x), y) == Xor(x, Xor(p, y))
    ensures Xor(Xor(p, x), Xor(p, y)) == Xor(x, y)
  {
    DigitMoves(p.d7, x.d7, y.d7);
    DigitMoves(p.d6, x.d6, y.d6);
    DigitMoves(p.d5, x.d5, y.d5);
    DigitMoves(p.d4, x.d4, y.d4);
    DigitMoves(p.d3, x.d3, y.d3);
    DigitMoves(p.d2, x.d2, y.d2);
    DigitMoves(p.d1, x.d1, y.d1);
    DigitMoves(p.d0, x.d0, y.d0);
  }

  lemma ShiftDigitLinear(t: Digit, u: Digit, x: Digit, y: Digit)
    ensures ShiftDigit(XorDigit(t, u), XorDigit(x, y)) == XorDigit(ShiftDigit(t, x), ShiftDigit(u, y))
  {
  }

  lemma ShiftLinear(a: Word, b: Word)
    ensures Shift1(Xor(a, b)) == Xor(Shift1(a), Shift1(b))
  {
    ShiftDigitLinear(X0, X0, a.d7, b.d7);
    ShiftDigitLinear(a.d7, b.d7, a.d6, b.d6);
    ShiftDigitLinear(a.d6, b.d6, a.d5, b.d5);
    ShiftDigitLinear(a.d5, b.d5, a.d4, b.d4);
    ShiftDigitLinear(a.d4, b.d4, a.d3, b.d3);
    ShiftDigitLinear(a.d3, b.d3, a.d2, b.d2);
    ShiftDigitLinear(a.d2, b.d2, a.d1, b.d1);
    ShiftDigitLinear(a.d1, b.d1, a.d0, b.d0);
  }

  lemma DivideLinear(p: Word, a: Word, b: Word)
    ensures Divide(p, Xor(a, b)) == Xor(Divide(p, a), Divide(p, b))
  {
    ShiftLinear(a, b);
    XorMoves(p, Shift1(a), Shift1(b));
  }

  lemma Divide4Linear(p: Word, a: Word, b: Word)
    ensures Divide4(p, Xor(a, b)) == Xor(Divide4(p, a), Divide4(p, b))
  {
    var a1, b1 := Divide(p, a), Divide(p, b);
    var a2, b2 := Divide(p, a1), Divide(p, b1);
    DivideLinear(p, a, b);
    DivideLinear(p, a1, b1);
    DivideLinear(p, a2, b2);
    DivideLinear(p, Divide(p, a2), Divide(p, b2));
  }

  // ----- the tables -----

  datatype Four = Four(w0: Word, w1: Word, w2: Word, w3: Word)

  /** Sixteen consecutive entries of a table. */
  datatype Row = Row(q0: Four, q1: Four, q2: Four, q3: Four)

  function PickOfFour(f: Four, x: Digit): Word {
    if x.b1 then (if x.b0 then f.w3 else f.w2) else (if x.b0 then f.w1 else f.w0)
  }

  /** The entry that a digit numbers. */
  function Pick(r: Row, x: Digit): Word {
    PickOfFour(if x.b3 then (if x.b2 then r.q3 else r.q2) else (if x.b2 then r.q1 else r.q0), x)
  }

  const NibbleTable: Row := Row(
    Four(Word(X0, X0, X0, X0, X0, X0, X0, X0), Word(X1, XD, XB, X7, X1, X0, X6, X4),
         Word(X3, XB, X6, XE, X2, X0, XC, X8), Word(X2, X6, XD, X9, X3, X0, XA, XC)),
    Four(Word(X7, X6, XD, XC, X4, X1, X9, X0), Word(X6, XB, X6, XB, X5, X1, XF, X4),
         Word(X4, XD, XB, X2, X6, X1, X5, X8), Word(X5, X0, X0, X5, X7, X1, X3, XC)),
    Four(Word(XE, XD, XB, X8, X8, X3, X2, X0), Word(XF, X0, X0, XF, X9, X3, X4, X4),
         Word(XD, X6, XD, X6, XA, X3, XE, X8), Word(XC, XB, X6, X1, XB, X3, X8, XC)),
    Four(Word(X9, XB, X6, X4, XC, X2, XB, X0), Word(X8, X6, XD, X3, XD, X2, XD, X4),
         Word(XA, X0, X0, XA, XE, X2, X7, X8), Word(XB, XD, XB, XD, XF, X2, X1, XC)))

  // The byte table, by rows.
  const Row0: Row := Row(
    Four(Word(X0, X0, X0, X0, X0, X0, X0, X0), Word(X7, X7, X0, X7, X3, X0, X9, X6),
         Word(XE, XE, X0, XE, X6, X1, X2, XC), Word(X9, X9, X0, X9, X5, X1, XB, XA)),
    Four(Word(X0, X7, X6, XD, XC, X4, X1, X9), Word(X7, X0, X6, XA, XF, X4, X8, XF),
         Word(XE, X9, X6, X3, XA, X5, X3, X5), Word(X9, XE, X6, X4, X9, X5, XA, X3)),
    Four(Word(X0, XE, XD, XB, X8, X8, X3, X2), Word(X7, X9, XD, XC, XB, X8, XA, X4),
         Word(XE, X0, XD, X5, XE, X9, X1, XE), Word(X9, X7, XD, X2, XD, X9, X8, X8)),
    Four(Word(X0, X9, XB, X6, X4, XC, X2, XB), Word(X7, XE, XB, X1, X7, XC, XB, XD),
         Word(XE, X7, XB, X8, X2, XD, X0, X7), Word(X9, X0, XB, XF, X1, XD, X9, X1)))
  const Row1: Row := Row(
    Four(Word(X1, XD, XB, X7, X1, X0, X6, X4), Word(X6, XA, XB, X0, X2, X0, XF, X2),
         Word(XF, X3, XB, X9, X7, X1, X4, X8), Word(X8, X4, XB, XE, X4, X1, XD, XE)),
    Four(Word(X1, XA, XD, XA, XD, X4, X7, XD), Word(X6, XD, XD, XD, XE, X4, XE, XB),
         Word(XF, X4, XD, X4, XB, X5, X5, X1), Word(X8, X3, XD, X3, X8, X5, XC, X7)),
    Four(Word(X1, X3, X6, XC, X9, X8, X5, X6), Word(X6, X4, X6, XB, XA, X8, XC, X0),
         Word(XF, XD, X6, X2, XF, X9, X7, XA), Word(X8, XA, X6, X5, XC, X9, XE, XC)),
    Four(Word(X1, X4, X0, X1, X5, XC, X4, XF), Word(X6, X3, X0, X6, X6, XC, XD, X9),
         Word(XF, XA, X0, XF, X3, XD, X6, X3), Word(X8, XD, X0, X8, X0, XD, XF, X5)))
  const Row2: Row := Row(
    Four(Word(X3, XB, X6, XE, X2, X0, XC, X8), Word(X4, XC, X6, X9, X1, X0, X5, XE),
         Word(XD, X5, X6, X0, X4, X1, XE, X4), Word(XA, X2, X6, X7, X7, X1, X7, X2)),
    Four(Word(X3, XC, X0, X3, XE, X4, XD, X1), Word(X4, XB, X0, X4, XD, X4, X4, X7),
         Word(XD, X2, X0, XD, X8, X5, XF, XD), Word(XA, X5, X0, XA, XB, X5, X6, XB)),
    Four(Word(X3, X5, XB, X5, XA, X8, XF, XA), Word(X4, X2, XB, X2, X9, X8, X6, XC),
         Word(XD, XB, XB, XB, XC, X9, XD, X6), Word(XA, XC, XB, XC, XF, X9, X4, X0)),
    Four(Word(X3, X2, XD, X8, X6, XC, XE, X3), Word(X4, X5, XD, XF, X5, XC, X7, X5),
         Word(XD, XC, XD, X6, X0, XD, XC, XF), Word(XA, XB, XD, X1, X3, XD, X5, X9)))
  const Row3: Row := Row(
    Four(Word(X2, X6, XD, X9, X3, X0, XA, XC), Word(X5, X1, XD, XE, X0, X0, X3, XA),
         Word(XC, X8, XD, X7, X5, X1, X8, X0), Word(XB, XF, XD, X0, X6, X1, X1, X6)),
    Four(Word(X2, X1, XB, X4, XF, X4, XB, X5), Word(X5, X6, XB, X3, XC, X4, X2, X3),
         Word(XC, XF, XB, XA, X9, X5, X9, X9), Word(XB, X8, XB, XD, XA, X5, X0, XF)),
    Four(Word(X2, X8, X0, X2, XB, X8, X9, XE), Word(X5, XF, X0, X5, X8, X8, X0, X8),
         Word(XC, X6, X0, XC, XD, X9, XB, X2), Word(XB, X1, X0, XB, XE, X9, X2, X4)),
    Four(Word(X2, XF, X6, XF, X7, XC, X8, X7), Word(X5, X8, X6, X8, X4, XC, X1, X1),
         Word(XC, X1, X6, X1, X1, XD, XA, XB), Word(XB, X6, X6, X6, X2, XD, X3, XD)))
  const Row4: Row := Row(
    Four(Word(X7, X6, XD, XC, X4, X1, X9, X0), Word(X0, X1, XD, XB, X7, X1, X0, X6),
         Word(X9, X8, XD, X2, X2, X0, XB, XC), Word(XE, XF, XD, X5, X1, X0, X2, XA)),
    Four(Word(X7, X1, XB, X1, X8, X5, X8, X9), Word(X0, X6, XB, X6, XB, X5, X1, XF),
         Word(X9, XF, XB, XF, XE, X4, XA, X5), Word(XE, X8, XB, X8, XD, X4, X3, X3)),
    Four(Word(X7, X8, X0, X7, XC, X9, XA, X2), Word(X0, XF, X0, X0, XF, X9, X3, X4),
         Word(X9, X6, X0, X9, XA, X8, X8, XE), Word(XE, X1, X0, XE, X9, X8, X1, X8)),
    Four(Word(X7, XF, X6, XA, X0, XD, XB, XB), Word(X0, X8, X6, XD, X3, XD, X2, XD),
         Word(X9, X1, X6, X4, X6, XC, X9, X7), Word(XE, X6, X6, X3, X5, XC, X0, X1)))
  const Row5: Row := Row(
    Four(Word(X6, XB, X6, XB, X5, X1, XF, X4), Word(X1, XC, X6, XC, X6, X1, X6, X2),
         Word(X8, X5, X6, X5, X3, X0, XD, X8), Word(XF, X2, X6, X2, X0, X0, X4, XE)),
    Four(Word(X6, XC, X0, X6, X9, X5, XE, XD), Word(X1, XB, X0, X1, XA, X5, X7, XB),
         Word(X8, X2, X0, X8, XF, X4, XC, X1), Word(XF, X5, X0, XF, XC, X4, X5, X7)),
    Four(Word(X6, X5, XB, X0, XD, X9, XC, X6), Word(X1, X2, XB, X7, XE, X9, X5, X0),
         Word(X8, XB, XB, XE, XB, X8, XE, XA), Word(XF, XC, XB, X9, X8, X8, X7, XC)),
    Four(Word(X6, X2, XD, XD, X1, XD, XD, XF), Word(X1, X5, XD, XA, X2, XD, X4, X9),
         Word(X8, XC, XD, X3, X7, XC, XF, X3), Word(XF, XB, XD, X4, X4, XC, X6, X5)))
  const Row6: Row := Row(
    Four(Word(X4, XD, XB, X2, X6, X1, X5, X8), Word(X3, XA, XB, X5, X5, X1, XC, XE),
         Word(XA, X3, XB, XC, X0, X0, X7, X4), Word(XD, X4, XB, XB, X3, X0, XE, X2)),
    Four(Word(X4, XA, XD, XF, XA, X5, X4, X1), Word(X3, XD, XD, X8, X9, X5, XD, X7),
         Word(XA, X4, XD, X1, XC, X4, X6, XD), Word(XD, X3, XD, X6, XF, X4, XF, XB)),
    Four(Word(X4, X3, X6, X9, XE, X9, X6, XA), Word(X3, X4, X6, XE, XD, X9, XF, XC),
         Word(XA, XD, X6, X7, X8, X8, X4, X6), Word(XD, XA, X6, X0, XB, X8, XD, X0)),
    Four(Word(X4, X4, X0, X4, X2, XD, X7, X3), Word(X3, X3, X0, X3, X1, XD, XE, X5),
         Word(XA, XA, X0, XA, X4, XC, X5, XF), Word(XD, XD, X0, XD, X7, XC, XC, X9)))
  const Row7: Row := Row(
    Four(Word(X5, X0, X0, X5, X7, X1, X3, XC), Word(X2, X7, X0, X2, X4, X1, XA, XA),
         Word(XB, XE, X0, XB, X1, X0, X1, X0), Word(XC, X9, X0, XC, X2, X0, X8, X6)),
    Four(Word(X5, X7, X6, X8, XB, X5, X2, X5), Word(X2, X0, X6, XF, X8, X5, XB, X3),
         Word(XB, X9, X6, X6, XD, X4, X0, X9), Word(XC, XE, X6, X1, XE, X4, X9, XF)),
    Four(Word(X5, XE, XD, XE, XF, X9, X0, XE), Word(X2, X9, XD, X9, XC, X9, X9, X8),
         Word(XB, X0, XD, X0, X9, X8, X2, X2), Word(XC, X7, XD, X7, XA, X8, XB, X4)),
    Four(Word(X5, X9, XB, X3, X3, XD, X1, X7), Word(X2, XE, XB, X4, X0, XD, X8, X1),
         Word(XB, X7, XB, XD, X5, XC, X3, XB), Word(XC, X0, XB, XA, X6, XC, XA, XD)))
  const Row8: Row := Row(
    Four(Word(XE, XD, XB, X8, X8, X3, X2, X0), Word(X9, XA, XB, XF, XB, X3, XB, X6),
         Word(X0, X3, XB, X6, XE, X2, X0, XC), Word(X7, X4, XB, X1, XD, X2, X9, XA)),
    Four(Word(XE, XA, XD, X5, X4, X7, X3, X9), Word(X9, XD, XD, X2, X7, X7, XA, XF),
         Word(X0, X4, XD, XB, X2, X6, X1, X5), Word(X7, X3, XD, XC, X1, X6, X8, X3)),
    Four(Word(XE, X3, X6, X3, X0, XB, X1, X2), Word(X9, X4, X6, X4, X3, XB, X8, X4),
         Word(X0, XD, X6, XD, X6, XA, X3, XE), Word(X7, XA, X6, XA, X5, XA, XA, X8)),
    Four(Word(XE, X4, X0, XE, XC, XF, X0, XB), Word(X9, X3, X0, X9, XF, XF, X9, XD),
         Word(X0, XA, X0, X0, XA, XE, X2, X7), Word(X7, XD, X0, X7, X9, XE, XB, X1)))
  const Row9: Row := Row(
    Four(Word(XF, X0, X0, XF, X9, X3, X4, X4), Word(X8, X7, X0, X8, XA, X3, XD, X2),
         Word(X1, XE, X0, X1, XF, X2, X6, X8), Word(X6, X9, X0, X6, XC, X2, XF, XE)),
    Four(Word(XF, X7, X6, X2, X5, X7, X5, XD), Word(X8, X0, X6, X5, X6, X7, XC, XB),
         Word(X1, X9, X6, XC, X3, X6, X7, X1), Word(X6, XE, X6, XB, X0, X6, XE, X7)),
    Four(Word(XF, XE, XD, X4, X1, XB, X7, X6), Word(X8, X9, XD, X3, X2, XB, XE, X0),
         Word(X1, X0, XD, XA, X7, XA, X5, XA), Word(X6, X7, XD, XD, X4, XA, XC, XC)),
    Four(Word(XF, X9, XB, X9, XD, XF, X6, XF), Word(X8, XE, XB, XE, XE, XF, XF, X9),
         Word(X1, X7, XB, X7, XB, XE, X4, X3), Word(X6, X0, XB, X0, X8, XE, XD, X5)))
  const RowA: Row := Row(
    Four(Word(XD, X6, XD, X6, XA, X3, XE, X8), Word(XA, X1, XD, X1, X9, X3, X7, XE),
         Word(X3, X8, XD, X8, XC, X2, XC, X4), Word(X4, XF, XD, XF, XF, X2, X5, X2)),
    Four(Word(XD, X1, XB, XB, X6, X7, XF, X1), Word(XA, X6, XB, XC, X5, X7, X6, X7),
         Word(X3, XF, XB, X5, X0, X6, XD, XD), Word(X4, X8, XB, X2, X3, X6, X4, XB)),
    Four(Word(XD, X8, X0, XD, X2, XB, XD, XA), Word(XA, XF, X0, XA, X1, XB, X4, XC),
         Word(X3, X6, X0, X3, X4, XA, XF, X6), Word(X4, X1, X0, X4, X7, XA, X6, X0)),
    Four(Word(XD, XF, X6, X0, XE, XF, XC, X3), Word(XA, X8, X6, X7, XD, XF, X5, X5),
         Word(X3, X1, X6, XE, X8, XE, XE, XF), Word(X4, X6, X6, X9, XB, XE, X7, X9)))
  const RowB: Row := Row(
    Four(Word(XC, XB, X6, X1, XB, X3, X8, XC), Word(XB, XC, X6, X6, X8, X3, X1, XA),
         Word(X2, X5, X6, XF, XD, X2, XA, X0), Word(X5, X2, X6, X8, XE, X2, X3, X6)),
    Four(Word(XC, XC, X0, XC, X7, X7, X9, X5), Word(XB, XB, X0, XB, X4, X7, X0, X3),
         Word(X2, X2, X0, X2, X1, X6, XB, X9), Word(X5, X5, X0, X5, X2, X6, X2, XF)),
    Four(Word(XC, X5, XB, XA, X3, XB, XB, XE), Word(XB, X2, XB, XD, X0, XB, X2, X8),
         Word(X2, XB, XB, X4, X5, XA, X9, X2), Word(X5, XC, XB, X3, X6, XA, X0, X4)),
    Four(Word(XC, X2, XD, X7, XF, XF, XA, X7), Word(XB, X5, XD, X0, XC, XF, X3, X1),
         Word(X2, XC, XD, X9, X9, XE, X8, XB), Word(X5, XB, XD, XE, XA, XE, X1, XD)))
  const RowC: Row := Row(
    Four(Word(X9, XB, X6, X4, XC, X2, XB, X0), Word(XE, XC, X6, X3, XF, X2, X2, X6),
         Word(X7, X5, X6, XA, XA, X3, X9, XC), Word(X0, X2, X6, XD, X9, X3, X0, XA)),
    Four(Word(X9, XC, X0, X9, X0, X6, XA, X9), Word(XE, XB, X0, XE, X3, X6, X3, XF),
         Word(X7, X2, X0, X7, X6, X7, X8, X5), Word(X0, X5, X0, X0, X5, X7, X1, X3)),
    Four(Word(X9, X5, XB, XF, X4, XA, X8, X2), Word(XE, X2, XB, X8, X7, XA, X1, X4),
         Word(X7, XB, XB, X1, X2, XB, XA, XE), Word(X0, XC, XB, X6, X1, XB, X3, X8)),
    Four(Word(X9, X2, XD, X2, X8, XE, X9, XB), Word(XE, X5, XD, X5, XB, XE, X0, XD),
         Word(X7, XC, XD, XC, XE, XF, XB, X7), Word(X0, XB, XD, XB, XD, XF, X2, X1)))
  const RowD: Row := Row(
    Four(Word(X8, X6, XD, X3, XD, X2, XD, X4), Word(XF, X1, XD, X4, XE, X2, X4, X2),
         Word(X6, X8, XD, XD, XB, X3, XF, X8), Word(X1, XF, XD, XA, X8, X3, X6, XE)),
    Four(Word(X8, X1, XB, XE, X1, X6, XC, XD), Word(XF, X6, XB, X9, X2, X6, X5, XB),
         Word(X6, XF, XB, X0, X7, X7, XE, X1), Word(X1, X8, XB, X7, X4, X7, X7, X7)),
    Four(Word(X8, X8, X0, X8, X5, XA, XE, X6), Word(XF, XF, X0, XF, X6, XA, X7, X0),
         Word(X6, X6, X0, X6, X3, XB, XC, XA), Word(X1, X1, X0, X1, X0, XB, X5, XC)),
    Four(Word(X8, XF, X6, X5, X9, XE, XF, XF), Word(XF, X8, X6, X2, XA, XE, X6, X9),
         Word(X6, X1, X6, XB, XF, XF, XD, X3), Word(X1, X6, X6, XC, XC, XF, X4, X5)))
  const RowE: Row := Row(
    Four(Word(XA, X0, X0, XA, XE, X2, X7, X8), Word(XD, X7, X0, XD, XD, X2, XE, XE),
         Word(X4, XE, X0, X4, X8, X3, X5, X4), Word(X3, X9, X0, X3, XB, X3, XC, X2)),
    Four(Word(XA, X7, X6, X7, X2, X6, X6, X1), Word(XD, X0, X6, X0, X1, X6, XF, X7),
         Word(X4, X9, X6, X9, X4, X7, X4, XD), Word(X3, XE, X6, XE, X7, X7, XD, XB)),
    Four(Word(XA, XE, XD, X1, X6, XA, X4, XA), Word(XD, X9, XD, X6, X5, XA, XD, XC),
         Word(X4, X0, XD, XF, X0, XB, X6, X6), Word(X3, X7, XD, X8, X3, XB, XF, X0)),
    Four(Word(XA, X9, XB, XC, XA, XE, X5, X3), Word(XD, XE, XB, XB, X9, XE, XC, X5),
         Word(X4, X7, XB, X2, XC, XF, X7, XF), Word(X3, X0, XB, X5, XF, XF, XE, X9)))
  const RowF: Row := Row(
    Four(Word(XB, XD, XB, XD, XF, X2, X1, XC), Word(XC, XA, XB, XA, XC, X2, X8, XA),
         Word(X5, X3, XB, X3, X9, X3, X3, X0), Word(X2, X4, XB, X4, XA, X3, XA, X6)),
    Four(Word(XB, XA, XD, X0, X3, X6, X0, X5), Word(XC, XD, XD, X7, X0, X6, X9, X3),
         Word(X5, X4, XD, XE, X5, X7, X2, X9), Word(X2, X3, XD, X9, X6, X7, XB, XF)),
    Four(Word(XB, X3, X6, X6, X7, XA, X2, XE), Word(XC, X4, X6, X1, X4, XA, XB, X8),
         Word(X5, XD, X6, X8, X1, XB, X0, X2), Word(X2, XA, X6, XF, X2, XB, X9, X4)),
    Four(Word(XB, X4, X0, XB, XB, XE, X3, X7), Word(XC, X3, X0, XC, X8, XE, XA, X1),
         Word(X5, XA, X0, X5, XD, XF, X1, XB), Word(X2, XD, X0, X2, XE, XF, X8, XD)))

  /** The row of the byte table that a digit numbers. */
  function ByteRow(x: Digit): Row {
    if x.b3 then
      if x.b2 then
        if x.b1 then (if x.b0 then RowF else RowE) else (if x.b0 then RowD else RowC)
      else
        if x.b1 then (if x.b0 then RowB else RowA) else (if x.b0 then Row9 else Row8)
    else
      if x.b2 then
        if x.b1 then (if x.b0 then Row7 else Row6) else (if x.b0 then Row5 else Row4)
      else
        if x.b1 then (if x.b0 then Row3 else Row2) else (if x.b0 then Row1 else Row0)
  }

  // ----- the nibble table holds what each nibble leaves -----

  function Low(x: Digit): Word {
    Word(X0, X0, X0, X0, X0, X0, X0, x)
  }

  /** Zero bits only shift out. */
  lemma ShiftOut(p: Word, c: Word)
    requires c.d0 == X0
    ensures Divide4(p, c) == Shift4(c)
  {
  }

  lemma Basis()
    ensures Nibble(Low(X0)) == Pick(NibbleTable, X0) && Nibble(Low(X1)) == Pick(NibbleTable, X1)
    ensures Nibble(Low(X2)) == Pick(NibbleTable, X2) && Nibble(Low(X4)) == Pick(NibbleTable, X4)
    ensures Nibble(Low(X8)) == Pick(NibbleTable, X8)
  {
  }

  /** The bits of a digit, one at a time. */
  function Bit8(x: Digit): Digit { if x.b3 then X8 else X0 }
  function Bit4(x: Digit): Digit { if x.b2 then X4 else X0 }
  function Bit2(x: Digit): Digit { if x.b1 then X2 else X0 }
  function Bit1(x: Digit): Digit { if x.b0 then X1 else X0 }

  lemma Bits(x: Digit)
    ensures x == XorDigit(XorDigit(Bit8(x), Bit4(x)), XorDigit(Bit2(x), Bit1(x)))
  {
  }

  /** The entries of a row add up bit by bit. */
  predicate Sums(r: Row) {
    && r.q0.w0 == Word(X0, X0, X0, X0, X0, X0, X0, X0) && r.q0.w3 == Xor(r.q0.w2, r.q0.w1)
    && r.q1.w1 == Xor(r.q1.w0, r.q0.w1) && r.q1.w2 == Xor(r.q1.w0, r.q0.w2) && r.q1.w3 == Xor(r.q1.w0, r.q0.w3)
    && r.q2.w1 == Xor(r.q2.w0, r.q0.w1) && r.q2.w2 == Xor(r.q2.w0, r.q0.w2) && r.q2.w3 == Xor(r.q2.w0, r.q0.w3)
    && r.q3.w0 == Xor(r.q2.w0, r.q1.w0) && r.q3.w1 == Xor(r.q2.w0, r.q1.w1)
    && r.q3.w2 == Xor(r.q2.w0, r.q1.w2) && r.q3.w3 == Xor(r.q2.w0, r.q1.w3)
  }

  lemma NeutralDigit(x: Digit)
    ensures XorDigit(x, X0) == x && XorDigit(X0, x) == x
  {
  }

  lemma Neutral(w: Word)
    ensures var zero := Word(X0, X0, X0, X0, X0, X0, X0, X0); Xor(w, zero) == w && Xor(zero, w) == w
  {
  }

  lemma PickSums(r: Row, x: Digit)
    requires Sums(r)
    ensures Pick(r, x) == Xor(Xor(Pick(r, Bit8(x)), Pick(r, Bit4(x))), Xor(Pick(r, Bit2(x)), Pick(r, Bit1(x))))
  {
    Neutral(r.q0.w0);
    Neutral(r.q0.w1);
    Neutral(r.q0.w2);
    Neutral(r.q1.w0);
    Neutral(r.q2.w0);
    Neutral(r.q0.w3);
    Neutral(r.q3.w0);
    XorMoves(r.q2.w0, r.q1.w0, r.q0.w1);
    XorMoves(r.q2.w0, r.q1.w0, r.q0.w2);
    XorMoves(r.q2.w0, r.q1.w0, r.q0.w3);
  }

  lemma NibbleTableSums()
    ensures Sums(NibbleTable)
  {
  }

  /** The nibble division is linear in the low digit. */
  lemma NibbleSum(x: Digit, y: Digit)
    ensures Nibble(Low(XorDigit(x, y))) == Xor(Nibble(Low(x)), Nibble(Low(y)))
  {
    Divide4Linear(Word(XE, XD, XB, X8, X8, X3, X2, X0), Low(x), Low(y));
    NeutralDigit(X0);
    assert Low(XorDigit(x, y)) == Xor(Low(x), Low(y));
  }

  lemma NibbleEntry(x: Digit)
    ensures Pick(NibbleTable, x) == Nibble(Low(x))
  {
    Bits(x);
    NibbleTableSums();
    PickSums(NibbleTable, x);
    Basis();
    NibbleSum(XorDigit(Bit8(x), Bit4(x)), XorDigit(Bit2(x), Bit1(x)));
    NibbleSum(Bit8(x), Bit4(x));
    NibbleSum(Bit2(x), Bit1(x));
  }

  // ----- the byte table holds what each byte leaves -----

  /** Two rows differ by one word throughout. */
  predicate Offset(r: Row, base: Row, w: Word) {
    OffsetFour(r.q0, base.q0, w) && OffsetFour(r.q1, base.q1, w) && OffsetFour(r.q2, base.q2, w) && OffsetFour(r.q3, base.q3, w)
  }

  predicate OffsetFour(f: Four, base: Four, w: Word) {
    f.w0 == Xor(w, base.w0) && f.w1 == Xor(w, base.w1) && f.w2 == Xor(w, base.w2) && f.w3 == Xor(w, base.w3)
  }

  lemma OffsetRows0To3()
    ensures Offset(Row0, Row0, Pick(NibbleTable, X0))
    ensures Offset(Row1, Row0, Pick(NibbleTable, X1))
    ensures Offset(Row2, Row0, Pick(NibbleTable, X2))
    ensures Offset(Row3, Row0, Pick(NibbleTable, X3))
  {
  }

  lemma OffsetRows4To7()
    ensures Offset(Row4, Row0, Pick(NibbleTable, X4))
    ensures Offset(Row5, Row0, Pick(NibbleTable, X5))
    ensures Offset(Row6, Row0, Pick(NibbleTable, X6))
    ensures Offset(Row7, Row0, Pick(NibbleTable, X7))
  {
  }

  lemma OffsetRows8ToB()
    ensures Offset(Row8, Row0, Pick(NibbleTable, X8))
    ensures Offset(Row9, Row0, Pick(NibbleTable, X9))
    ensures Offset(RowA, Row0, Pick(NibbleTable, XA))
    ensures Offset(RowB, Row0, Pick(NibbleTable, XB))
  {
  }

  lemma OffsetRowsCToF()
    ensures Offset(RowC, Row0, Pick(NibbleTable, XC))
    ensures Offset(RowD, Row0, Pick(NibbleTable, XD))
    ensures Offset(RowE, Row0, Pick(NibbleTable, XE))
    ensures Offset(RowF, Row0, Pick(NibbleTable, XF))
  {
  }

  /** A row is the first row, offset by a nibble entry. */
  lemma RowOffset(x: Digit)
    ensures Offset(ByteRow(x), Row0, Pick(NibbleTable, x))
  {
    OffsetRows0To3();
    OffsetRows4To7();
    OffsetRows8ToB();
    OffsetRowsCToF();
  }

  lemma Row0Sums()
    ensures Sums(Row0)
    ensures Pick(Row0, X0) == Nibble(Pick(NibbleTable, X0)) && Pick(Row0, X1) == Nibble(Pick(NibbleTable, X1))
    ensures Pick(Row0, X2) == Nibble(Pick(NibbleTable, X2)) && Pick(Row0, X4) == Nibble(Pick(NibbleTable, X4))
    ensures Pick(Row0, X8) == Nibble(Pick(NibbleTable, X8))
  {
  }

  lemma NibbleLinear(a: Word, b: Word)
    ensures Nibble(Xor(a, b)) == Xor(Nibble(a), Nibble(b))
  {
    Divide4Linear(Word(XE, XD, XB, X8, X8, X3, X2, X0), a, b);
  }

  lemma Row0Entry(x: Digit)
    ensures Pick(Row0, x) == Nibble(Nibble(Low(x)))
  {
    var t := NibbleTable;
    Row0Sums();
    PickSums(Row0, x);
    NibbleTableSums();
    PickSums(t, x);
    NibbleEntry(x);
    NibbleLinear(Xor(Pick(t, Bit8(x)), Pick(t, Bit4(x))), Xor(Pick(t, Bit2(x)), Pick(t, Bit1(x))));
    NibbleLinear(Pick(t, Bit8(x)), Pick(t, Bit4(x)));
    NibbleLinear(Pick(t, Bit2(x)), Pick(t, Bit1(x)));
  }

  /** The entry for a byte. */
  function ByteEntry(hi: Digit, lo: Digit): Word {
    Pick(ByteRow(hi), lo)
  }

  lemma PickOffset(r: Row, base: Row, w: Word, x: Digit)
    requires Offset(r, base, w)
    ensures Pick(r, x) == Xor(w, Pick(base, x))
  {
  }

  // ----- table steps -----

  /** One table step of the nibble loop is four bit steps. */
  lemma NibbleStep(c: Word)
    ensures Xor(Pick(NibbleTable, c.d0), Shift4(c)) == Nibble(c)
  {
    var high := c.(d0 := X0);
    NibbleEntry(c.d0);
    SplitLow(c);
    NibbleLinear(Low(c.d0), high);
    ShiftOut(Word(XE, XD, XB, X8, X8, X3, X2, X0), high);
  }

  lemma SplitLow(c: Word)
    ensures c == Xor(Low(c.d0), c.(d0 := X0))
  {
    NeutralDigit(c.d7);
    NeutralDigit(c.d6);
    NeutralDigit(c.d5);
    NeutralDigit(c.d4);
    NeutralDigit(c.d3);
    NeutralDigit(c.d2);
    NeutralDigit(c.d1);
    NeutralDigit(c.d0);
  }

  function Shift8(c: Word): Word {
    Shift4(Shift4(c))
  }

  /** One table step of the byte loop is eight bit steps. */
  lemma ByteStep(c: Word)
    ensures Xor(Shift8(c), ByteEntry(c.d1, c.d0)) == Nibble(Nibble(c))
  {
    var s := Shift4(c);
    NibbleStep(c);
    NibbleEntry(c.d0);
    NibbleLinear(Nibble(Low(c.d0)), s);
    Row0Entry(c.d0);
    NibbleStep(s);
    RowOffset(c.d1);
    PickOffset(ByteRow(c.d1), Row0, Pick(NibbleTable, c.d1), c.d0);
    XorMoves(Pick(Row0, c.d0), Pick(NibbleTable, c.d1), Shift8(c));
    XorMoves(Pick(NibbleTable, c.d1), Pick(Row0, c.d0), Shift8(c));
    Commutes(Shift8(c), ByteEntry(c.d1, c.d0));
  }

  lemma Commutes(a: Word, b: Word)
    ensures Xor(a, b) == Xor(b, a)
  {
  }

  // ----- the two loops -----

  /** tinf_crc32: two nibble steps for each byte. */
  method TinfCrc32(data: seq<Octet>) returns (crc: Word)
    ensures crc == Crc(data)
  {
    if |data| == 0 {
      return Word(X0, X0, X0, X0, X0, X0, X0, X0);
    }
    crc := Word(XF, XF, XF, XF, XF, XF, XF, XF);
    for i := 0 to |data|
      invariant crc == Register(data[..i])
    {
      RegisterNext(data, i);
      crc := WithByte(crc, data[i]);
      NibbleStep(crc);
      crc := Xor(Pick(NibbleTable, crc.d0), Shift4(crc));
      NibbleStep(crc);
      crc := Xor(Pick(NibbleTable, crc.d0), Shift4(crc));
    }
    assert data[..|data|] == data;
    crc := Xor(crc, Word(XF, XF, XF, XF, XF, XF, XF, XF));
  }

  /** crc32 of lminst: one step of the byte table for each byte. */
  method LminstCrc32(data: seq<Octet>) returns (crc: Word)
    ensures crc == Crc(data)
  {
    crc := Word(XF, XF, XF, XF, XF, XF, XF, XF);
    for i := 0 to |data|
      invariant crc == Register(data[..i])
    {
      RegisterNext(data, i);
      ByteStep(WithByte(crc, data[i]));
      crc := Xor(Shift8(crc), ByteEntry(XorDigit(crc.d1, data[i].hi), XorDigit(crc.d0, data[i].lo)));
    }
    assert data[..|data|] == data;
    crc := Xor(crc, Word(XF, XF, XF, XF, XF, XF, XF, XF));
  }

  // ----- the standard check -----

  /** The register after `n` bytes is `c`, said so that the division stays folded. */
  ghost predicate After(data: seq<Octet>, n: nat, c: Word)
    requires n <= |data|
  {
    forall m {:trigger Register(data[..m])} :: m == n ==> Register(data[..m]) == c
  }

  lemma NextIs(data: seq<Octet>, n: nat, c: Word, b: Octet, d: Word)
    requires n < |data| && After(data, n, c) && data[n] == b && Yields(c, b, d)
    ensures After(data, n + 1, d)
  {
    assert Register(data[..n]) == c;
    RegisterNext(data, n);
    assert WithByte(c, b) == WithByte(Register(data[..n]), data[n]);
  }

  /** One byte takes the register from `c` to `d`. */
  ghost predicate Yields(c: Word, b: Octet, d: Word) {
    forall w {:trigger Nibble(Nibble(w))} :: w == WithByte(c, b) ==> Nibble(Nibble(w)) == d
  }

  /** The characters from 1 to 9. */
  predicate Digits(data: seq<Octet>) {
    && |data| == 9
    && data[0] == Octet(X3, X1) && data[1] == Octet(X3, X2) && data[2] == Octet(X3, X3)
    && data[3] == Octet(X3, X4) && data[4] == Octet(X3, X5) && data[5] == Octet(X3, X6)
    && data[6] == Octet(X3, X7) && data[7] == Octet(X3, X8) && data[8] == Octet(X3, X9)
  }

  /** The check value of the standard: the CRC of "123456789" is CBF43926, and that of nothing is 0. */
  lemma CheckValue(data: seq<Octet>)
    requires Digits(data)
    ensures Crc(data) == Word(XC, XB, XF, X4, X3, X9, X2, X6)
    ensures Crc([]) == Word(X0, X0, X0, X0, X0, X0, X0, X0)
  {
    AllDigits(data);
    assert data[..9] == data;
    assert Register(data[..9]) == Word(X3, X4, X0, XB, XC, X6, XD, X9);
  }

  lemma AllDigits(data: seq<Octet>)
    requires Digits(data)
    ensures After(data, 9, Word(X3, X4, X0, XB, XC, X6, XD, X9))
  {
    NothingYet(data);
    Digit1();
    NextIs(data, 0, Word(XF, XF, XF, XF, XF, XF, XF, XF), Octet(X3, X1), Word(X7, XC, X2, X3, X1, X0, X4, X8));
    Digit2();
    NextIs(data, 1, Word(X7, XC, X2, X3, X1, X0, X4, X8), Octet(X3, X2), Word(XB, X0, XA, XC, XB, XB, X3, X2));
    Digit3();
    NextIs(data, 2, Word(XB, X0, XA, XC, XB, XB, X3, X2), Octet(X3, X3), Word(X7, X7, XB, X7, X9, XC, X2, XD));
    Digit4();
    NextIs(data, 3, Word(X7, X7, XB, X7, X9, XC, X2, XD), Octet(X3, X4), Word(X6, X4, X1, XC, X1, XF, X5, XC));
    Digit5();
    NextIs(data, 4, Word(X6, X4, X1, XC, X1, XF, X5, XC), Octet(X3, X5), Word(X3, X4, X0, XA, XC, X5, XE, X3));
    Digit6();
    NextIs(data, 5, Word(X3, X4, X0, XA, XC, X5, XE, X3), Octet(X3, X6), Word(XF, X6, X8, XD, X2, XC, X9, XE));
    Digit7();
    NextIs(data, 6, Word(XF, X6, X8, XD, X2, XC, X9, XE), Octet(X3, X7), Word(XA, XF, XF, XC, X9, X6, X6, X0));
    Digit8();
    NextIs(data, 7, Word(XA, XF, XF, XC, X9, X6, X6, X0), Octet(X3, X8), Word(X6, X5, X1, XF, X2, X5, X5, X0));
    Digit9();
    NextIs(data, 8, Word(X6, X5, X1, XF, X2, X5, X5, X0), Octet(X3, X9), Word(X3, X4, X0, XB, XC, X6, XD, X9));
  }

  lemma NothingYet(data: seq<Octet>)
    ensures After(data, 0, Word(XF, XF, XF, XF, XF, XF, XF, XF))
  {
    assert data[..0] == [];
  }

  lemma Digit1()
    ensures Yields(Word(XF, XF, XF, XF, XF, XF, XF, XF), Octet(X3, X1), Word(X7, XC, X2, X3, X1, X0, X4, X8))
  {
    ByteStep(Word(XF, XF, XF, XF, XF, XF, XC, XE));
  }

  lemma Digit2()
    ensures Yields(Word(X7, XC, X2, X3, X1, X0, X4, X8), Octet(X3, X2), Word(XB, X0, XA, XC, XB, XB, X3, X2))
  {
    ByteStep(Word(X7, XC, X2, X3, X1, X0, X7, XA));
  }

  lemma Digit3()
    ensures Yields(Word(XB, X0, XA, XC, XB, XB, X3, X2), Octet(X3, X3), Word(X7, X7, XB, X7, X9, XC, X2, XD))
  {
    ByteStep(Word(XB, X0, XA, XC, XB, XB, X0, X1));
  }

  lemma Digit4()
    ensures Yields(Word(X7, X7, XB, X7, X9, XC, X2, XD), Octet(X3, X4), Word(X6, X4, X1, XC, X1, XF, X5, XC))
  {
    ByteStep(Word(X7, X7, XB, X7, X9, XC, X1, X9));
  }

  lemma Digit5()
    ensures Yields(Word(X6, X4, X1, XC, X1, XF, X5, XC), Octet(X3, X5), Word(X3, X4, X0, XA, XC, X5, XE, X3))
  {
    ByteStep(Word(X6, X4, X1, XC, X1, XF, X6, X9));
  }

  lemma Digit6()
    ensures Yields(Word(X3, X4, X0, XA, XC, X5, XE, X3), Octet(X3, X6), Word(XF, X6, X8, XD, X2, XC, X9, XE))
  {
    ByteStep(Word(X3, X4, X0, XA, XC, X5, XD, X5));
  }

  lemma Digit7()
    ensures Yields(Word(XF, X6, X8, XD, X2, XC, X9, XE), Octet(X3, X7), Word(XA, XF, XF, XC, X9, X6, X6, X0))
  {
    ByteStep(Word(XF, X6, X8, XD, X2, XC, XA, X9));
  }

  lemma Digit8()
    ensures Yields(Word(XA, XF, XF, XC, X9, X6, X6, X0), Octet(X3, X8), Word(X6, X5, X1, XF, X2, X5, X5, X0))
  {
    ByteStep(Word(XA, XF, XF, XC, X9, X6, X5, X8));
  }

  lemma Digit9()
    ensures Yields(Word(X6, X5, X1, XF, X2, X5, X5, X0), Octet(X3, X9), Word(X3, X4, X0, XB, XC, X6, XD, X9))
  {
    ByteStep(Word(X6, X5, X1, XF, X2, X5, X6, X9));
  }

  /** A CRC as the four bytes behind the data, least significant first. */
  function Trailer(f: Word): seq<Octet> {
    [Octet(f.d1, f.d0), Octet(f.d3, f.d2), Octet(f.d5, f.d4), Octet(f.d7, f.d6)]
  }

  /** A digit with all its bits turned. */
  function Turned(x: Digit): Digit {
    XorDigit(x, XF)
  }

  /** The register after any data with its CRC behind it is always the same. */
  lemma Residue(data: seq<Octet>)
    ensures Register(data + Trailer(Crc(data))) == Word(XD, XE, XB, XB, X2, X0, XE, X3)
  {
    var r, all, n := Register(data), data + Trailer(Crc(data)), |data|;
    assert all[..n] == data && all[..n + 4] == all;
    TrailerRegister(all, n, r);
    assert Register(all[..n + 4]) == Word(XD, XE, XB, XB, X2, X0, XE, X3);
  }

  lemma TrailerRegister(all: seq<Octet>, n: nat, r: Word)
    requires |all| == n + 4 && After(all, n, r)
    requires all[n] == Octet(Turned(r.d1), Turned(r.d0)) && all[n + 1] == Octet(Turned(r.d3), Turned(r.d2))
    requires all[n + 2] == Octet(Turned(r.d5), Turned(r.d4)) && all[n + 3] == Octet(Turned(r.d7), Turned(r.d6))
    ensures After(all, n + 4, Word(XD, XE, XB, XB, X2, X0, XE, X3))
  {
    var s1 := Xor(Word(X0, X0, r.d7, r.d6, r.d5, r.d4, r.d3, r.d2), Word(X2, XD, X0, X2, XE, XF, X8, XD));
    Trailer1(r);
    NextIs(all, n + 0, r, all[n + 0], s1);
    var s2 := Xor(Word(X0, X0, X0, X0, r.d7, r.d6, r.d5, r.d4), Word(XB, XE, X2, X6, X1, X2, XF, XF));
    Trailer2(r);
    NextIs(all, n + 1, s1, all[n + 1], s2);
    var s3 := Xor(Word(X0, X0, X0, X0, X0, X0, r.d7, r.d6), Word(X0, X0, XB, XE, X2, X6, X1, X2));
    Trailer3(r);
    NextIs(all, n + 2, s2, all[n + 2], s3);
    var s4 := Word(XD, XE, XB, XB, X2, X0, XE, X3);
    Trailer4(r);
    NextIs(all, n + 3, s3, all[n + 3], s4);
  }

  lemma Trailer1(r: Word)
    ensures Yields(r, Octet(Turned(r.d1), Turned(r.d0)),
      Xor(Word(X0, X0, r.d7, r.d6, r.d5, r.d4, r.d3, r.d2), Word(X2, XD, X0, X2, XE, XF, X8, XD)))
  {
    ByteStep(WithByte(r, Octet(Turned(r.d1), Turned(r.d0))));
  }

  lemma Trailer2(r: Word)
    ensures Yields(Xor(Word(X0, X0, r.d7, r.d6, r.d5, r.d4, r.d3, r.d2), Word(X2, XD, X0, X2, XE, XF, X8, XD)), Octet(Turned(r.d3), Turned(r.d2)),
      Xor(Word(X0, X0, X0, X0, r.d7, r.d6, r.d5, r.d4), Word(XB, XE, X2, X6, X1, X2, XF, XF)))
  {
    ByteStep(WithByte(Xor(Word(X0, X0, r.d7, r.d6, r.d5, r.d4, r.d3, r.d2), Word(X2, XD, X0, X2, XE, XF, X8, XD)), Octet(Turned(r.d3), Turned(r.d2))));
  }

  lemma Trailer3(r: Word)
    ensures Yields(Xor(Word(X0, X0, X0, X0, r.d7, r.d6, r.d5, r.d4), Word(XB, XE, X2, X6, X1, X2, XF, XF)), Octet(Turned(r.d5), Turned(r.d4)),
      Xor(Word(X0, X0, X0, X0, X0, X0, r.d7, r.d6), Word(X0, X0, XB, XE, X2, X6, X1, X2)))
  {
    ByteStep(WithByte(Xor(Word(X0, X0, X0, X0, r.d7, r.d6, r.d5, r.d4), Word(XB, XE, X2, X6, X1, X2, XF, XF)), Octet(Turned(r.d5), Turned(r.d4))));
  }

  lemma Trailer4(r: Word)
    ensures Yields(Xor(Word(X0, X0, X0, X0, X0, X0, r.d7, r.d6), Word(X0, X0, XB, XE, X2, X6, X1, X2)), Octet(Turned(r.d7), Turned(r.d6)),
      Word(XD, XE, XB, XB, X2, X0, XE, X3))
  {
    ByteStep(WithByte(Xor(Word(X0, X0, X0, X0, X0, X0, r.d7, r.d6), Word(X0, X0, XB, XE, X2, X6, X1, X2)), Octet(Turned(r.d7), Turned(r.d6))));
  }
}
