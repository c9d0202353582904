/** The shifts, masks and ORs of the encoder and of the two decoders, and the arithmetic that they come to. */
module Utf8Bits {
  import opened Bits
  import opened Bytes
  import Utf8
  import Utf8Index

  /** a << n, as long as nothing is shifted out */
  function ShiftLeft(a: nat, n: nat): nat {
    a * Pow2(n)
  }

  const CONTINUE_BITS: nat := 0x80
  const CONTINUE_MASK: nat := 0x3F
  /** ~0b11000000, ~0b11100000 and ~0b11110000, as unsigned ints */
  const LEAD_MASK_TWO: nat := 0xFFFF_FF3F
  const LEAD_MASK_THREE: nat := 0xFFFF_FF1F
  const LEAD_MASK_FOUR: nat := 0xFFFF_FF0F

  /** continue_bits | (codepoint >> n & continue_mask) */
  function ContinuationByBits(cp: nat, n: nat): nat {
    Or(CONTINUE_BITS, And(ShiftRight(cp, n), CONTINUE_MASK))
  }

  /** pvt_encode_utf8 as it is written */
  function EncodeByBits(cp: nat): seq<int> {
    if cp <= 0x7F then [cp]
    else if cp <= 0x7FF then [Or(0xC0, ShiftRight(cp, 6)), ContinuationByBits(cp, 0)]
    else if cp <= 0xFFFF then [Or(0xE0, ShiftRight(cp, 12)), ContinuationByBits(cp, 6), ContinuationByBits(cp, 0)]
    else
      [Or(0xF0, ShiftRight(cp, 18)), ContinuationByBits(cp, 12), ContinuationByBits(cp, 6), ContinuationByBits(cp, 0)]
  }

  /** The bits of a continuation byte */
  function TailBits(b: Byte): nat {
    And(b, CONTINUE_MASK)
  }

  /** pvt_decode_utf8 as it is written */
  function DecodeByBits(o: Text): int {
    if |o| == 1 then o[0]
    else if |o| == 2 then Or(ShiftLeft(And(o[0], LEAD_MASK_TWO), 6), TailBits(o[1]))
    else if |o| == 3 then
      Or(Or(ShiftLeft(And(o[0], LEAD_MASK_THREE), 12), ShiftLeft(TailBits(o[1]), 6)), TailBits(o[2]))
    else if |o| == 4 then
      Or(Or(Or(ShiftLeft(And(o[0], LEAD_MASK_FOUR), 18), ShiftLeft(TailBits(o[1]), 12)), ShiftLeft(TailBits(o[2]), 6)),
         TailBits(o[3]))
    else 0xFFFF_FFFF
  }

  // ---------------------------------------------------------------------------------------------
  //  Bits and arithmetic
  // ---------------------------------------------------------------------------------------------

  lemma {:induction false} ShiftIsQuotient(a: nat, n: nat)
    ensures ShiftRight(a, n) == a / Pow2(n)
  {
    if n != 0 {
      ShiftIsQuotient(a / 2, n - 1);
      var q, r := a / 2 / Pow2(n - 1), a / 2 % Pow2(n - 1);
      assert a == q * Pow2(n) + (2 * r + a % 2);
      DivUnique(a, Pow2(n), q, 2 * r + a % 2);
    }
  }

  /** OR of numbers without common bits adds them. */
  lemma {:induction false} OrAdds(a: nat, b: nat, k: nat)
    requires a % Pow2(k) == 0 && b < Pow2(k)
    ensures Or(a, b) == a + b
    decreases k
  {
    if k != 0 {
      var q := a / Pow2(k);
      assert a == 2 * (q * Pow2(k - 1));
      DivUnique(a / 2, Pow2(k - 1), q, 0);
      OrAdds(a / 2, b / 2, k - 1);
    }
  }

  /** The bits of a mask above those of a number do not matter. */
  lemma {:induction false} AndIgnoresHighBits(b: nat, m: nat, k: nat)
    requires b < Pow2(k)
    ensures And(b, m) == And(b, m % Pow2(k))
    decreases k
  {
    if k != 0 {
      AndIgnoresHighBits(b / 2, m / 2, k - 1);
      ModDouble(m, Pow2(k - 1));
    }
  }

  lemma SmallPowers()
    ensures Pow2(3) == 8 && Pow2(4) == 0x10 && Pow2(5) == 0x20 && Pow2(6) == 0x40 && Pow2(8) == 0x100
    ensures Pow2(12) == 0x1000 && Pow2(18) == 0x40000
  {
    Pow2Sum(6, 6);
    Pow2Sum(12, 6);
  }

  /** The masks leave the low bits of a byte. */
  lemma MasksAreRemainders(b: Byte)
    ensures And(b, LEAD_MASK_TWO) == TailBits(b) == b % 0x40
    ensures And(b, LEAD_MASK_THREE) == And(b, 0x1F) == b % 0x20
    ensures And(b, LEAD_MASK_FOUR) == And(b, 0x0F) == b % 0x10
    ensures And(b, 0x07) == b % 8
  {
    SmallPowers();
    AndIgnoresHighBits(b, LEAD_MASK_TWO, 8);
    AndIgnoresHighBits(b, LEAD_MASK_THREE, 8);
    AndIgnoresHighBits(b, LEAD_MASK_FOUR, 8);
    MaskIsRemainder(b, 0x40);
    MaskIsRemainder(b, 0x20);
    MaskIsRemainder(b, 0x10);
    MaskIsRemainder(b, 8);
  }

  lemma ContinuationIsSextet(cp: nat, n: nat)
    ensures ContinuationByBits(cp, n) == Utf8.Sextet(cp, Pow2(n))
  {
    SmallPowers();
    ShiftIsQuotient(cp, n);
    var x := ShiftRight(cp, n);
    MaskIsRemainder(x, 0x40);
    OrAdds(CONTINUE_BITS, x % 0x40, 6);
  }

  // ---------------------------------------------------------------------------------------------
  //  The encoder and the decoders
  // ---------------------------------------------------------------------------------------------

  /** The encoder computes the octets of the code point. */
  lemma EncoderAgrees(cp: nat)
    requires Utf8.IsScalar(cp)
    ensures EncodeByBits(cp) == Utf8.Encode(cp)
  {
    SmallPowers();
    ContinuationIsSextet(cp, 0);
    ContinuationIsSextet(cp, 6);
    ContinuationIsSextet(cp, 12);
    ShiftIsQuotient(cp, 6);
    ShiftIsQuotient(cp, 12);
    ShiftIsQuotient(cp, 18);
    if 0x7F < cp <= 0x7FF {
      OrAdds(0xC0, cp / 0x40, 5);
    } else if 0x7FF < cp <= 0xFFFF {
      OrAdds(0xE0, cp / 0x1000, 4);
    } else if 0xFFFF < cp {
      OrAdds(0xF0, cp / 0x40000, 3);
    }
  }

  /** Bits side by side, the lowest six last */
  lemma JoinTwo(a: nat, b: nat)
    requires b < 0x40
    ensures Or(ShiftLeft(a, 6), b) == a * 0x40 + b
  {
    hide Or;
    SmallPowers();
    OrAdds(a * 0x40, b, 6);
  }

  lemma JoinThree(a: nat, b: nat, c: nat)
    requires b < 0x40 && c < 0x40
    ensures Or(Or(ShiftLeft(a, 12), ShiftLeft(b, 6)), c) == a * 0x1000 + b * 0x40 + c
  {
    hide Or;
    SmallPowers();
    OrAdds(a * 0x1000, b * 0x40, 12);
    OrAdds(a * 0x1000 + b * 0x40, c, 6);
  }

  lemma JoinFour(a: nat, b: nat, c: nat, d: nat)
    requires b < 0x40 && c < 0x40 && d < 0x40
    ensures Or(Or(Or(ShiftLeft(a, 18), ShiftLeft(b, 12)), ShiftLeft(c, 6)), d)
         == a * 0x40000 + b * 0x1000 + c * 0x40 + d
  {
    hide Or;
    SmallPowers();
    OrAdds(a * 0x40000, b * 0x1000, 18);
    OrAdds(a * 0x40000 + b * 0x1000, c * 0x40, 12);
    OrAdds(a * 0x40000 + b * 0x1000 + c * 0x40, d, 6);
  }

  /** The decoder computes the sum of what its bytes stand for, whatever they are. */
  lemma DecoderAgrees(o: Text)
    ensures DecodeByBits(o) == Utf8.Decode(o)
  {
    hide And, Or, ShiftLeft;
    if 2 <= |o| <= 4 {
      MasksAreRemainders(o[0]);
      MasksAreRemainders(o[1]);
    }
    if |o| == 2 {
      JoinTwo(o[0] % 0x40, o[1] % 0x40);
    } else if |o| == 3 {
      MasksAreRemainders(o[2]);
      JoinThree(o[0] % 0x20, o[1] % 0x40, o[2] % 0x40);
    } else if |o| == 4 {
      MasksAreRemainders(o[2]);
      MasksAreRemainders(o[3]);
      JoinFour(o[0] % 0x10, o[1] % 0x40, o[2] % 0x40, o[3] % 0x40);
    }
  }

  /** A byte as a signed char */
  function Signed(b: Byte): int {
    if b < 0x80 then b else b - 0x100
  }

  /** The comparisons of sutil8_char_at, which are on signed chars. */
  lemma ComparisonsAgree(b: Byte)
    ensures Utf8Index.Announced(b)
         == if 0 <= Signed(b) then 1
            else if Signed(b) < -64 then 0
            else if Signed(b) < -32 then 2
            else if Signed(b) < -16 then 3
            else if Signed(b) < -8 then 4
            else 0
    ensures Utf8.IsTail(b) <==> Signed(b) < -64
  {
  }

  /** The masks and the step of sutil8_char_at. */
  lemma IndexAgrees(lead: Byte, cp: nat, b: Byte)
    ensures Utf8Index.LeadBits(lead)
         == if lead < 0x80 then lead
            else if lead < 0xE0 then And(lead, 0x1F)
            else if lead < 0xF0 then And(lead, 0x0F)
            else And(lead, 0x07)
    ensures Or(ShiftLeft(cp, 6), TailBits(b)) == cp * 0x40 + b % 0x40
  {
    hide And, Or, ShiftLeft;
    MasksAreRemainders(lead);
    MasksAreRemainders(b);
    JoinTwo(cp, b % 0x40);
  }
}
