/** The bitwise operators of C on unsigned values, bit by bit. */
module Bits {

  function And(x: nat, y: nat): (r: nat) {
    if x == 0 || y == 0 then 0
    else 2 * And(x / 2, y / 2) + if x % 2 == 1 && y % 2 == 1 then 1 else 0
  }

  function Or(x: nat, y: nat): (r: nat)
    decreases x + y
  {
    if x == 0 && y == 0 then 0
    else 2 * Or(x / 2, y / 2) + if x % 2 == 1 || y % 2 == 1 then 1 else 0
  }

  function ShiftLeft(x: nat, k: nat): (r: nat) {
    if k == 0 then x else 2 * ShiftLeft(x, k - 1)
  }

  function ShiftRight(x: nat, k: nat): (r: nat) {
    if k == 0 then x else ShiftRight(x / 2, k - 1)
  }

  lemma AndStep(x: nat, y: nat)
    ensures And(x, y) == 2 * And(x / 2, y / 2) + if x % 2 == 1 && y % 2 == 1 then 1 else 0
  {
  }

  lemma OrStep(x: nat, y: nat)
    ensures Or(x, y) == 2 * Or(x / 2, y / 2) + if x % 2 == 1 || y % 2 == 1 then 1 else 0
  {
  }

  lemma {:induction false} OrNone(x: nat)
    ensures Or(x, 0) == x
  {
    if x > 0 {
      OrNone(x / 2);
    }
  }

  lemma {:induction false} Commutes(x: nat, y: nat)
    ensures Or(x, y) == Or(y, x)
    decreases x + y
  {
    if x > 0 || y > 0 {
      Commutes(x / 2, y / 2);
    }
  }

  /** A bit that the mask keeps and the mark does not set. */
  lemma KeptBit(x: nat, mark: nat, mask: nat)
    ensures And(Or(x, 2 * mark), 2 * mask + 1) == 2 * And(Or(x / 2, mark), mask) + x % 2
  {
    OrStep(x, 2 * mark);
    AndStep(Or(x, 2 * mark), 2 * mask + 1);
  }

  lemma MarkBit(x: nat)
    ensures And(Or(x, 2), 2) == 2
  {
    OrStep(x, 2);
    OrStep(x / 2, 1);
    AndStep(Or(x, 2), 2);
    AndStep(Or(x / 2, 1), 1);
    AndStep(Or(x / 2, 1) / 2, 0);
  }

  lemma Three(x: nat)
    ensures x % 8 == 4 * (x / 4 % 2) + 2 * (x / 2 % 2) + x % 2
  {
    Third(x);
    Two(x);
  }

  lemma Two(x: nat)
    ensures x % 4 == 2 * (x / 2 % 2) + x % 2
  {
    var q, r := x / 4, x % 4;
    assert x / 2 == 2 * q + r / 2;
  }

  lemma Third(x: nat)
    ensures x % 8 == 4 * (x / 4 % 2) + x % 4
  {
    var q, r := x / 8, x % 8;
    assert x / 4 == 2 * q + r / 4;
  }

  lemma Six(x: nat)
    ensures x % 64 == 8 * (x / 8 % 8) + x % 8
  {
    var q, r := x / 64, x % 64;
    assert x / 8 == 8 * q + r / 8;
  }

  lemma KeptThree(x: nat, mark: nat, mask: nat)
    ensures And(Or(x, 8 * mark), 8 * mask + 7) == 8 * And(Or(x / 8, mark), mask) + x % 8
  {
    hide And, Or;
    KeptBit(x, 4 * mark, 4 * mask + 3);
    KeptBit(x / 2, 2 * mark, 2 * mask + 1);
    KeptBit(x / 4, mark, mask);
    Three(x);
  }

  /** (x | 0x80) & 0xBF. */
  lemma Tail(x: nat)
    ensures And(Or(x, 0x80), 0xBF) == 0x80 + x % 64
  {
    hide And, Or;
    KeptThree(x, 16, 23);
    KeptThree(x / 8, 2, 2);
    MarkBit(x / 64);
    Six(x);
  }

  /** Two pieces whose bits lie apart. */
  lemma {:induction false} OrApart(a: nat, b: nat, k: nat)
    requires b < ShiftLeft(1, k)
    ensures Or(ShiftLeft(a, k), b) == ShiftLeft(a, k) + b
  {
    if k == 0 {
      OrNone(a);
    } else {
      OrStep(ShiftLeft(a, k), b);
      OrApart(a, b / 2, k - 1);
    }
  }

  lemma MaskStep(x: nat, mask: nat)
    ensures And(x, 2 * mask + 1) == 2 * And(x / 2, mask) + x % 2
  {
    AndStep(x, 2 * mask + 1);
  }

  lemma NoBits(x: nat)
    ensures And(x, 0) == 0
  {
  }

  lemma ThreeMore(x: nat, mask: nat)
    ensures And(x, 8 * mask + 7) == 8 * And(x / 8, mask) + x % 8
  {
    hide And;
    MaskStep(x, 4 * mask + 3);
    MaskStep(x / 2, 2 * mask + 1);
    MaskStep(x / 4, mask);
    Three(x);
  }

  lemma SixMore(x: nat, mask: nat)
    ensures And(x, 64 * mask + 63) == 64 * And(x / 64, mask) + x % 64
  {
    hide And;
    ThreeMore(x, 8 * mask + 7);
    ThreeMore(x / 8, mask);
    Six(x);
  }

  lemma Ten(x: nat)
    ensures x % 1024 == 64 * (x / 64 % 16) + x % 64
  {
    var q, r := x / 1024, x % 1024;
    assert x / 64 == 16 * q + r / 64;
  }

  lemma Four(x: nat)
    ensures x % 16 == 8 * (x / 8 % 2) + x % 8
  {
    var q, r := x / 16, x % 16;
    assert x / 8 == 2 * q + r / 8;
  }

  /** x & 0x3FF. */
  lemma TenBits(x: nat)
    ensures And(x, 0x3FF) == x % 1024
  {
    hide And;
    SixMore(x, 15);
    ThreeMore(x / 64, 1);
    MaskStep(x / 64 / 8, 0);
    NoBits(x / 64 / 8 / 2);
    Ten(x);
    Four(x / 64);
  }

  /** x & 0xFF of a byte, and x & 0x7F of a smaller one. */
  lemma ByteBits(x: nat)
    ensures x < 256 ==> And(x, 0xFF) == x
    ensures x < 128 ==> And(x, 0x7F) == x
  {
    hide And;
    SixMore(x, 3);
    SixMore(x, 1);
    MaskStep(x / 64, 1);
    MaskStep(x / 64, 0);
    MaskStep(x / 128, 0);
    NoBits(x / 128);
    NoBits(x / 256);
  }

  lemma ShiftLeftTwice(x: nat, k: nat)
    ensures ShiftLeft(x, 0) == x && ShiftLeft(x, k + 1) == 2 * ShiftLeft(x, k) && ShiftLeft(x, k + 2) == 4 * ShiftLeft(x, k)
  {
  }

  lemma ShiftRightTwice(x: nat, k: nat)
    ensures ShiftRight(x, 0) == x && ShiftRight(x, k + 2) == ShiftRight(x / 4, k)
  {
  }

  lemma Shifts(x: nat)
    ensures ShiftLeft(x, 3) == 8 * x && ShiftLeft(x, 4) == 16 * x && ShiftLeft(x, 5) == 32 * x
    ensures ShiftLeft(x, 10) == 1024 * x && ShiftRight(x, 6) == x / 64
  {
    hide ShiftLeft, ShiftRight;
    ShiftLeftTwice(x, 0);
    ShiftLeftTwice(x, 2);
    ShiftLeftTwice(x, 4);
    ShiftLeftTwice(x, 6);
    ShiftLeftTwice(x, 8);
    ShiftRightTwice(x, 4);
    ShiftRightTwice(x / 4, 2);
    ShiftRightTwice(x / 16, 0);
    ShiftRightTwice(x / 64, 0);
  }
}
