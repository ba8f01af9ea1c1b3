/**
 * The division, remainder and multiplication arms of the interpreter
 * (three-register opcodes 190-230), and the laws that tie them together.
 */
module PvmArith {
  import opened Base

  /** Sign extension of an `n`-byte value to 64 bits, `1 <= n <= 7`; other widths are unchanged. */
  function Sext(n: nat, x: u64): u64 {
    if n == 0 || n >= 8 then x
    else
      var m := Width(n);
      var low := x % m;
      if low >= m / 2 then low + (W64 - m) else low
  }

  /** Division rounding toward zero. */
  function TruncDiv(x: int, y: int): int
    requires y != 0
  {
    if x >= 0 then (if y > 0 then x / y else -(x / -y))
    else if y > 0 then -(-x / y) else -x / -y
  }

  /** Remainder of `TruncDiv`; it takes the sign of the dividend. */
  function TruncRem(x: int, y: int): int
    requires y != 0
  {
    var d := if y > 0 then y else -y;
    if x >= 0 then x % d else -(-x % d)
  }

  /** Unsigned division and remainder of register operands. */
  function UDiv(x: u64, y: u64): u64
    requires y > 0
  {
    DivModIdentity(x, y);
    x / y
  }

  function URem(x: u64, y: u64): u64
    requires y > 0
  {
    DivModIdentity(x, y);
    x % y
  }

  /** The quotient arms: 193 (32-bit unsigned), 194 (32-bit signed), 203 and 204 (64-bit). */
  function Quotient(op: nat, a: u64, b: u64): u64
    requires op in {193, 194, 203, 204}
  {
    match op
    case 193 =>
      var bb := b % W32;
      if bb == 0 then U64_MAX else Sext(4, UDiv(a % W32, bb))
    case 194 =>
      var x, y := Signed(W32, a % W32), Signed(W32, b % W32);
      if y == 0 then U64_MAX
      else if x == -0x8000_0000 && y == -1 then Sext(4, x % W32)
      else Sext(4, TruncDiv(x, y) % W32)
    case 203 =>
      if b == 0 then U64_MAX else UDiv(a, b)
    case _ =>
      var x, y := Signed(W64, a), Signed(W64, b);
      if y == 0 then U64_MAX
      else if x == -0x8000_0000_0000_0000 && y == -1 then a
      else TruncDiv(x, y) % W64
  }

  /** The remainder arms: 195, 196 (32-bit) and 205, 206 (64-bit). */
  function Remainder(op: nat, a: u64, b: u64): u64
    requires op in {195, 196, 205, 206}
  {
    match op
    case 195 =>
      var bb := b % W32;
      if bb == 0 then Sext(4, a % W32) else Sext(4, URem(a % W32, bb))
    case 196 =>
      var x, y := Signed(W32, a % W32), Signed(W32, b % W32);
      if y == 0 then Sext(4, x % W32)
      else if x == -0x8000_0000 && y == -1 then 0
      else Sext(4, TruncRem(x, y) % W32)
    case 205 =>
      if b == 0 then a else URem(a, b)
    case _ =>
      var x, y := Signed(W64, a), Signed(W64, b);
      if y == 0 then a
      else if x == -0x8000_0000_0000_0000 && y == -1 then 0
      else TruncRem(x, y) % W64
  }

  /** The product arms: 192 and 202 (low half), 213, 214 and 215 (high half: ss, uu, su). */
  function Product(op: nat, a: u64, b: u64): u64
    requires op in {192, 202, 213, 214, 215}
  {
    match op
    case 192 => Sext(4, a * b % W64 % W32)
    case 202 => a * b % W64
    case 213 => Signed(W64, a) * Signed(W64, b) / W64 % W64
    case 214 => a * b / W64 % W64
    case _ => Signed(W64, a) * b / W64 % W64
  }

  predicate IsArithOpcode(op: nat) {
    op in {192, 193, 194, 195, 196, 202, 203, 204, 205, 206, 213, 214, 215}
  }

  /** Every arm above, selected by opcode. */
  function ThreeReg(op: nat, a: u64, b: u64): u64
    requires IsArithOpcode(op)
  {
    if op in {193, 194, 203, 204} then Quotient(op, a, b)
    else if op in {195, 196, 205, 206} then Remainder(op, a, b)
    else Product(op, a, b)
  }

  /** A 32-bit result always arrives in its register sign-extended. */
  predicate SignExtended32(r: u64) {
    r == Sext(4, r % W32)
  }

  lemma SextKeepsLow(x: u64)
    ensures Sext(4, x) % W32 == x % W32
    ensures SignExtended32(Sext(4, x))
  {
    var low := x % W32;
    if low >= W32 / 2 {
      assert low + (W64 - W32) == low + (W32 - 1) * W32;
      ModShift(low, W32, W32 - 1);
    }
  }

  // ---------------------------------------------------------------- division

  /** What division promises at width `w`: the pair (q, r) of unsigned words for a / b. */
  predicate UnsignedDivision(w: nat, a: nat, b: nat, q: nat, r: nat)
    requires w > 0
  {
    && (q * b + r) % w == a
    && (b != 0 ==> q * b + r == a && r < b)
    && (b == 0 ==> q == w - 1 && r == a)
  }

  /** The signed promise, on the words' two's-complement readings. */
  predicate SignedDivision(w: nat, a: nat, b: nat, q: nat, r: nat)
    requires w > 0 && a < w && b < w && q < w && r < w
  {
    var x, y, sq, sr := Signed(w, a), Signed(w, b), Signed(w, q), Signed(w, r);
    && (sq * y + sr) % w == a
    && (y == 0 ==> sq == -1 && sr == x)
    && (x == -(w / 2) && y == -1 ==> sq == x && sr == 0)
    && (y != 0 && !(x == -(w / 2) && y == -1) ==>
          && sq * y + sr == x
          && (if sr < 0 then -sr else sr) < (if y < 0 then -y else y)
          && (sr != 0 ==> (sr < 0 <==> x < 0)))
  }

  lemma DivisionHolds(w: nat, a: nat, b: nat, q: nat, r: nat)
    requires a < w && b > 0 && q * b + r == a && r < b
    ensures UnsignedDivision(w, a, b, q, r)
  {
    QuotientUnique(a, w, 0, a);
  }

  /** The 32-bit unsigned arms divide the low words and sign-extend. */
  lemma UnsignedArms32(a: u64, b: u64) returns (q: u64, r: u64)
    requires b % W32 != 0
    ensures Quotient(193, a, b) == Sext(4, q) && Remainder(195, a, b) == Sext(4, r)
    ensures q < W32 && r < b % W32 && q * (b % W32) + r == a % W32
  {
    q, r := UDiv(a % W32, b % W32), URem(a % W32, b % W32);
    DivModIdentity(a % W32, b % W32);
  }

  lemma UnsignedDivision32(a: u64, b: u64)
    ensures SignExtended32(Quotient(193, a, b)) && SignExtended32(Remainder(195, a, b))
    ensures UnsignedDivision(W32, a % W32, b % W32, Quotient(193, a, b) % W32, Remainder(195, a, b) % W32)
  {
    if b % W32 == 0 {
      SextKeepsLow(a % W32);
    } else {
      var q, r := UnsignedArms32(a, b);
      SextOfWord(q);
      SextOfWord(r);
      DivisionHolds(W32, a % W32, b % W32, q, r);
    }
  }

  lemma SextOfWord(x: u64)
    requires x < W32
    ensures Sext(4, x) % W32 == x && SignExtended32(Sext(4, x))
  {
    SextKeepsLow(x);
  }

  lemma UnsignedDivision64(a: u64, b: u64)
    ensures UnsignedDivision(W64, a, b, Quotient(203, a, b), Remainder(205, a, b))
  {
    if b != 0 {
      DivModIdentity(a, b);
    }
  }

  lemma DivModIdentity(x: nat, y: nat)
    requires y > 0
    ensures x / y * y + x % y == x && 0 <= x / y <= x && x % y < y && x % y <= x
    ensures y >= 2 ==> 2 * (x / y) <= x
  {
    SplitAt(x, y);
    QuotientBounds(x, y, x / y, x % y);
  }

  lemma QuotientBounds(x: nat, y: nat, q: int, r: int)
    requires y > 0 && x == q * y + r && 0 <= r < y
    ensures 0 <= q <= x && r <= x
    ensures y >= 2 ==> 2 * q <= x
  {
    MulMonotone(q, y);
    MulMonotone(y - 1, q);
    if y >= 2 && q >= 0 {
      assert (y - 2) * q >= 0;
    }
    assert q * y == (y - 1) * q + q;
  }

  /** The truncating pair satisfies the division law and stays in range except for MIN / -1. */
  lemma TruncLaw(w: nat, x: int, y: int)
    requires w % 2 == 0 && w > 0
    requires -(w / 2) <= x < w / 2 && -(w / 2) <= y < w / 2
    requires y != 0 && !(x == -(w / 2) && y == -1)
    ensures TruncDiv(x, y) * y + TruncRem(x, y) == x
    ensures (if TruncRem(x, y) < 0 then -TruncRem(x, y) else TruncRem(x, y)) < (if y < 0 then -y else y)
    ensures TruncRem(x, y) != 0 ==> (TruncRem(x, y) < 0 <==> x < 0)
    ensures -(w / 2) <= TruncDiv(x, y) < w / 2
    ensures -(w / 2) <= TruncRem(x, y) < w / 2
  {
    var p, d := if x < 0 then -x else x, if y < 0 then -y else y;
    DivModIdentity(p, d);
    var q := p / d;
    SignProducts(q, d);
  }

  lemma SignProducts(q: int, d: int)
    ensures q * -d == -(q * d) && -q * d == -(q * d) && -q * -d == q * d
  {
  }

  /** Writing a value in range as a word and reading it back is the identity. */
  lemma SignedOfWord(w: nat, v: int)
    requires w % 2 == 0 && w > 0 && -(w / 2) <= v < w / 2
    ensures 0 <= v % w < w && Signed(w, v % w) == v
  {
    if v < 0 {
      ModShift(v + w, w, -1);
      assert v + w + -1 * w == v;
    } else {
      ModShift(v, w, 0);
      assert v + 0 * w == v;
    }
  }

  lemma SignedModulo(w: nat, x: nat)
    requires x < w
    ensures Signed(w, x) % w == x
  {
    ModShift(x, w, if x < w / 2 then 0 else -1);
  }

  lemma TruncPair(w: nat, a: nat, b: nat)
    requires w % 2 == 0 && a < w && b < w
    requires Signed(w, b) != 0 && !(Signed(w, a) == -(w / 2) && Signed(w, b) == -1)
    ensures var x, y := Signed(w, a), Signed(w, b);
            0 <= TruncDiv(x, y) % w < w && 0 <= TruncRem(x, y) % w < w
            && SignedDivision(w, a, b, TruncDiv(x, y) % w, TruncRem(x, y) % w)
  {
    var x, y := Signed(w, a), Signed(w, b);
    TruncLaw(w, x, y);
    SignedOfWord(w, TruncDiv(x, y));
    SignedOfWord(w, TruncRem(x, y));
    SignedModulo(w, a);
  }

  lemma ByZero(w: nat, a: nat)
    requires w > 1 && w % 2 == 0 && a < w
    ensures SignedDivision(w, a, 0, w - 1, a)
  {
    SignedModulo(w, a);
    assert Signed(w, w - 1) * 0 + Signed(w, a) == Signed(w, a);
  }

  lemma MinByMinusOne(w: nat)
    requires w > 2 && w % 2 == 0
    ensures SignedDivision(w, w / 2, w - 1, w / 2, 0)
  {
    assert Signed(w, w / 2) * -1 + 0 == w / 2;
  }

  /** The 32-bit signed arms compute this pair of words and sign-extend it. */
  function SignedPair32(a: u64, b: u64): (int, int) {
    var x, y := Signed(W32, a % W32), Signed(W32, b % W32);
    if y == 0 then (W32 - 1, a % W32)
    else if x == -0x8000_0000 && y == -1 then (a % W32, 0)
    else (TruncDiv(x, y) % W32, TruncRem(x, y) % W32)
  }

  lemma SignedPair32Arms(a: u64, b: u64)
    ensures var (q, r) := SignedPair32(a, b);
            0 <= q < W32 && 0 <= r < W32 && Quotient(194, a, b) == Sext(4, q) && Remainder(196, a, b) == Sext(4, r)
  {
    SignedModulo(W32, a % W32);
  }

  lemma SignedPair32Law(a: u64, b: u64)
    ensures var (q, r) := SignedPair32(a, b);
            0 <= q < W32 && 0 <= r < W32 && SignedDivision(W32, a % W32, b % W32, q, r)
  {
    var x, y := Signed(W32, a % W32), Signed(W32, b % W32);
    if y == 0 {
      ByZero(W32, a % W32);
    } else if x == -0x8000_0000 && y == -1 {
      MinByMinusOne(W32);
    } else {
      TruncPair(W32, a % W32, b % W32);
    }
  }

  lemma SignedDivision32(a: u64, b: u64)
    ensures SignExtended32(Quotient(194, a, b)) && SignExtended32(Remainder(196, a, b))
    ensures SignedDivision(W32, a % W32, b % W32, Quotient(194, a, b) % W32, Remainder(196, a, b) % W32)
  {
    SignedPair32Arms(a, b);
    SignedPair32Law(a, b);
    SextOfWord(SignedPair32(a, b).0);
    SextOfWord(SignedPair32(a, b).1);
  }

  lemma SignedDivision64(a: u64, b: u64)
    ensures SignedDivision(W64, a, b, Quotient(204, a, b), Remainder(206, a, b))
  {
    var x, y := Signed(W64, a), Signed(W64, b);
    if y == 0 {
      ByZero(W64, a);
    } else if x == -0x8000_0000_0000_0000 && y == -1 {
      MinByMinusOne(W64);
    } else {
      TruncPair(W64, a, b);
    }
  }

  // ---------------------------------------------------------- multiplication

  /** Word products agree with the products of the words' signed readings, modulo the width. */
  lemma ProductModulo(w: nat, a: nat, b: nat, x: int, y: int)
    requires w > 0
    requires a < w && b < w && (x == a || x == a - w) && (y == b || y == b - w)
    ensures x * y % w == a * b % w
  {
    if x == a && y == b {
    } else if x == a {
      assert a * (b - w) == a * b + (0 - a) * w;
      AddMultiple(a * b, w, 0 - a);
    } else if y == b {
      assert (a - w) * b == a * b + (0 - b) * w;
      AddMultiple(a * b, w, 0 - b);
    } else {
      assert (a - w) * (b - w) == a * b + (w - a - b) * w;
      AddMultiple(a * b, w, w - a - b);
    }
  }

  lemma AddMultiple(p: int, w: nat, k: int)
    requires w > 0
    ensures (p + k * w) % w == p % w
  {
    SplitAt(p, w);
    ModShift(p % w, w, p / w + k);
    assert (p / w + k) * w == p / w * w + k * w;
  }

  lemma MulBound(a: nat, b: nat, m: nat, n: nat)
    requires a < m && b < n
    ensures 0 <= a * b < m * n
  {
    assert (m - a) * n > 0;
    assert a * (n - b) >= 0;
  }

  /** The unsigned high half and the low product rebuild the exact 128-bit product. */
  lemma MultiplyHighUnsigned(a: u64, b: u64)
    ensures Product(214, a, b) * W64 + Product(202, a, b) == a * b
  {
    var p := a * b;
    SplitAt(p, W64);
    assert 0 <= p < W64 * W64 by {
      MulBound(a, b, W64, W64);
    }
  }

  /** Signed-by-signed and signed-by-unsigned high halves do the same for the signed product. */
  lemma MultiplyHighSigned(a: u64, b: u64)
    ensures Signed(W64, Product(213, a, b)) * W64 + Product(202, a, b) == Signed(W64, a) * Signed(W64, b)
    ensures Signed(W64, Product(215, a, b)) * W64 + Product(202, a, b) == Signed(W64, a) * b
  {
    var x, y := Signed(W64, a), Signed(W64, b);
    HighHalf(a, b, x, y);
    HighHalf(a, b, x, b);
  }

  lemma HighHalf(a: u64, b: u64, x: int, y: int)
    requires x == Signed(W64, a) && (y == b || y == Signed(W64, b))
    ensures Signed(W64, x * y / W64 % W64) * W64 + a * b % W64 == x * y
  {
    var p := x * y;
    ProductModulo(W64, a, b, x, y);
    SplitAt(p, W64);
    SignedProductBounds(x, y);
    SignedOfWord(W64, p / W64);
  }

  lemma MulLe(a: nat, b: nat, m: nat, n: nat)
    requires a <= m && b <= n
    ensures 0 <= a * b <= m * n
  {
    assert (m - a) * n >= 0;
    assert a * (n - b) >= 0;
  }

  lemma HalfWordBounds(h: nat, x: int, y: int)
    requires h > 0 && 0 - h <= x < h && 0 - h <= y < 2 * h
    ensures -(h * (2 * h)) <= x * y < h * (2 * h)
  {
    var u, v := if x < 0 then -x else x, if y < 0 then -y else y;
    SignProducts(u, v);
    if x >= 0 && y >= 0 {
      MulLe(u, v, h - 1, 2 * h);
      assert (h - 1) * (2 * h) == h * (2 * h) - 2 * h;
    } else if x < 0 && y >= 0 {
      MulLe(u, v, h, 2 * h);
      assert x * y <= 0;
    } else {
      MulLe(u, v, h, h);
      assert h * (2 * h) == h * h + h * h && h * h > 0;
    }
  }

  lemma SignedProductBounds(x: int, y: int)
    requires -(W64 / 2) <= x < W64 / 2 && -(W64 / 2) <= y < W64
    ensures -(W64 / 2) * W64 <= x * y < (-(W64 / 2) + W64) * W64
  {
    HalfWordBounds(W64 / 2, x, y);
  }

  /** The 32-bit product is the sign-extended low word of the low product. */
  lemma ProductLow32(a: u64, b: u64)
    ensures SignExtended32(Product(192, a, b))
    ensures Product(192, a, b) % W32 == (a % W32) * (b % W32) % W32
  {
    SextKeepsLow(a * b % W64 % W32);
    assert a * b % W64 % W32 == a * b % W32 by {
      SplitAt(a * b, W64);
      SplitAt(a * b % W64, W32);
      ModShift(a * b % W64 % W32, W32, a * b % W64 / W32 + a * b / W64 * W32);
    }
    LowOfProduct(a, b);
  }

  lemma LowOfProduct(a: u64, b: u64)
    ensures a * b % W32 == (a % W32) * (b % W32) % W32
  {
    var x, y, p, q := a % W32, b % W32, a / W32, b / W32;
    SplitAt(a, W32);
    SplitAt(b, W32);
    assert a * b == x * y + (x * q + p * b) * W32 by {
      assert a * b == (p * W32 + x) * b == p * W32 * b + x * b;
      assert x * b == x * (q * W32 + y) == x * q * W32 + x * y;
    }
    SplitAt(x * y, W32);
    ModShift(x * y % W32, W32, x * y / W32 + (x * q + p * b));
  }
}
