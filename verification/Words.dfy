/** 64-bit words, two's-complement wrap-around and little-endian bytes, as the C++ code sees them. */
module Words {

  datatype Option<+T> = None | Some(value: T)

  const TWO63: int := 0x8000_0000_0000_0000
  const TWO64: int := 0x1_0000_0000_0000_0000
  const TWO32: int := 0x1_0000_0000

  /** Dwarf_Unsigned and Dwarf_Addr. */
  type Word = x: int | 0 <= x < TWO64

  /** Dwarf_Signed, the element type of the evaluation stack. */
  type SWord = x: int | -TWO63 <= x < TWO63

  type byte = x: int | 0 <= x < 256

  const MAX_SIGNED: SWord := TWO63 - 1
  const MAX_ADDR: Word := TWO64 - 1

  function ToWord(x: int): Word {
    x % TWO64
  }

  /** The conversion of any integer to int64_t, modulo 2^64. */
  function ToSigned(x: int): SWord {
    (x + TWO63) % TWO64 - TWO63
  }

  /** static_cast<int16_t>, used for branch operands. */
  function ToSigned16(x: int): int {
    (x + 0x8000) % 0x1_0000 - 0x8000
  }

  /** The conversion to int, used for register numbers and sizes. */
  function ToInt32(x: int): int {
    (x + 0x8000_0000) % TWO32 - 0x8000_0000
  }

  /** The value of a signed integer of this range that has the same low bits: what a conversion to a
      narrower type, or to a signed one, gives. */
  ghost predicate IsConverted(x: int, r: int, half: int) {
    half > 0 && -half <= r < half && (x - r) % (2 * half) == 0
  }

  lemma ConversionsAreTwosComplement(x: int)
    ensures IsConverted(x, ToSigned(x), TWO63)
    ensures IsConverted(x, ToSigned16(x), 0x8000)
    ensures IsConverted(x, ToInt32(x), 0x8000_0000)
  {
    ShiftedRemainder(x, TWO63);
    ShiftedRemainder(x, 0x8000);
    ShiftedRemainder(x, 0x8000_0000);
  }

  lemma ShiftedRemainder(x: int, half: int)
    requires half > 0
    ensures IsConverted(x, (x + half) % (2 * half) - half, half)
  {
    var m := 2 * half;
    var q, r := (x + half) / m, (x + half) % m;
    assert x - (r - half) == 0 + q * m;
    ModUnique(q * m, m, q, 0);
  }

  /** Two integers that are the same 64-bit word. */
  ghost predicate Congruent(a: int, b: int) {
    ToWord(a) == ToWord(b)
  }

  ghost function Quotient(a: int, b: int): (k: int)
    requires Congruent(a, b)
    ensures a == b + k * TWO64
  {
    a / TWO64 - b / TWO64
  }

  lemma SignedIsCongruent(x: int)
    ensures Congruent(ToSigned(x), x)
    ensures ToWord(ToSigned(x)) == ToWord(x)
    ensures ToSigned(ToWord(x)) == ToSigned(x)
  {
  }

  lemma SignedIdentity(x: SWord)
    ensures ToSigned(x) == x
  {
  }

  /** Storing a word as a signed entry loses nothing. */
  lemma WordIdentity(x: Word)
    ensures ToWord(ToSigned(x)) == x
  {
  }

  lemma WordShift(x: int, d: int)
    ensures ToWord(ToWord(x) + d) == ToWord(x + d)
  {
  }

  lemma CongruentAdd(a: int, b: int, c: int, d: int)
    requires Congruent(a, b) && Congruent(c, d)
    ensures Congruent(a + c, b + d) && Congruent(a - c, b - d)
  {
    var k, l := Quotient(a, b), Quotient(c, d);
    AddMultiple(b + d, k + l);
    AddMultiple(b - d, k - l);
  }

  lemma CongruentMul(a: int, b: int, c: int, d: int)
    requires Congruent(a, b) && Congruent(c, d)
    ensures Congruent(a * c, b * d)
  {
    var k, l := Quotient(a, b), Quotient(c, d);
    calc {
      a * c;
      (b + k * TWO64) * (d + l * TWO64);
      b * d + (b * l + k * d + k * l * TWO64) * TWO64;
    }
    AddMultiple(b * d, b * l + k * d + k * l * TWO64);
  }

  lemma AddMultiple(x: int, m: int)
    ensures ToWord(x + m * TWO64) == ToWord(x)
  {
  }

  // ----- powers of two and bits -----

  function Pow2(n: nat): (p: nat)
    ensures p > 0
  {
    if n == 0 then 1 else 2 * Pow2(n - 1)
  }

  /** Bit k of a natural number. */
  predicate Bit(x: nat, k: nat) {
    if k == 0 then x % 2 == 1 else Bit(x / 2, k - 1)
  }

  datatype BitFn = AndFn | OrFn | XorFn {
    predicate At(a: bool, b: bool) {
      match this
      case AndFn => a && b
      case OrFn => a || b
      case XorFn => a != b
    }
  }

  /** The low n bits of a and b combined bit by bit. */
  function Bitwise(f: BitFn, n: nat, a: nat, b: nat): (r: nat)
    ensures r < Pow2(n)
  {
    if n == 0 then 0
    else 2 * Bitwise(f, n - 1, a / 2, b / 2) + (if f.At(a % 2 == 1, b % 2 == 1) then 1 else 0)
  }

  lemma {:induction false} BitwiseBit(f: BitFn, n: nat, a: nat, b: nat, k: nat)
    requires k < n
    ensures Bit(Bitwise(f, n, a, b), k) == f.At(Bit(a, k), Bit(b, k))
  {
    var r := Bitwise(f, n, a, b);
    assert r / 2 == Bitwise(f, n - 1, a / 2, b / 2);
    if k > 0 {
      BitwiseBit(f, n - 1, a / 2, b / 2, k - 1);
    }
  }

  /** Subtracting from all ones flips every bit: ~x is -1 - x. */
  lemma {:induction false} ComplementBit(n: nat, x: nat, k: nat)
    requires x < Pow2(n) && k < n
    ensures Bit(Pow2(n) - 1 - x, k) == !Bit(x, k)
  {
    var c := Pow2(n) - 1 - x;
    assert c / 2 == Pow2(n - 1) - 1 - x / 2;
    if k > 0 {
      ComplementBit(n - 1, x / 2, k - 1);
    }
  }

  lemma Pow2Values()
    ensures Pow2(64) == TWO64
  {
    Pow256IsPow2(8);
    Pow256Values();
  }

  lemma {:induction false} Pow256IsPow2(n: nat)
    ensures Pow256(n) == Pow2(8 * n)
  {
    if n > 0 {
      Pow256IsPow2(n - 1);
      var m := 8 * (n - 1);
      assert Pow2(m + 4) == 16 * Pow2(m) by {
        assert Pow2(m + 2) == 4 * Pow2(m);
      }
      assert Pow2(m + 8) == 16 * Pow2(m + 4) by {
        assert Pow2(m + 6) == 4 * Pow2(m + 4);
      }
    }
  }

  // ----- little-endian bytes -----

  function Pow256(n: nat): (p: nat)
    ensures p > 0
  {
    if n == 0 then 1 else 256 * Pow256(n - 1)
  }

  lemma Pow256Values()
    ensures Pow256(1) == 256
    ensures Pow256(2) == 0x1_0000
    ensures Pow256(4) == TWO32
    ensures Pow256(8) == TWO64
  {
    assert Pow256(4) == 256 * (256 * Pow256(2));
    assert Pow256(6) == 256 * (256 * Pow256(4));
  }

  /** The n low bytes of x, least significant first. */
  function ToLE(n: nat, x: nat): (b: seq<byte>)
    ensures |b| == n
  {
    if n == 0 then [] else [x % 256] + ToLE(n - 1, x / 256)
  }

  function FromLE(b: seq<byte>): (x: nat)
    ensures x < Pow256(|b|)
  {
    if b == [] then 0 else b[0] + 256 * FromLE(b[1..])
  }

  lemma {:induction false} FromToLE(n: nat, x: nat)
    requires x < Pow256(n)
    ensures FromLE(ToLE(n, x)) == x
  {
    if n > 0 {
      FromToLE(n - 1, x / 256);
      assert ToLE(n, x)[1..] == ToLE(n - 1, x / 256);
    }
  }

  /** A prefix of the bytes is the value modulo a power of 256. */
  lemma {:induction false} FromLEPrefix(b: seq<byte>, n: nat)
    requires n <= |b|
    ensures FromLE(b[..n]) == FromLE(b) % Pow256(n)
  {
    if n == 0 {
      assert b[..0] == [];
    } else {
      FromLEPrefix(b[1..], n - 1);
      assert b[..n][1..] == b[1..][..n - 1];
      var hi, m := FromLE(b[1..]), Pow256(n - 1);
      ModShift(b[0], hi, m);
    }
  }

  lemma ModShift(lo: byte, hi: nat, m: nat)
    requires m > 0
    ensures (lo + 256 * hi) % (256 * m) == lo + 256 * (hi % m)
  {
    var q, r := hi / m, hi % m;
    assert hi == q * m + r;
    var x, y := lo + 256 * hi, lo + 256 * r;
    assert x == q * (256 * m) + y by {
      assert 256 * (q * m) == q * (256 * m);
    }
    assert 0 <= y < 256 * m;
    ModUnique(x, 256 * m, q, y);
  }

  lemma ModUnique(x: int, m: int, q: int, r: int)
    requires m > 0 && 0 <= r < m && x == q * m + r
    ensures x % m == r && x / m == q
  {
    var p := x / m;
    assert x == p * m + x % m;
    var d := q - p;
    assert d * m == q * m - p * m;
    MulAtLeast(d, m);
    MulAtLeast(-d, m);
  }

  lemma MulGrows(a: nat, p: nat)
    requires p > 0
    ensures a * p >= a
  {
  }

  lemma MulAtLeast(d: int, m: int)
    requires m > 0
    ensures d >= 1 ==> d * m >= m
    ensures (-d) * m == -(d * m)
  {
  }

  /** Zero bytes above the value do not change it. */
  lemma {:induction false} FromLEZeros(b: seq<byte>, n: nat)
    ensures FromLE(b + seq(n, _ => 0 as byte)) == FromLE(b)
  {
    var z := seq(n, _ => 0 as byte);
    if b == [] {
      if n > 0 {
        FromLEZeros([], n - 1);
        assert ([] + z)[1..] == [] + seq(n - 1, _ => 0 as byte);
      } else {
        assert b + z == [];
      }
    } else {
      FromLEZeros(b[1..], n);
      assert (b + z)[1..] == b[1..] + z;
    }
  }

  lemma {:induction false} Pow256Monotone(m: nat, n: nat)
    requires m <= n
    ensures Pow256(m) <= Pow256(n)
    decreases n
  {
    if m < n {
      Pow256Monotone(m, n - 1);
    }
  }

  /** At most eight bytes as a word. */
  function LEWord(b: seq<byte>): (w: Word)
    requires |b| <= 8
    ensures w == FromLE(b)
  {
    Pow256Values();
    Pow256Monotone(|b|, 8);
    FromLE(b)
  }
}
