/** The machine words of the sources, as ranges of integers. */
module Words {

  type Byte = x: int | 0 <= x < 0x100
  type Word = x: int | 0 <= x < 0x1_0000
  type Dword = x: int | 0 <= x < 0x1_0000_0000

  type Bytes = seq<Byte>

  datatype Option<+T> = None | Some(value: T)

  function Min(a: int, b: int): (m: int)
    ensures m <= a && m <= b && (m == a || m == b)
  {
    if a <= b then a else b
  }

  /** The low byte, and the low 32 bits, of an integer. */
  function LowByte(n: int): Byte {
    n % 0x100
  }

  function LowDword(n: int): Dword {
    n % 0x1_0000_0000
  }

  lemma {:induction false} LowDwordUnique(x: int, q: int, r: int)
    requires x == 0x1_0000_0000 * q + r && 0 <= r < 0x1_0000_0000
    ensures LowDword(x) == r
  {
  }

  /** Whole multiples of 2^32 do not count. */
  lemma {:induction false} LowDwordShift(x: int, k: int)
    ensures LowDword(x + 0x1_0000_0000 * k) == LowDword(x)
  {
    LowDwordUnique(x + 0x1_0000_0000 * k, x / 0x1_0000_0000 + k, x % 0x1_0000_0000);
  }

  /** 32-bit sums may be cut down early or late. */
  lemma {:induction false} LowDwordAdd(a: int, b: int)
    ensures LowDword(LowDword(a) + b) == LowDword(a + b) == LowDword(a + LowDword(b))
  {
    var m, n := a / 0x1_0000_0000, b / 0x1_0000_0000;
    assert LowDword(a) == a - 0x1_0000_0000 * m && LowDword(b) == b - 0x1_0000_0000 * n;
    hide LowDword;
    LowDwordShift(a + b, 0 - m);
    LowDwordShift(a + b, 0 - n);
  }

  /** 2 to the power n. */
  function Pow2(n: nat): nat {
    if n == 0 then 1 else 2 * Pow2(n - 1)
  }

  /** Exclusive or of the low `bits` bits, bit by bit. */
  function XorBits(a: nat, b: nat, bits: nat): (x: nat)
    ensures x < Pow2(bits)
  {
    if bits == 0 then 0 else (a + b) % 2 + 2 * XorBits(a / 2, b / 2, bits - 1)
  }

  function Xor(a: Byte, b: Byte): (x: Byte) {
    assert Pow2(8) == 0x100;
    XorBits(a, b, 8)
  }

  lemma {:induction false} ParityCancels(a: nat, b: nat)
    ensures ((a + b) % 2 + b) % 2 == a % 2
  {
  }

  lemma {:induction false} BitAndHalf(bit: nat, half: nat)
    requires bit < 2
    ensures (bit + 2 * half) / 2 == half && (bit + 2 * half) % 2 == bit
  {
  }

  lemma {:induction false} OddSum(bit: nat, half: nat, b: nat)
    ensures (bit + 2 * half + b) % 2 == (bit + b) % 2
  {
  }

  lemma {:induction false} XorBitsOdd(x: nat, b: nat, bits: nat)
    requires bits > 0
    ensures XorBits(x, b, bits) == (x + b) % 2 + 2 * XorBits(x / 2, b / 2, bits - 1)
  {
  }

  lemma {:induction false} XorBitsCancels(a: nat, b: nat, bits: nat)
    requires a < Pow2(bits)
    ensures XorBits(XorBits(a, b, bits), b, bits) == a
  {
    if bits > 0 {
      hide *;
      HalfBound(a, bits);
      var bit, half := (a + b) % 2, XorBits(a / 2, b / 2, bits - 1);
      JoinedBits(a, b, bit, half);
      calc {
        XorBits(XorBits(a, b, bits), b, bits);
      == { XorBitsOdd(a, b, bits); }
        XorBits(bit + 2 * half, b, bits);
      == { XorBitsOdd(bit + 2 * half, b, bits); }
        a % 2 + 2 * XorBits(half, b / 2, bits - 1);
      == { XorBitsCancels(a / 2, b / 2, bits - 1); }
        a % 2 + 2 * (a / 2);
      }
    }
  }

  lemma {:induction false} JoinedBits(a: nat, b: nat, bit: nat, half: nat)
    requires bit == (a + b) % 2
    ensures (bit + 2 * half) / 2 == half && (bit + 2 * half + b) % 2 == a % 2
  {
    BitAndHalf(bit, half);
    OddSum(bit, half, b);
    ParityCancels(a, b);
  }

  lemma {:induction false} HalfBound(a: nat, bits: nat)
    requires bits > 0 && a < Pow2(bits)
    ensures a / 2 < Pow2(bits - 1)
  {
  }

  /** Bit j of a number, the lowest being bit 0. */
  function Bit(n: nat, j: nat): (b: nat)
    ensures b < 2
  {
    if j == 0 then n % 2 else Bit(n / 2, j - 1)
  }

  lemma {:induction false} ParityOfSum(a: nat, b: nat)
    ensures (a + b) % 2 == (a % 2 + b % 2) % 2
  {
  }

  lemma {:induction false} XorBitsAt(a: nat, b: nat, bits: nat, j: nat)
    requires j < bits
    ensures Bit(XorBits(a, b, bits), j) == (Bit(a, j) + Bit(b, j)) % 2
    decreases bits
  {
    hide *;
    var bit, half := (a + b) % 2, XorBits(a / 2, b / 2, bits - 1);
    XorBitsOdd(a, b, bits);
    BitAndHalf(bit, half);
    ParityOfSum(a, b);
    BitTurn(bit + 2 * half, j);
    BitTurn(a, j);
    BitTurn(b, j);
    if j > 0 { XorBitsAt(a / 2, b / 2, bits - 1, j - 1); }
  }

  lemma {:induction false} BitTurn(n: nat, j: nat)
    ensures Bit(n, j) == if j == 0 then n % 2 else Bit(n / 2, j - 1)
  {
  }

  /** Bit j of an exclusive or is the sum of the two bits j, modulo 2. */
  lemma {:induction false} XorAt(a: Byte, b: Byte, j: nat)
    requires j < 8
    ensures Bit(Xor(a, b), j) == (Bit(a, j) + Bit(b, j)) % 2
  {
    assert Pow2(8) == 0x100;
    XorBitsAt(a, b, 8, j);
  }

  /** The low `n` bits, put together again. */
  lemma {:induction false} BitsDetermine(a: nat, b: nat, n: nat)
    requires a < Pow2(n) && b < Pow2(n) && forall j :: 0 <= j < n ==> Bit(a, j) == Bit(b, j)
    ensures a == b
    decreases n
  {
    if n > 0 {
      HalfBound(a, n);
      HalfBound(b, n);
      hide Pow2;
      assert Bit(a, 0) == Bit(b, 0);
      forall j | 0 <= j < n - 1 ensures Bit(a / 2, j) == Bit(b / 2, j) {
        assert Bit(a, j + 1) == Bit(b, j + 1);
      }
      BitsDetermine(a / 2, b / 2, n - 1);
    }
  }

  /** A byte is its eight bits. */
  lemma {:induction false} ByteBits(a: Byte, b: Byte)
    requires forall j :: 0 <= j < 8 ==> Bit(a, j) == Bit(b, j)
    ensures a == b
  {
    assert Pow2(8) == 0x100;
    BitsDetermine(a, b, 8);
  }

  lemma {:induction false} BitOfSmall(n: nat, k: nat, bits: nat, j: nat)
    requires j < bits
    ensures Bit(n + Pow2(bits) * k, j) == Bit(n, j)
    decreases bits
  {
    var half := Pow2(bits - 1) * k;
    assert Pow2(bits) * k == 2 * half;
    BitAndHalf(n % 2, n / 2 + half);
    assert n + 2 * half == n % 2 + 2 * (n / 2 + half);
    if j > 0 { BitOfSmall(n / 2, k, bits - 1, j - 1); }
  }

  /** A number's low eight bits are those of its low byte. */
  lemma {:induction false} LowByteBits(n: nat, j: nat)
    requires j < 8
    ensures Bit(LowByte(n), j) == Bit(n, j)
  {
    assert Pow2(8) == 0x100;
    assert n == n % 0x100 + Pow2(8) * (n / 0x100);
    BitOfSmall(n % 0x100, n / 0x100, 8, j);
  }

  /** Exclusive or undoes itself. */
  lemma {:induction false} XorCancels(a: Byte, b: Byte)
    ensures Xor(Xor(a, b), b) == a
  {
    assert Pow2(8) == 0x100;
    XorBitsCancels(a, b, 8);
  }
}
