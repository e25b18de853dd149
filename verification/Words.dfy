/** 32-bit words, the bit operations the decoder applies to them, and bit strings.

    A C `int` or `unsigned int` used as a bit pattern is a number below 2^32.  Shifts are
    repeated doubling and halving and `BitAnd`, `BitOr` work digit by digit, so every law below
    is proved by an induction with linear arithmetic only.  A bit string is a `seq<bool>`, most
    significant bit first. */
module Words {

  type Byte = b: int | 0 <= b < 256
  type Word = w: int | 0 <= w < 0x1_0000_0000

  const WORD: nat := 0x1_0000_0000

  /** a * 2^k */
  function Up(a: nat, k: nat): (r: nat)
    ensures a <= r
  {
    if k == 0 then a else 2 * Up(a, k - 1)
  }

  /** a / 2^k */
  function Down(a: nat, k: nat): nat
  {
    if k == 0 then a else Down(a / 2, k - 1)
  }

  /** a % 2^k */
  function Low(a: nat, k: nat): nat
  {
    if k == 0 then 0 else a % 2 + 2 * Low(a / 2, k - 1)
  }

  function Pow2(k: nat): nat
  {
    Up(1, k)
  }

  lemma UpStep(a: nat, k: nat)
    requires k > 0
    ensures Up(a, k) == 2 * Up(a, k - 1)
  {
  }

  lemma UpSmall(a: nat)
    ensures Up(a, 0) == a && Up(a, 1) == 2 * a && Up(a, 2) == 4 * a && Up(a, 3) == 8 * a && Up(a, 4) == 16 * a
    ensures Up(a, 5) == 32 * a && Up(a, 6) == 64 * a && Up(a, 7) == 128 * a && Up(a, 8) == 256 * a
  {
    UpNone(a);
    hide Up;
    UpStep(a, 1);
    UpStep(a, 2);
    UpStep(a, 3);
    UpStep(a, 4);
    UpStep(a, 5);
    UpStep(a, 6);
    UpStep(a, 7);
    UpStep(a, 8);
  }

  lemma UpNone(a: nat)
    ensures Up(a, 0) == a
  {
  }

  lemma UpBytes(a: nat)
    ensures Up(a, 8) == 0x100 * a && Up(a, 16) == 0x1_0000 * a
    ensures Up(a, 24) == 0x100_0000 * a && Up(a, 32) == WORD * a
  {
    hide Up;
    UpSmall(a);
    UpSmall(0x100 * a);
    UpSmall(0x1_0000 * a);
    UpSmall(0x100_0000 * a);
    UpUp(a, 8, 8);
    UpUp(a, 16, 8);
    UpUp(a, 24, 8);
  }

  lemma Pow2Values()
    ensures Pow2(0) == 1 && Pow2(1) == 2 && Pow2(5) == 32 && Pow2(6) == 64
    ensures Pow2(8) == 256 && Pow2(15) == 0x8000 && Pow2(16) == 0x1_0000 && Pow2(32) == WORD
  {
    hide Up;
    UpSmall(1);
    UpBytes(1);
    UpSmall(256);
    UpUp(1, 8, 7);
  }

  // ----- laws of the shifts -----

  lemma {:induction false} UpUp(a: nat, j: nat, k: nat)
    ensures Up(Up(a, j), k) == Up(a, j + k)
  {
    if k > 0 {
      UpUp(a, j, k - 1);
    }
  }

  lemma {:induction false} UpAdd(a: nat, b: nat, k: nat)
    ensures Up(a + b, k) == Up(a, k) + Up(b, k)
  {
    if k > 0 {
      UpAdd(a, b, k - 1);
    }
  }

  lemma {:induction false} UpMono(a: nat, b: nat, k: nat)
    ensures a <= b <==> Up(a, k) <= Up(b, k)
    ensures Up(0, k) == 0
  {
    if k > 0 {
      UpMono(a, b, k - 1);
    }
  }

  lemma {:induction false} UpDouble(a: nat, k: nat)
    requires k > 0
    ensures Up(2 * a, k - 1) == Up(a, k)
  {
    if k > 1 {
      UpDouble(a, k - 1);
    }
  }

  /** Every number is its high part shifted up plus its low part. */
  lemma {:induction false} Split(a: nat, k: nat)
    ensures a == Up(Down(a, k), k) + Low(a, k)
    ensures Low(a, k) < Pow2(k)
    decreases k
  {
    if k > 0 {
      Split(a / 2, k - 1);
    }
  }

  /** ... and that is the only way to write it so. */
  lemma {:induction false} SplitUnique(a: nat, r: nat, k: nat)
    requires r < Pow2(k)
    ensures Down(Up(a, k) + r, k) == a && Low(Up(a, k) + r, k) == r
    decreases k
  {
    if k > 0 {
      SplitUnique(a, r / 2, k - 1);
      assert (Up(a, k) + r) / 2 == Up(a, k - 1) + r / 2;
    }
  }

  lemma DownUp(a: nat, k: nat)
    ensures Down(Up(a, k), k) == a && Low(Up(a, k), k) == 0
  {
    UpMono(0, 0, k);
    SplitUnique(a, 0, k);
  }

  lemma {:induction false} DownDown(a: nat, j: nat, k: nat)
    ensures Down(Down(a, j), k) == Down(a, j + k)
    decreases j
  {
    if j > 0 {
      DownDown(a / 2, j - 1, k);
    }
  }

  /** The high part is below b exactly when the number is below b shifted up. */
  lemma DownBound(a: nat, b: nat, k: nat)
    ensures Down(a, k) < b <==> a < Up(b, k)
    ensures Down(a, k) >= b <==> a >= Up(b, k)
  {
    Split(a, k);
    UpMono(b, Down(a, k), k);
    UpMono(Down(a, k) + 1, b, k);
    UpAdd(Down(a, k), 1, k);
  }

  lemma LowSmall(a: nat, k: nat)
    requires a < Pow2(k)
    ensures Low(a, k) == a && Down(a, k) == 0
  {
    UpMono(0, 0, k);
    SplitUnique(0, a, k);
  }

  // ----- bitwise operators -----

  function BitAnd(a: nat, b: nat): nat
  {
    if a == 0 || b == 0 then 0
    else (if a % 2 == 1 && b % 2 == 1 then 1 else 0) + 2 * BitAnd(a / 2, b / 2)
  }

  function BitOr(a: nat, b: nat): nat
    decreases a + b
  {
    if a == 0 then b else if b == 0 then a
    else (if a % 2 == 1 || b % 2 == 1 then 1 else 0) + 2 * BitOr(a / 2, b / 2)
  }

  /** Or-ing into zero bits is adding. */
  lemma {:induction false} BitOrIsAdd(a: nat, b: nat, k: nat)
    requires Low(a, k) == 0 && b < Pow2(k)
    ensures BitOr(a, b) == a + b
    decreases k
  {
    if k > 0 && a != 0 && b != 0 {
      BitOrIsAdd(a / 2, b / 2, k - 1);
    }
  }

  /** And-ing with n ones keeps the low n bits. */
  lemma {:induction false} BitAndLow(a: nat, n: nat)
    ensures BitAnd(a, Pow2(n) - 1) == Low(a, n)
    decreases n
  {
    if n > 0 {
      assert (Pow2(n) - 1) % 2 == 1 && (Pow2(n) - 1) / 2 == Pow2(n - 1) - 1;
      BitAndLow(a / 2, n - 1);
      if a == 0 {
        assert Low(0, n) == 2 * Low(0, n - 1);
      }
    }
  }

  lemma {:induction false} BitAndShifted(a: nat, m: nat, k: nat)
    ensures BitAnd(a, Up(m, k)) == Up(BitAnd(Down(a, k), m), k)
    decreases k
  {
    if k > 0 {
      BitAndShifted(a / 2, m, k - 1);
      if a == 0 || Up(m, k) == 0 {
        assert BitAnd(a / 2, Up(m, k - 1)) == 0;
      }
    }
  }

  /** Ones in the top `len` bits of a 32-bit word. */
  function TopMask(len: nat): nat
    requires len <= 32
  {
    Up(Pow2(len) - 1, 32 - len)
  }

  lemma TopMaskIsWord(len: nat)
    requires len <= 32
    ensures TopMask(len) < WORD
  {
    UpMono(Pow2(len), Pow2(len) - 1, 32 - len);
    UpUp(1, len, 32 - len);
    Pow2Values();
  }

  lemma TopIsSmall(w: Word, len: nat)
    requires len <= 32
    ensures Down(w, 32 - len) < Pow2(len)
  {
    UpUp(1, len, 32 - len);
    Pow2Values();
    DownBound(w, Pow2(len), 32 - len);
  }

  /** And-ing with a top mask clears everything below. */
  lemma BitAndTop(w: Word, len: nat)
    requires len <= 32
    ensures BitAnd(w, TopMask(len)) == Up(Down(w, 32 - len), 32 - len)
  {
    TopIsSmall(w, len);
    BitAndShifted(w, Pow2(len) - 1, 32 - len);
    BitAndLow(Down(w, 32 - len), len);
    LowSmall(Down(w, 32 - len), len);
  }

  /** C's `w << n` on a 32-bit word. */
  function Shl(w: nat, n: nat): nat
  {
    Low(Up(w, n), 32)
  }

  lemma ShlIsWord(w: nat, n: nat)
    ensures Shl(w, n) < WORD
  {
    Split(Up(w, n), 32);
    Pow2Values();
  }

  /** C's `w >> n` on a signed 32-bit int: copies of the sign bit come in from the left. */
  function Sar(w: Word, n: nat): nat
    requires n <= 32
  {
    if w >= 0x8000_0000 then TopMask(n) + Down(w, n) else Down(w, n)
  }

  /** The copies of the sign bit are masked away: shifting a word right until `n` bits are left
      and keeping the low `n` gives its top `n` bits. */
  lemma TopBits(w: Word, n: nat)
    requires n <= 32
    ensures BitAnd(Sar(w, 32 - n), Pow2(n) - 1) == Down(w, 32 - n) < Pow2(n)
  {
    TopIsSmall(w, n);
    BitAndLow(Sar(w, 32 - n), n);
    LowSmall(Down(w, 32 - n), n);
    SplitUnique(Pow2(32 - n) - 1, Down(w, 32 - n), n);
  }

  // ----- bit strings -----

  /** The low `n` binary digits of `v`, most significant first. */
  function Bits(v: nat, n: nat): (s: seq<bool>)
    ensures |s| == n
  {
    if n == 0 then [] else Bits(v / 2, n - 1) + [v % 2 == 1]
  }

  /** The number a bit string denotes. */
  function Value(s: seq<bool>): (v: nat)
    ensures v < Pow2(|s|)
  {
    if s == [] then 0 else 2 * Value(s[..|s| - 1]) + (if s[|s| - 1] then 1 else 0)
  }

  lemma {:induction false} ValueOfBits(v: nat, n: nat)
    requires v < Pow2(n)
    ensures Value(Bits(v, n)) == v
  {
    if n > 0 {
      ValueOfBits(v / 2, n - 1);
      assert Bits(v, n)[..n - 1] == Bits(v / 2, n - 1);
    }
  }

  /** Writing two numbers side by side. */
  lemma {:induction false} BitsConcat(v: nat, n: nat, w: nat, k: nat)
    requires w < Pow2(k)
    ensures Bits(Up(v, k) + w, n + k) == Bits(v, n) + Bits(w, k)
    decreases k
  {
    if k == 0 {
      assert Bits(v, n) + [] == Bits(v, n);
    } else {
      var x := Up(v, k) + w;
      BitsConcat(v, n, w / 2, k - 1);
      assert x / 2 == Up(v, k - 1) + w / 2 && x % 2 == w % 2;
      assert Bits(v, n) + Bits(w / 2, k - 1) + [w % 2 == 1] == Bits(v, n) + Bits(w, k);
    }
  }

  /** The first k of n digits are the digits of the high part, the others those of the low part. */
  lemma BitsSplit(v: nat, n: nat, k: nat)
    requires k <= n
    ensures Bits(v, n)[..k] == Bits(Down(v, n - k), k)
    ensures Bits(v, n)[k..] == Bits(Low(v, n - k), n - k)
  {
    Split(v, n - k);
    BitsConcat(Down(v, n - k), k, Low(v, n - k), n - k);
  }
}
