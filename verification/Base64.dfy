/** decodeBase64 (httpd.c): decoding in place, over the text itself. */
module Base64 {
  import opened Words

  const PAD: Byte := 61

  /** The value of a character of the alphabet of RFC 4648, section 4; padding counts as zero and anything
      else as -1. */
  function Code(t: Byte): (v: int)
    ensures -1 <= v < 64
  {
    if 48 <= t <= 57 then t - 48 + 52
    else if 65 <= t <= 90 then t - 65
    else if 97 <= t <= 122 then t - 97 + 26
    else if t == 43 then 62
    else if t == 47 then 63
    else if t == PAD then 0
    else -1
  }

  type Sextet = v: int | 0 <= v < 64

  /** Table 1 of RFC 4648. */
  const UPPER := "ABCDEFGHIJKLMNOPQRSTUVWXYZ"
  const LOWER := "abcdefghijklmnopqrstuvwxyz"
  const ALPHABET := UPPER + LOWER + "0123456789" + "+/"

  lemma UpperAndLower()
    ensures |UPPER| == |LOWER| == 26
    ensures forall v :: 0 <= v < 26 ==> UPPER[v] as int == 65 + v && LOWER[v] as int == 97 + v
  {
  }

  lemma TenDigits(d: string)
    requires d == "0123456789"
    ensures |d| == 10 && forall v :: 0 <= v < 10 ==> d[v] as int == 48 + v
  {
  }

  lemma AlphabetParts()
    ensures |ALPHABET| == 64
    ensures forall v :: 0 <= v < 26 ==> ALPHABET[v] as int == 65 + v
    ensures forall v :: 26 <= v < 52 ==> ALPHABET[v] as int == 97 + v - 26
    ensures forall v :: 52 <= v < 62 ==> ALPHABET[v] as int == 48 + v - 52
    ensures ALPHABET[62] == '+' && ALPHABET[63] == '/'
  {
    UpperAndLower();
    TenDigits("0123456789");
    hide UPPER, LOWER;
  }

  /** A letter, a digit, plus, slash, or the sign for padding. */
  predicate Counts(t: Byte)
  {
    var c := t as char;
    'A' <= c <= 'Z' || 'a' <= c <= 'z' || '0' <= c <= '9' || c == '+' || c == '/' || c == '='
  }

  /** These are the characters of the alphabet, and padding. */
  lemma CountsIs(t: Byte)
    ensures Counts(t) <==> t as char in ALPHABET || t as char == '='
  {
    AlphabetParts();
    hide ALPHABET;
    if Counts(t) && t != 61 {
      var v := Code(t);
      assert ALPHABET[v] == t as char;
    }
    if t as char in ALPHABET {
      var v :| 0 <= v < 64 && ALPHABET[v] == t as char;
    }
  }

  /** Every character of the alphabet has its place there as its value, padding has 0, and no other has one. */
  lemma CodeIs(t: Byte)
    ensures Code(t) == -1 <==> !Counts(t)
    ensures Code(t) != -1 && t as char != '=' ==> |ALPHABET| == 64 && t as char == ALPHABET[Code(t)]
    ensures t as char == '=' ==> Code(t) == 0
  {
    AlphabetParts();
    hide ALPHABET;
  }

  /** The values of the characters that count. */
  function Values(text: seq<Byte>): seq<Sextet>
  {
    if text == [] then []
    else if Code(text[0]) == -1 then Values(text[1..])
    else [Code(text[0])] + Values(text[1..])
  }

  function Number(vs: seq<Sextet>): nat
  {
    if vs == [] then 0 else 64 * Number(vs[..|vs| - 1]) + vs[|vs| - 1]
  }

  /** Three bytes of every four values; fewer than four left over give nothing. */
  function DecodeValues(vs: seq<Sextet>): seq<Byte>
    decreases |vs|
  {
    if |vs| < 4 then []
    else
      var n := Number(vs[..4]);
      [n / 0x1_0000 % 256, n / 0x100 % 256, n % 256] + DecodeValues(vs[4..])
  }

  function Decode(text: seq<Byte>): seq<Byte>
  {
    DecodeValues(Values(text))
  }

  // ----- the encoder of RFC 4648, section 4 -----

  function Letter(v: Sextet): Byte
  {
    if v < 26 then v + 65
    else if v < 52 then v - 26 + 97
    else if v < 62 then v - 52 + 48
    else if v == 62 then 43
    else 47
  }

  /** Three bytes as four letters. */
  function Four(x: Byte, y: Byte, z: Byte): seq<Byte>
  {
    [Letter(x / 4), Letter(x % 4 * 16 + y / 16), Letter(y % 16 * 4 + z / 64), Letter(z % 64)]
  }

  function Encode(b: seq<Byte>): seq<Byte>
    decreases |b|
  {
    if b == [] then []
    else if |b| == 1 then [Letter(b[0] / 4), Letter(b[0] % 4 * 16), PAD, PAD]
    else if |b| == 2 then [Letter(b[0] / 4), Letter(b[0] % 4 * 16 + b[1] / 16), Letter(b[1] % 16 * 4), PAD]
    else
      Four(b[0], b[1], b[2]) + Encode(b[3..])
  }

  /** The characters that count. */
  function Kept(text: seq<Byte>): seq<Byte>
  {
    if text == [] then []
    else if !Counts(text[0]) then Kept(text[1..])
    else [text[0]] + Kept(text[1..])
  }

  /** One zero byte for each padding character. */
  function Padding(n: nat): seq<Byte>
  {
    if n % 3 == 0 then [] else if n % 3 == 1 then [0, 0] else [0]
  }

  lemma {:induction false} ValuesOfKept(text: seq<Byte>)
    ensures Values(Kept(text)) == Values(text)
  {
    hide Counts, Code;
    if text != [] {
      ValuesOfKept(text[1..]);
      CodeIs(text[0]);
      if Code(text[0]) != -1 {
        assert Kept(text)[1..] == Kept(text[1..]);
      }
    }
  }

  lemma LetterCode(v: Sextet)
    ensures Code(Letter(v)) == v
  {
  }

  lemma LetterIs(v: Sextet)
    ensures |ALPHABET| == 64 && Letter(v) == ALPHABET[v] as int
  {
    AlphabetParts();
    hide ALPHABET;
  }

  lemma NumberNext(vs: seq<Sextet>, v: Sextet)
    ensures Number(vs + [v]) == 64 * Number(vs) + v
  {
    assert (vs + [v])[..|vs|] == vs;
  }

  lemma NumberOfFour(a: Sextet, b: Sextet, c: Sextet, d: Sextet)
    ensures Number([a, b, c, d]) == 0x4_0000 * a + 0x1000 * b + 0x40 * c + d
  {
    NumberOfNone();
    hide Number;
    NumberNext([], a);
    NumberNext([a], b);
    NumberNext([a, b], c);
    NumberNext([a, b, c], d);
    assert [] + [a] == [a] && [a] + [b] == [a, b] && [a, b] + [c] == [a, b, c] && [a, b, c] + [d] == [a, b, c, d];
  }

  lemma NumberOfNone()
    ensures Number([]) == 0
  {
  }

  lemma BytesOf(x: Byte, y: Byte, z: Byte, n: nat)
    requires n == 0x1_0000 * x + 0x100 * y + z
    ensures n / 0x1_0000 % 256 == x && n / 0x100 % 256 == y && n % 256 == z
  {
    assert n / 0x1_0000 == x;
    assert n / 0x100 == 0x100 * x + y;
  }

  /** Four values split three bytes and join them again. */
  lemma Quantum(x: Byte, y: Byte, z: Byte)
    ensures 0x4_0000 * (x / 4) + 0x1000 * (x % 4 * 16 + y / 16) + 0x40 * (y % 16 * 4 + z / 64) + z % 64
         == 0x1_0000 * x + 0x100 * y + z
  {
    var x1, x2, y1, y2, z1, z2 := x / 4, x % 4, y / 16, y % 16, z / 64, z % 64;
    assert x == 4 * x1 + x2 && y == 16 * y1 + y2 && z == 64 * z1 + z2;
  }

  lemma ValuesOfFour(a: Byte, b: Byte, c: Byte, d: Byte, rest: seq<Byte>)
    requires Code(a) != -1 && Code(b) != -1 && Code(c) != -1 && Code(d) != -1
    ensures Values([a, b, c, d] + rest) == [Code(a), Code(b), Code(c), Code(d)] + Values(rest)
  {
    hide Code;
    var t1, t2, t3 := [d] + rest, [c, d] + rest, [b, c, d] + rest;
    assert t1[1..] == rest && t2[1..] == t1 && t3[1..] == t2 && ([a, b, c, d] + rest)[1..] == t3;
    assert Values(t1) == [Code(d)] + Values(rest);
    assert Values(t2) == [Code(c)] + Values(t1);
    assert Values(t3) == [Code(b)] + Values(t2);
  }

  lemma DecodeFour(a: Sextet, b: Sextet, c: Sextet, d: Sextet, rest: seq<Sextet>, x: Byte, y: Byte, z: Byte)
    requires a == x / 4 && b == x % 4 * 16 + y / 16 && c == y % 16 * 4 + z / 64 && d == z % 64
    ensures DecodeValues([a, b, c, d] + rest) == [x, y, z] + DecodeValues(rest)
  {
    var vs := [a, b, c, d] + rest;
    assert vs[..4] == [a, b, c, d] && vs[4..] == rest;
    NumberOfFour(a, b, c, d);
    Quantum(x, y, z);
    BytesOf(x, y, z, Number(vs[..4]));
  }

  /** One quantum: four letters for three bytes, the last ones zero where padding stands. */
  lemma DecodeQuantum(x: Byte, y: Byte, z: Byte, a: Byte, b: Byte, c: Byte, d: Byte, rest: seq<Byte>)
    requires Code(a) == x / 4 && Code(b) == x % 4 * 16 + y / 16 && Code(c) == y % 16 * 4 + z / 64 && Code(d) == z % 64
    ensures DecodeValues(Values([a, b, c, d] + rest)) == [x, y, z] + DecodeValues(Values(rest))
  {
    hide *;
    ValuesOfFour(a, b, c, d, rest);
    DecodeFour(Code(a), Code(b), Code(c), Code(d), Values(rest), x, y, z);
  }

  lemma DecodeOne(x: Byte)
    ensures DecodeValues(Values([Letter(x / 4), Letter(x % 4 * 16), PAD, PAD])) == [x, 0, 0]
  {
    hide Code, Letter, DecodeValues, Values;
    LetterCode(x / 4);
    LetterCode(x % 4 * 16);
    PadCode();
    var s := [Letter(x / 4), Letter(x % 4 * 16), PAD, PAD];
    DecodeQuantum(x, 0, 0, s[0], s[1], PAD, PAD, []);
    assert s + [] == s;
    DecodeNothing();
  }

  lemma DecodeTwo(x: Byte, y: Byte)
    ensures DecodeValues(Values([Letter(x / 4), Letter(x % 4 * 16 + y / 16), Letter(y % 16 * 4), PAD])) == [x, y, 0]
  {
    hide Code, Letter, DecodeValues, Values;
    LetterCode(x / 4);
    LetterCode(x % 4 * 16 + y / 16);
    LetterCode(y % 16 * 4);
    PadCode();
    var s := [Letter(x / 4), Letter(x % 4 * 16 + y / 16), Letter(y % 16 * 4), PAD];
    DecodeQuantum(x, y, 0, s[0], s[1], s[2], PAD, []);
    assert s + [] == s;
    DecodeNothing();
  }

  lemma DecodeThree(x: Byte, y: Byte, z: Byte, rest: seq<Byte>)
    ensures DecodeValues(Values(Four(x, y, z) + rest)) == [x, y, z] + DecodeValues(Values(rest))
  {
    hide Code, Letter, DecodeValues, Values;
    LetterCode(x / 4);
    LetterCode(x % 4 * 16 + y / 16);
    LetterCode(y % 16 * 4 + z / 64);
    LetterCode(z % 64);
    var s := Four(x, y, z);
    DecodeQuantum(x, y, z, s[0], s[1], s[2], s[3], rest);
    assert s == [s[0], s[1], s[2], s[3]];
  }

  lemma DecodeNothing()
    ensures DecodeValues(Values([])) == []
  {
  }

  /** The first quantum of an encoding. */
  lemma EncodeFirst(b: seq<Byte>)
    ensures b == [] ==> Encode(b) == []
    ensures |b| == 1 ==> Encode(b) == [Letter(b[0] / 4), Letter(b[0] % 4 * 16), PAD, PAD]
    ensures |b| == 2 ==>
              Encode(b) == [Letter(b[0] / 4), Letter(b[0] % 4 * 16 + b[1] / 16), Letter(b[1] % 16 * 4), PAD]
    ensures |b| >= 3 ==> Encode(b) == Four(b[0], b[1], b[2]) + Encode(b[3..])
  {
    hide Letter;
  }

  lemma {:induction false} DecodeEncode(b: seq<Byte>)
    ensures DecodeValues(Values(Encode(b))) == b + Padding(|b|)
    decreases |b|
  {
    hide Letter, DecodeValues, Values, Encode, Four;
    EncodeFirst(b);
    if b == [] {
      DecodeNothing();
    } else if |b| == 1 {
      DecodeOne(b[0]);
      assert b + [0, 0] == [b[0], 0, 0];
    } else if |b| == 2 {
      DecodeTwo(b[0], b[1]);
      assert b + [0] == [b[0], b[1], 0];
    } else {
      DecodeThree(b[0], b[1], b[2], Encode(b[3..]));
      DecodeEncode(b[3..]);
      PaddingRepeats(|b|);
      assert [b[0], b[1], b[2]] + (b[3..] + Padding(|b|)) == b + Padding(|b|);
    }
  }

  lemma PaddingRepeats(n: nat)
    requires n >= 3
    ensures Padding(n) == Padding(n - 3)
  {
  }

  lemma PadCode()
    ensures Code(PAD) == 0
  {
  }

  /** Decoding inverts encoding, whatever foreign characters stand between, up to one zero byte for each
      padding character. */
  lemma DecodeInvertsEncode(b: seq<Byte>, text: seq<Byte>)
    requires Kept(text) == Encode(b)
    ensures Decode(text) == b + Padding(|b|)
  {
    ValuesOfKept(text);
    DecodeEncode(b);
  }

  // ----- the program -----

  /** `(ch << 6) | t` moves six more bits in; the stale ones above them do not matter. */
  lemma ShiftInSix(ch: Word, t: Sextet, k: nat)
    requires k + 6 <= 32
    ensures BitOr(Shl(ch, 6), t) < WORD
    ensures Low(BitOr(Shl(ch, 6), t), k + 6) == 64 * Low(ch, k) + t
  {
    hide Up, Low, BitOr, Down;
    Pow2Values();
    var x := Low(ch, 26);
    UpSmall(1);
    LowOfSum(ch, 0, 6, 26);
    DownUp(x, 6);
    BitOrIsAdd(Up(x, 6), t, 6);
    Split(ch, 26);
    UpUp(1, 26, 6);
    UpSmall(Pow2(26));
    UpSmall(x);
    LowOfSum(x, t, 6, k);
    UpSmall(Low(x, k));
    LowLow(ch, k, 26);
  }

  /** The low digits of a number whose last j digits are t. */
  lemma {:induction false} LowOfSum(x: nat, t: nat, j: nat, k: nat)
    requires t < Pow2(j)
    ensures Low(Up(x, j) + t, j + k) == Up(Low(x, k), j) + t
    decreases j
  {
    if j > 0 {
      LowOfSum(x, t / 2, j - 1, k);
      assert (Up(x, j) + t) / 2 == Up(x, j - 1) + t / 2;
    }
  }

  lemma {:induction false} LowLow(a: nat, j: nat, k: nat)
    requires j <= k
    ensures Low(Low(a, k), j) == Low(a, j)
    decreases j
  {
    if j > 0 {
      LowLow(a / 2, j - 1, k - 1);
    }
  }

  /** The three bytes the program writes are those of the low 24 bits. */
  lemma LowBytes(ch: nat)
    ensures Down(ch, 16) % 256 == Low(ch, 24) / 0x1_0000 % 256
    ensures Down(ch, 8) % 256 == Low(ch, 24) / 0x100 % 256
    ensures ch % 256 == Low(ch, 24) % 256
  {
    hide Up, Down, Low;
    Split(ch, 24);
    Split(ch, 16);
    Split(ch, 8);
    UpBytes(Down(ch, 24));
    UpBytes(Down(ch, 16));
    UpBytes(Down(ch, 8));
    UpBytes(1);
    assert ch / 0x1_0000 == Down(ch, 16) && ch / 0x100 == Down(ch, 8);
    SameBytes(ch, Down(ch, 24), Low(ch, 24));
  }

  lemma SameBytes(c: nat, h: nat, l: nat)
    requires c == 0x100_0000 * h + l
    ensures c / 0x1_0000 % 256 == l / 0x1_0000 % 256 && c / 0x100 % 256 == l / 0x100 % 256 && c % 256 == l % 256
  {
    assert c / 0x1_0000 == 0x100 * h + l / 0x1_0000;
    assert c / 0x100 == 0x1_0000 * h + l / 0x100;
  }

  lemma Skip(text: seq<Byte>, r: nat)
    requires r < |text|
    ensures Code(text[r]) == -1 ==> Values(text[r..]) == Values(text[r + 1..])
    ensures Code(text[r]) != -1 ==> Values(text[r..]) == [Code(text[r])] + Values(text[r + 1..])
  {
    assert text[r..][1..] == text[r + 1..];
  }

  lemma Flush(pend: seq<Sextet>, rest: seq<Sextet>, ch: Word)
    requires |pend| == 4 && Low(ch, 24) == Number(pend)
    ensures DecodeValues(pend + rest)
         == [Down(ch, 16) % 256, Down(ch, 8) % 256, ch % 256] + DecodeValues(rest)
    ensures Low(ch, 0) == Number([])
  {
    hide Down;
    LowBytes(ch);
    assert (pend + rest)[..4] == pend && (pend + rest)[4..] == rest;
  }

  lemma Append(pend: seq<Sextet>, v: Sextet, rest: seq<Sextet>, ch: Word)
    requires |pend| < 4 && Low(ch, 6 * |pend|) == Number(pend)
    ensures pend + ([v] + rest) == (pend + [v]) + rest
    ensures BitOr(Shl(ch, 6), v) < WORD
    ensures Low(BitOr(Shl(ch, 6), v), 6 * |pend + [v]|) == Number(pend + [v])
  {
    hide Low, Shl, BitOr;
    ShiftInSix(ch, v, 6 * |pend|);
    assert (pend + [v])[..|pend|] == pend;
  }

  /** The text up to the first zero byte is replaced by what it encodes and a zero byte; nothing behind
      that zero byte changes.  `r` reads, `d` writes, and d never passes r. */
  method DecodeBase64(data: array<Byte>, ghost n: nat)
    requires n < data.Length && data[n] == 0 && forall k :: 0 <= k < n ==> data[k] != 0
    modifies data
    ensures var out := Decode(old(data[..n]));
            |out| <= n && data[..] == out + [0] + old(data[|out| + 1..])
  {
    hide Decode, DecodeValues, Values, Number, Low, Shl, BitOr, Down, Code;
    ghost var text := data[..n];
    ghost var was := data[..];
    ghost var pend: seq<Sextet> := [];
    ghost var out: seq<Byte> := [];
    var ch: Word, i, r, d := 0, 0, 0, 0;
    Begin(text);
    while data[r] != 0
      invariant d <= d + i <= r <= n && 0 <= i < 4 && |pend| == i && |out| == d
      invariant |data[..]| == |was| && data[..d] == out && data[d..] == was[d..]
      invariant Low(ch, 6 * i) == Number(pend)
      invariant Decode(text) == out + DecodeValues(pend + Values(text[r..]))
      decreases n - r
    {
      assert data[r] == was[r] == text[r];
      ghost var rest := Values(text[r + 1..]);
      Skip(text, r);
      var t := Code(data[r]);
      r := r + 1;
      if t == -1 {
        continue;
      }
      Append(pend, t, rest, ch);
      pend := pend + [t];
      ch := BitOr(Shl(ch, 6), t);
      i := i + 1;
      if i == 4 {
        Flush(pend, rest, ch);
        ghost var three: seq<Byte> := [Down(ch, 16) % 256, Down(ch, 8) % 256, ch % 256];
        data[d], data[d + 1], data[d + 2] := Down(ch, 16) % 256, Down(ch, 8) % 256, ch % 256;
        assert data[..d + 3] == out + three;
        assert out + (three + DecodeValues(rest)) == (out + three) + DecodeValues([] + rest) by {
          assert [] + rest == rest;
        }
        out := out + three;
        d := d + 3;
        i := 0;
        pend := [];
      }
    }
    assert text[r..] == [];
    End(text, pend, out);
    data[d] := 0;
  }

  lemma Begin(text: seq<Byte>)
    ensures Decode(text) == [] + DecodeValues([] + Values(text[0..])) && Low(0, 0) == Number([])
  {
    assert text[0..] == text && [] + Values(text) == Values(text);
  }

  lemma End(text: seq<Byte>, pend: seq<Sextet>, out: seq<Byte>)
    requires |pend| < 4 && Decode(text) == out + DecodeValues(pend + Values([]))
    ensures Decode(text) == out
  {
  }
}
