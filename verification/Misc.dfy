/** The helpers of the multipart extractor (misc.c): a test for CRLF by bit mask on the last bytes
    received, and a pattern matcher without fallback. */
module Misc {
  import opened Words

  function CharByte(c: char): Byte
  {
    if (c as int) < 256 then c as int else 0
  }

  function Text(s: string): (b: seq<Byte>)
    ensures |b| == |s| && forall i :: 0 <= i < |s| ==> b[i] == CharByte(s[i])
  {
    seq(|s|, i requires 0 <= i < |s| => CharByte(s[i]))
  }

  lemma TextConcat(s: string, t: string)
    ensures Text(s + t) == Text(s) + Text(t)
  {
  }

  // ----- the mask test -----

  /** is_crlf: the bits of CR LF are set in the low two bytes. */
  function IsCrlf(bytes: nat): bool
  {
    BitAnd(0x0D0A, bytes) == 0x0D0A
  }

  function IsCrlfCrlf(bytes: Word): bool
  {
    IsCrlf(bytes) && IsCrlf(Sar(bytes, 16))
  }

  /** push_byte; a `char` counts as unsigned. */
  function PushByte(bytes: Word, c: Byte): nat
  {
    BitOr(Shl(bytes, 8), c)
  }

  /** A byte that has all the bits of CR, or of LF. */
  predicate LikeCr(b: Byte)
  {
    b % 2 == 1 && b / 4 % 2 == 1 && b / 8 % 2 == 1
  }

  predicate LikeLf(b: Byte)
  {
    b / 2 % 2 == 1 && b / 8 % 2 == 1
  }

  lemma HalveMask(m: nat, w: nat)
    ensures BitAnd(2 * m, w) == 2 * BitAnd(m, w / 2)
    ensures BitAnd(2 * m + 1, w) == w % 2 + 2 * BitAnd(m, w / 2)
  {
    assert 2 * m / 2 == m && (2 * m + 1) / 2 == m;
    if w == 0 {
      assert BitAnd(m, 0) == 0;
    }
    if m == 0 {
      assert BitAnd(0, w / 2) == 0;
    }
  }

  lemma {:induction false} BitAndBytes(h: nat, l: nat, v: nat, m: nat, k: nat)
    requires l < Pow2(k) && m < Pow2(k)
    ensures BitAnd(Up(h, k) + l, Up(v, k) + m) == Up(BitAnd(h, v), k) + BitAnd(l, m)
    decreases k
  {
    hide BitAnd;
    if k == 0 {
      NoMask(l, m);
    } else {
      BitAndBytes(h, l / 2, v, m / 2, k - 1);
      var a, b := Up(h, k) + l, Up(v, k) + m;
      assert a / 2 == Up(h, k - 1) + l / 2 && b / 2 == Up(v, k - 1) + m / 2;
      AndStep(a, b);
      AndStep(l, m);
    }
  }

  lemma AndStep(a: nat, b: nat)
    ensures BitAnd(a, b) == (if a % 2 == 1 && b % 2 == 1 then 1 else 0) + 2 * BitAnd(a / 2, b / 2)
  {
    if a == 0 || b == 0 {
      NoMask(a / 2, b / 2);
    }
  }

  lemma NoMask(a: nat, b: nat)
    requires a == 0 || b == 0
    ensures BitAnd(a, b) == 0
  {
  }

  lemma ByteMasks(b: Byte)
    ensures BitAnd(10, b) == 10 <==> LikeLf(b)
    ensures BitAnd(13, b) == 13 <==> LikeCr(b)
    ensures BitAnd(10, b) <= 10
  {
    var b1 := b / 2;
    var b2 := b1 / 2;
    var b3 := b2 / 2;
    hide BitAnd;
    HalveMask(5, b);
    HalveMask(2, b1);
    HalveMask(6, b);
    HalveMask(3, b1);
    HalveMask(1, b2);
    HalveMask(0, b3);
    NoMask(0, b3 / 2);
    assert b2 == b / 4 && b3 == b / 8;
  }

  /** The mask test looks at the low two bytes. */
  lemma CrlfMask(w: nat)
    ensures IsCrlf(w) <==> LikeLf(w % 256) && LikeCr(w / 256 % 256)
  {
    hide BitAnd, LikeLf, LikeCr;
    Pow2Values();
    var v := w / 256;
    UpSmall(13);
    UpSmall(v);
    UpSmall(v / 256);
    BitAndBytes(13, 10, v, w % 256, 8);
    UpSmall(BitAnd(13, v));
    UpMono(0, 0, 8);
    BitAndBytes(0, 13, v / 256, v % 256, 8);
    NoMask(0, v / 256);
    ByteMasks(w % 256);
    ByteMasks(v % 256);
  }

  lemma {:induction false} LowStep(a: nat, j: nat, k: nat)
    requires j <= k
    ensures Low(Up(a, j), k) == Up(Low(a, k - j), j)
  {
    if j > 0 {
      LowStep(a, j - 1, k - 1);
      assert Up(a, j) / 2 == Up(a, j - 1);
    }
  }

  lemma Low24(w: nat)
    ensures Low(w, 24) == w % 0x100_0000
  {
    hide Up, Down, Low;
    var q := Down(w, 24);
    Split(w, 24);
    UpBytes(q);
    UpBytes(1);
  }

  /** Pushing shifts the top byte out. */
  lemma PushIs(w: Word, c: Byte)
    ensures PushByte(w, c) == w % 0x100_0000 * 256 + c < WORD
  {
    hide Up, Low, BitOr;
    Pow2Values();
    var x := Low(w, 24);
    Low24(w);
    LowStep(w, 8, 32);
    UpSmall(x);
    DownUp(x, 8);
    BitOrIsAdd(Up(x, 8), c, 8);
  }

  // ----- the last four bytes -----

  /** What the four-byte memory holds after a header's bytes s. */
  function LastFour(s: seq<Byte>): (w: Word)
  {
    if s == [] then 0
    else
      PushIs(LastFour(s[..|s| - 1]), s[|s| - 1]);
      PushByte(LastFour(s[..|s| - 1]), s[|s| - 1])
  }

  /** The byte k places before the end, or zero. */
  function FromEnd(s: seq<Byte>, k: nat): Byte
  {
    if k < |s| then s[|s| - 1 - k] else 0
  }

  lemma {:induction false} LastFourIs(s: seq<Byte>)
    ensures LastFour(s) == FromEnd(s, 0) + 0x100 * FromEnd(s, 1) + 0x1_0000 * FromEnd(s, 2) + 0x100_0000 * FromEnd(s, 3)
  {
    hide PushByte;
    if s != [] {
      var t := s[..|s| - 1];
      LastFourIs(t);
      PushIs(LastFour(t), s[|s| - 1]);
      assert forall k: nat :: FromEnd(t, k) == FromEnd(s, k + 1);
    }
  }

  /** The last four bytes of s pass for CRLFCRLF. */
  predicate Hit(s: seq<Byte>, n: nat)
    requires n <= |s|
  {
    n >= 4 && LikeCr(s[n - 4]) && LikeLf(s[n - 3]) && LikeCr(s[n - 2]) && LikeLf(s[n - 1])
  }

  lemma CrlfCrlfIsHit(s: seq<Byte>)
    ensures IsCrlfCrlf(LastFour(s)) <==> Hit(s, |s|)
  {
    hide LastFour, IsCrlf, LikeCr, LikeLf, Sar;
    var w := LastFour(s);
    LastFourIs(s);
    CrlfMask(w);
    Sar16(w);
    CrlfMask(Sar(w, 16));
    FourBytes(FromEnd(s, 0), FromEnd(s, 1), FromEnd(s, 2), FromEnd(s, 3));
    NotLikeZero();
  }

  lemma FourBytes(a: Byte, b: Byte, c: Byte, d: Byte)
    ensures var w := a + 0x100 * b + 0x1_0000 * c + 0x100_0000 * d;
            w % 256 == a && w / 256 % 256 == b && w / 0x1_0000 % 256 == c && w / 0x100_0000 == d
  {
    var u := c + 0x100 * d;
    var v := b + 0x100 * u;
    var w := a + 0x100 * v;
    assert w / 0x100 == v && v % 0x100 == b && u % 0x100 == c;
    assert w == 0x1_0000 * u + (0x100 * b + a);
    assert w / 0x1_0000 == u;
    assert w == 0x100_0000 * d + (0x1_0000 * c + 0x100 * b + a);
  }

  lemma NotLikeZero()
    ensures !LikeCr(0) && !LikeLf(0)
  {
  }

  /** The sign bits that come in do not reach the low two bytes. */
  lemma Sar16(w: Word)
    ensures Sar(w, 16) % 256 == w / 0x1_0000 % 256 && Sar(w, 16) / 256 % 256 == w / 0x100_0000
  {
    hide Up, Down, Low;
    var q, m := Down(w, 16), 0xffff;
    Split(w, 16);
    UpBytes(q);
    Pow2Values();
    UpBytes(m);
    SarIs(w);
    SameBytes(w, q);
  }

  lemma SarIs(w: Word)
    ensures Sar(w, 16) == if w >= 0x8000_0000 then TopMask(16) + Down(w, 16) else Down(w, 16)
    ensures TopMask(16) == Up(Pow2(16) - 1, 16)
  {
  }

  lemma SameBytes(w: Word, q: nat)
    requires 0x1_0000 * q <= w < 0x1_0000 * q + 0x1_0000
    ensures q == w / 0x1_0000 && q < 0x1_0000
    ensures q % 256 == w / 0x1_0000 % 256 && q / 256 % 256 == w / 0x100_0000
    ensures (0xffff_0000 + q) % 256 == q % 256 && (0xffff_0000 + q) / 256 % 256 == q / 256 % 256
  {
    assert q / 256 == w / 0x100_0000;
    assert (0xffff_0000 + q) / 256 == 0xff_ff00 + q / 256;
  }

  // ----- the pattern matcher -----

  /** search_pattern_compare: a byte that does not continue the match sets it back to the start, and is
      not tried there. */
  function Compare(pattern: seq<Byte>, matched: nat, c: Byte): (m: nat)
    requires matched < |pattern|
    ensures m <= |pattern|
  {
    if pattern[matched] == c then matched + 1 else 0
  }

  /** How much is matched after s, if the pattern is not completed on the way. */
  function Matched(pattern: seq<Byte>, s: seq<Byte>): (m: nat)
    requires Quiet(pattern, s)
    ensures m < |pattern|
    decreases |s|, 1
  {
    if s == [] then 0 else Compare(pattern, Matched(pattern, s[..|s| - 1]), s[|s| - 1])
  }

  /** The matcher, started on s, does not complete the pattern. */
  predicate Quiet(pattern: seq<Byte>, s: seq<Byte>)
    ensures Quiet(pattern, s) ==> pattern != []
    decreases |s|, 0
  {
    if s == [] then pattern != []
    else Quiet(pattern, s[..|s| - 1]) && Compare(pattern, Matched(pattern, s[..|s| - 1]), s[|s| - 1]) < |pattern|
  }

  /** One more matching byte. */
  lemma Extended(pattern: seq<Byte>, s: seq<Byte>, m: nat, c: Byte)
    requires m <= |s| && m < |pattern| && s[|s| - m..] == pattern[..m]
    ensures pattern[m] == c ==> (s + [c])[|s| - m..] == pattern[..m + 1]
  {
    assert (s + [c])[|s| - m..] == s[|s| - m..] + [c];
  }

  /** What is matched is what was received last. */
  lemma {:induction false} MatchedIsSuffix(pattern: seq<Byte>, s: seq<Byte>)
    requires Quiet(pattern, s)
    ensures Matched(pattern, s) <= |s|
    ensures s[|s| - Matched(pattern, s)..] == pattern[..Matched(pattern, s)]
  {
    if s != [] {
      var p, c := s[..|s| - 1], s[|s| - 1];
      MatchedIsSuffix(pattern, p);
      Extended(pattern, p, Matched(pattern, p), c);
      assert p + [c] == s;
    }
  }

  /** A completed match: the pattern is what was received last. */
  lemma HitIsOccurrence(pattern: seq<Byte>, s: seq<Byte>, c: Byte)
    requires Quiet(pattern, s) && !Quiet(pattern, s + [c])
    ensures |pattern| <= |s| + 1 && (s + [c])[|s| + 1 - |pattern|..] == pattern
  {
    hide Quiet, Matched;
    var m := Matched(pattern, s);
    MatchedSnoc(pattern, s, c);
    MatchedIsSuffix(pattern, s);
    Extended(pattern, s, m, c);
    assert m + 1 == |pattern| && pattern[..m + 1] == pattern;
  }

  lemma MatchedSnoc(pattern: seq<Byte>, s: seq<Byte>, c: Byte)
    requires Quiet(pattern, s)
    ensures Quiet(pattern, s + [c]) <==> Compare(pattern, Matched(pattern, s), c) < |pattern|
    ensures Quiet(pattern, s + [c]) ==> Matched(pattern, s + [c]) == Compare(pattern, Matched(pattern, s), c)
  {
    assert (s + [c])[..|s|] == s;
  }

  lemma {:induction false} QuietPrefix(pattern: seq<Byte>, s: seq<Byte>, k: nat)
    requires Quiet(pattern, s) && k <= |s|
    ensures Quiet(pattern, s[..k])
  {
    hide Matched, Compare;
    if k < |s| {
      QuietPrefix(pattern, s[..|s| - 1], k);
      assert s[..|s| - 1][..k] == s[..k];
    } else {
      assert s[..k] == s;
    }
  }

  /** The byte at which the matcher first completes the pattern. */
  lemma {:induction false} FirstHit(pattern: seq<Byte>, s: seq<Byte>) returns (k: nat)
    requires pattern != [] && !Quiet(pattern, s)
    ensures k < |s| && Quiet(pattern, s[..k]) && !Quiet(pattern, s[..k + 1])
  {
    if Quiet(pattern, s[..|s| - 1]) {
      k := |s| - 1;
      assert s[..k + 1] == s;
    } else {
      k := FirstHit(pattern, s[..|s| - 1]);
      assert s[..|s| - 1][..k] == s[..k] && s[..|s| - 1][..k + 1] == s[..k + 1];
    }
  }

  /** From the start of the pattern, the matcher follows it. */
  lemma {:induction false} Follows(pattern: seq<Byte>, s: seq<Byte>, k: nat)
    requires Quiet(pattern, s) && Matched(pattern, s) == 0 && k < |pattern|
    ensures Quiet(pattern, s + pattern[..k]) && Matched(pattern, s + pattern[..k]) == k
  {
    hide Quiet, Matched;
    if k == 0 {
      assert s + pattern[..0] == s;
    } else {
      Follows(pattern, s, k - 1);
      MatchedSnoc(pattern, s + pattern[..k - 1], pattern[k - 1]);
      assert s + pattern[..k - 1] + [pattern[k - 1]] == s + pattern[..k];
    }
  }

  /** An occurrence of the pattern is found, at its last byte, when nothing is matched before it. */
  lemma OccurrenceFound(pattern: seq<Byte>, s: seq<Byte>)
    requires Quiet(pattern, s) && Matched(pattern, s) == 0
    ensures Quiet(pattern, s + pattern[..|pattern| - 1]) && !Quiet(pattern, s + pattern)
  {
    hide Quiet, Matched;
    var n := |pattern| - 1;
    Follows(pattern, s, n);
    MatchedSnoc(pattern, s + pattern[..n], pattern[n]);
    assert s + pattern[..n] + [pattern[n]] == s + pattern;
  }

  /** So it is when the byte in front of it is not in the pattern. */
  lemma ForeignByteResets(pattern: seq<Byte>, s: seq<Byte>, c: Byte)
    requires Quiet(pattern, s) && c !in pattern
    ensures Quiet(pattern, s + [c]) && Matched(pattern, s + [c]) == 0
  {
    MatchedSnoc(pattern, s, c);
  }
}
