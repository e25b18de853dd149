/** hex_char_to_int and unescape (httpd.c): percent-decoding in place (section 2.1 of RFC 3986). */
module Unescape {
  import opened Words

  const PERCENT: Byte := 37

  function Hex(c: Byte): (v: int)
    ensures -1 <= v < 16
  {
    if 48 <= c <= 57 then c - 48
    else if 97 <= c <= 102 then c - 97 + 10
    else if 65 <= c <= 70 then c - 65 + 10
    else -1
  }

  /** The values of the 22 digits, and of nothing else. */
  lemma HexIs(c: Byte)
    ensures forall k :: 0 <= k < 16 && c == "0123456789abcdef"[k] as int ==> Hex(c) == k
    ensures forall k :: 0 <= k < 6 && c == "ABCDEF"[k] as int ==> Hex(c) == 10 + k
    ensures var v := Hex(c);
            v >= 0 ==> c == "0123456789abcdef"[v] as int || (v >= 10 && c == "ABCDEF"[v - 10] as int)
  {
  }

  /** `Malformed` tells what was decoded before the first bad percent sign, and where that stands. */
  datatype Outcome = Decoded(out: seq<Byte>) | Malformed(done: seq<Byte>, at: nat)

  /** What has been done before, and then what the rest gives. */
  function After(out: seq<Byte>, used: nat, rest: Outcome): Outcome
  {
    match rest
    case Decoded(o) => Decoded(out + o)
    case Malformed(done, at) => Malformed(out + done, used + at)
  }

  predicate Escape(s: seq<Byte>, k: nat)
    requires k < |s|
  {
    k + 2 < |s| && Hex(s[k + 1]) != -1 && Hex(s[k + 2]) != -1
  }

  function Decode(s: seq<Byte>): Outcome
  {
    if s == [] then Decoded([])
    else if s[0] != PERCENT then After([s[0]], 1, Decode(s[1..]))
    else if !Escape(s, 0) then Malformed([], 0)
    else After([Hex(s[1]) * 16 + Hex(s[2])], 3, Decode(s[3..]))
  }

  /** Every percent sign is followed by two hexadecimal digits. */
  ghost predicate WellFormed(s: seq<Byte>)
  {
    forall k | 0 <= k < |s| && s[k] == PERCENT :: Escape(s, k)
  }

  // ----- success and failure -----

  lemma WellFormedTail(s: seq<Byte>, k: nat)
    requires k <= |s|
    requires forall j | 0 <= j < k :: s[j] == PERCENT ==> Escape(s, j)
    ensures WellFormed(s) <==> WellFormed(s[k..])
  {
    forall j | k <= j < |s| && s[j] == PERCENT
      ensures Escape(s, j) <==> Escape(s[k..], j - k)
    {
    }
    if WellFormed(s[k..]) {
      forall j | 0 <= j < |s| && s[j] == PERCENT
        ensures Escape(s, j)
      {
        assert j >= k ==> s[k..][j - k] == PERCENT;
      }
    }
  }

  /** Decoding succeeds exactly when every percent sign, wherever it stands, is followed by two digits. */
  lemma {:induction false} DecodedIffWellFormed(s: seq<Byte>)
    ensures Decode(s).Decoded? <==> WellFormed(s)
  {
    if s != [] {
      if s[0] != PERCENT {
        DecodedIffWellFormed(s[1..]);
        WellFormedTail(s, 1);
      } else if Escape(s, 0) {
        DecodedIffWellFormed(s[3..]);
        WellFormedTail(s, 3);
      }
    }
  }

  /** A failure is reported at the first bad percent sign, everything before it decoded. */
  lemma {:induction false} MalformedAt(s: seq<Byte>)
    requires Decode(s).Malformed?
    ensures var k := Decode(s).at;
            k < |s| && s[k] == PERCENT && !Escape(s, k) && Decode(s[..k]) == Decoded(Decode(s).done)
  {
    if s[0] == PERCENT && !Escape(s, 0) {
    } else {
      var u := if s[0] == PERCENT then 3 else 1;
      MalformedAt(s[u..]);
      var k := Decode(s).at;
      assert s[..k][u..] == s[u..][..k - u];
      assert s[..k][0] == s[0] && (u == 3 ==> s[..k][1] == s[1] && s[..k][2] == s[2]);
    }
  }

  lemma {:induction false} DecodedLength(s: seq<Byte>)
    ensures Decode(s).Decoded? ==> |Decode(s).out| <= |s|
    ensures Decode(s).Malformed? ==> |Decode(s).done| <= Decode(s).at < |s|
  {
    if s != [] {
      if s[0] != PERCENT {
        DecodedLength(s[1..]);
      } else if Escape(s, 0) {
        DecodedLength(s[3..]);
      }
    }
  }

  // ----- the encoders it inverts -----

  /** e is b with any of its bytes, but every percent sign, written as percent and two digits of either
      case. */
  predicate Encodes(e: seq<Byte>, b: seq<Byte>)
    decreases |b|
  {
    if b == [] then e == []
    else if e != [] && e[0] != PERCENT then e[0] == b[0] && Encodes(e[1..], b[1..])
    else |e| >= 3 && Hex(e[1]) != -1 && Hex(e[2]) != -1 && Hex(e[1]) * 16 + Hex(e[2]) == b[0] && Encodes(e[3..], b[1..])
  }

  lemma Cons(x: Byte, o: seq<Byte>, b: seq<Byte>)
    ensures [x] + o == b <==> b != [] && x == b[0] && o == b[1..]
  {
  }

  /** Decoding gives b exactly on the percent-encodings of b. */
  lemma {:induction false} DecodesExactlyEncodings(e: seq<Byte>, b: seq<Byte>)
    ensures Decode(e) == Decoded(b) <==> Encodes(e, b)
    decreases |e|
  {
    if e == [] {
    } else if e[0] != PERCENT {
      if b != [] {
        DecodesExactlyEncodings(e[1..], b[1..]);
      }
      if Decode(e[1..]).Decoded? {
        Cons(e[0], Decode(e[1..]).out, b);
      }
    } else if Escape(e, 0) {
      if b != [] {
        DecodesExactlyEncodings(e[3..], b[1..]);
      }
      if Decode(e[3..]).Decoded? {
        Cons(Hex(e[1]) * 16 + Hex(e[2]), Decode(e[3..]).out, b);
      }
    }
  }

  function HexDigit(v: int): (c: Byte)
    requires 0 <= v < 16
    ensures Hex(c) == v
  {
    if v < 10 then 48 + v else 65 + v - 10
  }

  /** The encoder that leaves the bytes of `plain` as they are. */
  function Encode(b: seq<Byte>, plain: set<Byte>): seq<Byte>
  {
    if b == [] then []
    else (if b[0] in plain then [b[0]] else [PERCENT, HexDigit(b[0] / 16), HexDigit(b[0] % 16)]) + Encode(b[1..], plain)
  }

  lemma {:induction false} DecodeInvertsEncode(b: seq<Byte>, plain: set<Byte>)
    requires PERCENT !in plain
    ensures Decode(Encode(b, plain)) == Decoded(b)
  {
    if b != [] {
      DecodeInvertsEncode(b[1..], plain);
      var e := Encode(b, plain);
      if b[0] in plain {
        assert e[1..] == Encode(b[1..], plain);
      } else {
        assert e[3..] == Encode(b[1..], plain);
      }
    }
  }

  // ----- the program -----

  lemma AfterAfter(out: seq<Byte>, used: nat, more: seq<Byte>, n: nat, rest: Outcome)
    ensures After(out, used, After(more, n, rest)) == After(out + more, used + n, rest)
  {
    match rest
    case Decoded(o) => assert out + (more + o) == (out + more) + o;
    case Malformed(d, _) => assert out + (more + d) == (out + more) + d;
  }

  lemma Plain(s: seq<Byte>, src: nat, out: seq<Byte>)
    requires src < |s| && s[src] != PERCENT
    ensures After(out, src, Decode(s[src..])) == After(out + [s[src]], src + 1, Decode(s[src + 1..]))
  {
    hide After, Hex;
    assert s[src..][1..] == s[src + 1..];
    AfterAfter(out, src, [s[src]], 1, Decode(s[src + 1..]));
  }

  lemma Escaped(s: seq<Byte>, src: nat, out: seq<Byte>)
    requires src < |s| && s[src] == PERCENT && Escape(s, src)
    ensures After(out, src, Decode(s[src..]))
         == After(out + [Hex(s[src + 1]) * 16 + Hex(s[src + 2])], src + 3, Decode(s[src + 3..]))
  {
    hide After, Hex;
    var t := s[src..];
    assert Escape(t, 0) && t[3..] == s[src + 3..];
    AfterAfter(out, src, [Hex(t[1]) * 16 + Hex(t[2])], 3, Decode(t[3..]));
  }

  lemma Bad(s: seq<Byte>, src: nat, out: seq<Byte>)
    requires src < |s| && s[src] == PERCENT && !Escape(s, src)
    ensures After(out, src, Decode(s[src..])) == Malformed(out, src)
  {
    hide Hex;
    assert !Escape(s[src..], 0);
  }

  /** One escape: reads no further than the terminating zero byte, and writes only `dst`. */
  method Replace(data: array<Byte>, dst: nat, src: nat, length: nat) returns (ok: bool)
    requires dst <= src < length < data.Length && data[length] == 0 && data[src] == PERCENT
    modifies data
    ensures ok == (src + 2 < length && Hex(old(data[src + 1])) != -1 && Hex(old(data[src + 2])) != -1)
    ensures forall k :: 0 <= k < data.Length && k != dst ==> data[k] == old(data[k])
    ensures ok ==> data[..dst + 1] == old(data[..dst]) + [Hex(old(data[src + 1])) * 16 + Hex(old(data[src + 2]))]
  {
    hide Hex;
    if src + 2 > length {
      return false;
    }
    ZeroIsNoDigit();
    var high := Hex(data[src + 1]);
    if high == -1 {
      return false;
    }
    data[dst] := high * 16;
    var low := Hex(data[src + 2]);
    if low == -1 {
      return false;
    }
    data[dst] := data[dst] + low;
    return true;
  }

  /** `length` is strlen's result.  `src` reads, `dst` writes, dst never passes src, and nothing behind the
      terminating zero byte is read. */
  method UnescapeInPlace(data: array<Byte>, length: nat) returns (rc: int)
    requires length < data.Length && data[length] == 0 && forall k :: 0 <= k < length ==> data[k] != 0
    modifies data
    ensures rc == if WellFormed(old(data[..length])) then 0 else -1
    ensures match Decode(old(data[..length]))
            case Decoded(out) => |out| <= length && data[..] == out + [0] + old(data[|out| + 1..])
            case Malformed(done, at) =>
              |done| <= at < length && data[..|done|] == done && data[at + 1..] == old(data[at + 1..])
  {
    hide Decode, After, WellFormed, Hex;
    ghost var s, was := data[..length], data[..];
    DecodedIffWellFormed(s);
    DecodedLength(s);
    var dst, src := 0, 0;
    assert s[0..] == s;
    AfterNothing(Decode(s));
    ghost var out: seq<Byte> := [];
    while src < length
      invariant 0 <= dst <= src <= length
      invariant forall k :: dst <= k < data.Length ==> data[k] == was[k]
      invariant data[..dst] == out && Decode(s) == After(out, src, Decode(s[src..]))
    {
      assert data[src] == s[src];
      if s[src] != PERCENT {
        Plain(s, src, out);
      } else if Escape(s, src) {
        Escaped(s, src, out);
      } else {
        Bad(s, src, out);
      }
      if data[src] != PERCENT {
        data[dst] := data[src];
        assert data[..dst + 1] == out + [s[src]];
        out := out + [s[src]];
        dst, src := dst + 1, src + 1;
        continue;
      }
      assert src + 1 < |s| ==> was[src + 1] == s[src + 1];
      assert src + 2 < |s| ==> was[src + 2] == s[src + 2];
      var ok := Replace(data, dst, src, length);
      if !ok {
        assert Decode(s) == Malformed(out, src);
        assert data[..dst] == out && data[src + 1..] == was[src + 1..];
        return -1;
      }
      out := data[..dst + 1];
      dst, src := dst + 1, src + 3;
    }
    assert s[length..] == [];
    Done(out, length);
    data[dst] := 0;
    assert data[..] == out + [0] + was[dst + 1..];
    return 0;
  }

  lemma AfterNothing(o: Outcome)
    ensures After([], 0, o) == o
  {
  }

  lemma ZeroIsNoDigit()
    ensures Hex(0) == -1
  {
  }

  lemma Done(out: seq<Byte>, used: nat)
    ensures After(out, used, Decode([])) == Decoded(out)
  {
  }
}
