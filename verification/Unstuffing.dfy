/** The bytes of an entropy-coded scan.  ITU-T T.81 (F.1.2.3) sends a zero byte after every FF;
    `Unstuff` is what the two refill loops of the decoder make of the bytes they fetch. */
module Unstuffing {
  import opened Words

  /** The encoder's side: a zero byte after every FF. */
  function Stuff(b: seq<Byte>): seq<Byte>
  {
    if b == [] then [] else (if b[0] == 255 then [255, 0] else [b[0]]) + Stuff(b[1..])
  }

  /** The decoder's side.  The byte that follows FF, or FF 00, is taken as it is, without looking
      whether it is itself FF. */
  function Unstuff(s: seq<Byte>): seq<Byte>
  {
    if s == [] then []
    else if s[0] != 255 then [s[0]] + Unstuff(s[1..])
    else if |s| == 1 then [255]
    else if s[1] != 0 then [255, s[1]] + Unstuff(s[2..])
    else if |s| == 2 then [255]
    else [255, s[2]] + Unstuff(s[3..])
  }

  /** Starting a scan takes two bytes without unstuffing them. */
  function ScanBytes(s: seq<Byte>): seq<Byte>
    requires |s| >= 2
  {
    s[..2] + Unstuff(s[2..])
  }

  ghost predicate NoDoubleFF(b: seq<Byte>)
  {
    forall i :: 0 <= i < |b| - 1 ==> !(b[i] == 255 && b[i + 1] == 255)
  }

  /** What follows the data `b` in the decoder's eyes: after a final FF 00 one byte of the tail is
      taken as it is. */
  function Trailing(b: seq<Byte>, tail: seq<Byte>): seq<Byte>
  {
    if b != [] && b[|b| - 1] == 255 && tail != [] then [tail[0]] + Unstuff(tail[1..]) else Unstuff(tail)
  }

  lemma TrailingOfSuffix(b: seq<Byte>, k: nat, tail: seq<Byte>)
    requires k < |b| || (k == |b| > 0 && b[k - 1] != 255)
    ensures Trailing(b[k..], tail) == Trailing(b, tail)
  {
    hide Unstuff;
  }

  lemma TrailingOfNothing(tail: seq<Byte>)
    ensures Trailing([], tail) == Unstuff(tail)
  {
  }

  /** One step of `Unstuff` over FF 00 x. */
  lemma UnstuffStep(x: Byte, s: seq<Byte>)
    ensures Unstuff([255, 0, x] + s) == [255, x] + Unstuff(s)
    ensures x != 255 ==> Unstuff([x] + s) == [x] + Unstuff(s)
  {
    assert ([255, 0, x] + s)[3..] == s;
    assert ([x] + s)[1..] == s;
  }

  /** A pair FF x, x not FF, in front. */
  lemma UnstuffPair(x: Byte, b: seq<Byte>, tail: seq<Byte>)
    requires x != 255
    ensures Unstuff(Stuff([255, x] + b) + tail) == [255, x] + Unstuff(Stuff(b) + tail)
  {
    assert ([255, x] + b)[1..] == [x] + b && ([x] + b)[1..] == b;
    assert Stuff([255, x] + b) == [255, 0, x] + Stuff(b);
    hide *;
    assert [255, 0, x] + Stuff(b) + tail == [255, 0, x] + (Stuff(b) + tail);
    UnstuffStep(x, Stuff(b) + tail);
  }

  lemma StuffStep(b: seq<Byte>)
    requires b != []
    ensures b[0] == 255 ==> Stuff(b) == [255, 0] + Stuff(b[1..])
    ensures b[0] != 255 ==> Stuff(b) == [b[0]] + Stuff(b[1..])
  {
  }

  lemma UnstuffZero(s: seq<Byte>)
    ensures Unstuff([0] + s) == [0] + Unstuff(s)
  {
    assert ([0] + s)[1..] == s;
  }

  lemma LastStuffed()
    ensures Stuff([]) == [] && Stuff([255]) == [255, 0] && Unstuff([255, 0]) == [255]
  {
    StuffStep([255]);
  }

  lemma UnstuffLast(tail: seq<Byte>)
    ensures Unstuff(Stuff([255]) + tail) == [255] + Trailing([255], tail)
  {
    hide Stuff, Unstuff;
    LastStuffed();
    if tail == [] {
      assert Stuff([255]) + tail == [255, 0];
      TrailingOfNothing(tail);
      EmptyTail();
    } else {
      assert [255, 0] + tail == [255, 0, tail[0]] + tail[1..];
      UnstuffStep(tail[0], tail[1..]);
    }
  }

  lemma EmptyTail()
    ensures Unstuff([]) == []
  {
  }

  lemma StuffedNothing()
    ensures Stuff([]) == []
  {
  }

  lemma {:induction false} UnstuffStuffed(b: seq<Byte>, tail: seq<Byte>)
    requires NoDoubleFF(b)
    ensures Unstuff(Stuff(b) + tail) == b + Trailing(b, tail)
    decreases |b|
  {
    StuffedNothing();
    hide Stuff, Unstuff, Trailing;
    if b == [] {
      assert Stuff(b) + tail == tail && b + Unstuff(tail) == Unstuff(tail);
      assert Trailing(b, tail) == Unstuff(tail) by { TrailingOfNothing(tail); }
    } else if b[0] != 255 {
      UnstuffStuffed(b[1..], tail);
      TrailingOfSuffix(b, 1, tail);
      StuffStep(b);
      assert Stuff(b) + tail == [b[0]] + (Stuff(b[1..]) + tail);
      UnstuffStep(b[0], Stuff(b[1..]) + tail);
      assert b == [b[0]] + b[1..];
    } else if |b| == 1 {
      assert b == [255];
      UnstuffLast(tail);
    } else {
      UnstuffStuffed(b[2..], tail);
      TrailingOfSuffix(b, 2, tail);
      UnstuffPair(b[1], b[2..], tail);
      assert b == [255, b[1]] + b[2..];
    }
  }

  /** Unstuffing never loses a byte; two adjacent FF bytes make it invent one. */
  lemma {:induction false} UnstuffLength(b: seq<Byte>)
    ensures |Unstuff(Stuff(b))| >= |b|
    ensures !NoDoubleFF(b) ==> |Unstuff(Stuff(b))| > |b|
    decreases |b|
  {
    hide Stuff, Unstuff;
    if b == [] {
    } else if b[0] != 255 {
      UnstuffLength(b[1..]);
      StuffStep(b);
      UnstuffStep(b[0], Stuff(b[1..]));
      assert NoDoubleFF(b[1..]) ==> NoDoubleFF(b) by {
        assert forall i :: 1 <= i < |b| ==> b[i] == b[1..][i - 1];
      }
    } else if |b| == 1 {
      LastStuffed();
      assert b == [255];
    } else {
      UnstuffLength(b[2..]);
      StuffStep(b);
      StuffStep(b[1..]);
      var s := Stuff(b[2..]);
      assert b[1..][1..] == b[2..];
      if b[1] == 255 {
        assert [255, 0] + ([255, 0] + s) == [255, 0, 255] + ([0] + s);
        UnstuffStep(255, [0] + s);
        UnstuffZero(s);
      } else {
        assert [255, 0] + ([b[1]] + s) == [255, 0, b[1]] + s;
        UnstuffStep(b[1], s);
        assert NoDoubleFF(b[2..]) ==> NoDoubleFF(b) by {
          assert forall i :: 2 <= i < |b| ==> b[i] == b[2..][i - 2];
        }
      }
    }
  }

  /** The refill loops undo the stuffing of the standard exactly when no FF follows an FF. */
  lemma UnstuffInverseIff(b: seq<Byte>)
    ensures Unstuff(Stuff(b)) == b <==> NoDoubleFF(b)
  {
    UnstuffLength(b);
    if NoDoubleFF(b) {
      UnstuffStuffed(b, []);
      assert Stuff(b) + [] == Stuff(b);
    }
  }

  /** A whole scan is read as sent exactly when, besides, neither of its first two bytes is FF. */
  lemma ScanInverseIff(b: seq<Byte>)
    requires |b| >= 2
    ensures |Stuff(b)| >= 2
    ensures ScanBytes(Stuff(b)) == b <==> b[0] != 255 && b[1] != 255 && NoDoubleFF(b[2..])
  {
    hide Unstuff, Stuff;
    var b1, b2 := b[1..], b[2..];
    StuffedPair(b);
    if b[0] == 255 {
      UnstuffLength(b1);
    } else if b[1] == 255 {
      UnstuffLength(b2);
      UnstuffZero(Stuff(b2));
      assert Stuff(b)[2..] == [0] + Stuff(b2);
    } else {
      UnstuffInverseIff(b2);
      assert Stuff(b)[2..] == Stuff(b2) && Stuff(b)[..2] == b[..2];
      assert b == b[..2] + b2;
    }
  }

  /** How the first two bytes are stuffed. */
  lemma StuffedPair(b: seq<Byte>)
    requires |b| >= 2
    ensures |Stuff(b)| >= 2
    ensures b[0] == 255 ==> Stuff(b)[2..] == Stuff(b[1..]) && Stuff(b)[1] == 0
    ensures b[0] != 255 && b[1] == 255 ==> Stuff(b) == [b[0], 255] + ([0] + Stuff(b[2..]))
    ensures b[0] != 255 && b[1] != 255 ==> Stuff(b) == [b[0], b[1]] + Stuff(b[2..])
  {
    hide Stuff;
    var rest, s := b[1..], Stuff(b[2..]);
    assert rest[1..] == b[2..] && rest[0] == b[1];
    StuffStep(b);
    StuffStep(rest);
    if b[0] == 255 {
      Front255(Stuff(rest));
    } else if b[1] == 255 {
      GlueZero(b[0], s);
    } else {
      Glue(b[0], b[1], s);
    }
  }

  lemma Front255(s: seq<Byte>)
    ensures ([255, 0] + s)[2..] == s && ([255, 0] + s)[1] == 0 && |[255, 0] + s| >= 2
  {
  }

  lemma Glue(x: Byte, y: Byte, s: seq<Byte>)
    ensures [x] + ([y] + s) == [x, y] + s
  {
  }

  lemma GlueZero(x: Byte, s: seq<Byte>)
    ensures [x] + ([255, 0] + s) == [x, 255] + ([0] + s)
  {
  }

  /** The data is read as sent whatever bytes follow it. */
  lemma ScanOfStuffed(b: seq<Byte>, tail: seq<Byte>)
    requires |b| >= 2 && b[0] != 255 && b[1] != 255 && NoDoubleFF(b[2..])
    ensures |Stuff(b)| >= 2
    ensures ScanBytes(Stuff(b) + tail) == b + Trailing(b[2..], tail)
  {
    hide *;
    var b2 := b[2..];
    StuffedPair(b);
    UnstuffStuffed(b2, tail);
    assert [b[0], b[1]] + Stuff(b2) + tail == [b[0], b[1]] + (Stuff(b2) + tail);
    ScanPair([b[0], b[1]], Stuff(b2) + tail);
    assert b == [b[0], b[1]] + b2;
  }

  lemma ScanPair(start: seq<Byte>, s: seq<Byte>)
    requires |start| == 2
    ensures ScanBytes(start + s) == start + Unstuff(s)
  {
    assert (start + s)[2..] == s;
  }

  // ----- as a bit stream -----

  function BytesBits(s: seq<Byte>): (bits: seq<bool>)
    ensures |bits| == 8 * |s|
  {
    if s == [] then [] else Bits(s[0], 8) + BytesBits(s[1..])
  }

  lemma FirstByte(x: Byte, s: seq<Byte>)
    ensures BytesBits([x] + s) == Bits(x, 8) + BytesBits(s)
  {
    hide Bits;
    assert ([x] + s)[1..] == s;
  }

  lemma NoBytes()
    ensures BytesBits([]) == []
  {
  }

  lemma {:induction false} BytesBitsConcat(a: seq<Byte>, b: seq<Byte>)
    ensures BytesBits(a + b) == BytesBits(a) + BytesBits(b)
  {
    NoBytes();
    hide BytesBits, Bits;
    if a == [] {
      assert a + b == b;
    } else {
      BytesBitsConcat(a[1..], b);
      FirstByte(a[0], a[1..]);
      FirstByte(a[0], a[1..] + b);
      assert a == [a[0]] + a[1..] && a + b == [a[0]] + (a[1..] + b);
    }
  }
}
