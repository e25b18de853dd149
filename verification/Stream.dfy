/** The sending side of the multipart stream (send_stream in httpd.c) and the round trip through the
    extractor of `Proxy`. */
module Stream {
  import opened Words
  import opened Wrappers
  import opened Misc
  import opened PartReader
  import opened Proxy

  // ----- printed numbers -----

  function Digits(n: nat): (s: string)
    ensures |s| > 0
  {
    if n < 10 then [Digit(n)] else Digits(n / 10) + [Digit(n % 10)]
  }

  function Filler(k: int): string
  {
    if k <= 0 then "" else "0" + Filler(k - 1)
  }

  /** "%d" */
  function Decimal(n: int): string
  {
    if n < 0 then "-" + Digits(-n) else Digits(n)
  }

  /** "%06d" */
  function Decimal06(n: int): string
  {
    if n < 0 then "-" + Filler(5 - |Digits(-n)|) + Digits(-n) else Filler(6 - |Digits(n)|) + Digits(n)
  }

  /** A byte that can take no part in a mistaken line end. */
  predicate Plain(c: char)
  {
    !LikeCr(CharByte(c)) && !LikeLf(CharByte(c))
  }

  /** What matters of a printed number: it ends in a plain byte and holds nothing like LF. */
  predicate Numeral(s: string)
  {
    |s| > 0 && Plain(s[|s| - 1]) && forall i :: 0 <= i < |s| ==> !LikeLf(CharByte(s[i]))
  }

  lemma DigitPlain(d: nat)
    requires d < 10
    ensures Plain(Digit(d))
  {
    var b := 48 + d;
    assert b % 2 == 0 || b / 4 % 2 == 0 || b / 8 % 2 == 0;
  }

  lemma {:induction false} DigitsNumeral(n: nat)
    ensures Numeral(Digits(n))
  {
    hide LikeCr, LikeLf, Plain;
    DigitPlain(n % 10);
    if n >= 10 {
      DigitsNumeral(n / 10);
    }
    PlainIsNotLf(Digit(n % 10));
  }

  lemma PlainIsNotLf(c: char)
    requires Plain(c)
    ensures !LikeLf(CharByte(c))
  {
  }

  lemma {:induction false} FillerPlain(k: int)
    ensures forall i :: 0 <= i < |Filler(k)| ==> !LikeLf(CharByte(Filler(k)[i]))
  {
    if k > 0 {
      FillerPlain(k - 1);
    }
  }

  lemma DecimalNumeral(n: int)
    ensures Numeral(Decimal(n)) && Numeral(Decimal06(n))
  {
    hide LikeCr, LikeLf, Plain;
    assert !LikeLf(CharByte('-')) by { MinusIsNotLf(); }
    DigitsNumeral(if n < 0 then -n else n);
    FillerPlain(5 - |Digits(if n < 0 then -n else n)|);
    FillerPlain(6 - |Digits(if n < 0 then -n else n)|);
  }

  lemma MinusIsNotLf()
    ensures !LikeLf(CharByte('-'))
  {
  }

  // ----- what is printed -----

  const CRLF := "\r\n"
  const TYPE_LINE := "Content-Type: image/jpeg\r\n"
  const LENGTH_FIELD := "Content-Length: "
  const STAMP := "\r\nX-Timestamp: "
  const DOT := "."
  const BLANK := "\r\n\r\n"

  function Header(f: Frame): string
  {
    TYPE_LINE + LENGTH_FIELD + Decimal(|f.data|) + STAMP + Decimal(f.sec) + DOT + Decimal06(f.usec) + BLANK
  }

  /** The header of a part, with the line end behind the boundary in front. */
  function PartHead(f: Frame): seq<Byte>
  {
    Text(CRLF + Header(f))
  }

  function PartEnd(): seq<Byte>
  {
    Text(CRLF + BOUNDARY)
  }

  // ----- a header never passes for ended before it is -----

  /** Among any four neighbours of the text, behind two more characters, one is plain. */
  ghost predicate TypeLike(t: string)
  {
    && |t| == 42
    && Plain(t[0]) && Plain(t[3]) && Plain(t[6]) && Plain(t[10]) && Plain(t[14]) && Plain(t[18])
    && Plain(t[22]) && Plain(t[26]) && Plain(t[30]) && Plain(t[34]) && Plain(t[38]) && Plain(t[41])
  }

  ghost predicate StampLike(t: string)
  {
    |t| == 15 && Plain(t[2]) && Plain(t[5]) && Plain(t[8]) && Plain(t[12]) && Plain(t[14])
  }

  lemma TypeLinePlain()
    ensures var t := TYPE_LINE;
            && |t| == 26 && Plain(t[0]) && Plain(t[3]) && Plain(t[6]) && Plain(t[10]) && Plain(t[14]) && Plain(t[18])
            && Plain(t[22])
  {
  }

  lemma LengthFieldPlain()
    ensures var t := LENGTH_FIELD;
            |t| == 16 && Plain(t[0]) && Plain(t[4]) && Plain(t[8]) && Plain(t[12]) && Plain(t[15])
  {
  }

  lemma TypePlain(a: string, b: string)
    requires a == TYPE_LINE && b == LENGTH_FIELD
    ensures TypeLike(a + b)
  {
    hide Plain;
    TypeLinePlain();
    LengthFieldPlain();
  }

  lemma StampPlain()
    ensures StampLike(STAMP)
  {
  }

  /** What keeps four bytes from passing for CRLFCRLF. */
  lemma Blocked(s: string, n: nat, p: nat)
    requires 4 <= n <= |s| && n - 4 <= p < n && (Plain(s[p]) || (p == n - 1 && !LikeLf(CharByte(s[p]))))
    ensures !Hit(Text(s), n)
  {
  }

  lemma TypeWindow(s: string, t: string, n: nat)
    requires TypeLike(t) && 4 <= n <= 44 <= |s| && s[2..44] == t
    ensures !Hit(Text(s), n)
  {
    hide LikeCr, LikeLf, Plain, Text, Hit;
    var p := if n <= 5 then 2 else if n <= 8 then 5 else (n - 1) / 4 * 4;
    assert s[p] == t[p - 2];
    Blocked(s, n, p);
  }

  lemma StampWindow(s: string, off: nat, t: string, n: nat)
    requires StampLike(t) && off + 15 <= |s| && s[off..off + 15] == t && 4 <= n && off + 3 <= n <= off + 15
    ensures !Hit(Text(s), n)
  {
    hide LikeCr, LikeLf, Plain, Text, Hit;
    var k := n - off;
    var p := if k <= 5 then 2 else if k <= 8 then 5 else if k <= 12 then 8 else if k <= 14 then 12 else 14;
    assert s[off + p] == t[p];
    Blocked(s, n, off + p);
  }

  /** In a numeral and up to three places behind it. */
  lemma NumeralWindow(s: string, off: nat, d: string, n: nat)
    requires Numeral(d) && off + |d| <= |s| && s[off..off + |d|] == d && 4 <= n <= |s| && off < n <= off + |d| + 3
    ensures !Hit(Text(s), n)
  {
    hide LikeCr, LikeLf, Plain, Text, Hit;
    if n <= off + |d| {
      assert s[n - 1] == s[off..off + |d|][n - 1 - off];
      Blocked(s, n, n - 1);
    } else {
      assert s[off + |d| - 1] == s[off..off + |d|][|d| - 1];
      Blocked(s, n, off + |d| - 1);
    }
  }

  /** Two fixed texts and three numbers pass for a whole header at their end and nowhere before. */
  lemma HeadHits(s: string, crlf: string, t: string, d1: string, stamp: string, d2: string, dot: string, d3: string,
                 end: string)
    requires Numeral(d1) && Numeral(d2) && Numeral(d3) && TypeLike(t) && StampLike(stamp)
    requires |crlf| == 2 && |dot| == 1 && end == BLANK
    requires s == crlf + t + d1 + stamp + d2 + dot + d3 + end
    ensures forall n: nat :: n <= |s| ==> (Hit(Text(s), n) <==> n == |s|)
  {
    hide Numeral, TypeLike, StampLike, Text, Hit;
    assert |t| == 42 && |stamp| == 15 by { TextSizes(t, stamp); }
    var o2 := 44 + |d1|;
    var o4 := o2 + 15 + |d2|;
    var o6 := o4 + 1 + |d3|;
    assert s[2..44] == t && s[44..o2] == d1 && s[o2..o2 + 15] == stamp;
    assert s[o2 + 15..o4] == d2 && s[o4 + 1..o6] == d3 && s[o6..] == end;
    FinalHit(s);
    forall n: nat | 4 <= n < |s| ensures !Hit(Text(s), n) {
      if n <= 44 {
        TypeWindow(s, t, n);
      } else if n <= o2 + 3 {
        NumeralWindow(s, 44, d1, n);
      } else if n <= o2 + 15 {
        StampWindow(s, o2, stamp, n);
      } else if n <= o4 + 1 {
        NumeralWindow(s, o2 + 15, d2, n);
      } else {
        NumeralWindow(s, o4 + 1, d3, n);
      }
    }
  }

  lemma TextSizes(t: string, stamp: string)
    requires TypeLike(t) && StampLike(stamp)
    ensures |t| == 42 && |stamp| == 15
  {
  }

  /** Whatever numbers are printed, the extractor takes a part's header for ended at its blank line and
      not before. */
  lemma PartHeadHits(f: Frame)
    ensures forall n: nat :: n <= |PartHead(f)| ==> (Hit(PartHead(f), n) <==> n == |PartHead(f)|)
  {
    hide Numeral, TypeLike, StampLike, Text, Hit;
    TypePlain(TYPE_LINE, LENGTH_FIELD);
    StampPlain();
    DecimalNumeral(|f.data|);
    DecimalNumeral(f.sec);
    DecimalNumeral(f.usec);
    var d1, d2, d3 := Decimal(|f.data|), Decimal(f.sec), Decimal06(f.usec);
    var fields := TYPE_LINE + LENGTH_FIELD;
    var s := CRLF + fields + d1 + STAMP + d2 + DOT + d3 + BLANK;
    assert s == CRLF + Header(f);
    HeadHits(s, CRLF, fields, d1, STAMP, d2, DOT, d3, BLANK);
    TextLength(s);
  }

  lemma TextLength(s: string)
    ensures |Text(s)| == |s|
  {
  }

  lemma FinalHit(s: string)
    requires |s| >= 4 && s[|s| - 4..] == BLANK
    ensures Hit(Text(s), |s|) && forall n :: 0 <= n < 4 ==> !Hit(Text(s), n)
  {
    var t := s[|s| - 4..];
    assert t[0] == '\r' && t[1] == '\n' && t[2] == '\r' && t[3] == '\n';
  }

  // ----- the boundary -----

  lemma BoundaryBytes()
    ensures |BOUNDARY| == 20 && 13 !in Text(BOUNDARY) && 10 !in Text(BOUNDARY)
    ensures forall i :: 0 <= i < 20 ==> (Text(BOUNDARY)[i] == 45 <==> i < 2)
  {
    assert BOUNDARY[0] == '-' && BOUNDARY[1] == '-';
    var b := Text(BOUNDARY);
    forall i | 2 <= i < 20 ensures b[i] != 45 && b[i] != 13 && b[i] != 10 {
      assert 'a' <= BOUNDARY[i] <= 'z';
    }
  }

  /** Behind something already matched, the dashes of a boundary are spent on it. */
  lemma {:induction false} BoundaryMissed(s: seq<Byte>, i: nat)
    requires Quiet(Text(BOUNDARY), s) && Matched(Text(BOUNDARY), s) > 0 && 2 <= i <= 20
    ensures Quiet(Text(BOUNDARY), s + Text(BOUNDARY)[..i]) && Matched(Text(BOUNDARY), s + Text(BOUNDARY)[..i]) <= 1
  {
    hide Text, Quiet, Matched;
    BoundaryBytes();
    var b := Text(BOUNDARY);
    if i == 2 {
      MatchedSnoc(b, s, b[0]);
      MatchedSnoc(b, s + [b[0]], b[1]);
      assert s + [b[0]] + [b[1]] == s + b[..2];
    } else {
      BoundaryMissed(s, i - 1);
      MatchedSnoc(b, s + b[..i - 1], b[i - 1]);
      assert s + b[..i - 1] + [b[i - 1]] == s + b[..i];
    }
  }

  /** The matcher has no fallback: it finds a boundary exactly when nothing is matched in front of it. */
  lemma BoundaryFoundIff(s: seq<Byte>)
    requires Quiet(Text(BOUNDARY), s)
    ensures !Quiet(Text(BOUNDARY), s + Text(BOUNDARY)) <==> Matched(Text(BOUNDARY), s) == 0
  {
    hide Quiet, Matched;
    BoundaryBytes();
    var b := Text(BOUNDARY);
    if Matched(b, s) == 0 {
      OccurrenceFound(b, s);
    } else {
      BoundaryMissed(s, 20);
      assert b[..20] == b;
    }
  }

  // ----- one part -----

  function PartText(f: Frame): seq<Byte>
  {
    PartHead(f) + (f.data + PartEnd())
  }

  /** The part is delivered as it was sent. */
  ghost predicate Fits(f: Frame)
  {
    Quiet(Text(BOUNDARY), f.data) && |f.data| + 22 < BUFFER_SIZE
  }

  lemma PartEndBytes()
    ensures PartEnd() == [13, 10] + Text(BOUNDARY)
  {
    TextConcat(CRLF, BOUNDARY);
    assert Text(CRLF) == [13, 10];
  }

  /** Behind a quiet frame, the line end resets the matcher and the boundary completes it. */
  lemma BoundaryAfterFrame(data: seq<Byte>)
    requires Quiet(Text(BOUNDARY), data)
    ensures |PartEnd()| == 22
    ensures Quiet(Text(BOUNDARY), (data + PartEnd())[..|data| + 21]) && !Quiet(Text(BOUNDARY), data + PartEnd())
  {
    hide Quiet, Matched, Text;
    BoundaryBytes();
    var b := Text(BOUNDARY);
    PartEndBytes();
    ForeignByteResets(b, data, 13);
    ForeignByteResets(b, data + [13], 10);
    var s := data + [13] + [10];
    OccurrenceFound(b, s);
    assert s + b == data + PartEnd();
    assert s + b[..19] == (data + PartEnd())[..|data| + 21];
  }

  /** What the extractor makes of a content: it delivers what precedes the first completed boundary, or
      runs full and falls silent. */
  lemma ContentOutcome(x: Extractor, w: seq<Byte>, k: nat)
    requires x.Valid() && x.inContent && x.stored == [] && x.boundaryMatched == 0
    requires k < |w| && Quiet(Text(BOUNDARY), w[..k]) && !Quiet(Text(BOUNDARY), w[..k + 1])
    ensures k >= 19
    ensures var n := if k < 21 then 0 else k - 21;
            if k + 1 < BUFFER_SIZE
            then
              && Run(x, w).1 == [Image(w[..n], k - 21)] + Run(INITIAL, w[k + 1..]).1
              && Run(x, w).0 == Run(INITIAL, w[k + 1..]).0
            else Run(x, w).1 == [] && Run(x, w).0.inContent && |Run(x, w).0.stored| == BUFFER_SIZE - 1
  {
    hide Run, Quiet, Matched;
    assert w[..k] + [w[k]] == w[..k + 1];
    HitIsOccurrence(Text(BOUNDARY), w[..k], w[k]);
    BoundaryBytes();
    if k + 1 < BUFFER_SIZE {
      ContentEnds(x, w[..k], w[k]);
      assert w[..k + 1] + w[k + 1..] == w;
      RunConcat(x, w[..k + 1], w[k + 1..]);
      assert w[..k][..if k < 21 then 0 else k - 21] == w[..if k < 21 then 0 else k - 21];
    } else {
      var full := BUFFER_SIZE - 1;
      QuietPrefix(Text(BOUNDARY), w[..k], full);
      assert w[..k][..full] == w[..full];
      ContentRun(x, w[..full]);
      Stuck(Run(x, w[..full]).0, w[full..]);
      assert w[..full] + w[full..] == w;
      RunConcat(x, w[..full], w[full..]);
    }
  }

  function Delivery(f: Frame): Image
  {
    Image(f.data, |f.data|)
  }

  /** One part: delivered as sent, with the extractor back in its initial state; or else a shorter image
      comes first, or the extractor falls silent for good. */
  lemma PartOutcome(f: Frame)
    ensures Fits(f) ==> Run(INITIAL, PartText(f)) == (INITIAL, [Delivery(f)])
    ensures !Fits(f) ==>
              var (x, out) := Run(INITIAL, PartText(f));
              || (out != [] && out[0].length < |f.data|)
              || (out == [] && x.inContent && |x.stored| == BUFFER_SIZE - 1)
  {
    hide Run, Quiet, Matched, PartHead, PartEnd, IsCrlfCrlf;
    PartHeadHits(f);
    PartHeadNotEmpty(f);
    HeaderEnds(PartHead(f));
    var x, w := Run(INITIAL, PartHead(f)).0, f.data + PartEnd();
    RunConcat(INITIAL, PartHead(f), w);
    assert forall out: seq<Image> :: [] + out == out;
    BoundaryBytes();
    if Quiet(Text(BOUNDARY), f.data) {
      BoundaryAfterFrame(f.data);
      var k := |f.data| + 21;
      assert w[..k + 1] == w && w[k + 1..] == [] && w[..|f.data|] == f.data;
      ContentOutcome(x, w, k);
      RunNothing(INITIAL);
      assert [Delivery(f)] + [] == [Delivery(f)];
    } else {
      var k := FirstHit(Text(BOUNDARY), f.data);
      assert w[..k] == f.data[..k] && w[..k + 1] == f.data[..k + 1];
      ContentOutcome(x, w, k);
    }
  }

  lemma PartHeadNotEmpty(f: Frame)
    ensures PartHead(f) != []
  {
  }

  // ----- the stream -----

  function PartsText(frames: seq<Frame>): seq<Byte>
  {
    if frames == [] then [] else PartText(frames[0]) + PartsText(frames[1..])
  }

  function Deliveries(frames: seq<Frame>): seq<Image>
  {
    if frames == [] then [] else [Delivery(frames[0])] + Deliveries(frames[1..])
  }

  ghost predicate AllFit(frames: seq<Frame>)
  {
    forall i :: 0 <= i < |frames| ==> Fits(frames[i])
  }

  /** From just behind an opening boundary, the extractor delivers exactly the frames sent, in order,
      exactly when in no frame the matcher completes the boundary and every frame leaves room for the
      22 bytes behind it. */
  lemma {:induction false} StreamRoundTripIff(frames: seq<Frame>)
    ensures AllFit(frames) ==> Run(INITIAL, PartsText(frames)) == (INITIAL, Deliveries(frames))
    ensures !AllFit(frames) ==> Run(INITIAL, PartsText(frames)).1 != Deliveries(frames)
    decreases |frames|
  {
    hide Run, PartText, Fits;
    if frames == [] {
      RunNothing(INITIAL);
    } else {
      var f, rest := frames[0], frames[1..];
      PartOutcome(f);
      RunConcat(INITIAL, PartText(f), PartsText(rest));
      if Fits(f) {
        StreamRoundTripIff(rest);
        assert AllFit(frames) <==> AllFit(rest) by {
          assert forall i :: 1 <= i < |frames| ==> frames[i] == rest[i - 1];
        }
        var more := Run(INITIAL, PartsText(rest)).1;
        assert ([Delivery(f)] + more)[1..] == more && ([Delivery(f)] + Deliveries(rest))[1..] == Deliveries(rest);
      } else {
        var (x, out) := Run(INITIAL, PartText(f));
        assert Deliveries(frames)[0] == Delivery(f) && !AllFit(frames);
        if out == [] {
          Stuck(x, PartsText(rest));
        } else {
          assert (out + Run(x, PartsText(rest)).1)[0] == out[0];
        }
      }
    }
  }

  // ----- the calls of write -----

  /** What send_stream writes, one entry a call of write. */
  function Writes(frames: seq<Frame>): seq<seq<Byte>>
  {
    if frames == [] then []
    else [Text(Header(frames[0])), frames[0].data, Text(CRLF + BOUNDARY + CRLF)] + Writes(frames[1..])
  }

  lemma {:induction false} WritesLength(frames: seq<Frame>)
    ensures |Writes(frames)| == 3 * |frames|
  {
    hide Text, Header;
    if frames != [] {
      WritesLength(frames[1..]);
    }
  }

  /** The three writes of frame q. */
  lemma {:induction false} WritesAt(frames: seq<Frame>, q: nat)
    requires q < |frames| && |Writes(frames)| == 3 * |frames|
    ensures Writes(frames)[3 * q] == Text(Header(frames[q])) && Writes(frames)[3 * q + 1] == frames[q].data
    ensures Writes(frames)[3 * q + 2] == Text(CRLF + BOUNDARY + CRLF)
    decreases q
  {
    hide Text, Header;
    if q > 0 {
      WritesLength(frames[1..]);
      WritesAt(frames[1..], q - 1);
      var w := Writes(frames);
      assert w == w[..3] + Writes(frames[1..]);
    }
  }

  // ----- what a reader of the format finds in it -----

  predicate DigitBytes(b: seq<Byte>)
  {
    forall i :: 0 <= i < |b| ==> 48 <= b[i] <= 57
  }

  lemma {:induction false} DigitsAreRead(n: nat)
    ensures var b := Text(Digits(n)); b != [] && DigitBytes(b) && Natural(b) == Some(n) && (b[0] == 48 ==> b == [48])
    ensures Digits(n)[0] == '0' ==> n == 0
  {
    if n >= 10 {
      DigitsAreRead(n / 10);
      var b := Text(Digits(n));
      TextConcat(Digits(n / 10), [Digit(n % 10)]);
      assert b[..|b| - 1] == Text(Digits(n / 10)) && b[|b| - 1] == 48 + n % 10;
    } else {
      assert Text(Digits(n)) == [48 + n];
    }
  }

  lemma {:induction false} FillerIsRead(k: int, b: seq<Byte>)
    requires b != []
    ensures Natural(Text(Filler(k)) + b) == Natural(b)
    ensures |Filler(k)| == (if k <= 0 then 0 else k) && DigitBytes(Text(Filler(k)))
  {
    hide Natural;
    if k <= 0 {
      assert Text(Filler(k)) + b == b;
    } else {
      FillerIsRead(k - 1, b);
      LeadingZero(Text(Filler(k - 1)) + b);
      TextConcat("0", Filler(k - 1));
      assert Text("0") == [48];
      assert [48] + (Text(Filler(k - 1)) + b) == Text(Filler(k)) + b;
    }
  }

  /** A printed number holds neither a carriage return nor a point. */
  predicate Harmless(b: seq<Byte>)
  {
    13 !in b && 46 !in b
  }

  lemma DigitsHarmless(b: seq<Byte>)
    requires DigitBytes(b)
    ensures Harmless(b) && Harmless([45] + b)
  {
  }

  lemma MinusIsRead(b: seq<Byte>)
    requires DigitBytes(b) && b != [] && Natural(b).Some?
    ensures Integer([45] + b) == Some(-Natural(b).value) && Integer(b) == Natural(b)
  {
    hide Natural;
    assert ([45] + b)[1..] == b;
  }

  /** "%d" prints a number that reads as itself, without superfluous zeros. */
  lemma DecimalIsRead(n: int)
    ensures var b := Text(Decimal(n)); Integer(b) == Some(n) && Shortest(b) && Harmless(b)
  {
    hide Natural, Integer, Digits, Text;
    var d := Text(Digits(if n < 0 then -n else n));
    DigitsAreRead(if n < 0 then -n else n);
    MinusIsRead(d);
    DigitsHarmless(d);
    MinusSign(Digits(if n < 0 then -n else n));
    FirstCharacter(Digits(if n < 0 then -n else n));
  }

  lemma MinusSign(s: string)
    ensures Text("-" + s) == [45] + Text(s)
  {
    TextConcat("-", s);
    assert Text("-") == [45];
  }

  lemma FirstCharacter(s: string)
    requires |s| > 0
    ensures |Text(s)| == |s| && (Text(s)[0] == 48 ==> s[0] == '0')
  {
  }

  /** Digits with k zeros in front. */
  lemma FilledIsRead(n: nat, k: int)
    ensures var b := Text(Filler(k) + Digits(n));
            && b != [] && DigitBytes(b) && Natural(b) == Some(n)
            && |b| == (if k <= 0 then 0 else k) + |Digits(n)| && (k <= 0 ==> b == Text(Digits(n)))
  {
    hide Natural, Digits, Text, Filler;
    var s := Digits(n);
    DigitsAreRead(n);
    FillerIsRead(k, Text(s));
    TextConcat(Filler(k), s);
    TextLength(s);
    TextLength(Filler(k));
    if k <= 0 {
      assert Filler(k) + s == s;
    }
  }

  lemma PrintedAs(n: int)
    ensures n >= 0 ==> Decimal(n) == Digits(n) && Decimal06(n) == Filler(6 - |Digits(n)|) + Digits(n)
    ensures n < 0 ==> Decimal(n) == "-" + Digits(-n)
    ensures n < 0 ==> Decimal06(n) == "-" + (Filler(5 - |Digits(-n)|) + Digits(-n))
  {
    hide Digits, Filler;
    if n < 0 {
      var f, d := Filler(5 - |Digits(-n)|), Digits(-n);
      assert "-" + f + d == "-" + (f + d);
    }
  }

  /** "%06d" prints the same number, and fills it up with zeros to six places. */
  lemma Decimal06IsRead(n: int)
    ensures var b := Text(Decimal06(n));
            Integer(b) == Some(n) && Harmless(b) && (|b| == 6 || (|b| > 6 && b == Text(Decimal(n))))
  {
    hide Natural, Integer, Digits, Text, Filler, DigitBytes, Harmless, Decimal, Decimal06;
    var m := if n < 0 then -n else n;
    var k := (if n < 0 then 5 else 6) - |Digits(m)|;
    PrintedAs(n);
    FilledIsRead(m, k);
    MinusIsRead(Text(Filler(k) + Digits(m)));
    DigitsHarmless(Text(Filler(k) + Digits(m)));
    if n < 0 {
      MinusSign(Filler(k) + Digits(m));
      MinusSign(Digits(m));
    }
  }

  lemma TextIsSaid(s: string)
    requires forall i :: 0 <= i < |s| ==> s[i] <= '~'
    ensures Says(Text(s), s)
  {
  }

  lemma NamesAreSaid()
    ensures Says(Text("Content-Type: image/jpeg"), "Content-Type: image/jpeg")
    ensures Says(Text("Content-Length: "), "Content-Length: ") && Says(Text("X-Timestamp: "), "X-Timestamp: ")
    ensures 13 !in Text("Content-Type: image/jpeg") && 13 !in Text("Content-Length: ") && 13 !in Text("X-Timestamp: ")
  {
  }

  lemma BoundaryIsSaid()
    ensures Says(Text(CRLF + BOUNDARY + CRLF), "\r\n--boundarydonotcross\r\n")
  {
    hide Text, Says;
    var s := "\r\n--boundarydonotcross\r\n";
    assert CRLF + BOUNDARY + CRLF == s;
    TextIsSaid(s);
  }

  /** The header in the pieces a reader takes it apart into. */
  lemma HeaderText(f: Frame, rest: seq<Byte>)
    ensures var d1, d2, d3 := Text(Decimal(|f.data|)), Text(Decimal(f.sec)), Text(Decimal06(f.usec));
            Text(Header(f)) + rest ==
            Text("Content-Type: image/jpeg") + [13, 10] +
            (Text("Content-Length: ") + d1 + [13, 10] +
             (Text("X-Timestamp: ") + (d2 + [46] + d3) + [13, 10] + ([13, 10] + rest)))
  {
    hide Text, Decimal, Decimal06;
    var s1, s2, s3 := Decimal(|f.data|), Decimal(f.sec), Decimal06(f.usec);
    TypeLineText();
    var a := TYPE_LINE + LENGTH_FIELD;
    var b := a + s1;
    var c := b + STAMP;
    var d := c + s2;
    var e := d + DOT;
    var g := e + s3;
    assert Header(f) == g + BLANK;
    TextConcat(g, BLANK);
    TextConcat(e, s3);
    TextConcat(d, DOT);
    TextConcat(c, s2);
    TextConcat(b, STAMP);
    TextConcat(a, s1);
    TextConcat(TYPE_LINE, LENGTH_FIELD);
    Fields(Text("Content-Type: image/jpeg"), [13, 10], Text("Content-Length: "), Text(s1), Text("X-Timestamp: "),
           Text(s2), [46], Text(s3), rest);
  }

  lemma Fields(k: seq<Byte>, c: seq<Byte>, l: seq<Byte>, d1: seq<Byte>, s: seq<Byte>, d2: seq<Byte>, p: seq<Byte>,
               d3: seq<Byte>, rest: seq<Byte>)
    ensures k + c + l + d1 + (c + s) + d2 + p + d3 + (c + c) + rest ==
            k + c + (l + d1 + c + (s + (d2 + p + d3) + c + (c + rest)))
  {
    var tail := s + (d2 + p + d3) + c + (c + rest);
    assert c + s + d2 + p + d3 + (c + c) + rest == c + tail;
    assert k + c + l + d1 + (c + s) + d2 + p + d3 + (c + c) + rest ==
           k + c + l + d1 + (c + s + d2 + p + d3 + (c + c) + rest);
  }

  lemma TypeLineText()
    ensures Text(TYPE_LINE) == Text("Content-Type: image/jpeg") + [13, 10] && Text(DOT) == [46]
    ensures Text(LENGTH_FIELD) == Text("Content-Length: ") && Text(STAMP) == [13, 10] + Text("X-Timestamp: ")
    ensures Text(BLANK) == [13, 10] + [13, 10]
  {
    assert TYPE_LINE == "Content-Type: image/jpeg" + CRLF && STAMP == CRLF + "X-Timestamp: " && BLANK == CRLF + CRLF;
    assert Text(CRLF) == [13, 10];
    TextConcat("Content-Type: image/jpeg", CRLF);
    TextConcat(CRLF, "X-Timestamp: ");
    TextConcat(CRLF, CRLF);
  }

  /** What is printed in front of a frame reads as its length and its two times. */
  lemma HeadIsRead(f: Frame, rest: seq<Byte>)
    ensures ReadHead(Text(Header(f)) + rest) == Some(Head(|f.data|, f.sec, f.usec, rest))
  {
    hide Text, Header, Decimal, Decimal06, ReadHead, Says, Shortest, Integer;
    DecimalIsRead(|f.data|);
    DecimalIsRead(f.sec);
    DecimalIsRead(f.usec);
    Decimal06IsRead(f.usec);
    NamesAreSaid();
    HeaderText(f, rest);
    HeadConcat(Text("Content-Type: image/jpeg"), Text("Content-Length: "), Text(Decimal(|f.data|)),
               Text("X-Timestamp: "), Text(Decimal(f.sec)), Text(Decimal06(f.usec)), rest, |f.data|, f.sec, f.usec);
  }

  /** To the reader, b holds the frames whose three writes are among the first m and no other, and of the frame
      under way its head and, behind one more write, its data. */
  predicate ReadsAs(b: seq<Byte>, frames: seq<Frame>, m: nat)
    requires m <= 3 * |frames|
  {
    var r := ReadParts(b);
    && r.frames == frames[..m / 3]
    && if m % 3 == 0 then r.left == []
       else
         var f := frames[m / 3];
         ReadHead(r.left) == Some(Head(|f.data|, f.sec, f.usec, if m % 3 == 1 then [] else f.data))
  }

  lemma NothingIsRead()
    ensures ReadParts([]) == Received([], [])
  {
  }

  /** A frame whose boundary is still missing. */
  lemma CutIsRead(f: Frame, data: seq<Byte>)
    requires |data| <= |f.data|
    ensures var b := Text(Header(f)) + data;
            ReadParts(b) == Received([], b) && ReadHead(b) == Some(Head(|f.data|, f.sec, f.usec, data))
  {
    hide Text, Header, ReadHead, ReadParts;
    HeadIsRead(f, data);
    PartCut(Text(Header(f)) + data, Head(|f.data|, f.sec, f.usec, data));
  }

  /** A whole frame is read, whatever its data, and reading goes on behind its boundary. */
  lemma PartIsRead(f: Frame, rest: seq<Byte>)
    ensures var r := ReadParts(Text(Header(f)) + f.data + Text(CRLF + BOUNDARY + CRLF) + rest);
            var q := ReadParts(rest);
            r == Received([f] + q.frames, q.left)
  {
    hide Text, Header, ReadHead, ReadPart, Says;
    var h, boundary := Text(Header(f)), Text(CRLF + BOUNDARY + CRLF);
    BoundaryIsSaid();
    HeadIsRead(f, f.data + (boundary + rest));
    PartConcat(h, f, boundary, rest);
    assert h + f.data + boundary + rest == h + (f.data + (boundary + rest));
  }

  lemma WritesUnfold(frames: seq<Frame>, m: nat)
    requires frames != [] && m <= 3 * |frames|
    ensures |Writes(frames)| == 3 * |frames| && |Writes(frames[1..])| == 3 * |frames| - 3
    ensures var f, w := frames[0], Flatten(Writes(frames)[..m]);
            var h, e := Text(Header(f)), Text(CRLF + BOUNDARY + CRLF);
            w == if m == 0 then []
                 else if m == 1 then h
                 else if m == 2 then h + f.data
                 else h + f.data + e + Flatten(Writes(frames[1..])[..m - 3])
  {
    hide Text, Header, Flatten;
    WritesLength(frames);
    WritesLength(frames[1..]);
    var f, w := frames[0], Writes(frames);
    var h, e := Text(Header(f)), Text(CRLF + BOUNDARY + CRLF);
    assert w[..0] == [] && w[..1] == [h] && w[..2] == [h] + [f.data];
    FlattenNone<Byte>();
    FlattenOne(h);
    FlattenOne(f.data);
    FlattenCons(h, [f.data]);
    if m >= 3 {
      var more := Writes(frames[1..])[..m - 3];
      assert w[..m] == [h, f.data, e] + more;
      FlattenThree(h, f.data, e, more);
    }
  }

  /** The stream, cut behind any write, is read back: every frame with its own length, times and data, none missing,
      none added. */
  lemma {:induction false} StreamIsRead(frames: seq<Frame>, m: nat)
    requires m <= 3 * |frames| == |Writes(frames)|
    ensures ReadsAs(Flatten(Writes(frames)[..m]), frames, m)
    decreases |frames|
  {
    hide Text, Header, Flatten, Writes, ReadHead, ReadParts;
    if frames == [] {
      NothingIsRead();
      FlattenNone<Byte>();
      assert Writes(frames)[..0] == [];
    } else {
      var f, rest := frames[0], frames[1..];
      WritesUnfold(frames, m);
      NothingIsRead();
      assert Text(Header(f)) + [] == Text(Header(f));
      CutIsRead(f, []);
      CutIsRead(f, f.data);
      if m >= 3 {
        StreamIsRead(rest, m - 3);
        PartIsRead(f, Flatten(Writes(rest)[..m - 3]));
        assert [f] + rest[..(m - 3) / 3] == frames[..m / 3];
      }
    }
  }

  // ----- the program -----

  /** The loop of send_stream over the frames it gets hold of; `good` is the number of writes that
      succeed, and the first one that does not ends the loop. */
  method SendStream(frames: seq<Frame>, good: nat) returns (sent: seq<Byte>)
    ensures sent == Flatten(Writes(frames)[..if good < |Writes(frames)| then good else |Writes(frames)|])
    ensures ReadsAs(sent, frames, if good < 3 * |frames| then good else 3 * |frames|)
  {
    hide Text, Header, Flatten, Writes, ReadsAs;
    sent := [];
    var i, done := 0, 0;
    ghost var all := Writes(frames);
    WritesLength(frames);
    StreamIsRead(frames, if good < 3 * |frames| then good else 3 * |frames|);
    FlattenNone<Byte>();
    assert all[..0] == [];
    while i < |frames|
      invariant 0 <= i <= |frames| && done == 3 * i <= good && sent == Flatten(all[..done])
    {
      WritesAt(frames, i);
      if done == good {
        return;
      }
      FlattenSnoc(all, done);
      sent, done := sent + Text(Header(frames[i])), done + 1;
      if done == good {
        return;
      }
      FlattenSnoc(all, done);
      sent, done := sent + frames[i].data, done + 1;
      if done == good {
        return;
      }
      FlattenSnoc(all, done);
      sent, done := sent + Text(CRLF + BOUNDARY + CRLF), done + 1;
      i := i + 1;
    }
    assert all[..done] == all;
  }

  /** Regrouped: with the line end that closes the opening boundary in front, the writes are the parts,
      and one line end is left over. */
  lemma {:induction false} WritesAreParts(frames: seq<Frame>)
    ensures Text(CRLF) + Flatten(Writes(frames)) == PartsText(frames) + Text(CRLF)
    decreases |frames|
  {
    hide Text, Header, PartText;
    if frames != [] {
      var f, rest := frames[0], frames[1..];
      WritesAreParts(rest);
      TextConcat(CRLF, Header(f));
      TextConcat(CRLF + BOUNDARY, CRLF);
      FlattenThree(Text(Header(f)), f.data, Text(CRLF + BOUNDARY + CRLF), Writes(rest));
      Regroup(Text(CRLF), Text(Header(f)), f.data, PartEnd(), Flatten(Writes(rest)), PartsText(rest));
      PartTextIs(f);
    }
  }

  lemma PartTextIs(f: Frame)
    ensures PartText(f) == Text(CRLF + Header(f)) + (f.data + PartEnd())
  {
  }

  lemma Regroup(c: seq<Byte>, h: seq<Byte>, d: seq<Byte>, e: seq<Byte>, w: seq<Byte>, parts: seq<Byte>)
    requires c + w == parts + c
    ensures c + (h + d + (e + c) + w) == c + h + (d + e) + parts + c
  {
    assert c + (h + d + (e + c) + w) == c + h + (d + e) + (c + w);
    assert c + h + (d + e) + (parts + c) == c + h + (d + e) + parts + c;
  }

  lemma FlattenThree(a: seq<Byte>, b: seq<Byte>, c: seq<Byte>, rest: seq<seq<Byte>>)
    ensures Flatten([a, b, c] + rest) == a + b + c + Flatten(rest)
  {
    var l1 := [c] + rest;
    var l2 := [b] + l1;
    var l3 := [a] + l2;
    assert l1[1..] == rest && l2[1..] == l1 && l3[1..] == l2;
    assert [a, b, c] + rest == l3;
    assert Flatten(l1) == c + Flatten(rest) && Flatten(l2) == b + Flatten(l1);
    assert Flatten(l3) == a + (b + (c + Flatten(rest)));
  }
}
