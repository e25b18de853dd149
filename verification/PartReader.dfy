/** A reader of the multipart stream that goes by the format alone, RFC 2046 (section 5.1) with the two fields that
    every part of this stream carries: it believes the printed length and counts the bytes off. */
module PartReader {
  import opened Words
  import opened Wrappers

  datatype Frame = Frame(data: seq<Byte>, sec: int, usec: int)

  /** The bytes are the ASCII codes of the text. */
  predicate Says(b: seq<Byte>, s: string)
  {
    |b| == |s| && forall i :: 0 <= i < |s| ==> b[i] == s[i] as int
  }

  /** What stands behind the text, if the bytes begin with it. */
  function After(b: seq<Byte>, s: string): (r: Option<seq<Byte>>)
    ensures r.Some? ==> |r.value| + |s| == |b|
  {
    if |s| <= |b| && Says(b[..|s|], s) then Some(b[|s|..]) else None
  }

  // ----- numbers -----

  /** A decimal number without a sign. */
  function Natural(b: seq<Byte>): Option<int>
  {
    if b == [] then None
    else
      var n, c := |b| - 1, b[|b| - 1];
      if c < 48 || 57 < c then None
      else if n == 0 then Some(c - 48)
      else match Natural(b[..n])
           case None => None
           case Some(v) => Some(10 * v + (c - 48))
  }

  /** ... and with a minus sign in front where there is one. */
  function Integer(b: seq<Byte>): Option<int>
  {
    if b != [] && b[0] == 45
    then match Natural(b[1..])
         case None => None
         case Some(v) => Some(-v)
    else Natural(b)
  }

  /** Where the byte first stands, or the number of bytes. */
  function Find(b: seq<Byte>, c: Byte): (k: nat)
    ensures k <= |b|
  {
    if b == [] || b[0] == c then 0 else 1 + Find(b[1..], c)
  }

  /** No zero stands in front that could be left out. */
  predicate Shortest(b: seq<Byte>)
  {
    b == [48] || (|b| >= 1 && b[0] != 48 && b[0] != 45) || (|b| >= 2 && b[0] == 45 && b[1] != 48)
  }

  /** Seconds, a point, and microseconds filled up with zeros to six places. */
  function Stamp(b: seq<Byte>): Option<(int, int)>
  {
    var k := Find(b, 46);
    if k == |b| || !Shortest(b[..k]) || !(|b| == k + 7 || (|b| > k + 7 && Shortest(b[k + 1..]))) then None
    else match (Integer(b[..k]), Integer(b[k + 1..]))
         case (Some(v), Some(w)) => Some((v, w))
         case _ => None
  }

  // ----- lines -----

  /** A line, without its CR LF, and what stands behind. */
  datatype Line = Line(text: seq<Byte>, rest: seq<Byte>)

  function LineEnd(b: seq<Byte>): (n: nat)
    ensures n <= |b|
  {
    if b == [] || (|b| >= 2 && b[0] == 13 && b[1] == 10) then 0 else 1 + LineEnd(b[1..])
  }

  function TakeLine(b: seq<Byte>): (r: Option<Line>)
    ensures r.Some? ==> |r.value.rest| < |b|
  {
    var n := LineEnd(b);
    if n + 2 <= |b| then Some(Line(b[..n], b[n + 2..])) else None
  }

  /** A line that begins with the name: what it says behind the name. */
  function Field(b: seq<Byte>, name: string): (r: Option<Line>)
    ensures r.Some? ==> |r.value.rest| < |b|
  {
    match TakeLine(b)
    case None => None
    case Some(line) =>
      match After(line.text, name)
      case None => None
      case Some(text) => Some(Line(text, line.rest))
  }

  // ----- parts -----

  datatype Head = Head(length: int, sec: int, usec: int, rest: seq<Byte>)

  /** The three fields of a part, in their order, and an empty line. */
  function ReadHead(b: seq<Byte>): (r: Option<Head>)
    ensures r.Some? ==> |r.value.rest| < |b|
  {
    var kind := Field(b, "Content-Type: image/jpeg");
    if kind.None? || kind.value.text != [] then None
    else
      var size := Field(kind.value.rest, "Content-Length: ");
      if size.None? then None
      else
        var stamp := Field(size.value.rest, "X-Timestamp: ");
        if stamp.None? || !Shortest(size.value.text) then None
        else
          var blank := TakeLine(stamp.value.rest);
          if blank.None? || blank.value.text != [] then None
          else
            match (Integer(size.value.text), Stamp(stamp.value.text))
            case (Some(length), Some((sec, usec))) => Some(Head(length, sec, usec, blank.value.rest))
            case _ => None
  }

  datatype Part = Part(frame: Frame, rest: seq<Byte>)

  /** A head, as many bytes as it announces, and the boundary. */
  function ReadPart(b: seq<Byte>): (r: Option<Part>)
    ensures r.Some? ==> |r.value.rest| < |b|
  {
    match ReadHead(b)
    case None => None
    case Some(h) =>
      if h.length < 0 || |h.rest| < h.length then None
      else
        match After(h.rest[h.length..], "\r\n--boundarydonotcross\r\n")
        case None => None
        case Some(rest) => Some(Part(Frame(h.rest[..h.length], h.sec, h.usec), rest))
  }

  /** The frames read, and the bytes of a part that is not complete yet. */
  datatype Received = Received(frames: seq<Frame>, left: seq<Byte>)

  function ReadParts(b: seq<Byte>): Received
    decreases |b|
  {
    match ReadPart(b)
    case None => Received([], b)
    case Some(p) =>
      var r := ReadParts(p.rest);
      Received([p.frame] + r.frames, r.left)
  }

  // ----- laws of the reader -----

  lemma {:induction false} LeadingZero(b: seq<Byte>)
    requires b != []
    ensures Natural([48] + b) == Natural(b)
    decreases |b|
  {
    var n := |b| - 1;
    assert ([48] + b)[..n + 1] == [48] + b[..n];
    if n > 0 {
      LeadingZero(b[..n]);
    } else {
      assert [48] + b[..n] == [48];
    }
  }

  lemma {:induction false} FindConcat(a: seq<Byte>, c: Byte, rest: seq<Byte>)
    requires c !in a
    ensures Find(a + [c] + rest, c) == |a|
  {
    if a != [] {
      assert (a + [c] + rest)[1..] == a[1..] + [c] + rest;
      FindConcat(a[1..], c, rest);
    }
  }

  lemma {:induction false} LineConcat(text: seq<Byte>, rest: seq<Byte>)
    requires 13 !in text
    ensures LineEnd(text + [13, 10] + rest) == |text|
    ensures TakeLine(text + [13, 10] + rest) == Some(Line(text, rest))
  {
    var b := text + [13, 10] + rest;
    if text != [] {
      assert b[1..] == text[1..] + [13, 10] + rest;
      LineConcat(text[1..], rest);
    }
    assert b[..|text|] == text && b[|text| + 2..] == rest;
  }

  lemma FieldConcat(name: seq<Byte>, s: string, text: seq<Byte>, rest: seq<Byte>)
    requires Says(name, s) && 13 !in name && 13 !in text
    ensures Field(name + text + [13, 10] + rest, s) == Some(Line(text, rest))
  {
    hide LineEnd;
    LineConcat(name + text, rest);
    assert (name + text)[..|s|] == name && (name + text)[|s|..] == text;
  }

  lemma StampConcat(a: seq<Byte>, b: seq<Byte>, v: int, w: int)
    requires 46 !in a && Integer(a) == Some(v) && Integer(b) == Some(w)
    requires Shortest(a) && (|b| == 6 || (|b| > 6 && Shortest(b)))
    ensures Stamp(a + [46] + b) == Some((v, w))
  {
    hide Integer, Find, Shortest;
    FindConcat(a, 46, b);
    assert (a + [46] + b)[..|a|] == a && (a + [46] + b)[|a| + 1..] == b;
  }

  /** A head made of the fields is read as such. */
  lemma HeadConcat(kind: seq<Byte>, size: seq<Byte>, d1: seq<Byte>, stamp: seq<Byte>, d2: seq<Byte>, d3: seq<Byte>,
                   rest: seq<Byte>, length: int, sec: int, usec: int)
    requires Says(kind, "Content-Type: image/jpeg") && Says(size, "Content-Length: ") && Says(stamp, "X-Timestamp: ")
    requires 13 !in kind && 13 !in size && 13 !in stamp && 13 !in d1 && 13 !in d2 && 13 !in d3 && 46 !in d2
    requires Integer(d1) == Some(length) && Integer(d2) == Some(sec) && Integer(d3) == Some(usec)
    requires Shortest(d1) && Shortest(d2) && (|d3| == 6 || (|d3| > 6 && Shortest(d3)))
    ensures var fields := size + d1 + [13, 10] + (stamp + (d2 + [46] + d3) + [13, 10] + ([13, 10] + rest));
            ReadHead(kind + [13, 10] + fields) == Some(Head(length, sec, usec, rest))
  {
    hide Says, Field, TakeLine, Integer, Stamp, Shortest;
    var l4 := [13, 10] + rest;
    var l3 := stamp + (d2 + [46] + d3) + [13, 10] + l4;
    var l2 := size + d1 + [13, 10] + l3;
    assert kind + [] + [13, 10] + l2 == kind + [13, 10] + l2;
    FieldConcat(kind, "Content-Type: image/jpeg", [], l2);
    FieldConcat(size, "Content-Length: ", d1, l3);
    FieldConcat(stamp, "X-Timestamp: ", d2 + [46] + d3, l4);
    assert [] + [13, 10] + rest == l4;
    LineConcat([], rest);
    StampConcat(d2, d3, sec, usec);
  }

  /** A complete part is read, and nothing is read of one that is cut short. */
  lemma PartConcat(h: seq<Byte>, f: Frame, boundary: seq<Byte>, rest: seq<Byte>)
    requires Says(boundary, "\r\n--boundarydonotcross\r\n")
    requires var more := f.data + (boundary + rest); ReadHead(h + more) == Some(Head(|f.data|, f.sec, f.usec, more))
    ensures ReadPart(h + (f.data + (boundary + rest))) == Some(Part(f, rest))
  {
    hide ReadHead, Says;
    var r := f.data + (boundary + rest);
    assert r[..|f.data|] == f.data && r[|f.data|..] == boundary + rest;
    BoundaryLength(boundary);
    assert (boundary + rest)[..24] == boundary && (boundary + rest)[24..] == rest;
  }

  lemma BoundaryLength(boundary: seq<Byte>)
    requires Says(boundary, "\r\n--boundarydonotcross\r\n")
    ensures |boundary| == |"\r\n--boundarydonotcross\r\n"| == 24
  {
  }

  lemma PartCut(b: seq<Byte>, h: Head)
    requires ReadHead(b) == Some(h) && |h.rest| <= h.length
    ensures ReadPart(b) == None && ReadParts(b) == Received([], b)
  {
    hide ReadHead, Says;
  }
}
