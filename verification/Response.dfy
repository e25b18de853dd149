/** A whole response of send_stream (httpd.c) seen by the extractor: its head, and however many of its writes get
    through, in whatever chunks they arrive. */
module Response {
  import opened Words
  import opened Wrappers
  import opened Misc
  import opened PartReader
  import opened Proxy
  import opened Stream

  // ----- writes that get through -----

  /** The parts of the frames, without and with the frame that is under way. */
  lemma {:induction false} WritesPrefix(frames: seq<Frame>, q: nat)
    requires q <= |frames|
    ensures 3 * q <= |Writes(frames)| == 3 * |frames| && Writes(frames)[..3 * q] == Writes(frames[..q])
    decreases q
  {
    hide Text, Header;
    WritesLength(frames);
    if q > 0 {
      WritesPrefix(frames[1..], q - 1);
      assert frames[..q][1..] == frames[1..][..q - 1];
      var w := Writes(frames);
      assert w == w[..3] + Writes(frames[1..]);
      assert w[..3 * q] == w[..3] + Writes(frames[1..])[..3 * (q - 1)];
    }
  }

  /** Up to the end of its data a frame delivers nothing, and neither does any beginning of that. */
  lemma FrameBegun(f: Frame, p: seq<Byte>)
    requires Fits(f) && p <= PartHead(f) + f.data
    ensures Run(INITIAL, p).1 == []
  {
    hide Run, Quiet, Matched, PartHead, IsCrlfCrlf;
    var head := PartHead(f);
    PartHeadHits(f);
    PartHeadNotEmpty(f);
    HeaderEnds(head);
    ContentRun(Run(INITIAL, head).0, f.data);
    RunConcat(INITIAL, head, f.data);
    var whole := head + f.data;
    assert whole == p + whole[|p|..];
    RunConcat(INITIAL, p, whole[|p|..]);
  }

  /** What has been written of the frame under way: nothing, its header, or header and data; with the line end of
      the boundary before it in front, the beginning of its part. */
  lemma BegunWrites(f: Frame, j: nat, w: seq<seq<Byte>>)
    requires j < 3 && |w| >= j && (j > 0 ==> w[0] == Text(Header(f))) && (j > 1 ==> w[1] == f.data)
    ensures Text(CRLF) + Flatten(w[..j]) <= PartHead(f) + f.data
  {
    hide Text, Header;
    TextConcat(CRLF, Header(f));
    FlattenSmall(w, j);
    assert PartHead(f) == Text(CRLF) + Text(Header(f));
    if j == 1 {
      assert Text(CRLF) + Flatten(w[..j]) == PartHead(f);
    } else if j == 2 {
      assert Text(CRLF) + (w[0] + w[1]) == PartHead(f) + f.data;
    } else {
      assert Text(CRLF) + Flatten(w[..j]) == Text(CRLF);
    }
  }

  lemma FlattenSmall(w: seq<seq<Byte>>, j: nat)
    requires j < 3 && j <= |w|
    ensures Flatten(w[..0]) == [] && (j > 0 ==> Flatten(w[..1]) == w[0]) && (j > 1 ==> Flatten(w[..2]) == w[0] + w[1])
  {
    if j > 0 {
      FlattenSnoc(w, 0);
    }
    if j > 1 {
      FlattenSnoc(w, 1);
    }
  }

  /** After any number of writes the extractor has delivered exactly the frames that are complete. */
  lemma WrittenIsDelivered(frames: seq<Frame>, m: nat)
    requires AllFit(frames) && m <= 3 * |frames|
    ensures |Writes(frames)| == 3 * |frames|
    ensures Run(INITIAL, Text(CRLF) + Flatten(Writes(frames)[..m])).1 == Deliveries(frames[..m / 3])
  {
    hide Run, Text, Header, Writes, Fits, PartsText, Deliveries, Flatten, PartHead;
    var q, j := m / 3, m % 3;
    WritesPrefix(frames, q);
    var all := Writes(frames);
    var w := all[3 * q..];
    assert all[..m] == all[..3 * q] + w[..j];
    FlattenConcat(all[..3 * q], w[..j]);
    var f := if q < |frames| then frames[q] else Frame([], 0, 0);
    EmptyFits();
    if q < |frames| {
      WritesAt(frames, q);
      assert Fits(frames[q]);
    }
    BegunWrites(f, j, w);
    FrameBegun(f, Text(CRLF) + Flatten(w[..j]));
    var sent := frames[..q];
    WritesAreParts(sent);
    assert AllFit(sent);
    StreamRoundTripIff(sent);
    Shift(Text(CRLF), Flatten(Writes(sent)), PartsText(sent), Flatten(w[..j]));
    RunConcat(INITIAL, PartsText(sent), Text(CRLF) + Flatten(w[..j]));
    var images := Deliveries(sent);
    assert images + [] == images;
  }

  lemma EmptyFits()
    ensures Fits(Frame([], 0, 0))
  {
    BoundaryBytes();
  }

  lemma Shift(c: seq<Byte>, a: seq<Byte>, parts: seq<Byte>, b: seq<Byte>)
    requires c + a == parts + c
    ensures c + (a + b) == parts + (c + b)
  {
    assert c + (a + b) == (c + a) + b;
    assert parts + (c + b) == (parts + c) + b;
  }

  // ----- the response head -----

  const STATUS := "HTTP/1.0 200 OK\r\n"

  lemma StatusPlain()
    ensures var s := STATUS;
            && |s| == 17 && Plain(s[3]) && Plain(s[5]) && Plain(s[9]) && Plain(s[12])
            && s[13] == 'O' && s[14] == 'K' && s[15] == '\r' && s[16] == '\n'
  {
  }

  lemma StatusEnd(s: string)
    requires |s| == 17 && s[13] == 'O' && s[14] == 'K' && s[15] == '\r' && s[16] == '\n'
    ensures Hit(Text(s), 17)
  {
  }

  /** The status line passes for a whole header: "OK" has all the bits of CR LF. */
  lemma StatusHits(s: string)
    requires s == STATUS
    ensures forall n: nat :: n <= |s| ==> (Hit(Text(s), n) <==> n == |s|)
  {
    StatusPlain();
    hide STATUS, Plain, Hit, Text;
    forall n: nat | 4 <= n < 17
      ensures !Hit(Text(s), n)
    {
      Blocked(s, n, if n <= 7 then 3 else if n <= 9 then 5 else if n <= 12 then 9 else 12);
    }
    StatusEnd(s);
    ShortNoHit(s);
  }

  lemma ShortNoHit(s: string)
    ensures forall n: nat :: n < 4 && n <= |s| ==> !Hit(Text(s), n)
  {
  }

  /** So the content begins behind the status line; the head lines `r` behind it, if no boundary is in them, are
      delivered as the first image when the opening boundary arrives. */
  lemma HeadDelivers(r: seq<Byte>)
    requires Quiet(Text(BOUNDARY), r) && |r| >= 2 && r[|r| - 1] == 10 && |r| + 20 < BUFFER_SIZE
    ensures Run(INITIAL, Text(STATUS) + (r + Text(BOUNDARY))) == (INITIAL, [Image(r[..|r| - 2], |r| - 2)])
  {
    hide Run, Text, STATUS, Quiet, Matched;
    var head := Text(STATUS);
    assert head != [] by {
      StatusNotEmpty();
    }
    StatusHits(STATUS);
    TextLength(STATUS);
    HeaderEnds(head);
    var x := Run(INITIAL, head).0;
    OpeningDelivers(x, r);
    RunConcat(INITIAL, head, r + Text(BOUNDARY));
    var first := [Image(r[..|r| - 2], |r| - 2)];
    assert [] + first == first;
  }

  lemma StatusNotEmpty()
    ensures |STATUS| == 17
  {
    StatusPlain();
  }

  lemma OpeningDelivers(x: Extractor, r: seq<Byte>)
    requires x.Valid() && x.inContent && x.stored == [] && x.boundaryMatched == 0
    requires Quiet(Text(BOUNDARY), r) && |r| >= 2 && r[|r| - 1] == 10 && |r| + 20 < BUFFER_SIZE
    ensures Run(x, r + Text(BOUNDARY)) == (INITIAL, [Image(r[..|r| - 2], |r| - 2)])
  {
    hide Run, Text, Quiet, Matched;
    var b, n := Text(BOUNDARY), |r| - 1;
    BoundaryBytes();
    assert r == r[..n] + [10];
    QuietPrefix(b, r, n);
    ForeignByteResets(b, r[..n], 10);
    OccurrenceFound(b, r);
    var s := r + b[..19];
    assert s + [b[19]] == r + b;
    ContentEnds(x, s, b[19]);
    assert s[..|r| - 2] == r[..|r| - 2];
  }

  // ----- the head that is sent -----

  /** A text without two dashes side by side, and none at its end. */
  ghost predicate Piece(s: string)
  {
    s != "" && s[|s| - 1] != '-' && forall i | 0 <= i < |s| - 1 :: s[i] == '-' ==> s[i + 1] != '-'
  }

  lemma PieceConcat(a: string, b: string)
    requires Piece(a) && Piece(b)
    ensures Piece(a + b)
  {
    forall i | 0 <= i < |a + b| - 1 && (a + b)[i] == '-'
      ensures (a + b)[i + 1] != '-'
    {
      if i >= |a| {
        assert b[i - |a|] == '-';
      }
    }
  }

  /** The matcher gets no further than the first dash of the boundary in such a text. */
  lemma {:induction false} PieceQuiet(s: string, k: nat)
    requires Piece(s) && k <= |s|
    ensures Quiet(Text(BOUNDARY), Text(s)[..k]) && Matched(Text(BOUNDARY), Text(s)[..k]) <= 1
    ensures k > 0 && Matched(Text(BOUNDARY), Text(s)[..k]) == 1 ==> Text(s)[k - 1] == 45
  {
    hide Quiet, Matched, Text, Piece;
    BoundaryBytes();
    var b, t := Text(BOUNDARY), Text(s);
    if k == 0 {
      NothingMatched(b);
      assert t[..0] == [];
    } else {
      PieceQuiet(s, k - 1);
      assert t[..k] == t[..k - 1] + [t[k - 1]];
      MatchedSnoc(b, t[..k - 1], t[k - 1]);
      if k == 1 {
        NothingMatched(b);
        assert t[..0] == [];
      } else {
        NoTwoDashes(s, k - 1);
      }
    }
  }

  lemma NothingMatched(b: seq<Byte>)
    requires b != []
    ensures Quiet(b, []) && Matched(b, []) == 0
  {
  }

  lemma NoTwoDashes(s: string, i: nat)
    requires Piece(s) && 1 <= i < |s|
    ensures Text(s)[i - 1] == 45 ==> Text(s)[i] != 45
  {
    if Text(s)[i - 1] == 45 {
      assert s[i - 1] == '-';
    }
  }

  const ORIGIN_LINE := "Access-Control-Allow-Origin: *\r\n"
  const CLOSE_LINE := "Connection: close\r\n"
  const SERVER_LINE := "Server: MJPG-Streamer/0.2\r\n"
  const CACHE_LINE_1 := "Cache-Control: no-store, "
  const CACHE_LINE_2 := "no-cache, must-revalidate, "
  const CACHE_LINE_3 := "pre-check=0, post-check=0, max-age=0\r\n"
  const PRAGMA_LINE := "Pragma: no-cache\r\n"
  const EXPIRES_LINE := "Expires: Mon, 3 Jan 2000 12:34:56 GMT\r\n"
  const TYPE_LINE_1 := "Content-Type: multipart/x-mixed-replace;"
  const TYPE_LINE_2 := "boundary=boundarydonotcross\r\n"

  lemma Pieces1()
    ensures Piece(ORIGIN_LINE) && |ORIGIN_LINE| == 32
  {
  }

  lemma Pieces2()
    ensures Piece(CLOSE_LINE) && |CLOSE_LINE| == 19 && Piece(SERVER_LINE) && |SERVER_LINE| == 27
  {
  }

  lemma Pieces3()
    ensures Piece(CACHE_LINE_1) && |CACHE_LINE_1| == 25 && Piece(CACHE_LINE_2) && |CACHE_LINE_2| == 27
  {
  }

  lemma Pieces4()
    ensures Piece(CACHE_LINE_3) && |CACHE_LINE_3| == 38
  {
  }

  lemma Pieces5()
    ensures Piece(PRAGMA_LINE) && |PRAGMA_LINE| == 18
  {
  }

  lemma Pieces6()
    ensures Piece(EXPIRES_LINE) && |EXPIRES_LINE| == 39
  {
  }

  lemma Pieces7()
    ensures Piece(TYPE_LINE_1) && |TYPE_LINE_1| == 40
  {
  }

  lemma Pieces8()
    ensures Piece(TYPE_LINE_2) && |TYPE_LINE_2| == 29
  {
  }

  lemma Pieces9()
    ensures Piece(CRLF) && |CRLF| == 2 && CRLF[1] == '\n'
  {
  }

  /** Everything between the status line and the opening boundary. */
  function HeadLines(): string
  {
    ORIGIN_LINE + (CLOSE_LINE + (SERVER_LINE + (CACHE_LINE_1 + (CACHE_LINE_2 + (CACHE_LINE_3 +
    (PRAGMA_LINE + (EXPIRES_LINE + (TYPE_LINE_1 + (TYPE_LINE_2 + CRLF)))))))))
  }

  lemma HeadLinesPiece()
    ensures Piece(HeadLines()) && |HeadLines()| == 296 && HeadLines()[295] == '\n'
  {
    hide Piece, ORIGIN_LINE, CLOSE_LINE, SERVER_LINE, CACHE_LINE_1, CACHE_LINE_2, CACHE_LINE_3;
    hide PRAGMA_LINE, EXPIRES_LINE, TYPE_LINE_1, TYPE_LINE_2, CRLF;
    Pieces1();
    Pieces2();
    Pieces3();
    Pieces4();
    Pieces5();
    Pieces6();
    Pieces7();
    Pieces8();
    Pieces9();
    Ahead(TYPE_LINE_2, CRLF);
    Ahead(TYPE_LINE_1, TYPE_LINE_2 + CRLF);
    var s := TYPE_LINE_1 + (TYPE_LINE_2 + CRLF);
    Ahead(EXPIRES_LINE, s);
    Ahead(PRAGMA_LINE, EXPIRES_LINE + s);
    var t := PRAGMA_LINE + (EXPIRES_LINE + s);
    Ahead(CACHE_LINE_3, t);
    Ahead(CACHE_LINE_2, CACHE_LINE_3 + t);
    Ahead(CACHE_LINE_1, CACHE_LINE_2 + (CACHE_LINE_3 + t));
    var u := CACHE_LINE_1 + (CACHE_LINE_2 + (CACHE_LINE_3 + t));
    Ahead(SERVER_LINE, u);
    Ahead(CLOSE_LINE, SERVER_LINE + u);
    Ahead(ORIGIN_LINE, CLOSE_LINE + (SERVER_LINE + u));
  }

  lemma Ahead(a: string, b: string)
    requires Piece(a) && Piece(b)
    ensures Piece(a + b) && |a + b| == |a| + |b| && (a + b)[|a + b| - 1] == b[|b| - 1]
  {
    PieceConcat(a, b);
  }

  /** A whole response: the status line, the head lines, the opening boundary and its line end, then the first m
      writes of the stream. */
  function ResponseBytes(frames: seq<Frame>, m: nat): seq<Byte>
    requires m <= |Writes(frames)|
  {
    Text(STATUS) + (Text(HeadLines()) + Text(BOUNDARY)) + (Text(CRLF) + Flatten(Writes(frames)[..m]))
  }

  lemma HeadLinesText()
    ensures var r := Text(HeadLines());
            Quiet(Text(BOUNDARY), r) && |r| == 296 && r[295] == 10
  {
    hide HeadLines, Quiet, Matched;
    HeadLinesPiece();
    PieceQuiet(HeadLines(), 296);
    var r := Text(HeadLines());
    assert r[..296] == r;
  }

  /** So the round trip does not hold from the first byte of a response: the head lines, without their last line
      end, are delivered as an image of 294 bytes; behind it come exactly the frames that were completely
      written. */
  lemma ResponseDelivers(frames: seq<Frame>, m: nat)
    requires AllFit(frames) && m <= |Writes(frames)| == 3 * |frames|
    ensures |Text(HeadLines())| == 296
    ensures Run(INITIAL, ResponseBytes(frames, m)).1 ==
            [Image(Text(HeadLines())[..294], 294)] + Deliveries(frames[..m / 3])
  {
    hide Run, Text, STATUS, HeadLines, Quiet, Matched, Writes, Flatten, Deliveries, AllFit;
    HeadLinesText();
    HeadDelivers(Text(HeadLines()));
    WrittenIsDelivered(frames, m);
    RunConcat(INITIAL, Text(STATUS) + (Text(HeadLines()) + Text(BOUNDARY)), Text(CRLF) + Flatten(Writes(frames)[..m]));
  }

  // ----- the receiving program -----

  /** The loop over what recv returns, piece by piece. */
  method Receive(state: State, chunks: seq<seq<Byte>>)
    requires state.Valid()
    modifies state, state.buffer
    ensures state.Valid()
    ensures var r := Run(old(state.Parser()), Flatten(chunks));
            state.Parser() == r.0 && state.received == old(state.received) + r.1
  {
    hide Run, RunChunks;
    ghost var x, before := state.Parser(), state.received;
    var i := 0;
    RunChunksNothing(x, chunks);
    while i < |chunks|
      invariant 0 <= i <= |chunks| && state.Valid()
      invariant state.Parser() == Run(x, Flatten(chunks[..i])).0
      invariant state.received == before + Run(x, Flatten(chunks[..i])).1
    {
      FlattenSnoc(chunks, i);
      RunConcat(x, Flatten(chunks[..i]), chunks[i]);
      ghost var a, b := Run(x, Flatten(chunks[..i])).1, Run(state.Parser(), chunks[i]).1;
      state.ExtractData(chunks[i], |chunks[i]|);
      assert chunks[i][..|chunks[i]|] == chunks[i];
      assert before + (a + b) == before + a + b;
      i := i + 1;
    }
    assert chunks[..i] == chunks;
  }

  lemma RunChunksNothing(x: Extractor, chunks: seq<seq<Byte>>)
    requires x.Valid()
    ensures Run(x, Flatten(chunks[..0])) == (x, [])
  {
  }

  /** From send_stream to the callbacks: behind an opening boundary, whatever the number of writes that succeed and
      however the bytes are cut up on their way, the receiver is given exactly the frames completely written. */
  method Relay(frames: seq<Frame>, good: nat, state: State, cuts: seq<nat>) returns (sent: seq<Byte>)
    requires AllFit(frames) && state.Valid() && state.Parser() == INITIAL
    modifies state, state.buffer
    ensures state.Valid()
    ensures var m := if good < 3 * |frames| then good else 3 * |frames|;
            state.received == old(state.received) + Deliveries(frames[..m / 3])
  {
    hide Run, Text, Writes, Flatten, Deliveries, AllFit;
    sent := SendStream(frames, good);
    ghost var m := if good < 3 * |frames| then good else 3 * |frames|;
    WritesLength(frames);
    WrittenIsDelivered(frames, m);
    var bytes := Text(CRLF) + sent;
    var chunks := Cut(bytes, cuts);
    CutJoins(bytes, cuts);
    Receive(state, chunks);
  }

  /** The pieces of s of the lengths given, and what is left. */
  function Cut(s: seq<Byte>, cuts: seq<nat>): seq<seq<Byte>>
    decreases |cuts|
  {
    if cuts == [] then [s]
    else
      var n := if cuts[0] < |s| then cuts[0] else |s|;
      [s[..n]] + Cut(s[n..], cuts[1..])
  }

  lemma {:induction false} CutJoins(s: seq<Byte>, cuts: seq<nat>)
    ensures Flatten(Cut(s, cuts)) == s
    decreases |cuts|
  {
    if cuts == [] {
      assert [s][1..] == [] && s + [] == s;
      assert Flatten([s]) == s + Flatten([]);
    } else {
      var n := if cuts[0] < |s| then cuts[0] else |s|;
      CutJoins(s[n..], cuts[1..]);
      assert Cut(s, cuts)[1..] == Cut(s[n..], cuts[1..]);
      assert s == s[..n] + s[n..];
    }
  }
}
