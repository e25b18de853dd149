/** The multipart extractor of input_http (mjpg-proxy.c). */
module Proxy {
  import opened Words
  import opened Wrappers
  import opened Misc

  const BUFFER_SIZE: nat := 1024 * 256
  const BOUNDARY: string := "--boundarydonotcross"
  const CONTENT_LENGTH: string := "Content-Length:"

  /** What the callback receives: the length, which may be negative, and as many bytes. */
  datatype Image = Image(data: seq<Byte>, length: int)

  /** The parser's state; `stored` are the first `length` bytes of the buffer. */
  datatype Extractor =
    Extractor(inContent: bool, lastFour: Word, stored: seq<Byte>, lengthMatched: nat, boundaryMatched: nat)
  {
    predicate Valid()
    {
      lengthMatched < |Text(CONTENT_LENGTH)| && boundaryMatched < |Text(BOUNDARY)| && |stored| < BUFFER_SIZE
    }
  }

  const INITIAL := Extractor(false, 0, [], 0, 0)

  /** One turn of the loop: the new state and what the callback was given. */
  function Step(x: Extractor, c: Byte): (r: (Extractor, seq<Image>))
    requires x.Valid()
    ensures r.0.Valid()
  {
    if !x.inContent then
      PushIs(x.lastFour, c);
      var y := x.(lastFour := PushByte(x.lastFour, c));
      if IsCrlfCrlf(y.lastFour) then (y.(inContent := true), [])
      else if IsCrlf(y.lastFour) then (y.(lengthMatched := 0), [])
      else
        var m := Compare(Text(CONTENT_LENGTH), x.lengthMatched, c);
        (y.(lengthMatched := if m == |CONTENT_LENGTH| then 0 else m), [])
    else if |x.stored| >= BUFFER_SIZE - 1 then (x, [])
    else
      var stored := x.stored + [c];
      var m := Compare(Text(BOUNDARY), x.boundaryMatched, c);
      if m == |BOUNDARY| then
        var length := |stored| - (|BOUNDARY| + 2);
        (INITIAL, [Image(stored[..if length < 0 then 0 else length], length)])
      else (x.(stored := stored, boundaryMatched := m), [])
  }

  function Run(x: Extractor, s: seq<Byte>): (r: (Extractor, seq<Image>))
    requires x.Valid()
    ensures r.0.Valid()
    decreases |s|
  {
    if s == [] then (x, [])
    else
      var (y, a) := Step(x, s[0]);
      var (z, b) := Run(y, s[1..]);
      (z, a + b)
  }

  /** Cutting the input into pieces changes neither the state nor the callbacks. */
  lemma {:induction false} RunConcat(x: Extractor, s: seq<Byte>, t: seq<Byte>)
    requires x.Valid()
    ensures Run(x, s + t) == (Run(Run(x, s).0, t).0, Run(x, s).1 + Run(Run(x, s).0, t).1)
    decreases |s|
  {
    hide Step;
    if s == [] {
      assert s + t == t && [] + Run(x, t).1 == Run(x, t).1;
    } else {
      assert (s + t)[0] == s[0] && (s + t)[1..] == s[1..] + t;
      var (y, a) := Step(x, s[0]);
      RunConcat(y, s[1..], t);
      var (z, b) := Run(y, s[1..]);
      assert a + (b + Run(z, t).1) == a + b + Run(z, t).1;
    }
  }

  /** Bytes received in any pieces. */
  function RunChunks(x: Extractor, chunks: seq<seq<Byte>>): (r: (Extractor, seq<Image>))
    requires x.Valid()
    ensures r.0.Valid()
    decreases |chunks|
  {
    if chunks == [] then (x, [])
    else
      var (y, a) := Run(x, chunks[0]);
      var (z, b) := RunChunks(y, chunks[1..]);
      (z, a + b)
  }

  lemma {:induction false} ChunksDoNotMatter(x: Extractor, chunks: seq<seq<Byte>>)
    requires x.Valid()
    ensures RunChunks(x, chunks) == Run(x, Flatten(chunks))
    decreases |chunks|
  {
    if chunks != [] {
      RunConcat(x, chunks[0], Flatten(chunks[1..]));
      ChunksDoNotMatter(Run(x, chunks[0]).0, chunks[1..]);
    }
  }

  lemma RunNothing(x: Extractor)
    requires x.Valid()
    ensures Run(x, []) == (x, [])
  {
  }

  /** The last byte comes after the others. */
  lemma RunSnoc(x: Extractor, s: seq<Byte>)
    requires x.Valid() && s != []
    ensures var r := Run(x, s[..|s| - 1]);
            Run(x, s) == (Step(r.0, s[|s| - 1]).0, r.1 + Step(r.0, s[|s| - 1]).1)
  {
    hide Run, Step, Extractor.Valid;
    var t, c := s[..|s| - 1], s[|s| - 1];
    assert s == t + [c];
    RunConcat(x, t, [c]);
    RunOne(Run(x, t).0, c);
  }

  lemma RunOne(x: Extractor, c: Byte)
    requires x.Valid()
    ensures Run(x, [c]) == Step(x, c)
  {
    hide Step;
    var (y, a) := Step(x, c);
    assert [c][1..] == [] && a + [] == a;
    RunNothing(y);
  }

  // ----- in a header -----

  /** Until four bytes pass for CRLFCRLF, the extractor stays in the header and calls nobody. */
  lemma {:induction false} HeaderRun(s: seq<Byte>)
    requires forall n :: 0 <= n <= |s| ==> !Hit(s, n)
    ensures var (x, out) := Run(INITIAL, s);
            !x.inContent && out == [] && x.lastFour == LastFour(s) && x.stored == [] && x.boundaryMatched == 0
  {
    hide Run, IsCrlf, IsCrlfCrlf, PushByte;
    if s == [] {
      RunNothing(INITIAL);
    } else {
      var t := s[..|s| - 1];
      forall n: nat | n <= |t| ensures !Hit(t, n) {
        assert !Hit(s, n);
      }
      HeaderRun(t);
      RunSnoc(INITIAL, s);
      CrlfCrlfIsHit(s);
    }
  }

  /** The content begins after the first bytes that pass for CRLFCRLF, and not before. */
  lemma HeaderEnds(s: seq<Byte>)
    requires s != [] && forall n :: 0 <= n <= |s| ==> (Hit(s, n) <==> n == |s|)
    ensures var (x, out) := Run(INITIAL, s);
            x.inContent && out == [] && x.stored == [] && x.boundaryMatched == 0
  {
    hide Run, IsCrlf, IsCrlfCrlf, PushByte;
    var t := s[..|s| - 1];
    forall n: nat | n <= |t| ensures !Hit(t, n) {
      assert !Hit(s, n);
    }
    HeaderRun(t);
    RunSnoc(INITIAL, s);
    CrlfCrlfIsHit(s);
  }

  // ----- in a content -----

  lemma MatchedNothing(pattern: seq<Byte>)
    ensures Quiet(pattern, []) ==> Matched(pattern, []) == 0
  {
  }

  /** A byte that is stored and does not complete the boundary. */
  lemma ContentStep(x: Extractor, c: Byte)
    requires x.Valid() && x.inContent && |x.stored| + 1 < BUFFER_SIZE
    requires x.boundaryMatched < |Text(BOUNDARY)| && Compare(Text(BOUNDARY), x.boundaryMatched, c) < |Text(BOUNDARY)|
    ensures Step(x, c) ==
            (x.(stored := x.stored + [c], boundaryMatched := Compare(Text(BOUNDARY), x.boundaryMatched, c)), [])
  {
    hide Compare;
  }

  /** While the matcher keeps quiet and there is room, content bytes are stored. */
  lemma {:induction false} ContentRun(x: Extractor, s: seq<Byte>)
    requires x.Valid() && x.inContent && x.stored == [] && x.boundaryMatched == 0
    requires Quiet(Text(BOUNDARY), s) && |s| < BUFFER_SIZE
    ensures var (y, out) := Run(x, s);
            y == x.(stored := s, boundaryMatched := Matched(Text(BOUNDARY), s)) && out == []
  {
    hide Run, Step, Quiet, Matched, Text;
    if s == [] {
      RunNothing(x);
      MatchedNothing(Text(BOUNDARY));
    } else {
      var t, c := s[..|s| - 1], s[|s| - 1];
      assert s == t + [c];
      QuietPrefix(Text(BOUNDARY), s, |t|);
      ContentRun(x, t);
      RunSnoc(x, s);
      MatchedSnoc(Text(BOUNDARY), t, c);
      ContentStep(x.(stored := t, boundaryMatched := Matched(Text(BOUNDARY), t)), c);
    }
  }

  /** The byte that completes the boundary delivers what was stored before the boundary and the two
      bytes in front of it. */
  lemma ContentEnds(x: Extractor, s: seq<Byte>, c: Byte)
    requires x.Valid() && x.inContent && x.stored == [] && x.boundaryMatched == 0
    requires Quiet(Text(BOUNDARY), s) && !Quiet(Text(BOUNDARY), s + [c]) && |s| + 1 < BUFFER_SIZE
    ensures |s| >= 19
    ensures Run(x, s + [c]) == (INITIAL, [Image(s[..if |s| < 21 then 0 else |s| - 21], |s| - 21)])
  {
    hide Run, Quiet, Matched;
    ContentRun(x, s);
    assert (s + [c])[..|s|] == s;
    RunSnoc(x, s + [c]);
    HitIsOccurrence(Text(BOUNDARY), s, c);
    MatchedSnoc(Text(BOUNDARY), s, c);
    var n := if |s| < 21 then 0 else |s| - 21;
    assert (s + [c])[..n] == s[..n];
    assert forall out: seq<Image> :: [] + out == out;
  }

  /** A full buffer stores nothing any more, so no boundary is ever seen again. */
  lemma {:induction false} Stuck(x: Extractor, s: seq<Byte>)
    requires x.Valid() && x.inContent && |x.stored| == BUFFER_SIZE - 1
    ensures Run(x, s) == (x, [])
    decreases |s|
  {
    if s != [] {
      Stuck(x, s[1..]);
      assert Step(x, s[0]) == (x, []);
      var none: seq<Image> := [];
      assert none + none == none;
    }
  }

  // ----- the program -----

  class State {
    const buffer: array<Byte>
    var length: int
    var part: int
    var lastFourBytes: Word
    var contentlength: nat
    var boundary: nat
    /** What `on_image_received` was called with. */
    var received: seq<Image>

    const HEADER := 1
    const CONTENT := 0

    ghost predicate Valid()
      reads this
    {
      buffer.Length == BUFFER_SIZE && 0 <= length < BUFFER_SIZE && (part == HEADER || part == CONTENT)
      && contentlength < |CONTENT_LENGTH| && boundary < |BOUNDARY|
    }

    ghost function Parser(): (x: Extractor)
      reads this, buffer
      requires Valid()
      ensures x.Valid()
    {
      Extractor(part == CONTENT, lastFourBytes, buffer[..length], contentlength, boundary)
    }

    /** init_extractor_state */
    method Init()
      modifies this`length, this`part, this`lastFourBytes, this`contentlength, this`boundary
      requires buffer.Length == BUFFER_SIZE
      ensures Valid() && Parser() == INITIAL
    {
      length, part, lastFourBytes, contentlength, boundary := 0, HEADER, 0, 0, 0;
    }

    /** extract_data on `bytes`; `seen` is how many turns the loop makes before it finds `should_stop`
        set (at least as many as there are bytes, when it is not). */
    method ExtractData(bytes: seq<Byte>, seen: nat)
      requires Valid()
      modifies this, buffer
      ensures Valid()
      ensures var taken := bytes[..if seen < |bytes| then seen else |bytes|];
              Parser() == Run(old(Parser()), taken).0 && received == old(received) + Run(old(Parser()), taken).1
    {
      hide IsCrlf, IsCrlfCrlf, PushByte, Run;
      var i := 0;
      RunNothing(Parser());
      while i < |bytes| && i < seen
        invariant Valid() && 0 <= i <= |bytes| && i <= seen
        invariant Parser() == Run(old(Parser()), bytes[..i]).0
        invariant received == old(received) + Run(old(Parser()), bytes[..i]).1
      {
        ghost var x := Parser();
        ghost var before := received;
        Turn(bytes[i]);
        assert bytes[..i + 1] == bytes[..i] + [bytes[i]];
        assert bytes[..i + 1][..i] == bytes[..i];
        RunSnoc(old(Parser()), bytes[..i + 1]);
        i := i + 1;
      }
    }

    /** The body of the loop. */
    method Turn(c: Byte)
      requires Valid()
      modifies this, buffer
      ensures Valid()
      ensures Parser() == Step(old(Parser()), c).0 && received == old(received) + Step(old(Parser()), c).1
    {
      hide IsCrlf, IsCrlfCrlf, PushByte;
      if part == HEADER {
        PushIs(lastFourBytes, c);
        lastFourBytes := PushByte(lastFourBytes, c);
        if IsCrlfCrlf(lastFourBytes) {
          part := CONTENT;
        } else if IsCrlf(lastFourBytes) {
          contentlength := 0;
        } else {
          contentlength := Compare(Text(CONTENT_LENGTH), contentlength, c);
          if contentlength == |CONTENT_LENGTH| {
            contentlength := 0;
          }
        }
      } else if length >= BUFFER_SIZE - 1 {
      } else {
        buffer[length] := c;
        length := length + 1;
        assert buffer[..length] == old(buffer[..length]) + [c];
        boundary := Compare(Text(BOUNDARY), boundary, c);
        if boundary == |BOUNDARY| {
          length := length - (|BOUNDARY| + 2);
          var n := if length < 0 then 0 else length;
          assert buffer[..n] == (old(buffer[..length]) + [c])[..n];
          received := received + [Image(buffer[..n], length)];
          Init();
        }
      }
    }
  }
}
