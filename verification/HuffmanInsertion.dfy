/** is_huffman and memcpy_picture (v4l2uvc.c): a camera that leaves the Huffman tables out gets them put
    in while its picture is copied. */
module HuffmanInsertion {
  import opened Words
  import opened Memory
  import opened StandardTables

  // ----- markers -----

  const SOF0: Byte := 0xc0
  const DHT: Byte := 0xc4
  const SOS: Byte := 0xda
  const LIMIT: nat := 2048

  predicate Marker(s: seq<Byte>, p: nat, code: Byte)
    requires p + 1 < |s|
  {
    s[p] == 0xff && s[p + 1] == code
  }

  /** How far the two searches can read; the buffer is required to reach as far. */
  predicate Readable(s: seq<Byte>, size: nat)
  {
    size + 2 <= |s| && LIMIT + 3 <= |s|
  }

  predicate NoMarker(s: seq<Byte>, p: nat, code: Byte)
    requires p < |s|
  {
    forall q | 0 <= q < p :: !Marker(s, q, code)
  }

  /** A DHT marker starts within the first LIMIT + 1 bytes, and no SOS marker before it. */
  ghost predicate HasTable(s: seq<Byte>)
    requires LIMIT + 3 <= |s|
  {
    exists p | 0 <= p <= LIMIT :: Marker(s, p, DHT) && NoMarker(s, p, SOS)
  }

  /** The first k is the start of the first SOF0 marker, or `size` when none starts in the picture. */
  ghost predicate FirstSof0(s: seq<Byte>, size: nat, k: nat)
    requires size + 2 <= |s|
  {
    k <= size && NoMarker(s, k, SOF0) && (k < size ==> Marker(s, k, SOF0))
  }

  function Sof0From(s: seq<Byte>, size: nat, p: nat): (k: nat)
    requires p <= size && size + 2 <= |s|
    ensures p <= k <= size
    decreases size - p
  {
    if p < size && !Marker(s, p, SOF0) then Sof0From(s, size, p + 1) else p
  }

  lemma {:induction false} Sof0FromIsFirst(s: seq<Byte>, size: nat, p: nat)
    requires p <= size && size + 2 <= |s| && NoMarker(s, p, SOF0)
    ensures FirstSof0(s, size, Sof0From(s, size, p))
    decreases size - p
  {
    if p < size && !Marker(s, p, SOF0) {
      Sof0FromIsFirst(s, size, p + 1);
    }
  }

  lemma {:induction false} FirstSof0IsFound(s: seq<Byte>, size: nat, k: nat, p: nat)
    requires size + 2 <= |s| && FirstSof0(s, size, k) && p <= k
    ensures Sof0From(s, size, p) == k
    decreases k - p
  {
    if p < k {
      FirstSof0IsFound(s, size, k, p + 1);
    }
  }

  /** The segment to insert: 420 bytes, a DHT marker first. */
  predicate IsDht(dht: seq<Byte>)
  {
    |dht| == 420 && Marker(dht, 0, DHT)
  }

  lemma DhtDataIsDht()
    ensures IsDht(DhtData())
  {
    hide DhtBody;
    assert DhtData()[..4] == DhtHead();
  }

  /** What comes out for a picture of `size` bytes at the start of s. */
  ghost function Copied(s: seq<Byte>, size: nat, dht: seq<Byte>): seq<Byte>
    requires Readable(s, size)
  {
    var k := Sof0From(s, size, 0);
    if HasTable(s) then s[..size]
    else if k == size then []
    else s[..k] + dht + s[k..size]
  }

  /** The output is the picture, or nothing, or the picture with the table right before its first SOF0. */
  lemma ThreeOutcomes(s: seq<Byte>, size: nat, dht: seq<Byte>)
    requires Readable(s, size)
    ensures HasTable(s) ==> Copied(s, size, dht) == s[..size]
    ensures !HasTable(s) && NoMarker(s, size, SOF0) ==> Copied(s, size, dht) == []
    ensures !HasTable(s) && !NoMarker(s, size, SOF0) ==>
              exists k | 0 <= k < size :: FirstSof0(s, size, k) && Copied(s, size, dht) == s[..k] + dht + s[k..size]
  {
    hide HasTable;
    var k := Sof0From(s, size, 0);
    Sof0FromIsFirst(s, size, 0);
    assert FirstSof0(s, size, k);
    if !HasTable(s) && !NoMarker(s, size, SOF0) && k == size {
      assert false;
    }
  }

  // ----- the second pass -----

  /** t starts with the output of the first pass over s. */
  ghost predicate Holds(t: seq<Byte>, s: seq<Byte>, size: nat, dht: seq<Byte>)
    requires Readable(s, size)
  {
    var r := Copied(s, size, dht);
    Readable(t, |r|) && t[..|r|] == r
  }

  lemma SameMarkers(s: seq<Byte>, t: seq<Byte>, n: nat, p: nat, code: Byte)
    requires p + 1 < n <= |s| && n <= |t| && s[..n] == t[..n]
    ensures Marker(s, p, code) == Marker(t, p, code)
  {
    assert s[p] == s[..n][p] && s[p + 1] == s[..n][p + 1];
  }

  /** Up to the insertion point, and the FF that stands there in both, nothing changes. */
  lemma InsertedHasTable(s: seq<Byte>, t: seq<Byte>, k: nat)
    requires LIMIT + 3 <= |s| && LIMIT + 3 <= |t| && k + 1 < |s| && k + 1 < |t|
    requires !HasTable(s) && Marker(s, k, SOF0) && Marker(t, k, DHT) && s[..k + 1] == t[..k + 1]
    ensures HasTable(t) <==> k <= LIMIT && NoMarker(s, k, SOS)
  {
    forall p, code | 0 <= p < k
      ensures Marker(s, p, code) == Marker(t, p, code)
    {
      SameMarkers(s, t, k + 1, p, code);
    }
    forall p | 0 <= p <= k
      ensures NoMarker(s, p, SOS) == NoMarker(t, p, SOS)
    {
    }
    forall p | 0 <= p < k && p <= LIMIT
      ensures !(Marker(t, p, DHT) && NoMarker(t, p, SOS))
    {
      assert !(Marker(s, p, DHT) && NoMarker(s, p, SOS));
    }
  }

  /** Running the copy over its own output changes nothing exactly when the picture was left alone because
      of its table, or nothing came out, or the first SOF0 marker starts within the reach of the test and
      no SOS marker before it. */
  lemma SecondPass(s: seq<Byte>, size: nat, t: seq<Byte>, k: nat, dht: seq<Byte>)
    requires IsDht(dht) && Readable(s, size) && Holds(t, s, size, dht)
    requires !HasTable(s) && FirstSof0(s, size, k) && k < size
    requires Readable(t, size + 420)
    ensures Copied(t, size + 420, dht) == t[..size + 420] <==> k <= LIMIT && NoMarker(s, k, SOS)
  {
    hide HasTable;
    FirstSof0IsFound(s, size, k, 0);
    var r := s[..k] + dht + s[k..size];
    assert t[..|r|] == r && |r| == size + 420;
    assert t[k] == r[k] == 0xff && t[k + 1] == r[k + 1] == 0xc4;
    assert t[..k + 1] == r[..k + 1] == s[..k + 1];
    InsertedHasTable(s, t, k);
    if !HasTable(t) {
      assert |Copied(t, size + 420, dht)| != size + 420;
    }
  }

  /** A picture with a table is left alone both times, if the table's marker lies within the picture. */
  lemma SecondPassUnchanged(s: seq<Byte>, size: nat, t: seq<Byte>, p: nat, dht: seq<Byte>)
    requires Readable(s, size) && Holds(t, s, size, dht)
    requires p <= LIMIT && p + 1 < size && Marker(s, p, DHT) && NoMarker(s, p, SOS)
    ensures Copied(t, size, dht) == t[..size] == s[..size]
  {
    assert HasTable(s);
    forall q, code | 0 <= q <= p
      ensures Marker(s, q, code) == Marker(t, q, code)
    {
      SameMarkers(s, t, size, q, code);
    }
    assert Marker(t, p, DHT) && NoMarker(t, p, SOS);
  }

  // ----- the program -----

  method IsHuffman(buf: array<Byte>) returns (yes: bool)
    requires LIMIT + 3 <= buf.Length
    ensures yes == HasTable(buf[..])
  {
    var i, pt := 0, 0;
    ghost var s := buf[..];
    while !(buf[pt] == 0xff && buf[pt + 1] == SOS)
      invariant i == pt <= LIMIT + 1
      invariant NoMarker(s, pt, SOS) && NoMarker(s, pt, DHT)
      decreases LIMIT + 1 - pt
    {
      i := i + 1;
      if i - 1 > LIMIT {
        return false;
      }
      if buf[pt] == 0xff && buf[pt + 1] == DHT {
        assert Marker(s, pt, DHT);
        return true;
      }
      pt := pt + 1;
    }
    assert Marker(s, pt, SOS);
    return false;
  }

  /** The picture up to `sizeIn`, the segment, the rest of the picture. */
  method CopyAround(out: array<Byte>, buf: array<Byte>, sizeIn: nat, size: nat, dht: seq<Byte>) returns (pos: nat)
    requires out != buf && sizeIn <= size <= buf.Length && size + |dht| <= out.Length
    modifies out
    ensures pos == size + |dht|
    ensures out[..pos] == buf[..sizeIn] + dht + buf[sizeIn..size] && out[pos..] == old(out[..])[pos..]
  {
    hide Overwrite;
    ghost var s, was := buf[..], out[..];
    pos := 0;
    Copy(out, pos, buf[..sizeIn]);
    pos := pos + sizeIn;
    ghost var before := out[..];
    Copy(out, pos, dht);
    pos := pos + |dht|;
    TailsAgree(before, was, sizeIn, pos);
    assert out[..pos] == s[..sizeIn] + dht && out[pos..] == was[pos..];
    ghost var mid := out[..];
    Copy(out, pos, buf[sizeIn..size]);
    TailsAgree(mid, was, pos, pos + (size - sizeIn));
    pos := pos + size - sizeIn;
  }

  /** `dht` is dht_data. */
  method MemCpyPicture(out: array<Byte>, buf: array<Byte>, size: nat, dht: seq<Byte>) returns (pos: nat)
    requires out != buf && IsDht(dht)
    requires Readable(buf[..], size) && |Copied(buf[..], size, dht)| <= out.Length
    modifies out
    ensures pos == |Copied(buf[..], size, dht)|
    ensures out[..pos] == Copied(buf[..], size, dht) && out[pos..] == old(out[..])[pos..]
  {
    hide HasTable, IsDht, NoMarker, Overwrite;
    ghost var s := buf[..];
    pos := 0;
    var huffman := IsHuffman(buf);
    if !huffman {
      var cur := 0;
      while !(buf[cur] == 0xff && buf[cur + 1] == SOF0) && cur < size
        invariant cur <= size && Sof0From(s, size, 0) == Sof0From(s, size, cur)
      {
        cur := cur + 1;
      }
      if cur >= size {
        return;
      }
      assert s[..cur] == buf[..cur] && s[cur..size] == buf[cur..size];
      pos := CopyAround(out, buf, cur, size, dht);
    } else {
      Copy(out, 0, buf[..size]);
      pos := pos + size;
      assert s[..size] == buf[..size];
    }
  }
}
