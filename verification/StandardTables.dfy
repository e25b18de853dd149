/** The segment with the four typical tables of ITU-T T.81, Annex K.3, that huffman.h holds as `dht_data`. */
module StandardTables {
  import opened Words
  import opened Wrappers
  import opened HuffmanTable

  function DcLumaCounts(): (s: seq<Byte>)
    ensures |s| == 16
  {
    [0, 1, 5, 1, 1, 1, 1, 1, 1, 0, 0, 0, 0, 0, 0, 0]
  }

  function DcLumaValues(): (s: seq<Byte>)
    ensures |s| == 12
  {
    [0x00, 0x01, 0x02, 0x03, 0x04, 0x05, 0x06, 0x07, 0x08, 0x09, 0x0a, 0x0b]
  }

  function DcChromaCounts(): (s: seq<Byte>)
    ensures |s| == 16
  {
    [0, 3, 1, 1, 1, 1, 1, 1, 1, 1, 1, 0, 0, 0, 0, 0]
  }

  function DcChromaValues(): (s: seq<Byte>)
    ensures |s| == 12
  {
    [0x00, 0x01, 0x02, 0x03, 0x04, 0x05, 0x06, 0x07, 0x08, 0x09, 0x0a, 0x0b]
  }

  function AcLumaCounts(): (s: seq<Byte>)
    ensures |s| == 16
  {
    [0, 2, 1, 3, 3, 2, 4, 3, 5, 5, 4, 4, 0, 0, 1, 125]
  }

  function AcLumaA(): (s: seq<Byte>)
    ensures |s| == 27
  {
    [0x01, 0x02, 0x03, 0x00, 0x04, 0x11, 0x05, 0x12, 0x21, 0x31, 0x41, 0x06, 0x13, 0x51, 0x61, 0x07,
     0x22, 0x71, 0x14, 0x32, 0x81, 0x91, 0xa1, 0x08, 0x23, 0x42, 0xb1]
  }

  function AcLumaB(): (s: seq<Byte>)
    ensures |s| == 27
  {
    [0xc1, 0x15, 0x52, 0xd1, 0xf0, 0x24, 0x33, 0x62, 0x72, 0x82, 0x09, 0x0a, 0x16, 0x17, 0x18, 0x19,
     0x1a, 0x25, 0x26, 0x27, 0x28, 0x29, 0x2a, 0x34, 0x35, 0x36, 0x37]
  }

  function AcLumaC(): (s: seq<Byte>)
    ensures |s| == 27
  {
    [0x38, 0x39, 0x3a, 0x43, 0x44, 0x45, 0x46, 0x47, 0x48, 0x49, 0x4a, 0x53, 0x54, 0x55, 0x56, 0x57,
     0x58, 0x59, 0x5a, 0x63, 0x64, 0x65, 0x66, 0x67, 0x68, 0x69, 0x6a]
  }

  function AcLumaD(): (s: seq<Byte>)
    ensures |s| == 27
  {
    [0x73, 0x74, 0x75, 0x76, 0x77, 0x78, 0x79, 0x7a, 0x83, 0x84, 0x85, 0x86, 0x87, 0x88, 0x89, 0x8a,
     0x92, 0x93, 0x94, 0x95, 0x96, 0x97, 0x98, 0x99, 0x9a, 0xa2, 0xa3]
  }

  function AcLumaE(): (s: seq<Byte>)
    ensures |s| == 27
  {
    [0xa4, 0xa5, 0xa6, 0xa7, 0xa8, 0xa9, 0xaa, 0xb2, 0xb3, 0xb4, 0xb5, 0xb6, 0xb7, 0xb8, 0xb9, 0xba,
     0xc2, 0xc3, 0xc4, 0xc5, 0xc6, 0xc7, 0xc8, 0xc9, 0xca, 0xd2, 0xd3]
  }

  function AcLumaF(): (s: seq<Byte>)
    ensures |s| == 27
  {
    [0xd4, 0xd5, 0xd6, 0xd7, 0xd8, 0xd9, 0xda, 0xe1, 0xe2, 0xe3, 0xe4, 0xe5, 0xe6, 0xe7, 0xe8, 0xe9,
     0xea, 0xf1, 0xf2, 0xf3, 0xf4, 0xf5, 0xf6, 0xf7, 0xf8, 0xf9, 0xfa]
  }

  function AcLumaValues(): (s: seq<Byte>)
    ensures |s| == 162
  {
    AcLumaA() + AcLumaB() + AcLumaC() + AcLumaD() + AcLumaE() + AcLumaF()
  }

  function AcChromaCounts(): (s: seq<Byte>)
    ensures |s| == 16
  {
    [0, 2, 1, 2, 4, 4, 3, 4, 7, 5, 4, 4, 0, 1, 2, 119]
  }

  function AcChromaA(): (s: seq<Byte>)
    ensures |s| == 27
  {
    [0x00, 0x01, 0x02, 0x03, 0x11, 0x04, 0x05, 0x21, 0x31, 0x06, 0x12, 0x41, 0x51, 0x07, 0x61, 0x71,
     0x13, 0x22, 0x32, 0x81, 0x08, 0x14, 0x42, 0x91, 0xa1, 0xb1, 0xc1]
  }

  function AcChromaB(): (s: seq<Byte>)
    ensures |s| == 27
  {
    [0x09, 0x23, 0x33, 0x52, 0xf0, 0x15, 0x62, 0x72, 0xd1, 0x0a, 0x16, 0x24, 0x34, 0xe1, 0x25, 0xf1,
     0x17, 0x18, 0x19, 0x1a, 0x26, 0x27, 0x28, 0x29, 0x2a, 0x35, 0x36]
  }

  function AcChromaC(): (s: seq<Byte>)
    ensures |s| == 27
  {
    [0x37, 0x38, 0x39, 0x3a, 0x43, 0x44, 0x45, 0x46, 0x47, 0x48, 0x49, 0x4a, 0x53, 0x54, 0x55, 0x56,
     0x57, 0x58, 0x59, 0x5a, 0x63, 0x64, 0x65, 0x66, 0x67, 0x68, 0x69]
  }

  function AcChromaD(): (s: seq<Byte>)
    ensures |s| == 27
  {
    [0x6a, 0x73, 0x74, 0x75, 0x76, 0x77, 0x78, 0x79, 0x7a, 0x82, 0x83, 0x84, 0x85, 0x86, 0x87, 0x88,
     0x89, 0x8a, 0x92, 0x93, 0x94, 0x95, 0x96, 0x97, 0x98, 0x99, 0x9a]
  }

  function AcChromaE(): (s: seq<Byte>)
    ensures |s| == 27
  {
    [0xa2, 0xa3, 0xa4, 0xa5, 0xa6, 0xa7, 0xa8, 0xa9, 0xaa, 0xb2, 0xb3, 0xb4, 0xb5, 0xb6, 0xb7, 0xb8,
     0xb9, 0xba, 0xc2, 0xc3, 0xc4, 0xc5, 0xc6, 0xc7, 0xc8, 0xc9, 0xca]
  }

  function AcChromaF(): (s: seq<Byte>)
    ensures |s| == 27
  {
    [0xd2, 0xd3, 0xd4, 0xd5, 0xd6, 0xd7, 0xd8, 0xd9, 0xda, 0xe2, 0xe3, 0xe4, 0xe5, 0xe6, 0xe7, 0xe8,
     0xe9, 0xea, 0xf2, 0xf3, 0xf4, 0xf5, 0xf6, 0xf7, 0xf8, 0xf9, 0xfa]
  }

  function AcChromaValues(): (s: seq<Byte>)
    ensures |s| == 162
  {
    AcChromaA() + AcChromaB() + AcChromaC() + AcChromaD() + AcChromaE() + AcChromaF()
  }

  function Listing(slot: Byte, counts: seq<Byte>, values: seq<Byte>): (s: seq<Byte>)
    ensures |s| == 1 + |counts| + |values|
  {
    [slot] + counts + values
  }

  /** The four listings of the segment, after its marker and length. */
  function DhtBody(): (s: seq<Byte>)
    ensures |s| == 416
  {
    Listing(0x00, DcLumaCounts(), DcLumaValues()) + Listing(0x01, DcChromaCounts(), DcChromaValues())
    + Listing(0x10, AcLumaCounts(), AcLumaValues()) + Listing(0x11, AcChromaCounts(), AcChromaValues())
  }

  function DhtHead(): (s: seq<Byte>)
    ensures |s| == 4
  {
    [0xff, 0xc4, 0x01, 0xa2]
  }

  function DhtData(): (s: seq<Byte>)
    ensures |s| == 420
  {
    DhtHead() + DhtBody()
  }

  // ----- the decoder can read it -----

  function Sum(counts: seq<Byte>, n: nat): nat
    requires n <= |counts|
    decreases n
  {
    if n == 0 then 0 else Sum(counts, n - 1) + counts[n - 1]
  }

  lemma {:induction false} LengthsSum(counts: seq<Byte>, n: nat)
    requires n <= |counts| <= 16
    ensures |Lengths(counts, n)| == Sum(counts, n)
  {
    if n > 0 {
      LengthsSum(counts, n - 1);
    }
  }

  /** The Kraft sum, one count at a time. */
  function Room(counts: seq<Byte>, n: nat): nat
    requires n <= |counts|
    decreases n
  {
    if n == 0 then 0 else 2 * Room(counts, n - 1) + counts[n - 1]
  }

  lemma {:induction false} RoomIsKraftSum(counts: seq<Byte>, n: nat)
    requires n <= |counts| <= 16
    ensures KraftSum(counts, n) == Up(Room(counts, n), 16 - n)
    decreases n
  {
    hide Up;
    if n == 0 {
      UpMono(0, 0, 16);
    } else {
      RoomIsKraftSum(counts, n - 1);
      UpDouble(Room(counts, n - 1), 17 - n);
      UpAdd(2 * Room(counts, n - 1), counts[n - 1], 16 - n);
    }
  }

  lemma StartOfSums(counts: seq<Byte>)
    ensures Sum(counts, 0) == Room(counts, 0) == 0
  {
  }

  /** Four counts at a time. */
  lemma FourMore(counts: seq<Byte>, n: nat)
    requires n + 4 <= |counts|
    ensures Sum(counts, n + 4)
         == Sum(counts, n) + (counts[n] as int) + (counts[n + 1] as int) + (counts[n + 2] as int)
            + (counts[n + 3] as int)
    ensures Room(counts, n + 4)
         == 16 * Room(counts, n) + 8 * (counts[n] as int) + 4 * (counts[n + 1] as int) + 2 * (counts[n + 2] as int)
            + (counts[n + 3] as int)
  {
    var a, b := Room(counts, n + 1), Room(counts, n + 2);
    assert b == 2 * a + (counts[n + 1] as int) && Room(counts, n + 3) == 2 * b + (counts[n + 2] as int);
    assert Sum(counts, n + 2) == Sum(counts, n) + (counts[n] as int) + (counts[n + 1] as int);
    assert Sum(counts, n + 3) == Sum(counts, n + 2) + (counts[n + 2] as int);
  }

  /** A listing is complete and its counts leave room for all its codes. */
  ghost predicate Complete(counts: seq<Byte>, values: seq<Byte>)
    requires |counts| == 16
  {
    |values| == |Lengths(counts, 16)| <= CAPACITY && Table(Lengths(counts, 16), values).Fits()
  }

  function Of(counts: seq<Byte>, values: seq<Byte>): Table
    requires |counts| == 16
  {
    Table(Lengths(counts, 16), values)
  }

  lemma CompleteIf(counts: seq<Byte>, values: seq<Byte>)
    requires |counts| == 16 && Sum(counts, 16) == |values| <= CAPACITY && Room(counts, 16) <= 0x1_0000
    ensures Complete(counts, values)
  {
    hide Lengths, KraftSum, Sum, Room, Table.Fits;
    LengthsSum(counts, 16);
    RoomIsKraftSum(counts, 16);
    FitsIffKraft(counts, values);
  }

  lemma DcLumaComplete()
    ensures Complete(DcLumaCounts(), DcLumaValues())
  {
    hide DcLumaValues, Complete, Sum, Room;
    StartOfSums(DcLumaCounts());
    FourMore(DcLumaCounts(), 0);
    FourMore(DcLumaCounts(), 4);
    FourMore(DcLumaCounts(), 8);
    FourMore(DcLumaCounts(), 12);
    CompleteIf(DcLumaCounts(), DcLumaValues());
  }

  lemma DcChromaComplete()
    ensures Complete(DcChromaCounts(), DcChromaValues())
  {
    hide DcChromaValues, Complete, Sum, Room;
    StartOfSums(DcChromaCounts());
    FourMore(DcChromaCounts(), 0);
    FourMore(DcChromaCounts(), 4);
    FourMore(DcChromaCounts(), 8);
    FourMore(DcChromaCounts(), 12);
    CompleteIf(DcChromaCounts(), DcChromaValues());
  }

  lemma AcLumaComplete()
    ensures Complete(AcLumaCounts(), AcLumaValues())
  {
    hide AcLumaValues, Complete, Sum, Room;
    StartOfSums(AcLumaCounts());
    FourMore(AcLumaCounts(), 0);
    FourMore(AcLumaCounts(), 4);
    FourMore(AcLumaCounts(), 8);
    FourMore(AcLumaCounts(), 12);
    CompleteIf(AcLumaCounts(), AcLumaValues());
  }

  lemma AcChromaComplete()
    ensures Complete(AcChromaCounts(), AcChromaValues())
  {
    hide AcChromaValues, Complete, Sum, Room;
    StartOfSums(AcChromaCounts());
    FourMore(AcChromaCounts(), 0);
    FourMore(AcChromaCounts(), 4);
    FourMore(AcChromaCounts(), 8);
    FourMore(AcChromaCounts(), 12);
    CompleteIf(AcChromaCounts(), AcChromaValues());
  }

  predicate ListedAt(s: seq<Byte>, p: nat, slot: Byte, counts: seq<Byte>, values: seq<Byte>)
    requires |counts| == 16
  {
    p + 17 + |values| <= |s| && s[p] == slot && s[p + 1..p + 17] == counts && s[p + 17..p + 17 + |values|] == values
  }

  lemma ListingAt(pre: seq<Byte>, slot: Byte, counts: seq<Byte>, values: seq<Byte>, post: seq<Byte>)
    requires |counts| == 16
    ensures ListedAt(pre + Listing(slot, counts, values) + post, |pre|, slot, counts, values)
  {
  }

  /** One turn of the segment loop. */
  lemma ReadAt(s: seq<Byte>, p: nat, next: nat, slots: seq<Option<Table>>)
    requires p + 17 <= next <= |s| && Slot(s[p]) < 4 && |slots| == 4
    requires next == p + 17 + |Lengths(s[p + 1..p + 17], 16)| && next - p - 17 <= CAPACITY
    requires next < |s| ==> SegmentOk(s, next, |s|)
    ensures SegmentOk(s, p, |s|)
    ensures var now := slots[Slot(s[p]) := Some(Of(s[p + 1..p + 17], s[p + 17..next]))];
            After(s, p, |s|, slots) == if next == |s| then now else After(s, next, |s|, now)
  {
    hide Lengths, Slot;
  }

  /** One listing is read into its slot. */
  lemma ReadListing(s: seq<Byte>, p: nat, slot: Byte, counts: seq<Byte>, values: seq<Byte>, slots: seq<Option<Table>>)
    requires |counts| == 16 && Complete(counts, values) && Slot(slot) < 4 && |slots| == 4
    requires ListedAt(s, p, slot, counts, values)
    requires p + 17 + |values| < |s| ==> SegmentOk(s, p + 17 + |values|, |s|)
    ensures SegmentOk(s, p, |s|)
    ensures var now := slots[Slot(slot) := Some(Of(counts, values))];
            var next := p + 17 + |values|;
            After(s, p, |s|, slots) == if next == |s| then now else After(s, next, |s|, now)
  {
    hide Lengths, Slot, Table.Fits, SegmentOk, After;
    ReadAt(s, p, p + 17 + |values|, slots);
  }

  /** The decoder's segment loop accepts the inserted segment (its end is the length field, 0x1a2, less
      two) and finds a table with room for all its codes for each of its four slots. */
  lemma DecoderReadsStandardTables()
    ensures SegmentOk(DhtBody(), 0, 416)
    ensures After(DhtBody(), 0, 416, [None, None, None, None])
         == [Some(Of(DcLumaCounts(), DcLumaValues())), Some(Of(AcLumaCounts(), AcLumaValues())),
             Some(Of(DcChromaCounts(), DcChromaValues())), Some(Of(AcChromaCounts(), AcChromaValues()))]
    ensures Of(DcLumaCounts(), DcLumaValues()).Fits() && Of(AcLumaCounts(), AcLumaValues()).Fits()
    ensures Of(DcChromaCounts(), DcChromaValues()).Fits() && Of(AcChromaCounts(), AcChromaValues()).Fits()
  {
    hide DcLumaCounts, DcLumaValues, DcChromaCounts, DcChromaValues;
    hide AcLumaCounts, AcLumaValues, AcChromaCounts, AcChromaValues;
    hide Lengths, Table.Fits, SegmentOk, After, Listing, Complete, ListedAt;
    DcLumaComplete();
    DcChromaComplete();
    AcLumaComplete();
    AcChromaComplete();
    BodyListings();
    var s := DhtBody();
    var none: seq<Option<Table>> := [None, None, None, None];
    var a := none[0 := Some(Of(DcLumaCounts(), DcLumaValues()))];
    var b := a[2 := Some(Of(DcChromaCounts(), DcChromaValues()))];
    var c := b[1 := Some(Of(AcLumaCounts(), AcLumaValues()))];
    ReadListing(s, 237, 0x11, AcChromaCounts(), AcChromaValues(), c);
    ReadListing(s, 58, 0x10, AcLumaCounts(), AcLumaValues(), b);
    ReadListing(s, 29, 0x01, DcChromaCounts(), DcChromaValues(), a);
    ReadListing(s, 0, 0x00, DcLumaCounts(), DcLumaValues(), none);
    CompleteFits(DcLumaCounts(), DcLumaValues());
    CompleteFits(DcChromaCounts(), DcChromaValues());
    CompleteFits(AcLumaCounts(), AcLumaValues());
    CompleteFits(AcChromaCounts(), AcChromaValues());
  }

  lemma CompleteFits(counts: seq<Byte>, values: seq<Byte>)
    requires |counts| == 16 && Complete(counts, values)
    ensures Of(counts, values).Fits()
  {
  }

  lemma BodyListings()
    ensures var s := DhtBody();
            && ListedAt(s, 0, 0x00, DcLumaCounts(), DcLumaValues())
            && ListedAt(s, 29, 0x01, DcChromaCounts(), DcChromaValues())
            && ListedAt(s, 58, 0x10, AcLumaCounts(), AcLumaValues())
            && ListedAt(s, 237, 0x11, AcChromaCounts(), AcChromaValues())
  {
    hide DcLumaCounts, DcLumaValues, DcChromaCounts, DcChromaValues;
    hide AcLumaCounts, AcLumaValues, AcChromaCounts, AcChromaValues, Listing, ListedAt;
    var l0, l1 := Listing(0x00, DcLumaCounts(), DcLumaValues()), Listing(0x01, DcChromaCounts(), DcChromaValues());
    var l2, l3 := Listing(0x10, AcLumaCounts(), AcLumaValues()), Listing(0x11, AcChromaCounts(), AcChromaValues());
    var s := DhtBody();
    assert s == [] + l0 + (l1 + l2 + l3) == l0 + l1 + (l2 + l3) == (l0 + l1) + l2 + l3 == (l0 + l1 + l2) + l3 + [];
    ListingAt([], 0x00, DcLumaCounts(), DcLumaValues(), l1 + l2 + l3);
    ListingAt(l0, 0x01, DcChromaCounts(), DcChromaValues(), l2 + l3);
    ListingAt(l0 + l1, 0x10, AcLumaCounts(), AcLumaValues(), l3);
    ListingAt(l0 + l1 + l2, 0x11, AcChromaCounts(), AcChromaValues(), []);
  }
}
