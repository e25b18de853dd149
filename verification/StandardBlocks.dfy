/** The decoder of the autofocus plugin on pictures coded with the typical tables: which blocks make it fail. */
module StandardBlocks {
  import opened Words
  import opened HuffmanTable
  import opened BlockCode
  import opened StandardTables

  // ----- the last entries -----

  /** x is the last symbol of the table and stands nowhere else in it. */
  ghost predicate EndsWith(t: Table, x: Byte)
  {
    |t.lens| == |t.symbols| > 0 && t.symbols[|t.symbols| - 1] == x && x !in t.symbols[..|t.symbols| - 1]
  }

  lemma {:induction false} IndexOfFirst(s: seq<Byte>, x: Byte, k: nat)
    requires k < |s| && s[k] == x && x !in s[..k]
    ensures IndexOf(s, x) == k
  {
    if k > 0 {
      assert s[0] in s[..k];
      assert s[..k][1..] == s[1..][..k - 1];
      IndexOfFirst(s[1..], x, k - 1);
    }
  }

  lemma LastOnly(t: Table, x: Byte, tok: Token)
    requires t.WellFormed() && EndsWith(t, x) && HasCode(t, tok)
    ensures NotLast(t, tok) <==> tok.symbol != x
  {
    var n := |t.symbols| - 1;
    IndexOfFirst(t.symbols, x, n);
  }

  lemma EndsWithConcat(a: seq<Byte>, b: seq<Byte>, x: Byte)
    requires b != [] && x !in a && x !in b[..|b| - 1] && b[|b| - 1] == x
    ensures x !in (a + b)[..|a + b| - 1] && (a + b)[|a + b| - 1] == x
  {
    assert (a + b)[..|a + b| - 1] == a + b[..|b| - 1];
  }

  lemma DcTablesEnd()
    ensures DcLumaValues()[11] == 11 && 11 !in DcLumaValues()[..11]
    ensures DcChromaValues()[11] == 11 && 11 !in DcChromaValues()[..11]
  {
  }

  lemma AcLumaEnds()
    ensures AcLumaValues()[161] == 0xfa && 0xfa !in AcLumaValues()[..161]
  {
    hide AcLumaA, AcLumaB, AcLumaC, AcLumaD, AcLumaE, AcLumaF;
    AcLumaLacksA();
    AcLumaLacksB();
    AcLumaLacksC();
    AcLumaLacksD();
    AcLumaLacksE();
    AcLumaBack();
    EndsWithConcat(AcLumaA() + AcLumaB() + AcLumaC() + AcLumaD() + AcLumaE(), AcLumaF(), 0xfa);
  }

  lemma AcLumaLacksA()
    ensures 0xfa !in AcLumaA()
  {
  }

  lemma AcLumaLacksB()
    ensures 0xfa !in AcLumaB()
  {
  }

  lemma AcLumaLacksC()
    ensures 0xfa !in AcLumaC()
  {
  }

  lemma AcLumaLacksD()
    ensures 0xfa !in AcLumaD()
  {
  }

  lemma AcLumaLacksE()
    ensures 0xfa !in AcLumaE()
  {
  }

  lemma AcLumaBack()
    ensures AcLumaF()[26] == 0xfa && 0xfa !in AcLumaF()[..26]
  {
  }

  lemma AcChromaEnds()
    ensures AcChromaValues()[161] == 0xfa && 0xfa !in AcChromaValues()[..161]
  {
    hide AcChromaA, AcChromaB, AcChromaC, AcChromaD, AcChromaE, AcChromaF;
    AcChromaLacksA();
    AcChromaLacksB();
    AcChromaLacksC();
    AcChromaLacksD();
    AcChromaLacksE();
    AcChromaBack();
    EndsWithConcat(AcChromaA() + AcChromaB() + AcChromaC() + AcChromaD() + AcChromaE(), AcChromaF(), 0xfa);
  }

  lemma AcChromaLacksA()
    ensures 0xfa !in AcChromaA()
  {
  }

  lemma AcChromaLacksB()
    ensures 0xfa !in AcChromaB()
  {
  }

  lemma AcChromaLacksC()
    ensures 0xfa !in AcChromaC()
  {
  }

  lemma AcChromaLacksD()
    ensures 0xfa !in AcChromaD()
  {
  }

  lemma AcChromaLacksE()
    ensures 0xfa !in AcChromaE()
  {
  }

  lemma AcChromaBack()
    ensures AcChromaF()[26] == 0xfa && 0xfa !in AcChromaF()[..26]
  {
  }

  // ----- the coders of a picture with these tables -----

  function Luma(): Coder
  {
    Coder(Of(DcLumaCounts(), DcLumaValues()), Of(AcLumaCounts(), AcLumaValues()))
  }

  function Chroma(): Coder
  {
    Coder(Of(DcChromaCounts(), DcChromaValues()), Of(AcChromaCounts(), AcChromaValues()))
  }

  function Standard(): seq<Coder>
  {
    [Luma(), Chroma(), Chroma()]
  }

  /** What the two theorems below use of the tables. */
  ghost predicate Typical(c: Coder)
  {
    c.ac.Fits() && DcTable(c.dc) && EndsWith(c.dc, 11) && EndsWith(c.ac, 0xfa)
  }

  lemma SmallDcSymbols()
    ensures forall i :: 0 <= i < 12 ==> DcLumaValues()[i] <= 16
    ensures forall i :: 0 <= i < 12 ==> DcChromaValues()[i] <= 16
  {
  }

  lemma CompleteMeans(counts: seq<Byte>, values: seq<Byte>)
    requires |counts| == 16 && Complete(counts, values)
    ensures var t := Of(counts, values); t.Fits() && t.symbols == values && |t.lens| == |values|
  {
  }

  lemma LumaTypical()
    ensures Typical(Luma())
  {
    hide DcLumaCounts, DcLumaValues, AcLumaCounts, AcLumaValues, Table.Fits, Complete, Of;
    DcLumaComplete();
    AcLumaComplete();
    CompleteMeans(DcLumaCounts(), DcLumaValues());
    CompleteMeans(AcLumaCounts(), AcLumaValues());
    SmallDcSymbols();
    DcTablesEnd();
    AcLumaEnds();
  }

  lemma ChromaTypical()
    ensures Typical(Chroma())
  {
    hide DcChromaCounts, DcChromaValues, AcChromaCounts, AcChromaValues, Table.Fits, Complete, Of;
    DcChromaComplete();
    AcChromaComplete();
    CompleteMeans(DcChromaCounts(), DcChromaValues());
    CompleteMeans(AcChromaCounts(), AcChromaValues());
    SmallDcSymbols();
    DcTablesEnd();
    AcChromaEnds();
  }

  /** The tables of the inserted segment satisfy what every decoder theorem asks of a picture's tables. */
  lemma StandardCoders()
    ensures Coders(Standard()) && forall c :: 0 <= c < 3 ==> Typical(Standard()[c])
  {
    hide Luma, Chroma, DcTable, Table.Fits, EndsWith;
    LumaTypical();
    ChromaTypical();
  }

  // ----- which blocks use a last entry -----

  /** How many zeros stand right before c[k]. */
  function ZerosBefore(c: seq<int>, k: nat): nat
    requires k <= |c|
  {
    if k == 0 || c[k - 1] != 0 then 0 else 1 + ZerosBefore(c, k - 1)
  }

  /** Between 512 and 1023, or between their negatives. */
  predicate TenBits(v: int)
  {
    512 <= v < 1024 || -1024 < v <= -512
  }

  predicate ElevenBits(v: int)
  {
    1024 <= v < 2048 || -2048 < v <= -1024
  }

  lemma {:induction false} Pow2Mono(j: nat, k: nat)
    requires j <= k
    ensures Pow2(j) <= Pow2(k)
  {
    if j < k {
      Pow2Mono(j, k - 1);
    }
  }

  lemma LengthIs(n: nat, k: nat)
    requires k > 0
    ensures BitLength(n) == k <==> Pow2(k - 1) <= n < Pow2(k)
  {
    hide BitLength, Up;
    BitLengthHalf(0);
    if n > 0 {
      BitLengthBound(n);
    }
    if n < Pow2(k) {
      BitLengthMono(n, k);
    }
    if BitLength(n) < k {
      Pow2Mono(BitLength(n), k - 1);
    }
    Pow2Mono(0, k - 1);
    Pow2Values();
  }

  lemma Pow2NineToEleven()
    ensures Pow2(9) == 512 && Pow2(10) == 1024 && Pow2(11) == 2048
  {
    hide Up;
    Pow2Values();
    UpUp(1, 8, 1);
    UpUp(1, 8, 2);
    UpUp(1, 8, 3);
    UpSmall(256);
  }

  /** The two categories of T.81, tables F.1 and F.2, that matter. */
  lemma CategoryIs(v: int)
    ensures Category(v) == 10 <==> TenBits(v)
    ensures Category(v) == 11 <==> ElevenBits(v)
  {
    hide BitLength, Up;
    Pow2NineToEleven();
    LengthIs(Abs(v), 10);
    LengthIs(Abs(v), 11);
  }

  /** A value of ten bits behind 15 zeros, or 15 more than a multiple of 16. */
  predicate LastAc(c: seq<int>, k: nat)
    requires k < |c|
  {
    TenBits(c[k]) && ZerosBefore(c, k) % 16 == 15
  }

  ghost predicate HasLastAc(c: seq<int>)
  {
    exists k | 0 <= k < |c| :: LastAc(c, k)
  }

  lemma ZerosStep(c: seq<int>, k: nat)
    requires k <= |c|
    ensures ZerosBefore(c, k) == if k == 0 || c[k - 1] != 0 then 0 else 1 + ZerosBefore(c, k - 1)
  {
  }

  lemma {:induction false} ZerosBeforeAll(c: seq<int>, k: nat)
    requires k <= |c| && forall i | 0 <= i < k :: c[i] == 0
    ensures ZerosBefore(c, k) == k
  {
    if k > 0 {
      ZerosBeforeAll(c, k - 1);
    }
  }

  /** Behind a token that is sent, the zeros that count are the same up to a multiple of 16. */
  lemma {:induction false} ZerosBehind(c: seq<int>, n: nat, k: nat)
    requires n <= k <= |c|
    requires (n > 0 && c[n - 1] != 0) || (n == 16 && forall i | 0 <= i < 16 :: c[i] == 0)
    ensures ZerosBefore(c[n..], k - n) % 16 == ZerosBefore(c, k) % 16
    ensures var z := ZerosBefore(c[n..], k - n);
            ZerosBefore(c, k) == z || (n == 16 && ZerosBefore(c, k) == z + 16)
    decreases k
  {
    ZerosStep(c, k);
    ZerosStep(c[n..], k - n);
    hide ZerosBefore;
    if k > n {
      assert c[n..][k - n - 1] == c[k - 1];
      ZerosBehind(c, n, k - 1);
    } else if c[n - 1] == 0 {
      ZerosBeforeAll(c, 16);
    }
  }

  /** The first token is the last entry's exactly when the coefficient it sends is such a value. */
  lemma FirstIsLast(c: seq<int>)
    requires AcRange(c) && c != []
    ensures FirstToken(c).symbol == 0xfa <==> exists k | 0 <= k < Sends(c) :: LastAc(c, k)
  {
    hide Category, ZerosBefore, Run;
    var r := Run(c);
    if r < |c| && r < 16 {
      AcCategory(c[r]);
      CategoryIs(c[r]);
      ZerosBeforeAll(c, r);
      assert FirstToken(c).symbol == 16 * r + Category(c[r]) && Sends(c) == r + 1;
      assert FirstToken(c).symbol == 0xfa <==> LastAc(c, r);
    }
  }

  lemma SendsShape(c: seq<int>)
    requires c != []
    ensures var n := Sends(c); n == |c| || c[n - 1] != 0 || (n == 16 && forall i | 0 <= i < 16 :: c[i] == 0)
  {
    hide Run;
  }

  lemma LastAcSplit(c: seq<int>)
    requires AcRange(c) && c != []
    ensures HasLastAc(c) <==> FirstToken(c).symbol == 0xfa || HasLastAc(c[Sends(c)..])
  {
    hide Category, ZerosBefore, FirstToken, Sends;
    FirstIsLast(c);
    SendsShape(c);
    var n := Sends(c);
    if n < |c| {
      forall k | n <= k < |c|
        ensures LastAc(c[n..], k - n) == LastAc(c, k)
      {
        ZerosBehind(c, n, k);
      }
      if HasLastAc(c[n..]) {
        var j :| 0 <= j < |c[n..]| && LastAc(c[n..], j);
        assert LastAc(c, j + n);
      }
      if HasLastAc(c) {
        var k :| 0 <= k < |c| && LastAc(c, k);
        if k >= n {
          assert LastAc(c[n..], k - n);
        }
      }
    }
  }

  lemma {:induction false} TokensAvoidLast(t: Table, c: seq<int>)
    requires t.WellFormed() && EndsWith(t, 0xfa) && AcRange(c) && Codable(t, AcTokens(c))
    ensures AvoidsLast(t, AcTokens(c)) <==> !HasLastAc(c)
    decreases |c|
  {
    hide EndsWith, HasCode, NotLast, FirstToken, Sends, AcTokens;
    AcTokensUnfold(c);
    if c != [] {
      LastOnly(t, 0xfa, FirstToken(c));
      LastAcSplit(c);
      TokensAvoidLast(t, c[Sends(c)..]);
    }
  }

  /** What the decoder cannot read: a DC difference of eleven bits, or an AC value of ten bits at the end of such a
      run of zeros. */
  ghost predicate Unreadable(coefs: seq<int>, last: int)
    requires |coefs| == 64
  {
    ElevenBits(coefs[0] - last) || HasLastAc(coefs[1..])
  }

  lemma AvoidsLastIff(c: Coder, coefs: seq<int>, last: int)
    requires Typical(c) && BlockCodable(c.dc, c.ac, coefs, last)
    ensures BlockAvoidsLast(c.dc, c.ac, coefs, last) <==> !Unreadable(coefs, last)
  {
    hide Category, EndsWith, HasCode, NotLast, AvoidsLast, Codable, AcTokens, HasLastAc;
    DcCategory(coefs[0] - last);
    CategoryIs(coefs[0] - last);
    LastOnly(c.dc, 11, DcToken(coefs, last));
    TokensAvoidLast(c.ac, coefs[1..]);
  }

  /** With the typical tables a coded block is read back exactly when it is readable. */
  lemma StandardBlock(c: Coder, coefs: seq<int>, last: int, rest: seq<bool>)
    requires Typical(c) && BlockCodable(c.dc, c.ac, coefs, last)
    ensures var r := DecodeBlock(c.dc, c.ac, last, EncodeBlock(c.dc, c.ac, coefs, last) + rest);
            if Unreadable(coefs, last) then r.Bad? else r == Block(coefs, coefs[0], rest)
  {
    hide DecodeBlock, EncodeBlock, BlockCodable, BlockAvoidsLast, Unreadable, EndsWith;
    AvoidsLastIff(c, coefs, last);
    BlockRoundTrip(c.dc, c.ac, coefs, last, rest);
  }

  // ----- scans -----

  /** All blocks of a scan are readable, each against the last DC value of its component. */
  ghost predicate Readable(units: seq<Unit>, y: int, cr: int, cb: int)
    requires forall k :: 0 <= k < |units| ==> UnitWhole(units[k])
    decreases |units|
  {
    units == [] ||
    var u := units[0];
    && UnitReadable(u, y, cr, cb)
    && Readable(units[1..], u.y2[0], u.cr[0], u.cb[0])
  }

  predicate UnitWhole(u: Unit)
  {
    |u.y1| == |u.y2| == |u.cr| == |u.cb| == 64
  }

  ghost predicate UnitReadable(u: Unit, y: int, cr: int, cb: int)
    requires UnitWhole(u)
  {
    !Unreadable(u.y1, y) && !Unreadable(u.y2, u.y1[0]) && !Unreadable(u.cr, cr) && !Unreadable(u.cb, cb)
  }

  lemma UnitAvoidsLastIff(luma: Coder, chroma: Coder, u: Unit, y: int, cr: int, cb: int)
    requires Typical(luma) && Typical(chroma) && UnitCodable(luma, chroma, u, y, cr, cb) && UnitWhole(u)
    ensures UnitAvoidsLast(luma, chroma, u, y, cr, cb) <==> UnitReadable(u, y, cr, cb)
  {
    hide BlockAvoidsLast, BlockCodable, Unreadable, Typical;
    AvoidsLastIff(luma, u.y1, y);
    AvoidsLastIff(luma, u.y2, u.y1[0]);
    AvoidsLastIff(chroma, u.cr, cr);
    AvoidsLastIff(chroma, u.cb, cb);
  }

  lemma {:induction false} UnitsAvoidLastIff(luma: Coder, chroma: Coder, units: seq<Unit>, y: int, cr: int, cb: int)
    requires Typical(luma) && Typical(chroma) && UnitsCodable(luma, chroma, units, y, cr, cb)
    requires forall k :: 0 <= k < |units| ==> UnitWhole(units[k])
    ensures UnitsAvoidLast(luma, chroma, units, y, cr, cb) <==> Readable(units, y, cr, cb)
    decreases |units|
  {
    hide UnitCodable, UnitAvoidsLast, UnitReadable, Typical;
    if units != [] {
      var u := units[0];
      UnitAvoidsLastIff(luma, chroma, u, y, cr, cb);
      UnitsAvoidLastIff(luma, chroma, units[1..], u.y2[0], u.cr[0], u.cb[0]);
    }
  }

  /** A scan coded with the typical tables, as in `Standard`, is read back, block for block, exactly when all its
      blocks are readable. */
  lemma TypicalScan(luma: Coder, chroma: Coder, units: seq<Unit>, y: int, cr: int, cb: int, rest: seq<bool>)
    requires Coders([luma, chroma, chroma]) && Typical(luma) && Typical(chroma)
    requires UnitsCodable(luma, chroma, units, y, cr, cb) && forall k :: 0 <= k < |units| ==> UnitWhole(units[k])
    ensures var bits := EncodeUnits(luma, chroma, units, y, cr, cb);
            var r := DecodeScan([luma, chroma, chroma], 0, 4 * |units|, [y, cr, cb], bits + rest);
            if Readable(units, y, cr, cb)
            then r == ScanResult(true, Blocks(units), LastDcs(units, y, cr, cb), rest) else !r.ok
  {
    hide Coders, UnitsCodable, EncodeUnits, DecodeScan, Readable, UnitsAvoidLast, Typical;
    UnitsAvoidLastIff(luma, chroma, units, y, cr, cb);
    ScanRoundTrip(luma, chroma, 0, units, y, cr, cb, rest);
  }

  // ----- one picture that cannot be read -----

  /** The DC value 1024, whose category is 11, and nothing else: the code is 9 bits long in the luminance table, and
      the decoder gives up on it. */
  function Bright(): (coefs: seq<int>)
    ensures |coefs| == 64
  {
    [1024] + Zeros(63)
  }

  lemma RunOfZeros(n: nat)
    ensures Run(Zeros(n)) == n
  {
    hide Run, Zeros;
    var r := Run(Zeros(n));
  }

  lemma EndOfBlockHasCode()
    ensures AcLumaValues()[3] == 0
  {
    hide AcLumaB, AcLumaC, AcLumaD, AcLumaE, AcLumaF;
    var a := AcLumaA();
    var rest := AcLumaB() + AcLumaC() + AcLumaD() + AcLumaE() + AcLumaF();
    assert AcLumaValues() == a + rest;
    assert a[3] == 0;
  }

  lemma {:induction false} FoundIndex(s: seq<Byte>, x: Byte, k: nat)
    requires k < |s| && s[k] == x
    ensures IndexOf(s, x) < |s|
  {
    if k > 0 && s[0] != x {
      FoundIndex(s[1..], x, k - 1);
    }
  }

  lemma BrightTokens()
    ensures AcRange(Zeros(63)) && AcTokens(Zeros(63)) == [EOB]
  {
    hide Run, AcTokens;
    RunOfZeros(63);
    AcTokensStep(Zeros(63));
  }

  lemma BrightDc(t: Table)
    requires t.WellFormed() && |t.symbols| == 12 && t.symbols[11] == 11
    ensures BlockRange(Bright(), 0) && HasCode(t, DcToken(Bright(), 0))
  {
    hide Category, Zeros, IndexOf;
    CategoryIs(1024);
    BrightTokens();
    assert Bright()[1..] == Zeros(63);
    FoundIndex(t.symbols, 11, 11);
  }

  lemma BrightAc(t: Table)
    requires t.WellFormed() && |t.symbols| > 3 && t.symbols[3] == 0
    ensures AcRange(Bright()[1..]) && Codable(t, AcTokens(Bright()[1..]))
  {
    hide Zeros, IndexOf, AcTokens;
    BrightTokens();
    FoundIndex(t.symbols, 0, 3);
    assert Bright()[1..] == Zeros(63);
  }

  /** The symbols that the bright block needs. */
  ghost predicate CodesBright(c: Coder)
  {
    && c.dc.WellFormed() && |c.dc.symbols| == 12 && c.dc.symbols[11] == 11
    && c.ac.WellFormed() && |c.ac.symbols| > 3 && c.ac.symbols[3] == 0
  }

  lemma LumaSymbols()
    ensures Luma().dc.symbols == DcLumaValues() && Luma().ac.symbols == AcLumaValues()
  {
    hide DcLumaCounts, DcLumaValues, AcLumaCounts, AcLumaValues;
  }

  lemma CodesBrightIf(c: Coder, dc: seq<Byte>, ac: seq<Byte>)
    requires Typical(c) && c.dc.symbols == dc && c.ac.symbols == ac
    requires |dc| == 12 && dc[11] == 11 && |ac| > 3 && ac[3] == 0
    ensures CodesBright(c)
  {
    hide EndsWith;
  }

  lemma LumaCodesBright()
    ensures CodesBright(Luma())
  {
    hide *;
    LumaTypical();
    LumaSymbols();
    DcTablesEnd();
    EndOfBlockHasCode();
    CodesBrightIf(Luma(), DcLumaValues(), AcLumaValues());
  }

  lemma BrightIsCodable(c: Coder)
    requires CodesBright(c)
    ensures BlockCodable(c.dc, c.ac, Bright(), 0) && Unreadable(Bright(), 0)
  {
    hide Category, Zeros, AcTokens, HasCode, Codable, AcRange;
    CategoryIs(1024);
    BrightDc(c.dc);
    BrightAc(c.ac);
  }

  /** So the last-entry failure is real: a block of one bright DC value, coded as the standard says with the standard
      tables, is refused. */
  lemma BrightBlockIsRefused(rest: seq<bool>)
    ensures BlockCodable(Luma().dc, Luma().ac, Bright(), 0)
    ensures DecodeBlock(Luma().dc, Luma().ac, 0, EncodeBlock(Luma().dc, Luma().ac, Bright(), 0) + rest).Bad?
  {
    hide Luma, Bright, DecodeBlock, EncodeBlock, BlockCodable, Unreadable, Typical;
    LumaTypical();
    LumaCodesBright();
    BrightIsCodable(Luma());
    StandardBlock(Luma(), Bright(), 0, rest);
  }
}
