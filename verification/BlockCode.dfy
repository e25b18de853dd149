/** Blocks of 64 coefficients, in zig-zag order, as bit strings: the encoder of ITU-T T.81 (F.1.2)
    and what the decoder's `readTable` makes of a bit stream. */
module BlockCode {
  import opened Words
  import opened HuffmanTable
  import opened SymbolCode

  // ----- values and their amplitude bits -----

  /** HUFF_EXTEND.  For size 0 the macro shifts by -1; both outcomes of its test give 0. */
  function HuffExtend(x: nat, size: nat): int
  {
    if size == 0 then 0 else if x < Up(1, size - 1) then x - Up(1, size) + 1 else x
  }

  function BitLength(n: nat): nat
  {
    if n == 0 then 0 else 1 + BitLength(n / 2)
  }

  function Abs(v: int): nat
  {
    if v < 0 then -v else v
  }

  /** The size category of a value (T.81, tables F.1 and F.2). */
  function Category(v: int): nat
  {
    BitLength(Abs(v))
  }

  /** The amplitude bits: the value itself, or for a negative one its one's complement. */
  function Amplitude(v: int): int
  {
    if v < 0 then v + Pow2(Category(v)) - 1 else v
  }

  lemma BitLengthHalf(n: nat)
    ensures BitLength(n) == if n == 0 then 0 else 1 + BitLength(n / 2)
  {
  }

  lemma {:induction false} BitLengthBound(n: nat)
    requires n > 0
    ensures BitLength(n) > 0
    ensures Pow2(BitLength(n) - 1) <= n < Pow2(BitLength(n))
  {
    hide Up, BitLength;
    BitLengthHalf(n);
    UpSmall(1);
    if n == 1 {
      BitLengthHalf(0);
    } else {
      BitLengthBound(n / 2);
      UpStep(1, BitLength(n));
      UpStep(1, BitLength(n) - 1);
    }
  }

  lemma {:induction false} BitLengthMono(n: nat, k: nat)
    requires n < Pow2(k)
    ensures BitLength(n) <= k
  {
    if k > 0 {
      BitLengthMono(n / 2, k - 1);
    }
  }

  /** Extending the amplitude bits of a value gives the value back. */
  lemma ExtendAmplitude(v: int)
    ensures 0 <= Amplitude(v) < Pow2(Category(v))
    ensures HuffExtend(Amplitude(v), Category(v)) == v
  {
    if v != 0 {
      BitLengthBound(Abs(v));
    }
  }

  // ----- decoding -----

  datatype AcResult = AcResult(ok: bool, table: seq<int>, rest: seq<bool>)

  /** The AC loop from coefficient j + 1 on, over a table of more than 78 entries. */
  ghost function DecodeAc(t: Table, j: nat, table: seq<int>, bits: seq<bool>): (r: AcResult)
    requires t.WellFormed() && |table| >= 79
    ensures |r.table| == |table| && |r.rest| <= |bits|
    decreases 78 - j
  {
    if j >= 63 then AcResult(j == 63, table, bits)
    else
      var s := ReadSymbol(t, bits);
      if s.Missing? then AcResult(false, table, bits)
      else
        var size, run := s.symbol % 16, s.symbol / 16;
        if size == 0 then
          if run == 15 then DecodeAc(t, j + 16, table, s.rest) else AcResult(true, table, s.rest)
        else if |s.rest| < size then AcResult(false, table, s.rest)
        else
          var v := HuffExtend(Value(s.rest[..size]), size);
          DecodeAc(t, j + run + 1, table[j + run + 1 := v], s.rest[size..])
  }

  /** `coefs` are the first 64 entries of the table, `dc` the updated predictor. */
  datatype BlockResult = Block(coefs: seq<int>, dc: int, rest: seq<bool>) | Bad(dc: int, rest: seq<bool>)

  /** Sizes index a table of 17 masks. */
  ghost predicate DcTable(t: Table)
  {
    t.Fits() && forall i :: 0 <= i < |t.symbols| ==> t.symbols[i] <= 16
  }

  ghost function DecodeBlock(dcT: Table, acT: Table, last: int, bits: seq<bool>): (r: BlockResult)
    requires dcT.WellFormed() && acT.WellFormed()
    ensures |r.rest| <= |bits| && (r.Block? ==> |r.coefs| == 64)
  {
    var s := ReadSymbol(dcT, bits);
    if s.Missing? then Bad(last, bits)
    else if |s.rest| < s.symbol then Bad(last, s.rest)
    else
      var dc := HuffExtend(Value(s.rest[..s.symbol]), s.symbol) + last;
      var ac := DecodeAc(acT, 0, Zeros(79)[0 := dc], s.rest[s.symbol..]);
      if ac.ok then Block(ac.table[..64], dc, ac.rest) else Bad(dc, ac.rest)
  }

  /** What lies behind the first 64 entries of the table does not matter. */
  lemma {:induction false} AcAgrees(t: Table, j: nat, a: seq<int>, b: seq<int>, bits: seq<bool>)
    requires t.WellFormed() && |a| >= 79 && |b| >= 79 && a[..64] == b[..64]
    ensures var r, q := DecodeAc(t, j, a, bits), DecodeAc(t, j, b, bits);
            r.ok == q.ok && r.rest == q.rest && r.table[..64] == q.table[..64]
    decreases 78 - j
  {
    hide ReadSymbol;
    if j < 63 {
      var s := ReadSymbol(t, bits);
      if s.Found? {
        var size, k := s.symbol % 16, s.symbol / 16;
        if size == 0 {
          if k == 15 {
            AcAgrees(t, j + 16, a, b, s.rest);
          }
        } else if |s.rest| >= size {
          var v := HuffExtend(Value(s.rest[..size]), size);
          assert a[j + k + 1 := v][..64] == b[j + k + 1 := v][..64];
          AcAgrees(t, j + k + 1, a[j + k + 1 := v], b[j + k + 1 := v], s.rest[size..]);
        }
      }
    }
  }

  function Zeros(n: nat): (z: seq<int>)
    ensures |z| == n && forall i :: 0 <= i < n ==> z[i] == 0
  {
    if n == 0 then [] else Zeros(n - 1) + [0]
  }

  // ----- encoding -----

  /** A symbol and the value whose amplitude bits follow it. */
  datatype Token = Token(symbol: Byte, value: int)

  const EOB := Token(0x00, 0)
  const ZRL := Token(0xF0, 0)

  /** The first entry that stands for a symbol, or the number of entries. */
  function IndexOf(symbols: seq<Byte>, symbol: Byte): (i: nat)
    ensures i <= |symbols| && (i < |symbols| ==> symbols[i] == symbol)
  {
    if symbols == [] || symbols[0] == symbol then 0 else 1 + IndexOf(symbols[1..], symbol)
  }

  ghost predicate HasCode(t: Table, tok: Token)
    requires t.WellFormed()
  {
    IndexOf(t.symbols, tok.symbol) < |t.lens|
  }

  ghost predicate NotLast(t: Table, tok: Token)
    requires t.WellFormed()
  {
    IndexOf(t.symbols, tok.symbol) + 1 < |t.lens|
  }

  /** The table has a code for each symbol. */
  ghost predicate Codable(t: Table, tokens: seq<Token>)
    requires t.WellFormed()
  {
    tokens == [] || (HasCode(t, tokens[0]) && Codable(t, tokens[1..]))
  }

  /** No symbol is the table's last entry. */
  ghost predicate AvoidsLast(t: Table, tokens: seq<Token>)
    requires t.WellFormed()
  {
    tokens == [] || (NotLast(t, tokens[0]) && AvoidsLast(t, tokens[1..]))
  }

  ghost function TokenBits(t: Table, tok: Token): seq<bool>
    requires t.WellFormed() && HasCode(t, tok)
  {
    ExtendAmplitude(tok.value);
    CodeBits(t, IndexOf(t.symbols, tok.symbol)) + Bits(Amplitude(tok.value), Category(tok.value))
  }

  ghost function TokensBits(t: Table, tokens: seq<Token>): seq<bool>
    requires t.WellFormed() && Codable(t, tokens)
  {
    if tokens == [] then [] else TokenBits(t, tokens[0]) + TokensBits(t, tokens[1..])
  }

  /** The number of zeros in front. */
  function Run(c: seq<int>): (r: nat)
    ensures r <= |c| && (forall i :: 0 <= i < r ==> c[i] == 0) && (r < |c| ==> c[r] != 0)
  {
    if c == [] || c[0] != 0 then 0 else 1 + Run(c[1..])
  }

  ghost predicate AcRange(c: seq<int>)
  {
    forall i :: 0 <= i < |c| ==> -0x8000 < c[i] < 0x8000
  }

  lemma AcCategory(v: int)
    requires -0x8000 < v < 0x8000
    ensures Category(v) <= 15 && (v != 0 ==> Category(v) > 0)
  {
    Pow2Values();
    BitLengthMono(Abs(v), 15);
  }

  /** The token for the coefficients still to send: end of block when only zeros are left, ZRL for sixteen
      zeros, else a run of zeros and the coefficient behind it. */
  ghost function FirstToken(c: seq<int>): Token
    requires AcRange(c) && c != []
  {
    var r := Run(c);
    if r == |c| then EOB
    else if r >= 16 then ZRL
    else
      AcCategory(c[r]);
      Token(16 * r + Category(c[r]), c[r])
  }

  /** ... and how many coefficients it sends. */
  ghost function Sends(c: seq<int>): (n: nat)
    requires c != []
    ensures 1 <= n <= |c|
  {
    var r := Run(c);
    if r == |c| then |c| else if r >= 16 then 16 else r + 1
  }

  /** Encode_AC_coefficients (T.81, figure F.2) for the coefficients still to send. */
  ghost function AcTokens(c: seq<int>): seq<Token>
    requires AcRange(c)
    decreases |c|
  {
    if c == [] then [] else [FirstToken(c)] + AcTokens(c[Sends(c)..])
  }

  ghost predicate BlockRange(coefs: seq<int>, last: int)
  {
    |coefs| == 64 && -0x1_0000 < coefs[0] - last < 0x1_0000 && AcRange(coefs[1..])
  }

  lemma DcCategory(v: int)
    requires -0x1_0000 < v < 0x1_0000
    ensures Category(v) <= 16
  {
    Pow2Values();
    BitLengthMono(Abs(v), 16);
  }

  ghost function DcToken(coefs: seq<int>, last: int): Token
    requires BlockRange(coefs, last)
  {
    DcCategory(coefs[0] - last);
    Token(Category(coefs[0] - last), coefs[0] - last)
  }

  ghost predicate BlockCodable(dcT: Table, acT: Table, coefs: seq<int>, last: int)
  {
    && dcT.WellFormed() && acT.WellFormed() && BlockRange(coefs, last)
    && HasCode(dcT, DcToken(coefs, last)) && Codable(acT, AcTokens(coefs[1..]))
  }

  ghost predicate BlockAvoidsLast(dcT: Table, acT: Table, coefs: seq<int>, last: int)
    requires BlockCodable(dcT, acT, coefs, last)
  {
    NotLast(dcT, DcToken(coefs, last)) && AvoidsLast(acT, AcTokens(coefs[1..]))
  }

  ghost function EncodeBlock(dcT: Table, acT: Table, coefs: seq<int>, last: int): seq<bool>
    requires BlockCodable(dcT, acT, coefs, last)
  {
    TokenBits(dcT, DcToken(coefs, last)) + TokensBits(acT, AcTokens(coefs[1..]))
  }

  // ----- the round trip -----

  /** Reading one token: its symbol, then its value from the amplitude bits. */
  lemma ReadToken(t: Table, tok: Token, rest: seq<bool>)
    requires t.Fits() && HasCode(t, tok)
    ensures NotLast(t, tok) ==>
              && var s := ReadSymbol(t, TokenBits(t, tok) + rest);
              && s.Found? && s.symbol == tok.symbol
              && |s.rest| >= Category(tok.value) && s.rest[Category(tok.value)..] == rest
              && HuffExtend(Value(s.rest[..Category(tok.value)]), Category(tok.value)) == tok.value
    ensures !NotLast(t, tok) ==> ReadSymbol(t, TokenBits(t, tok) + rest).Missing?
  {
    var i, n := IndexOf(t.symbols, tok.symbol), Category(tok.value);
    ExtendAmplitude(tok.value);
    var amp := Bits(Amplitude(tok.value), n);
    hide Up, Bits, Value, CodeBits, ReadSymbol, Amplitude, Category, HuffExtend;
    assert TokenBits(t, tok) + rest == CodeBits(t, i) + (amp + rest);
    ReadCode(t, i, amp + rest);
    assert (amp + rest)[..n] == amp && (amp + rest)[n..] == rest;
    ValueOfBits(Amplitude(tok.value), n);
  }

  lemma FirstAndRest(tok: Token, tokens: seq<Token>)
    ensures var all := [tok] + tokens; all[0] == tok && all[1..] == tokens
  {
  }

  lemma AcTokensUnfold(c: seq<int>)
    requires AcRange(c)
    ensures c != [] ==>
              AcTokens(c) != [] && AcTokens(c)[0] == FirstToken(c) && AcTokens(c)[1..] == AcTokens(c[Sends(c)..])
    ensures c == [] ==> AcTokens(c) == []
  {
    hide FirstToken, Sends;
    if c != [] {
      FirstAndRest(FirstToken(c), AcTokens(c[Sends(c)..]));
    }
  }

  /** The tokens of a nonempty list of coefficients, and what its first one stands for. */
  lemma AcTokensStep(c: seq<int>)
    requires AcRange(c) && c != []
    ensures AcTokens(c) != []
    ensures var r, tokens := Run(c), AcTokens(c);
            if r == |c| then tokens == [EOB]
            else if r >= 16 then tokens[0] == ZRL && tokens[1..] == AcTokens(c[16..])
            else
              && 1 <= Category(c[r]) <= 15 && tokens[0] == Token(16 * r + Category(c[r]), c[r])
              && tokens[1..] == AcTokens(c[r + 1..])
  {
    hide Category, Run, AcTokens;
    var r := Run(c);
    AcTokensUnfold(c);
    if r < |c| && r < 16 {
      AcCategory(c[r]);
    } else if r == |c| {
      AcTokensUnfold([]);
      assert c[|c|..] == [];
    }
  }

  lemma CategoryOfZero()
    ensures Category(0) == 0
  {
  }

  /** One step of the AC loop on a stream that begins with a token. */
  lemma AcStep(t: Table, j: nat, table: seq<int>, tok: Token, rest: seq<bool>)
    requires t.Fits() && |table| >= 79 && j < 63 && HasCode(t, tok)
    requires tok == EOB || tok == ZRL || (tok.symbol % 16 == Category(tok.value) > 0)
    ensures DecodeAc(t, j, table, TokenBits(t, tok) + rest) ==
            if !NotLast(t, tok) then AcResult(false, table, TokenBits(t, tok) + rest)
            else if tok == EOB then AcResult(true, table, rest)
            else if tok == ZRL then DecodeAc(t, j + 16, table, rest)
            else DecodeAc(t, j + tok.symbol / 16 + 1, table[j + tok.symbol / 16 + 1 := tok.value], rest)
  {
    hide TokenBits, ReadSymbol, HuffExtend, Value, NotLast, HasCode, Category, Table.Fits;
    ReadToken(t, tok, rest);
    CategoryOfZero();
  }

  lemma TokensStep(t: Table, tokens: seq<Token>, rest: seq<bool>)
    requires t.WellFormed() && Codable(t, tokens) && tokens != []
    ensures HasCode(t, tokens[0]) && Codable(t, tokens[1..])
    ensures TokensBits(t, tokens) + rest == TokenBits(t, tokens[0]) + (TokensBits(t, tokens[1..]) + rest)
    ensures AvoidsLast(t, tokens) == (NotLast(t, tokens[0]) && AvoidsLast(t, tokens[1..]))
  {
  }

  lemma TokensNil(t: Table, rest: seq<bool>)
    requires t.WellFormed()
    ensures Codable(t, []) && TokensBits(t, []) + rest == rest && AvoidsLast(t, [])
  {
  }

  lemma AcEnd(t: Table, table: seq<int>, rest: seq<bool>)
    requires t.WellFormed() && |table| >= 79
    ensures AcTokens([]) == [] && DecodeAc(t, 63, table, rest) == AcResult(true, table, rest)
  {
  }

  /** The table with the coefficients from j + 1 on filled in. */
  function Filled(table: seq<int>, j: nat, c: seq<int>): seq<int>
    requires |table| >= 79 && |c| + j == 63
  {
    table[..j + 1] + c + table[64..]
  }

  /** Skipping r zeros, and perhaps storing the coefficient behind them, leaves the rest to fill in. */
  lemma FilledSkip(table: seq<int>, j: nat, c: seq<int>, r: nat)
    requires |table| >= 79 && |c| + j == 63 && r <= |c|
    requires (forall i :: j < i < 64 ==> table[i] == 0) && (forall i :: 0 <= i < r ==> c[i] == 0)
    ensures Filled(table, j + r, c[r..]) == Filled(table, j, c)
    ensures r < |c| ==> Filled(table[j + r + 1 := c[r]], j + r + 1, c[r + 1..]) == Filled(table, j, c)
    ensures r == |c| ==> table == Filled(table, j, c)
  {
  }

  /** The AC loop reads back the tokens of the remaining coefficients. */
  lemma {:induction false} AcRoundTrip(t: Table, j: nat, table: seq<int>, c: seq<int>, rest: seq<bool>)
    requires t.Fits() && |table| >= 79 && |c| + j == 63 && AcRange(c) && Codable(t, AcTokens(c))
    requires forall i :: j < i < 64 ==> table[i] == 0
    ensures AvoidsLast(t, AcTokens(c)) ==>
              DecodeAc(t, j, table, TokensBits(t, AcTokens(c)) + rest) == AcResult(true, Filled(table, j, c), rest)
    ensures !AvoidsLast(t, AcTokens(c)) ==> !DecodeAc(t, j, table, TokensBits(t, AcTokens(c)) + rest).ok
    decreases |c|
  {
    hide DecodeAc, AcTokens, TokensBits, TokenBits, AvoidsLast, Codable, NotLast, HasCode, Filled, Category;
    var tokens, r := AcTokens(c), Run(c);
    FilledSkip(table, j, c, if r < 16 then r else if r == |c| then r else 16);
    TokensNil(t, rest);
    if c == [] {
      AcEnd(t, table, rest);
    } else {
      AcTokensStep(c);
      TokensStep(t, tokens, rest);
      AcStep(t, j, table, tokens[0], TokensBits(t, tokens[1..]) + rest);
      if r >= 16 && r < |c| {
        AcRoundTrip(t, j + 16, table, c[16..], rest);
      } else if r < |c| {
        AcRoundTrip(t, j + r + 1, table[j + r + 1 := c[r]], c[r + 1..], rest);
      }
    }
  }

  /** A block is read back, with the bits behind it left over and the predictor moved to its DC
      value, exactly when its code uses no table's last entry. */
  lemma BlockRoundTrip(dcT: Table, acT: Table, coefs: seq<int>, last: int, rest: seq<bool>)
    requires dcT.Fits() && acT.Fits() && BlockCodable(dcT, acT, coefs, last)
    ensures BlockAvoidsLast(dcT, acT, coefs, last) ==>
              DecodeBlock(dcT, acT, last, EncodeBlock(dcT, acT, coefs, last) + rest) == Block(coefs, coefs[0], rest)
    ensures !BlockAvoidsLast(dcT, acT, coefs, last) ==>
              DecodeBlock(dcT, acT, last, EncodeBlock(dcT, acT, coefs, last) + rest).Bad?
  {
    hide ReadSymbol, DecodeAc, HuffExtend, Category, TokenBits, TokensBits, AcTokens, Codable, AvoidsLast;
    var tok, ac := DcToken(coefs, last), AcTokens(coefs[1..]);
    DcCategory(coefs[0] - last);
    var bits := TokensBits(acT, ac) + rest;
    assert EncodeBlock(dcT, acT, coefs, last) + rest == TokenBits(dcT, tok) + bits;
    ReadToken(dcT, tok, bits);
    var table := Zeros(79)[0 := coefs[0]];
    AcRoundTrip(acT, 0, table, coefs[1..], rest);
    assert Filled(table, 0, coefs[1..])[..64] == coefs;
  }

  // ----- a scan: two luminance blocks, then one of each chrominance component, again and again -----

  datatype Coder = Coder(dc: Table, ac: Table)

  /** Component 0 is Y, 1 and 2 are the chrominance components; each has its own predictor. */
  function Component(i: nat): (c: nat)
    ensures c < 3
  {
    if i % 4 < 2 then 0 else i % 4 - 1
  }

  ghost predicate Coders(coders: seq<Coder>)
  {
    |coders| == 3 && forall c :: 0 <= c < 3 ==> coders[c].ac.Fits() && DcTable(coders[c].dc)
  }

  datatype ScanResult = ScanResult(ok: bool, blocks: seq<seq<int>>, preds: seq<int>, rest: seq<bool>)

  /** Decoding blocks i to n - 1 of a scan. */
  ghost function DecodeScan(coders: seq<Coder>, i: nat, n: nat, preds: seq<int>, bits: seq<bool>): (r: ScanResult)
    requires Coders(coders) && i <= n && |preds| == 3
    ensures |r.preds| == 3 && |r.rest| <= |bits|
    decreases n - i
  {
    if i == n then ScanResult(true, [], preds, bits)
    else
      var c := Component(i);
      var b := DecodeBlock(coders[c].dc, coders[c].ac, preds[c], bits);
      if b.Bad? then ScanResult(false, [], preds[c := b.dc], b.rest)
      else
        var r := DecodeScan(coders, i + 1, n, preds[c := b.dc], b.rest);
        r.(blocks := [b.coefs] + r.blocks)
  }

  // ----- the same scan as the encoder sends it, with three predictors and no numbering of blocks -----

  /** Two luminance blocks and one of each chrominance component. */
  datatype Unit = Unit(y1: seq<int>, y2: seq<int>, cr: seq<int>, cb: seq<int>)

  /** The blocks of a unit can be coded against y, the DC value of the first of them, cr and cb. */
  ghost predicate UnitCodable(luma: Coder, chroma: Coder, u: Unit, y: int, cr: int, cb: int)
  {
    && BlockCodable(luma.dc, luma.ac, u.y1, y) && BlockCodable(luma.dc, luma.ac, u.y2, u.y1[0])
    && BlockCodable(chroma.dc, chroma.ac, u.cr, cr) && BlockCodable(chroma.dc, chroma.ac, u.cb, cb)
  }

  ghost predicate UnitAvoidsLast(luma: Coder, chroma: Coder, u: Unit, y: int, cr: int, cb: int)
    requires UnitCodable(luma, chroma, u, y, cr, cb)
  {
    && BlockAvoidsLast(luma.dc, luma.ac, u.y1, y) && BlockAvoidsLast(luma.dc, luma.ac, u.y2, u.y1[0])
    && BlockAvoidsLast(chroma.dc, chroma.ac, u.cr, cr) && BlockAvoidsLast(chroma.dc, chroma.ac, u.cb, cb)
  }

  ghost function EncodeUnit(luma: Coder, chroma: Coder, u: Unit, y: int, cr: int, cb: int): seq<bool>
    requires UnitCodable(luma, chroma, u, y, cr, cb)
  {
    EncodeBlock(luma.dc, luma.ac, u.y1, y) + EncodeBlock(luma.dc, luma.ac, u.y2, u.y1[0]) +
    EncodeBlock(chroma.dc, chroma.ac, u.cr, cr) + EncodeBlock(chroma.dc, chroma.ac, u.cb, cb)
  }

  ghost predicate UnitsCodable(luma: Coder, chroma: Coder, units: seq<Unit>, y: int, cr: int, cb: int)
    decreases |units|
  {
    units == [] ||
    var u := units[0];
    && UnitCodable(luma, chroma, u, y, cr, cb)
    && UnitsCodable(luma, chroma, units[1..], u.y2[0], u.cr[0], u.cb[0])
  }

  ghost predicate UnitsAvoidLast(luma: Coder, chroma: Coder, units: seq<Unit>, y: int, cr: int, cb: int)
    requires UnitsCodable(luma, chroma, units, y, cr, cb)
    decreases |units|
  {
    units == [] ||
    var u := units[0];
    && UnitAvoidsLast(luma, chroma, u, y, cr, cb)
    && UnitsAvoidLast(luma, chroma, units[1..], u.y2[0], u.cr[0], u.cb[0])
  }

  /** A scan (T.81, F.1.1 and F.1.2.1): each DC value is sent as the difference to the last one of its component. */
  ghost function EncodeUnits(luma: Coder, chroma: Coder, units: seq<Unit>, y: int, cr: int, cb: int): seq<bool>
    requires UnitsCodable(luma, chroma, units, y, cr, cb)
    decreases |units|
  {
    if units == [] then []
    else
      var u := units[0];
      EncodeUnit(luma, chroma, u, y, cr, cb) +
      EncodeUnits(luma, chroma, units[1..], u.y2[0], u.cr[0], u.cb[0])
  }

  /** The blocks in the order sent. */
  function Blocks(units: seq<Unit>): (b: seq<seq<int>>)
    ensures |b| == 4 * |units|
  {
    if units == [] then []
    else [units[0].y1, units[0].y2, units[0].cr, units[0].cb] + Blocks(units[1..])
  }

  /** Of each component, the DC value of its last block. */
  ghost function LastDcs(units: seq<Unit>, y: int, cr: int, cb: int): (preds: seq<int>)
    requires forall k :: 0 <= k < |units| ==> |units[k].y2| == |units[k].cr| == |units[k].cb| == 64
    ensures |preds| == 3
  {
    if units == [] then [y, cr, cb]
    else
      var u := units[|units| - 1];
      [u.y2[0], u.cr[0], u.cb[0]]
  }

  lemma {:induction false} UnitsRange(luma: Coder, chroma: Coder, units: seq<Unit>, y: int, cr: int, cb: int)
    requires UnitsCodable(luma, chroma, units, y, cr, cb)
    ensures forall k :: 0 <= k < |units| ==> |units[k].y2| == |units[k].cr| == |units[k].cb| == 64
    decreases |units|
  {
    hide HasCode, Codable, AcTokens, AcRange;
    if units != [] {
      var u := units[0];
      UnitsRange(luma, chroma, units[1..], u.y2[0], u.cr[0], u.cb[0]);
      assert forall k :: 1 <= k < |units| ==> units[k] == units[1..][k - 1];
    }
  }

  /** Decoding block i, of component c, when the stream begins with its code. */
  lemma BlockStep(coders: seq<Coder>, i: nat, n: nat, c: nat, preds: seq<int>, coefs: seq<int>, rest: seq<bool>)
    requires Coders(coders) && i < n && c == Component(i) && |preds| == 3
    requires BlockCodable(coders[c].dc, coders[c].ac, coefs, preds[c])
    ensures |coefs| == 64
    ensures var r := DecodeScan(coders, i, n, preds, EncodeBlock(coders[c].dc, coders[c].ac, coefs, preds[c]) + rest);
            if BlockAvoidsLast(coders[c].dc, coders[c].ac, coefs, preds[c])
            then
              var q := DecodeScan(coders, i + 1, n, preds[c := coefs[0]], rest);
              r == q.(blocks := [coefs] + q.blocks)
            else !r.ok
  {
    hide DecodeBlock, EncodeBlock, BlockAvoidsLast, Component, HasCode, Codable, AcTokens;
    BlockRoundTrip(coders[c].dc, coders[c].ac, coefs, preds[c], rest);
  }

  lemma Components(i: nat)
    requires i % 4 == 0
    ensures Component(i) == 0 && Component(i + 1) == 0 && Component(i + 2) == 1 && Component(i + 3) == 2
  {
  }

  /** Decoding a unit leaves each component's own last DC value as its predictor. */
  lemma UnitStep(luma: Coder, chroma: Coder, i: nat, n: nat, u: Unit, y: int, cr: int, cb: int, rest: seq<bool>)
    requires Coders([luma, chroma, chroma]) && i % 4 == 0 && i + 4 <= n && UnitCodable(luma, chroma, u, y, cr, cb)
    ensures |u.y2| == |u.cr| == |u.cb| == 64
    ensures var coders := [luma, chroma, chroma];
            var r := DecodeScan(coders, i, n, [y, cr, cb], EncodeUnit(luma, chroma, u, y, cr, cb) + rest);
            if UnitAvoidsLast(luma, chroma, u, y, cr, cb)
            then
              var q := DecodeScan(coders, i + 4, n, [u.y2[0], u.cr[0], u.cb[0]], rest);
              r == q.(blocks := [u.y1, u.y2, u.cr, u.cb] + q.blocks)
            else !r.ok
  {
    hide DecodeScan, EncodeBlock, BlockAvoidsLast, Coders, Component, HasCode, Codable, AcTokens, AcRange;
    Components(i);
    var coders := [luma, chroma, chroma];
    var b1, b2 := EncodeBlock(luma.dc, luma.ac, u.y1, y), EncodeBlock(luma.dc, luma.ac, u.y2, u.y1[0]);
    var b3, b4 := EncodeBlock(chroma.dc, chroma.ac, u.cr, cr), EncodeBlock(chroma.dc, chroma.ac, u.cb, cb);
    assert EncodeUnit(luma, chroma, u, y, cr, cb) + rest == b1 + (b2 + (b3 + (b4 + rest)));
    BlockStep(coders, i, n, 0, [y, cr, cb], u.y1, b2 + (b3 + (b4 + rest)));
    assert [y, cr, cb][0 := u.y1[0]] == [u.y1[0], cr, cb];
    BlockStep(coders, i + 1, n, 0, [u.y1[0], cr, cb], u.y2, b3 + (b4 + rest));
    assert [u.y1[0], cr, cb][0 := u.y2[0]] == [u.y2[0], cr, cb];
    BlockStep(coders, i + 2, n, 1, [u.y2[0], cr, cb], u.cr, b4 + rest);
    assert [u.y2[0], cr, cb][1 := u.cr[0]] == [u.y2[0], u.cr[0], cb];
    BlockStep(coders, i + 3, n, 2, [u.y2[0], u.cr[0], cb], u.cb, rest);
    assert [u.y2[0], u.cr[0], cb][2 := u.cb[0]] == [u.y2[0], u.cr[0], u.cb[0]];
    var q := DecodeScan(coders, i + 4, n, [u.y2[0], u.cr[0], u.cb[0]], rest).blocks;
    assert [u.y1] + ([u.y2] + ([u.cr] + ([u.cb] + q))) == [u.y1, u.y2, u.cr, u.cb] + q;
  }

  lemma UnitsUnfold(luma: Coder, chroma: Coder, units: seq<Unit>, y: int, cr: int, cb: int, rest: seq<bool>)
    requires UnitsCodable(luma, chroma, units, y, cr, cb)
    ensures units == [] ==> EncodeUnits(luma, chroma, units, y, cr, cb) + rest == rest
    ensures units != [] ==>
              var u := units[0];
              && UnitCodable(luma, chroma, u, y, cr, cb)
              && UnitsCodable(luma, chroma, units[1..], u.y2[0], u.cr[0], u.cb[0])
              && EncodeUnits(luma, chroma, units, y, cr, cb) + rest ==
                 EncodeUnit(luma, chroma, u, y, cr, cb) +
                 (EncodeUnits(luma, chroma, units[1..], u.y2[0], u.cr[0], u.cb[0]) + rest)
  {
    hide EncodeUnit, HasCode, Codable, AcTokens, AcRange;
  }

  lemma ScanNothing(coders: seq<Coder>, n: nat, preds: seq<int>, bits: seq<bool>)
    requires Coders(coders) && |preds| == 3
    ensures DecodeScan(coders, n, n, preds, bits) == ScanResult(true, [], preds, bits)
  {
  }

  /** Decoding an encoded scan returns its blocks, its bits and no more, and the last DC value of each component,
      exactly when no code in it is the last entry of its table. */
  lemma {:induction false} ScanRoundTrip(luma: Coder, chroma: Coder, i: nat, units: seq<Unit>, y: int, cr: int, cb: int,
                                         rest: seq<bool>)
    requires Coders([luma, chroma, chroma]) && i % 4 == 0 && UnitsCodable(luma, chroma, units, y, cr, cb)
    requires forall k :: 0 <= k < |units| ==> |units[k].y2| == |units[k].cr| == |units[k].cb| == 64
    ensures var bits := EncodeUnits(luma, chroma, units, y, cr, cb);
            var r := DecodeScan([luma, chroma, chroma], i, i + 4 * |units|, [y, cr, cb], bits + rest);
            if UnitsAvoidLast(luma, chroma, units, y, cr, cb)
            then r == ScanResult(true, Blocks(units), LastDcs(units, y, cr, cb), rest) else !r.ok
    decreases |units|
  {
    hide DecodeScan, EncodeUnits, EncodeUnit, UnitCodable, UnitAvoidsLast, Coders;
    UnitsUnfold(luma, chroma, units, y, cr, cb, rest);
    if units == [] {
      ScanNothing([luma, chroma, chroma], i, [y, cr, cb], rest);
    } else {
      var u, more := units[0], units[1..];
      var tail := EncodeUnits(luma, chroma, more, u.y2[0], u.cr[0], u.cb[0]) + rest;
      UnitStep(luma, chroma, i, i + 4 * |units|, u, y, cr, cb, tail);
      ScanRoundTrip(luma, chroma, i + 4, more, u.y2[0], u.cr[0], u.cb[0], rest);
      assert LastDcs(units, y, cr, cb) == LastDcs(more, u.y2[0], u.cr[0], u.cb[0]);
    }
  }
}
