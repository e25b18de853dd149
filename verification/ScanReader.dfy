/** The decoder's bit window: the nested functions `readXC` and `readTable` and the scan loop, run
    over the bytes of the picture, and the bit stream they stand for. */
module ScanReader {
  import opened Words
  import opened HuffmanTable
  import opened SymbolCode
  import opened Unstuffing
  import opened BlockCode

  /** The valid bits of a left-aligned window. */
  function Window(data: nat, bitlen: nat): (bits: seq<bool>)
    requires bitlen <= 32
    ensures |bits| == bitlen
  {
    Bits(Down(data, 32 - bitlen), bitlen)
  }

  ghost predicate Clean(data: nat, bitlen: nat)
  {
    bitlen <= 32 && data < WORD && Low(data, 32 - bitlen) == 0
  }

  /** Or-ing a byte in behind the valid bits appends its bits. */
  lemma PushByte(data: Word, bitlen: nat, b: Byte)
    requires bitlen <= 24 && Clean(data, bitlen)
    ensures Clean(BitOr(data, Up(b, 24 - bitlen)), bitlen + 8)
    ensures Window(BitOr(data, Up(b, 24 - bitlen)), bitlen + 8) == Window(data, bitlen) + Bits(b, 8)
  {
    hide Up, Down, Low, Bits, BitOr;
    var k, top := 24 - bitlen, Down(data, 32 - bitlen);
    Pow2Values();
    Split(data, 32 - bitlen);
    UpUp(top, 8, k);
    UpUp(1, 8, k);
    UpMono(256, b, k);
    BitOrIsAdd(data, Up(b, k), 32 - bitlen);
    UpAdd(Up(top, 8), b, k);
    var joined := Up(top, 8) + b;
    assert BitOr(data, Up(b, k)) == Up(joined, k);
    DownUp(joined, k);
    BitsConcat(top, bitlen, b, 8);
    TopIsSmall(data, bitlen);
    UpMono(top + 1, Pow2(bitlen), 8);
    UpAdd(top, 1, 8);
    UpUp(1, bitlen, 8);
    UpUp(1, bitlen + 8, k);
    UpMono(Pow2(bitlen + 8), joined, k);
  }

  /** Shifting the window left drops its first bits. */
  lemma DropBits(data: Word, bitlen: nat, n: nat)
    requires Clean(data, bitlen) && n <= bitlen
    ensures Clean(Shl(data, n), bitlen - n)
    ensures Window(Shl(data, n), bitlen - n) == Window(data, bitlen)[n..]
  {
    hide Up, Down, Low, Bits;
    var k, m := 32 - bitlen, bitlen - n;
    var top := Down(data, k);
    var hi, lo := Down(top, m), Low(top, m);
    Split(data, k);
    Split(top, m);
    UpUp(top, k, n);
    UpAdd(Up(hi, m), lo, k + n);
    UpUp(hi, m, k + n);
    UpUp(1, m, k + n);
    UpMono(Pow2(m), lo, k + n);
    SplitUnique(hi, Up(lo, k + n), 32);
    DownUp(lo, k + n);
    BitsSplit(top, bitlen, n);
    ShlIsWord(data, n);
  }

  /** The top bits of a word are the first bits of the window. */
  lemma FirstBits(data: Word, bitlen: nat, n: nat)
    requires Clean(data, bitlen) && n <= bitlen
    ensures Window(data, bitlen)[..n] == Bits(Down(data, 32 - n), n)
    ensures Value(Window(data, bitlen)[..n]) == Down(data, 32 - n)
  {
    hide Up, Down, Low, Bits, Value;
    BitsSplit(Down(data, 32 - bitlen), bitlen, n);
    DownDown(data, 32 - bitlen, bitlen - n);
    TopIsSmall(data, n);
    ValueOfBits(Down(data, 32 - n), n);
  }

  /** A row matches the window exactly when its code begins the window. */
  lemma RowMatchesWindow(t: Table, i: nat, data: Word, bitlen: nat)
    requires t.Fits() && i < |t.lens| && t.lens[i] <= bitlen && Clean(data, bitlen)
    ensures BitAnd(data, Rows(t)[i].mask) == Rows(t)[i].bits <==> CodeBits(t, i) <= Window(data, bitlen)
  {
    hide Up, Down, Low, Bits, BitAnd, Code, Window, Clean;
    var len: nat := t.lens[i];
    FirstBits(data, bitlen, len);
    RowMatches(t, i, data);
    CodeFits(t, i);
    TopIsSmall(data, len);
    BitsInjective(Down(data, 32 - len), Code(t.lens, i), len);
  }

  const MASK: seq<nat> := [
    0x0, 0x1, 0x3, 0x7, 0xf, 0x1f, 0x3f, 0x7f, 0xff, 0x1ff, 0x3ff, 0x7ff, 0xfff, 0x1fff, 0x3fff, 0x7fff, 0xffff
  ]

  lemma {:induction false} MaskIsOnes(n: nat)
    requires n <= 16
    ensures MASK[n] == Pow2(n) - 1
  {
    if n > 0 {
      MaskIsOnes(n - 1);
      assert MASK[n] == 2 * MASK[n - 1] + 1;
    }
  }

  /** The bits a refill may look at: 15 in the window and two bytes. */
  const LOOKAHEAD: nat := 31

  /** One turn of the AC loop, on the bit stream. */
  lemma AcTurn(t: Table, j: nat, table: seq<int>, bits: seq<bool>)
    requires t.WellFormed() && |table| >= 79 && j < 63
    ensures var s := ReadSymbol(t, bits);
            && |s.rest| >= |DecodeAc(t, j, table, bits).rest|
            && DecodeAc(t, j, table, bits) ==
               if s.Missing? then AcResult(false, table, bits)
               else if s.symbol % 16 == 0 then
                 if s.symbol / 16 == 15 then DecodeAc(t, j + 16, table, s.rest) else AcResult(true, table, s.rest)
               else if |s.rest| < s.symbol % 16 then AcResult(false, table, s.rest)
               else
                 var v := HuffExtend(Value(s.rest[..s.symbol % 16]), s.symbol % 16);
                 DecodeAc(t, j + s.symbol / 16 + 1, table[j + s.symbol / 16 + 1 := v], s.rest[s.symbol % 16..])
  {
    hide ReadSymbol, HuffExtend, Value;
  }

  lemma AcDone(t: Table, j: nat, table: seq<int>, bits: seq<bool>)
    requires t.WellFormed() && |table| >= 79 && j >= 63
    ensures DecodeAc(t, j, table, bits) == AcResult(j == 63, table, bits)
  {
  }

  class Reader {
    const src: seq<Byte>
    var gpos: nat
    var data: Word
    var bitlen: int

    ghost predicate Valid()
      reads this
    {
      0 <= bitlen <= 31 && Clean(data, bitlen) && gpos <= |src|
    }

    /** The bit stream still to decode: the window, then the bytes not yet fetched, unstuffed. */
    ghost function Remaining(): seq<bool>
      reads this
      requires Valid()
    {
      Window(data, bitlen) + BytesBits(Unstuff(src[gpos..]))
    }

    /** `data | (uc << (24 - bitlen))` and `bitlen += 8` */
    method Push(uc: Byte)
      requires 0 <= bitlen <= 24 && Clean(data, bitlen)
      modifies this`data, this`bitlen
      ensures bitlen == old(bitlen) + 8 && Clean(data, bitlen)
      ensures Window(data, bitlen) == old(Window(data, bitlen)) + Bits(uc, 8)
    {
      PushByte(data, bitlen, uc);
      data := BitOr(data, Up(uc, 24 - bitlen));
      bitlen := bitlen + 8;
    }

    /** The first two bytes of the scan fill half the window. */
    constructor (src: seq<Byte>, gpos: nat)
      requires gpos + 2 <= |src|
      ensures this.src == src && Valid() && bitlen == 16
      ensures Remaining() == BytesBits(ScanBytes(src[gpos..]))
    {
      this.src := src;
      this.gpos := gpos + 2;
      this.data := 0;
      this.bitlen := 0;
      new;
      LowSmall(0, 32);
      Push(src[gpos]);
      Push(src[gpos + 1]);
      FirstTwo(src[gpos..]);
      assert src[gpos..][2..] == src[gpos + 2..];
    }

    /** Both refill loops of readXC: fill the window to at least 16 bits, dropping
        the zero byte after an FF. */
    method Refill()
      requires Valid() && |Remaining()| >= LOOKAHEAD
      modifies this`gpos, this`data, this`bitlen
      ensures Valid() && bitlen >= 16 && Remaining() == old(Remaining())
    {
      hide Window, BytesBits, Unstuff, Bits, Clean;
      while bitlen < 16
        invariant Valid() && Remaining() == old(Remaining())
        decreases 32 - bitlen
      {
        ghost var s, front := src[gpos..], Window(data, bitlen);
        UnstuffFront(s);
        var uc := src[gpos];
        gpos := gpos + 1;
        Push(uc);
        if uc == 255 {
          uc := src[gpos];
          gpos := gpos + 1;
          if uc == 0 {
            uc := src[gpos];
            gpos := gpos + 1;
          }
          Push(uc);
          assert src[gpos..] == if s[1] == 0 then s[3..] else s[2..];
          Joined(front, Bits(255, 8), Bits(uc, 8), BytesBits(Unstuff(src[gpos..])));
        } else {
          assert src[gpos..] == s[1..];
          Joined(front, [], Bits(uc, 8), BytesBits(Unstuff(src[gpos..])));
        }
        assert Remaining() == front + BytesBits(Unstuff(s));
      }
    }

    /** `data << n`, dropping n bits. */
    method Drop(n: nat)
      requires Valid() && n <= bitlen
      modifies this`data, this`bitlen
      ensures Valid() && bitlen == old(bitlen) - n
      ensures Remaining() == old(Remaining())[n..]
    {
      DropBits(data, bitlen, n);
      data := Shl(data, n);
      bitlen := bitlen - n;
    }

    /** The search loop of readXC: the row that matches the window, unless the index runs past the table.
        The index is advanced before it is tested, so the last row does not count. */
    method Match(lookup: Lookup, ghost t: Table) returns (res: int, bitsUsed: nat)
      requires Valid() && bitlen >= 16 && t.Fits() && lookup.Holds(t)
      ensures var i := FirstMatch(t, Remaining(), 0);
              if i + 1 < |t.lens| then res == t.symbols[i] && bitsUsed == t.lens[i] else res == -1
    {
      hide Window, BytesBits, Unstuff, Bits, Clean, BitAnd, CodeBits, Start, TopMask, Shl, Rows;
      ghost var bits := Remaining();
      var ind, done := 0, false;
      res, bitsUsed := -1, 0;
      while !done
        invariant 0 <= ind && (ind == 0 || ind < lookup.size)
        invariant !done && ind <= |t.lens| ==> FirstMatch(t, bits, 0) == FirstMatch(t, bits, ind)
        invariant done ==> ind > 0 && FirstMatch(t, bits, 0) == ind - 1
        invariant done ==> res == t.symbols[ind - 1] && bitsUsed == t.lens[ind - 1]
        decreases !done, lookup.rows.Length - ind
      {
        var row := lookup.rows[ind];
        if ind < lookup.size {
          MatchesHere(lookup, t, ind);
        }
        if BitAnd(data, row.mask) == row.bits {
          res, bitsUsed, done := row.symbol, row.bitlen, true;
        }
        ind := ind + 1;
        if ind >= lookup.size {
          res := -1;
          return;
        }
      }
    }

    /** readXC: the next symbol, or -1 with nothing dropped. */
    method ReadXC(lookup: Lookup, ghost t: Table) returns (res: int)
      requires Valid() && t.Fits() && lookup.Holds(t)
      requires |ReadSymbol(t, Remaining()).rest| >= LOOKAHEAD
      modifies this`gpos, this`data, this`bitlen
      ensures Valid() && Remaining() == ReadSymbol(t, old(Remaining())).rest && bitlen >= 16
      ensures var s := ReadSymbol(t, old(Remaining()));
              res == if s.Found? then s.symbol else -1
    {
      hide Window, BytesBits, Unstuff, Bits, Clean, CodeBits;
      Refill();
      var bitsUsed;
      res, bitsUsed := Match(lookup, t);
      if res < 0 {
        return;
      }
      Drop(bitsUsed);
      Refill();
    }

    /** `(data >> (32 - n)) & mask[n]`, `data <<= n`, `bitlen -= n` */
    method Take(n: nat) returns (v: nat)
      requires Valid() && n <= 16 <= bitlen
      modifies this`data, this`bitlen
      ensures Valid() && bitlen == old(bitlen) - n
      ensures n <= old(|Remaining()|) && v == Value(old(Remaining())[..n])
      ensures Remaining() == old(Remaining())[n..]
    {
      MaskIsOnes(n);
      TopBits(data, n);
      FirstBits(data, bitlen, n);
      assert Remaining()[..n] == Window(data, bitlen)[..n];
      v := BitAnd(Sar(data, 32 - n), MASK[n]);
      Drop(n);
    }

    method Store(table: array<int>, i: nat, v: int)
      requires i < table.Length
      modifies table
      ensures table[..] == old(table[..])[i := v]
    {
      table[i] := v;
    }

    /** The loop of readTable: the AC coefficients, from `table[1]` on. */
    method ReadAc(lookup: Lookup, ghost t: Table, table: array<int>) returns (j: int)
      requires Valid() && t.Fits() && lookup.Holds(t) && table.Length >= 79
      requires |DecodeAc(t, 0, table[..], Remaining()).rest| >= LOOKAHEAD
      modifies this`gpos, this`data, this`bitlen, table
      ensures Valid() && var r := DecodeAc(t, 0, old(table[..]), old(Remaining()));
              && (r.ok ==> 0 <= j <= 63 && table[..] == r.table)
              && (!r.ok ==> j < 0 || j > 63) && Remaining() == r.rest
    {
      hide Window, BytesBits, Unstuff, Bits, Clean, ReadSymbol, HuffExtend, Value, Rows, DecodeAc, Table.Fits;
      ghost var goal := DecodeAc(t, 0, table[..], Remaining());
      j := 0;
      var eob := false;
      while j < 63 && !eob
        invariant Valid() && 0 <= j <= 78
        invariant !eob ==> goal == DecodeAc(t, j, table[..], Remaining())
        invariant eob ==> j < 63 && goal == AcResult(true, table[..], Remaining())
        decreases 78 - j, !eob
      {
        AcTurn(t, j, table[..], Remaining());
        var comb := ReadXC(lookup, t);
        if comb < 0 {
          j := -1;
          return;
        }
        var val, repeat := comb % 16, comb / 16;
        if val == 0 {
          if repeat == 0x0f {
            j := j + 16;
          } else {
            eob := true;
          }
        } else {
          j := j + repeat;
          var v := Take(val);
          j := j + 1;
          Store(table, j, HuffExtend(v, val));
        }
      }
      if !eob {
        AcDone(t, j, table[..], Remaining());
      }
    }

    /** readTable: one block into the first 64 entries of the table, and the predictor. */
    method ReadTable(dcLookup: Lookup, acLookup: Lookup, ghost dcT: Table, ghost acT: Table,
                     lastDC: int, table: array<int>) returns (ret: int, newDC: int)
      requires Valid() && DcTable(dcT) && acT.Fits() && dcLookup.Holds(dcT) && acLookup.Holds(acT)
      requires table.Length >= 79
      requires |DecodeBlock(dcT, acT, lastDC, Remaining()).rest| >= LOOKAHEAD
      modifies this`gpos, this`data, this`bitlen, table
      ensures Valid() && var b := DecodeBlock(dcT, acT, lastDC, old(Remaining()));
              && ret == (if b.Block? then 0 else -1) && newDC == b.dc && Remaining() == b.rest
              && (b.Block? ==> table[..64] == b.coefs)
    {
      hide Window, BytesBits, Unstuff, Bits, Clean, ReadSymbol, HuffExtend, Value, DecodeAc, Rows;
      newDC := lastDC;
      var j := 0;
      while j < 64
        modifies table
        invariant 0 <= j <= 64 && forall i :: 0 <= i < j ==> table[i] == 0
      {
        table[j] := 0;
        j := j + 1;
      }
      var size := ReadXC(dcLookup, dcT);
      if size < 0 {
        return -1, lastDC;
      }
      assert size <= 16;
      var v := Take(size);
      newDC := HuffExtend(v, size) + lastDC;
      table[0] := newDC;
      assert table[..64] == Zeros(79)[0 := newDC][..64];
      AcAgrees(acT, 0, table[..], Zeros(79)[0 := newDC], Remaining());
      j := ReadAc(acLookup, acT, table);
      ret := if 0 <= j <= 63 then 0 else -1;
    }

    /** One of the four calls of readTable in a unit: the next block, of component c. */
    method NextBlock(dcLookup: Lookup, acLookup: Lookup, c: nat, preds: seq<int>, blocks: seq<seq<int>>,
                     table: array<int>, ghost coders: seq<Coder>, ghost i: nat, ghost n: nat)
      returns (ok: bool, preds': seq<int>, blocks': seq<seq<int>>)
      requires Valid() && Coders(coders) && i < n && |preds| == 3 && c == Component(i)
      requires dcLookup.Holds(coders[c].dc) && acLookup.Holds(coders[c].ac) && table.Length >= 79
      requires |DecodeScan(coders, i, n, preds, Remaining()).rest| >= LOOKAHEAD
      modifies this`gpos, this`data, this`bitlen, table
      ensures Valid() && |preds'| == 3
      ensures var r := DecodeScan(coders, i, n, preds, old(Remaining()));
              if ok
              then r.(blocks := blocks + r.blocks) ==
                   var q := DecodeScan(coders, i + 1, n, preds', Remaining()); q.(blocks := blocks' + q.blocks)
              else r.(blocks := blocks + r.blocks) == ScanResult(false, blocks', preds', Remaining())
    {
      hide Window, BytesBits, Unstuff, Bits, Clean, DecodeBlock, Rows, Component;
      var ret, dc := ReadTable(dcLookup, acLookup, coders[c].dc, coders[c].ac, preds[c], table);
      ok, preds', blocks' := ret >= 0, preds[c := dc], blocks;
      if ok {
        blocks' := blocks + [table[..64]];
        ghost var q := DecodeScan(coders, i + 1, n, preds', Remaining());
        assert blocks + ([table[..64]] + q.blocks) == blocks' + q.blocks;
      }
    }

    /** The body of the loop over units, without the sums formed from the coefficients. */
    method NextUnit(tabs: seq<Lookup>, tabDC: nat, tabAC: nat, preds: seq<int>, blocks: seq<seq<int>>,
                    ghost coders: seq<Coder>, ghost i: nat, ghost n: nat)
      returns (ok: bool, preds': seq<int>, blocks': seq<seq<int>>)
      requires Valid() && Coders(coders) && coders[1] == coders[2] && i % 4 == 0 && i + 4 <= n && |preds| == 3
      requires |tabs| == 4 && tabDC < 4 && tabAC < 4
      requires tabs[tabDC].Holds(coders[0].dc) && tabs[tabAC].Holds(coders[0].ac)
      requires tabs[2].Holds(coders[1].dc) && tabs[3].Holds(coders[1].ac)
      requires |DecodeScan(coders, i, n, preds, Remaining()).rest| >= LOOKAHEAD
      modifies this`gpos, this`data, this`bitlen
      ensures Valid() && |preds'| == 3
      ensures var r := DecodeScan(coders, i, n, preds, old(Remaining()));
              r.(blocks := blocks + r.blocks) ==
              if ok
              then var q := DecodeScan(coders, i + 4, n, preds', Remaining()); q.(blocks := blocks' + q.blocks)
              else ScanResult(false, blocks', preds', Remaining())
    {
      hide Window, BytesBits, Unstuff, Bits, Clean, DecodeScan, Lookup.Holds, Coders;
      var table := new int[128];
      ok, preds', blocks' := NextBlock(tabs[tabDC], tabs[tabAC], 0, preds, blocks, table, coders, i, n);
      if ok {
        ok, preds', blocks' := NextBlock(tabs[tabDC], tabs[tabAC], 0, preds', blocks', table, coders, i + 1, n);
      }
      if ok {
        ok, preds', blocks' := NextBlock(tabs[2], tabs[3], 1, preds', blocks', table, coders, i + 2, n);
      }
      if ok {
        ok, preds', blocks' := NextBlock(tabs[2], tabs[3], 2, preds', blocks', table, coders, i + 3, n);
      }
    }

    /** `cnt` units of four blocks, stopping at the first that cannot be read. */
    method Scan(tabs: seq<Lookup>, tabDC: nat, tabAC: nat, cnt: nat, ghost coders: seq<Coder>)
      returns (ok: bool, preds: seq<int>, blocks: seq<seq<int>>)
      requires Valid() && Coders(coders) && coders[1] == coders[2]
      requires |tabs| == 4 && tabDC < 4 && tabAC < 4
      requires tabs[tabDC].Holds(coders[0].dc) && tabs[tabAC].Holds(coders[0].ac)
      requires tabs[2].Holds(coders[1].dc) && tabs[3].Holds(coders[1].ac)
      requires |DecodeScan(coders, 0, 4 * cnt, [0, 0, 0], Remaining()).rest| >= LOOKAHEAD
      modifies this`gpos, this`data, this`bitlen
      ensures Valid()
      ensures DecodeScan(coders, 0, 4 * cnt, [0, 0, 0], old(Remaining())) == ScanResult(ok, blocks, preds, Remaining())
    {
      hide Window, BytesBits, Unstuff, Bits, Clean, DecodeScan, Lookup.Holds, Coders;
      ghost var goal := DecodeScan(coders, 0, 4 * cnt, [0, 0, 0], Remaining());
      preds, blocks, ok := [0, 0, 0], [], true;
      assert [] + goal.blocks == goal.blocks;
      var i := 0;
      while i < cnt
        modifies this`gpos, this`data, this`bitlen
        invariant Valid() && 0 <= i <= cnt && |preds| == 3 && ok
        invariant var r := DecodeScan(coders, 4 * i, 4 * cnt, preds, Remaining());
                  goal == r.(blocks := blocks + r.blocks)
      {
        ok, preds, blocks := NextUnit(tabs, tabDC, tabAC, preds, blocks, coders, 4 * i, 4 * cnt);
        if !ok {
          return;
        }
        i := i + 1;
      }
      ScanNothing(coders, 4 * cnt, preds, Remaining());
    }

    /** A stored row matches the window exactly when its code begins the remaining bits. */
    lemma MatchesHere(lookup: Lookup, t: Table, ind: nat)
      requires Valid() && bitlen >= 16 && t.Fits() && lookup.Holds(t) && ind < lookup.size
      ensures lookup.rows[ind] == RowOf(t, ind)
      ensures BitAnd(data, lookup.rows[ind].mask) == lookup.rows[ind].bits <==> CodeBits(t, ind) <= Remaining()
    {
      hide Window, BytesBits, Unstuff, Bits, Clean, BitAnd, CodeBits;
      assert lookup.rows[ind] == lookup.rows[..lookup.size][ind];
      RowMatchesWindow(t, ind, data, bitlen);
    }
  }

  lemma Joined(a: seq<bool>, b: seq<bool>, c: seq<bool>, d: seq<bool>)
    ensures a + b + c + d == a + (b + c + d) && a + [] + c + d == a + c + d && [] + c + d == c + d
  {
  }

  lemma FirstTwo(s: seq<Byte>)
    requires |s| >= 2
    ensures BytesBits(ScanBytes(s)) == [] + Bits(s[0], 8) + Bits(s[1], 8) + BytesBits(Unstuff(s[2..]))
  {
    hide Bits;
    BytesBitsConcat(s[..2], Unstuff(s[2..]));
    assert s[..2][1..] == [s[1]] && [s[1]][1..] == [];
    assert BytesBits(s[..2]) == Bits(s[0], 8) + (Bits(s[1], 8) + []);
  }

  lemma TwoBytes(x: Byte, y: Byte, s: seq<Byte>)
    ensures BytesBits([x, y] + s) == Bits(x, 8) + Bits(y, 8) + BytesBits(s)
  {
    hide Bits, BytesBits;
    FirstByte(y, s);
    FirstByte(x, [y] + s);
    assert [x, y] + s == [x] + ([y] + s);
  }

  /** With two bytes to come, the front of the stream is what the refill loop fetches. */
  lemma UnstuffFront(s: seq<Byte>)
    requires |Unstuff(s)| >= 2
    ensures |s| >= 2 && (s[0] == 255 && s[1] == 0 ==> |s| >= 3)
    ensures BytesBits(Unstuff(s)) ==
            if s[0] != 255 then Bits(s[0], 8) + BytesBits(Unstuff(s[1..]))
            else if s[1] != 0 then Bits(255, 8) + Bits(s[1], 8) + BytesBits(Unstuff(s[2..]))
            else Bits(255, 8) + Bits(s[2], 8) + BytesBits(Unstuff(s[3..]))
  {
    hide Bits, BytesBits;
    var u := Unstuff(s);
    if s[0] != 255 {
      FirstByte(s[0], Unstuff(s[1..]));
    } else if s[1] != 0 {
      TwoBytes(255, s[1], Unstuff(s[2..]));
    } else {
      TwoBytes(255, s[2], Unstuff(s[3..]));
    }
  }

  /** What is asked of a picture: its units are coded as the standard says, without any table's last
      entry, into bytes that do not begin with FF and nowhere hold FF FF; those bytes, stuffed, stand
      in the scan, with enough behind them for the refill loops to look at. */
  ghost predicate Sent(luma: Coder, chroma: Coder, units: seq<Unit>, bytes: seq<Byte>, tail: seq<Byte>)
  {
    && UnitsCodable(luma, chroma, units, 0, 0, 0) && UnitsAvoidLast(luma, chroma, units, 0, 0, 0)
    && |bytes| >= 2 && bytes[0] != 255 && bytes[1] != 255 && NoDoubleFF(bytes[2..])
    && EncodeUnits(luma, chroma, units, 0, 0, 0) <= BytesBits(bytes)
    && 8 * |bytes + Trailing(bytes[2..], tail)| >= |EncodeUnits(luma, chroma, units, 0, 0, 0)| + LOOKAHEAD
  }

  /** From stuffed bytes to blocks: the scan decodes to what was sent, whatever bytes follow it. */
  lemma PictureRoundTrip(luma: Coder, chroma: Coder, units: seq<Unit>, bytes: seq<Byte>, tail: seq<Byte>)
    requires Coders([luma, chroma, chroma]) && Sent(luma, chroma, units, bytes, tail)
    ensures |Stuff(bytes)| >= 2
    ensures var scan := BytesBits(ScanBytes(Stuff(bytes) + tail));
            var r := DecodeScan([luma, chroma, chroma], 0, 4 * |units|, [0, 0, 0], scan);
            r.ok && r.blocks == Blocks(units) && |r.rest| >= LOOKAHEAD
  {
    hide BytesBits, Unstuff, Stuff, DecodeScan, EncodeUnits, Trailing, NoDoubleFF, Coders, UnitsCodable, UnitsAvoidLast;
    ScanOfStuffed(bytes, tail);
    var code, all := EncodeUnits(luma, chroma, units, 0, 0, 0), BytesBits(bytes + Trailing(bytes[2..], tail));
    BytesBitsConcat(bytes, Trailing(bytes[2..], tail));
    assert all == code + all[|code|..];
    UnitsRange(luma, chroma, units, 0, 0, 0);
    ScanRoundTrip(luma, chroma, 0, units, 0, 0, 0, all[|code|..]);
  }

  /** The same of the program: starting the window at the scan and running the loop. */
  method DecodePicture(src: seq<Byte>, gpos: nat, tabs: seq<Lookup>, tabDC: nat, tabAC: nat, cnt: nat,
                       ghost luma: Coder, ghost chroma: Coder, ghost sent: seq<Unit>, ghost bytes: seq<Byte>,
                       ghost tail: seq<Byte>)
    returns (ok: bool, blocks: seq<seq<int>>)
    requires Coders([luma, chroma, chroma]) && |tabs| == 4 && tabDC < 4 && tabAC < 4
    requires tabs[tabDC].Holds(luma.dc) && tabs[tabAC].Holds(luma.ac)
    requires tabs[2].Holds(chroma.dc) && tabs[3].Holds(chroma.ac)
    requires |sent| == cnt && Sent(luma, chroma, sent, bytes, tail)
    requires gpos <= |src| && src[gpos..] == Stuff(bytes) + tail
    ensures ok && blocks == Blocks(sent)
  {
    hide BytesBits, Unstuff, Stuff, DecodeScan, Coders, Sent, Lookup.Holds;
    PictureRoundTrip(luma, chroma, sent, bytes, tail);
    var reader := new Reader(src, gpos);
    var preds;
    ok, preds, blocks := reader.Scan(tabs, tabDC, tabAC, cnt, [luma, chroma, chroma]);
  }
}
