/** The Huffman tables the decoder builds from a DHT segment, and what they mean.

    A table with code lengths `lens` cuts the 32-bit windows into consecutive intervals: entry i
    owns [Start(i), Start(i + 1)), of size 2^(32 - lens[i]).  The lookup entries (bits, mask)
    that the segment loop computes match exactly those intervals. */
module HuffmanTable {
  import opened Words
  import opened Wrappers

  const CAPACITY: nat := 162

  /** One row of the parallel lookup arrays. */
  datatype Row = Row(symbol: Byte, bits: Word, mask: Word, bitlen: nat)

  type Length = n: int | 1 <= n <= 16 witness 1

  /** How many bits of a 32-bit window follow a code of the given length. */
  function Tail(len: Length): (k: nat)
    ensures k + len == 32
  {
    32 - (len as int)
  }

  /** A table as the segment lists it: entry i has code length `lens[i]` and symbol `symbols[i]`. */
  datatype Table = Table(lens: seq<Length>, symbols: seq<Byte>)
  {
    ghost predicate WellFormed()
    {
      |lens| == |symbols| && Sorted(lens)
    }

    /** The Kraft sum is at most 1: there is room for all codes. */
    ghost predicate Fits()
    {
      WellFormed() && Start(lens, |lens|) <= WORD
    }
  }

  // ----- code lengths -----

  ghost predicate Sorted(lens: seq<Length>)
  {
    forall i, j :: 0 <= i < j < |lens| ==> lens[i] <= lens[j]
  }

  function Repeat(len: Length, n: nat): (lens: seq<Length>)
    ensures |lens| == n && forall i :: 0 <= i < n ==> lens[i] == len
  {
    if n == 0 then [] else Repeat(len, n - 1) + [len]
  }

  /** The code lengths that the first n counts list. */
  function Lengths(counts: seq<Byte>, n: nat): (lens: seq<Length>)
    requires n <= |counts| <= 16
    ensures forall i :: 0 <= i < |lens| ==> lens[i] <= n
  {
    if n == 0 then [] else Lengths(counts, n - 1) + Repeat(n, counts[n - 1])
  }

  lemma {:induction false} LengthsAt(counts: seq<Byte>, n: nat, len: nat, j: nat)
    requires 1 <= len <= n <= |counts| <= 16 && j < counts[len - 1]
    ensures |Lengths(counts, len - 1)| + j < |Lengths(counts, n)|
    ensures Lengths(counts, n)[|Lengths(counts, len - 1)| + j] == len
  {
    if len < n {
      LengthsAt(counts, n - 1, len, j);
    }
  }

  lemma {:induction false} LengthsSorted(counts: seq<Byte>, n: nat)
    requires n <= |counts| <= 16
    ensures Sorted(Lengths(counts, n))
  {
    if n > 0 {
      LengthsSorted(counts, n - 1);
    }
  }

  lemma {:induction false} LengthsGrow(counts: seq<Byte>, m: nat, n: nat)
    requires m <= n <= |counts| <= 16
    ensures |Lengths(counts, m)| <= |Lengths(counts, n)|
  {
    if m < n {
      LengthsGrow(counts, m, n - 1);
    }
  }

  // ----- the intervals -----

  /** Where the interval of entry i begins. */
  function Start(lens: seq<Length>, i: nat): nat
    requires i <= |lens|
  {
    if i == 0 then 0 else Start(lens, i - 1) + Pow2(Tail(lens[i - 1]))
  }

  lemma {:induction false} StartStrict(lens: seq<Length>, i: nat, j: nat)
    requires i < j <= |lens|
    ensures Start(lens, i) < Start(lens, j)
  {
    if i < j - 1 {
      StartStrict(lens, i, j - 1);
    }
  }

  /** The code of entry i, as the procedure Generate_code_table of ITU-T T.81 (Annex C.2) assigns
      it: the first code is zero, each next one is the last plus one, extended with zeros. */
  function Code(lens: seq<Length>, i: nat): nat
    requires i < |lens| && Sorted(lens)
  {
    if i == 0 then 0 else Up(Code(lens, i - 1) + 1, Tail(lens[i - 1]) - Tail(lens[i]))
  }

  lemma NextCode(start: nat, code: nat, k: nat, k': nat)
    requires k' <= k && start == Up(code, k)
    ensures start + Pow2(k) == Up(code + 1, k) == Up(Up(code + 1, k - k'), k')
  {
    UpAdd(code, 1, k);
    UpUp(code + 1, k - k', k');
  }

  /** The interval of entry i holds the 32-bit windows that begin with its code. */
  lemma {:induction false} StartIsCode(t: Table, i: nat)
    requires t.WellFormed() && i < |t.lens|
    ensures Start(t.lens, i) == Up(Code(t.lens, i), Tail(t.lens[i]))
    ensures Start(t.lens, i + 1) == Up(Code(t.lens, i) + 1, Tail(t.lens[i]))
  {
    hide Up;
    var k := Tail(t.lens[i]);
    if i == 0 {
      UpMono(0, 0, k);
    } else {
      StartIsCode(t, i - 1);
      NextCode(Start(t.lens, i - 1), Code(t.lens, i - 1), Tail(t.lens[i - 1]), k);
    }
    NextCode(Start(t.lens, i), Code(t.lens, i), k, k);
  }

  lemma EndsInTime(t: Table, i: nat)
    requires t.Fits() && i < |t.lens|
    ensures Start(t.lens, i) < Start(t.lens, i + 1) <= WORD
  {
    if i + 1 < |t.lens| {
      StartStrict(t.lens, i + 1, |t.lens|);
    }
  }

  lemma CodeFits(t: Table, i: nat)
    requires t.Fits() && i < |t.lens|
    ensures Code(t.lens, i) < Pow2(t.lens[i])
  {
    UpUp(1, t.lens[i], Tail(t.lens[i]));
    Pow2Values();
    EndsInTime(t, i);
    StartIsCode(t, i);
    UpMono(Pow2(t.lens[i]), Code(t.lens, i), Tail(t.lens[i]));
  }

  /** The row the segment loop stores for entry i. */
  ghost function RowOf(t: Table, i: nat): Row
    requires t.WellFormed() && i < |t.lens|
  {
    TopMaskIsWord(t.lens[i]);
    ShlIsWord(Start(t.lens, i), 0);
    Row(t.symbols[i], Shl(Start(t.lens, i), 0), TopMask(t.lens[i]), t.lens[i])
  }

  lemma MaskCompare(w: Word, code: nat, len: nat)
    requires len <= 32 && Up(code + 1, 32 - len) <= WORD
    ensures BitAnd(w, TopMask(len)) == Shl(Up(code, 32 - len), 0) <==> Down(w, 32 - len) == code
    ensures Down(w, 32 - len) == code <==> Up(code, 32 - len) <= w < Up(code + 1, 32 - len)
  {
    var k := 32 - len;
    UpMono(code + 1, code, k);
    Pow2Values();
    LowSmall(Up(code, k), 32);
    BitAndTop(w, len);
    UpMono(Down(w, k), code, k);
    UpMono(code, Down(w, k), k);
    DownBound(w, code, k);
    DownBound(w, code + 1, k);
  }

  ghost function Rows(t: Table): (rows: seq<Row>)
    requires t.WellFormed()
    ensures |rows| == |t.lens|
  {
    seq(|t.lens|, i requires 0 <= i < |t.lens| => RowOf(t, i))
  }

  /** The row as the segment loop computes it from the running code value. */
  function MakeRow(symbol: Byte, code: nat, len: nat): Row
    requires len <= 32
  {
    ShlIsWord(code, 32 - len);
    ShlIsWord(Up(1, len) - 1, 32 - len);
    Row(symbol, Shl(code, 32 - len), Shl(Up(1, len) - 1, 32 - len), len)
  }

  lemma MadeRow(t: Table, i: nat, code: nat)
    requires t.WellFormed() && i < |t.lens|
    requires Up(code, Tail(t.lens[i])) == Start(t.lens, i)
    ensures MakeRow(t.symbols[i], code, t.lens[i]) == Rows(t)[i]
  {
    TopMaskIsWord(t.lens[i]);
    Pow2Values();
    LowSmall(TopMask(t.lens[i]), 32);
  }

  /** Mask and compare tests membership of the interval. */
  lemma RowMatches(t: Table, i: nat, w: Word)
    requires t.Fits() && i < |t.lens|
    ensures BitAnd(w, RowOf(t, i).mask) == RowOf(t, i).bits <==> Start(t.lens, i) <= w < Start(t.lens, i + 1)
    ensures BitAnd(w, RowOf(t, i).mask) == RowOf(t, i).bits <==> Down(w, Tail(t.lens[i])) == Code(t.lens, i)
  {
    hide Up, BitAnd, Down, Low;
    StartIsCode(t, i);
    EndsInTime(t, i);
    MaskCompare(w, Code(t.lens, i), t.lens[i]);
  }

  /** No window matches two rows. */
  lemma RowsDisjoint(t: Table, i: nat, j: nat, w: Word)
    requires t.Fits() && i < j < |t.lens|
    ensures !(BitAnd(w, RowOf(t, i).mask) == RowOf(t, i).bits && BitAnd(w, RowOf(t, j).mask) == RowOf(t, j).bits)
  {
    hide Up, BitAnd, Down, Low;
    RowMatches(t, i, w);
    RowMatches(t, j, w);
    if i + 1 < j {
      StartStrict(t.lens, i + 1, j);
    }
  }

  /** Every window below the end of the last interval matches a row. */
  lemma {:induction false} RowsCover(t: Table, n: nat, w: Word) returns (i: nat)
    requires t.Fits() && n <= |t.lens| && w < Start(t.lens, n)
    ensures i < n && BitAnd(w, RowOf(t, i).mask) == RowOf(t, i).bits
  {
    if w < Start(t.lens, n - 1) {
      i := RowsCover(t, n - 1, w);
    } else {
      i := n - 1;
      RowMatches(t, i, w);
    }
  }

  // ----- the Kraft sum -----

  function KraftSum(counts: seq<Byte>, n: nat): nat
    requires n <= |counts| <= 16
  {
    if n == 0 then 0 else KraftSum(counts, n - 1) + Up(counts[n - 1], 16 - n)
  }

  /** The intervals together take the Kraft sum's share of the 2^32 windows, so a table has room
      exactly when its 16 counts have Kraft sum at most 1. */
  lemma {:induction false} StartIsKraftSum(counts: seq<Byte>, lens: seq<Length>, n: nat, j: nat)
    requires 1 <= n <= |counts| == 16 && j <= counts[n - 1]
    requires lens == Lengths(counts, 16)
    requires |Lengths(counts, n - 1)| + j <= |lens|
    ensures Start(lens, |Lengths(counts, n - 1)| + j) == Up(KraftSum(counts, n - 1), 16) + Up(j, 32 - n)
    decreases n, j
  {
    hide Up, Start, Lengths, KraftSum;
    UpMono(0, 0, 32 - n);
    if j > 0 {
      StartIsKraftSum(counts, lens, n, j - 1);
      StartStep(lens, |Lengths(counts, n - 1)| + j - 1);
      LengthsAt(counts, 16, n, j - 1);
      UpAdd(j - 1, 1, 32 - n);
    } else if n > 1 {
      LengthsGrow(counts, n - 1, 16);
      LengthsStep(counts, n - 1);
      StartIsKraftSum(counts, lens, n - 1, counts[n - 2]);
      KraftStep(counts, n - 1);
    } else {
      UpMono(0, 0, 16);
      NoLengths(counts, lens);
    }
  }

  lemma StartStep(lens: seq<Length>, i: nat)
    requires i < |lens|
    ensures Start(lens, i + 1) == Start(lens, i) + Pow2(Tail(lens[i]))
  {
  }

  lemma LengthsStep(counts: seq<Byte>, n: nat)
    requires 0 < n <= |counts| <= 16
    ensures |Lengths(counts, n)| == |Lengths(counts, n - 1)| + counts[n - 1]
  {
  }

  lemma NoLengths(counts: seq<Byte>, lens: seq<Length>)
    requires |counts| == 16
    ensures |Lengths(counts, 0)| == 0 && Start(lens, 0) == 0 && KraftSum(counts, 0) == 0
  {
  }

  lemma KraftStep(counts: seq<Byte>, n: nat)
    requires 1 <= n <= |counts| == 16
    ensures Up(KraftSum(counts, n), 16) == Up(KraftSum(counts, n - 1), 16) + Up(counts[n - 1], 32 - n)
  {
    hide Up;
    UpUp(counts[n - 1], 16 - n, 16);
    UpAdd(KraftSum(counts, n - 1), Up(counts[n - 1], 16 - n), 16);
  }

  lemma FitsIffKraft(counts: seq<Byte>, symbols: seq<Byte>)
    requires |counts| == 16 && |symbols| == |Lengths(counts, 16)|
    ensures Table(Lengths(counts, 16), symbols).Fits() <==> KraftSum(counts, 16) <= 0x1_0000
  {
    hide Up, Start, Lengths, KraftSum, Sorted;
    LengthsSorted(counts, 16);
    LengthsStep(counts, 16);
    StartIsKraftSum(counts, Lengths(counts, 16), 16, counts[15]);
    KraftStep(counts, 16);
    UpMono(KraftSum(counts, 16), 0x1_0000, 16);
    Pow2Values();
    UpUp(1, 16, 16);
  }

  // ----- reading a DHT segment -----

  /** The table listed at `pos`, after its class and destination byte. */
  function Listed(buffer: seq<Byte>, pos: nat): Table
    requires pos + 16 <= |buffer|
    requires pos + 16 + |Lengths(buffer[pos..pos + 16], 16)| <= |buffer|
  {
    var lens := Lengths(buffer[pos..pos + 16], 16);
    Table(lens, buffer[pos + 16..pos + 16 + |lens|])
  }

  lemma ListedWellFormed(buffer: seq<Byte>, pos: nat)
    requires pos + 16 <= |buffer|
    requires pos + 16 + |Lengths(buffer[pos..pos + 16], 16)| <= |buffer|
    ensures Listed(buffer, pos).WellFormed()
  {
    LengthsSorted(buffer[pos..pos + 16], 16);
  }

  class Lookup {
    const rows: array<Row>
    var size: nat

    /** The rows are arbitrary until a segment fills them. */
    constructor ()
      ensures rows.Length == CAPACITY && fresh(rows)
    {
      rows := new Row[CAPACITY];
    }

    ghost predicate Holds(t: Table)
      reads this, rows
    {
      && rows.Length == CAPACITY && t.WellFormed()
      && size == |t.lens| <= CAPACITY
      && rows[..size] == Rows(t)
    }

    /** The first n rows are stored and `codeVal` is the next code, at length `len`. */
    ghost predicate Stored(t: Table, n: nat, codeVal: nat, len: nat)
      requires t.WellFormed() && len <= 32
      reads this, rows
    {
      && rows.Length == CAPACITY && n <= |t.lens| <= CAPACITY
      && Up(codeVal, 32 - len) == Start(t.lens, n)
      && rows[..n] == Rows(t)[..n]
    }

    method StoreRow(ghost t: Table, n: nat, symbol: Byte, codeVal: nat, len: nat)
      requires t.WellFormed() && n < |t.lens| && symbol == t.symbols[n] && len == t.lens[n]
      requires Stored(t, n, codeVal, len)
      modifies rows
      ensures Stored(t, n + 1, codeVal + 1, len)
    {
      hide Up, MakeRow;
      MadeRow(t, n, codeVal);
      UpAdd(codeVal, 1, 32 - len);
      rows[n] := MakeRow(symbol, codeVal, len);
      assert rows[..n + 1] == old(rows[..n]) + [rows[n]];
    }

    /** One listing: counts at `pos`, symbols from `pos + 16`. */
    method Fill(buffer: seq<Byte>, pos: nat) returns (next: nat)
      requires rows.Length == CAPACITY && pos + 16 <= |buffer|
      requires |Lengths(buffer[pos..pos + 16], 16)| <= CAPACITY
      requires pos + 16 + |Lengths(buffer[pos..pos + 16], 16)| <= |buffer|
      modifies this, rows
      ensures Holds(Listed(buffer, pos))
      ensures next == pos + 16 + size
    {
      hide Up, Start, Rows, Sorted;
      ghost var counts := buffer[pos..pos + 16];
      ghost var t := Listed(buffer, pos);
      ListedWellFormed(buffer, pos);
      var pos2, tableInd := pos + 16, 0;
      var codeVal: nat := 0;
      var len := 1;
      NothingStored(t);
      while len <= 16
        invariant 1 <= len <= 17 && tableInd == |Lengths(counts, len - 1)|
        invariant pos2 == pos + 16 + tableInd
        invariant Stored(t, tableInd, codeVal, len)
      {
        LengthsStep(counts, len);
        tableInd, codeVal := FillLength(t, buffer, pos, buffer[pos + len - 1], pos2, tableInd, codeVal, len);
        pos2 := pos2 + buffer[pos + len - 1];
        UpDouble(codeVal, 32 - len);
        codeVal := 2 * codeVal;
        len := len + 1;
      }
      size := tableInd;
      next := pos2;
      assert rows[..size] == Rows(t)[..size] == Rows(t);
    }

    /** The inner loop: the codes of one length. */
    method FillLength(ghost t: Table, buffer: seq<Byte>, ghost pos: nat, codes: Byte, at: nat, first: nat, start: nat,
                      len: nat)
      returns (tableInd: nat, codeVal: nat)
      requires pos + 16 <= |buffer| && 1 <= len <= 16 && codes == buffer[pos + len - 1]
      requires pos + 16 + |Lengths(buffer[pos..pos + 16], 16)| <= |buffer| && t == Listed(buffer, pos) && t.WellFormed()
      requires first == |Lengths(buffer[pos..pos + 16], len - 1)| && at == pos + 16 + first
      requires Stored(t, first, start, len)
      modifies rows
      ensures tableInd == first + codes && Stored(t, tableInd, codeVal, len)
    {
      hide Up, Start, Rows, Sorted, Lengths;
      ghost var counts := buffer[pos..pos + 16];
      var pos2 := at;
      tableInd, codeVal := first, start;
      var ind := 0;
      while ind < codes
        invariant 0 <= ind <= codes && tableInd == first + ind && pos2 == at + ind
        invariant Stored(t, tableInd, codeVal, len)
      {
        LengthsAt(counts, 16, len, ind);
        StoreRow(t, tableInd, buffer[pos2], codeVal, len);
        pos2, tableInd, codeVal, ind := pos2 + 1, tableInd + 1, codeVal + 1, ind + 1;
      }
    }

    lemma NothingStored(t: Table)
      requires rows.Length == CAPACITY && t.WellFormed() && |t.lens| <= CAPACITY
      ensures Stored(t, 0, 0, 1)
    {
      UpMono(0, 0, 31);
    }
  }

  // ----- a whole segment: any number of tables, later ones replacing earlier ones -----

  /** Tables 0 and 2 are the DC ones, 1 and 3 the AC ones. */
  function Slot(classAndId: Byte): nat
  {
    classAndId % 16 * 2 + classAndId / 16
  }

  /** From `pos`, tables for slots 0 to 3 follow each other until `end` is reached. */
  predicate SegmentOk(buffer: seq<Byte>, pos: nat, end: nat)
    decreases |buffer| - pos
  {
    && pos + 17 <= |buffer| && Slot(buffer[pos]) < 4
    && var n := |Lengths(buffer[pos + 1..pos + 17], 16)|;
    && n <= CAPACITY && pos + 17 + n <= |buffer|
    && (pos + 17 + n < end ==> SegmentOk(buffer, pos + 17 + n, end))
  }

  /** What the four slots hold after the segment: each listed table goes to its slot, later ones
      replacing earlier ones. */
  function After(buffer: seq<Byte>, pos: nat, end: nat, slots: seq<Option<Table>>): seq<Option<Table>>
    requires |slots| == 4 && SegmentOk(buffer, pos, end)
    decreases |buffer| - pos
  {
    var t := Listed(buffer, pos + 1);
    var now := slots[Slot(buffer[pos]) := Some(t)];
    var next := pos + 17 + |t.lens|;
    if next < end then After(buffer, next, end, now) else now
  }

  ghost predicate Separate(tabs: seq<Lookup>)
  {
    forall i, j :: 0 <= i < j < |tabs| ==> tabs[i] != tabs[j] && tabs[i].rows != tabs[j].rows
  }

  ghost predicate HoldsAll(tabs: seq<Lookup>, spec: seq<Option<Table>>)
    requires |spec| == |tabs|
    reads tabs, set k | 0 <= k < |tabs| :: tabs[k].rows
  {
    forall k :: 0 <= k < |tabs| && spec[k].Some? ==> tabs[k].Holds(spec[k].value)
  }

  /** The loop over a DHT segment. */
  method ReadSegment(buffer: seq<Byte>, end: nat, tabs: seq<Lookup>, ghost spec: seq<Option<Table>>)
    requires |tabs| == |spec| == 4 && Separate(tabs) && HoldsAll(tabs, spec)
    requires forall k :: 0 <= k < 4 ==> tabs[k].rows.Length == CAPACITY
    requires SegmentOk(buffer, 0, end)
    modifies tabs, set k | 0 <= k < |tabs| :: tabs[k].rows
    ensures |After(buffer, 0, end, spec)| == 4 && HoldsAll(tabs, After(buffer, 0, end, spec))
  {
    var pos := 0;
    ghost var now := spec;
    var more := true;
    while more
      invariant |now| == 4 && HoldsAll(tabs, now)
      invariant more ==> SegmentOk(buffer, pos, end) && After(buffer, pos, end, now) == After(buffer, 0, end, spec)
      invariant !more ==> now == After(buffer, 0, end, spec)
      decreases more, |buffer| - pos
    {
      var tab := Slot(buffer[pos]);
      now := now[tab := Some(Listed(buffer, pos + 1))];
      pos := tabs[tab].Fill(buffer, pos + 1);
      more := pos < end;
    }
  }
}
