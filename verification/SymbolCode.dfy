/** Huffman codes as bit strings: what a table says about a bit stream, independently of the
    window the decoder looks through. */
module SymbolCode {
  import opened Words
  import opened HuffmanTable

  ghost function CodeBits(t: Table, i: nat): (bits: seq<bool>)
    requires t.WellFormed() && i < |t.lens|
    ensures |bits| == t.lens[i]
  {
    Bits(Code(t.lens, i), t.lens[i])
  }

  /** The first entry from i on whose code begins the stream, or the number of entries. */
  ghost function FirstMatch(t: Table, bits: seq<bool>, i: nat): (k: nat)
    requires t.WellFormed() && i <= |t.lens|
    ensures i <= k <= |t.lens|
    ensures k < |t.lens| ==> CodeBits(t, k) <= bits
    decreases |t.lens| - i
  {
    if i == |t.lens| || CodeBits(t, i) <= bits then i else FirstMatch(t, bits, i + 1)
  }

  datatype Symbol = Found(symbol: Byte, rest: seq<bool>) | Missing(rest: seq<bool>)

  /** What the decoder's lookup makes of a stream: the symbol whose code comes first, unless that is
      the table's last entry, which the lookup never accepts. */
  ghost function ReadSymbol(t: Table, bits: seq<bool>): (s: Symbol)
    requires t.WellFormed()
    ensures |s.rest| <= |bits| && (s.Missing? ==> s.rest == bits)
    ensures s.Found? ==> s.symbol in t.symbols
  {
    var i := FirstMatch(t, bits, 0);
    if i + 1 < |t.lens| then Found(t.symbols[i], bits[t.lens[i]..]) else Missing(bits)
  }

  lemma BitsInjective(v: nat, w: nat, n: nat)
    requires v < Pow2(n) && w < Pow2(n)
    ensures Bits(v, n) == Bits(w, n) <==> v == w
  {
    ValueOfBits(v, n);
    ValueOfBits(w, n);
  }

  /** No code begins another one. */
  lemma CodesExclusive(t: Table, i: nat, j: nat, bits: seq<bool>)
    requires t.Fits() && i < j < |t.lens|
    ensures !(CodeBits(t, i) <= bits && CodeBits(t, j) <= bits)
  {
    hide Up, Down, Bits;
    if CodeBits(t, i) <= bits && CodeBits(t, j) <= bits {
      var ci, cj, ni, nj := Code(t.lens, i), Code(t.lens, j), t.lens[i] as nat, t.lens[j] as nat;
      CodeFits(t, i);
      CodeFits(t, j);
      assert CodeBits(t, j)[..ni] == CodeBits(t, i);
      BitsSplit(cj, nj, ni);
      StartIsCode(t, j);
      EndsInTime(t, j);
      var w := Start(t.lens, j);
      DownUp(cj, 32 - nj);
      DownDown(w, 32 - nj, nj - ni);
      TopIsSmall(w, ni);
      BitsInjective(Down(cj, nj - ni), ci, ni);
      RowMatches(t, i, w);
      if i + 1 < j {
        StartStrict(t.lens, i + 1, j);
      }
      assert false;
    }
  }

  lemma {:induction false} FirstMatchIs(t: Table, bits: seq<bool>, k: nat, i: nat)
    requires t.Fits() && i <= k < |t.lens| && CodeBits(t, k) <= bits
    ensures FirstMatch(t, bits, i) == k
    decreases k - i
  {
    if i < k {
      CodesExclusive(t, i, k, bits);
      FirstMatchIs(t, bits, k, i + 1);
    }
  }

  /** The code of an entry is read back as its symbol and nothing more is consumed, exactly when it
      is not the last entry of the table. */
  lemma ReadCode(t: Table, i: nat, rest: seq<bool>)
    requires t.Fits() && i < |t.lens|
    ensures ReadSymbol(t, CodeBits(t, i) + rest) ==
            if i + 1 < |t.lens| then Found(t.symbols[i], rest) else Missing(CodeBits(t, i) + rest)
  {
    hide CodeBits;
    var bits := CodeBits(t, i) + rest;
    assert CodeBits(t, i) <= bits;
    FirstMatchIs(t, bits, i, 0);
    assert bits[t.lens[i]..] == rest;
  }
}
