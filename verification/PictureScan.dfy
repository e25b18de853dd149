/** check_for_filename (output_file.c): which names the clean-up takes for pictures, and that the worker's names are
    among them. */
module PictureScan {
  import opened Wrappers
  import opened RingBuffer

  /** How many decimal digits stand in front, at most n of them. */
  function Digits(s: string, n: nat): (k: nat)
    ensures k <= n && k <= |s|
    ensures forall i :: 0 <= i < k ==> '0' <= s[i] <= '9'
  {
    if n == 0 || s == [] || s[0] < '0' || '9' < s[0] then 0 else 1 + Digits(s[1..], n - 1)
  }

  /** The number that a text of digits stands for. */
  function Number(s: string): nat
    requires forall i :: 0 <= i < |s| ==> '0' <= s[i] <= '9'
  {
    if s == [] then 0 else 10 * Number(s[..|s| - 1]) + (s[|s| - 1] as int - '0' as int)
  }

  /** sscanf on a text without blanks and signs, for conversions of whole numbers: the width of each, and the text
      that must follow it.  What is returned are the numbers read. */
  function Scan(s: string, format: seq<(nat, string)>): seq<nat>
    decreases |format|
  {
    if format == [] then []
    else
      var (width, text) := format[0];
      var k := Digits(s, width);
      if k == 0 then []
      else if text <= s[k..] then [Number(s[..k])] + Scan(s[k + |text|..], format[1..])
      else [Number(s[..k])]
  }

  /** "%d_%d_%d_%d_%d_%d_picture_%09llu.jpg"; only the last conversion has a width, and the numbers in front of it
      are taken for short. */
  function Scanned(name: Name): seq<nat>
  {
    var w := |name|;
    Scan(name, [(w, "_"), (w, "_"), (w, "_"), (w, "_"), (w, "_"), (w, "_picture_"), (9, ".jpg")])
  }

  /** A name that does not begin with seven numbers at their places is none of the worker's. */
  predicate CheckForFilename(name: Name)
  {
    |Scanned(name)| == 7
  }

  lemma {:induction false} PadIsNumber(n: nat, w: nat)
    ensures (forall i :: 0 <= i < |Pad(n, w)| ==> '0' <= Pad(n, w)[i] <= '9') && Number(Pad(n, w)) == n
    decreases n, w
  {
    PadDigits(n, w);
    if n >= 10 || w > 1 {
      PadIsNumber(n / 10, OneLess(w));
      var s := Pad(n, w);
      assert s[..|s| - 1] == Pad(n / 10, OneLess(w)) && s[|s| - 1] == Digit(n % 10);
    }
  }

  lemma {:induction false} DigitsOfText(a: string, rest: string, n: nat)
    requires |a| <= n && (forall i :: 0 <= i < |a| ==> '0' <= a[i] <= '9')
    requires |a| == n || rest == [] || rest[0] < '0' || '9' < rest[0]
    ensures Digits(a + rest, n) == |a|
  {
    if a != [] {
      assert (a + rest)[1..] == a[1..] + rest;
      DigitsOfText(a[1..], rest, n - 1);
    } else {
      assert a + rest == rest;
    }
  }

  /** One conversion takes the number printed for it. */
  lemma ScanOne(n: nat, w: nat, width: nat, text: string, rest: string, format: seq<(nat, string)>)
    requires format != [] && format[0] == (width, text) && |Pad(n, w)| <= width && text != [] && text[0] > '9'
    ensures Scan(Pad(n, w) + (text + rest), format) == [n] + Scan(rest, format[1..])
  {
    hide Pad, Digits, Number, Scan;
    var a, b := Pad(n, w), text + rest;
    PadIsNumber(n, w);
    DigitsOfText(a, b, width);
    assert (a + b)[..|a|] == a && (a + b)[|a|..] == b && b[|text|..] == rest && text <= b;
    assert (a + b)[|a| + |text|..] == rest;
    ScanStep(a + b, format, width, text);
  }

  lemma {:induction false} ScanStep(s: string, format: seq<(nat, string)>, width: nat, text: string)
    requires format != [] && format[0] == (width, text)
    ensures var k := Digits(s, width);
            Scan(s, format) ==
            if k == 0 then []
            else if text <= s[k..] then [Number(s[..k])] + Scan(s[k + |text|..], format[1..])
            else [Number(s[..k])]
  {
    hide Digits, Number;
  }

  /** A format prints what the same conversions scan. */
  lemma {:induction false} ScanPrint(format: seq<Conversion>, fields: seq<nat>, scan: seq<(nat, string)>, rest: string)
    requires |format| == |fields| <= |scan|
    requires forall k :: 0 <= k < |format| ==>
               && scan[k].1 == format[k].suffix != [] && scan[k].1[0] > '9'
               && |Pad(fields[k], format[k].width)| <= scan[k].0
    ensures Scan(Print(format, fields) + rest, scan) == fields + Scan(rest, scan[|format|..])
    decreases |format|
  {
    hide Pad, Scan;
    if format == [] {
      assert "" + rest == rest && fields + Scan(rest, scan[0..]) == Scan(rest, scan[0..]) && scan[0..] == scan;
    } else {
      var w, text := format[0].width, format[0].suffix;
      var more := Print(format[1..], fields[1..]) + rest;
      assert Print(format, fields) + rest == Pad(fields[0], w) + (text + more);
      ScanOne(fields[0], w, scan[0].0, text, more, scan);
      ScanPrint(format[1..], fields[1..], scan[1..], rest);
      assert scan[1..][|format| - 1..] == scan[|format|..];
      assert [fields[0]] + (fields[1..] + Scan(rest, scan[|format|..])) == fields + Scan(rest, scan[|format|..]);
    }
  }

  /** The last one stops at its ninth digit. */
  lemma ScanLast(c: nat)
    ensures Scan(Pad(c, 9) + SUFFIX, [(9, ".jpg")]) == [WithoutLast(c, |Pad(c, 9)| - 9)]
  {
    hide Pad, Digits, Number;
    var s, k := Pad(c, 9), |Pad(c, 9)| - 9;
    var e := WithoutLast(c, k);
    PadPrefix(c, 9, k);
    PadIsNumber(e, 9);
    assert s + SUFFIX == s[..9] + (s[9..] + SUFFIX);
    DigitsOfText(s[..9], s[9..] + SUFFIX, 9);
    assert (s + SUFFIX)[..9] == Pad(e, 9);
    var rest := (s + SUFFIX)[9..];
    assert forall t: string :: Scan(t, []) == [];
  }

  lemma FieldsFit(format: seq<Conversion>, fields: seq<nat>, n: nat)
    requires |format| == |fields| && n >= |Print(format, fields)|
    ensures forall k :: 0 <= k < |format| ==> |Pad(fields[k], format[k].width)| <= n
    decreases |format|
  {
    hide Pad;
    if format != [] {
      FieldsFit(format[1..], fields[1..], n);
      forall k | 1 <= k < |format|
        ensures |Pad(fields[k], format[k].width)| <= n
      {
        assert fields[k] == fields[1..][k - 1] && format[k] == format[1..][k - 1];
      }
    }
  }

  /** Every name the worker makes passes, and its numbers are the time and the counter, as far as nine digits hold
      that. */
  lemma NamesPass(stamp: Stamp, c: nat)
    ensures |Pad(c, 9)| >= 9 && CheckForFilename(PictureName(stamp, c))
    ensures Scanned(PictureName(stamp, c)) == stamp + [WithoutLast(c, |Pad(c, 9)| - 9)]
  {
    hide Pad, Scan, Print;
    var name := PictureName(stamp, c);
    var w := |name|;
    var scan := [(w, "_"), (w, "_"), (w, "_"), (w, "_"), (w, "_"), (w, "_picture_"), (9, ".jpg")];
    FieldsFit(FORMAT, stamp, w);
    FormatScans(w);
    ScanPrint(FORMAT, stamp, scan, Pad(c, 9) + SUFFIX);
    ScanLast(c);
    assert scan[6..] == [(9, ".jpg")];
  }

  lemma FormatScans(w: nat)
    ensures var scan := [(w, "_"), (w, "_"), (w, "_"), (w, "_"), (w, "_"), (w, "_picture_"), (9, ".jpg")];
            |FORMAT| == 6 && forall k :: 0 <= k < 6 ==>
              scan[k].0 == w && scan[k].1 == FORMAT[k].suffix != [] && scan[k].1[0] > '9'
  {
  }
}
