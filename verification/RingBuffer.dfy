/** The ring buffer of picture files (output_file.c): how the files are named, when old ones are deleted and
    which ones those are. */
module RingBuffer {
  import opened Wrappers

  type Name = string

  // ----- alphabetical order -----

  /** strcmp's order, which alphasort uses in the C locale. */
  predicate Less(a: Name, b: Name)
  {
    b != [] && (a == [] || a[0] < b[0] || (a[0] == b[0] && Less(a[1..], b[1..])))
  }

  lemma {:induction false} LessTransitive(a: Name, b: Name, c: Name)
    requires Less(a, b) && Less(b, c)
    ensures Less(a, c)
  {
    if a != [] && a[0] == b[0] == c[0] {
      LessTransitive(a[1..], b[1..], c[1..]);
    }
  }

  lemma {:induction false} LessTotal(a: Name, b: Name)
    ensures Less(a, b) || Less(b, a) || a == b
    ensures !(Less(a, b) && Less(b, a)) && !Less(a, a)
  {
    if a != [] && b != [] && a[0] == b[0] {
      LessTotal(a[1..], b[1..]);
      assert a == [a[0]] + a[1..] && b == [b[0]] + b[1..];
    }
    if a != [] {
      LessTotal(a[1..], a[1..]);
    }
  }

  /** Texts of equal length decide whatever follows them; equal ones leave it to what follows. */
  lemma {:induction false} LessConcat(a: Name, b: Name, x: Name, y: Name)
    requires |a| == |b|
    ensures Less(a, b) ==> Less(a + x, b + y)
    ensures Less(x, y) <==> Less(a + x, a + y)
  {
    if a != [] {
      LessConcat(a[1..], b[1..], x, y);
      assert (a + x)[1..] == a[1..] + x && (b + y)[1..] == b[1..] + y && (a + y)[1..] == a[1..] + y;
    } else {
      assert a + x == x && a + y == y;
    }
  }

  // ----- numbers -----

  function OneLess(w: nat): nat
  {
    if w == 0 then 0 else w - 1
  }

  /** n in decimal, with leading zeros up to w digits. */
  function Pad(n: nat, w: nat): (s: string)
    ensures |s| > 0 && |s| >= w
    decreases n, w
  {
    if n < 10 && w <= 1 then [Digit(n)] else Pad(n / 10, OneLess(w)) + [Digit(n % 10)]
  }

  lemma PadStep(n: nat, w: nat)
    requires n >= 10 || w > 1
    ensures Pad(n, w) == Pad(n / 10, OneLess(w)) + [Digit(n % 10)] && |Pad(n, w)| == |Pad(n / 10, OneLess(w))| + 1
  {
  }

  lemma SingleDigit(n: nat, w: nat)
    ensures |Pad(n, w)| == 1 <==> n < 10 && w <= 1
    ensures n < 10 && w <= 1 ==> Pad(n, w) == [Digit(n)]
  {
  }

  lemma {:induction false} PadLess(n: nat, m: nat, w: nat)
    requires n < m && |Pad(n, w)| == |Pad(m, w)|
    ensures Less(Pad(n, w), Pad(m, w))
    decreases n, w
  {
    hide Pad;
    SingleDigit(n, w);
    SingleDigit(m, w);
    if n >= 10 || w > 1 {
      PadStep(n, w);
      PadStep(m, w);
      var v := OneLess(w);
      if n / 10 < m / 10 {
        PadLess(n / 10, m / 10, v);
      }
      LessConcat(Pad(n / 10, v), Pad(m / 10, v), [Digit(n % 10)], [Digit(m % 10)]);
    }
  }

  lemma {:induction false} PadGrows(n: nat, m: nat, w: nat)
    requires n <= m
    ensures |Pad(n, w)| <= |Pad(m, w)|
    decreases n, w
  {
    hide Pad;
    SingleDigit(n, w);
    if n >= 10 || w > 1 {
      PadStep(n, w);
      PadStep(m, w);
      PadGrows(n / 10, m / 10, OneLess(w));
    }
  }

  /** A width that is exceeded does not matter. */
  lemma {:induction false} PadWide(n: nat, w: nat)
    requires |Pad(n, w)| > w
    ensures Pad(n, w) == Pad(n, w + 1)
    decreases n, w
  {
    hide Pad;
    if n < 10 && w <= 1 {
      SingleDigit(n, w);
      SingleDigit(n, w + 1);
    } else {
      PadStep(n, w);
      PadStep(n, w + 1);
      if w > 0 {
        PadWide(n / 10, w - 1);
      }
    }
  }

  lemma {:induction false} PadDigits(n: nat, w: nat)
    ensures forall i | 0 <= i < |Pad(n, w)| :: '0' <= Pad(n, w)[i] <= '9'
    decreases n, w
  {
    hide Pad;
    SingleDigit(n, w);
    if n >= 10 || w > 1 {
      PadStep(n, w);
      PadDigits(n / 10, OneLess(w));
    }
  }

  function Pow10(k: nat): (p: nat)
    ensures p > 0
  {
    if k == 0 then 1 else 10 * Pow10(k - 1)
  }

  lemma {:induction false} PadLength(n: nat, w: nat)
    requires w > 0 && n < Pow10(w)
    ensures |Pad(n, w)| == w
  {
    hide Pad;
    if w == 1 {
      SingleDigit(n, w);
    } else {
      PadStep(n, w);
      PadLength(n / 10, w - 1);
    }
  }

  lemma {:induction false} PadOverflow(n: nat, w: nat)
    requires Pow10(w) <= n < Pow10(w + 1)
    ensures |Pad(n, w)| == w + 1
  {
    hide Pad;
    if w == 0 {
      SingleDigit(n, w);
    } else {
      assert Pow10(w) == 10 * Pow10(w - 1) && n >= 10;
      PadStep(n, w);
      PadOverflow(n / 10, w - 1);
    }
  }

  lemma MulMono(a: nat, b: nat, m: nat)
    requires a <= b
    ensures a * m <= b * m
  {
  }

  lemma DivIs(x: nat, m: nat, q: nat, r: nat)
    requires m > 0 && x == q * m + r && r < m
    ensures x / m == q && x % m == r
  {
    var k := x / m;
    assert x == k * m + x % m;
    if q < k {
      MulMono(q + 1, k, m);
    } else if k < q {
      MulMono(k + 1, q, m);
    }
  }

  lemma DivDiv(d: nat, m: nat)
    requires m > 0
    ensures d / 10 / m == d / (10 * m)
  {
    var q, r := d / 10 / m, d / 10 % m;
    assert d / 10 == q * m + r;
    assert 10 * (q * m) == q * (10 * m);
    DivIs(d, 10 * m, q, 10 * r + d % 10);
  }

  /** d without its last k decimal digits. */
  function WithoutLast(d: nat, k: nat): nat
  {
    if k == 0 then d else WithoutLast(d / 10, k - 1)
  }

  lemma {:induction false} WithoutIsDivision(d: nat, k: nat)
    ensures WithoutLast(d, k) == d / Pow10(k)
  {
    if k > 0 {
      WithoutIsDivision(d / 10, k - 1);
      DivDiv(d, Pow10(k - 1));
    }
  }

  /** Cutting k digits off the end is dividing by 10^k, while the width is still exceeded. */
  lemma {:induction false} PadPrefix(d: nat, w: nat, k: nat)
    requires k + w <= |Pad(d, w)| && k < |Pad(d, w)|
    ensures Pad(d, w)[..|Pad(d, w)| - k] == Pad(WithoutLast(d, k), w)
    decreases k
  {
    hide Pad;
    if k > 0 {
      SingleDigit(d, w);
      PadStep(d, w);
      if w > 0 {
        PadWide(d / 10, w - 1);
      }
      PadPrefix(d / 10, w, k - 1);
      var s := Pad(d / 10, w);
      assert (s + [Digit(d % 10)])[..|s| - (k - 1)] == s[..|s| - (k - 1)];
    }
  }

  // ----- file names -----

  /** One conversion of the format: its width, and the text behind it. */
  datatype Conversion = Conversion(width: nat, suffix: string)

  /** %Y_%m_%d_%H_%M_%S_picture_, in front of %09llu.jpg */
  const FORMAT: seq<Conversion> := [
    Conversion(0, "_"), Conversion(2, "_"), Conversion(2, "_"), Conversion(2, "_"), Conversion(2, "_"),
    Conversion(2, "_picture_")
  ]

  const SUFFIX := ".jpg"

  function Print(format: seq<Conversion>, fields: seq<nat>): Name
    requires |format| == |fields|
  {
    if format == [] then ""
    else Pad(fields[0], format[0].width) + format[0].suffix + Print(format[1..], fields[1..])
  }

  /** Year, month, day, hour, minute and second as localtime gives them, with a four-digit year. */
  type Stamp = s: seq<nat> | |s| == 6 && 1000 <= s[0] < 10000 && forall k | 1 <= k < 6 :: s[k] < 100
    witness [2000, 0, 0, 0, 0, 0]

  function PictureName(stamp: Stamp, counter: nat): Name
  {
    Print(FORMAT, stamp) + (Pad(counter, 9) + SUFFIX)
  }

  predicate Before(a: seq<nat>, b: seq<nat>)
    requires |a| == |b|
  {
    a != [] && (a[0] < b[0] || (a[0] == b[0] && Before(a[1..], b[1..])))
  }

  predicate SameWidths(format: seq<Conversion>, a: seq<nat>, b: seq<nat>)
    requires |format| == |a| == |b|
  {
    forall k | 0 <= k < |a| :: |Pad(a[k], format[k].width)| == |Pad(b[k], format[k].width)|
  }

  /** Names with fields of equal widths sort as their fields do. */
  lemma {:induction false} PrintLess(format: seq<Conversion>, a: seq<nat>, b: seq<nat>)
    requires |format| == |a| == |b| && SameWidths(format, a, b) && Before(a, b)
    ensures Less(Print(format, a), Print(format, b))
  {
    hide Pad, Less;
    var w, s := format[0].width, format[0].suffix;
    var x, y := Print(format[1..], a[1..]), Print(format[1..], b[1..]);
    assert |Pad(a[0], w)| == |Pad(b[0], w)|;
    if a[0] < b[0] {
      PadLess(a[0], b[0], w);
      LessConcat(Pad(a[0], w), Pad(b[0], w), s + x, s + y);
      assert Pad(a[0], w) + (s + x) == Print(format, a) && Pad(b[0], w) + (s + y) == Print(format, b);
    } else {
      PrintLess(format[1..], a[1..], b[1..]);
      LessConcat(Pad(a[0], w) + s, Pad(a[0], w) + s, x, y);
    }
  }

  lemma {:induction false} PrintLength(format: seq<Conversion>, a: seq<nat>, b: seq<nat>)
    requires |format| == |a| == |b| && SameWidths(format, a, b)
    ensures |Print(format, a)| == |Print(format, b)|
  {
    hide Pad;
    if format != [] {
      assert |Pad(a[0], format[0].width)| == |Pad(b[0], format[0].width)|;
      PrintLength(format[1..], a[1..], b[1..]);
    }
  }

  lemma YearLength(y: nat)
    requires 1000 <= y < 10000
    ensures |Pad(y, 0)| == 4
  {
    hide Pad;
    PadStep(y, 0);
    PadStep(y / 10, 0);
    PadStep(y / 10 / 10, 0);
    SingleDigit(y / 10 / 10 / 10, 0);
  }

  lemma StampWidths(a: Stamp, b: Stamp)
    ensures SameWidths(FORMAT, a, b)
  {
    hide Pad;
    YearLength(a[0]);
    YearLength(b[0]);
    assert Pow10(2) == 100;
    forall k | 1 <= k < 6
      ensures |Pad(a[k], 2)| == |Pad(b[k], 2)|
    {
      PadLength(a[k], 2);
      PadLength(b[k], 2);
    }
  }

  /** The counters of one second: the end of a shorter number meets a digit of the longer one. */
  lemma CounterOrder(c: nat, d: nat)
    requires c < d
    ensures |Pad(c, 9)| <= |Pad(d, 9)|
    ensures Less(Pad(c, 9) + SUFFIX, Pad(d, 9) + SUFFIX) <==> c <= WithoutLast(d, |Pad(d, 9)| - |Pad(c, 9)|)
  {
    hide Pad, Less;
    PadGrows(c, d, 9);
    var s, k := Pad(d, 9), |Pad(d, 9)| - |Pad(c, 9)|;
    var e, rest := WithoutLast(d, k), s[|s| - k..];
    PadPrefix(d, 9, k);
    assert s + SUFFIX == Pad(e, 9) + (rest + SUFFIX);
    LessConcat(Pad(c, 9), Pad(e, 9), SUFFIX, rest + SUFFIX);
    LessConcat(Pad(e, 9), Pad(c, 9), rest + SUFFIX, SUFFIX);
    LessTotal(Pad(c, 9) + SUFFIX, s + SUFFIX);
    if c < e {
      PadLess(c, e, 9);
    } else if c > e {
      PadLess(e, c, 9);
    } else {
      PadDigits(d, 9);
      assert k > 0 && rest[0] == s[|s| - k];
      DotBeforeDigit(SUFFIX, rest + SUFFIX);
    }
  }

  lemma DotBeforeDigit(x: Name, y: Name)
    requires x != [] && y != [] && x[0] == '.' && y[0] >= '0'
    ensures Less(x, y)
  {
  }

  /** Exactly when two pictures of a run sort in creation order, the clock not going back between them: when
      the second one's time is later, or when the first one's number is at most that of the second cut down to
      as many digits. */
  lemma NamesSortIff(a: Stamp, b: Stamp, c: nat, d: nat)
    requires (a == b || Before(a, b)) && c < d
    ensures |Pad(c, 9)| <= |Pad(d, 9)|
    ensures Less(PictureName(a, c), PictureName(b, d))
       <==> Before(a, b) || c <= WithoutLast(d, |Pad(d, 9)| - |Pad(c, 9)|)
  {
    hide Pad, Less, Print;
    CounterOrder(c, d);
    StampWidths(a, b);
    PrintLength(FORMAT, a, b);
    LessConcat(Print(FORMAT, a), Print(FORMAT, b), Pad(c, 9) + SUFFIX, Pad(d, 9) + SUFFIX);
    if Before(a, b) {
      PrintLess(FORMAT, a, b);
    }
  }

  const LIMIT: nat := 1_000_000_000

  lemma LimitIs()
    ensures Pow10(0) == 1 && Pow10(1) == 10 && Pow10(9) == LIMIT && Pow10(10) == 10 * LIMIT
  {
    assert Pow10(3) == 1000;
    assert Pow10(6) == 1_000_000;
  }

  /** With a clock that never goes back and fewer than 10^9 pictures, names sort in creation order. */
  lemma NamesSortByCreation(a: Stamp, b: Stamp, c: nat, d: nat)
    requires (a == b || Before(a, b)) && c < d < LIMIT
    ensures Less(PictureName(a, c), PictureName(b, d))
  {
    hide Pad, Less, PictureName, Pow10;
    LimitIs();
    PadLength(c, 9);
    PadLength(d, 9);
    NamesSortIff(a, b, c, d);
  }

  /** ... and no longer when the counter outgrows its nine digits within one second. */
  lemma NinthDigitOverflows(a: Stamp)
    ensures Less(PictureName(a, LIMIT), PictureName(a, LIMIT - 1))
  {
    hide Pad, Less, Print;
    LimitIs();
    PadOverflow(LIMIT, 9);
    PadLength(LIMIT - 1, 9);
    NamesSortIff(a, a, LIMIT - 1, LIMIT);
    NotBeforeItself(a);
    LessTotal(PictureName(a, LIMIT - 1), PictureName(a, LIMIT));
  }

  lemma {:induction false} NotBeforeItself(a: seq<nat>)
    ensures !Before(a, a)
  {
    if a != [] {
      NotBeforeItself(a[1..]);
    }
  }

  // ----- the directory -----

  /** What scandir and alphasort list. */
  ghost predicate Sorted(dir: seq<Name>)
  {
    forall i, j :: 0 <= i < j < |dir| ==> Less(dir[i], dir[j])
  }

  function Insert(dir: seq<Name>, name: Name): seq<Name>
  {
    if dir == [] then [name]
    else if dir[0] == name then dir
    else if Less(name, dir[0]) then [name] + dir
    else [dir[0]] + Insert(dir[1..], name)
  }

  function Remove(dir: seq<Name>, name: Name): seq<Name>
  {
    if dir == [] then []
    else if dir[0] == name then dir[1..]
    else [dir[0]] + Remove(dir[1..], name)
  }

  /** The names that cannot be deleted. */
  function Stuck(names: seq<Name>, fails: set<Name>): seq<Name>
  {
    if names == [] then []
    else
      var x := names[|names| - 1];
      if x in fails then Stuck(names[..|names| - 1], fails) + [x] else Stuck(names[..|names| - 1], fails)
  }

  lemma {:induction false} InsertIn(dir: seq<Name>, name: Name)
    ensures forall x :: x in Insert(dir, name) <==> x in dir || x == name
    ensures |Insert(dir, name)| <= |dir| + 1
  {
    hide Less;
    if dir != [] && dir[0] != name && !Less(name, dir[0]) {
      InsertIn(dir[1..], name);
    }
  }

  lemma {:induction false} InsertSorted(dir: seq<Name>, name: Name)
    requires Sorted(dir)
    ensures Sorted(Insert(dir, name))
  {
    hide Less;
    if dir == [] || dir[0] == name {
    } else if Less(name, dir[0]) {
      forall j | 0 < j < |dir|
        ensures Less(name, dir[j])
      {
        LessTransitive(name, dir[0], dir[j]);
      }
    } else {
      InsertSorted(dir[1..], name);
      InsertIn(dir[1..], name);
      LessTotal(name, dir[0]);
      forall x | x in Insert(dir[1..], name)
        ensures Less(dir[0], x)
      {
      }
    }
  }

  lemma {:induction false} RemoveMiddle(a: seq<Name>, name: Name, b: seq<Name>)
    requires name !in a
    ensures Remove(a + [name] + b, name) == a + b
  {
    hide Remove;
    if a == [] {
      assert [] + [name] + b == [name] + b;
      RemoveFirst(name, b, name);
    } else {
      RemoveMiddle(a[1..], name, b);
      RemoveFirst(a[0], a[1..] + [name] + b, name);
      assert a + [name] + b == [a[0]] + (a[1..] + [name] + b);
      assert [a[0]] + (a[1..] + b) == a + b;
    }
  }

  lemma RemoveFirst(x: Name, rest: seq<Name>, name: Name)
    ensures Remove([x] + rest, name) == if x == name then rest else [x] + Remove(rest, name)
  {
  }

  lemma {:induction false} StuckIn(names: seq<Name>, fails: set<Name>)
    ensures forall x :: x in Stuck(names, fails) <==> x in names && x in fails
    ensures fails == {} ==> Stuck(names, fails) == []
  {
    if names != [] {
      StuckIn(names[..|names| - 1], fails);
      assert names == names[..|names| - 1] + [names[|names| - 1]];
    }
  }

  lemma {:induction false} StuckSorted(names: seq<Name>, fails: set<Name>)
    requires Sorted(names)
    ensures Sorted(Stuck(names, fails))
  {
    if names != [] {
      var x, rest := names[|names| - 1], Stuck(names[..|names| - 1], fails);
      StuckSorted(names[..|names| - 1], fails);
      StuckIn(names[..|names| - 1], fails);
      forall k | 0 <= k < |rest|
        ensures Less(rest[k], x)
      {
        assert rest[k] in names[..|names| - 1];
      }
    }
  }

  /** The directory after a clean-up that deletes the first `cut` names. */
  function Cleaned(names: seq<Name>, cut: nat, fails: set<Name>): seq<Name>
    requires cut <= |names|
  {
    Stuck(names[..cut], fails) + names[cut..]
  }

  lemma CleanedSorted(names: seq<Name>, cut: nat, fails: set<Name>)
    requires Sorted(names) && cut <= |names|
    ensures Sorted(Cleaned(names, cut, fails))
  {
    hide Less;
    var a := Stuck(names[..cut], fails);
    StuckSorted(names[..cut], fails);
    StuckIn(names[..cut], fails);
    forall i, j | 0 <= i < |a| && cut <= j < |names|
      ensures Less(a[i], names[j])
    {
      assert a[i] in names[..cut];
    }
  }

  lemma CleanOne(names: seq<Name>, i: nat, fails: set<Name>)
    requires Sorted(names) && i < |names|
    ensures Cleaned(names, i + 1, fails)
         == if names[i] in fails then Cleaned(names, i, fails) else Remove(Cleaned(names, i, fails), names[i])
  {
    hide Less, Remove;
    assert names[..i + 1][..i] == names[..i];
    var a := Stuck(names[..i], fails);
    StuckIn(names[..i], fails);
    forall k | 0 <= k < i
      ensures names[k] != names[i]
    {
      LessTotal(names[k], names[i]);
    }
    assert a + names[i..] == a + [names[i]] + names[i + 1..];
    RemoveMiddle(a, names[i], names[i + 1..]);
    assert a + [names[i]] + names[i + 1..] == (a + [names[i]]) + names[i + 1..];
  }

  /** Of the pictures a run has written, in creation order, those left are its newest. */
  ghost predicate NewestLeft(dir: seq<Name>, created: seq<Name>)
  {
    forall i, j :: 0 <= i < j < |created| && created[i] in dir ==> created[j] in dir
  }

  lemma CutKeepsNewest(dir: seq<Name>, created: seq<Name>, cut: nat)
    requires Sorted(dir) && Sorted(created) && NewestLeft(dir, created) && cut <= |dir|
    ensures NewestLeft(dir[cut..], created)
  {
    hide Less;
    forall i, j | 0 <= i < j < |created| && created[i] in dir[cut..]
      ensures created[j] in dir[cut..]
    {
      var p :| cut <= p < |dir| && dir[p] == created[i];
      var q :| 0 <= q < |dir| && dir[q] == created[j];
      LessTotal(created[i], created[j]);
      assert p < q;
      assert dir[cut..][q - cut] == created[j];
    }
  }

  lemma InsertKeepsNewest(dir: seq<Name>, created: seq<Name>, name: Name)
    requires Sorted(created + [name]) && NewestLeft(dir, created)
    ensures NewestLeft(Insert(dir, name), created + [name])
  {
    hide Less, Insert;
    InsertIn(dir, name);
    var all := created + [name];
    forall i, j | 0 <= i < j < |all| && all[i] in Insert(dir, name)
      ensures all[j] in Insert(dir, name)
    {
      assert all[i] == created[i] && all[|created|] == name;
      LessTotal(created[i], name);
    }
  }

  // ----- the worker -----

  function Max(a: int, b: int): int
  {
    if a > b then a else b
  }

  /** A clean-up comes after this many pictures. */
  predicate Due(counter: nat, exceed: int)
  {
    exceed <= 0 || counter == 1 || counter % (exceed + 1) == 0
  }

  class Worker {
    const size: int
    const exceed: int
    var counter: nat
    var dir: seq<Name>
    ghost var created: seq<Name>
    ghost var freed: seq<nat>

    /** How many pictures may stand beyond the buffer's size: none right after a clean-up, and one more with
        every picture since. */
    function Allowed(): nat
      reads this
    {
      if exceed <= 0 then 0 else counter % (exceed + 1)
    }

    ghost predicate Valid()
      reads this
    {
      && Sorted(dir)
      && (size >= 0 && counter >= 1 ==> |dir| <= size + Allowed())
    }

    constructor (size: int, exceed: int, dir: seq<Name>)
      requires Sorted(dir)
      ensures Valid() && this.size == size && this.exceed == exceed && this.dir == dir
      ensures counter == 0 && created == []
    {
      this.size, this.exceed, this.dir := size, exceed, dir;
      counter := 0;
      created, freed := [], [];
    }

    method Unlink(name: Name, fails: set<Name>) returns (rc: int)
      modifies `dir
      ensures dir == if name in fails then old(dir) else Remove(old(dir), name)
      ensures rc == if name in fails then -1 else 0
    {
      if name in fails {
        return -1;
      }
      dir := Remove(dir, name);
      return 0;
    }

    /** maintain_ringbuffer.  `freed` records which entries of the listing are freed, in order. */
    method MaintainRingbuffer(keep: int, fails: set<Name>)
      requires Sorted(dir)
      modifies `dir, `freed
      ensures Sorted(dir)
      ensures keep < 0 ==> dir == old(dir) && freed == old(freed)
      ensures keep >= 0 ==> dir == Cleaned(old(dir), Max(|old(dir)| - keep, 0), fails)
      ensures keep >= 0 ==> freed == seq(|old(dir)|, k => k)
    {
      hide Less, Cleaned;
      if keep < 0 {
        return;
      }
      var namelist := dir;
      var n := |namelist|;
      freed := [];
      var i := 0;
      CleanedNothing(namelist, fails);
      while i < n - keep
        invariant 0 <= i <= Max(n - keep, 0) && freed == seq(i, k => k)
        invariant dir == Cleaned(namelist, i, fails)
      {
        CleanOne(namelist, i, fails);
        var rc := Unlink(namelist[i], fails);
        freed := freed + [i];
        i := i + 1;
      }
      i := Max(n - keep, 0);
      while i < n
        invariant Max(n - keep, 0) <= i <= n && freed == seq(i, k => k)
        modifies `freed
      {
        freed := freed + [i];
        i := i + 1;
      }
      CleanedSorted(namelist, Max(n - keep, 0), fails);
    }

    /** One turn of the worker's loop; false when the thread ends. */
    method TakePicture(stamp: Stamp, openOk: bool, writeOk: bool, fails: set<Name>) returns (ok: bool)
      requires Valid()
      modifies this
      ensures ok == (openOk && writeOk) && counter == old(counter) + 1
      ensures var listed := Insert(old(dir), PictureName(stamp, old(counter)));
              dir == if !openOk then old(dir)
                     else if writeOk && size >= 0 && (exceed <= 0 || counter == 1 || counter % (exceed + 1) == 0)
                     then Cleaned(listed, Max(|listed| - size, 0), fails)
                     else listed
      ensures ok && fails == {} ==> Valid()
      ensures ok ==> created == old(created) + [PictureName(stamp, old(counter))]
      ensures ok && fails == {} && Sorted(created) && old(NewestLeft(dir, created)) ==> NewestLeft(dir, created)
    {
      hide Less, Insert, Cleaned, PictureName;
      var name := PictureName(stamp, counter);
      counter := counter + 1;
      if !openOk {
        return false;
      }
      InsertSorted(dir, name);
      InsertIn(dir, name);
      ghost var chronological := Sorted(created + [name]) && NewestLeft(dir, created);
      if chronological {
        InsertKeepsNewest(dir, created, name);
      }
      dir := Insert(dir, name);
      created := created + [name];
      if !writeOk {
        return false;
      }
      ghost var now := dir;
      ghost var cut := if size < 0 then 0 else Max(|dir| - size, 0);
      CleanedAll(now, cut, fails);
      if chronological {
        CutKeepsNewest(now, created, cut);
      }
      if exceed <= 0 {
        MaintainRingbuffer(size, fails);
      } else if counter == 1 || counter % (exceed + 1) == 0 {
        MaintainRingbuffer(size, fails);
      } else {
        NextRemainder(counter - 1, exceed + 1);
      }
      return true;
    }
  }

  lemma NextRemainder(c: nat, m: nat)
    requires m > 0 && (c + 1) % m != 0
    ensures (c + 1) % m == c % m + 1
  {
    var q, r := c / m, c % m;
    assert c == q * m + r;
    if r + 1 == m {
      assert c + 1 == (q + 1) * m + 0;
      DivIs(c + 1, m, q + 1, 0);
    } else {
      DivIs(c + 1, m, q, r + 1);
    }
  }

  lemma CleanedNothing(names: seq<Name>, fails: set<Name>)
    ensures Cleaned(names, 0, fails) == names
  {
  }

  lemma CleanedAll(names: seq<Name>, cut: nat, fails: set<Name>)
    requires cut <= |names|
    ensures fails == {} ==> Cleaned(names, cut, fails) == names[cut..]
    ensures names[0..] == names
  {
    StuckIn(names[..cut], fails);
  }

  // ----- over whole runs -----

  ghost predicate Chronological(stamps: seq<Stamp>)
  {
    forall i, j :: 0 <= i < j < |stamps| ==> stamps[i] == stamps[j] || Before(stamps[i], stamps[j])
  }

  function Names(stamps: seq<Stamp>): seq<Name>
  {
    seq(|stamps|, k requires 0 <= k < |stamps| => PictureName(stamps[k], k))
  }

  lemma NamesSorted(stamps: seq<Stamp>)
    requires Chronological(stamps) && |stamps| <= LIMIT
    ensures Sorted(Names(stamps))
  {
    hide Less, Before, PictureName;
    forall i, j | 0 <= i < j < |stamps|
      ensures Less(Names(stamps)[i], Names(stamps)[j])
    {
      NamesSortByCreation(stamps[i], stamps[j], i, j);
    }
  }

  /** The directory after these pictures, when files can be written and deleted: each one inserted by its name,
      and the first names cut off down to `size` when a clean-up is due. */
  function Directory(dir: seq<Name>, size: int, exceed: int, stamps: seq<Stamp>): seq<Name>
  {
    if stamps == [] then dir
    else
      var n := |stamps| - 1;
      var listed := Insert(Directory(dir, size, exceed, stamps[..n]), PictureName(stamps[n], n));
      if Due(n + 1, exceed) && 0 <= size <= |listed| then listed[|listed| - size..] else listed
  }

  lemma {:induction false} DirectoryUnfold(dir: seq<Name>, size: int, exceed: int, stamps: seq<Stamp>,
                                           before: seq<Stamp>, stamp: Stamp)
    requires stamps == before + [stamp]
    ensures var listed := Insert(Directory(dir, size, exceed, before), PictureName(stamp, |before|));
            Directory(dir, size, exceed, stamps) ==
            if Due(|before| + 1, exceed) && 0 <= size <= |listed| then listed[|listed| - size..] else listed
  {
    hide Insert, PictureName, Due;
    assert stamps[..|before|] == before;
  }

  lemma {:induction false} DirectoryNext(dir: seq<Name>, size: int, exceed: int, stamps: seq<Stamp>, i: nat)
    requires i < |stamps|
    ensures var listed := Insert(Directory(dir, size, exceed, stamps[..i]), PictureName(stamps[i], i));
            Directory(dir, size, exceed, stamps[..i + 1]) ==
            if Due(i + 1, exceed) && size >= 0 then Cleaned(listed, Max(|listed| - size, 0), {}) else listed
  {
    hide Cleaned, Insert, PictureName, Due, Directory;
    assert stamps[..i + 1] == stamps[..i] + [stamps[i]];
    DirectoryUnfold(dir, size, exceed, stamps[..i + 1], stamps[..i], stamps[i]);
    var listed := Insert(Directory(dir, size, exceed, stamps[..i]), PictureName(stamps[i], i));
    if size >= 0 {
      CleanedAll(listed, Max(|listed| - size, 0), {});
    }
  }

  /** Nothing is deleted between two clean-ups: the pictures since the last one are all there. */
  lemma {:induction false} SinceCleanUp(dir: seq<Name>, size: int, exceed: int, stamps: seq<Stamp>, k: nat)
    requires exceed > 0 && 1 <= k < |stamps| && k >= |stamps| - |stamps| % (exceed + 1)
    ensures PictureName(stamps[k], k) in Directory(dir, size, exceed, stamps)
    decreases |stamps|
  {
    hide PictureName, Insert;
    var n := |stamps| - 1;
    assert stamps[..n + 1] == stamps && n + 1 != 1 && (n + 1) % (exceed + 1) != 0;
    NextRemainder(n, exceed + 1);
    InsertIn(Directory(dir, size, exceed, stamps[..n]), PictureName(stamps[n], n));
    if k < n {
      SinceCleanUp(dir, size, exceed, stamps[..n], k);
    }
  }

  /** All pictures since the last multiple of exceed + 1 are there; the very first one has a clean-up of its own. */
  ghost predicate NoneMissing(dir: seq<Name>, stamps: seq<Stamp>, exceed: int)
    requires exceed > 0
  {
    var n := |stamps|;
    forall k :: 1 <= k < n && n - n % (exceed + 1) <= k ==> PictureName(stamps[k], k) in dir
  }

  lemma AllSinceCleanUp(dir: seq<Name>, size: int, exceed: int, stamps: seq<Stamp>)
    requires exceed > 0
    ensures NoneMissing(Directory(dir, size, exceed, stamps), stamps, exceed)
  {
    hide PictureName, Directory;
    forall k | 1 <= k < |stamps| && k >= |stamps| - |stamps| % (exceed + 1)
      ensures PictureName(stamps[k], k) in Directory(dir, size, exceed, stamps)
    {
      SinceCleanUp(dir, size, exceed, stamps, k);
    }
  }

  /** Any run of the worker in which files can be written and deleted: the directory keeps its bound from the
      first picture on, no picture goes before the next clean-up, and while the clock does not go back and the
      counter has nine digits, what is left of the run's own pictures are the newest. */
  method Record(size: int, exceed: int, dir: seq<Name>, stamps: seq<Stamp>) returns (w: Worker)
    requires Sorted(dir)
    ensures w.created == Names(stamps) && w.dir == Directory(dir, size, exceed, stamps)
    ensures size >= 0 && stamps != [] ==> |w.dir| <= size + Max(exceed, 0)
    ensures exceed > 0 ==> NoneMissing(w.dir, stamps, exceed)
    ensures Chronological(stamps) && |stamps| <= LIMIT ==> NewestLeft(w.dir, w.created)
  {
    hide Less, PictureName, NewestLeft, Insert, Cleaned, Directory, NoneMissing;
    w := new Worker(size, exceed, dir);
    NothingCreated(dir, size, exceed);
    ghost var chronological := Chronological(stamps) && |stamps| <= LIMIT;
    var i := 0;
    while i < |stamps|
      invariant i <= |stamps| && fresh(w) && w.Valid() && w.counter == i
      invariant w.size == size && w.exceed == exceed && w.created == Names(stamps[..i])
      invariant w.dir == Directory(dir, size, exceed, stamps[..i])
      invariant chronological ==> NewestLeft(w.dir, w.created)
    {
      assert Names(stamps[..i + 1]) == Names(stamps[..i]) + [PictureName(stamps[i], i)];
      if chronological {
        NamesSorted(stamps[..i + 1]);
      }
      DirectoryNext(dir, size, exceed, stamps, i);
      var ok := w.TakePicture(stamps[i], true, true, {});
      i := i + 1;
    }
    assert stamps[..i] == stamps;
    if exceed > 0 {
      AllSinceCleanUp(dir, size, exceed, stamps);
    }
  }

  lemma NothingCreated(dir: seq<Name>, size: int, exceed: int)
    ensures NewestLeft(dir, []) && Names([]) == [] && Directory(dir, size, exceed, []) == dir
  {
  }
}
