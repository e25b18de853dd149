/** The pixel loops of compress_image_to_jpeg (jpeg_utils.c): camera formats to lines of RGB bytes. */
module Pixels {
  import opened Words
  import opened Wrappers

  datatype Format = YUYV | UYVY | RGB565

  /** Where the four bytes of a macropixel stand. */
  function LumaAt(fmt: Format, second: bool): nat
  {
    (if fmt == YUYV then 0 else 1) + (if second then 2 else 0)
  }

  function BlueAt(fmt: Format): nat
  {
    if fmt == YUYV then 1 else 0
  }

  function RedAt(fmt: Format): nat
  {
    if fmt == YUYV then 3 else 2
  }

  function Clamp(x: int): (b: Byte)
  {
    if x > 255 then 255 else if x < 0 then 0 else x
  }

  /** Fixed-point conversion; the program's `>> 8` of a negative number rounds down. */
  function Red(y: int, v: int): int
  {
    y + 359 * v / 256
  }

  function Green(y: int, u: int, v: int): int
  {
    y + (-88 * u - 183 * v) / 256
  }

  function Blue(y: int, u: int): int
  {
    y + 454 * u / 256
  }

  /** How many bytes the first n pixels take; an odd pixel takes its whole macropixel. */
  function Extent(fmt: Format, n: nat): nat
  {
    if fmt == RGB565 then 2 * n else 4 * ((n + 1) / 2)
  }

  /** Pixel k, counted through the whole frame whatever its width. */
  function Pixel(f: seq<Byte>, fmt: Format, k: nat): (rgb: seq<Byte>)
    requires Extent(fmt, k + 1) <= |f|
    ensures |rgb| == 3
  {
    if fmt == RGB565 then
      var lo, hi := f[2 * k], f[2 * k + 1];
      [hi / 8 * 8, (hi % 8 * 8 + lo / 32) * 4, lo % 32 * 8]
    else
      var m := 4 * (k / 2);
      var y, u, v := f[m + LumaAt(fmt, k % 2 == 1)], f[m + BlueAt(fmt)] as int - 128, f[m + RedAt(fmt)] as int - 128;
      [Clamp(Red(y, v)), Clamp(Green(y, u, v)), Clamp(Blue(y, u))]
  }

  lemma ExtentGrows(fmt: Format, m: nat, n: nat)
    requires m <= n
    ensures Extent(fmt, m) <= Extent(fmt, n)
  {
  }

  /** n pixels from pixel k on. */
  function Picture(f: seq<Byte>, fmt: Format, k: nat, n: nat): (rgb: seq<Byte>)
    requires Extent(fmt, k + n) <= |f|
    ensures |rgb| == 3 * n
  {
    if n == 0 then []
    else
      ExtentGrows(fmt, k + n - 1, k + n);
      Picture(f, fmt, k, n - 1) + Pixel(f, fmt, k + n - 1)
  }

  lemma {:induction false} PictureConcat(f: seq<Byte>, fmt: Format, k: nat, m: nat, n: nat)
    requires Extent(fmt, k + m + n) <= |f| && Extent(fmt, k + m) <= |f|
    ensures Picture(f, fmt, k, m) + Picture(f, fmt, k + m, n) == Picture(f, fmt, k, m + n)
    decreases n
  {
    hide Pixel, Extent;
    if n > 0 {
      ExtentGrows(fmt, k + m + n - 1, k + m + n);
      ExtentGrows(fmt, k + m, k + m + n);
      PictureConcat(f, fmt, k, m, n - 1);
    }
  }

  // ----- what the conversion means -----

  /** The fixed-point values lie within 1.2 of those of JFIF's conversion (R = Y + 1.402 Cr,
      G = Y - 0.344136 Cb - 0.714136 Cr, B = Y + 1.772 Cb); clamping brings both no further apart. */
  lemma CloseToJfif(y: Byte, u: int, v: int)
    requires -128 <= u < 128 && -128 <= v < 128
    ensures -1_100_000 <= 1_000_000 * Red(y, v) - (1_000_000 * y + 1_402_000 * v) <= 100_000
    ensures -1_200_000 <= 1_000_000 * Green(y, u, v) - (1_000_000 * y - 344_136 * u - 714_136 * v) <= 200_000
    ensures -1_200_000 <= 1_000_000 * Blue(y, u) - (1_000_000 * y + 1_772_000 * u) <= 200_000
  {
  }

  function Distance(a: int, b: int): nat
  {
    if a < b then b - a else a - b
  }

  /** b is the byte nearest to x. */
  ghost predicate NearestByte(b: Byte, x: int)
  {
    forall q: Byte :: Distance(b, x) <= Distance(q, x)
  }

  /** b is the byte nearest to a whole number that lies within 1.2 of `millionths` / 1000000. */
  ghost predicate Near(b: Byte, millionths: int)
  {
    exists x :: NearestByte(b, x) && Distance(1_000_000 * x, millionths) <= 1_200_000
  }

  /** Red, green and blue of JFIF's conversion of y, cb and cr. */
  ghost predicate IsJfif(r: Byte, g: Byte, b: Byte, y: int, cb: int, cr: int)
  {
    && Near(r, 1_000_000 * y + 1_402_000 * (cr - 128))
    && Near(g, 1_000_000 * y - 344_136 * (cb - 128) - 714_136 * (cr - 128))
    && Near(b, 1_000_000 * y + 1_772_000 * (cb - 128))
  }

  /** The 5, 6 and 5 bits of a 16-bit number, from the top. */
  ghost predicate Is565(r: Byte, g: Byte, b: Byte, w: int)
  {
    r == w / 2048 * 8 && g == w / 32 % 64 * 4 && b == w % 32 * 8
  }

  /** Three components are in this order those of pixel k of a frame: in YUYV the bytes of two pixels are Y Cb Y Cr,
      in UYVY they are Cb Y Cr Y, and in RGB565 a pixel is a little-endian number. */
  ghost predicate Shows(r: Byte, g: Byte, b: Byte, f: seq<Byte>, fmt: Format, k: nat)
  {
    match fmt
    case YUYV => 4 * (k / 2) + 3 < |f| && IsJfif(r, g, b, f[2 * k], f[4 * (k / 2) + 1], f[4 * (k / 2) + 3])
    case UYVY => 4 * (k / 2) + 3 < |f| && IsJfif(r, g, b, f[2 * k + 1], f[4 * (k / 2)], f[4 * (k / 2) + 2])
    case RGB565 => 2 * k + 1 < |f| && Is565(r, g, b, f[2 * k] as int + 256 * f[2 * k + 1] as int)
  }

  /** The i-th three bytes of a picture that begins with pixel k are those of pixel k + i. */
  ghost predicate ShowsAt(rgb: seq<Byte>, i: nat, f: seq<Byte>, fmt: Format, k: nat)
  {
    3 * i + 2 < |rgb| && Shows(rgb[3 * i], rgb[3 * i + 1], rgb[3 * i + 2], f, fmt, k + i)
  }

  /** n pixels from pixel k of the frame on, one after the other. */
  ghost predicate Converted(rgb: seq<Byte>, f: seq<Byte>, fmt: Format, k: nat, n: nat)
  {
    |rgb| == 3 * n && forall i: nat | i < n :: ShowsAt(rgb, i, f, fmt, k)
  }

  lemma ClampIsNearest(x: int)
    ensures NearestByte(Clamp(x), x)
  {
  }

  lemma NearIf(x: int, millionths: int)
    requires -1_200_000 <= 1_000_000 * x - millionths <= 1_200_000
    ensures Near(Clamp(x), millionths)
  {
    ClampIsNearest(x);
  }

  lemma ColourIsJfif(y: Byte, cb: Byte, cr: Byte)
    ensures var u, v := cb as int - 128, cr as int - 128;
            IsJfif(Clamp(Red(y, v)), Clamp(Green(y, u, v)), Clamp(Blue(y, u)), y, cb, cr)
  {
    hide Clamp, Red, Green, Blue, Near;
    var u, v := cb as int - 128, cr as int - 128;
    CloseToJfif(y, u, v);
    NearIf(Red(y, v), 1_000_000 * y + 1_402_000 * v);
    NearIf(Green(y, u, v), 1_000_000 * y - 344_136 * u - 714_136 * v);
    NearIf(Blue(y, u), 1_000_000 * y + 1_772_000 * u);
  }

  lemma UnpackedIs565(lo: Byte, hi: Byte)
    ensures Is565(hi / 8 * 8, (hi % 8 * 8 + lo / 32) * 4, lo % 32 * 8, lo as int + 256 * hi as int)
  {
    MaskMiddle(lo, hi);
    TopAndBottom(lo, hi);
  }

  lemma TopAndBottom(lo: Byte, hi: Byte)
    ensures (lo as int + 256 * hi as int) / 2048 == (hi / 8) as int
    ensures (lo as int + 256 * hi as int) % 32 == (lo % 32) as int
  {
    var h, g, k, l := (hi / 8) as int, (hi % 8) as int, (lo / 32) as int, (lo % 32) as int;
    Div2048(h, 256 * g + 32 * k + l);
    Mod32(64 * h + 8 * g + k, l);
  }

  lemma Div2048(q: nat, r: nat)
    requires r < 2048
    ensures (2048 * q + r) / 2048 == q
  {
  }

  lemma Mod32(q: nat, r: nat)
    requires r < 32
    ensures (32 * q + r) % 32 == r
  {
  }

  lemma LumaPlace(k: nat)
    ensures 4 * (k / 2) + (if k % 2 == 1 then 2 else 0) == 2 * k
  {
  }

  /** What a pixel means, without the program's offsets. */
  lemma PixelMeans(f: seq<Byte>, fmt: Format, k: nat)
    requires Extent(fmt, k + 1) <= |f|
    ensures var p := Pixel(f, fmt, k); Shows(p[0], p[1], p[2], f, fmt, k)
  {
    hide Clamp, Red, Green, Blue, IsJfif, Is565;
    LumaPlace(k);
    match fmt
    case RGB565 => UnpackedIs565(f[2 * k], f[2 * k + 1]);
    case YUYV => ColourIsJfif(f[2 * k], f[4 * (k / 2) + 1], f[4 * (k / 2) + 3]);
    case UYVY => ColourIsJfif(f[2 * k + 1], f[4 * (k / 2)], f[4 * (k / 2) + 2]);
  }

  lemma {:induction false} PictureMeans(f: seq<Byte>, fmt: Format, k: nat, n: nat)
    requires Extent(fmt, k + n) <= |f|
    ensures Converted(Picture(f, fmt, k, n), f, fmt, k, n)
    decreases n
  {
    hide Pixel, Extent, Shows;
    if n > 0 {
      ExtentGrows(fmt, k + n - 1, k + n);
      PictureMeans(f, fmt, k, n - 1);
      PixelMeans(f, fmt, k + n - 1);
      var before, p := Picture(f, fmt, k, n - 1), Pixel(f, fmt, k + n - 1);
      forall i: nat | i < n
        ensures ShowsAt(before + p, i, f, fmt, k)
      {
        assert i < n - 1 ==> ShowsAt(before, i, f, fmt, k);
      }
    }
  }

  function Swapped(f: seq<Byte>): (g: seq<Byte>)
    requires |f| % 2 == 0
    ensures |g| == |f|
  {
    seq(|f|, i requires 0 <= i < |f| => f[if i % 2 == 0 then i + 1 else i - 1])
  }

  lemma SwappedPair(f: seq<Byte>, h: nat)
    requires |f| % 2 == 0 && 2 * h + 2 <= |f|
    ensures Swapped(f)[2 * h] == f[2 * h + 1] && Swapped(f)[2 * h + 1] == f[2 * h]
  {
    assert (2 * h) % 2 == 0 && (2 * h + 1) % 2 == 1;
  }

  lemma SwappedMacropixel(f: seq<Byte>, q: nat)
    requires |f| % 2 == 0 && 4 * q + 4 <= |f|
    ensures var m, g := 4 * q, Swapped(f);
            g[m] == f[m + 1] && g[m + 1] == f[m] && g[m + 2] == f[m + 3] && g[m + 3] == f[m + 2]
  {
    hide Swapped;
    SwappedPair(f, 2 * q);
    SwappedPair(f, 2 * q + 1);
  }

  lemma SwappedPixel(f: seq<Byte>, k: nat)
    requires |f| % 2 == 0 && Extent(YUYV, k + 1) <= |f|
    ensures Pixel(Swapped(f), UYVY, k) == Pixel(f, YUYV, k)
  {
    hide Swapped, Red, Green, Blue, Clamp;
    SwappedMacropixel(f, k / 2);
  }

  /** The UYVY loop on the byte-swapped frame gives what the YUYV loop gives on the frame. */
  lemma {:induction false} SwappedFormats(f: seq<Byte>, k: nat, n: nat)
    requires |f| % 2 == 0 && Extent(YUYV, k + n) <= |f| && Extent(UYVY, k + n) <= |f|
    ensures Picture(Swapped(f), UYVY, k, n) == Picture(f, YUYV, k, n)
    decreases n
  {
    hide Swapped, Pixel, Extent;
    if n > 0 {
      ExtentGrows(YUYV, k + n - 1, k + n);
      ExtentGrows(UYVY, k + n - 1, k + n);
      SwappedFormats(f, k, n - 1);
      SwappedPixel(f, k + n - 1);
    }
  }

  /** 5, 6 and 5 bits of three components, low byte first. */
  function Pack565(r: Byte, g: Byte, b: Byte): (p: seq<Byte>)
    ensures |p| == 2
  {
    [g / 4 % 8 * 32 + b / 8, r / 8 * 8 + g / 32]
  }

  /** Unpacking keeps the bits that packing kept. */
  lemma UnpackPacked(r: Byte, g: Byte, b: Byte)
    ensures Pixel(Pack565(r, g, b), RGB565, 0) == [r / 8 * 8, g / 4 * 4, b / 8 * 8]
  {
    var g1, g2 := g / 32, g / 4 % 8;
    assert g / 4 == 8 * g1 + g2;
    var lo, hi := g2 * 32 + b / 8, r / 8 * 8 + g1;
    assert lo / 32 == g2 && lo % 32 == b / 8;
    assert hi / 8 == r / 8 && hi % 8 == g1;
    assert Pack565(r, g, b) == [lo, hi];
  }

  // ----- the program -----

  function Asr8(x: int): int
  {
    x / 256
  }

  lemma DownIs(a: nat)
    ensures Down(a, 3) == a / 8 && Down(a, 5) == a / 32
    ensures Low(a, 5) == a % 32 && Low(a, 6) == a % 64
  {
    hide Up, Down, Low;
    UpSmall(1);
    Split(a, 3);
    UpSmall(Down(a, 3));
    Parts(a, 8, Down(a, 3), Low(a, 3));
    Split(a, 5);
    UpSmall(Down(a, 5));
    Parts(a, 32, Down(a, 5), Low(a, 5));
    Split(a, 6);
    UpSmall(Down(a, 6));
    Parts(a, 64, Down(a, 6), Low(a, 6));
  }

  lemma Parts(a: nat, m: nat, q: nat, r: nat)
    requires (m == 8 || m == 32 || m == 64) && a == m * q + r && r < m
    ensures a / m == q && a % m == r
  {
  }

  lemma Masks(a: nat)
    ensures BitAnd(a, 31) == a % 32
    ensures BitAnd(a, 248) == a / 8 % 32 * 8
    ensures BitAnd(a, 2016) == a / 32 % 64 * 32
  {
    hide Up, Down, Low, BitAnd;
    UpSmall(1);
    UpSmall(31);
    UpSmall(63);
    DownIs(a);
    DownIs(a / 8);
    DownIs(a / 32);
    BitAndLow(a, 5);
    BitAndShifted(a, 31, 3);
    BitAndLow(a / 8, 5);
    UpSmall(a / 8 % 32);
    BitAndShifted(a, 63, 5);
    BitAndLow(a / 32, 6);
    UpSmall(a / 32 % 64);
  }

  lemma MaskMiddle(lo: Byte, hi: Byte)
    ensures (hi as int * 256 + lo) / 32 % 64 == hi % 8 * 8 + lo / 32
  {
    MiddleOf((hi / 8) as int, (hi % 8) as int, (lo / 32) as int, (lo % 32) as int);
  }

  lemma Div32(q: nat, r: nat)
    requires r < 32
    ensures (32 * q + r) / 32 == q
  {
  }

  lemma Mod64(q: nat, r: nat)
    requires r < 64
    ensures (64 * q + r) % 64 == r
  {
  }

  lemma MiddleOf(h: nat, g: nat, k: nat, l: nat)
    requires g < 8 && k < 8 && l < 32
    ensures ((8 * h + g) * 256 + (32 * k + l)) / 32 % 64 == g * 8 + k
  {
    var q := 64 * h + (8 * g + k);
    assert (8 * h + g) * 256 + (32 * k + l) == 32 * q + l;
    Div32(q, l);
    Mod64(h, 8 * g + k);
  }

  lemma ShiftSum(y: int, x: int)
    ensures (y * 256 + x) / 256 == y + x / 256
  {
  }

  /** `z` tells which luma of the macropixel at `p` belongs to pixel k. */
  predicate Stands(fmt: Format, k: nat, z: nat, p: nat)
  {
    if fmt == RGB565 then p == 2 * k else p == 4 * (k / 2) && z == k % 2
  }

  method Convert565(frame: array<Byte>, p: nat, ghost k: nat) returns (rgb: seq<Byte>)
    requires p == 2 * k && p + 2 <= frame.Length
    ensures |rgb| == 3 && rgb == Pixel(frame[..], RGB565, k)
  {
    hide BitAnd;
    var lo, hi := frame[p], frame[p + 1];
    var twoByte := hi as int * 256 + lo;
    Masks(hi);
    Masks(twoByte);
    Masks(lo);
    MaskMiddle(lo, hi);
    rgb := [BitAnd(hi, 248), BitAnd(twoByte, 2016) / 8, BitAnd(lo, 31) * 8];
  }

  method ConvertYuv(frame: array<Byte>, fmt: Format, z: nat, p: nat, ghost k: nat) returns (rgb: seq<Byte>)
    requires fmt != RGB565 && z == k % 2 && p == 4 * (k / 2) && p + 4 <= frame.Length
    ensures |rgb| == 3 && rgb == Pixel(frame[..], fmt, k)
  {
    hide Clamp;
    ghost var luma := frame[p + LumaAt(fmt, z != 0)] as int;
    var y := frame[p + LumaAt(fmt, z != 0)] as int * 256;
    var u := frame[p + BlueAt(fmt)] as int - 128;
    var v := frame[p + RedAt(fmt)] as int - 128;
    var r, g, b := Asr8(y + 359 * v), Asr8(y - 88 * u - 183 * v), Asr8(y + 454 * u);
    ShiftSum(luma, 359 * v);
    ShiftSum(luma, -88 * u - 183 * v);
    ShiftSum(luma, 454 * u);
    rgb := [Clamp(r), Clamp(g), Clamp(b)];
  }

  /** One turn of the inner loop. */
  method ConvertPixel(frame: array<Byte>, fmt: Format, z0: nat, p0: nat, ghost k: nat)
    returns (rgb: seq<Byte>, z: nat, p: nat)
    requires Extent(fmt, k + 1) <= frame.Length && Stands(fmt, k, z0, p0)
    ensures Stands(fmt, k + 1, z, p)
    ensures |rgb| == 3 && rgb == Pixel(frame[..], fmt, k)
  {
    hide Pixel;
    z, p := z0, p0;
    if fmt == RGB565 {
      rgb := Convert565(frame, p, k);
      p := p + 2;
    } else {
      rgb := ConvertYuv(frame, fmt, z, p, k);
      z := z + 1;
      if z - 1 != 0 {
        z := 0;
        p := p + 4;
      }
    }
  }

  /** The loop over one line; `z` and `p` carry over from line to line. */
  method ConvertLine(frame: array<Byte>, fmt: Format, line: array<Byte>, width: nat, z0: nat, p0: nat, ghost k: nat)
    returns (z: nat, p: nat)
    requires line != frame && line.Length == 3 * width
    requires Extent(fmt, k + width) <= frame.Length && Stands(fmt, k, z0, p0)
    modifies line
    ensures Stands(fmt, k + width, z, p)
    ensures line[..] == Picture(frame[..], fmt, k, width) && Converted(line[..], frame[..], fmt, k, width)
  {
    hide Pixel, Extent, Stands, Converted;
    PictureMeans(frame[..], fmt, k, width);
    z, p := z0, p0;
    ghost var f := frame[..];
    var x, ptr := 0, 0;
    ExtentGrows(fmt, k, k + width);
    while x < width
      invariant x <= width && ptr == 3 * x && Stands(fmt, k + x, z, p)
      invariant Extent(fmt, k + x) <= |f| && line[..ptr] == Picture(f, fmt, k, x)
    {
      ExtentGrows(fmt, k + x + 1, k + width);
      ghost var before := line[..ptr];
      var rgb;
      rgb, z, p := ConvertPixel(frame, fmt, z, p, k + x);
      line[ptr], line[ptr + 1], line[ptr + 2] := rgb[0], rgb[1], rgb[2];
      assert line[..ptr + 3] == before + rgb;
      ptr := ptr + 3;
      x := x + 1;
    }
  }

  /** How many pixels the first rows hold. */
  function Through(row: nat, width: nat): nat
  {
    row * width
  }

  lemma Rows(row: nat, height: nat, width: nat)
    requires row < height
    ensures Through(row, width) + width == Through(row + 1, width) <= width * height
  {
  }

  lemma Begin(fmt: Format, f: seq<Byte>, width: nat)
    ensures Stands(fmt, 0, 0, 0) && Extent(fmt, 0) == 0 && Through(0, width) == 0
    ensures Picture(f, fmt, 0, 0) == Flatten<Byte>([])
  {
  }

  lemma End(width: nat, height: nat)
    ensures Through(height, width) == width * height
  {
  }

  /** The lines handed to the compressor. */
  method ConvertFrame(frame: array<Byte>, fmt: Format, width: nat, height: nat) returns (lines: seq<seq<Byte>>)
    requires Extent(fmt, width * height) <= frame.Length
    ensures |lines| == height && forall row :: 0 <= row < height ==> |lines[row]| == 3 * width
    ensures Flatten(lines) == Picture(frame[..], fmt, 0, width * height)
    ensures Converted(Flatten(lines), frame[..], fmt, 0, width * height)
  {
    hide Pixel, Extent, Stands, Picture, Through, Flatten, Converted;
    PictureMeans(frame[..], fmt, 0, width * height);
    Begin(fmt, frame[..], width);
    End(width, height);
    ExtentGrows(fmt, 0, width * height);
    var line := new Byte[3 * width];
    ghost var f := frame[..];
    var z, p := 0, 0;
    lines := [];
    ghost var k := 0;
    while |lines| < height
      invariant |lines| <= height && k == Through(|lines|, width) <= width * height
      invariant forall row :: 0 <= row < |lines| ==> |lines[row]| == 3 * width
      invariant Stands(fmt, k, z, p)
      invariant Extent(fmt, k) <= |f| && Flatten(lines) == Picture(f, fmt, 0, k)
    {
      Rows(|lines|, height, width);
      ExtentGrows(fmt, k + width, width * height);
      z, p := ConvertLine(frame, fmt, line, width, z, p, k);
      PictureConcat(f, fmt, 0, k, width);
      FlattenConcat(lines, [line[..]]);
      FlattenOne(line[..]);
      lines := lines + [line[..]];
      k := k + width;
    }
  }
}
