// The YUYV and UYVY scanline loops of compress_image_to_jpeg.
module Scanlines {
  import opened Bits

  /** Where the bytes of a macropixel lie: two luma samples that share their chroma. */
  datatype Format = Yuyv | Uyvy {
    function Luma(half: nat): nat
      requires half < 2
      ensures Luma(half) < 4
    {
      if this.Yuyv? then 2 * half else 2 * half + 1
    }

    function BlueChroma(): nat { if this.Yuyv? then 1 else 0 }

    function RedChroma(): nat { if this.Yuyv? then 3 else 2 }
  }

  /** `x >> 8`, which rounds down, then the range check. */
  function Clamp(x: int): (b: Byte) {
    var s := x / 256;
    if s > 255 then 255 else if s < 0 then 0 else s as Byte
  }

  /** The three components of a pixel. */
  function Rgb(y: Byte, u: Byte, v: Byte): (rgb: seq<Byte>)
    ensures |rgb| == 3
  {
    var l, c, d := 256 * y as int, u as int - 128, v as int - 128;
    [Clamp(l + 359 * d), Clamp(l - 88 * c - 183 * d), Clamp(l + 454 * c)]
  }

  /** Where the three bytes of pixel p lie. */
  function LumaAt(format: Format, p: nat): nat { p / 2 * 4 + format.Luma(p % 2) }

  function BlueAt(format: Format, p: nat): nat { p / 2 * 4 + format.BlueChroma() }

  function RedAt(format: Format, p: nat): nat { p / 2 * 4 + format.RedChroma() }

  /** How far the conversion of n pixels reads. */
  function Reach(format: Format, n: nat): nat {
    if n % 2 == 1 && format.Uyvy? then n / 2 * 4 + 3 else (n + 1) / 2 * 4
  }

  predicate Enough(frame: seq<Byte>, format: Format, n: nat) {
    Reach(format, n) <= |frame|
  }

  /** Pixel number p, counted through all rows. */
  function Pixel(frame: seq<Byte>, format: Format, p: nat): (rgb: seq<Byte>)
    requires Enough(frame, format, p + 1)
    ensures |rgb| == 3
  {
    Rgb(frame[LumaAt(format, p)], frame[BlueAt(format, p)], frame[RedAt(format, p)])
  }

  /** n pixels from number p on. */
  function Pixels(frame: seq<Byte>, format: Format, p: nat, n: nat): (line: seq<Byte>)
    requires Enough(frame, format, p + n)
    ensures |line| == 3 * n
  {
    if n == 0 then [] else Pixels(frame, format, p, n - 1) + Pixel(frame, format, p + n - 1)
  }

  /** The number of the first pixel of row r: r * width. */
  function First(width: nat, r: nat): nat
    decreases r, width
  {
    if r == 0 then 0 else First(width, r - 1) + width
  }

  lemma {:induction false} FirstIsProduct(width: nat, r: nat)
    ensures First(width, r) == r * width
  {
    if r > 0 {
      FirstIsProduct(width, r - 1);
      assert r * width == (r - 1) * width + width;
    }
  }

  lemma {:induction false} FirstGrows(width: nat, r: nat, s: nat)
    requires r <= s
    ensures First(width, r) <= First(width, s)
    decreases s
  {
    if r < s { FirstGrows(width, r, s - 1); }
  }

  /** All rows of the picture. */
  function Rows(frame: seq<Byte>, format: Format, width: nat, height: nat): (rows: seq<seq<Byte>>)
    requires Enough(frame, format, First(width, height))
    ensures |rows| == height
    decreases height
  {
    if height == 0 then []
    else Rows(frame, format, width, height - 1) + [Pixels(frame, format, First(width, height - 1), width)]
  }

  /** Row r lies inside the picture. */
  lemma RowInside(frame: seq<Byte>, format: Format, width: nat, r: nat, height: nat)
    requires r < height && Enough(frame, format, First(width, height))
    ensures First(width, r + 1) == First(width, r) + width
    ensures Enough(frame, format, First(width, r)) && Enough(frame, format, First(width, r) + width)
  {
    FirstGrows(width, r + 1, height);
  }

  lemma RowsStep(frame: seq<Byte>, format: Format, width: nat, r: nat)
    requires Enough(frame, format, First(width, r) + width)
    ensures Enough(frame, format, First(width, r + 1)) && Enough(frame, format, First(width, r))
    ensures Rows(frame, format, width, r + 1) ==
      Rows(frame, format, width, r) + [Pixels(frame, format, First(width, r), width)]
  {
    hide Pixels;
  }

  lemma NoPixels(frame: seq<Byte>, format: Format, p: nat, n: nat)
    requires Enough(frame, format, p + n)
    ensures Enough(frame, format, p) && Pixels(frame, format, p, 0) == []
  {
  }

  lemma PixelsStep(frame: seq<Byte>, format: Format, p: nat, x: nat, n: nat)
    requires Enough(frame, format, p + n) && x < n
    ensures Enough(frame, format, p + x) && Enough(frame, format, p + x + 1)
    ensures Pixels(frame, format, p, x + 1) == Pixels(frame, format, p, x) + Pixel(frame, format, p + x)
  {
    hide Pixel;
  }

  lemma NoRows(frame: seq<Byte>, format: Format, width: nat)
    ensures First(width, 0) == 0 && Enough(frame, format, 0) && Rows(frame, format, width, 0) == []
  {
  }

  /** The pixel behind p. */
  lemma NextPixel(p: nat)
    ensures p % 2 == 0 ==> (p + 1) / 2 == p / 2 && (p + 1) % 2 == 1
    ensures p % 2 == 1 ==> (p + 1) / 2 == p / 2 + 1 && (p + 1) % 2 == 0
    ensures p % 2 == 0 || p % 2 == 1
  {
  }

  class Converter {
    const frame: array<Byte>
    const format: Format
    /** The macropixel pointer and the half of the macropixel, kept from row to row. */
    var yuyv: nat
    var z: nat

    /** The loop has passed p pixels. */
    ghost predicate At(p: nat)
      reads this
    {
      yuyv == p / 2 * 4 && z == p % 2
    }

    constructor (frame: array<Byte>, format: Format)
      ensures this.frame == frame && this.format == format && At(0)
    {
      this.frame, this.format, yuyv, z := frame, format, 0, 0;
    }

    /** One pixel into the line buffer. */
    method Convert(line: array<Byte>, ptr: nat, ghost p: nat)
      requires At(p) && Enough(frame[..], format, p + 1) && line != frame && ptr + 3 <= line.Length
      modifies this, line
      ensures At(p + 1)
      ensures line[..] == old(line[..ptr]) + Pixel(frame[..], format, p) + old(line[ptr + 3..])
    {
      NextPixel(p);
      hide Clamp;
      var y := 256 * frame[yuyv + format.Luma(z)] as int;
      var u := frame[yuyv + format.BlueChroma()] as int - 128;
      var v := frame[yuyv + format.RedChroma()] as int - 128;
      line[ptr] := Clamp(y + 359 * v);
      line[ptr + 1] := Clamp(y - 88 * u - 183 * v);
      line[ptr + 2] := Clamp(y + 454 * u);
      assert line[..] == old(line[..ptr]) + Pixel(frame[..], format, p) + old(line[ptr + 3..]);
      if z != 0 {
        z, yuyv := 0, yuyv + 4;
      } else {
        z := z + 1;
      }
    }

    /** One pass of the outer loop. */
    method ConvertRow(line: array<Byte>, width: nat, ghost p: nat)
      requires At(p) && Enough(frame[..], format, p + width) && line != frame && line.Length == 3 * width
      modifies this, line
      ensures At(p + width) && line[..] == Pixels(frame[..], format, p, width)
    {
      hide *;
      var ptr := 0;
      NoPixels(frame[..], format, p, width);
      for x := 0 to width
        invariant ptr == 3 * x && At(p + x) && Enough(frame[..], format, p + x)
        invariant line[..ptr] == Pixels(frame[..], format, p, x)
      {
        PixelsStep(frame[..], format, p, x, width);
        Convert(line, ptr, p + x);
        ptr := ptr + 3;
      }
    }

    /** The rows as jpeg_write_scanlines gets them. */
    method ConvertPicture(width: nat, height: nat) returns (rows: seq<seq<Byte>>)
      requires At(0) && Enough(frame[..], format, First(width, height))
      modifies this
      ensures rows == Rows(frame[..], format, width, height)
    {
      hide *;
      NoRows(frame[..], format, width);
      var line := new Byte[3 * width](_ => 0);
      rows := [];
      while |rows| < height
        invariant |rows| <= height && At(First(width, |rows|)) && Enough(frame[..], format, First(width, |rows|))
        invariant rows == Rows(frame[..], format, width, |rows|)
      {
        RowInside(frame[..], format, width, |rows|, height);
        ConvertRow(line, width, First(width, |rows|));
        RowsStep(frame[..], format, width, |rows|);
        rows := rows + [line[..]];
      }
    }
  }

  // ----- pixel by pixel

  lemma {:induction false} PixelsAt(frame: seq<Byte>, format: Format, p: nat, n: nat, x: nat)
    requires Enough(frame, format, p + n) && x < n
    ensures Enough(frame, format, p + x + 1)
    ensures Pixels(frame, format, p, n)[3 * x..3 * x + 3] == Pixel(frame, format, p + x)
    decreases n
  {
    hide Pixel;
    var line := Pixels(frame, format, p, n);
    if x < n - 1 {
      PixelsAt(frame, format, p, n - 1, x);
      assert line[3 * x..3 * x + 3] == Pixels(frame, format, p, n - 1)[3 * x..3 * x + 3];
    }
  }

  lemma {:induction false} RowsAt(frame: seq<Byte>, format: Format, width: nat, height: nat, r: nat)
    requires Enough(frame, format, First(width, height)) && r < height
    ensures Enough(frame, format, First(width, r) + width)
    ensures Rows(frame, format, width, height)[r] == Pixels(frame, format, First(width, r), width)
    decreases height
  {
    hide *;
    RowInside(frame, format, width, r, height);
    RowInside(frame, format, width, height - 1, height);
    RowsStep(frame, format, width, height - 1);
    if r < height - 1 {
      RowsAt(frame, format, width, height - 1, r);
    }
  }

  /** Pixel x of row r is converted from macropixel (r * width + x) / 2 of the frame, for odd widths
      too: the macropixels run on across the ends of rows. */
  lemma PictureAt(frame: seq<Byte>, format: Format, width: nat, height: nat, r: nat, x: nat)
    requires Enough(frame, format, First(width, height)) && r < height && x < width
    ensures First(width, r) == r * width && Enough(frame, format, First(width, r) + x + 1)
    ensures |Rows(frame, format, width, height)[r]| == 3 * width
    ensures Rows(frame, format, width, height)[r][3 * x..3 * x + 3] == Pixel(frame, format, First(width, r) + x)
  {
    hide *;
    FirstIsProduct(width, r);
    RowsAt(frame, format, width, height, r);
    PixelsAt(frame, format, First(width, r), width, x);
  }

  // ----- the end of the frame

  /** The reach is exact: no byte of the n pixels lies at or behind it, and one lies right before it. */
  lemma ReachIsExact(format: Format, n: nat, p: nat)
    ensures var r := Reach(format, n); p < n ==> LumaAt(format, p) < r && BlueAt(format, p) < r && RedAt(format, p) < r
    ensures n > 0 ==> Reach(format, n) - 1 in [LumaAt(format, n - 1), RedAt(format, n - 1)]
  {
  }

  /** On the frame the plugin allocates, two bytes for each pixel, the loops stay inside if and only if
      width times height is even. */
  lemma StaysInsideIff(frame: seq<Byte>, format: Format, width: nat, height: nat)
    requires |frame| == 2 * (width * height)
    ensures Enough(frame, format, First(width, height)) <==> width * height % 2 == 0
  {
    FirstIsProduct(width, height);
    hide First;
    ReachOfFrame(format, height * width);
    assert height * width == width * height;
  }

  lemma ReachOfFrame(format: Format, n: nat)
    ensures Reach(format, n) <= 2 * n <==> n % 2 == 0
    ensures Reach(format, n) <= 2 * n + 2
  {
  }

  /** Otherwise one byte behind the frame is read, the last pixel's second chroma byte. No other pixel
      depends on it, nor does the blue of that one. */
  lemma OnlyLastRedBehind(frame: seq<Byte>, x: seq<Byte>, y: seq<Byte>, format: Format, n: nat, p: nat)
    requires |frame| == 2 * n && |x| >= 2 && |y| >= 2 && p < n
    ensures Enough(frame + x, format, n) && Enough(frame + x, format, p + 1) && Enough(frame + y, format, p + 1)
    ensures p < n - 1 || n % 2 == 0 ==> Pixel(frame + x, format, p) == Pixel(frame + y, format, p)
    ensures Pixel(frame + x, format, p)[2] == Pixel(frame + y, format, p)[2]
  {
    hide Clamp;
    assert LumaAt(format, p) < |frame| && BlueAt(format, p) < |frame|;
    assert p < n - 1 || n % 2 == 0 ==> RedAt(format, p) < |frame|;
  }

  /** A component is the fixed-point value rounded down, or the nearest bound outside of 0..255. */
  lemma ClampIsFloor(x: int)
    ensures 0 <= x < 65536 ==> 256 * Clamp(x) as int <= x < 256 * Clamp(x) as int + 256
    ensures x < 0 ==> Clamp(x) == 0
    ensures x >= 65536 ==> Clamp(x) == 255
  {
  }

  // ----- the two formats

  /** Every two bytes exchanged. */
  function Swapped(frame: seq<Byte>): (s: seq<Byte>)
    ensures |s| == |frame|
  {
    seq(|frame|, i requires 0 <= i < |frame| => Partner(frame, i))
  }

  function Partner(frame: seq<Byte>, i: nat): Byte
    requires i < |frame|
  {
    if i % 2 == 1 then frame[i - 1] else if i + 1 < |frame| then frame[i + 1] else frame[i]
  }

  lemma PartnerOfPair(frame: seq<Byte>, k: nat)
    requires 2 * k + 2 <= |frame|
    ensures Partner(frame, 2 * k) == frame[2 * k + 1] && Partner(frame, 2 * k + 1) == frame[2 * k]
  {
    assert (2 * k) % 2 == 0 && (2 * k + 1) % 2 == 1;
  }

  /** A frame of n pixels for either loop, with what lies behind it in memory. The byte behind the last
      macropixel of an odd number matters. */
  ghost predicate Twins(b: seq<Byte>, x: seq<Byte>, y: seq<Byte>, n: nat) {
    |b| == 2 * n && |x| >= 2 && |y| >= 1 && (n % 2 == 0 || x[1] == y[0])
  }

  lemma TwinsEnough(b: seq<Byte>, x: seq<Byte>, y: seq<Byte>, n: nat, k: nat)
    requires Twins(b, x, y, n) && k <= n
    ensures Enough(b + x, Yuyv, k) && Enough(Swapped(b) + y, Uyvy, k)
  {
  }

  lemma SwappedBytes(b: seq<Byte>, x: seq<Byte>, y: seq<Byte>, n: nat, p: nat)
    requires Twins(b, x, y, n) && p < n
    ensures Enough(b + x, Yuyv, p + 1) && Enough(Swapped(b) + y, Uyvy, p + 1)
    ensures (b + x)[LumaAt(Yuyv, p)] == (Swapped(b) + y)[LumaAt(Uyvy, p)]
    ensures (b + x)[BlueAt(Yuyv, p)] == (Swapped(b) + y)[BlueAt(Uyvy, p)]
    ensures (b + x)[RedAt(Yuyv, p)] == (Swapped(b) + y)[RedAt(Uyvy, p)]
  {
    hide Swapped;
    var m := p / 2;
    SwappedPair(b, 2 * m);
    if 4 * m + 4 <= |b| {
      SwappedPair(b, 2 * m + 1);
    } else {
      assert 4 * m + 2 == |b|;
    }
  }

  lemma SwappedPixel(b: seq<Byte>, x: seq<Byte>, y: seq<Byte>, n: nat, p: nat)
    requires Twins(b, x, y, n) && p < n
    ensures Enough(b + x, Yuyv, p + 1) && Enough(Swapped(b) + y, Uyvy, p + 1)
    ensures Pixel(b + x, Yuyv, p) == Pixel(Swapped(b) + y, Uyvy, p)
  {
    hide Rgb, Swapped, LumaAt, BlueAt, RedAt;
    SwappedBytes(b, x, y, n, p);
  }

  lemma SwappedPair(frame: seq<Byte>, k: nat)
    requires 2 * k + 2 <= |frame|
    ensures Swapped(frame)[2 * k] == frame[2 * k + 1] && Swapped(frame)[2 * k + 1] == frame[2 * k]
  {
    PartnerOfPair(frame, k);
  }

  lemma {:induction false} SwappedPixels(b: seq<Byte>, x: seq<Byte>, y: seq<Byte>, n: nat, p: nat, k: nat)
    requires Twins(b, x, y, n) && p + k <= n
    ensures Enough(b + x, Yuyv, p + k) && Enough(Swapped(b) + y, Uyvy, p + k)
    ensures Pixels(b + x, Yuyv, p, k) == Pixels(Swapped(b) + y, Uyvy, p, k)
    decreases k
  {
    hide *;
    TwinsEnough(b, x, y, n, p + k);
    if k == 0 {
      NoPixels(b + x, Yuyv, p, 0);
      NoPixels(Swapped(b) + y, Uyvy, p, 0);
    } else {
      SwappedPixels(b, x, y, n, p, k - 1);
      SwappedPixel(b, x, y, n, p + k - 1);
      PixelsStep(b + x, Yuyv, p, k - 1, k);
      PixelsStep(Swapped(b) + y, Uyvy, p, k - 1, k);
    }
  }

  /** The two loops give equal pictures on frames that differ by exchanged bytes, for odd numbers of
      pixels if the memory behind them happens to agree. */
  lemma {:induction false} FormatsAgree(b: seq<Byte>, x: seq<Byte>, y: seq<Byte>, n: nat, width: nat, height: nat)
    requires Twins(b, x, y, n) && First(width, height) <= n
    ensures Enough(b + x, Yuyv, First(width, height)) && Enough(Swapped(b) + y, Uyvy, First(width, height))
    ensures Rows(b + x, Yuyv, width, height) == Rows(Swapped(b) + y, Uyvy, width, height)
    decreases height
  {
    hide *;
    TwinsEnough(b, x, y, n, First(width, height));
    if height == 0 {
      NoRows(b + x, Yuyv, width);
      NoRows(Swapped(b) + y, Uyvy, width);
    } else {
      RowInside(b + x, Yuyv, width, height - 1, height);
      FormatsAgree(b, x, y, n, width, height - 1);
      SwappedPixels(b, x, y, n, First(width, height - 1), width);
      RowsStep(b + x, Yuyv, width, height - 1);
      RowsStep(Swapped(b) + y, Uyvy, width, height - 1);
    }
  }

  // ----- the colours

  /** Two pixels in four bytes: the luma of each, and the chroma they share. */
  function Packed(format: Format, ys: seq<Byte>, us: seq<Byte>, vs: seq<Byte>): (frame: seq<Byte>)
    requires |ys| == 2 * |us| == 2 * |vs|
    ensures |frame| == 2 * |ys|
    decreases |us|
  {
    if us == [] then []
    else
      var n := |us| - 1;
      var y0, y1, u, v := ys[2 * n], ys[2 * n + 1], us[n], vs[n];
      Packed(format, ys[..2 * n], us[..n], vs[..n])
      + match format
        case Yuyv => [y0, u, y1, v]
        case Uyvy => [u, y0, v, y1]
  }

  lemma {:induction false} PackedAt(format: Format, ys: seq<Byte>, us: seq<Byte>, vs: seq<Byte>, p: nat)
    requires |ys| == 2 * |us| == 2 * |vs| && p < |ys|
    ensures var frame := Packed(format, ys, us, vs);
      && LumaAt(format, p) < |frame| && BlueAt(format, p) < |frame| && RedAt(format, p) < |frame|
      && frame[LumaAt(format, p)] == ys[p] && frame[BlueAt(format, p)] == us[p / 2]
      && frame[RedAt(format, p)] == vs[p / 2]
    decreases |us|
  {
    var n := |us| - 1;
    if p < 2 * n {
      PackedAt(format, ys[..2 * n], us[..n], vs[..n], p);
    } else {
      assert p / 2 == n;
    }
  }

  // The JFIF conversion, in millionths.

  function RedOf(y: Byte, cr: Byte): int { 1000000 * y as int + 1402000 * (cr as int - 128) }

  function GreenOf(y: Byte, cb: Byte, cr: Byte): int {
    1000000 * y as int - 344136 * (cb as int - 128) - 714136 * (cr as int - 128)
  }

  function BlueOf(y: Byte, cb: Byte): int { 1000000 * y as int + 1772000 * (cb as int - 128) }

  /** The byte is at most 1.2 below and 0.2 above the ideal value, or the bound that comes nearest. */
  predicate Near(b: Byte, ideal: int) {
    && (b > 0 ==> 1000000 * b as int < ideal + 200000)
    && (b < 255 ==> ideal - 1200000 < 1000000 * b as int)
  }

  predicate NearAll(rgb: seq<Byte>, y: Byte, cb: Byte, cr: Byte) {
    |rgb| == 3 && Near(rgb[0], RedOf(y, cr)) && Near(rgb[1], GreenOf(y, cb, cr)) && Near(rgb[2], BlueOf(y, cb))
  }

  lemma ClampNear(x: int, ideal: int)
    requires -51200000 < 256 * ideal - 1000000 * x < 51200000
    ensures Near(Clamp(x), ideal)
  {
    ClampIsFloor(x);
  }

  lemma RgbNear(y: Byte, u: Byte, v: Byte)
    ensures NearAll(Rgb(y, u, v), y, u, v)
  {
    hide Clamp, Near;
    var l, c, d := 256 * y as int, u as int - 128, v as int - 128;
    ClampNear(l + 359 * d, RedOf(y, v));
    ClampNear(l - 88 * c - 183 * d, GreenOf(y, u, v));
    ClampNear(l + 454 * c, BlueOf(y, u));
  }

  /** Every pixel of the picture has the colour of its luma and of the chroma it shares. */
  lemma ColoursAre(format: Format, ys: seq<Byte>, us: seq<Byte>, vs: seq<Byte>, width: nat, height: nat, r: nat, x: nat)
    requires |ys| == 2 * |us| == 2 * |vs| && First(width, height) <= |ys| && r < height && x < width
    ensures var frame, p := Packed(format, ys, us, vs), First(width, r) + x;
      && First(width, r) == r * width && Enough(frame, format, First(width, height)) && p < |ys|
      && |Rows(frame, format, width, height)[r]| == 3 * width
      && NearAll(Rows(frame, format, width, height)[r][3 * x..3 * x + 3], ys[p], us[p / 2], vs[p / 2])
  {
    hide Packed, Rows, Rgb, NearAll, First;
    var frame, p := Packed(format, ys, us, vs), First(width, r) + x;
    RowInside(frame, format, width, r, height);
    PictureAt(frame, format, width, height, r, x);
    PackedAt(format, ys, us, vs, p);
    RgbNear(ys[p], us[p / 2], vs[p / 2]);
  }
}
