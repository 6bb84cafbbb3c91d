/**
 * The renderers' image: a width, a height, a colour mode and a byte
 * buffer of fixed size that pixel writes update in place.
 */
module Images {
  import opened Util

  /** `ColorMode`; its discriminant is the number of bytes per pixel. */
  datatype ColorMode = Rgb | Rgba

  function Channels(mode: ColorMode): (n: nat)
    ensures n == 3 || n == 4
    ensures n == 4 <==> mode == Rgba
  {
    match mode
    case Rgb => 3
    case Rgba => 4
  }

  /** `[u8; 3]` and `[u8; 4]`. */
  type Color3 = (Byte, Byte, Byte)
  type Color4 = (Byte, Byte, Byte, Byte)

  function Bytes3(c: Color3): (s: seq<Byte>)
    ensures |s| == 3
  {
    [c.0, c.1, c.2]
  }

  function Bytes4(c: Color4): (s: seq<Byte>)
    ensures |s| == 4
  {
    [c.0, c.1, c.2, c.3]
  }

  /** Pixels of a w-wide image at different positions have different offsets. */
  lemma OffsetInjective(w: nat, x1: nat, y1: nat, x2: nat, y2: nat)
    requires x1 < w && x2 < w && (x1, y1) != (x2, y2)
    ensures x1 + y1 * w != x2 + y2 * w
  {
    if y1 < y2 {
      assert y2 * w >= (y1 + 1) * w;
    } else if y2 < y1 {
      assert y1 * w >= (y2 + 1) * w;
    }
  }

  /** A pixel inside a w by h image has an offset below w·h. */
  lemma OffsetInside(w: nat, h: nat, x: nat, y: nat)
    requires x < w && y < h
    ensures x + y * w < w * h
  {
    assert (y + 1) * w <= h * w;
  }

  class Image {
    const width: nat
    const height: nat
    const buffer: array<Byte>
    const colorMode: ColorMode

    /** `Image::new`: a zeroed buffer of width·height pixels of the mode's size. */
    constructor (w: nat, h: nat, mode: ColorMode)
      ensures width == w && height == h && colorMode == mode
      ensures buffer.Length == w * h * Channels(mode)
      ensures forall k :: 0 <= k < buffer.Length ==> buffer[k] == 0
      ensures fresh(buffer)
    {
      width, height, colorMode := w, h, mode;
      buffer := new Byte[w * h * Channels(mode)](_ => 0);
    }

    /** `Image::from_buffer`: an image over an existing buffer. */
    constructor FromBuffer(w: nat, h: nat, buf: array<Byte>, mode: ColorMode)
      ensures width == w && height == h && buffer == buf && colorMode == mode
    {
      width, height, buffer, colorMode := w, h, buf, mode;
    }

    /** Position of pixel (x, y) counted in pixels. */
    function Offset(x: nat, y: nat): nat
      reads this
    {
      x + y * width
    }

    /** `get_pixel`: the three bytes at 3·(x + y·width). */
    function GetPixel(x: nat, y: nat): (p: seq<Byte>)
      reads this, buffer
      requires 3 * Offset(x, y) + 3 <= buffer.Length
      ensures |p| == 3
    {
      buffer[3 * Offset(x, y)..3 * Offset(x, y) + 3]
    }

    /** The four bytes at 4·(x + y·width), which `put_pixel_rgba` writes. */
    function PixelRgba(x: nat, y: nat): (p: seq<Byte>)
      reads this, buffer
      requires 4 * Offset(x, y) + 4 <= buffer.Length
      ensures |p| == 4
    {
      buffer[4 * Offset(x, y)..4 * Offset(x, y) + 4]
    }

    /** `is_rgba` */
    function IsRgba(): (r: bool)
      reads this
      ensures r <==> colorMode == Rgba
    {
      match colorMode
      case Rgb => false
      case Rgba => true
    }

    /** `put_pixel`: writes the three bytes of pixel (x, y) and nothing else. */
    method PutPixel(x: nat, y: nat, color: Color3)
      requires 3 * Offset(x, y) + 3 <= buffer.Length
      modifies buffer
      ensures GetPixel(x, y) == Bytes3(color)
      ensures forall k :: 0 <= k < buffer.Length && !(3 * Offset(x, y) <= k < 3 * Offset(x, y) + 3) ==>
        buffer[k] == old(buffer[k])
    {
      var index := (x + y * width) * 3;
      buffer[index] := color.0;
      buffer[index + 1] := color.1;
      buffer[index + 2] := color.2;
    }

    /**
     * `put_hor_line((x0, x1), y, color)`: pixels x0 .. x1-1 of row y take
     * the colour, in chunks of three bytes; no other byte changes.
     */
    method PutHorLine(x0: nat, x1: nat, y: nat, color: Color3)
      requires x0 <= x1 && 3 * Offset(x1, y) <= buffer.Length
      modifies buffer
      ensures forall x: nat :: x0 <= x < x1 ==> GetPixel(x, y) == Bytes3(color)
      ensures forall k :: 0 <= k < buffer.Length && !(3 * Offset(x0, y) <= k < 3 * Offset(x1, y)) ==>
        buffer[k] == old(buffer[k])
    {
      var start := (x0 + y * width) * 3;
      for c := 0 to x1 - x0
        invariant forall j :: 0 <= j < c ==> buffer[start + 3 * j..start + 3 * j + 3] == Bytes3(color)
        invariant forall k :: 0 <= k < buffer.Length && !(start <= k < start + 3 * c) ==> buffer[k] == old(buffer[k])
      {
        var p := start + 3 * c;
        buffer[p] := color.0;
        buffer[p + 1] := color.1;
        buffer[p + 2] := color.2;
      }
      forall x: nat | x0 <= x < x1
        ensures GetPixel(x, y) == Bytes3(color)
      {
        assert 3 * Offset(x, y) == start + 3 * (x - x0);
      }
    }

    /** `put_pixel_rgba`: writes the four bytes of pixel (x, y) and nothing else. */
    method PutPixelRgba(x: nat, y: nat, color: Color4)
      requires 4 * Offset(x, y) + 4 <= buffer.Length
      modifies buffer
      ensures PixelRgba(x, y) == Bytes4(color)
      ensures forall k :: 0 <= k < buffer.Length && !(4 * Offset(x, y) <= k < 4 * Offset(x, y) + 4) ==>
        buffer[k] == old(buffer[k])
    {
      var index := (x + y * width) * 4;
      buffer[index] := color.0;
      buffer[index + 1] := color.1;
      buffer[index + 2] := color.2;
      buffer[index + 3] := color.3;
    }
  }

  /** `Image::from_fn`: an Rgb image whose every pixel is `f(x, y)`. */
  method FromFn(w: nat, h: nat, f: (nat, nat) -> Color3) returns (img: Image)
    ensures fresh(img) && fresh(img.buffer)
    ensures img.width == w && img.height == h && img.colorMode == Rgb && img.buffer.Length == w * h * 3
    ensures forall x: nat, y: nat :: x < w && y < h ==> 3 * img.Offset(x, y) + 3 <= img.buffer.Length
    ensures forall x: nat, y: nat :: x < w && y < h ==> img.GetPixel(x, y) == Bytes3(f(x, y))
  {
    img := new Image(w, h, Rgb);
    forall x: nat, y: nat | x < w && y < h
      ensures 3 * img.Offset(x, y) + 3 <= img.buffer.Length
    {
      OffsetInside(w, h, x, y);
    }
    for x := 0 to w
      invariant forall x': nat, y': nat :: x' < w && y' < h ==> 3 * img.Offset(x', y') + 3 <= img.buffer.Length
      invariant forall x': nat, y': nat :: x' < x && y' < h ==> img.GetPixel(x', y') == Bytes3(f(x', y'))
    {
      FillColumn(img, x, f);
    }
  }

  /** The inner loop of `from_fn`: column x, pixel by pixel. */
  method FillColumn(img: Image, x: nat, f: (nat, nat) -> Color3)
    requires x < img.width && img.buffer.Length == img.width * img.height * 3
    requires forall x': nat, y': nat :: x' < img.width && y' < img.height ==> 3 * img.Offset(x', y') + 3 <= img.buffer.Length
    modifies img.buffer
    ensures forall y: nat :: y < img.height ==> img.GetPixel(x, y) == Bytes3(f(x, y))
    ensures forall x': nat, y': nat :: x' < img.width && y' < img.height && x' != x ==> img.GetPixel(x', y') == old(img.GetPixel(x', y'))
  {
    for y := 0 to img.height
      invariant forall y': nat :: y' < y ==> img.GetPixel(x, y') == Bytes3(f(x, y'))
      invariant forall x': nat, y': nat :: x' < img.width && y' < img.height && (x' != x || y' >= y) ==>
        img.GetPixel(x', y') == old(img.GetPixel(x', y'))
    {
      ghost var before := img.buffer[..];
      img.PutPixel(x, y, f(x, y));
      forall x': nat, y': nat | x' < img.width && y' < img.height && (x', y') != (x, y)
        ensures img.GetPixel(x', y') == before[3 * img.Offset(x', y')..3 * img.Offset(x', y') + 3]
      {
        OffsetInjective(img.width, x, y, x', y');
      }
    }
  }

  /** `Image::from_fn_rgba`: an Rgba image whose every pixel is `f(x, y)`. */
  method FromFnRgba(w: nat, h: nat, f: (nat, nat) -> Color4) returns (img: Image)
    ensures fresh(img) && fresh(img.buffer)
    ensures img.width == w && img.height == h && img.colorMode == Rgba && img.buffer.Length == w * h * 4
    ensures forall x: nat, y: nat :: x < w && y < h ==> 4 * img.Offset(x, y) + 4 <= img.buffer.Length
    ensures forall x: nat, y: nat :: x < w && y < h ==> img.PixelRgba(x, y) == Bytes4(f(x, y))
  {
    img := new Image(w, h, Rgba);
    forall x: nat, y: nat | x < w && y < h
      ensures 4 * img.Offset(x, y) + 4 <= img.buffer.Length
    {
      OffsetInside(w, h, x, y);
    }
    for x := 0 to w
      invariant forall x': nat, y': nat :: x' < w && y' < h ==> 4 * img.Offset(x', y') + 4 <= img.buffer.Length
      invariant forall x': nat, y': nat :: x' < x && y' < h ==> img.PixelRgba(x', y') == Bytes4(f(x', y'))
    {
      FillColumnRgba(img, x, f);
    }
  }

  /** The inner loop of `from_fn_rgba`. */
  method FillColumnRgba(img: Image, x: nat, f: (nat, nat) -> Color4)
    requires x < img.width && img.buffer.Length == img.width * img.height * 4
    requires forall x': nat, y': nat :: x' < img.width && y' < img.height ==> 4 * img.Offset(x', y') + 4 <= img.buffer.Length
    modifies img.buffer
    ensures forall y: nat :: y < img.height ==> img.PixelRgba(x, y) == Bytes4(f(x, y))
    ensures forall x': nat, y': nat :: x' < img.width && y' < img.height && x' != x ==> img.PixelRgba(x', y') == old(img.PixelRgba(x', y'))
  {
    for y := 0 to img.height
      invariant forall y': nat :: y' < y ==> img.PixelRgba(x, y') == Bytes4(f(x, y'))
      invariant forall x': nat, y': nat :: x' < img.width && y' < img.height && (x' != x || y' >= y) ==>
        img.PixelRgba(x', y') == old(img.PixelRgba(x', y'))
    {
      ghost var before := img.buffer[..];
      img.PutPixelRgba(x, y, f(x, y));
      forall x': nat, y': nat | x' < img.width && y' < img.height && (x', y') != (x, y)
        ensures img.PixelRgba(x', y') == before[4 * img.Offset(x', y')..4 * img.Offset(x', y') + 4]
      {
        OffsetInjective(img.width, x, y, x', y');
      }
    }
  }
}
