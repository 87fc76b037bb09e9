/** The software compositor of Renderer.cs: a fixed-size BGRA framebuffer with an opaque
    clear, a clipped alpha-blended blit, and a present step guarded by the window handle. */
module Compositor {
  import opened Wrappers
  import opened Pixels
  import opened Geometry

  /** A native window handle (IntPtr); `NullHandle` is IntPtr.Zero, a handle never set. */
  type Handle = int

  const NullHandle: Handle := 0

  /** Decoded image data: BGRA bytes, row-major and top-down, with the image's own size. */
  datatype Image = Image(pixels: seq<byte>, width: nat, height: nat) {
    /** Enough bytes for every pixel the declared size names. */
    predicate WellFormed() {
      |pixels| >= width * height * 4
    }
  }

  /** The renderer's state: its fixed size, its framebuffer and the target window handle. */
  datatype Renderer = Renderer(width: nat, height: nat, framebuffer: seq<byte>, hwnd: Handle) {
    /** The framebuffer holds exactly width * height BGRA pixels. */
    predicate Valid() {
      |framebuffer| == width * height * 4
    }
  }

  datatype RenderError = WindowHandleNotSet

  /** Colour of pixel (x, y) of the framebuffer. */
  function Pixel(r: Renderer, x: nat, y: nat): Color
    requires r.Valid() && x < r.width && y < r.height
  {
    ByteIndexInBounds(r.width, r.height, x, y, Alpha);
    PixelAt(r.framebuffer, y * r.width + x)
  }

  /** Colour of pixel (x, y) of an image. */
  function SourcePixel(img: Image, x: nat, y: nat): Color
    requires img.WellFormed() && x < img.width && y < img.height
  {
    ByteIndexInBounds(img.width, img.height, x, y, Alpha);
    PixelAt(img.pixels, y * img.width + x)
  }

  /** The constructor: a zero-filled framebuffer of width * height * 4 bytes and no window. */
  function NewRenderer(width: nat, height: nat): (r: Renderer)
    ensures r.Valid() && r.width == width && r.height == height
    ensures r.hwnd == NullHandle
    ensures forall j :: 0 <= j < |r.framebuffer| ==> r.framebuffer[j] == 0
  {
    Renderer(width, height, seq(width * height * 4, _ => 0), NullHandle)
  }

  /** Records the window to present to; the framebuffer and the size are untouched. */
  function SetWindowHandle(r: Renderer, hwnd: Handle): (r': Renderer)
    ensures r'.hwnd == hwnd
    ensures r'.width == r.width && r'.height == r.height && r'.framebuffer == r.framebuffer
  {
    r.(hwnd := hwnd)
  }

  // ---------------------------------------------------------------------------
  // Clear

  /** A buffer of `pixels` BGRA pixels, each of colour `c`. */
  function Filled(pixels: nat, c: Color): (fb: seq<byte>)
    ensures |fb| == pixels * 4
    ensures forall i :: 0 <= i < pixels ==> PixelAt(fb, i) == c
  {
    seq(pixels * 4, j => Channel(c, j % 4))
  }

  /** The renderer after an opaque clear to `c`. */
  function Cleared(r: Renderer, c: Color): (r': Renderer)
    requires r.Valid()
    ensures r'.Valid() && r'.width == r.width && r'.height == r.height && r'.hwnd == r.hwnd
    ensures forall x, y :: 0 <= x < r.width && 0 <= y < r.height ==> Pixel(r', x, y) == c
  {
    var r' := r.(framebuffer := Filled(r.width * r.height, c));
    assert forall x, y :: 0 <= x < r.width && 0 <= y < r.height ==> Pixel(r', x, y) == c by {
      forall x, y | 0 <= x < r.width && 0 <= y < r.height
        ensures Pixel(r', x, y) == c
      {
        ByteIndexInBounds(r.width, r.height, x, y, 0);
      }
    }
    r'
  }

  /** Clearing twice with the same colour is clearing once. */
  lemma ClearIdempotent(r: Renderer, c: Color)
    requires r.Valid()
    ensures Cleared(Cleared(r, c), c) == Cleared(r, c)
  {
  }

  /** Clear: writes B, G, R, A of `c` into every pixel, one pixel per iteration. */
  method Clear(r: Renderer, c: Color) returns (r': Renderer)
    requires r.Valid()
    ensures r' == Cleared(r, c)
  {
    var fb := r.framebuffer;
    var n := r.width * r.height;
    var i := 0;
    while i < n
      invariant 0 <= i <= n
      invariant |fb| == n * 4
      invariant forall j :: 0 <= j < i * 4 ==> fb[j] == Channel(c, j % 4)
    {
      var idx := i * 4;
      fb := fb[idx + Blue := c.b];
      fb := fb[idx + Green := c.g];
      fb := fb[idx + Red := c.r];
      fb := fb[idx + Alpha := c.a];
      i := i + 1;
    }
    r' := r.(framebuffer := fb);
  }

  // ---------------------------------------------------------------------------
  // DrawImage

  /** Whether the pixel holding byte `j` lies under `img` placed with its top-left corner
      at (posX, posY). */
  predicate Covers(width: nat, img: Image, posX: int, posY: int, j: nat)
    requires width > 0
  {
    0 <= Col(width, j) - posX < img.width && 0 <= Row(width, j) - posY < img.height
  }

  /** Byte `j` of the framebuffer once `img` is drawn at (posX, posY): under the image the
      colour bytes blend the source over the old value and the alpha byte becomes 255;
      elsewhere the byte is kept. */
  function DrawnByte(r: Renderer, img: Image, posX: int, posY: int, j: nat): (b: byte)
    requires r.Valid() && img.WellFormed() && j < |r.framebuffer|
    ensures r.width > 0
    ensures !Covers(r.width, img, posX, posY, j) ==> b == r.framebuffer[j]
    ensures Covers(r.width, img, posX, posY, j) && Chan(j) == Alpha ==> b == 255
    ensures Covers(r.width, img, posX, posY, j) && Chan(j) < Alpha ==>
      var src := ByteIndex(img.width, Col(r.width, j) - posX, Row(r.width, j) - posY, 0);
      src + Alpha < |img.pixels| &&
      (img.pixels[src + Alpha] == 255 ==> b == img.pixels[src + Chan(j)]) &&
      (img.pixels[src + Alpha] == 0 ==> b == r.framebuffer[j])
  {
    IndexOfCoordinates(r.width, r.height, j);
    if Covers(r.width, img, posX, posY, j) then
      var sx, sy := Col(r.width, j) - posX, Row(r.width, j) - posY;
      ByteIndexInBounds(img.width, img.height, sx, sy, Alpha);
      var s := ByteIndex(img.width, sx, sy, 0);
      if Chan(j) == Alpha then 255
      else Blend(img.pixels[s + Chan(j)], r.framebuffer[j], img.pixels[s + Alpha])
    else
      r.framebuffer[j]
  }

  /** The framebuffer once `img` is drawn at (posX, posY), defined destination byte by
      destination byte. */
  function DrawSpec(r: Renderer, img: Image, posX: int, posY: int): (fb: seq<byte>)
    requires r.Valid() && img.WellFormed()
    ensures |fb| == |r.framebuffer|
    ensures forall j :: 0 <= j < |fb| && fb[j] != r.framebuffer[j] ==>
      r.width > 0 && Covers(r.width, img, posX, posY, j)
  {
    seq(|r.framebuffer|, j requires 0 <= j < |r.framebuffer| => DrawnByte(r, img, posX, posY, j))
  }

  /** The renderer after drawing `img` at (posX, posY). */
  function Drawn(r: Renderer, img: Image, posX: int, posY: int): (r': Renderer)
    requires r.Valid() && img.WellFormed()
    ensures r'.Valid() && r'.width == r.width && r'.height == r.height && r'.hwnd == r.hwnd
  {
    r.(framebuffer := DrawSpec(r, img, posX, posY))
  }

  /** Byte `j` part-way through the blit: source pixels in rows above `y`, and left of `x`
      in row `y`, have been drawn; the others not yet. */
  ghost function Progress(r: Renderer, img: Image, posX: int, posY: int, y: int, x: int, j: nat): byte
    requires r.Valid() && img.WellFormed() && j < |r.framebuffer|
  {
    IndexOfCoordinates(r.width, r.height, j);
    var sx, sy := Col(r.width, j) - posX, Row(r.width, j) - posY;
    if Covers(r.width, img, posX, posY, j) && (sy < y || (sy == y && sx < x))
    then DrawnByte(r, img, posX, posY, j)
    else r.framebuffer[j]
  }

  /** Blending source pixel (x, y) onto destination pixel (posX + x, posY + y) advances the
      blit by one pixel. */
  lemma {:induction false} DrawPixelStep(r: Renderer, img: Image, posX: int, posY: int, x: nat, y: nat,
                                         before: seq<byte>, after: seq<byte>)
    requires r.Valid() && img.WellFormed()
    requires x < img.width && y < img.height
    requires 0 <= posX + x < r.width && 0 <= posY + y < r.height
    requires |before| == |r.framebuffer| == |after|
    requires forall j :: 0 <= j < |before| ==> before[j] == Progress(r, img, posX, posY, y, x, j)
    requires ByteIndex(img.width, x, y, Alpha) < |img.pixels|
    requires ByteIndex(r.width, posX + x, posY + y, Alpha) < |before|
    requires forall k :: 0 <= k < Alpha ==>
      after[ByteIndex(r.width, posX + x, posY + y, k)]
        == Blend(img.pixels[ByteIndex(img.width, x, y, k)], before[ByteIndex(r.width, posX + x, posY + y, k)],
                 img.pixels[ByteIndex(img.width, x, y, Alpha)])
    requires after[ByteIndex(r.width, posX + x, posY + y, Alpha)] == 255
    requires forall j :: 0 <= j < |before| && !(ByteIndex(r.width, posX + x, posY + y, 0) <= j < ByteIndex(r.width, posX + x, posY + y, 0) + 4)
                ==> after[j] == before[j]
    ensures forall j :: 0 <= j < |after| ==> after[j] == Progress(r, img, posX, posY, y, x + 1, j)
  {
    var fx, fy := posX + x, posY + y;
    var base := ByteIndex(r.width, fx, fy, 0);
    forall j | 0 <= j < |after|
      ensures after[j] == Progress(r, img, posX, posY, y, x + 1, j)
    {
      IndexOfCoordinates(r.width, r.height, j);
      if base <= j < base + 4 {
        var k := j - base;
        assert j == ByteIndex(r.width, fx, fy, k);
        CoordinatesOfIndex(r.width, fx, fy, k);
        assert before[j] == r.framebuffer[j];
        if k < Alpha {
          assert after[ByteIndex(r.width, fx, fy, k)]
            == Blend(img.pixels[ByteIndex(img.width, x, y, k)], before[ByteIndex(r.width, fx, fy, k)],
                     img.pixels[ByteIndex(img.width, x, y, Alpha)]);
        }
      } else if Col(r.width, j) == fx && Row(r.width, j) == fy {
        assert false;
      }
    }
  }

  /** DrawImage: for every source pixel whose destination lies inside the framebuffer,
      blend B, G and R over the destination and force its alpha to 255; source pixels
      whose destination is off the framebuffer are skipped. */
  method DrawImage(r: Renderer, img: Image, posX: int, posY: int) returns (r': Renderer)
    requires r.Valid() && img.WellFormed()
    ensures r' == Drawn(r, img, posX, posY)
  {
    var fb := r.framebuffer;
    var y := 0;
    while y < img.height
      invariant 0 <= y <= img.height
      invariant |fb| == |r.framebuffer|
      invariant forall j :: 0 <= j < |fb| ==> fb[j] == Progress(r, img, posX, posY, y, 0, j)
    {
      var fbY := posY + y;
      if 0 <= fbY < r.height {
        var x := 0;
        while x < img.width
          invariant 0 <= x <= img.width
          invariant |fb| == |r.framebuffer|
          invariant forall j :: 0 <= j < |fb| ==> fb[j] == Progress(r, img, posX, posY, y, x, j)
        {
          var fbX := posX + x;
          if 0 <= fbX < r.width {
            ByteIndexInBounds(img.width, img.height, x, y, Alpha);
            var imgIdx := (y * img.width + x) * 4;
            var b := img.pixels[imgIdx + Blue];
            var g := img.pixels[imgIdx + Green];
            var red := img.pixels[imgIdx + Red];
            var a := img.pixels[imgIdx + Alpha];

            ByteIndexInBounds(r.width, r.height, fbX, fbY, Alpha);
            var fbIdx := (fbY * r.width + fbX) * 4;
            var fbB := fb[fbIdx + Blue];
            var fbG := fb[fbIdx + Green];
            var fbR := fb[fbIdx + Red];

            ghost var before := fb;
            fb := fb[fbIdx + Blue := Blend(b, fbB, a)];
            fb := fb[fbIdx + Green := Blend(g, fbG, a)];
            fb := fb[fbIdx + Red := Blend(red, fbR, a)];
            fb := fb[fbIdx + Alpha := 255];
            DrawPixelStep(r, img, posX, posY, x, y, before, fb);
          } else {
            forall j | 0 <= j < |fb|
              ensures Progress(r, img, posX, posY, y, x, j) == Progress(r, img, posX, posY, y, x + 1, j)
            {
              IndexOfCoordinates(r.width, r.height, j);
            }
          }
          x := x + 1;
        }
      } else {
        forall j | 0 <= j < |fb|
          ensures Progress(r, img, posX, posY, y, 0, j) == Progress(r, img, posX, posY, y + 1, 0, j)
        {
          IndexOfCoordinates(r.width, r.height, j);
        }
      }
      y := y + 1;
    }
    r' := r.(framebuffer := fb);
  }

  /** Whether destination pixel (x, y) lies under `img` placed at (posX, posY). */
  predicate Under(img: Image, posX: int, posY: int, x: int, y: int)
  {
    0 <= x - posX < img.width && 0 <= y - posY < img.height
  }

  /** Byte `k` of destination pixel (x, y) after a draw, in the pixel's coordinates. */
  lemma {:induction false} DrawnByteAt(r: Renderer, img: Image, posX: int, posY: int, x: nat, y: nat, k: nat)
    requires r.Valid() && img.WellFormed() && x < r.width && y < r.height && k < 4
    ensures ByteIndex(r.width, x, y, k) < |r.framebuffer|
    ensures Under(img, posX, posY, x, y) ==>
      ByteIndex(img.width, x - posX, y - posY, Alpha) < |img.pixels|
    ensures var j := ByteIndex(r.width, x, y, k);
      DrawSpec(r, img, posX, posY)[j] ==
        if !Under(img, posX, posY, x, y) then r.framebuffer[j]
        else if k == Alpha then 255
        else Blend(img.pixels[ByteIndex(img.width, x - posX, y - posY, k)], r.framebuffer[j],
                   img.pixels[ByteIndex(img.width, x - posX, y - posY, Alpha)])
  {
    ByteIndexInBounds(r.width, r.height, x, y, k);
    CoordinatesOfIndex(r.width, x, y, k);
    if Under(img, posX, posY, x, y) {
      ByteIndexInBounds(img.width, img.height, x - posX, y - posY, Alpha);
    }
  }

  /** Pixel (x, y) after a draw. Under the image its B, G and R are the source blended over
      the old pixel with the source's alpha, and its alpha is 255; every other pixel keeps
      all four of its bytes. */
  lemma {:induction false} DrawPixel(r: Renderer, img: Image, posX: int, posY: int, x: nat, y: nat)
    requires r.Valid() && img.WellFormed() && x < r.width && y < r.height
    ensures var before, after := Pixel(r, x, y), Pixel(Drawn(r, img, posX, posY), x, y);
      if Under(img, posX, posY, x, y) then
        var src := SourcePixel(img, x - posX, y - posY);
        after == Color(255, Blend(src.r, before.r, src.a), Blend(src.g, before.g, src.a),
                       Blend(src.b, before.b, src.a))
      else
        after == before
  {
    DrawnByteAt(r, img, posX, posY, x, y, Blue);
    DrawnByteAt(r, img, posX, posY, x, y, Green);
    DrawnByteAt(r, img, posX, posY, x, y, Red);
    DrawnByteAt(r, img, posX, posY, x, y, Alpha);
    var p := y * r.width + x;
    assert ByteIndex(r.width, x, y, Blue) == 4 * p + Blue;
    assert ByteIndex(r.width, x, y, Green) == 4 * p + Green;
    assert ByteIndex(r.width, x, y, Red) == 4 * p + Red;
    assert ByteIndex(r.width, x, y, Alpha) == 4 * p + Alpha;
    if Under(img, posX, posY, x, y) {
      var q := (y - posY) * img.width + (x - posX);
      assert ByteIndex(img.width, x - posX, y - posY, Blue) == 4 * q + Blue;
      assert ByteIndex(img.width, x - posX, y - posY, Green) == 4 * q + Green;
      assert ByteIndex(img.width, x - posX, y - posY, Red) == 4 * q + Red;
      assert ByteIndex(img.width, x - posX, y - posY, Alpha) == 4 * q + Alpha;
    }
  }

  /** Clipping: a draw changes no byte of a pixel that is not under the image, for any
      position of the image, including negative and off-screen ones. */
  lemma {:induction false} DrawKeepsUncovered(r: Renderer, img: Image, posX: int, posY: int, x: nat, y: nat)
    requires r.Valid() && img.WellFormed() && x < r.width && y < r.height
    requires !Under(img, posX, posY, x, y)
    ensures Pixel(Drawn(r, img, posX, posY), x, y) == Pixel(r, x, y)
  {
    DrawPixel(r, img, posX, posY, x, y);
  }

  /** The same frame property stated byte by byte: any byte a draw changes belongs to a
      pixel inside the framebuffer that lies under the image. */
  lemma {:induction false} DrawChangesOnlyCovered(r: Renderer, img: Image, posX: int, posY: int, j: nat)
    requires r.Valid() && img.WellFormed() && j < |r.framebuffer|
    requires DrawSpec(r, img, posX, posY)[j] != r.framebuffer[j]
    ensures r.width > 0
    ensures Col(r.width, j) < r.width && Row(r.width, j) < r.height
    ensures Under(img, posX, posY, Col(r.width, j), Row(r.width, j))
  {
    IndexOfCoordinates(r.width, r.height, j);
  }

  /** Every pixel a draw touches ends with alpha 255, whatever the source alpha and the
      pixel's previous alpha. */
  lemma {:induction false} DrawForcesOpaque(r: Renderer, img: Image, posX: int, posY: int, x: nat, y: nat)
    requires r.Valid() && img.WellFormed() && x < r.width && y < r.height
    requires Under(img, posX, posY, x, y)
    ensures Pixel(Drawn(r, img, posX, posY), x, y).a == 255
  {
    DrawPixel(r, img, posX, posY, x, y);
  }

  /** Where the source pixel is fully opaque, the destination takes its B, G and R exactly. */
  lemma {:induction false} DrawOpaqueCopies(r: Renderer, img: Image, posX: int, posY: int, x: nat, y: nat)
    requires r.Valid() && img.WellFormed() && x < r.width && y < r.height
    requires Under(img, posX, posY, x, y)
    requires SourcePixel(img, x - posX, y - posY).a == 255
    ensures var src, after := SourcePixel(img, x - posX, y - posY), Pixel(Drawn(r, img, posX, posY), x, y);
      after == src
  {
    DrawPixel(r, img, posX, posY, x, y);
  }

  /** Where the source pixel is fully transparent, the destination keeps its B, G and R. */
  lemma {:induction false} DrawTransparentKeeps(r: Renderer, img: Image, posX: int, posY: int, x: nat, y: nat)
    requires r.Valid() && img.WellFormed() && x < r.width && y < r.height
    requires Under(img, posX, posY, x, y)
    requires SourcePixel(img, x - posX, y - posY).a == 0
    ensures var before, after := Pixel(r, x, y), Pixel(Drawn(r, img, posX, posY), x, y);
      after == before.(a := 255)
  {
    DrawPixel(r, img, posX, posY, x, y);
  }

  // ---------------------------------------------------------------------------
  // Present

  /** Present's guard: without a window handle it fails; otherwise it hands the framebuffer,
      byte for byte, to the window surface and leaves the renderer as it was. */
  function Present(r: Renderer): (res: Result<seq<byte>, RenderError>)
    requires r.Valid()
    ensures res.Failure? <==> r.hwnd == NullHandle
    ensures res.Failure? ==> res.error == WindowHandleNotSet
    ensures res.Success? ==> res.value == r.framebuffer && |res.value| == r.width * r.height * 4
  {
    if r.hwnd == NullHandle then Failure(WindowHandleNotSet) else Success(r.framebuffer)
  }

  // ---------------------------------------------------------------------------
  // The framebuffer is never reallocated

  /** A call a caller can make on the renderer. */
  datatype Command =
    | ClearCmd(color: Color)
    | DrawCmd(img: Image, posX: int, posY: int)
    | SetWindowHandleCmd(hwnd: Handle)

  predicate Admissible(cmd: Command)
  {
    cmd.DrawCmd? ==> cmd.img.WellFormed()
  }

  function ApplyCommand(r: Renderer, cmd: Command): (r': Renderer)
    requires r.Valid() && Admissible(cmd)
    ensures r'.Valid() && r'.width == r.width && r'.height == r.height
  {
    match cmd
    case ClearCmd(c) => Cleared(r, c)
    case DrawCmd(img, posX, posY) => Drawn(r, img, posX, posY)
    case SetWindowHandleCmd(h) => SetWindowHandle(r, h)
  }

  /** The renderer after a run of calls, the first applied first. */
  function ExecuteCommands(r: Renderer, cmds: seq<Command>): Renderer
    requires r.Valid() && forall i :: 0 <= i < |cmds| ==> Admissible(cmds[i])
    decreases |cmds|
  {
    if cmds == [] then r else ExecuteCommands(ApplyCommand(r, cmds[0]), cmds[1..])
  }

  /** No sequence of calls resizes the framebuffer: it keeps width * height * 4 bytes and
      the renderer keeps its size. */
  lemma {:induction false} ExecuteKeepsSize(r: Renderer, cmds: seq<Command>)
    requires r.Valid() && forall i :: 0 <= i < |cmds| ==> Admissible(cmds[i])
    ensures ExecuteCommands(r, cmds).Valid()
    ensures ExecuteCommands(r, cmds).width == r.width && ExecuteCommands(r, cmds).height == r.height
    ensures |ExecuteCommands(r, cmds).framebuffer| == |r.framebuffer|
    decreases |cmds|
  {
    if cmds != [] {
      ExecuteKeepsSize(ApplyCommand(r, cmds[0]), cmds[1..]);
    }
  }
}
