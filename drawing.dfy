/**
 The two routines that write the 16-bit framebuffer: draw_fill_rect, which paints a
 rectangle clipped to the screen, and blit_center_rgb_with_rotation_u16, which
 copies a decoded RGB image, rotated by a multiple of 90 degrees, into a window
 centred on the screen. The framebuffer is linear: cell (col, row) is index
 row * stride + col, so index k is row k / stride, column k % stride.
 */
module Drawing {
  import opened Markers
  import opened Pixels

  /** Channels per decoded pixel (CHANNELS). */
  const Channels: int := 3

  lemma MulLeft(a: int, b: int, c: int)
    requires a <= b && 0 <= c
    ensures a * c <= b * c
  {
  }

  /** The cells of row r from column lo up to hi are the indices r * stride + lo up to
      r * stride + hi, and only those. */
  lemma {:induction false} RowSpan(k: int, stride: int, r: int, lo: int, hi: int)
    requires 0 < stride && 0 <= lo <= hi <= stride && 0 <= k
    ensures r * stride + lo <= k < r * stride + hi <==> k / stride == r && lo <= k % stride < hi
    ensures k / stride == r ==> k % stride == k - r * stride
  {
    var q, m := k / stride, k % stride;
    assert k == q * stride + m;
    if q < r {
      MulLeft(q + 1, r, stride);
    } else if r < q {
      MulLeft(r + 1, q, stride);
    }
  }

  /** Index k lies in the rectangle of columns [x, x + w) and rows [y, y + h). */
  predicate InRect(k: int, stride: int, x: int, y: int, w: int, h: int)
    requires 0 < stride
  {
    x <= k % stride < x + w && y <= k / stride < y + h
  }

  /** The cells draw_fill_rect paints: the requested rectangle intersected with the
      fb_w x fb_h screen; padding columns beyond fb_w are never touched. */
  predicate Painted(k: int, fbW: int, fbH: int, stride: int, x: int, y: int, w: int, h: int)
  {
    0 < stride && 0 <= k && k % stride < fbW && k / stride < fbH && InRect(k, stride, x, y, w, h)
  }

  /** One row of the fill: cells [from, from + n) become color. */
  method FillRow(fb: array<Pixel>, from: int, n: int, color: Pixel)
    requires 0 <= from && from + n <= fb.Length
    modifies fb
    ensures forall k :: 0 <= k < fb.Length ==> fb[k] == if from <= k < from + n then color else old(fb[k])
  {
    var xx := 0;
    while xx < n
      invariant 0 <= xx && (xx <= n || xx == 0)
      invariant forall k :: 0 <= k < fb.Length ==> fb[k] == if from <= k < from + xx then color else old(fb[k])
    {
      fb[from + xx] := color;
      xx := xx + 1;
    }
  }

  /** Adding row r's cells [x, x + w) to the rectangle's first r - y rows gives its
      first r - y + 1 rows. */
  lemma RowStep(k: int, stride: int, x: int, y: int, w: int, r: int)
    requires 0 < stride && 0 <= x && 0 <= w && x + w <= stride && 0 <= k && y <= r
    ensures InRect(k, stride, x, y, w, r - y + 1) <==>
      InRect(k, stride, x, y, w, r - y) || r * stride + x <= k < r * stride + x + w
    ensures r * stride + x <= k < r * stride + x + w ==> k / stride == r && k % stride == k - r * stride
  {
    RowSpan(k, stride, r, x, x + w);
  }

  /** The fill on an already clipped rectangle. */
  method FillClipped(fb: array<Pixel>, fbH: int, stride: int, x: int, y: int, w: int, h: int, color: Pixel)
    requires 0 < stride && 0 <= x && 0 <= w && x + w <= stride && 0 <= y && 0 <= h && y + h <= fbH
    requires fbH * stride <= fb.Length
    modifies fb
    ensures forall k :: 0 <= k < fb.Length ==>
      fb[k] == if InRect(k, stride, x, y, w, h) then color else old(fb[k])
  {
    var yy := 0;
    while yy < h
      invariant 0 <= yy <= h
      invariant forall k :: 0 <= k < fb.Length ==>
        fb[k] == if InRect(k, stride, x, y, w, yy) then color else old(fb[k])
    {
      var base := (y + yy) * stride;
      MulLeft(y + yy + 1, fbH, stride);
      FillRow(fb, base + x, w, color);
      forall k | 0 <= k < fb.Length
        ensures InRect(k, stride, x, y, w, yy + 1) <==> InRect(k, stride, x, y, w, yy) || base + x <= k < base + x + w
      {
        RowStep(k, stride, x, y, w, y + yy);
      }
      yy := yy + 1;
    }
  }

  /** Clipping along one axis of n cells: the C code's start x0 and length w0 cover
      exactly the on-screen cells of [x, x + w). */
  lemma ClipAxis(c: int, x: int, w: int, n: int, x0: int, w0: int)
    requires 0 <= c && x0 == (if x < 0 then 0 else x)
    requires w0 == Min(if x < 0 then w + x else w, n - x0)
    ensures x0 <= c < x0 + w0 <==> c < n && x <= c < x + w
  {
  }

  /** The clipped rectangle holds exactly the painted cells. */
  lemma ClipRect(k: int, fbW: int, fbH: int, stride: int, x: int, y: int, w: int, h: int,
                 x0: int, y0: int, w0: int, h0: int)
    requires 0 < stride && 0 <= k
    requires x0 == (if x < 0 then 0 else x) && w0 == Min(if x < 0 then w + x else w, fbW - x0)
    requires y0 == (if y < 0 then 0 else y) && h0 == Min(if y < 0 then h + y else h, fbH - y0)
    ensures Painted(k, fbW, fbH, stride, x, y, w, h) <==> InRect(k, stride, x0, y0, w0, h0)
  {
    ClipAxis(k % stride, x, w, fbW, x0, w0);
    ClipAxis(k / stride, y, h, fbH, y0, h0);
  }

  /** draw_fill_rect: exactly the cells of the rectangle that lie on the screen take
      the colour; every other cell keeps its value. */
  method DrawFillRect(fb: array<Pixel>, fbW: int, fbH: int, stride: int,
                      x: int, y: int, w: int, h: int, color: Pixel)
    requires 0 <= fbW <= stride && 0 <= fbH && fbH * stride <= fb.Length
    modifies fb
    ensures forall k :: 0 <= k < fb.Length ==>
      fb[k] == if Painted(k, fbW, fbH, stride, x, y, w, h) then color else old(fb[k])
  {
    var x0, y0, w0, h0 := x, y, w, h;
    if x0 < 0 {
      w0 := w0 + x0;
      x0 := 0;
    }
    if y0 < 0 {
      h0 := h0 + y0;
      y0 := 0;
    }
    if x0 >= fbW || y0 >= fbH {
      forall k | 0 <= k < fb.Length ensures !Painted(k, fbW, fbH, stride, x, y, w, h) {
        if 0 < stride {
          ClipRect(k, fbW, fbH, stride, x, y, w, h, x0, y0, Min(w0, fbW - x0), Min(h0, fbH - y0));
        }
      }
      return;
    }
    if x0 + w0 > fbW {
      w0 := fbW - x0;
    }
    if y0 + h0 > fbH {
      h0 := fbH - y0;
    }
    forall k | 0 <= k < fb.Length
      ensures Painted(k, fbW, fbH, stride, x, y, w, h) <==> InRect(k, stride, x0, y0, w0, h0)
    {
      ClipRect(k, fbW, fbH, stride, x, y, w, h, x0, y0, w0, h0);
    }
    if w0 <= 0 || h0 <= 0 {
      return;
    }
    FillClipped(fb, fbH, stride, x0, y0, w0, h0, color);
  }

  /** Where the rotated image goes: a copy_w x copy_h window at (off_x, off_y). */
  datatype Window = Window(offX: int, offY: int, copyW: int, copyH: int)

  /** The centred window: the rotated image's extent clipped to the screen, centred
      with the odd pixel of slack on the right or bottom. */
  function CenteredWindow(fbW: int, fbH: int, imgW: int, imgH: int, rotation: int): (win: Window)
    requires 0 <= fbW && 0 <= fbH && 0 < imgW && 0 < imgH
    ensures 0 <= win.copyW <= fbW && 0 <= win.copyH <= fbH
    ensures win.copyW == Min(if rotation % 2 == 0 then imgW else imgH, fbW)
    ensures win.copyH == Min(if rotation % 2 == 0 then imgH else imgW, fbH)
    ensures 0 <= win.offX && win.offX + win.copyW <= fbW && 0 <= fbW - win.copyW - 2 * win.offX <= 1
    ensures 0 <= win.offY && win.offY + win.copyH <= fbH && 0 <= fbH - win.copyH - 2 * win.offY <= 1
  {
    var rotW := if rotation % 2 == 0 then imgW else imgH;
    var rotH := if rotation % 2 == 0 then imgH else imgW;
    var copyW := if rotW < fbW then rotW else fbW;
    var copyH := if rotH < fbH then rotH else fbH;
    var offX := (fbW - copyW) / 2;
    var offY := (fbH - copyH) / 2;
    Window(if offX < 0 then 0 else offX, if offY < 0 then 0 else offY, copyW, copyH)
  }

  /** The source pixel for window cell (rx, ry) before clamping, per rotation; any
      other rotation value reads pixel (0, 0). */
  function RawSource(imgW: int, imgH: int, rotation: int, rx: int, ry: int): (s: (int, int))
    ensures (0 <= rotation < 4 && 0 <= rx < (if rotation % 2 == 0 then imgW else imgH)
             && 0 <= ry < (if rotation % 2 == 0 then imgH else imgW))
      ==> 0 <= s.0 < imgW && 0 <= s.1 < imgH
    ensures !(0 <= rotation < 4) ==> s == (0, 0)
  {
    match rotation
    case 0 => (rx, ry)
    case 1 => (imgW - 1 - ry, rx)
    case 2 => (imgW - 1 - rx, imgH - 1 - ry)
    case 3 => (ry, imgH - 1 - rx)
    case _ => (0, 0)
  }

  function Clamp(v: int, n: int): (c: int)
    requires 0 < n
    ensures 0 <= c < n
    ensures 0 <= v < n ==> c == v
  {
    if v < 0 then 0 else if v >= n then n - 1 else v
  }

  /** The clamped source coordinates (sx, sy): always inside the image. */
  function SourceOf(imgW: int, imgH: int, rotation: int, rx: int, ry: int): (s: (int, int))
    requires 0 < imgW && 0 < imgH
    ensures 0 <= s.0 < imgW && 0 <= s.1 < imgH
  {
    var (sx, sy) := RawSource(imgW, imgH, rotation, rx, ry);
    (Clamp(sx, imgW), Clamp(sy, imgH))
  }

  /** `(sy * img_w + sx) * CHANNELS`: the three channel bytes lie inside the image. */
  function SourceIndex(imgW: int, imgH: int, sx: int, sy: int): (i: int)
    requires 0 <= sx < imgW && 0 <= sy < imgH
    ensures 0 <= i && i + 2 < imgW * imgH * Channels
  {
    MulLeft(sy + 1, imgH, imgW);
    (sy * imgW + sx) * Channels
  }

  /** The pixel the blit stores for window cell (rx, ry). */
  function BlitPixel(rgb: seq<Byte>, imgW: int, imgH: int, rotation: int, swap: bool, rx: int, ry: int): (p: Pixel)
    requires 0 < imgW && 0 < imgH && |rgb| == imgW * imgH * Channels
    ensures var (sx, sy) := SourceOf(imgW, imgH, rotation, rx, ry);
      var i := (sy * imgW + sx) * Channels;
      0 <= i && i + 2 < |rgb| && (if swap then Swap16(p) else p) == Rgb565(rgb[i], rgb[i + 1], rgb[i + 2])
  {
    var (sx, sy) := SourceOf(imgW, imgH, rotation, rx, ry);
    var i := SourceIndex(imgW, imgH, sx, sy);
    StoredPixel(rgb[i], rgb[i + 1], rgb[i + 2], swap)
  }

  /** Inside the window the rotation never leaves the image, so the clamping only
      guards rotations outside 0..3. */
  lemma RotationStaysInImage(fbW: int, fbH: int, imgW: int, imgH: int, rotation: int, rx: int, ry: int)
    requires 0 <= fbW && 0 <= fbH && 0 < imgW && 0 < imgH && 0 <= rotation < 4
    requires var win := CenteredWindow(fbW, fbH, imgW, imgH, rotation);
      0 <= rx < win.copyW && 0 <= ry < win.copyH
    ensures SourceOf(imgW, imgH, rotation, rx, ry) == RawSource(imgW, imgH, rotation, rx, ry)
  {
  }

  /** Within the window, two cells show two different pixels of the image. */
  lemma RotationInjective(fbW: int, fbH: int, imgW: int, imgH: int, rotation: int,
                          rx: int, ry: int, rx': int, ry': int)
    requires 0 <= fbW && 0 <= fbH && 0 < imgW && 0 < imgH && 0 <= rotation < 4
    requires var win := CenteredWindow(fbW, fbH, imgW, imgH, rotation);
      0 <= rx < win.copyW && 0 <= ry < win.copyH && 0 <= rx' < win.copyW && 0 <= ry' < win.copyH
    requires (rx, ry) != (rx', ry')
    ensures SourceOf(imgW, imgH, rotation, rx, ry) != SourceOf(imgW, imgH, rotation, rx', ry')
  {
    RotationStaysInImage(fbW, fbH, imgW, imgH, rotation, rx, ry);
    RotationStaysInImage(fbW, fbH, imgW, imgH, rotation, rx', ry');
  }

  /** One window row: cells [base, base + n) take the pixels of window row ry. */
  method BlitRow(fb: array<Pixel>, base: int, n: int, rgb: seq<Byte>, imgW: int, imgH: int,
                 rotation: int, swap: bool, ry: int)
    requires 0 <= base && 0 <= n && base + n <= fb.Length
    requires 0 < imgW && 0 < imgH && |rgb| == imgW * imgH * Channels
    modifies fb
    ensures forall k :: 0 <= k < fb.Length ==>
      fb[k] == if base <= k < base + n then BlitPixel(rgb, imgW, imgH, rotation, swap, k - base, ry) else old(fb[k])
  {
    var rx := 0;
    while rx < n
      invariant 0 <= rx <= n
      invariant forall k :: 0 <= k < fb.Length ==>
        fb[k] == if base <= k < base + rx then BlitPixel(rgb, imgW, imgH, rotation, swap, k - base, ry) else old(fb[k])
    {
      var sxy := SourceOf(imgW, imgH, rotation, rx, ry);
      var sidx := SourceIndex(imgW, imgH, sxy.0, sxy.1);
      var pix := StoredPixel(rgb[sidx], rgb[sidx + 1], rgb[sidx + 2], swap);
      fb[base + rx] := pix;
      rx := rx + 1;
    }
  }

  /** The blit loop over a window that fits on the screen. */
  method BlitWindow(fb: array<Pixel>, fbH: int, stride: int, win: Window,
                    rgb: seq<Byte>, imgW: int, imgH: int, rotation: int, swap: bool)
    requires 0 < stride && 0 <= win.offX && 0 <= win.copyW && win.offX + win.copyW <= stride
    requires 0 <= win.offY && 0 <= win.copyH && win.offY + win.copyH <= fbH && fbH * stride <= fb.Length
    requires 0 < imgW && 0 < imgH && |rgb| == imgW * imgH * Channels
    modifies fb
    ensures forall k :: 0 <= k < fb.Length ==>
      fb[k] == if InRect(k, stride, win.offX, win.offY, win.copyW, win.copyH)
               then BlitPixel(rgb, imgW, imgH, rotation, swap, k % stride - win.offX, k / stride - win.offY)
               else old(fb[k])
  {
    var ry := 0;
    while ry < win.copyH
      invariant 0 <= ry <= win.copyH
      invariant forall k :: 0 <= k < fb.Length ==>
        fb[k] == if InRect(k, stride, win.offX, win.offY, win.copyW, ry)
                 then BlitPixel(rgb, imgW, imgH, rotation, swap, k % stride - win.offX, k / stride - win.offY)
                 else old(fb[k])
    {
      var base := (win.offY + ry) * stride + win.offX;
      MulLeft(win.offY + ry + 1, fbH, stride);
      BlitRow(fb, base, win.copyW, rgb, imgW, imgH, rotation, swap, ry);
      forall k | 0 <= k < fb.Length
        ensures InRect(k, stride, win.offX, win.offY, win.copyW, ry + 1) <==>
          InRect(k, stride, win.offX, win.offY, win.copyW, ry) || base <= k < base + win.copyW
        ensures base <= k < base + win.copyW ==>
          k / stride - win.offY == ry && k % stride - win.offX == k - base
      {
        RowStep(k, stride, win.offX, win.offY, win.copyW, win.offY + ry);
      }
      ry := ry + 1;
    }
  }

  /** blit_center_rgb_with_rotation_u16: the cells of the centred window take the
      rotated image's pixels, every other cell keeps its value. */
  method BlitCenter(fb: array<Pixel>, fbW: int, fbH: int, stride: int,
                    rgb: seq<Byte>, imgW: int, imgH: int, rotation: int, swap: bool)
    requires 0 <= fbW <= stride && 0 <= fbH && fbH * stride <= fb.Length
    requires 0 < imgW && 0 < imgH && |rgb| == imgW * imgH * Channels
    modifies fb
    ensures var win := CenteredWindow(fbW, fbH, imgW, imgH, rotation);
      forall k :: 0 <= k < fb.Length ==>
        fb[k] == if 0 < stride && InRect(k, stride, win.offX, win.offY, win.copyW, win.copyH)
                 then BlitPixel(rgb, imgW, imgH, rotation, swap, k % stride - win.offX, k / stride - win.offY)
                 else old(fb[k])
  {
    var win := CenteredWindow(fbW, fbH, imgW, imgH, rotation);
    if 0 < win.copyW && 0 < win.copyH {
      BlitWindow(fb, fbH, stride, win, rgb, imgW, imgH, rotation, swap);
    }
  }
}
