/** software_blit at unit scale: a source block drawn into the framebuffer, turned by a multiple
    of a right angle. */
module Blit {
  import opened Options
  import opened Rects

  datatype ColorMode = Argb8888 | Rgb565

  /** A picture of raw pixel words, row by row. */
  datatype Picture = Picture(pixels: seq<bv32>, w: nat, h: nat) {
    predicate Valid() {
      |pixels| == w * h
    }

    predicate Inside(x: int, y: int) {
      0 <= x < w && 0 <= y < h
    }
  }

  /** The 16-bit colour of a source word. */
  function Convert(p: bv32, mode: ColorMode, rgbSwap: bool): bv32 {
    match mode
    case Argb8888 =>
      var r, g, b := (p >> 16) & 0xFF, (p >> 8) & 0xFF, p & 0xFF;
      var (r', b') := if rgbSwap then (b, r) else (r, b);
      ((r' >> 3) << 11) | ((g >> 2) << 5) | (b' >> 3)
    case Rgb565 =>
      var v := p & 0xFFFF;
      if rgbSwap then ((v & 0xF800) >> 11) | (v & 0x07E0) | ((v & 0x001F) << 11) else v
  }

  /** A 32-bit source word keeps the top bits of its colours: red, or blue when they change places,
      above green above the other. */
  lemma ConvertedArgb(p: bv32, rgbSwap: bool)
    ensures var c, red, green, blue := Convert(p, Argb8888, rgbSwap), (p >> 16) & 0xFF, (p >> 8) & 0xFF, p & 0xFF;
      && (c >> 11) & 31 == (if rgbSwap then blue >> 3 else red >> 3)
      && (c >> 5) & 63 == green >> 2
      && c & 31 == (if rgbSwap then red >> 3 else blue >> 3)
      && c >> 16 == 0
  {
  }

  /** A 16-bit source word is kept, or its outer colours change places. */
  lemma ConvertedRgb565(p: bv32, rgbSwap: bool)
    ensures var c, first, last := Convert(p, Rgb565, rgbSwap), (p >> 11) & 31, p & 31;
      && (c >> 11) & 31 == (if rgbSwap then last else first)
      && (c >> 5) & 63 == (p >> 5) & 63
      && c & 31 == (if rgbSwap then first else last)
      && c >> 16 == 0
    ensures !rgbSwap ==> Convert(p, Rgb565, rgbSwap) == p & 0xFFFF
  {
  }

  /** Changing places twice keeps the word. */
  lemma SwappedTwice(p: bv32)
    ensures Convert(Convert(p, Rgb565, true), Rgb565, true) == Convert(p, Rgb565, false) == p & 0xFFFF
  {
  }

  /** Row-major position, and its inverse. */
  function Offset(x: int, y: int, w: nat): int {
    y * w + x
  }

  lemma OffsetFits(x: int, y: int, w: nat, h: nat)
    requires 0 <= x < w && 0 <= y < h
    ensures 0 <= Offset(x, y, w) < w * h
  {
    assert (y + 1) * w <= h * w;
    assert (y + 1) * w == y * w + w;
  }

  lemma {:induction false} RowStep(y: int, y': int, w: nat)
    requires y < y'
    ensures y * w + w <= y' * w
    decreases y' - y
  {
    if y + 1 < y' {
      RowStep(y, y' - 1, w);
    }
  }

  /** Different pixels of a row-major picture have different positions. */
  lemma OffsetInjective(x: int, y: int, x': int, y': int, w: nat)
    requires 0 <= x < w && 0 <= x' < w && Offset(x, y, w) == Offset(x', y', w)
    ensures x == x' && y == y'
  {
    if y < y' {
      RowStep(y, y', w);
    } else if y' < y {
      RowStep(y', y, w);
    }
  }

  /** Width and height of the block once turned. */
  function OutW(bw: nat, bh: nat, rot: Rotation): nat {
    if rot == Angle90 || rot == Angle270 then bh else bw
  }

  function OutH(bw: nat, bh: nat, rot: Rotation): nat {
    if rot == Angle90 || rot == Angle270 then bw else bh
  }

  /** The block pixel drawn at output position (ox, oy). */
  function ReverseMap(ox: int, oy: int, bw: nat, bh: nat, rot: Rotation): (int, int) {
    match rot
    case Angle0 => (ox, oy)
    case Angle90 => (oy, OutW(bw, bh, rot) - 1 - ox)
    case Angle180 => (OutW(bw, bh, rot) - 1 - ox, OutH(bw, bh, rot) - 1 - oy)
    case Angle270 => (OutH(bw, bh, rot) - 1 - oy, ox)
  }

  /** A draw: where the block starts in the source, its size, and where it goes. */
  datatype Draw = Draw(block: Rect, outX: int, outY: int, rot: Rotation, mode: ColorMode, rgbSwap: bool) {
    predicate Valid() {
      block.Sized()
    }
  }

  /** The source pixel a draw puts on framebuffer pixel (x, y), if any. */
  function Drawn(src: Picture, d: Draw, x: int, y: int): Option<bv32>
    requires src.Valid() && d.Valid()
  {
    var ox, oy := x - d.outX, y - d.outY;
    if 0 <= ox < OutW(d.block.w, d.block.h, d.rot) && 0 <= oy < OutH(d.block.w, d.block.h, d.rot) then
      Source(src, d, ox, oy)
    else None
  }

  /** The converted pixel for output position (ox, oy), when it lies in the block and the source. */
  function Source(src: Picture, d: Draw, ox: int, oy: int): Option<bv32>
    requires src.Valid() && d.Valid()
  {
    var (sx, sy) := ReverseMap(ox, oy, d.block.w, d.block.h, d.rot);
    if 0 <= sx < d.block.w && 0 <= sy < d.block.h && src.Inside(d.block.x + sx, d.block.y + sy) then
      OffsetFits(d.block.x + sx, d.block.y + sy, src.w, src.h);
      Some(Convert(src.pixels[Offset(d.block.x + sx, d.block.y + sy, src.w)], d.mode, d.rgbSwap))
    else None
  }

  /** Output positions before (ox, oy) in the order of the loops. */
  predicate Before(x: int, y: int, ox: int, oy: int) {
    y < oy || (y == oy && x < ox)
  }

  /** Framebuffer pixel by pixel: drawn ones carry their source pixel, all others are unchanged. */
  method SoftwareBlit(src: Picture, dst: array<bv32>, w: nat, h: nat, d: Draw)
    requires src.Valid() && d.Valid() && dst.Length == w * h
    modifies dst
    ensures forall x, y | 0 <= x < w && 0 <= y < h ::
              0 <= Offset(x, y, w) < w * h
              && dst[Offset(x, y, w)] == Drawn(src, d, x, y).GetOr(old(dst[..])[Offset(x, y, w)])
  {
    hide Offset, Convert;
    ghost var was := dst[..];
    var outW, outH := OutW(d.block.w, d.block.h, d.rot), OutH(d.block.w, d.block.h, d.rot);
    forall x, y | 0 <= x < w && 0 <= y < h
      ensures 0 <= Offset(x, y, w) < w * h
    {
      OffsetFits(x, y, w, h);
    }
    for oy := 0 to outH
      invariant forall x, y | 0 <= x < w && 0 <= y < h ::
                  dst[Offset(x, y, w)] == Progress(src, d, was, w, x, y, 0, oy)
    {
      for ox := 0 to outW
        invariant forall x, y | 0 <= x < w && 0 <= y < h ::
                    dst[Offset(x, y, w)] == Progress(src, d, was, w, x, y, ox, oy)
      {
        var source := Source(src, d, ox, oy);
        var dx, dy := d.outX + ox, d.outY + oy;
        if source.Some? && 0 <= dx < w && 0 <= dy < h {
          forall x, y | 0 <= x < w && 0 <= y < h && (x != dx || y != dy)
            ensures Offset(x, y, w) != Offset(dx, dy, w)
          {
            if Offset(x, y, w) == Offset(dx, dy, w) {
              OffsetInjective(x, y, dx, dy, w);
            }
          }
          dst[Offset(dx, dy, w)] := source.value;
        }
      }
    }
  }

  /** The framebuffer pixel once the positions before (ox, oy) are drawn. */
  ghost function Progress(src: Picture, d: Draw, was: seq<bv32>, w: nat, x: int, y: int, ox: int, oy: int): bv32
    requires src.Valid() && d.Valid() && 0 <= Offset(x, y, w) < |was|
  {
    if Before(x - d.outX, y - d.outY, ox, oy) then Drawn(src, d, x, y).GetOr(was[Offset(x, y, w)])
    else was[Offset(x, y, w)]
  }

  /** A visible rectangle v drawn from the block of the same size at (fx, fy), at the place its
      rotation gives: pixel (px, py) of v lands exactly on its rotated coordinates, and nothing
      lands outside them. */
  lemma BlitFollowsRotation(src: Picture, v: Rect, fx: int, fy: int, rot: Rotation, mode: ColorMode, rgbSwap: bool,
                            px: int, py: int)
    requires src.Valid() && v.Sized()
    ensures var out := RotateRect(v, rot);
      var d := Draw(Rect(fx, fy, v.w, v.h), out.x, out.y, rot, mode, rgbSwap);
      var (x, y) := RotateCoordinates(px, py, rot);
      var (sx, sy) := (fx + px - v.x, fy + py - v.y);
      Drawn(src, d, x, y) ==
      if v.Covers(px, py) && 0 <= sx < src.w && 0 <= sy < src.h then
        OffsetFits(sx, sy, src.w, src.h); Some(Convert(src.pixels[Offset(sx, sy, src.w)], mode, rgbSwap))
      else None
  {
    hide Convert, Offset;
  }
}
