/**
 The meaning of the drawing calls: a frame is a flat sequence of bytes, a draw call is a
 partial map from screen pixels to colours, and drawing replaces exactly the bytes of the
 pixels that map is defined on.
 */
module Raster {
  import opened Machine

  /** The video mode. Resolutions are 16-bit, as the VBE mode block reports them. */
  datatype Geometry = Geometry(hRes: Word16, vRes: Word16, bpp: nat)
  {
    predicate Valid() {
      bpp <= 4 && hRes * vRes * bpp < 0x1_0000_0000
    }

    function FrameSize(): nat {
      hRes * vRes * bpp
    }

    predicate OnScreen(x: int, y: int) {
      0 <= x < hRes && 0 <= y < vRes
    }

    /** Where byte `k` of pixel (x, y) lives. */
    function Offset(x: nat, y: nat, k: nat): nat {
      (hRes * y + x) * bpp + k
    }

    /** The pixel, counted in reading order, that offset `i` belongs to. */
    function Pixel(i: nat): nat
      requires bpp > 0
    {
      i / bpp
    }

    /** Its column and row, and the byte inside it. */
    function X(i: nat): nat
      requires hRes > 0 && bpp > 0
    {
      Pixel(i) % hRes
    }

    function Y(i: nat): nat
      requires hRes > 0 && bpp > 0
    {
      Pixel(i) / hRes
    }

    function K(i: nat): nat
      requires bpp > 0
    {
      i % bpp
    }
  }

  /** A draw call. A pixel is a 1 by 1 rectangle and a horizontal line is 1 high. */
  datatype Draw =
    | Rect(x: Word16, y: Word16, width: Word16, height: Word16, color: Word32)
    | Sprite(x: Word16, y: Word16, width: Word16, height: Word16, colors: seq<Word8>)
  {
    predicate Valid() {
      Sprite? ==> |colors| == width * height
    }

    /** Column and row of a screen pixel inside the drawn area; coordinates wrap at 16 bits. */
    function U(px: int): Word16 {
      U16(px - x)
    }

    function V(py: int): Word16 {
      U16(py - y)
    }

    predicate Covers(px: int, py: int) {
      U(px) < width && V(py) < height
    }

    /** The colour this call gives to a pixel it covers. */
    function Color(px: int, py: int): Word32
      requires Valid() && Covers(px, py)
    {
      match this
      case Rect(_, _, _, _, c) => c
      case Sprite(_, _, w, h, cs) =>
        SourceIndexInRange(U(px), V(py), w, h);
        cs[U(px) + V(py) * w]
    }
  }

  lemma SourceIndexInRange(u: nat, v: nat, w: nat, h: nat)
    requires u < w && v < h
    ensures 0 <= u + v * w < w * h
  {
    assert v * w <= (h - 1) * w;
    assert (h - 1) * w == w * h - w;
  }

  /** Byte `k` of a colour as it lies in little-endian memory. */
  function Channel(color: Word32, k: nat): Word8
    requires k < 4
  {
    match k
    case 0 => color % 256
    case 1 => color / 0x100 % 256
    case 2 => color / 0x1_0000 % 256
    case _ => color / 0x100_0000
  }

  // ----- pixels as numbers -----

  function Pow256(k: nat): (p: nat)
    ensures p > 0
  {
    if k == 0 then 1 else 256 * Pow256(k - 1)
  }

  /** The number bytes spell in little-endian memory: byte `k` counts 256^k. */
  function LittleEndian(bytes: seq<Word8>): nat {
    if bytes == [] then 0 else bytes[0] + 256 * LittleEndian(bytes[1..])
  }

  /** The bytes of pixel (px, py) of a frame, and the number they spell. */
  function Cell(g: Geometry, buf: seq<Word8>, px: nat, py: nat): (bytes: seq<Word8>)
    requires IsFrame(g, buf) && px < g.hRes && py < g.vRes
    ensures |bytes| == g.bpp
  {
    PixelInsideFrame(g, px, py);
    var at := (g.hRes * py + px) * g.bpp;
    buf[at..at + g.bpp]
  }

  function PixelValue(g: Geometry, buf: seq<Word8>, px: nat, py: nat): nat
    requires IsFrame(g, buf) && px < g.hRes && py < g.vRes
  {
    LittleEndian(Cell(g, buf, px, py))
  }

  /** What offset `i` holds after `d`, when it held `was` before. */
  function Ink(g: Geometry, d: Draw, i: nat, was: Word8): Word8
    requires g.Valid() && g.hRes > 0 && g.bpp > 0 && d.Valid()
  {
    if d.Covers(g.X(i), g.Y(i)) then Channel(d.Color(g.X(i), g.Y(i)), g.K(i)) else was
  }

  ghost predicate IsFrame(g: Geometry, buf: seq<Word8>) {
    g.Valid() && |buf| == g.FrameSize()
  }

  lemma NonEmptyFrame(g: Geometry, i: nat)
    requires g.Valid() && i < g.FrameSize()
    ensures g.hRes > 0 && g.bpp > 0
  {
  }

  /** The frame after one draw call. */
  function Render(g: Geometry, buf: seq<Word8>, d: Draw): (out: seq<Word8>)
    requires IsFrame(g, buf) && d.Valid()
    ensures IsFrame(g, out)
  {
    seq(|buf|, i requires 0 <= i < |buf| => NonEmptyFrame(g, i); Ink(g, d, i, buf[i]))
  }

  lemma RenderAt(g: Geometry, buf: seq<Word8>, d: Draw, i: nat)
    requires IsFrame(g, buf) && d.Valid() && i < |buf|
    ensures g.hRes > 0 && g.bpp > 0
    ensures Render(g, buf, d)[i] == Ink(g, d, i, buf[i])
  {
    NonEmptyFrame(g, i);
  }

  /** The frame after a sequence of draw calls, first call first. */
  function RenderAll(g: Geometry, buf: seq<Word8>, ds: seq<Draw>): (out: seq<Word8>)
    requires IsFrame(g, buf) && forall d :: d in ds ==> d.Valid()
    ensures IsFrame(g, out)
    decreases |ds|
  {
    if ds == [] then buf
    else Render(g, RenderAll(g, buf, ds[..|ds| - 1]), ds[|ds| - 1])
  }

  // ----- the address map is a bijection -----

  /** The end of a pixel's cell, and of its row, lies inside the frame. */
  lemma CellEndsInsideFrame(g: Geometry, x: nat, y: nat)
    requires g.OnScreen(x, y)
    ensures 0 <= g.hRes * y && 0 <= (g.hRes * y + x) * g.bpp && (g.hRes * y + x) * g.bpp + g.bpp <= g.FrameSize()
  {
    var area, p := g.hRes * g.vRes, g.hRes * y + x;
    assert g.hRes * y == y * g.hRes;
    SourceIndexInRange(x, y, g.hRes, g.vRes);
    MulMono(p, area, g.bpp);
    MulMono(0, p, g.bpp);
  }

  /** Every byte of every on-screen pixel has its own place inside the frame. */
  lemma OffsetIsInjective(g: Geometry, x: nat, y: nat, k: nat)
    requires g.OnScreen(x, y) && k < g.bpp
    ensures g.Offset(x, y, k) < g.FrameSize()
    ensures g.X(g.Offset(x, y, k)) == x && g.Y(g.Offset(x, y, k)) == y && g.K(g.Offset(x, y, k)) == k
  {
    CellEndsInsideFrame(g, x, y);
    var p, i := g.hRes * y + x, g.Offset(x, y, k);
    DivModUnique(p, g.bpp, k);
    assert i / g.bpp == p && i % g.bpp == k;
    assert p == y * g.hRes + x;
    DivModUnique(y, g.hRes, x);
  }

  /** ... and every place inside the frame is a byte of some on-screen pixel. */
  lemma OffsetIsOnto(g: Geometry, i: nat)
    requires i < g.FrameSize()
    ensures g.hRes > 0 && g.bpp > 0
    ensures g.OnScreen(g.X(i), g.Y(i)) && g.K(i) < g.bpp
    ensures g.Offset(g.X(i), g.Y(i), g.K(i)) == i
  {
    var p := i / g.bpp;
    assert i == p * g.bpp + i % g.bpp;
    MulMono(g.hRes * g.vRes, p, g.bpp);
    assert p < g.hRes * g.vRes;
    var q := p / g.hRes;
    assert p == q * g.hRes + p % g.hRes;
    MulMono(g.vRes, q, g.hRes);
    assert g.hRes * q == q * g.hRes;
  }

  /** The unsigned arithmetic of the pixel index never wraps for a pixel that is on screen. */
  lemma IndexDoesNotWrap(g: Geometry, x: nat, y: nat)
    requires g.Valid() && g.OnScreen(x, y)
    ensures U32(U32(U32(g.hRes * y) + x) * g.bpp) == g.Offset(x, y, 0)
    ensures g.Offset(x, y, 0) + g.bpp <= g.FrameSize()
  {
    PixelInsideFrame(g, x, y);
    var row, p := g.hRes * y, g.hRes * y + x;
    assert U32(row) == row;
    assert U32(U32(row) + x) == p;
    var index := p * g.bpp;
    assert U32(index) == index;
  }

  lemma PixelInsideFrame(g: Geometry, x: nat, y: nat)
    requires g.Valid() && g.OnScreen(x, y)
    ensures 0 <= g.hRes * y <= g.hRes * y + x < 0x1_0000_0000
    ensures 0 <= g.Offset(x, y, 0) == (g.hRes * y + x) * g.bpp < 0x1_0000_0000
    ensures g.Offset(x, y, 0) + g.bpp <= g.FrameSize()
  {
    var area, p := g.hRes * g.vRes, g.hRes * y + x;
    SourceIndexInRange(x, y, g.hRes, g.vRes);
    assert g.hRes * y == y * g.hRes;
    AreaFitsWord(g);
    MulMono(p, area, g.bpp);
    MulMono(0, p, g.bpp);
  }

  lemma AreaFitsWord(g: Geometry)
    ensures 0 <= g.hRes * g.vRes < 0x1_0000_0000
  {
    MulMono(g.hRes, 0xFFFF, g.vRes);
    MulMono(0, g.hRes, g.vRes);
  }

  /** The bytes of one pixel are exactly a run of `bpp` offsets. */
  lemma PixelCell(g: Geometry, i: nat, x: nat, y: nat)
    requires i < g.FrameSize() && g.OnScreen(x, y)
    ensures g.hRes > 0 && g.bpp > 0
    ensures g.X(i) == x && g.Y(i) == y <==> g.Offset(x, y, 0) <= i < g.Offset(x, y, 0) + g.bpp
    ensures g.X(i) == x && g.Y(i) == y ==> g.K(i) == i - g.Offset(x, y, 0)
  {
    OffsetIsOnto(g, i);
    if g.Offset(x, y, 0) <= i < g.Offset(x, y, 0) + g.bpp {
      OffsetIsInjective(g, x, y, i - g.Offset(x, y, 0));
    }
  }

  // ----- what a frame holds after any sequence of draw calls -----

  /** One call, seen from the screen: a covered pixel gets the colour, any other keeps its bytes. */
  lemma RenderPixel(g: Geometry, buf: seq<Word8>, d: Draw, px: nat, py: nat, k: nat)
    requires IsFrame(g, buf) && d.Valid() && g.OnScreen(px, py) && k < g.bpp
    ensures g.Offset(px, py, k) < |buf|
    ensures Render(g, buf, d)[g.Offset(px, py, k)]
         == if d.Covers(px, py) then Channel(d.Color(px, py), k) else buf[g.Offset(px, py, k)]
  {
    OffsetIsInjective(g, px, py, k);
  }

  /** The last call covering a pixel decides each of its bytes ... */
  lemma {:induction false} LastCoveringByte(
      g: Geometry, buf: seq<Word8>, ds: seq<Draw>, j: nat, px: nat, py: nat, k: nat)
    requires IsFrame(g, buf) && (forall d :: d in ds ==> d.Valid())
    requires g.OnScreen(px, py) && k < g.bpp
    requires j < |ds| && ds[j].Covers(px, py)
    requires forall i :: j < i < |ds| ==> !ds[i].Covers(px, py)
    ensures g.Offset(px, py, k) < |buf|
    ensures RenderAll(g, buf, ds)[g.Offset(px, py, k)] == Channel(ds[j].Color(px, py), k)
    decreases |ds|
  {
    var last := |ds| - 1;
    RenderPixel(g, RenderAll(g, buf, ds[..last]), ds[last], px, py, k);
    if j < last {
      LastCoveringByte(g, buf, ds[..last], j, px, py, k);
    }
  }

  /** ... and a pixel no call covers keeps its initial bytes. */
  lemma {:induction false} UncoveredPixelIsUntouched(
      g: Geometry, buf: seq<Word8>, ds: seq<Draw>, px: nat, py: nat, k: nat)
    requires IsFrame(g, buf) && (forall d :: d in ds ==> d.Valid())
    requires g.OnScreen(px, py) && k < g.bpp
    requires forall i :: 0 <= i < |ds| ==>
      (px - ds[i].x) % 0x1_0000 >= ds[i].width || (py - ds[i].y) % 0x1_0000 >= ds[i].height
    ensures g.Offset(px, py, k) < |buf|
    ensures RenderAll(g, buf, ds)[g.Offset(px, py, k)] == buf[g.Offset(px, py, k)]
    decreases |ds|
  {
    OffsetIsInjective(g, px, py, k);
    if ds != [] {
      var last := |ds| - 1;
      RenderPixel(g, RenderAll(g, buf, ds[..last]), ds[last], px, py, k);
      UncoveredPixelIsUntouched(g, buf, ds[..last], px, py, k);
    }
  }

  // ----- the same, with pixels read back as numbers -----

  /** The first `n` bytes of a colour in memory. */
  function Channels(c: Word32, n: nat): (bytes: seq<Word8>)
    requires n <= 4
    ensures |bytes| == n && forall k :: 0 <= k < n ==> bytes[k] == Channel(c, k)
  {
    seq(n, k requires 0 <= k < n => Channel(c, k))
  }

  lemma NextChannel(c: Word32, k: nat)
    requires k < 3
    ensures Channel(c, k + 1) == Channel(c / 256, k)
  {
  }

  lemma DigitsOf(c: nat, m: nat)
    requires m > 0
    ensures c % (256 * m) == c % 256 + 256 * (c / 256 % m)
  {
    var q, low := c / 256 / m, c % 256 + 256 * (c / 256 % m);
    assert c / 256 == q * m + c / 256 % m;
    assert c == q * (256 * m) + low by {
      assert q * (256 * m) == 256 * (q * m);
    }
    DivModUnique(q, 256 * m, low);
  }

  /** The bytes stored for a colour spell its value, cut to the bytes a pixel has. */
  lemma {:induction false} BytesSpellTheColor(c: Word32, n: nat)
    requires n <= 4
    ensures LittleEndian(Channels(c, n)) == c % Pow256(n)
    decreases n
  {
    if n > 0 {
      BytesSpellTheColor(c / 256, n - 1);
      forall k | 0 <= k < n - 1
        ensures Channels(c, n)[1..][k] == Channels(c / 256, n - 1)[k]
      {
        NextChannel(c, k);
      }
      assert Channels(c, n)[1..] == Channels(c / 256, n - 1);
      DigitsOf(c, Pow256(n - 1));
    }
  }

  /** ... so a 4-byte pixel can be read back: the bytes determine the colour. */
  lemma ChannelsDetermineColor(a: Word32, b: Word32)
    ensures LittleEndian(Channels(a, 4)) == a
    ensures Channels(a, 4) == Channels(b, 4) <==> a == b
  {
    BytesSpellTheColor(a, 4);
    BytesSpellTheColor(b, 4);
    assert Pow256(4) == 256 * Pow256(3) == 256 * (256 * Pow256(2)) == 256 * (256 * (256 * Pow256(1)));
  }

  lemma CellAt(g: Geometry, buf: seq<Word8>, px: nat, py: nat, k: nat)
    requires IsFrame(g, buf) && g.OnScreen(px, py) && k < g.bpp
    ensures g.Offset(px, py, k) < |buf| && Cell(g, buf, px, py)[k] == buf[g.Offset(px, py, k)]
  {
    PixelInsideFrame(g, px, py);
  }

  /**
   Painter's theorem: after any sequence of calls, a pixel read back as a little-endian number is the
   colour the last call covering it has there, cut to the bytes of a pixel. A call covers the columns
   and rows that lie in its area modulo 65536.
   */
  lemma LastCoveringDrawWins(g: Geometry, buf: seq<Word8>, ds: seq<Draw>, j: nat, px: nat, py: nat)
    requires IsFrame(g, buf) && (forall d :: d in ds ==> d.Valid())
    requires px < g.hRes && py < g.vRes && j < |ds|
    requires (px - ds[j].x) % 0x1_0000 < ds[j].width && (py - ds[j].y) % 0x1_0000 < ds[j].height
    requires forall i :: j < i < |ds| ==>
      (px - ds[i].x) % 0x1_0000 >= ds[i].width || (py - ds[i].y) % 0x1_0000 >= ds[i].height
    ensures var u, v, w := (px - ds[j].x) % 0x1_0000, (py - ds[j].y) % 0x1_0000, ds[j].width;
      PixelValue(g, RenderAll(g, buf, ds), px, py)
      == (if ds[j].Rect? then ds[j].color
          else (assert ds[j] in ds; SourceIndexInRange(u, v, w, ds[j].height); ds[j].colors[u + v * w]))
         % Pow256(g.bpp)
  {
    var c, out := ds[j].Color(px, py), RenderAll(g, buf, ds);
    forall k | 0 <= k < g.bpp
      ensures Cell(g, out, px, py)[k] == Channel(c, k)
    {
      CellAt(g, out, px, py, k);
      LastCoveringByte(g, buf, ds, j, px, py, k);
    }
    assert Cell(g, out, px, py) == Channels(c, g.bpp);
    BytesSpellTheColor(c, g.bpp);
  }

  /** One call, seen as numbers: pixels in its area modulo 65536 get its colour, all others keep theirs. */
  ghost predicate Painted(g: Geometry, was: seq<Word8>, now: seq<Word8>, x: int, y: int, w: nat, h: nat, c: Word32) {
    IsFrame(g, was) && IsFrame(g, now) &&
    forall px, py :: 0 <= px < g.hRes && 0 <= py < g.vRes ==>
      PixelValue(g, now, px, py)
      == if (px - x) % 0x1_0000 < w && (py - y) % 0x1_0000 < h then c % Pow256(g.bpp) else PixelValue(g, was, px, py)
  }

  /** The same for a sprite: column u, row v of its area gets colour u + v * w. */
  ghost predicate Blitted(
      g: Geometry, was: seq<Word8>, now: seq<Word8>, x: int, y: int, w: nat, h: nat, colors: seq<Word8>)
  {
    IsFrame(g, was) && IsFrame(g, now) && |colors| == w * h &&
    forall px, py :: 0 <= px < g.hRes && 0 <= py < g.vRes ==>
      var u, v := (px - x) % 0x1_0000, (py - y) % 0x1_0000;
      PixelValue(g, now, px, py)
      == if u < w && v < h then (SourceIndexInRange(u, v, w, h); colors[u + v * w] % Pow256(g.bpp))
         else PixelValue(g, was, px, py)
  }

  lemma RenderPixelValue(g: Geometry, buf: seq<Word8>, d: Draw, px: nat, py: nat)
    requires IsFrame(g, buf) && d.Valid() && px < g.hRes && py < g.vRes
    ensures PixelValue(g, Render(g, buf, d), px, py)
         == if d.Covers(px, py) then d.Color(px, py) % Pow256(g.bpp) else PixelValue(g, buf, px, py)
  {
    var out, c := Render(g, buf, d), if d.Covers(px, py) then d.Color(px, py) else 0;
    forall k | 0 <= k < g.bpp
      ensures Cell(g, out, px, py)[k] == if d.Covers(px, py) then Channel(c, k) else Cell(g, buf, px, py)[k]
    {
      CellAt(g, out, px, py, k);
      CellAt(g, buf, px, py, k);
      RenderPixel(g, buf, d, px, py, k);
    }
    assert Cell(g, out, px, py) == if d.Covers(px, py) then Channels(c, g.bpp) else Cell(g, buf, px, py);
    BytesSpellTheColor(c, g.bpp);
  }

  lemma RectPaints(g: Geometry, buf: seq<Word8>, x: Word16, y: Word16, w: Word16, h: Word16, c: Word32)
    requires IsFrame(g, buf)
    ensures Painted(g, buf, Render(g, buf, Rect(x, y, w, h, c)), x, y, w, h, c)
  {
    var d := Rect(x, y, w, h, c);
    forall px, py | 0 <= px < g.hRes && 0 <= py < g.vRes
      ensures PixelValue(g, Render(g, buf, d), px, py)
           == if d.Covers(px, py) then c % Pow256(g.bpp) else PixelValue(g, buf, px, py)
    {
      RenderPixelValue(g, buf, d, px, py);
    }
  }

  lemma SpriteBlits(g: Geometry, buf: seq<Word8>, x: Word16, y: Word16, w: Word16, h: Word16, colors: seq<Word8>)
    requires IsFrame(g, buf) && |colors| == w * h
    ensures Blitted(g, buf, Render(g, buf, Sprite(x, y, w, h, colors)), x, y, w, h, colors)
  {
    var d := Sprite(x, y, w, h, colors);
    forall px, py | 0 <= px < g.hRes && 0 <= py < g.vRes
      ensures PixelValue(g, Render(g, buf, d), px, py)
           == if d.Covers(px, py) then d.Color(px, py) % Pow256(g.bpp) else PixelValue(g, buf, px, py)
    {
      RenderPixelValue(g, buf, d, px, py);
    }
  }

  // ----- algebra of draw calls -----

  lemma RedrawIsIdempotent(g: Geometry, buf: seq<Word8>, d: Draw)
    requires IsFrame(g, buf) && d.Valid()
    ensures Render(g, Render(g, buf, d), d) == Render(g, buf, d)
  {
  }

  lemma DisjointDrawsCommute(g: Geometry, buf: seq<Word8>, d: Draw, e: Draw)
    requires IsFrame(g, buf) && d.Valid() && e.Valid()
    requires forall px, py :: g.OnScreen(px, py) ==> !(d.Covers(px, py) && e.Covers(px, py))
    ensures Render(g, Render(g, buf, d), e) == Render(g, Render(g, buf, e), d)
  {
    var de, ed := Render(g, Render(g, buf, d), e), Render(g, Render(g, buf, e), d);
    forall i | 0 <= i < |buf|
      ensures de[i] == ed[i]
    {
      OffsetIsOnto(g, i);
      assert !(d.Covers(g.X(i), g.Y(i)) && e.Covers(g.X(i), g.Y(i)));
    }
  }

  /** Drawing `a + b` columns is drawing `a` of them and then `b` more, even across the 16-bit wrap. */
  lemma SplitWidth(g: Geometry, buf: seq<Word8>, x: Word16, y: Word16, a: nat, b: nat, h: Word16, c: Word32)
    requires IsFrame(g, buf) && a + b < 0x1_0000
    ensures Render(g, Render(g, buf, Rect(x, y, a, h, c)), Rect(U16(x + a), y, b, h, c))
         == Render(g, buf, Rect(x, y, a + b, h, c))
  {
    var ab := Render(g, Render(g, buf, Rect(x, y, a, h, c)), Rect(U16(x + a), y, b, h, c));
    forall i | 0 <= i < |buf|
      ensures ab[i] == Render(g, buf, Rect(x, y, a + b, h, c))[i]
    {
      NonEmptyFrame(g, i);
      WrappedIntervalSplits(g.X(i), x, a, b);
    }
  }

  /** The same for rows. */
  lemma SplitHeight(g: Geometry, buf: seq<Word8>, x: Word16, y: Word16, w: Word16, a: nat, b: nat, c: Word32)
    requires IsFrame(g, buf) && a + b < 0x1_0000
    ensures Render(g, Render(g, buf, Rect(x, y, w, a, c)), Rect(x, U16(y + a), w, b, c))
         == Render(g, buf, Rect(x, y, w, a + b, c))
  {
    var ab := Render(g, Render(g, buf, Rect(x, y, w, a, c)), Rect(x, U16(y + a), w, b, c));
    forall i | 0 <= i < |buf|
      ensures ab[i] == Render(g, buf, Rect(x, y, w, a + b, c))[i]
    {
      NonEmptyFrame(g, i);
      WrappedIntervalSplits(g.Y(i), y, a, b);
    }
  }

  /** An area with no columns or no rows draws nothing. */
  lemma EmptyDrawIsIdentity(g: Geometry, buf: seq<Word8>, d: Draw)
    requires IsFrame(g, buf) && d.Valid() && (d.width == 0 || d.height == 0)
    ensures Render(g, buf, d) == buf
  {
  }

  /** A full-screen rectangle gives every pixel its colour, and rewrites every byte whatever it was. */
  lemma FullScreenRewritesEveryByte(g: Geometry, a: seq<Word8>, b: seq<Word8>, c: Word32)
    requires IsFrame(g, a) && IsFrame(g, b)
    ensures var d := Rect(0, 0, g.hRes, g.vRes, c);
      Render(g, a, d) == Render(g, b, d) && Painted(g, a, Render(g, a, d), 0, 0, g.hRes, g.vRes, c)
  {
    var d := Rect(0, 0, g.hRes, g.vRes, c);
    RectPaints(g, a, 0, 0, g.hRes, g.vRes, c);
    forall i | 0 <= i < |a|
      ensures Render(g, a, d)[i] == Render(g, b, d)[i]
    {
      OffsetIsOnto(g, i);
    }
  }
}
