/** The framebuffer driver: module state, pixel addressing and the drawing loops. */
module Video {
  import opened Machine
  import opened Raster

  /** The fields of the VBE mode block the driver reads. */
  datatype VbeModeInfo = VbeModeInfo(bitsPerPixel: Word8, xResolution: Word16, yResolution: Word16)

  /** A pixmap in indexed form, as the XPM loader returns it. */
  datatype XpmImage = XpmImage(width: Word16, height: Word16, bytes: seq<Word8>)
  {
    /** The loader allocates width * height bytes, and C indexes them with an `int`. */
    predicate Valid() {
      |bytes| == width * height < 0x8000_0000
    }
  }

  class Screen {
    var videoMem: array<Word8>
    var hRes: Word16
    var vRes: Word16
    var bytesPerPixel: nat
    var frameSize: Word32

    constructor ()
      ensures fresh(videoMem) && videoMem.Length == 0 && Valid()
    {
      videoMem := new Word8[0];
      hRes, vRes, bytesPerPixel, frameSize := 0, 0, 0, 0;
    }

    function Geo(): Geometry
      reads this
    {
      Geometry(hRes, vRes, bytesPerPixel)
    }

    ghost predicate Valid()
      reads this
    {
      Geo().Valid() && frameSize == Geo().FrameSize() && videoMem.Length == frameSize
    }

    /**
     Records the mode and maps `frameSize` bytes of it. `modeOk` and `mapOk` are the outcomes of
     the BIOS query and of the two mapping calls. The size is computed in 32 bits, so the mapped
     buffer is the whole frame exactly for the modes whose frame fits in a word.
     */
    method MapVram(info: VbeModeInfo, modeOk: bool, mapOk: bool) returns (r: int)
      modifies this
      ensures r == if modeOk && mapOk then OK else FAIL
      ensures !modeOk ==> unchanged(this)
      ensures modeOk ==> hRes == info.xResolution && vRes == info.yResolution
      ensures modeOk ==> bytesPerPixel * 8 >= info.bitsPerPixel > (bytesPerPixel - 1) * 8
      ensures r == OK ==> fresh(videoMem) && videoMem.Length == frameSize
      ensures r == OK && bytesPerPixel <= 4 ==>
                (Valid() <==> hRes * vRes * bytesPerPixel < 0x1_0000_0000)
    {
      if !modeOk {
        return FAIL;
      }
      bytesPerPixel := (info.bitsPerPixel + 7) / 8;
      hRes := info.xResolution;
      vRes := info.yResolution;
      frameSize := U32(U32(hRes * vRes) * bytesPerPixel);
      AreaFitsWord(Geo());
      if !mapOk {
        return FAIL;
      }
      videoMem := new Word8[frameSize];
      return OK;
    }

    /** `memcpy` of the first `bytesPerPixel` bytes of a colour to offset `index`. */
    method CopyColor(index: nat, color: Word32)
      requires Valid() && index + bytesPerPixel <= videoMem.Length
      modifies videoMem
      ensures forall i :: 0 <= i < videoMem.Length ==>
        videoMem[i] == if index <= i < index + bytesPerPixel then Channel(color, i - index) else old(videoMem[i])
    {
      for k := 0 to bytesPerPixel
        invariant forall i :: 0 <= i < videoMem.Length ==>
          videoMem[i] == if index <= i < index + k then Channel(color, i - index) else old(videoMem[i])
      {
        videoMem[index + k] := Channel(color, k);
      }
    }

    method DrawPixel(x: Word16, y: Word16, color: Word32) returns (r: int)
      requires Valid()
      modifies videoMem
      ensures r == OK
      ensures videoMem[..] == Render(Geo(), old(videoMem[..]), Rect(x, y, 1, 1, color))
      ensures Painted(Geo(), old(videoMem[..]), videoMem[..], x, y, 1, 1, color)
    {
      ghost var was := videoMem[..];
      RectPaints(Geo(), was, x, y, 1, 1, color);
      if x >= hRes || y >= vRes {
        OffScreenPixel(Geo(), was, x, y, color);
        return OK;
      }
      IndexDoesNotWrap(Geo(), x, y);
      var index := U32(U32(U32(hRes * y) + x) * bytesPerPixel);
      CopyColor(index, color);
      OnScreenPixel(Geo(), was, videoMem[..], x, y, color);
      return OK;
    }

    method DrawHline(x: Word16, y: Word16, len: Word16, color: Word32) returns (r: int)
      requires Valid()
      modifies videoMem
      ensures r == OK
      ensures videoMem[..] == Render(Geo(), old(videoMem[..]), Rect(x, y, len, 1, color))
      ensures Painted(Geo(), old(videoMem[..]), videoMem[..], x, y, len, 1, color)
    {
      ghost var was := videoMem[..];
      EmptyDrawIsIdentity(Geo(), was, Rect(x, y, 0, 1, color));
      RectPaints(Geo(), was, x, y, len, 1, color);
      for i := 0 to len
        invariant videoMem[..] == Render(Geo(), was, Rect(x, y, i, 1, color))
      {
        var e := DrawPixel(U16(x + i), y, color);
        if e != OK {
          return FAIL;
        }
        SplitWidth(Geo(), was, x, y, i, 1, 1, color);
      }
      return OK;
    }

    method DrawRectangle(x: Word16, y: Word16, width: Word16, height: Word16, color: Word32) returns (r: int)
      requires Valid()
      modifies videoMem
      ensures r == OK
      ensures videoMem[..] == Render(Geo(), old(videoMem[..]), Rect(x, y, width, height, color))
      ensures Painted(Geo(), old(videoMem[..]), videoMem[..], x, y, width, height, color)
    {
      ghost var was := videoMem[..];
      EmptyDrawIsIdentity(Geo(), was, Rect(x, y, width, 0, color));
      RectPaints(Geo(), was, x, y, width, height, color);
      for i := 0 to height
        invariant videoMem[..] == Render(Geo(), was, Rect(x, y, width, i, color))
      {
        var e := DrawHline(x, U16(y + i), width, color);
        if e != OK {
          return FAIL;
        }
        SplitHeight(Geo(), was, x, y, width, i, 1, color);
      }
      return OK;
    }

    /** `img` is `None` when the loader fails. */
    method PrintXpm(img: Option<XpmImage>, x: Word16, y: Word16) returns (r: int)
      requires Valid() && (img.Some? ==> img.value.Valid())
      modifies videoMem
      ensures r == if img.Some? then OK else FAIL
      ensures videoMem[..] == match img
                              case None => old(videoMem[..])
                              case Some(m) => Render(Geo(), old(videoMem[..]), Sprite(x, y, m.width, m.height, m.bytes))
      ensures img.Some? ==>
        var m := img.value; Blitted(Geo(), old(videoMem[..]), videoMem[..], x, y, m.width, m.height, m.bytes)
    {
      if img.None? {
        return FAIL;
      }
      var colors, width, height := img.value.bytes, img.value.width, img.value.height;
      ghost var was := videoMem[..];
      ghost var s := Sprite(x, y, width, height, colors);
      BlitStart(Geo(), was, s);
      SpriteBlits(Geo(), was, x, y, width, height, colors);
      for h := 0 to height
        invariant BlitUpTo(Geo(), was, videoMem[..], s, h, 0)
      {
        for w := 0 to width
          invariant BlitUpTo(Geo(), was, videoMem[..], s, h, w)
        {
          SourceIndexInRange(w, h, width, height);
          assert w + h * width < 0x8000_0000;
          ghost var before := videoMem[..];
          var e := DrawPixel(U16(x + w), U16(y + h), colors[w + h * width]);
          if e != OK {
            return FAIL;
          }
          BlitStep(Geo(), was, before, s, h, w);
        }
        BlitRowEnd(Geo(), was, videoMem[..], s, h);
      }
      BlitEnd(Geo(), was, videoMem[..], s);
      return OK;
    }
  }

  lemma OnePixelCovers(d: Draw, px: Word16, py: Word16)
    requires d.width == 1 && d.height == 1
    ensures d.Covers(px, py) <==> px == d.x && py == d.y
  {
  }

  /** A pixel beyond either resolution is dropped. */
  lemma OffScreenPixel(g: Geometry, was: seq<Word8>, x: Word16, y: Word16, color: Word32)
    requires IsFrame(g, was) && !g.OnScreen(x, y)
    ensures Render(g, was, Rect(x, y, 1, 1, color)) == was
  {
    forall i | 0 <= i < |was|
      ensures Render(g, was, Rect(x, y, 1, 1, color))[i] == was[i]
    {
      OffsetIsOnto(g, i);
      RenderAt(g, was, Rect(x, y, 1, 1, color), i);
      OnePixelCovers(Rect(x, y, 1, 1, color), g.X(i), g.Y(i));
    }
  }

  /** Writing the colour's bytes to the cell of (x, y) is drawing a 1 by 1 rectangle there. */
  lemma OnScreenPixel(g: Geometry, was: seq<Word8>, now: seq<Word8>, x: Word16, y: Word16, color: Word32)
    requires IsFrame(g, was) && |now| == |was| && g.OnScreen(x, y)
    requires forall i :: 0 <= i < |was| ==> now[i] == CellByte(g, x, y, color, i, was[i])
    ensures now == Render(g, was, Rect(x, y, 1, 1, color))
  {
    forall i | 0 <= i < |was|
      ensures now[i] == Render(g, was, Rect(x, y, 1, 1, color))[i]
    {
      OnScreenByte(g, x, y, color, i, was[i]);
      RenderAt(g, was, Rect(x, y, 1, 1, color), i);
    }
  }

  function CellByte(g: Geometry, x: nat, y: nat, color: Word32, i: nat, was: Word8): Word8
    requires g.Valid()
  {
    var index := g.Offset(x, y, 0);
    if index <= i < index + g.bpp then Channel(color, i - index) else was
  }

  lemma OnScreenByte(g: Geometry, x: Word16, y: Word16, color: Word32, i: nat, was: Word8)
    requires g.Valid() && i < g.FrameSize() && g.OnScreen(x, y)
    ensures g.hRes > 0 && g.bpp > 0
    ensures CellByte(g, x, y, color, i, was) == Ink(g, Rect(x, y, 1, 1, color), i, was)
  {
    hide U16;
    OffsetIsOnto(g, i);
    PixelCell(g, i, x, y);
    OnePixelCovers(Rect(x, y, 1, 1, color), g.X(i), g.Y(i));
  }

  /** The part of a blit done once rows below `h` and the first `w` columns of row `h` are drawn. */
  ghost predicate BlitUpTo(g: Geometry, was: seq<Word8>, now: seq<Word8>, s: Draw, h: nat, w: nat)
    requires s.Sprite? && s.Valid()
  {
    IsFrame(g, was) && |now| == |was| &&
    forall i :: 0 <= i < |was| ==> (NonEmptyFrame(g, i); now[i] == BlitByte(g, was, s, h, w, i))
  }

  ghost function BlitByte(g: Geometry, was: seq<Word8>, s: Draw, h: nat, w: nat, i: nat): Word8
    requires s.Sprite? && s.Valid() && IsFrame(g, was) && i < |was|
  {
    NonEmptyFrame(g, i);
    if s.V(g.Y(i)) < h || (s.V(g.Y(i)) == h && s.U(g.X(i)) < w) then Ink(g, s, i, was[i]) else was[i]
  }

  lemma BlitStart(g: Geometry, was: seq<Word8>, s: Draw)
    requires s.Sprite? && s.Valid() && IsFrame(g, was)
    ensures BlitUpTo(g, was, was, s, 0, 0)
  {
  }

  lemma BlitRowEnd(g: Geometry, was: seq<Word8>, now: seq<Word8>, s: Draw, h: nat)
    requires s.Sprite? && s.Valid() && BlitUpTo(g, was, now, s, h, s.width)
    ensures BlitUpTo(g, was, now, s, h + 1, 0)
  {
  }

  lemma BlitEnd(g: Geometry, was: seq<Word8>, now: seq<Word8>, s: Draw)
    requires s.Sprite? && s.Valid() && BlitUpTo(g, was, now, s, s.height, 0)
    ensures now == Render(g, was, s)
  {
    forall i | 0 <= i < |was|
      ensures now[i] == Render(g, was, s)[i]
    {
      RenderAt(g, was, s, i);
      assert now[i] == BlitByte(g, was, s, s.height, 0, i);
    }
  }

  lemma BlitStep(g: Geometry, was: seq<Word8>, before: seq<Word8>, s: Draw, h: nat, w: nat)
    requires s.Sprite? && s.Valid() && h < s.height && w < s.width
    requires BlitUpTo(g, was, before, s, h, w)
    ensures w + h * s.width < |s.colors|
    ensures BlitUpTo(g, was,
                     Render(g, before, Rect(U16(s.x + w), U16(s.y + h), 1, 1, s.colors[w + h * s.width])),
                     s, h, w + 1)
  {
    SourceIndexInRange(w, h, s.width, s.height);
    var d := Rect(U16(s.x + w), U16(s.y + h), 1, 1, s.colors[w + h * s.width]);
    var now := Render(g, before, d);
    forall i | 0 <= i < |was|
      ensures (NonEmptyFrame(g, i); now[i] == BlitByte(g, was, s, h, w + 1, i))
    {
      NonEmptyFrame(g, i);
      BlitByteStep(g, was, s, d, h, w, i);
      assert before[i] == BlitByte(g, was, s, h, w, i);
    }
  }

  /** The pixel drawn at step (h, w) is the one new pixel of the blit. */
  lemma BlitByteStep(g: Geometry, was: seq<Word8>, s: Draw, d: Draw, h: nat, w: nat, i: nat)
    requires s.Sprite? && s.Valid() && IsFrame(g, was) && i < |was| && h < s.height && w < s.width
    requires w + h * s.width < |s.colors|
    requires d == Rect(U16(s.x + w), U16(s.y + h), 1, 1, s.colors[w + h * s.width])
    ensures g.hRes > 0 && g.bpp > 0
    ensures BlitByte(g, was, s, h, w + 1, i) == Ink(g, d, i, BlitByte(g, was, s, h, w, i))
  {
    NonEmptyFrame(g, i);
    WrappedPoint(g.X(i), s.x, w);
    WrappedPoint(g.Y(i), s.y, h);
    var px, py := g.X(i), g.Y(i);
    if s.U(px) == w && s.V(py) == h {
      assert d.Covers(px, py) && s.Covers(px, py) && d.Color(px, py) == s.Color(px, py);
    }
  }

  lemma WrappedPoint(p: int, x: Word16, a: Word16)
    ensures U16(p - U16(x + a)) < 1 <==> U16(p - x) == a
  {
  }

  /** An indexed colour is one byte: it lands in the pixel's first byte and clears the others. */
  lemma IndexedColorChannels(c: Word8, k: nat)
    requires k < 4
    ensures Channel(c, k) == if k == 0 then c else 0
  {
  }
}
