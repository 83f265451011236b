/** Blitting an image into a flat framebuffer: each pixel is stored as its
    blue, green and red bytes (and its alpha byte when a pixel takes four
    bytes), at an offset computed from the pixel's position, the position of
    the image on the screen and the screen width in pixels.

    The drawing routines are specified by the list of byte writes they
    perform, in loop order; `Apply` gives the buffer after those writes. */
module Framebuffer {
  import opened Wrappers

  newtype byte = b: int | 0 <= b < 0x100
  newtype uint32 = v: int | 0 <= v < 0x1_0000_0000

  /** A colour as `color.Color.RGBA()` gives it: four 32-bit components. */
  datatype Pixel = Pixel(r: uint32, g: uint32, b: uint32, a: uint32)

  /** Go's conversion `byte(v)`: the low 8 bits of `v`. */
  function Low8(v: uint32): byte {
    (v % 0x100) as byte
  }

  /** `RGBA()` widens an 8-bit channel `c` to 16 bits by repeating it
      (`c * 0x101`); taking the low byte gives `c` back, so 8-bit colours are
      stored unchanged. */
  lemma Low8OfWidened(c: byte)
    ensures Low8((c as int * 0x101) as uint32) == c
  {
  }

  /** An image with bounds [minX, minX + w) x [minY, minY + |rows|); row `j`
      holds the pixels of line `minY + j`. */
  datatype Image = Image(minX: int, minY: int, w: nat, rows: seq<seq<Pixel>>) {
    predicate Valid() {
      forall j :: 0 <= j < |rows| ==> |rows[j]| == w
    }

    function MaxX(): int { minX + w }

    function MaxY(): int { minY + |rows| }

    predicate Contains(x: int, y: int) {
      minX <= x < MaxX() && minY <= y < MaxY()
    }

    function At(x: int, y: int): Pixel
      requires Valid() && Contains(x, y)
    {
      rows[y - minY][x - minX]
    }
  }

  /** The number of bytes written per pixel: the alpha byte is written only
      when a pixel takes four bytes. */
  function Channels(bpp: int): nat {
    if bpp == 4 then 4 else 3
  }

  /** Byte `c` of a pixel in framebuffer order: blue, green, red, alpha. */
  function Channel(p: Pixel, c: nat): byte
    requires c < 4
  {
    if c == 0 then Low8(p.b)
    else if c == 1 then Low8(p.g)
    else if c == 2 then Low8(p.r)
    else Low8(p.a)
  }

  /** Byte `c` of the pixel at linear position `pos` of the framebuffer. */
  function Slot(bpp: int, pos: int, c: int): int {
    bpp * pos + c
  }

  /** Every byte index a pixel at `pos` touches lies in a buffer of `length` bytes. */
  predicate InFrame(length: int, bpp: int, pos: int) {
    0 <= bpp * pos && bpp * pos + Channels(bpp) <= length
  }

  // ---------------------------------------------------------------------
  // Byte writes and their effect

  datatype Write = Write(index: int, value: byte)

  /** The writes that store pixel `p` at byte `offset`, in the order the
      source performs them. */
  function PixelWrites(offset: int, p: Pixel, bpp: int): (ws: seq<Write>)
    ensures |ws| == Channels(bpp)
    ensures forall c :: 0 <= c < |ws| ==> ws[c] == Write(offset + c, Channel(p, c))
  {
    [Write(offset, Low8(p.b)), Write(offset + 1, Low8(p.g)), Write(offset + 2, Low8(p.r))]
    + if bpp == 4 then [Write(offset + 3, Low8(p.a))] else []
  }

  /** The buffer `s` after the writes `ws`, performed in order. */
  function Apply(s: seq<byte>, ws: seq<Write>): (r: seq<byte>)
    ensures |r| == |s|
  {
    if ws == [] then s
    else
      var t := Apply(s, ws[..|ws| - 1]);
      var w := ws[|ws| - 1];
      if 0 <= w.index < |t| then t[w.index := w.value] else t
  }

  /** The value of the last write to index `k`, if any. */
  function LastWrite(ws: seq<Write>, k: int): Option<byte> {
    if ws == [] then None
    else if ws[|ws| - 1].index == k then Some(ws[|ws| - 1].value)
    else LastWrite(ws[..|ws| - 1], k)
  }

  /** After a sequence of writes, a byte holds the value of the last write to
      it, or its old value when nothing was written to it. */
  lemma {:induction false} ApplyIsLastWrite(s: seq<byte>, ws: seq<Write>, k: int)
    requires 0 <= k < |s|
    ensures Apply(s, ws)[k] == match LastWrite(ws, k) case Some(v) => v case None => s[k]
  {
    if ws != [] {
      ApplyIsLastWrite(s, ws[..|ws| - 1], k);
    }
  }

  /** There is a last write to `k` exactly when some write goes to `k`. */
  lemma {:induction false} LastWriteNone(ws: seq<Write>, k: int)
    ensures LastWrite(ws, k).None? <==> forall i :: 0 <= i < |ws| ==> ws[i].index != k
  {
    if ws != [] {
      var prefix := ws[..|ws| - 1];
      LastWriteNone(prefix, k);
      assert forall i :: 0 <= i < |prefix| ==> prefix[i] == ws[i];
    }
  }

  /** A write to `k` followed by no other write to `k` is the last one. */
  lemma {:induction false} LastWriteAt(ws: seq<Write>, i: nat, k: int)
    requires i < |ws| && ws[i].index == k
    requires forall j :: i < j < |ws| ==> ws[j].index != k
    ensures LastWrite(ws, k) == Some(ws[i].value)
  {
    if i < |ws| - 1 {
      LastWriteAt(ws[..|ws| - 1], i, k);
    }
  }

  lemma {:induction false} LastWriteAppend(a: seq<Write>, b: seq<Write>, k: int)
    ensures LastWrite(a + b, k) == if LastWrite(b, k).Some? then LastWrite(b, k) else LastWrite(a, k)
    decreases |b|
  {
    if b == [] {
      assert a + b == a;
    } else {
      LastWriteAppend(a, b[..|b| - 1], k);
      assert (a + b)[..|a + b| - 1] == a + b[..|b| - 1];
    }
  }

  lemma {:induction false} ApplyAppend(s: seq<byte>, a: seq<Write>, b: seq<Write>)
    ensures Apply(s, a + b) == Apply(Apply(s, a), b)
    decreases |b|
  {
    if b == [] {
      assert a + b == a;
    } else {
      ApplyAppend(s, a, b[..|b| - 1]);
      assert (a + b)[..|a + b| - 1] == a + b[..|b| - 1];
    }
  }

  /** Within one pixel, byte `c` is last written with channel `c`. */
  lemma PixelWritesLast(offset: int, p: Pixel, bpp: int, c: nat)
    requires c < Channels(bpp)
    ensures LastWrite(PixelWrites(offset, p, bpp), offset + c) == Some(Channel(p, c))
  {
    LastWriteAt(PixelWrites(offset, p, bpp), c, offset + c);
  }

  // ---------------------------------------------------------------------
  // Pixels placed at linear framebuffer positions

  /** A pixel placed at linear position `pos` (in pixels) of the framebuffer;
      its bytes start at `bpp * pos`. */
  datatype Cell = Cell(pos: int, pixel: Pixel)

  /** The writes of a list of placed pixels, in list order. */
  function CellWrites(cells: seq<Cell>, bpp: int): seq<Write> {
    if cells == [] then []
    else
      var last := cells[|cells| - 1];
      CellWrites(cells[..|cells| - 1], bpp) + PixelWrites(bpp * last.pos, last.pixel, bpp)
  }

  lemma AppendCell(s: seq<byte>, cells: seq<Cell>, cell: Cell, bpp: int)
    ensures Apply(s, CellWrites(cells + [cell], bpp)) ==
            Apply(Apply(s, CellWrites(cells, bpp)), PixelWrites(bpp * cell.pos, cell.pixel, bpp))
  {
    assert (cells + [cell])[..|cells|] == cells;
    ApplyAppend(s, CellWrites(cells, bpp), PixelWrites(bpp * cell.pos, cell.pixel, bpp));
  }

  /** Every write of a list of placed pixels stores some channel of one of them. */
  lemma {:induction false} CellWriteOrigin(cells: seq<Cell>, bpp: int, j: nat) returns (i: nat, c: nat)
    requires j < |CellWrites(cells, bpp)|
    ensures i < |cells| && c < Channels(bpp)
    ensures CellWrites(cells, bpp)[j] == Write(Slot(bpp, cells[i].pos, c), Channel(cells[i].pixel, c))
  {
    var n := |cells| - 1;
    var earlier := CellWrites(cells[..n], bpp);
    if j < |earlier| {
      i, c := CellWriteOrigin(cells[..n], bpp, j);
    } else {
      i, c := n, j - |earlier|;
    }
  }

  /** Two rows of `width` cells: equal linear positions whose columns are
      less than a row apart have the same row and column. */
  lemma SameRow(width: int, r1: int, c1: int, r2: int, c2: int)
    requires r1 * width + c1 == r2 * width + c2
    requires -width < c1 - c2 < width
    ensures r1 == r2 && c1 == c2
  {
    if r1 > r2 {
      MulAtLeast(r1 - r2, width);
    } else if r1 < r2 {
      MulAtLeast(r2 - r1, width);
    }
  }

  lemma {:induction false} MulAtLeast(k: int, n: int)
    requires k >= 1 && n >= 0
    ensures k * n >= n
    decreases k
  {
    if k > 1 {
      MulAtLeast(k - 1, n);
      assert k * n == (k - 1) * n + n;
    }
  }

  /** With at least three bytes per pixel, the bytes of pixels at different
      positions do not overlap: if every pixel placed at `pos` is `p`, the
      bytes at `pos` end up holding `p`. */
  lemma {:induction false} PlacedPixelLands(cells: seq<Cell>, bpp: int, pos: int, p: Pixel, c: nat)
    requires bpp >= 3 && c < Channels(bpp)
    requires Cell(pos, p) in cells
    requires forall i :: 0 <= i < |cells| && cells[i].pos == pos ==> cells[i].pixel == p
    ensures LastWrite(CellWrites(cells, bpp), Slot(bpp, pos, c)) == Some(Channel(p, c))
  {
    var n := |cells| - 1;
    var prefix, last := cells[..n], cells[n];
    var k := Slot(bpp, pos, c);
    LastWriteAppend(CellWrites(prefix, bpp), PixelWrites(bpp * last.pos, last.pixel, bpp), k);
    if last.pos == pos {
      PixelWritesLast(bpp * pos, p, bpp, c);
    } else {
      var ws := PixelWrites(bpp * last.pos, last.pixel, bpp);
      forall j | 0 <= j < |ws| ensures ws[j].index != k {
        if ws[j].index == k {
          SameRow(bpp, last.pos, j, pos, c);
        }
      }
      LastWriteNone(ws, k);
      assert Cell(pos, p) in prefix by {
        assert cells == prefix + [last];
      }
      assert forall i :: 0 <= i < |prefix| ==> prefix[i] == cells[i];
      PlacedPixelLands(prefix, bpp, pos, p, c);
    }
  }

  /** A byte that belongs to none of the placed pixels is never written. */
  lemma OutsideCellsNotWritten(cells: seq<Cell>, bpp: int, k: int)
    requires forall i, c :: 0 <= i < |cells| && 0 <= c < Channels(bpp) ==> Slot(bpp, cells[i].pos, c) != k
    ensures LastWrite(CellWrites(cells, bpp), k).None?
  {
    var ws := CellWrites(cells, bpp);
    forall j | 0 <= j < |ws| ensures ws[j].index != k {
      var i, c := CellWriteOrigin(cells, bpp, j);
    }
    LastWriteNone(ws, k);
  }

  /** Stores one pixel at byte `offset` in the order blue, green, red and,
      with four bytes per pixel, alpha. */
  method PutPixel(buf: array<byte>, offset: int, p: Pixel, bpp: int)
    requires 0 <= offset && offset + Channels(bpp) <= buf.Length
    modifies buf
    ensures buf[..] == Apply(old(buf[..]), PixelWrites(offset, p, bpp))
  {
    ghost var ws := PixelWrites(offset, p, bpp);
    ghost var s := buf[..];
    buf[offset + 0] := Low8(p.b);
    assert buf[..] == Apply(s, ws[..1]) by {
      assert ws[..1][..0] == [];
    }
    buf[offset + 1] := Low8(p.g);
    assert buf[..] == Apply(s, ws[..2]) by {
      assert ws[..2][..1] == ws[..1];
    }
    buf[offset + 2] := Low8(p.r);
    assert buf[..] == Apply(s, ws[..3]) by {
      assert ws[..3][..2] == ws[..2];
    }
    if bpp == 4 {
      buf[offset + 3] := Low8(p.a);
      assert ws[..4] == ws;
    } else {
      assert ws[..3] == ws;
    }
  }

  // ---------------------------------------------------------------------
  // DrawOnBufAt

  /** The linear framebuffer position of image pixel (x, y) drawn with its
      origin at (posx, posy) on a screen `width` pixels wide. */
  function DrawPos(posx: int, posy: int, width: int, x: int, y: int): int {
    (posy + y) * width + posx + x
  }

  /** Pixels minX .. xEnd - 1 of line `y`, in drawing order. */
  function RowCells(img: Image, posx: int, posy: int, width: int, y: int, xEnd: int): seq<Cell>
    requires img.Valid() && img.minY <= y < img.MaxY() && xEnd <= img.MaxX()
    decreases xEnd - img.minX
  {
    if xEnd <= img.minX then []
    else RowCells(img, posx, posy, width, y, xEnd - 1) + [Cell(DrawPos(posx, posy, width, xEnd - 1, y), img.At(xEnd - 1, y))]
  }

  /** The pixels of lines minY .. yEnd - 1, in drawing order (row-major). */
  function DrawCells(img: Image, posx: int, posy: int, width: int, yEnd: int): seq<Cell>
    requires img.Valid() && yEnd <= img.MaxY()
    decreases yEnd - img.minY
  {
    if yEnd <= img.minY then []
    else DrawCells(img, posx, posy, width, yEnd - 1) + RowCells(img, posx, posy, width, yEnd - 1, img.MaxX())
  }

  /** The buffer `s` after drawing `img` at (posx, posy). */
  function Drawn(s: seq<byte>, img: Image, posx: int, posy: int, width: int, bpp: int): seq<byte>
    requires img.Valid()
  {
    Apply(s, CellWrites(DrawCells(img, posx, posy, width, img.MaxY()), bpp))
  }

  /** Writes every pixel of `img` into `buf`, pixel (x, y) at byte offset
      bpp * ((posy + y) * width + posx + x). */
  method DrawOnBufAt(buf: array<byte>, img: Image, posx: int, posy: int, width: int, bpp: int)
    requires img.Valid()
    requires forall x, y :: img.Contains(x, y) ==> InFrame(buf.Length, bpp, DrawPos(posx, posy, width, x, y))
    modifies buf
    ensures buf[..] == Drawn(old(buf[..]), img, posx, posy, width, bpp)
  {
    ghost var before := buf[..];
    ghost var done: seq<Cell> := [];
    var y := img.minY;
    while y < img.MaxY()
      invariant img.minY <= y <= img.MaxY()
      invariant done == DrawCells(img, posx, posy, width, y)
      invariant buf[..] == Apply(before, CellWrites(done, bpp))
    {
      var x := img.minX;
      while x < img.MaxX()
        invariant img.minX <= x <= img.MaxX()
        invariant done == DrawCells(img, posx, posy, width, y) + RowCells(img, posx, posy, width, y, x)
        invariant buf[..] == Apply(before, CellWrites(done, bpp))
      {
        var p := img.At(x, y);
        var offset := bpp * ((posy + y) * width + posx + x);
        ghost var cell := Cell(DrawPos(posx, posy, width, x, y), p);
        assert InFrame(buf.Length, bpp, cell.pos);
        PutPixel(buf, offset, p, bpp);
        AppendCell(before, done, cell, bpp);
        RowCellsStep(img, posx, posy, width, y, x);
        done := done + [cell];
        x := x + 1;
      }
      RowCellsDone(img, posx, posy, width, y);
      y := y + 1;
    }
  }

  lemma RowCellsStep(img: Image, posx: int, posy: int, width: int, y: int, x: int)
    requires img.Valid() && img.Contains(x, y)
    ensures DrawCells(img, posx, posy, width, y) + RowCells(img, posx, posy, width, y, x + 1) ==
            DrawCells(img, posx, posy, width, y) + RowCells(img, posx, posy, width, y, x) + [Cell(DrawPos(posx, posy, width, x, y), img.At(x, y))]
  {
  }

  lemma RowCellsDone(img: Image, posx: int, posy: int, width: int, y: int)
    requires img.Valid() && img.minY <= y < img.MaxY()
    ensures DrawCells(img, posx, posy, width, y) + RowCells(img, posx, posy, width, y, img.MaxX()) == DrawCells(img, posx, posy, width, y + 1)
    ensures DrawCells(img, posx, posy, width, y) + RowCells(img, posx, posy, width, y, img.minX) == DrawCells(img, posx, posy, width, y)
  {
  }

  /** Some pixel (x, y) of `img`, at its drawing position. */
  ghost predicate DrawPlaced(img: Image, posx: int, posy: int, width: int, cell: Cell)
    requires img.Valid()
  {
    exists x, y :: img.Contains(x, y) && cell == Cell(DrawPos(posx, posy, width, x, y), img.At(x, y))
  }

  lemma {:induction false} RowCellsPlaced(img: Image, posx: int, posy: int, width: int, y: int, xEnd: int)
    requires img.Valid() && img.minY <= y < img.MaxY() && xEnd <= img.MaxX()
    ensures forall i :: 0 <= i < |RowCells(img, posx, posy, width, y, xEnd)| ==>
      DrawPlaced(img, posx, posy, width, RowCells(img, posx, posy, width, y, xEnd)[i])
    ensures forall x :: img.minX <= x < xEnd ==>
      Cell(DrawPos(posx, posy, width, x, y), img.At(x, y)) in RowCells(img, posx, posy, width, y, xEnd)
    decreases xEnd - img.minX
  {
    if xEnd > img.minX {
      RowCellsPlaced(img, posx, posy, width, y, xEnd - 1);
      assert img.Contains(xEnd - 1, y);
    }
  }

  lemma {:induction false} DrawCellsPlaced(img: Image, posx: int, posy: int, width: int, yEnd: int)
    requires img.Valid() && yEnd <= img.MaxY()
    ensures forall i :: 0 <= i < |DrawCells(img, posx, posy, width, yEnd)| ==>
      DrawPlaced(img, posx, posy, width, DrawCells(img, posx, posy, width, yEnd)[i])
    ensures forall x, y :: img.Contains(x, y) && y < yEnd ==>
      Cell(DrawPos(posx, posy, width, x, y), img.At(x, y)) in DrawCells(img, posx, posy, width, yEnd)
    decreases yEnd - img.minY
  {
    if yEnd > img.minY {
      DrawCellsPlaced(img, posx, posy, width, yEnd - 1);
      RowCellsPlaced(img, posx, posy, width, yEnd - 1, img.MaxX());
      var earlier := DrawCells(img, posx, posy, width, yEnd - 1);
      var row := RowCells(img, posx, posy, width, yEnd - 1, img.MaxX());
      var cells := DrawCells(img, posx, posy, width, yEnd);
      assert cells == earlier + row;
      forall i | 0 <= i < |cells|
        ensures DrawPlaced(img, posx, posy, width, cells[i])
      {
        if i < |earlier| {
          assert cells[i] == earlier[i];
        } else {
          assert cells[i] == row[i - |earlier|];
        }
      }
      forall x, y | img.Contains(x, y) && y < yEnd
        ensures Cell(DrawPos(posx, posy, width, x, y), img.At(x, y)) in cells
      {
        var cell := Cell(DrawPos(posx, posy, width, x, y), img.At(x, y));
        if y < yEnd - 1 {
          assert cell in earlier;
        } else {
          assert cell in row;
        }
      }
    }
  }

  /** When the image is no wider than the screen and a pixel takes at least
      three bytes, pixel (x, y) ends up at its offset in framebuffer order
      (blue, green, red, then alpha when a pixel takes four bytes). */
  lemma DrawPlacesPixel(s: seq<byte>, img: Image, posx: int, posy: int, width: int, bpp: int, x: int, y: int, c: nat)
    requires img.Valid() && img.Contains(x, y)
    requires img.w <= width && bpp >= 3 && c < Channels(bpp)
    requires 0 <= Slot(bpp, DrawPos(posx, posy, width, x, y), c) < |s|
    ensures Drawn(s, img, posx, posy, width, bpp)[Slot(bpp, DrawPos(posx, posy, width, x, y), c)] == Channel(img.At(x, y), c)
  {
    var cells := DrawCells(img, posx, posy, width, img.MaxY());
    var pos, p := DrawPos(posx, posy, width, x, y), img.At(x, y);
    DrawCellsPlaced(img, posx, posy, width, img.MaxY());
    forall i | 0 <= i < |cells| && cells[i].pos == pos ensures cells[i].pixel == p {
      var x', y' :| img.Contains(x', y') && cells[i] == Cell(DrawPos(posx, posy, width, x', y'), img.At(x', y'));
      SameRow(width, posy + y', posx + x', posy + y, posx + x);
    }
    PlacedPixelLands(cells, bpp, pos, p, c);
    ApplyIsLastWrite(s, CellWrites(cells, bpp), Slot(bpp, pos, c));
  }

  /** A byte that lies in no drawn pixel keeps its value, whatever the
      geometry. */
  lemma DrawLeavesOtherBytes(s: seq<byte>, img: Image, posx: int, posy: int, width: int, bpp: int, k: int)
    requires img.Valid() && 0 <= k < |s|
    requires forall x, y, c :: img.Contains(x, y) && 0 <= c < Channels(bpp) ==> Slot(bpp, DrawPos(posx, posy, width, x, y), c) != k
    ensures Drawn(s, img, posx, posy, width, bpp)[k] == s[k]
  {
    var cells := DrawCells(img, posx, posy, width, img.MaxY());
    DrawCellsPlaced(img, posx, posy, width, img.MaxY());
    forall i, c | 0 <= i < |cells| && 0 <= c < Channels(bpp) ensures Slot(bpp, cells[i].pos, c) != k {
      var x, y :| img.Contains(x, y) && cells[i] == Cell(DrawPos(posx, posy, width, x, y), img.At(x, y));
    }
    OutsideCellsNotWritten(cells, bpp, k);
    ApplyIsLastWrite(s, CellWrites(cells, bpp), k);
  }

  // ---------------------------------------------------------------------
  // DrawScaledOnBufAt

  /** The linear framebuffer position of copy (sx, sy) of image pixel (x, y)
      when every pixel is drawn as a factor x factor block; both copy indices
      run from 1 to factor. */
  function ScaledPos(posx: int, posy: int, factor: int, width: int, x: int, y: int, sx: int, sy: int): int {
    posx + x * factor + (posy + y * factor + sy) * width + sx
  }

  /** Copies (sx, 1) .. (sx, syEnd - 1) of pixel (x, y), in drawing order. */
  function ColumnCells(img: Image, posx: int, posy: int, factor: int, width: int, x: int, y: int, sx: int, syEnd: int): seq<Cell>
    requires img.Valid() && img.Contains(x, y)
    decreases syEnd
  {
    if syEnd <= 1 then []
    else ColumnCells(img, posx, posy, factor, width, x, y, sx, syEnd - 1) + [Cell(ScaledPos(posx, posy, factor, width, x, y, sx, syEnd - 1), img.At(x, y))]
  }

  /** Copies (1, _) .. (sxEnd - 1, _) of pixel (x, y), in drawing order. */
  function BlockCells(img: Image, posx: int, posy: int, factor: int, width: int, x: int, y: int, sxEnd: int): seq<Cell>
    requires img.Valid() && img.Contains(x, y)
    decreases sxEnd
  {
    if sxEnd <= 1 then []
    else BlockCells(img, posx, posy, factor, width, x, y, sxEnd - 1) + ColumnCells(img, posx, posy, factor, width, x, y, sxEnd - 1, factor + 1)
  }

  /** The blocks of pixels minX .. xEnd - 1 of line `y`, in drawing order. */
  function ScaledRowCells(img: Image, posx: int, posy: int, factor: int, width: int, y: int, xEnd: int): seq<Cell>
    requires img.Valid() && img.minY <= y < img.MaxY() && xEnd <= img.MaxX()
    decreases xEnd - img.minX
  {
    if xEnd <= img.minX then []
    else ScaledRowCells(img, posx, posy, factor, width, y, xEnd - 1) + BlockCells(img, posx, posy, factor, width, xEnd - 1, y, factor + 1)
  }

  /** The blocks of lines minY .. yEnd - 1, in drawing order. */
  function ScaledCells(img: Image, posx: int, posy: int, factor: int, width: int, yEnd: int): seq<Cell>
    requires img.Valid() && yEnd <= img.MaxY()
    decreases yEnd - img.minY
  {
    if yEnd <= img.minY then []
    else ScaledCells(img, posx, posy, factor, width, yEnd - 1) + ScaledRowCells(img, posx, posy, factor, width, yEnd - 1, img.MaxX())
  }

  /** Every copy of every pixel of `img` lies inside a frame of `length` bytes. */
  ghost predicate ScaledFits(length: int, img: Image, posx: int, posy: int, factor: int, width: int, bpp: int) {
    forall x, y, sx, sy :: img.Contains(x, y) && 1 <= sx <= factor && 1 <= sy <= factor ==>
      InFrame(length, bpp, ScaledPos(posx, posy, factor, width, x, y, sx, sy))
  }

  /** The buffer `s` after drawing `img` at (posx, posy), scaled by `factor`. */
  function ScaledDrawn(s: seq<byte>, img: Image, posx: int, posy: int, factor: int, width: int, bpp: int): seq<byte>
    requires img.Valid()
  {
    Apply(s, CellWrites(ScaledCells(img, posx, posy, factor, width, img.MaxY()), bpp))
  }

  /** Writes every pixel of `img` into `buf` as a factor x factor block: copy
      (sx, sy) of pixel (x, y) at byte offset
      (posx + x * factor + (posy + y * factor + sy) * width + sx) * bpp. */
  method DrawScaledOnBufAt(buf: array<byte>, img: Image, posx: int, posy: int, factor: int, width: int, bpp: int)
    requires img.Valid()
    requires ScaledFits(buf.Length, img, posx, posy, factor, width, bpp)
    modifies buf
    ensures buf[..] == ScaledDrawn(old(buf[..]), img, posx, posy, factor, width, bpp)
  {
    ghost var before := buf[..];
    ghost var done: seq<Cell> := [];
    var y := img.minY;
    while y < img.MaxY()
      invariant img.minY <= y <= img.MaxY()
      invariant done == ScaledCells(img, posx, posy, factor, width, y)
      invariant buf[..] == Apply(before, CellWrites(done, bpp))
    {
      var x := img.minX;
      while x < img.MaxX()
        invariant img.minX <= x <= img.MaxX()
        invariant done == ScaledCells(img, posx, posy, factor, width, y) + ScaledRowCells(img, posx, posy, factor, width, y, x)
        invariant buf[..] == Apply(before, CellWrites(done, bpp))
      {
        ghost var block := BlockCells(img, posx, posy, factor, width, x, y, factor + 1);
        DrawBlock(buf, img, posx, posy, factor, width, bpp, x, y);
        ApplyCells(before, done, block, bpp);
        ScaledRowCellsStep(img, posx, posy, factor, width, y, x);
        done := done + block;
        x := x + 1;
      }
      ScaledRowCellsDone(img, posx, posy, factor, width, y);
      y := y + 1;
    }
  }

  /** The two inner loops of DrawScaledOnBufAt: the factor x factor copies of
      pixel (x, y), column by column. */
  method DrawBlock(buf: array<byte>, img: Image, posx: int, posy: int, factor: int, width: int, bpp: int, x: int, y: int)
    requires img.Valid() && img.Contains(x, y)
    requires ScaledFits(buf.Length, img, posx, posy, factor, width, bpp)
    modifies buf
    ensures buf[..] == Apply(old(buf[..]), CellWrites(BlockCells(img, posx, posy, factor, width, x, y, factor + 1), bpp))
  {
    ghost var blockStart := buf[..];
    var sx := 1;
    while sx <= factor
      invariant 1 <= sx && (sx <= factor + 1 || sx == 1)
      invariant buf[..] == Apply(blockStart, CellWrites(BlockCells(img, posx, posy, factor, width, x, y, sx), bpp))
    {
      DrawColumn(buf, img, posx, posy, factor, width, bpp, x, y, sx);
      BlockCellsStep(blockStart, img, posx, posy, factor, width, bpp, x, y, sx);
      sx := sx + 1;
    }
  }

  /** The innermost loop of DrawScaledOnBufAt: copies (sx, 1) .. (sx, factor)
      of pixel (x, y), one line of the frame apart. */
  method DrawColumn(buf: array<byte>, img: Image, posx: int, posy: int, factor: int, width: int, bpp: int, x: int, y: int, sx: int)
    requires img.Valid() && img.Contains(x, y) && 1 <= sx <= factor
    requires ScaledFits(buf.Length, img, posx, posy, factor, width, bpp)
    modifies buf
    ensures buf[..] == Apply(old(buf[..]), CellWrites(ColumnCells(img, posx, posy, factor, width, x, y, sx, factor + 1), bpp))
  {
    ghost var columnStart := buf[..];
    ghost var done: seq<Cell> := [];
    var p := img.At(x, y);
    var sy := 1;
    while sy <= factor
      invariant 1 <= sy <= factor + 1
      invariant done == ColumnCells(img, posx, posy, factor, width, x, y, sx, sy)
      invariant buf[..] == Apply(columnStart, CellWrites(done, bpp))
    {
      var offset := (posx + x * factor + (posy + y * factor + sy) * width + sx) * bpp;
      ghost var cell := Cell(ScaledPos(posx, posy, factor, width, x, y, sx, sy), p);
      ScaledOffsetInFrame(buf.Length, img, posx, posy, factor, width, bpp, x, y, sx, sy);
      PutPixel(buf, offset, p, bpp);
      AppendCell(columnStart, done, cell, bpp);
      done := done + [cell];
      sy := sy + 1;
    }
  }

  /** Performing the writes of two lists of pixels one after the other. */
  lemma {:induction false} ApplyCells(s: seq<byte>, a: seq<Cell>, b: seq<Cell>, bpp: int)
    ensures Apply(s, CellWrites(a + b, bpp)) == Apply(Apply(s, CellWrites(a, bpp)), CellWrites(b, bpp))
    decreases |b|
  {
    if b == [] {
      assert a + b == a;
    } else {
      var n := |b| - 1;
      var last := b[n];
      ApplyCells(s, a, b[..n], bpp);
      assert (a + b)[..|a + b| - 1] == a + b[..n];
      var pw := PixelWrites(bpp * last.pos, last.pixel, bpp);
      ApplyAppend(s, CellWrites(a + b[..n], bpp), pw);
      ApplyAppend(Apply(s, CellWrites(a, bpp)), CellWrites(b[..n], bpp), pw);
    }
  }

  /** The offset of copy (sx, sy) of pixel (x, y), as the source computes
      it, is the first byte of that copy's slot, and the slot lies in the
      frame. */
  lemma ScaledOffsetInFrame(length: int, img: Image, posx: int, posy: int, factor: int, width: int, bpp: int,
                            x: int, y: int, sx: int, sy: int)
    requires ScaledFits(length, img, posx, posy, factor, width, bpp)
    requires img.Contains(x, y) && 1 <= sx <= factor && 1 <= sy <= factor
    ensures (posx + x * factor + (posy + y * factor + sy) * width + sx) * bpp == bpp * ScaledPos(posx, posy, factor, width, x, y, sx, sy)
    ensures 0 <= bpp * ScaledPos(posx, posy, factor, width, x, y, sx, sy)
    ensures bpp * ScaledPos(posx, posy, factor, width, x, y, sx, sy) + Channels(bpp) <= length
  {
    assert InFrame(length, bpp, ScaledPos(posx, posy, factor, width, x, y, sx, sy));
  }

  lemma BlockCellsStep(s: seq<byte>, img: Image, posx: int, posy: int, factor: int, width: int, bpp: int, x: int, y: int, sx: int)
    requires img.Valid() && img.Contains(x, y) && 1 <= sx
    ensures Apply(s, CellWrites(BlockCells(img, posx, posy, factor, width, x, y, sx + 1), bpp)) ==
            Apply(Apply(s, CellWrites(BlockCells(img, posx, posy, factor, width, x, y, sx), bpp)),
                  CellWrites(ColumnCells(img, posx, posy, factor, width, x, y, sx, factor + 1), bpp))
  {
    ApplyCells(s, BlockCells(img, posx, posy, factor, width, x, y, sx), ColumnCells(img, posx, posy, factor, width, x, y, sx, factor + 1), bpp);
  }

  lemma ScaledRowCellsStep(img: Image, posx: int, posy: int, factor: int, width: int, y: int, x: int)
    requires img.Valid() && img.Contains(x, y)
    ensures ScaledCells(img, posx, posy, factor, width, y) + ScaledRowCells(img, posx, posy, factor, width, y, x + 1) ==
            ScaledCells(img, posx, posy, factor, width, y) + ScaledRowCells(img, posx, posy, factor, width, y, x) + BlockCells(img, posx, posy, factor, width, x, y, factor + 1)
  {
  }

  lemma ScaledRowCellsDone(img: Image, posx: int, posy: int, factor: int, width: int, y: int)
    requires img.Valid() && img.minY <= y < img.MaxY()
    ensures ScaledCells(img, posx, posy, factor, width, y) + ScaledRowCells(img, posx, posy, factor, width, y, img.MaxX()) == ScaledCells(img, posx, posy, factor, width, y + 1)
  {
  }

  // ---------------------------------------------------------------------
  // What the scaled drawing leaves in the buffer.

  /** `cell` is copy (sx, sy) of some pixel of `img`. */
  ghost predicate ScaledPlaced(img: Image, posx: int, posy: int, factor: int, width: int, cell: Cell)
    requires img.Valid()
  {
    exists x, y, sx, sy :: img.Contains(x, y) && 1 <= sx <= factor && 1 <= sy <= factor &&
      cell == Cell(ScaledPos(posx, posy, factor, width, x, y, sx, sy), img.At(x, y))
  }

  lemma {:induction false} ColumnCellsPlaced(img: Image, posx: int, posy: int, factor: int, width: int, x: int, y: int, sx: int, syEnd: int)
    requires img.Valid() && img.Contains(x, y) && 1 <= sx <= factor && syEnd <= factor + 1
    ensures forall i :: 0 <= i < |ColumnCells(img, posx, posy, factor, width, x, y, sx, syEnd)| ==>
      ScaledPlaced(img, posx, posy, factor, width, ColumnCells(img, posx, posy, factor, width, x, y, sx, syEnd)[i])
    ensures forall sy :: 1 <= sy < syEnd ==>
      Cell(ScaledPos(posx, posy, factor, width, x, y, sx, sy), img.At(x, y)) in ColumnCells(img, posx, posy, factor, width, x, y, sx, syEnd)
    decreases syEnd
  {
    if syEnd > 1 {
      ColumnCellsPlaced(img, posx, posy, factor, width, x, y, sx, syEnd - 1);
      var earlier := ColumnCells(img, posx, posy, factor, width, x, y, sx, syEnd - 1);
      var cell := Cell(ScaledPos(posx, posy, factor, width, x, y, sx, syEnd - 1), img.At(x, y));
      var cells := ColumnCells(img, posx, posy, factor, width, x, y, sx, syEnd);
      assert cells == earlier + [cell];
      assert ScaledPlaced(img, posx, posy, factor, width, cell);
      forall i | 0 <= i < |cells|
        ensures ScaledPlaced(img, posx, posy, factor, width, cells[i])
      {
        if i < |earlier| {
          assert cells[i] == earlier[i];
        }
      }
      forall sy | 1 <= sy < syEnd
        ensures Cell(ScaledPos(posx, posy, factor, width, x, y, sx, sy), img.At(x, y)) in cells
      {
        if sy < syEnd - 1 {
          assert Cell(ScaledPos(posx, posy, factor, width, x, y, sx, sy), img.At(x, y)) in earlier;
        }
      }
    }
  }

  lemma {:induction false} BlockCellsPlaced(img: Image, posx: int, posy: int, factor: int, width: int, x: int, y: int, sxEnd: int)
    requires img.Valid() && img.Contains(x, y) && sxEnd <= factor + 1
    ensures forall i :: 0 <= i < |BlockCells(img, posx, posy, factor, width, x, y, sxEnd)| ==>
      ScaledPlaced(img, posx, posy, factor, width, BlockCells(img, posx, posy, factor, width, x, y, sxEnd)[i])
    ensures forall sx, sy :: 1 <= sx < sxEnd && 1 <= sy <= factor ==>
      Cell(ScaledPos(posx, posy, factor, width, x, y, sx, sy), img.At(x, y)) in BlockCells(img, posx, posy, factor, width, x, y, sxEnd)
    decreases sxEnd
  {
    if sxEnd > 1 {
      BlockCellsPlaced(img, posx, posy, factor, width, x, y, sxEnd - 1);
      ColumnCellsPlaced(img, posx, posy, factor, width, x, y, sxEnd - 1, factor + 1);
      var earlier := BlockCells(img, posx, posy, factor, width, x, y, sxEnd - 1);
      var column := ColumnCells(img, posx, posy, factor, width, x, y, sxEnd - 1, factor + 1);
      var cells := BlockCells(img, posx, posy, factor, width, x, y, sxEnd);
      assert cells == earlier + column;
      forall i | 0 <= i < |cells|
        ensures ScaledPlaced(img, posx, posy, factor, width, cells[i])
      {
        if i < |earlier| {
          assert cells[i] == earlier[i];
        } else {
          assert cells[i] == column[i - |earlier|];
        }
      }
      forall sx, sy | 1 <= sx < sxEnd && 1 <= sy <= factor
        ensures Cell(ScaledPos(posx, posy, factor, width, x, y, sx, sy), img.At(x, y)) in cells
      {
        var cell := Cell(ScaledPos(posx, posy, factor, width, x, y, sx, sy), img.At(x, y));
        if sx < sxEnd - 1 {
          assert cell in earlier;
        } else {
          assert cell in column;
        }
      }
    }
  }

  lemma {:induction false} ScaledRowCellsPlaced(img: Image, posx: int, posy: int, factor: int, width: int, y: int, xEnd: int)
    requires img.Valid() && img.minY <= y < img.MaxY() && xEnd <= img.MaxX()
    ensures forall i :: 0 <= i < |ScaledRowCells(img, posx, posy, factor, width, y, xEnd)| ==>
      ScaledPlaced(img, posx, posy, factor, width, ScaledRowCells(img, posx, posy, factor, width, y, xEnd)[i])
    ensures forall x, sx, sy :: img.minX <= x < xEnd && 1 <= sx <= factor && 1 <= sy <= factor ==>
      Cell(ScaledPos(posx, posy, factor, width, x, y, sx, sy), img.At(x, y)) in ScaledRowCells(img, posx, posy, factor, width, y, xEnd)
    decreases xEnd - img.minX
  {
    if xEnd > img.minX {
      ScaledRowCellsPlaced(img, posx, posy, factor, width, y, xEnd - 1);
      BlockCellsPlaced(img, posx, posy, factor, width, xEnd - 1, y, factor + 1);
      var earlier := ScaledRowCells(img, posx, posy, factor, width, y, xEnd - 1);
      var block := BlockCells(img, posx, posy, factor, width, xEnd - 1, y, factor + 1);
      var cells := ScaledRowCells(img, posx, posy, factor, width, y, xEnd);
      assert cells == earlier + block;
      forall i | 0 <= i < |cells|
        ensures ScaledPlaced(img, posx, posy, factor, width, cells[i])
      {
        if i < |earlier| {
          assert cells[i] == earlier[i];
        } else {
          assert cells[i] == block[i - |earlier|];
        }
      }
      forall x, sx, sy | img.minX <= x < xEnd && 1 <= sx <= factor && 1 <= sy <= factor
        ensures Cell(ScaledPos(posx, posy, factor, width, x, y, sx, sy), img.At(x, y)) in cells
      {
        var cell := Cell(ScaledPos(posx, posy, factor, width, x, y, sx, sy), img.At(x, y));
        if x < xEnd - 1 {
          assert cell in earlier;
        } else {
          assert cell in block;
        }
      }
    }
  }

  lemma {:induction false} ScaledCellsPlaced(img: Image, posx: int, posy: int, factor: int, width: int, yEnd: int)
    requires img.Valid() && yEnd <= img.MaxY()
    ensures forall i :: 0 <= i < |ScaledCells(img, posx, posy, factor, width, yEnd)| ==>
      ScaledPlaced(img, posx, posy, factor, width, ScaledCells(img, posx, posy, factor, width, yEnd)[i])
    ensures forall x, y, sx, sy :: img.Contains(x, y) && y < yEnd && 1 <= sx <= factor && 1 <= sy <= factor ==>
      Cell(ScaledPos(posx, posy, factor, width, x, y, sx, sy), img.At(x, y)) in ScaledCells(img, posx, posy, factor, width, yEnd)
    decreases yEnd - img.minY
  {
    if yEnd > img.minY {
      ScaledCellsPlaced(img, posx, posy, factor, width, yEnd - 1);
      ScaledRowCellsPlaced(img, posx, posy, factor, width, yEnd - 1, img.MaxX());
      var earlier := ScaledCells(img, posx, posy, factor, width, yEnd - 1);
      var row := ScaledRowCells(img, posx, posy, factor, width, yEnd - 1, img.MaxX());
      var cells := ScaledCells(img, posx, posy, factor, width, yEnd);
      assert cells == earlier + row;
      forall i | 0 <= i < |cells|
        ensures ScaledPlaced(img, posx, posy, factor, width, cells[i])
      {
        if i < |earlier| {
          assert cells[i] == earlier[i];
        } else {
          assert cells[i] == row[i - |earlier|];
        }
      }
      forall x, y, sx, sy | img.Contains(x, y) && y < yEnd && 1 <= sx <= factor && 1 <= sy <= factor
        ensures Cell(ScaledPos(posx, posy, factor, width, x, y, sx, sy), img.At(x, y)) in cells
      {
        var cell := Cell(ScaledPos(posx, posy, factor, width, x, y, sx, sy), img.At(x, y));
        if y < yEnd - 1 {
          assert cell in earlier;
        } else {
          assert y == yEnd - 1;
          assert cell == Cell(ScaledPos(posx, posy, factor, width, x, yEnd - 1, sx, sy), img.At(x, yEnd - 1));
        }
      }
    }
  }

  lemma MulMonotone(a: int, b: int, k: int)
    requires a <= b && k >= 0
    ensures a * k <= b * k
  {
    if a < b {
      MulAtLeast(b - a, k);
      assert (b - a) * k == b * k - a * k;
    }
  }

  /** Within one line of the image, two copies lie less than
      factor * w columns apart. */
  lemma ColumnSpan(img: Image, factor: int, x1: int, sx1: int, x2: int, sx2: int)
    requires img.minX <= x1 < img.MaxX() && img.minX <= x2 < img.MaxX()
    requires 1 <= sx1 <= factor && 1 <= sx2 <= factor
    ensures -(factor * img.w) < (x1 * factor + sx1) - (x2 * factor + sx2) < factor * img.w
  {
    MulMonotone(x1 - x2, img.w - 1, factor);
    MulMonotone(x2 - x1, img.w - 1, factor);
    assert (x1 * factor + sx1) - (x2 * factor + sx2) == (x1 - x2) * factor + (sx1 - sx2);
    assert (img.w - 1) * factor == factor * img.w - factor;
  }

  /** When the scaled image fits in a line of the screen, no two copies of
      different pixels share a position. */
  lemma ScaledPosDistinct(img: Image, posx: int, posy: int, factor: int, width: int,
                          x1: int, y1: int, sx1: int, sy1: int, x2: int, y2: int, sx2: int, sy2: int)
    requires img.Valid() && img.Contains(x1, y1) && img.Contains(x2, y2)
    requires 1 <= sx1 <= factor && 1 <= sy1 <= factor && 1 <= sx2 <= factor && 1 <= sy2 <= factor
    requires factor * img.w <= width
    requires ScaledPos(posx, posy, factor, width, x1, y1, sx1, sy1) == ScaledPos(posx, posy, factor, width, x2, y2, sx2, sy2)
    ensures x1 == x2 && y1 == y2 && sx1 == sx2 && sy1 == sy2
  {
    ColumnSpan(img, factor, x1, sx1, x2, sx2);
    SameRow(width, posy + y1 * factor + sy1, posx + x1 * factor + sx1, posy + y2 * factor + sy2, posx + x2 * factor + sx2);
    SameRow(factor, x1, sx1 - 1, x2, sx2 - 1);
    SameRow(factor, y1, sy1 - 1, y2, sy2 - 1);
  }

  /** When the scaled image is no wider than the screen and a pixel takes at
      least three bytes, every copy of pixel (x, y) holds that pixel. */
  lemma ScaledPlacesPixel(s: seq<byte>, img: Image, posx: int, posy: int, factor: int, width: int, bpp: int,
                          x: int, y: int, sx: int, sy: int, c: nat)
    requires img.Valid() && img.Contains(x, y) && 1 <= sx <= factor && 1 <= sy <= factor
    requires factor * img.w <= width && bpp >= 3 && c < Channels(bpp)
    requires 0 <= Slot(bpp, ScaledPos(posx, posy, factor, width, x, y, sx, sy), c) < |s|
    ensures ScaledDrawn(s, img, posx, posy, factor, width, bpp)[Slot(bpp, ScaledPos(posx, posy, factor, width, x, y, sx, sy), c)] ==
            Channel(img.At(x, y), c)
  {
    var cells := ScaledCells(img, posx, posy, factor, width, img.MaxY());
    var pos, p := ScaledPos(posx, posy, factor, width, x, y, sx, sy), img.At(x, y);
    ScaledCellsPlaced(img, posx, posy, factor, width, img.MaxY());
    forall i | 0 <= i < |cells| && cells[i].pos == pos ensures cells[i].pixel == p {
      var x', y', sx', sy' :| img.Contains(x', y') && 1 <= sx' <= factor && 1 <= sy' <= factor &&
        cells[i] == Cell(ScaledPos(posx, posy, factor, width, x', y', sx', sy'), img.At(x', y'));
      ScaledPosDistinct(img, posx, posy, factor, width, x', y', sx', sy', x, y, sx, sy);
    }
    PlacedPixelLands(cells, bpp, pos, p, c);
    ApplyIsLastWrite(s, CellWrites(cells, bpp), Slot(bpp, pos, c));
  }

  /** A byte that lies in no copy of any pixel keeps its value. */
  lemma ScaledLeavesOtherBytes(s: seq<byte>, img: Image, posx: int, posy: int, factor: int, width: int, bpp: int, k: int)
    requires img.Valid() && 0 <= k < |s|
    requires forall x, y, sx, sy, c :: img.Contains(x, y) && 1 <= sx <= factor && 1 <= sy <= factor && 0 <= c < Channels(bpp) ==>
      Slot(bpp, ScaledPos(posx, posy, factor, width, x, y, sx, sy), c) != k
    ensures ScaledDrawn(s, img, posx, posy, factor, width, bpp)[k] == s[k]
  {
    var cells := ScaledCells(img, posx, posy, factor, width, img.MaxY());
    ScaledCellsPlaced(img, posx, posy, factor, width, img.MaxY());
    forall i, c | 0 <= i < |cells| && 0 <= c < Channels(bpp) ensures Slot(bpp, cells[i].pos, c) != k {
      var x, y, sx, sy :| img.Contains(x, y) && 1 <= sx <= factor && 1 <= sy <= factor &&
        cells[i] == Cell(ScaledPos(posx, posy, factor, width, x, y, sx, sy), img.At(x, y));
    }
    OutsideCellsNotWritten(cells, bpp, k);
    ApplyIsLastWrite(s, CellWrites(cells, bpp), k);
  }

  lemma {:induction false} ScaledCellsWithoutFactor(img: Image, posx: int, posy: int, factor: int, width: int, yEnd: int)
    requires img.Valid() && yEnd <= img.MaxY() && factor <= 0
    ensures ScaledCells(img, posx, posy, factor, width, yEnd) == []
    decreases yEnd - img.minY
  {
    if yEnd > img.minY {
      ScaledCellsWithoutFactor(img, posx, posy, factor, width, yEnd - 1);
      ScaledRowCellsWithoutFactor(img, posx, posy, factor, width, yEnd - 1, img.MaxX());
    }
  }

  lemma {:induction false} ScaledRowCellsWithoutFactor(img: Image, posx: int, posy: int, factor: int, width: int, y: int, xEnd: int)
    requires img.Valid() && img.minY <= y < img.MaxY() && xEnd <= img.MaxX() && factor <= 0
    ensures ScaledRowCells(img, posx, posy, factor, width, y, xEnd) == []
    decreases xEnd - img.minX
  {
    if xEnd > img.minX {
      ScaledRowCellsWithoutFactor(img, posx, posy, factor, width, y, xEnd - 1);
    }
  }

  /** A factor below one draws nothing: the buffer is left as it was. */
  lemma ScaledWithoutFactor(s: seq<byte>, img: Image, posx: int, posy: int, factor: int, width: int, bpp: int)
    requires img.Valid() && factor <= 0
    ensures ScaledDrawn(s, img, posx, posy, factor, width, bpp) == s
  {
    ScaledCellsWithoutFactor(img, posx, posy, factor, width, img.MaxY());
  }

  lemma {:induction false} ScaledRowCellsUnit(img: Image, posx: int, posy: int, width: int, y: int, xEnd: int)
    requires img.Valid() && img.minY <= y < img.MaxY() && xEnd <= img.MaxX()
    ensures ScaledRowCells(img, posx, posy, 1, width, y, xEnd) == RowCells(img, posx + 1, posy + 1, width, y, xEnd)
    decreases xEnd - img.minX
  {
    if xEnd > img.minX {
      ScaledRowCellsUnit(img, posx, posy, width, y, xEnd - 1);
      var x := xEnd - 1;
      assert BlockCells(img, posx, posy, 1, width, x, y, 2) == ColumnCells(img, posx, posy, 1, width, x, y, 1, 2);
      assert ScaledPos(posx, posy, 1, width, x, y, 1, 1) == DrawPos(posx + 1, posy + 1, width, x, y);
    }
  }

  lemma {:induction false} ScaledCellsUnit(img: Image, posx: int, posy: int, width: int, yEnd: int)
    requires img.Valid() && yEnd <= img.MaxY()
    ensures ScaledCells(img, posx, posy, 1, width, yEnd) == DrawCells(img, posx + 1, posy + 1, width, yEnd)
    decreases yEnd - img.minY
  {
    if yEnd > img.minY {
      ScaledCellsUnit(img, posx, posy, width, yEnd - 1);
      ScaledRowCellsUnit(img, posx, posy, width, yEnd - 1, img.MaxX());
    }
  }

  /** Scaling by one is plain drawing, one column right and one line down:
      the copy loops start at one, and their counters are added to the
      position. */
  lemma ScaledUnitIsShiftedDraw(s: seq<byte>, img: Image, posx: int, posy: int, width: int, bpp: int)
    requires img.Valid()
    ensures ScaledDrawn(s, img, posx, posy, 1, width, bpp) == Drawn(s, img, posx + 1, posy + 1, width, bpp)
  {
    ScaledCellsUnit(img, posx, posy, width, img.MaxY());
  }
}
