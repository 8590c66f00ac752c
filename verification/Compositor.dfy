/** Painter's compositing of windows into the off-screen buffer, and its agreement with hit testing. */
module Compositor {
  import opened Bytes
  import opened Windows
  import opened Wrappers

  /** One buffer cell of four bytes. */
  datatype Pixel = Pixel(b: byte, g: byte, r: byte, x: byte)

  function Rgb(r: byte, g: byte, b: byte): Pixel { Pixel(b, g, r, 0) }

  function Desktop(): Pixel { Rgb(0x0b, 0x12, 0x2a) }

  function DarkBackground(): Pixel { Rgb(0x0f, 0x17, 0x24) }

  function BorderColor(w: Window): Pixel { if w.focused then Rgb(0x33, 0x44, 0x55) else Rgb(0x22, 0x2a, 0x35) }

  function TitleColor(w: Window): Pixel { if w.focused then Rgb(0x2d, 0x5a, 0x9e) else Rgb(0x1e, 0x29, 0x3b) }

  function LogoColor(w: Window): Pixel { if w.focused then Rgb(0xff, 0xbf, 0x00) else Rgb(0x80, 0x80, 0x80) }

  predicate InRect(px: int, py: int, x: int, y: int, w: nat, h: nat) {
    x <= px < x + w && y <= py < y + h
  }

  /** The one-pixel frame of a window. */
  predicate OnOutline(w: Window, px: int, py: int) {
    Contains(w, px, py) && (px == w.x || px == w.x + FullWidth(w) - 1 || py == w.y || py == w.y + FullHeight(w) - 1)
  }

  predicate InTitle(w: Window, px: int, py: int) { InRect(px, py, w.x + 1, w.y + 1, FullWidth(w) - 2, TITLE_BAR) }

  predicate InLogo(w: Window, px: int, py: int) { InRect(px, py, w.x + 4, w.y + 6, 12, 12) }

  predicate InContent(w: Window, px: int, py: int) { InRect(px, py, w.x + BORDER, w.y + TITLE_BAR, w.width, w.height) }

  /** Where the content buffer keeps the pixel of a row and column. */
  function SourceAt(w: Window, row: nat, col: nat): nat { (row * w.width + col) * 4 }

  function SourcePixel(w: Window, row: nat, col: nat): Option<Pixel> {
    var o := SourceAt(w, row, col);
    if o + 4 > |w.content| then None
    else Some(Pixel(w.content[o], w.content[o + 1], w.content[o + 2], w.content[o + 3]))
  }

  function ContentAt(w: Window, px: int, py: int): Option<Pixel> {
    if !InContent(w, px, py) then None
    else if w.content == [] then Some(DarkBackground())
    else SourcePixel(w, py - w.y - TITLE_BAR, px - w.x - BORDER)
  }

  /** The last colour a window leaves at a point, if it paints there. */
  function PaintAt(w: Window, px: int, py: int): Option<Pixel> {
    if ContentAt(w, px, py).Some? then ContentAt(w, px, py)
    else if InLogo(w, px, py) then Some(LogoColor(w))
    else if InTitle(w, px, py) then Some(TitleColor(w))
    else if OnOutline(w, px, py) then Some(BorderColor(w))
    else None
  }

  /** A list of windows painted one over the other. */
  function Painted(ws: seq<Window>, px: int, py: int): Pixel {
    if ws == [] then Desktop()
    else
      var top := PaintAt(ws[|ws| - 1], px, py);
      if top.Some? then top.value else Painted(ws[..|ws| - 1], px, py)
  }

  /** The colours as the four bytes of a cell, lowest address first: blue, green, red, padding. */
  lemma Palette(w: Window)
    ensures Desktop() == Pixel(42, 18, 11, 0) && DarkBackground() == Pixel(36, 23, 15, 0)
    ensures w.focused ==> BorderColor(w) == Pixel(85, 68, 51, 0) && TitleColor(w) == Pixel(158, 90, 45, 0) && LogoColor(w) == Pixel(0, 191, 255, 0)
    ensures !w.focused ==>
              BorderColor(w) == Pixel(53, 42, 34, 0) && TitleColor(w) == Pixel(59, 41, 30, 0) && LogoColor(w) == Pixel(128, 128, 128, 0)
  {
  }

  /** A window shows its content row by row, four bytes a pixel, from 2 right and 24 below its corner. */
  lemma ContentShown(w: Window, row: nat, col: nat)
    requires row < w.height && col < w.width && 4 * (row * w.width + col) + 4 <= |w.content|
    ensures var o := 4 * (row * w.width + col);
            PaintAt(w, w.x + 2 + col, w.y + 24 + row)
            == Some(Pixel(w.content[o], w.content[o + 1], w.content[o + 2], w.content[o + 3]))
  {
  }

  /** A window's decoration, where it shows: the logo, 12 by 12, from 4 right and 6 below the corner, the title bar around
      it, and a frame one pixel wide all around, of which the logo hides a part when the content is just 12 wide. */
  lemma Decoration(w: Window, px: int, py: int)
    requires w.width >= 12
    ensures w.x + 4 <= px < w.x + 16 && w.y + 6 <= py < w.y + 18 ==> PaintAt(w, px, py) == Some(LogoColor(w))
    ensures w.x < px < w.x + w.width + 3 && w.y < py < w.y + 24 && !(w.x + 4 <= px < w.x + 16 && w.y + 6 <= py < w.y + 18) ==>
              PaintAt(w, px, py) == Some(TitleColor(w))
    ensures w.width > 12 && Contains(w, px, py) && (px == w.x || px == w.x + w.width + 3 || py == w.y || py == w.y + w.height + 27) ==>
              PaintAt(w, px, py) == Some(BorderColor(w))
  {
  }

  class Screen {
    const width: nat
    const height: nat
    const buf: array<Pixel>

    constructor (width: nat, height: nat, capacity: nat)
      ensures this.width == width && this.height == height && fresh(buf) && buf.Length == capacity
    {
      this.width, this.height := width, height;
      buf := new Pixel[capacity](_ => Pixel(0, 0, 0, 0));
    }

    /** On screen, and inside the buffer. */
    predicate Visible(x: int, y: int) {
      0 <= x < width && 0 <= y < height && y * width + x < buf.Length
    }

    ghost function Shown(x: int, y: int): Pixel
      requires Visible(x, y)
      reads buf
    {
      buf[y * width + x]
    }

    method PutPixel(x: int, y: int, c: Pixel)
      modifies buf
      ensures forall px, py | Visible(px, py) :: Shown(px, py) == if px == x && py == y then c else old(Shown(px, py))
    {
      if x < 0 || y < 0 || x >= width || y >= height || y * width + x >= buf.Length {
        return;
      }
      buf[y * width + x] := c;
      forall px, py | Visible(px, py)
        ensures Shown(px, py) == if px == x && py == y then c else old(Shown(px, py))
      {
        if py * width + px == y * width + x {
          SameCell(width, px, py, x, y);
        }
      }
    }

    method FillRow(x: int, y: int, w: nat, c: Pixel)
      modifies buf
      ensures forall px, py | Visible(px, py) ::
                Shown(px, py) == if InRect(px, py, x, y, w, 1) then c else old(Shown(px, py))
    {
      hide Visible, Shown;
      var px := x;
      while px < x + w
        invariant x <= px <= x + w
        invariant forall qx, qy | Visible(qx, qy) ::
                    Shown(qx, qy) == if InRect(qx, qy, x, y, px - x, 1) then c else old(Shown(qx, qy))
      {
        PutPixel(px, y, c);
        px := px + 1;
      }
    }

    method FillRect(x: int, y: int, w: nat, h: nat, c: Pixel)
      modifies buf
      ensures forall px, py | Visible(px, py) ::
                Shown(px, py) == if InRect(px, py, x, y, w, h) then c else old(Shown(px, py))
    {
      hide Visible, Shown;
      var py := y;
      while py < y + h
        invariant y <= py <= y + h
        invariant forall qx, qy | Visible(qx, qy) ::
                    Shown(qx, qy) == if InRect(qx, qy, x, y, w, py - y) then c else old(Shown(qx, qy))
      {
        FillRow(x, py, w, c);
        py := py + 1;
      }
    }

    method DrawOutline(w: Window)
      modifies buf
      ensures forall px, py | Visible(px, py) ::
                Shown(px, py) == if OnOutline(w, px, py) then BorderColor(w) else old(Shown(px, py))
    {
      hide Visible, Shown, BorderColor;
      FillRect(w.x, w.y, FullWidth(w), 1, BorderColor(w));
      FillRect(w.x, w.y + FullHeight(w) - 1, FullWidth(w), 1, BorderColor(w));
      FillRect(w.x, w.y, 1, FullHeight(w), BorderColor(w));
      FillRect(w.x + FullWidth(w) - 1, w.y, 1, FullHeight(w), BorderColor(w));
    }

    /** One row of the content copy; it stops at the end of the buffer. */
    method BlitRow(w: Window, row: nat)
      requires row < w.height && w.content != []
      modifies buf
      ensures forall px, py | Visible(px, py) ::
                Shown(px, py) == if ContentAt(w, px, py).Some? && py == w.y + TITLE_BAR + row then ContentAt(w, px, py).value
                else old(Shown(px, py))
    {
      hide Shown, SourcePixel;
      var py := w.y + TITLE_BAR + row;
      var col := 0;
      while col < w.width
        invariant 0 <= col <= w.width
        invariant forall qx, qy | Visible(qx, qy) ::
                    Shown(qx, qy) == if qx < w.x + BORDER + col && ContentAt(w, qx, qy).Some? && qy == py
                    then ContentAt(w, qx, qy).value else old(Shown(qx, qy))
      {
        var px := w.x + BORDER + col;
        if 0 <= px < width {
          var p := SourcePixel(w, row, col);
          if p.None? {
            RowEnds(w, row, col);
            break;
          }
          PutPixel(px, py, p.value);
        }
        col := col + 1;
      }
    }

    method BlitContent(w: Window)
      requires w.content != []
      modifies buf
      ensures forall px, py | Visible(px, py) ::
                Shown(px, py) == if ContentAt(w, px, py).Some? then ContentAt(w, px, py).value else old(Shown(px, py))
    {
      hide Shown, SourcePixel;
      var row := 0;
      while row < w.height
        invariant 0 <= row <= w.height
        invariant forall qx, qy | Visible(qx, qy) ::
                    Shown(qx, qy) == if qy < w.y + TITLE_BAR + row && ContentAt(w, qx, qy).Some?
                    then ContentAt(w, qx, qy).value else old(Shown(qx, qy))
      {
        if 0 <= w.y + TITLE_BAR + row < height {
          BlitRow(w, row);
        }
        row := row + 1;
      }
    }

    /** `composite_window`. */
    method PaintWindow(w: Window)
      modifies buf
      ensures forall px, py | Visible(px, py) ::
                Shown(px, py) == if PaintAt(w, px, py).Some? then PaintAt(w, px, py).value else old(Shown(px, py))
    {
      hide Visible, Shown, SourcePixel, BorderColor, TitleColor, LogoColor, DarkBackground, OnOutline;
      DrawOutline(w);
      FillRect(w.x + 1, w.y + 1, FullWidth(w) - 2, TITLE_BAR, TitleColor(w));
      FillRect(w.x + 4, w.y + 6, 12, 12, LogoColor(w));
      if w.content == [] {
        FillRect(w.x + BORDER, w.y + TITLE_BAR, w.width, w.height, DarkBackground());
      } else {
        BlitContent(w);
      }
    }

    /** `composite`: the desktop, then the windows from the lowest to the highest. */
    method Composite(list: WindowList) returns (ghost order: seq<nat>)
      modifies buf
      ensures IsOrder(list.windows[..], order)
      ensures forall k | 0 <= k < |order| :: order[k] < list.windows.Length
      ensures forall px, py | Visible(px, py) :: Shown(px, py) == Painted(Stack(list.windows[..], order), px, py)
    {
      FillRect(0, 0, width, height, Desktop());
      ghost var ws := list.windows[..];
      var indices := list.ZOrder();
      order := indices;
      hide Shown, PaintAt, IsOrder;
      InOrder(ws, indices);
      var k := 0;
      while k < |indices|
        invariant 0 <= k <= |indices| && list.windows[..] == ws
        invariant forall px, py | Visible(px, py) :: Shown(px, py) == Painted(Stack(ws, indices[..k]), px, py)
      {
        PaintWindow(list.windows[indices[k]]);
        var next := k + 1;
        assert Stack(ws, indices[..next])[..k] == Stack(ws, indices[..k]);
        k := next;
      }
      assert indices[..k] == order;
    }
  }

  /** Draw the screen, then ask what is at a point: the window named there is the one whose paint is seen. */
  method DrawAndHit(screen: Screen, list: WindowList, px: int, py: int) returns (id: nat)
    requires list.Valid() && forall j | 0 <= j < MAX_WINDOWS && Shows(list.windows[j]) :: list.windows[j].width >= 12
    modifies screen.buf
    ensures IsHit(list.windows[..], px, py, id)
    ensures screen.Visible(px, py) && id != 0 ==>
              forall i | 0 <= i < MAX_WINDOWS && list.windows[i].id == id && PaintAt(list.windows[i], px, py).Some? ::
                screen.Shown(px, py) == PaintAt(list.windows[i], px, py).value
  {
    hide Inv, IsHit, IsOrder, PaintAt, Painted;
    ghost var ws := list.windows[..];
    ghost var order := screen.Composite(list);
    assert list.windows[..] == ws;
    id := list.HitTest(px, py);
    forall i | screen.Visible(px, py) && id != 0 && 0 <= i < MAX_WINDOWS && list.windows[i].id == id
               && PaintAt(list.windows[i], px, py).Some?
      ensures screen.Shown(px, py) == PaintAt(list.windows[i], px, py).value
    {
      assert ws[i] == list.windows[i];
      HitShows(list.State(), order, px, py, i);
    }
  }

  lemma SameCell(width: nat, x: int, y: int, x': int, y': int)
    requires 0 <= x < width && 0 <= x' < width && y * width + x == y' * width + x'
    ensures x == x' && y == y'
  {
    if y < y' {
      RowsApart(width, y, y');
    } else if y > y' {
      RowsApart(width, y', y);
    }
  }

  lemma RowsApart(width: nat, a: int, b: int)
    requires a < b
    ensures a * width + width <= b * width
  {
    assert (b - a - 1) * width >= 0;
    assert b * width == a * width + width + (b - a - 1) * width;
  }

  /** Behind the end of the content buffer nothing of the row is left. */
  lemma RowEnds(w: Window, row: nat, col: nat)
    requires SourcePixel(w, row, col).None?
    ensures forall c: nat | c >= col :: SourcePixel(w, row, c).None?
  {
  }

  function Stack(ws: seq<Window>, order: seq<nat>): (r: seq<Window>)
    requires forall k | 0 <= k < |order| :: order[k] < |ws|
    ensures |r| == |order| && forall k | 0 <= k < |order| :: r[k] == ws[order[k]]
  {
    seq(|order|, k requires 0 <= k < |order| => ws[order[k]])
  }

  lemma InOrder(ws: seq<Window>, order: seq<nat>)
    requires IsOrder(ws, order)
    ensures forall k | 0 <= k < |order| :: order[k] < |ws|
  {
  }

  /** A window paints inside its own bounds, at every point, exactly when its content is at least 12 wide:
      the logo has a fixed size. */
  lemma PaintsInsideIff(w: Window)
    ensures (forall px, py | PaintAt(w, px, py).Some? :: Contains(w, px, py)) <==> w.width >= 12
  {
    if w.width < 12 {
      var px, py := w.x + 15, w.y + 6;
      assert PaintAt(w, px, py).Some? && !Contains(w, px, py);
    } else {
      forall px, py | PaintAt(w, px, py).Some?
        ensures Contains(w, px, py)
      {
      }
    }
  }

  /** The points of a window that let the windows below shine through: two columns beside the content, the rows between
      the content and the lower edge, and content pixels that its buffer is too short for, below the title bar. */
  lemma ShowsThroughIff(w: Window, px: int, py: int)
    requires w.width >= 12 && Contains(w, px, py)
    ensures PaintAt(w, px, py).None? <==>
            && w.x < px < w.x + FullWidth(w) - 1 && w.y + TITLE_BAR < py < w.y + FullHeight(w) - 1
            && (|| px == w.x + 1 || px == w.x + FullWidth(w) - 2 || py >= w.y + TITLE_BAR + w.height
                || (w.content != [] && SourceAt(w, py - w.y - TITLE_BAR, px - w.x - BORDER) + 4 > |w.content|))
  {
    hide SourceAt;
  }

  /** If nothing above window `k` of the stack paints the point, what it paints is what shows. */
  lemma {:induction false} TopPaints(ws: seq<Window>, k: nat, px: int, py: int)
    requires k < |ws| && PaintAt(ws[k], px, py).Some?
    requires forall j | k < j < |ws| :: PaintAt(ws[j], px, py).None?
    ensures Painted(ws, px, py) == PaintAt(ws[k], px, py).value
  {
    hide PaintAt;
    var n := |ws| - 1;
    if k < n {
      TopPaints(ws[..n], k, px, py);
    }
  }

  /** The hit test agrees with the screen: where the window it reports paints, that paint is what shows. */
  lemma HitShows(d: Desk, order: seq<nat>, px: int, py: int, i: nat)
    requires Inv(d) && IsOrder(d.ws, order)
    requires forall j | 0 <= j < |d.ws| && Shows(d.ws[j]) :: d.ws[j].width >= 12
    requires i < |d.ws| && IsHit(d.ws, px, py, d.ws[i].id) && d.ws[i].id != 0 && PaintAt(d.ws[i], px, py).Some?
    ensures forall k | 0 <= k < |order| :: order[k] < |d.ws|
    ensures Painted(Stack(d.ws, order), px, py) == PaintAt(d.ws[i], px, py).value
  {
    HitIs(d, px, py, i);
    InOrder(d.ws, order);
    var k :| 0 <= k < |order| && order[k] == i;
    var stack := Stack(d.ws, order);
    forall j | k < j < |stack|
      ensures PaintAt(stack[j], px, py).None?
    {
      AboveIsHigher(d, order, k, j);
      PaintsInsideIff(stack[j]);
    }
    TopPaints(stack, k, px, py);
  }

  lemma HitIs(d: Desk, px: int, py: int, i: nat)
    requires Inv(d) && i < |d.ws| && d.ws[i].id != 0 && IsHit(d.ws, px, py, d.ws[i].id)
    ensures Topmost(d.ws, px, py, i)
  {
    var j :| 0 <= j < |d.ws| && d.ws[j].id == d.ws[i].id && Topmost(d.ws, px, py, j);
    assert j == i;
  }

  lemma AboveIsHigher(d: Desk, order: seq<nat>, a: nat, b: nat)
    requires Inv(d) && IsOrder(d.ws, order) && a < b < |order|
    ensures order[a] < |d.ws| && order[b] < |d.ws| && Shows(d.ws[order[b]]) && d.ws[order[a]].z < d.ws[order[b]].z
  {
    var x, y := order[a], order[b];
    assert x != y && Shows(d.ws[x]) && Shows(d.ws[y]);
  }
}
