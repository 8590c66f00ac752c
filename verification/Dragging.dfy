/** Input routing: cursor, focus and dragging over arbitrary event sequences. */
module Dragging {
  import opened Bytes
  import opened Windows

  datatype Cursor = Cursor(x: int, y: int, buttons: byte)

  /** `id` is 0 when nothing is dragged. */
  datatype Drag = Drag(id: nat, dx: int, dy: int)

  datatype Session = Session(desk: Desk, cursor: Cursor, drag: Drag)

  predicate Left(c: Cursor) { c.buttons % 2 == 1 }

  function Clamp(v: int, size: nat): (r: int)
    ensures size > 0 ==> 0 <= r < size
  {
    var low := if v < 0 then 0 else v;
    if low > size - 1 then size - 1 else low
  }

  /** `apply_delta`. */
  function Moved(c: Cursor, dx: int, dy: int, buttons: byte, w: nat, h: nat): Cursor {
    Cursor(Clamp(c.x + dx, w), Clamp(c.y + dy, h), buttons)
  }

  /** A press on window `hit`: focus, raise, and drag if it was on the title bar. */
  function Pressed(s: Session, hit: nat): Session {
    if hit == 0 then s.(desk := s.desk.(ws := Focus(s.desk.ws, 0)))
    else
      var desk := Raise(s.desk.(ws := Focus(s.desk.ws, hit)), hit);
      var i := Slot(desk.ws, hit);
      if i < |desk.ws| && desk.ws[i].draggable && InTitleBar(desk.ws[i], s.cursor.x, s.cursor.y)
      then Session(desk, s.cursor, Drag(hit, s.cursor.x - desk.ws[i].x, s.cursor.y - desk.ws[i].y))
      else s.(desk := desk)
  }

  /** `process_mouse`, given what the hit test reported. */
  function Mouse(s: Session, dx: int, dy: int, buttons: byte, w: nat, h: nat, hit: nat): Session {
    var s1 := s.(cursor := Moved(s.cursor, dx, dy, buttons, w, h));
    if s.drag.id != 0 then
      if !Left(s1.cursor) then s1.(drag := s.drag.(id := 0))
      else s1.(desk := Move(s.desk, s.drag.id, s1.cursor.x - s.drag.dx, s1.cursor.y - s.drag.dy))
    else if Left(s1.cursor) && !Left(s.cursor) then Pressed(s1, hit)
    else s1
  }

  datatype Event =
    | MouseEvent(dx: int, dy: int, buttons: byte, hit: nat)
    | KeyEvent
    | CreateEvent(x: int, y: int, width: nat, height: nat, content: seq<byte>)
    | DestroyEvent(id: nat)

  function Step(s: Session, e: Event, w: nat, h: nat): Session {
    match e
    case MouseEvent(dx, dy, buttons, hit) => Mouse(s, dx, dy, buttons, w, h, hit)
    case KeyEvent => s
    case CreateEvent(x, y, width, height, content) => s.(desk := Create(s.desk, x, y, width, height, content))
    case DestroyEvent(id) => s.(desk := Destroy(s.desk, id))
  }

  /** The hit a mouse event carries is the hit test's; only real windows are destroyed. */
  ghost predicate Lawful(s: Session, e: Event, w: nat, h: nat) {
    match e
    case MouseEvent(dx, dy, buttons, hit) =>
      var c := Moved(s.cursor, dx, dy, buttons, w, h);
      IsHit(s.desk.ws, c.x, c.y, hit)
    case DestroyEvent(id) => id != 0
    case _ => true
  }

  predicate OnScreen(c: Cursor, w: nat, h: nat) { 0 <= c.x < w && 0 <= c.y < h }

  /** Live windows in focus. */
  ghost predicate OneFocus(ws: seq<Window>) {
    forall i, j | 0 <= i < j < |ws| && ws[i].id != 0 && ws[j].id != 0 :: !(ws[i].focused && ws[j].focused)
  }

  /** A dragged window that still exists sits under the cursor at the recorded offset, which lies in its title bar. */
  ghost predicate Held(ws: seq<Window>, c: Cursor, d: Drag) {
    d.id != 0 ==>
      forall i | 0 <= i < |ws| && ws[i].id == d.id ::
        c.x - ws[i].x == d.dx && c.y - ws[i].y == d.dy && 0 <= d.dx < FullWidth(ws[i]) && 0 <= d.dy < TITLE_BAR
  }

  ghost predicate SessionInv(s: Session, w: nat, h: nat) {
    && Inv(s.desk) && OnScreen(s.cursor, w, h) && OneFocus(s.desk.ws)
    && s.drag.id < s.desk.nextId && Held(s.desk.ws, s.cursor, s.drag)
  }

  lemma SlotIs(d: Desk, i: nat)
    requires Inv(d) && i < |d.ws| && d.ws[i].id != 0
    ensures Slot(d.ws, d.ws[i].id) == i
  {
  }

  lemma PressedKeeps(s: Session, hit: nat, w: nat, h: nat)
    requires Inv(s.desk) && OnScreen(s.cursor, w, h) && s.drag.id == 0 && hit < s.desk.nextId
    ensures SessionInv(Pressed(s, hit), w, h)
  {
    FocusKeeps(s.desk, hit);
    var d1 := s.desk.(ws := Focus(s.desk.ws, hit));
    FocusOne(s.desk, hit);
    if hit != 0 {
      RaiseKeeps(d1, hit);
      var d2 := Raise(d1, hit);
      RaiseFocus(d1, hit);
      var i := Slot(d2.ws, hit);
      if i < |d2.ws| {
        forall j | 0 <= j < |d2.ws| && d2.ws[j].id == hit
          ensures j == i
        {
          SlotIs(d2, j);
        }
      }
    }
  }

  /** Only window `hit` is in focus, it is above every other one, and no window has moved. */
  ghost predicate BroughtUp(ws: seq<Window>, ws': seq<Window>, hit: nat) {
    && |ws'| == |ws|
    && (forall i | 0 <= i < |ws| && ws[i].id != 0 :: ws'[i].focused <==> ws[i].id == hit)
    && (forall i, j | 0 <= i < |ws| && 0 <= j < |ws| && ws[i].id == hit && hit != 0 && i != j :: ws'[j].z < ws'[i].z)
    && forall i | 0 <= i < |ws| :: ws'[i] == ws[i].(focused := ws'[i].focused, z := ws'[i].z)
                                   && (ws[i].id != hit ==> ws'[i].z == ws[i].z)
  }

  /** A press gives the window under the cursor the focus and the top place, or takes the focus from all windows. */
  lemma PressFocuses(s: Session, hit: nat)
    requires Inv(s.desk)
    ensures BroughtUp(s.desk.ws, Pressed(s, hit).desk.ws, hit) && Pressed(s, hit).cursor == s.cursor
  {
    var d1 := s.desk.(ws := Focus(s.desk.ws, hit));
    BelowNext(s.desk);
    forall i | 0 <= i < |s.desk.ws| && s.desk.ws[i].id == hit && hit != 0
      ensures Slot(d1.ws, hit) == i
    {
      FocusKeeps(s.desk, hit);
      SlotIs(d1, i);
    }
    hide Inv, Slot, InTitleBar;
  }

  /** A drag begins when the press was on the title bar of a window, and holds it where it was taken. */
  lemma PressDrags(s: Session, hit: nat, i: nat)
    requires Inv(s.desk) && i < |s.desk.ws| && s.desk.ws[i].id == hit && hit != 0
    ensures var w, d := s.desk.ws[i], Pressed(s, hit).drag;
            if w.draggable && w.x <= s.cursor.x < w.x + w.width + 4 && w.y <= s.cursor.y < w.y + 24
            then d.id == hit && w.x + d.dx == s.cursor.x && w.y + d.dy == s.cursor.y
            else d == s.drag
  {
    var d1 := s.desk.(ws := Focus(s.desk.ws, hit));
    FocusKeeps(s.desk, hit);
    SlotIs(d1, i);
    RaiseKeeps(d1, hit);
    SlotIs(Raise(d1, hit), i);
    hide Inv, Slot;
  }

  lemma MovedOnScreen(c: Cursor, dx: int, dy: int, buttons: byte, w: nat, h: nat)
    requires w > 0 && h > 0
    ensures var c' := Moved(c, dx, dy, buttons, w, h);
            c'.buttons == buttons && Follows(c.x, dx, w, c'.x) && Follows(c.y, dy, h, c'.y)
  {
  }

  /** On screen a coordinate moves by the delta; else it stops at the edge it would have left by. */
  predicate Follows(v: int, delta: int, size: nat, v': int) {
    && 0 <= v' < size
    && (0 <= v + delta < size ==> v' == v + delta)
    && (v + delta < 0 ==> v' == 0)
    && (v + delta >= size ==> v' == size - 1)
  }

  lemma FocusOne(d: Desk, id: nat)
    requires Inv(d)
    ensures OneFocus(Focus(d.ws, id))
  {
    var ws := Focus(d.ws, id);
    forall i, j | 0 <= i < j < |ws| && ws[i].id != 0 && ws[j].id != 0
      ensures !(ws[i].focused && ws[j].focused)
    {
      assert d.ws[i].id != d.ws[j].id;
    }
  }

  lemma RaiseFocus(d: Desk, id: nat)
    requires OneFocus(d.ws)
    ensures OneFocus(Raise(d, id).ws) && Raise(d, id).nextId == d.nextId
  {
  }

  lemma MoveHolds(d: Desk, c: Cursor, c': Cursor, g: Drag)
    requires Inv(d) && g.id != 0 && Held(d.ws, c, g) && OneFocus(d.ws)
    ensures var d' := Move(d, g.id, c'.x - g.dx, c'.y - g.dy);
            Held(d'.ws, c', g) && OneFocus(d'.ws) && d'.nextId == d.nextId
  {
    var d' := Move(d, g.id, c'.x - g.dx, c'.y - g.dy);
    forall i | 0 <= i < |d'.ws| && d'.ws[i].id == g.id
      ensures c'.x - d'.ws[i].x == g.dx && c'.y - d'.ws[i].y == g.dy && 0 <= g.dx < FullWidth(d'.ws[i]) && 0 <= g.dy < TITLE_BAR
    {
      SlotIs(d, i);
    }
  }

  lemma MouseKeeps(s: Session, dx: int, dy: int, buttons: byte, w: nat, h: nat, hit: nat)
    requires SessionInv(s, w, h) && w > 0 && h > 0 && hit < s.desk.nextId
    ensures SessionInv(Mouse(s, dx, dy, buttons, w, h, hit), w, h)
  {
    hide Inv, OneFocus, Held, Pressed, Move;
    var s1 := s.(cursor := Moved(s.cursor, dx, dy, buttons, w, h));
    if s.drag.id != 0 {
      MoveKeeps(s.desk, s.drag.id, s1.cursor.x - s.drag.dx, s1.cursor.y - s.drag.dy);
      MoveHolds(s.desk, s.cursor, s1.cursor, s.drag);
      NothingHeld(s.desk.ws, s1.cursor, s.drag.(id := 0));
    } else {
      PressedKeeps(s1, hit, w, h);
      NothingHeld(s.desk.ws, s1.cursor, s.drag);
    }
  }

  lemma NothingHeld(ws: seq<Window>, c: Cursor, g: Drag)
    requires g.id == 0
    ensures Held(ws, c, g)
  {
  }

  lemma HitIsKnown(d: Desk, px: int, py: int, hit: nat)
    requires Inv(d) && IsHit(d.ws, px, py, hit)
    ensures hit < d.nextId
  {
  }

  lemma CreateHolds(d: Desk, x: int, y: int, width: nat, height: nat, content: seq<byte>, c: Cursor, g: Drag)
    requires Inv(d) && OneFocus(d.ws) && Held(d.ws, c, g) && g.id < d.nextId
    ensures var d' := Create(d, x, y, width, height, content);
            OneFocus(d'.ws) && Held(d'.ws, c, g) && d.nextId <= d'.nextId
  {
  }

  lemma DestroyHolds(d: Desk, id: nat, c: Cursor, g: Drag)
    requires Inv(d) && OneFocus(d.ws) && Held(d.ws, c, g)
    ensures OneFocus(Destroy(d, id).ws) && Held(Destroy(d, id).ws, c, g) && Destroy(d, id).nextId == d.nextId
  {
  }

  /** Every event keeps the cursor on screen, at most one window focused, and the dragged window under the cursor. */
  lemma StepKeeps(s: Session, e: Event, w: nat, h: nat)
    requires SessionInv(s, w, h) && w > 0 && h > 0 && Lawful(s, e, w, h)
    ensures SessionInv(Step(s, e, w, h), w, h)
  {
    hide Inv, OneFocus, Held, IsHit, Mouse, Create, Destroy;
    match e
    case MouseEvent(dx, dy, buttons, hit) =>
      var c := Moved(s.cursor, dx, dy, buttons, w, h);
      HitIsKnown(s.desk, c.x, c.y, hit);
      MouseKeeps(s, dx, dy, buttons, w, h, hit);
    case KeyEvent =>
    case CreateEvent(x, y, width, height, content) =>
      CreateKeeps(s.desk, x, y, width, height, content);
      CreateHolds(s.desk, x, y, width, height, content, s.cursor, s.drag);
    case DestroyEvent(id) =>
      DestroyKeepsIff(s.desk, id);
      DestroyHolds(s.desk, id, s.cursor, s.drag);
  }

  function Run(s: Session, es: seq<Event>, w: nat, h: nat): Session
    decreases |es|
  {
    if es == [] then s else Run(Step(s, es[0], w, h), es[1..], w, h)
  }

  ghost predicate AllLawful(s: Session, es: seq<Event>, w: nat, h: nat)
    decreases |es|
  {
    es == [] || (Lawful(s, es[0], w, h) && AllLawful(Step(s, es[0], w, h), es[1..], w, h))
  }

  /** Over every event sequence. */
  lemma {:induction false} RunKeeps(s: Session, es: seq<Event>, w: nat, h: nat)
    requires SessionInv(s, w, h) && w > 0 && h > 0 && AllLawful(s, es, w, h)
    ensures SessionInv(Run(s, es, w, h), w, h)
    decreases |es|
  {
    if es != [] {
      hide SessionInv, Lawful, Step;
      StepKeeps(s, es[0], w, h);
      RunKeeps(Step(s, es[0], w, h), es[1..], w, h);
    }
  }

  /** The same window is dragged all along. */
  predicate DragsAlong(s: Session, es: seq<Event>, w: nat, h: nat, id: nat)
    decreases |es|
  {
    s.drag.id == id && (es == [] || DragsAlong(Step(s, es[0], w, h), es[1..], w, h, id))
  }

  lemma {:induction false} OffsetStays(s: Session, es: seq<Event>, w: nat, h: nat, id: nat)
    requires id != 0 && DragsAlong(s, es, w, h, id)
    ensures Run(s, es, w, h).drag == s.drag
    decreases |es|
  {
    if es != [] {
      OffsetStays(Step(s, es[0], w, h), es[1..], w, h, id);
      assert Step(s, es[0], w, h).drag == s.drag;
    }
  }

  /** While a live window is dragged, through any events, its distance from the cursor is constant and the cursor
      stays in its title bar. */
  lemma DragFollows(s: Session, es: seq<Event>, w: nat, h: nat, id: nat, i: nat, j: nat)
    requires SessionInv(s, w, h) && w > 0 && h > 0 && AllLawful(s, es, w, h) && id != 0 && DragsAlong(s, es, w, h, id)
    requires i < |s.desk.ws| && s.desk.ws[i].id == id
    requires j < |Run(s, es, w, h).desk.ws| && Run(s, es, w, h).desk.ws[j].id == id
    ensures var s' := Run(s, es, w, h);
            && s'.cursor.x - s'.desk.ws[j].x == s.cursor.x - s.desk.ws[i].x
            && s'.cursor.y - s'.desk.ws[j].y == s.cursor.y - s.desk.ws[i].y
            && InTitleBar(s'.desk.ws[j], s'.cursor.x, s'.cursor.y)
  {
    OffsetStays(s, es, w, h, id);
    RunKeeps(s, es, w, h);
    hide AllLawful, DragsAlong, Run, Inv, OneFocus;
    assert Held(s.desk.ws, s.cursor, s.drag);
  }

  class InputRouter {
    const list: WindowList
    const width: nat
    const height: nat
    var cursor: Cursor
    var drag: Drag

    ghost function State(): Session
      reads this, list, list.windows
    {
      Session(list.State(), cursor, drag)
    }

    ghost predicate Valid()
      reads this, list, list.windows
    {
      list.Valid() && width > 0 && height > 0 && SessionInv(State(), width, height)
    }

    constructor (windows: WindowList, width: nat, height: nat)
      requires windows.Valid() && width > 0 && height > 0 && OneFocus(windows.windows[..])
      ensures Valid() && list == windows && this.width == width && this.height == height && drag.id == 0
    {
      list := windows;
      this.width, this.height := width, height;
      cursor, drag := Cursor(width / 2, height / 2, 0), Drag(0, 0, 0);
    }

    /** `process_mouse`: the window that receives the event. `hit` is what the hit test said, if it was asked. */
    method ProcessMouse(dx: int, dy: int, buttons: byte) returns (target: nat, ghost hit: nat)
      requires Valid()
      modifies this, list, list.windows
      ensures Valid() && State() == Mouse(old(State()), dx, dy, buttons, width, height, hit)
      ensures IsHit(old(list.windows[..]), cursor.x, cursor.y, hit)
      ensures target == if old(drag).id == 0 then hit else if Left(cursor) then old(drag).id else 0
      ensures cursor.buttons == buttons
      ensures Follows(old(cursor).x, dx, width, cursor.x) && Follows(old(cursor).y, dy, height, cursor.y)
      ensures old(drag).id == 0 && Left(cursor) && !Left(old(cursor)) ==>
                BroughtUp(old(list.windows[..]), list.windows[..], hit)
    {
      hide Inv, OneFocus, Held, IsHit;
      var pressed := Left(cursor);
      ghost var s := State();
      cursor := Moved(cursor, dx, dy, buttons, width, height);
      var id := list.HitTest(cursor.x, cursor.y);
      hit := id;
      HitIsKnown(s.desk, cursor.x, cursor.y, hit);
      PressFocuses(State(), hit);
      MovedOnScreen(s.cursor, dx, dy, buttons, width, height);
      hide BroughtUp, Moved, Follows, Pressed, Move;
      MouseKeeps(s, dx, dy, buttons, width, height, hit);
      target := id;
      if drag.id != 0 {
        if !Left(cursor) {
          drag := drag.(id := 0);
          return 0, hit;
        }
        var _ := list.MoveWindow(drag.id, cursor.x - drag.dx, cursor.y - drag.dy);
        return drag.id, hit;
      }
      if Left(cursor) && !pressed {
        Press(id);
      }
    }

    /** The button-down branch. */
    method Press(hit: nat)
      requires list.Valid()
      modifies this`drag, list, list.windows
      ensures list.Valid() && State() == Pressed(old(State()), hit)
    {
      hide Inv, Raise, Focus, InTitleBar;
      if hit == 0 {
        list.SetFocus(0);
        return;
      }
      list.SetFocus(hit);
      var _ := list.RaiseToTop(hit);
      var i := list.FindSlot(hit);
      if i < list.windows.Length && list.windows[i].draggable && InTitleBar(list.windows[i], cursor.x, cursor.y) {
        drag := Drag(hit, cursor.x - list.windows[i].x, cursor.y - list.windows[i].y);
      }
    }
  }
}
