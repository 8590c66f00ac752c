/** Windows, their stacking order and hit testing. */
module Windows {
  import opened Bytes

  const MAX_WINDOWS: nat := 16
  const TITLE_BAR: nat := 24
  const BORDER: nat := 2

  /** `content` is the application's pixel buffer, empty when there is none. */
  datatype Window = Window(id: nat, x: int, y: int, width: nat, height: nat, z: nat,
                           visible: bool, focused: bool, draggable: bool, content: seq<byte>)

  const EMPTY: Window := Window(0, 0, 0, 0, 0, 0, false, false, true, [])

  function FullWidth(w: Window): nat { w.width + 2 * BORDER }

  function FullHeight(w: Window): nat { w.height + TITLE_BAR + 2 * BORDER }

  predicate Contains(w: Window, px: int, py: int) {
    w.x <= px < w.x + FullWidth(w) && w.y <= py < w.y + FullHeight(w)
  }

  predicate InTitleBar(w: Window, px: int, py: int) {
    w.x <= px < w.x + FullWidth(w) && w.y <= py < w.y + TITLE_BAR
  }

  predicate Shows(w: Window) { w.id != 0 && w.visible }

  datatype Desk = Desk(ws: seq<Window>, count: nat, nextId: nat, nextZ: nat)

  /** Live windows have their own id and their own place in the stacking order. */
  ghost predicate Inv(d: Desk) {
    && |d.ws| == MAX_WINDOWS && d.nextId > 0
    && (forall i | 0 <= i < |d.ws| :: d.ws[i].id < d.nextId && d.ws[i].z < d.nextZ)
    && (forall i, j | 0 <= i < j < |d.ws| && d.ws[i].id != 0 && d.ws[j].id != 0 ::
          d.ws[i].id != d.ws[j].id && d.ws[i].z != d.ws[j].z)
    && d.count == Live(d.ws)
  }

  function Live(ws: seq<Window>): (n: nat)
    ensures n <= |ws|
  {
    if ws == [] then 0 else Live(ws[..|ws| - 1]) + (if ws[|ws| - 1].id != 0 then 1 else 0)
  }

  lemma {:induction false} LiveUpdate(ws: seq<Window>, i: nat, w: Window)
    requires i < |ws|
    ensures Live(ws[i := w]) == Live(ws) + (if w.id != 0 then 1 else 0) - (if ws[i].id != 0 then 1 else 0)
  {
    var n := |ws| - 1;
    if i == n {
      assert ws[i := w][..n] == ws[..n];
    } else {
      LiveUpdate(ws[..n], i, w);
      assert ws[i := w][..n] == ws[..n][i := w];
    }
  }

  lemma {:induction false} LiveFull(ws: seq<Window>)
    ensures Live(ws) == |ws| <==> forall i | 0 <= i < |ws| :: ws[i].id != 0
  {
    if ws != [] {
      LiveFull(ws[..|ws| - 1]);
    }
  }

  /** The first slot from `i` on with this id, or the number of slots. */
  function SlotFrom(ws: seq<Window>, id: nat, i: nat): (r: nat)
    requires i <= |ws|
    ensures i <= r <= |ws|
    ensures r < |ws| ==> ws[r].id == id
    ensures forall j | i <= j < r :: ws[j].id != id
    decreases |ws| - i
  {
    if i == |ws| || ws[i].id == id then i else SlotFrom(ws, id, i + 1)
  }

  function Slot(ws: seq<Window>, id: nat): (r: nat)
    ensures r <= |ws|
    ensures r < |ws| ==> ws[r].id == id
    ensures forall j | 0 <= j < r :: ws[j].id != id
  {
    SlotFrom(ws, id, 0)
  }

  function Create(d: Desk, x: int, y: int, width: nat, height: nat, content: seq<byte>): Desk {
    var i := Slot(d.ws, 0);
    if d.count >= MAX_WINDOWS || i == |d.ws| then d
    else Desk(d.ws[i := Window(d.nextId, x, y, width, height, d.nextZ, true, false, true, content)],
              d.count + 1, d.nextId + 1, d.nextZ + 1)
  }

  /** A window as it appears: where and as large as asked for, shown, draggable, above everything, not in focus. */
  predicate Opened(w: Window, d: Desk, x: int, y: int, width: nat, height: nat, content: seq<byte>) {
    && w.id == d.nextId && w.x == x && w.y == y && w.width == width && w.height == height && w.content == content
    && w.visible && w.draggable && !w.focused && forall j | 0 <= j < |d.ws| :: d.ws[j].z < w.z
  }

  lemma BelowNext(d: Desk)
    requires Inv(d)
    ensures forall j | 0 <= j < |d.ws| :: d.ws[j].z < d.nextZ
  {
  }

  /** The count is a machine word and wraps below zero. */
  function Destroy(d: Desk, id: nat): Desk {
    var i := Slot(d.ws, id);
    if i == |d.ws| then d else d.(ws := d.ws[i := EMPTY], count := if d.count > 0 then d.count - 1 else 0xFFFF_FFFF_FFFF_FFFF)
  }

  function Move(d: Desk, id: nat, x: int, y: int): Desk {
    var i := Slot(d.ws, id);
    if i == |d.ws| then d else d.(ws := d.ws[i := d.ws[i].(x := x, y := y)])
  }

  function Raise(d: Desk, id: nat): Desk {
    var i := Slot(d.ws, id);
    if i == |d.ws| then d else d.(ws := d.ws[i := d.ws[i].(z := d.nextZ)], nextZ := d.nextZ + 1)
  }

  /** Every slot with this id is focused and no other; id 0 focuses the empty slots. */
  function Focus(ws: seq<Window>, id: nat): (r: seq<Window>)
    ensures |r| == |ws|
    ensures forall i | 0 <= i < |ws| :: r[i] == ws[i].(focused := ws[i].id == id)
  {
    seq(|ws|, i requires 0 <= i < |ws| => ws[i].(focused := ws[i].id == id))
  }

  /** Clearing the focus marks every empty slot, and no window. */
  lemma FocusNone(ws: seq<Window>, i: nat)
    requires i < |ws|
    ensures Focus(ws, 0)[i].focused <==> ws[i].id == 0
  {
  }

  /** The id that a hit test reports. */
  ghost predicate IsHit(ws: seq<Window>, px: int, py: int, id: nat) {
    if id == 0 then forall i | 0 <= i < |ws| :: !(Shows(ws[i]) && Contains(ws[i], px, py))
    else exists i | 0 <= i < |ws| :: ws[i].id == id && Topmost(ws, px, py, i)
  }

  /** Window `i` shows at the point, and nothing there is stacked higher. */
  ghost predicate Topmost(ws: seq<Window>, px: int, py: int, i: nat) {
    && i < |ws| && Shows(ws[i]) && Contains(ws[i], px, py)
    && forall j | 0 <= j < |ws| && Shows(ws[j]) && Contains(ws[j], px, py) :: ws[j].z <= ws[i].z
  }

  lemma CreateKeeps(d: Desk, x: int, y: int, width: nat, height: nat, content: seq<byte>)
    requires Inv(d)
    ensures Inv(Create(d, x, y, width, height, content))
    ensures d.count >= MAX_WINDOWS <==> Slot(d.ws, 0) == |d.ws|
  {
    LiveFull(d.ws);
    var i := Slot(d.ws, 0);
    if i < |d.ws| {
      LiveUpdate(d.ws, i, Window(d.nextId, x, y, width, height, d.nextZ, true, false, true, content));
    }
  }

  /** Destroying window 0 empties an empty slot and miscounts: the list stays sound exactly for a real id, or when
      there is no empty slot. */
  lemma DestroyKeepsIff(d: Desk, id: nat)
    requires Inv(d)
    ensures Inv(Destroy(d, id)) <==> id != 0 || forall i | 0 <= i < |d.ws| :: d.ws[i].id != 0
  {
    var i := Slot(d.ws, id);
    if i < |d.ws| {
      LiveUpdate(d.ws, i, EMPTY);
    }
  }

  lemma MoveKeeps(d: Desk, id: nat, x: int, y: int)
    requires Inv(d)
    ensures Inv(Move(d, id, x, y))
  {
    var i := Slot(d.ws, id);
    if i < |d.ws| {
      LiveUpdate(d.ws, i, d.ws[i].(x := x, y := y));
    }
  }

  lemma RaiseKeeps(d: Desk, id: nat)
    requires Inv(d)
    ensures Inv(Raise(d, id))
  {
    var i := Slot(d.ws, id);
    if i < |d.ws| {
      LiveUpdate(d.ws, i, d.ws[i].(z := d.nextZ));
    }
  }

  /** Two lists with the same ids have as many live windows. */
  lemma {:induction false} LiveSame(ws: seq<Window>, ws': seq<Window>)
    requires |ws'| == |ws| && forall i | 0 <= i < |ws| :: ws'[i].id == ws[i].id
    ensures Live(ws') == Live(ws)
  {
    if ws != [] {
      LiveSame(ws[..|ws| - 1], ws'[..|ws| - 1]);
    }
  }

  lemma FocusKeeps(d: Desk, id: nat)
    requires Inv(d)
    ensures Inv(d.(ws := Focus(d.ws, id)))
  {
    LiveSame(d.ws, Focus(d.ws, id));
    hide Live;
    var ws := Focus(d.ws, id);
    assert forall i | 0 <= i < |ws| :: ws[i].id == d.ws[i].id && ws[i].z == d.ws[i].z;
  }

  /** A raised window is above every other one. */
  lemma RaisedOnTop(d: Desk, id: nat, j: nat)
    requires Inv(d) && id != 0 && Slot(d.ws, id) < |d.ws| && j < |d.ws| && j != Slot(d.ws, id)
    ensures Raise(d, id).ws[j].z < Raise(d, id).ws[Slot(d.ws, id)].z
  {
  }

  /** Indices in stacking order: every showing window once, lower before higher. */
  ghost predicate IsOrder(ws: seq<Window>, order: seq<nat>) {
    && (forall k | 0 <= k < |order| :: order[k] < |ws| && Shows(ws[order[k]]))
    && (forall i: nat | i < |ws| && Shows(ws[i]) :: i in order)
    && Distinct(order) && Ordered(ws, order)
  }

  ghost predicate Distinct(order: seq<nat>) {
    forall a, b | 0 <= a < b < |order| :: order[a] != order[b]
  }

  ghost predicate Ordered(ws: seq<Window>, order: seq<nat>) {
    && (forall k | 0 <= k < |order| :: order[k] < |ws|)
    && forall a, b | 0 <= a < b < |order| :: ws[order[a]].z <= ws[order[b]].z
  }

  lemma OrderedOne(ws: seq<Window>, order: seq<nat>)
    requires |order| <= 1 && forall k | 0 <= k < |order| :: order[k] < |ws|
    ensures Ordered(ws, order) && Distinct(order)
  {
  }

  /** Inserting a new index before the first higher one keeps the list ordered. */
  lemma InsertOrdered(ws: seq<Window>, s: seq<nat>, j: nat, key: nat, s': seq<nat>)
    requires Ordered(ws, s) && Distinct(s) && key !in s && key < |ws| && j <= |s| && s' == s[..j] + [key] + s[j..]
    requires forall k | j <= k < |s| :: ws[s[k]].z > ws[key].z
    requires j > 0 ==> ws[s[j - 1]].z <= ws[key].z
    ensures Ordered(ws, s') && Distinct(s')
    ensures forall i :: i in s' <==> i in s || i == key
  {
    forall a, b | 0 <= a < b < |s'|
      ensures s'[a] != s'[b] && s'[a] < |ws| && s'[b] < |ws| && ws[s'[a]].z <= ws[s'[b]].z
    {
      if b == j && a + 1 < j {
        assert ws[s[a]].z <= ws[s[j - 1]].z;
      }
    }
  }

  class WindowList {
    const windows: array<Window>
    var count: nat
    var nextId: nat
    var nextZ: nat

    ghost function State(): Desk
      reads this, windows
    {
      Desk(windows[..], count, nextId, nextZ)
    }

    ghost predicate Valid()
      reads this, windows
    {
      windows.Length == MAX_WINDOWS && Inv(State())
    }

    constructor ()
      ensures Valid() && fresh(windows) && State() == Desk(seq(MAX_WINDOWS, _ => EMPTY), 0, 1, 1)
    {
      windows := new Window[MAX_WINDOWS](_ => EMPTY);
      count, nextId, nextZ := 0, 1, 1;
      new;
      assert windows[..] == seq(MAX_WINDOWS, _ => EMPTY);
      NoneLive(windows[..]);
    }

    /** The slot scan that every operation starts with. */
    method FindSlot(id: nat) returns (i: nat)
      ensures i == Slot(windows[..], id)
    {
      i := 0;
      while i < windows.Length && windows[i].id != id
        invariant 0 <= i <= windows.Length
        invariant SlotFrom(windows[..], id, i) == Slot(windows[..], id)
      {
        i := i + 1;
      }
    }

    method CreateWindow(x: int, y: int, width: nat, height: nat, content: seq<byte>) returns (id: nat)
      requires Valid()
      modifies this, windows
      ensures Valid() && State() == Create(old(State()), x, y, width, height, content)
      ensures id == 0 <==> forall i | 0 <= i < MAX_WINDOWS :: old(windows[..])[i].id != 0
      ensures id != 0 ==> id == old(nextId)
      ensures id != 0 ==> exists i | 0 <= i < MAX_WINDOWS ::
                  && old(windows[i]).id == 0
                  && Opened(windows[i], old(State()), x, y, width, height, content)
                  && forall j | 0 <= j < MAX_WINDOWS && j != i :: windows[j] == old(windows[j])
    {
      CreateKeeps(State(), x, y, width, height, content);
      BelowNext(State());
      hide Inv;
      ghost var before := State();
      id := 0;
      if count < MAX_WINDOWS {
        var i := FindSlot(0);
        if i < windows.Length {
          id := nextId;
          nextId := nextId + 1;
          windows[i] := Window(id, x, y, width, height, nextZ, true, false, true, content);
          assert Opened(windows[i], before, x, y, width, height, content);
          nextZ := nextZ + 1;
          count := count + 1;
        }
      }
    }

    method DestroyWindow(id: nat) returns (ok: bool)
      requires Valid()
      modifies this, windows
      ensures State() == Destroy(old(State()), id)
      ensures forall i | 0 <= i < MAX_WINDOWS && id != 0 :: windows[i] == if old(windows[i]).id == id then EMPTY else old(windows[i])
      ensures id != 0 ==> count == if ok then old(count) - 1 else old(count)
      ensures Valid() <==> id != 0 || forall i | 0 <= i < MAX_WINDOWS :: old(windows[..])[i].id != 0
      ensures ok <==> exists i | 0 <= i < MAX_WINDOWS :: old(windows[..])[i].id == id
    {
      DestroyKeepsIff(State(), id);
      hide Inv;
      var i := FindSlot(id);
      if i == windows.Length {
        return false;
      }
      windows[i] := EMPTY;
      count := if count > 0 then count - 1 else 0xFFFF_FFFF_FFFF_FFFF;
      return true;
    }

    method MoveWindow(id: nat, x: int, y: int) returns (ok: bool)
      requires Valid()
      modifies windows
      ensures Valid() && State() == Move(old(State()), id, x, y)
      ensures forall i | 0 <= i < MAX_WINDOWS && id != 0 ::
                windows[i] == if old(windows[i]).id == id then old(windows[i]).(x := x, y := y) else old(windows[i])
      ensures ok <==> exists i | 0 <= i < MAX_WINDOWS :: old(windows[..])[i].id == id
    {
      MoveKeeps(State(), id, x, y);
      hide Inv;
      var i := FindSlot(id);
      if i == windows.Length {
        return false;
      }
      windows[i] := windows[i].(x := x, y := y);
      return true;
    }

    method RaiseToTop(id: nat) returns (ok: bool)
      requires Valid()
      modifies this`nextZ, windows
      ensures Valid() && State() == Raise(old(State()), id)
      ensures forall i | 0 <= i < MAX_WINDOWS && id != 0 ::
                windows[i] == if old(windows[i]).id == id then old(windows[i]).(z := old(nextZ)) else old(windows[i])
      ensures ok <==> exists i | 0 <= i < MAX_WINDOWS :: old(windows[..])[i].id == id
    {
      RaiseKeeps(State(), id);
      hide Inv;
      var i := FindSlot(id);
      if i == windows.Length {
        return false;
      }
      windows[i] := windows[i].(z := nextZ);
      nextZ := nextZ + 1;
      return true;
    }

    method SetFocus(id: nat)
      requires Valid()
      modifies windows
      ensures Valid() && State() == old(State()).(ws := Focus(old(windows[..]), id))
    {
      FocusKeeps(State(), id);
      hide Inv;
      var i := 0;
      while i < windows.Length
        invariant 0 <= i <= windows.Length
        invariant windows[..i] == Focus(old(windows[..]), id)[..i] && windows[i..] == old(windows[..])[i..]
      {
        windows[i] := windows[i].(focused := windows[i].id == id);
        i := i + 1;
      }
      assert windows[..] == Focus(old(windows[..]), id);
    }

    method FocusedId() returns (id: nat)
      ensures id == 0 ==> forall i | 0 <= i < windows.Length :: !(windows[i].id != 0 && windows[i].focused)
      ensures id != 0 ==> exists i | 0 <= i < windows.Length :: windows[i].id == id && windows[i].focused
    {
      var i := 0;
      while i < windows.Length
        invariant 0 <= i <= windows.Length
        invariant forall j | 0 <= j < i :: !(windows[j].id != 0 && windows[j].focused)
      {
        if windows[i].id != 0 && windows[i].focused {
          return windows[i].id;
        }
        i := i + 1;
      }
      return 0;
    }

    /** The topmost window at a point. */
    method HitTest(px: int, py: int) returns (id: nat)
      ensures IsHit(windows[..], px, py, id)
    {
      var topZ, i := 0, 0;
      id := 0;
      ghost var at := 0;
      while i < windows.Length
        invariant 0 <= i <= windows.Length
        invariant id == 0 ==> topZ == 0 && forall j | 0 <= j < i :: !(Shows(windows[j]) && Contains(windows[j], px, py))
        invariant id != 0 ==>
                    && 0 <= at < i && windows[at].id == id && windows[at].z == topZ && Shows(windows[at]) && Contains(windows[at], px, py)
                    && forall j | 0 <= j < i && Shows(windows[j]) && Contains(windows[j], px, py) :: windows[j].z <= topZ
      {
        var w := windows[i];
        if Shows(w) && Contains(w, px, py) && w.z >= topZ {
          topZ, id, at := w.z, w.id, i;
        }
        i := i + 1;
      }
      if id != 0 {
        assert Topmost(windows[..], px, py, at);
      }
    }

    /** The first half of `iter_z_order`: the showing windows in slot order. */
    method Collect() returns (indices: array<nat>, n: nat)
      ensures fresh(indices) && n <= indices.Length
      ensures forall k | 0 <= k < n :: indices[k] < windows.Length && Shows(windows[indices[k]])
      ensures forall a, b | 0 <= a < b < n :: indices[a] < indices[b]
      ensures forall j: nat | j < windows.Length && Shows(windows[j]) :: j in indices[..n]
    {
      indices := new nat[windows.Length];
      var i := 0;
      n := 0;
      ghost var found: seq<nat> := [];
      while i < windows.Length
        invariant 0 <= n <= i <= windows.Length && |found| == n
        invariant forall k | 0 <= k < n :: indices[k] == found[k]
        invariant forall k | 0 <= k < n :: found[k] < i && Shows(windows[found[k]])
        invariant forall a, b | 0 <= a < b < n :: found[a] < found[b]
        invariant forall j: nat | j < i && Shows(windows[j]) :: j in found
      {
        if Shows(windows[i]) {
          indices[n] := i;
          n, found := n + 1, found + [i];
        }
        i := i + 1;
      }
      assert indices[..n] == found;
    }

    /** `iter_z_order`: collect the showing windows, then insertion sort in place. */
    method ZOrder() returns (order: seq<nat>)
      ensures IsOrder(windows[..], order)
    {
      hide Ordered, Shows;
      var indices, n := Collect();
      ghost var found := indices[..n];
      assert Distinct(found);
      if n == 0 {
        OrderedOne(windows[..], []);
        return [];
      }
      OrderedOne(windows[..], indices[..1]);
      var k := 1;
      while k < n
        invariant 1 <= k <= n <= indices.Length
        invariant indices[k..n] == found[k..]
        invariant Ordered(windows[..], indices[..k]) && Distinct(indices[..k])
        invariant forall x :: x in indices[..k] <==> x in found[..k]
      {
        assert indices[k] == indices[k..n][0] == found[k];
        assert found[..k + 1] == found[..k] + [found[k]];
        assert found[k] !in found[..k];
        InsertOne(indices, k, n);
        assert found[k + 1..] == found[k..][1..];
        k := k + 1;
      }
      assert indices[..k] == indices[..n] && found[..k] == found;
      order := indices[..n];
      forall j | 0 <= j < |order|
        ensures order[j] < windows.Length && Shows(windows[..][order[j]])
      {
        assert order[j] in order;
        assert order[j] in found;
      }
    }

    /** One round of the insertion sort: shift the higher ones up and put the key into the gap. */
    method InsertOne(indices: array<nat>, k: nat, n: nat)
      requires 0 < k < n <= indices.Length && indices[k] < windows.Length && indices[k] !in indices[..k]
      requires Ordered(windows[..], indices[..k]) && Distinct(indices[..k])
      modifies indices
      ensures Ordered(windows[..], indices[..k + 1]) && Distinct(indices[..k + 1])
      ensures forall x :: x in indices[..k + 1] <==> x in old(indices[..k]) || x == old(indices[k])
      ensures indices[k + 1..n] == old(indices[k + 1..n])
    {
      ghost var s, ws := indices[..k], windows[..];
      var key := indices[k];
      OrderedBound(ws, s);
      hide Ordered, Distinct;
      var j := ShiftUp(indices, k, windows[key].z);
      ghost var shifted := indices[..];
      indices[j] := key;
      assert indices[k + 1..n] == shifted[k + 1..n];
      Inserted(s, indices[..k + 1], j, key);
      InsertOrdered(ws, s, j, key, indices[..k + 1]);
    }

    /** The inner loop: move everything higher than `keyZ` one place up. */
    method ShiftUp(indices: array<nat>, k: nat, keyZ: nat) returns (j: nat)
      requires k < indices.Length && forall m | 0 <= m < k :: indices[m] < windows.Length
      modifies indices
      ensures 0 <= j <= k
      ensures forall m | 0 <= m < j :: indices[m] == old(indices[m])
      ensures forall m | j <= m < k :: indices[m + 1] == old(indices[m]) && windows[old(indices[m])].z > keyZ
      ensures forall m | k < m < indices.Length :: indices[m] == old(indices[m])
      ensures j > 0 ==> windows[old(indices[j - 1])].z <= keyZ
    {
      j := k;
      while j > 0 && windows[indices[j - 1]].z > keyZ
        invariant 0 <= j <= k
        invariant forall m | 0 <= m < j :: indices[m] == old(indices[m])
        invariant forall m | j <= m < k :: indices[m + 1] == old(indices[m]) && windows[old(indices[m])].z > keyZ
        invariant forall m | k < m < indices.Length :: indices[m] == old(indices[m])
      {
        indices[j] := indices[j - 1];
        j := j - 1;
      }
    }
  }

  lemma OrderedBound(ws: seq<Window>, s: seq<nat>)
    requires Ordered(ws, s)
    ensures forall m | 0 <= m < |s| :: s[m] < |ws|
  {
  }

  lemma Inserted(s: seq<nat>, s': seq<nat>, j: nat, key: nat)
    requires j <= |s| && |s'| == |s| + 1 && s'[j] == key
    requires forall m | 0 <= m < j :: s'[m] == s[m]
    requires forall m | j <= m < |s| :: s'[m + 1] == s[m]
    ensures s' == s[..j] + [key] + s[j..]
  {
    forall m | j < m < |s'|
      ensures s'[m] == s[m - 1]
    {
      assert s'[(m - 1) + 1] == s[m - 1];
    }
  }

  lemma {:induction false} NoneLive(ws: seq<Window>)
    requires forall i | 0 <= i < |ws| :: ws[i].id == 0
    ensures Live(ws) == 0
  {
    if ws != [] {
      NoneLive(ws[..|ws| - 1]);
    }
  }
}
