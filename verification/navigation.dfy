/** Tree navigation: the nearest enclosing container of an item
    (`dpg_get_item_container`) and the sibling under a screen coordinate
    (`dpg_get_item_by_pos`). */
module Navigation {
  import opened Base
  import opened Kinds
  import opened Toolkit

  // ---------------------------------------------------------------------
  // Nearest enclosing container

  /** The `k`-th ancestor of `x` along parent links (`x` itself for k = 0). */
  function Ancestor(layout: Layout, x: Id, k: nat): Option<Id>
    decreases k
  {
    if k == 0 then Some(x)
    else if x in layout.parent then Ancestor(layout, layout.parent[x], k - 1)
    else None
  }

  /** Within `n` parent steps from `x` the walk looking for `target` meets an
      item where it stops: one of the target kind (other than the start of a
      walk with `first` set), a top-level window, an unknown or malformed
      item, or an item with no parent. */
  ghost predicate ChainEnds(layout: Layout, x: Id, target: string, first: bool, n: nat)
    decreases n
  {
    match ItemName(layout, x)
    case Err(_) => true
    case Ok(name) =>
      (!first && name == target) || name == TopContainerName || x !in layout.parent
      || (n > 0 && ChainEnds(layout, layout.parent[x], target, false, n - 1))
  }

  /** The walk of `dpg_get_item_container` from `x` looking for the kind
      name `target`, allowed `fuel` visits; `first` is the source's
      `first_iter` flag. None when the fuel runs out. */
  function Walk(layout: Layout, x: Id, target: string, first: bool, fuel: nat): Option<Result<Option<Id>>>
    decreases fuel
  {
    if fuel == 0 then None
    else match ItemName(layout, x)
      case Err(e) => Some(Err(e))
      case Ok(name) =>
        if !first && name == target then Some(Ok(Some(x)))
        else if name == TopContainerName then Some(Ok(None))
        else if x !in layout.parent then Some(Err(UnknownItem(x)))
        else Walk(layout, layout.parent[x], target, false, fuel - 1)
  }

  /** Visit `j` of a walk from `x` went on: the item there has a kind name,
      is not a window and (unless it is the start of a walk with `first`
      set) is not the target. */
  ghost predicate PassedAt(layout: Layout, x: Id, target: string, first: bool, j: nat)
  {
    && Ancestor(layout, x, j).Some?
    && ItemName(layout, Ancestor(layout, x, j).value).Ok?
    && ItemName(layout, Ancestor(layout, x, j).value).value != TopContainerName
    && ((j > 0 || !first) ==> ItemName(layout, Ancestor(layout, x, j).value).value != target)
  }

  /** `dpg_get_item_container`. */
  method GetItemContainer(layout: Layout, item: Id, kind: Kind) returns (r: Result<Option<Id>>)
    requires ContainerName(kind).Some? ==> exists n :: ChainEnds(layout, item, ContainerName(kind).value, true, n)
    ensures ContainerName(kind).None? ==> r == Err(UnsupportedContainer)
    ensures ContainerName(kind).Some? ==>
              exists fuel :: Walk(layout, item, ContainerName(kind).value, true, fuel) == Some(r)
    ensures ContainerName(kind).Some? && ItemName(layout, item) == Ok(TopContainerName) ==> r == Ok(None)
  {
    if ContainerName(kind).None? {
      return Err(UnsupportedContainer);
    }
    var target := ContainerName(kind).value;
    ghost var n: nat :| ChainEnds(layout, item, target, true, n);
    ghost var total := n + 1;
    var x, first := item, true;
    while true
      invariant ChainEnds(layout, x, target, first, n)
      invariant first ==> x == item && total == n + 1
      invariant Walk(layout, item, target, true, total) == Walk(layout, x, target, first, n + 1)
      decreases n
    {
      var name := ItemName(layout, x);
      if name.Err? {
        return Err(name.error);
      }
      if !first && name.value == target {
        return Ok(Some(x));
      } else if name.value == TopContainerName {
        return Ok(None);
      }
      if x !in layout.parent {
        return Err(UnknownItem(x));
      }
      first := false;
      x := layout.parent[x];
      n := n - 1;
    }
  }

  /** The walk's answer does not depend on how much fuel it was given. */
  lemma {:induction false} WalkFuelIrrelevant(layout: Layout, x: Id, target: string, first: bool, f1: nat, f2: nat)
    requires Walk(layout, x, target, first, f1).Some? && Walk(layout, x, target, first, f2).Some?
    ensures Walk(layout, x, target, first, f1) == Walk(layout, x, target, first, f2)
    decreases f1
  {
    var name := ItemName(layout, x);
    if name.Ok? && !(!first && name.value == target) && name.value != TopContainerName && x in layout.parent {
      WalkFuelIrrelevant(layout, layout.parent[x], target, false, f1 - 1, f2 - 1);
    }
  }

  lemma AncestorStep(layout: Layout, x: Id, k: nat)
    requires x in layout.parent
    ensures Ancestor(layout, x, k + 1) == Ancestor(layout, layout.parent[x], k)
  {
  }

  /** A found container is the nearest strict ancestor whose kind name is the
      target: the walk passed every item before it, the start included. */
  lemma {:induction false} WalkFindsNearestAncestor(layout: Layout, x: Id, target: string, first: bool, fuel: nat, y: Id)
    requires Walk(layout, x, target, first, fuel) == Some(Ok(Some(y)))
    ensures exists k: nat :: && (first ==> k >= 1)
                             && Ancestor(layout, x, k) == Some(y)
                             && ItemName(layout, y) == Ok(target)
                             && forall j: nat :: j < k ==> PassedAt(layout, x, target, first, j)
    decreases fuel
  {
    var name := ItemName(layout, x);
    if !first && name.value == target {
      assert Ancestor(layout, x, 0) == Some(y);
    } else {
      var p := layout.parent[x];
      WalkFindsNearestAncestor(layout, p, target, false, fuel - 1, y);
      var k: nat :| && Ancestor(layout, p, k) == Some(y)
                    && ItemName(layout, y) == Ok(target)
                    && forall j: nat :: j < k ==> PassedAt(layout, p, target, false, j);
      AncestorStep(layout, x, k);
      forall j: nat | j < k + 1 ensures PassedAt(layout, x, target, first, j) {
        if j > 0 {
          AncestorStep(layout, x, j - 1);
          assert PassedAt(layout, p, target, false, j - 1);
        } else {
          assert Ancestor(layout, x, 0) == Some(x);
        }
      }
    }
  }

  /** When no container is found, the walk reached a top-level window before
      any item of the target kind: every item below the window was passed,
      and the window is the start itself or is not of the target kind. */
  lemma {:induction false} WalkNoneMeansWindow(layout: Layout, x: Id, target: string, first: bool, fuel: nat)
    requires Walk(layout, x, target, first, fuel) == Some(Ok(None))
    ensures exists k: nat, w: Id :: && Ancestor(layout, x, k) == Some(w)
                                   && ItemName(layout, w) == Ok(TopContainerName)
                                   && ((k == 0 && first) || target != TopContainerName)
                                   && forall j: nat :: j < k ==> PassedAt(layout, x, target, first, j)
    decreases fuel
  {
    var name := ItemName(layout, x);
    if !first && name.value == target {
    } else if name.value == TopContainerName {
      assert Ancestor(layout, x, 0) == Some(x);
      assert !first ==> target != TopContainerName;
    } else {
      var p := layout.parent[x];
      WalkNoneMeansWindow(layout, p, target, false, fuel - 1);
      var k: nat, w: Id :| && Ancestor(layout, p, k) == Some(w)
                          && ItemName(layout, w) == Ok(TopContainerName)
                          && target != TopContainerName
                          && forall j: nat :: j < k ==> PassedAt(layout, p, target, false, j);
      AncestorStep(layout, x, k);
      forall j: nat | j < k + 1 ensures PassedAt(layout, x, target, first, j) {
        if j > 0 {
          AncestorStep(layout, x, j - 1);
          assert PassedAt(layout, p, target, false, j - 1);
        } else {
          assert Ancestor(layout, x, 0) == Some(x);
        }
      }
    }
  }

  /** The start item is never the answer, in a tree without cycles. */
  lemma NeverReturnsStart(layout: Layout, x: Id, target: string, fuel: nat, y: Id)
    requires forall k: nat :: k >= 1 ==> Ancestor(layout, x, k) != Some(x)
    requires Walk(layout, x, target, true, fuel) == Some(Ok(Some(y)))
    ensures y != x
  {
    WalkFindsNearestAncestor(layout, x, target, true, fuel, y);
  }

  /** Asking for the default kind yields the nearest enclosing window. */
  lemma DefaultKindFindsWindow(layout: Layout, x: Id, fuel: nat, y: Id)
    requires Walk(layout, x, ContainerName(WindowAppItem).value, true, fuel) == Some(Ok(Some(y)))
    ensures ItemName(layout, y) == Ok(TopContainerName)
    ensures exists k: nat :: k >= 1 && Ancestor(layout, x, k) == Some(y)
  {
    WalkFindsNearestAncestor(layout, x, TopContainerName, true, fuel, y);
  }

  // ---------------------------------------------------------------------
  // Sibling under a coordinate

  /** An element of the list searched: a bare id, or a tuple whose first
      component is the id. */
  datatype Entry = Tag(id: Id) | Row(id: Id, rest: seq<Value>)

  /** The result shape: the element, or the element and its index when
      `return_index` is set. */
  datatype Picked = Item(entry: Entry) | ItemWithIndex(entry: Entry, index: nat)

  /** `p[not horizontal]`: the y coordinate by default, x when horizontal. */
  function Axis(p: Pos, horizontal: bool): int
  {
    if horizontal then p.x else p.y
  }

  predicate Placed(layout: Layout, items: seq<Entry>, i: int)
  {
    0 <= i < |items| && items[i].id in layout.pos
  }

  function KeyAt(layout: Layout, items: seq<Entry>, horizontal: bool, i: int): int
    requires Placed(layout, items, i)
  {
    Axis(layout.pos[items[i].id], horizontal)
  }

  /** Every element the search may read has a position (the first never is). */
  ghost predicate AllPlaced(layout: Layout, items: seq<Entry>)
  {
    forall i :: 1 <= i < |items| ==> Placed(layout, items, i)
  }

  /** Positions ascend along the axis (index 0 is never read). */
  ghost predicate SortedOnAxis(layout: Layout, items: seq<Entry>, horizontal: bool)
    requires AllPlaced(layout, items)
  {
    forall i, j :: 1 <= i <= j < |items| ==> KeyAt(layout, items, horizontal, i) <= KeyAt(layout, items, horizontal, j)
  }

  /** Reference answer: the largest index i >= 1 below `n` whose position is
      at most `c`, or 0 when there is none. */
  ghost function LastAtMost(layout: Layout, items: seq<Entry>, horizontal: bool, c: int, n: nat): (r: nat)
    requires n <= |items| && AllPlaced(layout, items)
    ensures r == 0 || (r < n && KeyAt(layout, items, horizontal, r) <= c)
    ensures forall j :: r < j < n ==> KeyAt(layout, items, horizontal, j) > c
  {
    if n <= 1 then 0
    else if KeyAt(layout, items, horizontal, n - 1) <= c then n - 1
    else LastAtMost(layout, items, horizontal, c, n - 1)
  }

  /** The loop of `dpg_get_item_by_pos`: a bisection with an inclusive lower
      bound and an exclusive upper bound. */
  method BisectByPos(layout: Layout, items: seq<Entry>, mouse: Pos, horizontal: bool) returns (r: Result<nat>)
    ensures items == [] ==> r == Err(IndexOutOfRange)
    ensures r.Ok? ==> r.value < |items|
    ensures r.Ok? ==> var i := r.value;
              && (i == 0 || (Placed(layout, items, i) && KeyAt(layout, items, horizontal, i) <= Axis(mouse, horizontal)))
              && (i + 1 == |items| || (Placed(layout, items, i + 1) && KeyAt(layout, items, horizontal, i + 1) > Axis(mouse, horizontal)))
    ensures r.Err? && items != [] ==> exists i :: 1 <= i < |items| && !Placed(layout, items, i) && r.error == UnknownItem(items[i].id)
    ensures items != [] && AllPlaced(layout, items) ==> r.Ok?
    ensures items != [] && AllPlaced(layout, items) && SortedOnAxis(layout, items, horizontal) ==>
              r == Ok(LastAtMost(layout, items, horizontal, Axis(mouse, horizontal), |items|))
  {
    var c := Axis(mouse, horizontal);
    var start, end := 0, |items|;
    while true
      invariant 0 <= start <= end <= |items|
      invariant items != [] ==> start < end
      invariant start == 0 || (Placed(layout, items, start) && KeyAt(layout, items, horizontal, start) <= c)
      invariant end == |items| || (Placed(layout, items, end) && KeyAt(layout, items, horizontal, end) > c)
      decreases end - start
    {
      var mid := start + (end - start) / 2;
      if mid == start {
        break;
      }
      var id := items[mid].id;
      if id !in layout.pos {
        return Err(UnknownItem(id));
      }
      if c >= Axis(layout.pos[id], horizontal) {
        start := mid;
      } else {
        end := mid;
      }
    }
    if start >= |items| {
      return Err(IndexOutOfRange);
    }
    r := Ok(start);
    if AllPlaced(layout, items) && SortedOnAxis(layout, items, horizontal) {
      if start + 1 < |items| {
        assert forall j :: start < j < |items| ==> KeyAt(layout, items, horizontal, start + 1) <= KeyAt(layout, items, horizontal, j);
      }
      assert start == LastAtMost(layout, items, horizontal, c, |items|);
    }
  }

  /** `dpg_get_item_by_pos`. */
  method GetItemByPos(layout: Layout, items: seq<Entry>, mouse: Pos, horizontal: bool, returnIndex: bool)
    returns (r: Result<Picked>)
    ensures items == [] ==> r == Err(IndexOutOfRange)
    ensures r.Ok? ==> (r.value.ItemWithIndex? <==> returnIndex) && r.value.entry in items
    ensures r.Ok? && returnIndex ==> r.value.index < |items| && r.value.entry == items[r.value.index]
    ensures r.Ok? ==> exists i ::
              && 0 <= i < |items| && r.value.entry == items[i] && (returnIndex ==> r.value.index == i)
              && (i == 0 || (Placed(layout, items, i) && KeyAt(layout, items, horizontal, i) <= Axis(mouse, horizontal)))
              && (i + 1 == |items| || (Placed(layout, items, i + 1) && KeyAt(layout, items, horizontal, i + 1) > Axis(mouse, horizontal)))
    ensures r.Err? && items != [] ==> exists i :: 1 <= i < |items| && !Placed(layout, items, i) && r.error == UnknownItem(items[i].id)
    ensures items != [] && AllPlaced(layout, items) ==> r.Ok?
    ensures items != [] && AllPlaced(layout, items) && SortedOnAxis(layout, items, horizontal) ==>
              var k := LastAtMost(layout, items, horizontal, Axis(mouse, horizontal), |items|);
              r == Ok(if returnIndex then ItemWithIndex(items[k], k) else Item(items[k]))
  {
    var found := BisectByPos(layout, items, mouse, horizontal);
    if found.Err? {
      return Err(found.error);
    }
    var i := found.value;
    r := Ok(if returnIndex then ItemWithIndex(items[i], i) else Item(items[i]));
    assert r.value.entry == items[i];
  }

  /** Unsorted positions 0, 30, 10 with the mouse at 15 still pick an item:
      the search brackets the mouse between indices 0 and 1. */
  method ByPosUnsortedExample()
  {
    var layout := Layout(map[], map[], map[1 := Pos(0, 0), 2 := Pos(0, 30), 3 := Pos(0, 10)], map[], map[]);
    var items := [Tag(1), Tag(2), Tag(3)];
    assert AllPlaced(layout, items);
    var r := GetItemByPos(layout, items, Pos(0, 15), false, false);
    assert r.Ok?;
  }

  /** Positions 0, 10, 20, 30 with the mouse at 15 pick the second item. */
  method ByPosExample()
  {
    var layout := Layout(map[], map[], map[1 := Pos(0, 0), 2 := Pos(0, 10), 3 := Pos(0, 20), 4 := Pos(0, 30)], map[], map[]);
    var items := [Tag(1), Tag(2), Tag(3), Tag(4)];
    assert AllPlaced(layout, items);
    var r := GetItemByPos(layout, items, Pos(7, 15), false, true);
    assert r == Ok(ItemWithIndex(Tag(2), 1));
  }
}
