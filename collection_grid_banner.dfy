/** Banner placement of assets/collection-grid-banner.js: the collection banner
    (`[data-collection-banner]`, two columns wide) is moved to the start of
    the grid's second row, on its left or its right. */
module CollectionGridBanner {
  import opened Wrappers
  import GridColumns

  /** A child element of the grid: its identity, whether it matches
      `li.product-grid__item`, and whether it has `data-product-id`. */
  datatype Child = Child(id: nat, productItem: bool, hasProductId: bool)

  // ---------------------------------------------------------------------------
  // Position

  /** ASCII `toLowerCase`. */
  function LowerChar(c: char): char {
    if 'A' <= c <= 'Z' then (c as int + 32) as char else c
  }

  function Lower(s: string): (r: string)
    ensures |r| == |s|
    ensures forall i :: 0 <= i < |s| ==> r[i] == LowerChar(s[i])
  {
    seq(|s|, i requires 0 <= i < |s| => LowerChar(s[i]))
  }

  /** `(banner.dataset.bannerPosition || 'left').toLowerCase() === 'right'`. */
  predicate IsRight(position: Option<string>) {
    var p := if position.None? || position.value == "" then "left" else position.value;
    Lower(p) == "right"
  }

  /** "right" is recognised in any letter case; a missing or empty position
      and any other word are the left position. */
  lemma PositionExamples()
    ensures IsRight(Some("right")) && IsRight(Some("RIGHT")) && IsRight(Some("Right"))
    ensures !IsRight(None) && !IsRight(Some("")) && !IsRight(Some("left")) && !IsRight(Some("rightt"))
  {
    assert Lower("RIGHT") == "right";
    assert Lower("Right") == "right";
    assert Lower("right") == "right";
    assert Lower("left")[0] == 'l';
  }

  /** The child index the banner goes before: the second row starts after
      `cols` items, and a right-hand banner has `cols - 2` items before it
      in that row. */
  function TargetIndex(cols: int, right: bool): int {
    cols + (if right then (if cols - 2 > 0 then cols - 2 else 0) else 0)
  }

  /** On a grid of at least two columns the banner's two columns end the
      second row when it is on the right, and start it when on the left. */
  lemma TargetFillsRow(cols: int, right: bool)
    requires cols >= 2
    ensures right ==> TargetIndex(cols, right) + 2 == 2 * cols
    ensures !right ==> TargetIndex(cols, right) == cols
  {
  }

  // ---------------------------------------------------------------------------
  // Child lists

  /** A product item that is not the banner. */
  predicate IsItem(c: Child, bannerId: nat) {
    c.productItem && c.id != bannerId && c.hasProductId
  }

  /** The filter at lines 17-22, in child order. */
  function Items(children: seq<Child>, bannerId: nat): seq<Child>
    decreases |children|
  {
    if children == [] then []
    else
      var last := children[|children| - 1];
      Items(children[..|children| - 1], bannerId) + (if IsItem(last, bannerId) then [last] else [])
  }

  /** The candidate list holds exactly the grid's product items with a
      product id, and never the banner. */
  lemma {:induction false} ItemsMembers(children: seq<Child>, bannerId: nat)
    ensures forall c :: c in Items(children, bannerId) <==> c in children && IsItem(c, bannerId)
    decreases |children|
  {
    if children != [] {
      var init := children[..|children| - 1];
      ItemsMembers(init, bannerId);
      assert children == init + [children[|children| - 1]];
    }
  }

  /** The children other than the element with this id. */
  function RemoveId(children: seq<Child>, id: nat): seq<Child>
    decreases |children|
  {
    if children == [] then []
    else
      var last := children[|children| - 1];
      RemoveId(children[..|children| - 1], id) + (if last.id == id then [] else [last])
  }

  lemma {:induction false} RemoveIdMembers(children: seq<Child>, id: nat)
    ensures forall c :: c in RemoveId(children, id) <==> c in children && c.id != id
    decreases |children|
  {
    if children != [] {
      var init := children[..|children| - 1];
      RemoveIdMembers(init, id);
      assert children == init + [children[|children| - 1]];
    }
  }

  /** The first position holding the element with this id, or -1. */
  function IndexOfId(children: seq<Child>, id: nat): (k: int)
    ensures -1 <= k < |children|
    ensures k >= 0 ==> children[k].id == id
    ensures k == -1 ==> forall c :: c in children ==> c.id != id
    decreases |children|
  {
    if children == [] then -1
    else if children[0].id == id then 0
    else
      var k := IndexOfId(children[1..], id);
      if k == -1 then -1 else k + 1
  }

  /** `parent.insertBefore(node, ref)`: the node leaves its old place and goes
      right before the child with id `ref`, or to the end for `null`. */
  function InsertBefore(children: seq<Child>, node: Child, ref: Option<nat>): seq<Child>
  {
    var rest := RemoveId(children, node.id);
    var k := if ref.Some? then IndexOfId(rest, ref.value) else -1;
    if k >= 0 then rest[..k] + [node] + rest[k..] else rest + [node]
  }

  lemma {:induction false} ItemsAppend(a: seq<Child>, b: seq<Child>, bannerId: nat)
    ensures Items(a + b, bannerId) == Items(a, bannerId) + Items(b, bannerId)
    decreases |b|
  {
    if b == [] {
      assert a + b == a;
    } else {
      var b0 := b[..|b| - 1];
      ItemsAppend(a, b0, bannerId);
      assert (a + b)[..|a + b| - 1] == a + b0;
    }
  }

  lemma {:induction false} RemoveAppend(a: seq<Child>, b: seq<Child>, id: nat)
    ensures RemoveId(a + b, id) == RemoveId(a, id) + RemoveId(b, id)
    decreases |b|
  {
    if b == [] {
      assert a + b == a;
    } else {
      var b0 := b[..|b| - 1];
      RemoveAppend(a, b0, id);
      assert (a + b)[..|a + b| - 1] == a + b0;
    }
  }

  /** Removing the banner does not change the items. */
  lemma {:induction false} ItemsIgnoreBanner(children: seq<Child>, bannerId: nat)
    ensures Items(RemoveId(children, bannerId), bannerId) == Items(children, bannerId)
    decreases |children|
  {
    if children != [] {
      var init := children[..|children| - 1];
      var last := children[|children| - 1];
      ItemsIgnoreBanner(init, bannerId);
      if last.id != bannerId {
        assert RemoveId(children, bannerId) == RemoveId(init, bannerId) + [last];
        ItemsAppend(RemoveId(init, bannerId), [last], bannerId);
        assert [last][..0] == [];
      } else {
        assert RemoveId(children, bannerId) == RemoveId(init, bannerId);
        assert Items(children, bannerId) == Items(init, bannerId);
      }
    }
  }

  /** A list without the element is unchanged by removing it. */
  lemma {:induction false} RemoveAbsent(children: seq<Child>, id: nat)
    requires forall c :: c in children ==> c.id != id
    ensures RemoveId(children, id) == children
    decreases |children|
  {
    if children != [] {
      var init := children[..|children| - 1];
      assert children == init + [children[|children| - 1]];
      assert children[|children| - 1] in children;
      RemoveAbsent(init, id);
    }
  }

  /** `insertBefore` keeps every other child, in order. */
  lemma InsertBeforeKeepsOthers(children: seq<Child>, node: Child, ref: Option<nat>)
    ensures RemoveId(InsertBefore(children, node, ref), node.id) == RemoveId(children, node.id)
  {
    var rest := RemoveId(children, node.id);
    RemoveIdMembers(children, node.id);
    var k := if ref.Some? then IndexOfId(rest, ref.value) else -1;
    RemoveAppend(rest, [node], node.id);
    assert RemoveId([node], node.id) == [] by { assert [node][..0] == []; }
    if k >= 0 {
      assert rest == rest[..k] + rest[k..];
      RemoveAbsent(rest[..k], node.id);
      RemoveAbsent(rest[k..], node.id);
      RemoveAppend(rest[..k] + [node], rest[k..], node.id);
      RemoveAppend(rest[..k], [node], node.id);
    } else {
      RemoveAbsent(rest, node.id);
    }
  }

  /** Where `insertBefore` puts the node: right before `ref` when `ref` is
      one of the other children, otherwise last. */
  lemma InsertBeforeFacts(children: seq<Child>, node: Child, ref: Option<nat>)
    ensures var r := InsertBefore(children, node, ref); var rest := RemoveId(children, node.id);
      RemoveId(r, node.id) == rest && |r| == |rest| + 1 &&
      (ref.Some? && IndexOfId(rest, ref.value) >= 0 ==>
        var k := IndexOfId(rest, ref.value); r[k] == node && r[k + 1].id == ref.value) &&
      (!(ref.Some? && IndexOfId(rest, ref.value) >= 0) ==> r[|r| - 1] == node)
  {
    InsertBeforeKeepsOthers(children, node, ref);
  }

  // ---------------------------------------------------------------------------
  // placeBanner

  /** The reference child: `items[targetIndex] || null`. */
  function RefFor(children: seq<Child>, bannerId: nat, cols: int, right: bool): Option<nat>
  {
    var items := Items(children, bannerId);
    var t := TargetIndex(cols, right);
    if 0 <= t < |items| then Some(items[t].id) else None
  }

  /** The grid's children after `placeBanner`: nothing changes without a
      banner, without a product item on the page, or with no column;
      otherwise the banner goes before the target item. */
  function Placement(children: seq<Child>, banner: Option<Child>, position: Option<string>,
                     hasItem: bool, template: string): seq<Child>
  {
    if banner.None? || !hasItem then children
    else
      var cols := GridColumns.Cols(template);
      if cols < 1 then children
      else InsertBefore(children, banner.value, RefFor(children, banner.value.id, cols, IsRight(position)))
  }

  /** The banner ends up immediately before the target item, or last when
      the grid has too few items; every other child keeps its place in order. */
  lemma PlacementFacts(children: seq<Child>, banner: Child, ref: Option<nat>, cols: int, right: bool)
    requires cols >= 1 && ref == RefFor(children, banner.id, cols, right)
    ensures var r := InsertBefore(children, banner, ref); var items := Items(children, banner.id);
      var t := TargetIndex(cols, right);
      RemoveId(r, banner.id) == RemoveId(children, banner.id) &&
      (t < |items| ==> exists k :: 0 <= k < |r| - 1 && r[k] == banner && r[k + 1].id == items[t].id) &&
      (t >= |items| ==> r[|r| - 1] == banner)
  {
    var items := Items(children, banner.id);
    var t := TargetIndex(cols, right);
    var rest := RemoveId(children, banner.id);
    InsertBeforeFacts(children, banner, ref);
    ItemsMembers(children, banner.id);
    RemoveIdMembers(children, banner.id);
    if t < |items| {
      var it := items[t];
      assert it in items;
      assert it in rest;
      var k := IndexOfId(rest, it.id);
      assert k >= 0;
    }
  }

  /** Placing twice is placing once: the banner is not among the items, so
      the second run finds the same target and leaves the children as they are. */
  lemma PlacementIdempotent(children: seq<Child>, banner: Child, cols: int, right: bool)
    requires cols >= 1
    ensures var once := InsertBefore(children, banner, RefFor(children, banner.id, cols, right));
      InsertBefore(once, banner, RefFor(once, banner.id, cols, right)) == once
  {
    var ref := RefFor(children, banner.id, cols, right);
    var once := InsertBefore(children, banner, ref);
    InsertBeforeFacts(children, banner, ref);
    var rest := RemoveId(children, banner.id);
    // both runs see the same items, hence the same reference child
    ItemsIgnoreBanner(children, banner.id);
    ItemsIgnoreBanner(once, banner.id);
    assert RefFor(once, banner.id, cols, right) == ref;
  }

  /** Nothing moves without a banner, without a product item, or with a
      template of no columns; and with them, a second run changes nothing. */
  lemma PlacementStable(children: seq<Child>, banner: Option<Child>, position: Option<string>,
                        hasItem: bool, template: string)
    ensures banner.None? || !hasItem || GridColumns.WordEnds(template) == 0 ==>
      Placement(children, banner, position, hasItem, template) == children
    ensures var once := Placement(children, banner, position, hasItem, template);
      Placement(once, banner, position, hasItem, template) == once
  {
    GridColumns.ColsCountsWords(template);
    if banner.Some? && hasItem && GridColumns.Cols(template) >= 1 {
      PlacementIdempotent(children, banner.value, GridColumns.Cols(template), IsRight(position));
    }
  }

  /** The grid that holds the first `li.product-grid__item`, and the resize
      debounce timer `window.__bannerResizeTimer`. */
  class Grid {
    var children: seq<Child>
    var timerPending: bool

    constructor (children: seq<Child>)
      ensures this.children == children && !timerPending
    {
      this.children := children;
      timerPending := false;
    }

    /** `placeBanner()` for the banner, its position attribute, whether the
        page has a product item, and the grid's computed template. */
    method PlaceBanner(banner: Option<Child>, position: Option<string>, hasItem: bool, template: string)
      modifies this
      ensures children == Placement(old(children), banner, position, hasItem, template)
      ensures timerPending == old(timerPending)
    {
      if banner.None? {
        return;
      }
      if !hasItem {
        return;
      }
      var cols := GridColumns.Cols(template);
      if cols < 1 {
        return;
      }
      var items := Items(children, banner.value.id);
      var right := IsRight(position);
      var targetIndex := TargetIndex(cols, right);
      var ref := if targetIndex < |items| then Some(items[targetIndex].id) else None;
      children := InsertBefore(children, banner.value, ref);
    }

    /** `schedule()` on `resize` and `collection:products-appended`: any
        pending run is replaced by a single new one. */
    method Schedule()
      modifies this
      ensures timerPending && children == old(children)
    {
      timerPending := true;
    }

    /** The debounce timer fires `placeBanner()`. */
    method FireTimer(banner: Option<Child>, position: Option<string>, hasItem: bool, template: string)
      modifies this
      ensures !timerPending
      ensures children == if old(timerPending) then Placement(old(children), banner, position, hasItem, template)
                          else old(children)
    {
      if !timerPending {
        return;
      }
      timerPending := false;
      PlaceBanner(banner, position, hasItem, template);
    }
  }
}
