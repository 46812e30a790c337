/** The product hotspot slider of assets/product-hotspot.js: hotspot elements
    register in a class-wide list, and one active index drives the product
    track, the `is-active` marks and the two arrow buttons. */
module ProductHotspot {
  import opened Wrappers

  /** The result of `parseInt` on a `data-index`: a whole number, or NaN when
      the attribute does not start with digits. */
  datatype JsNum = Num(n: int) | NaN

  /** JavaScript's `<` and `>=` against a number: false for NaN. */
  predicate Below(x: JsNum, k: int) { x.Num? && x.n < k }
  predicate AtLeast(x: JsNum, k: int) { x.Num? && x.n >= k }

  /** A `<product-hotspot-component>` element: its identity, its
      `data-block-id` (absent is `None`), its parsed `data-index`, and whether
      it carries `is-active`. */
  datatype Hotspot = Hotspot(element: nat, blockId: Option<string>, index: JsNum, active: bool)

  /** An arrow button: `disabled` and its `aria-label`. */
  datatype Button = Button(disabled: bool, ariaLabel: string)

  /** `window.innerWidth < 990`. */
  const MOBILE_BELOW := 990
  predicate IsMobile(width: int) { width < MOBILE_BELOW }

  const PREV_LABEL := "Previous product"
  const NO_PREV_LABEL := "No previous product"
  const NEXT_LABEL := "Next product"
  const NO_NEXT_LABEL := "No next product"

  // ---------------------------------------------------------------------------
  // goToIndex's guard

  /** The bounds check of `goToIndex` as written (lines 85-91): NaN fails both
      comparisons and so is let through. */
  predicate AcceptsAsWritten(total: int, x: JsNum) {
    total != 0 && !(Below(x, 0) || AtLeast(x, total))
  }

  /** The evident intent of the bounds check at lines 85-91: only an index inside the list moves the slider. */
  predicate Accepts(total: int, x: JsNum) {
    total != 0 && x.Num? && !(x.n < 0 || x.n >= total)
  }

  /** The two guards differ only at NaN: on every number they agree. */
  lemma GuardsDifferOnlyAtNaN(total: int, x: JsNum)
    ensures x.Num? ==> (AcceptsAsWritten(total, x) <==> Accepts(total, x))
    ensures total != 0 ==> AcceptsAsWritten(total, NaN) && !Accepts(total, NaN)
  {
  }

  /** Each hotspot is active exactly when its position is the index (`i === index`). */
  function Marked(hs: seq<Hotspot>, index: JsNum): (r: seq<Hotspot>)
    ensures |r| == |hs|
    ensures forall j :: 0 <= j < |hs| ==> r[j] == hs[j].(active := index == Num(j))
  {
    seq(|hs|, j requires 0 <= j < |hs| => hs[j].(active := index == Num(j)))
  }

  /** The cards' `is-active` marks for an index. */
  function MarkedCards(cards: seq<bool>, index: JsNum): (r: seq<bool>)
    ensures |r| == |cards|
    ensures forall j :: 0 <= j < |cards| ==> r[j] == (index == Num(j))
  {
    seq(|cards|, j requires 0 <= j < |cards| => index == Num(j))
  }

  /** The discrepancy: a NaN index passes the guard, and then no hotspot and no
      card is marked active. */
  lemma NaNPassesGuard(hs: seq<Hotspot>, cards: seq<bool>)
    requires |hs| > 0
    ensures AcceptsAsWritten(|hs|, NaN) && !Accepts(|hs|, NaN)
    ensures forall j :: 0 <= j < |hs| ==> !Marked(hs, NaN)[j].active
    ensures forall j :: 0 <= j < |cards| ==> !MarkedCards(cards, NaN)[j]
  {
  }

  /** With the intended guard an accepted index marks exactly one hotspot and
      one card position: its own. */
  lemma AcceptedMarksOne(hs: seq<Hotspot>, cards: seq<bool>, x: JsNum)
    requires Accepts(|hs|, x)
    ensures Marked(hs, x)[x.n].active
    ensures forall j, k :: 0 <= j < k < |hs| ==> !(Marked(hs, x)[j].active && Marked(hs, x)[k].active)
    ensures forall j :: 0 <= j < |cards| ==> (MarkedCards(cards, x)[j] <==> j == x.n)
  {
  }

  // ---------------------------------------------------------------------------
  // updateArrows

  function PrevAfter(b: Button, total: int, active: int): (r: Button)
  {
    if total <= 1 then b.(disabled := true)
    else
      var d := active == 0;
      Button(d, if d then NO_PREV_LABEL else PREV_LABEL)
  }

  function NextAfter(b: Button, total: int, active: int): (r: Button)
  {
    if total <= 1 then b.(disabled := true)
    else
      var d := active == total - 1;
      Button(d, if d then NO_NEXT_LABEL else NEXT_LABEL)
  }

  /** The arrow rules: a list of at most one product disables both arrows and
      leaves their labels as they were; otherwise each arrow is disabled
      exactly at its end of the list, and its label says so exactly then. */
  lemma ArrowRules(p: Button, n: Button, total: int, active: int)
    ensures total <= 1 ==>
      PrevAfter(p, total, active) == p.(disabled := true) && NextAfter(n, total, active) == n.(disabled := true)
    ensures total > 1 ==>
      (PrevAfter(p, total, active).disabled <==> active == 0) &&
      (NextAfter(n, total, active).disabled <==> active == total - 1) &&
      (PrevAfter(p, total, active).ariaLabel == NO_PREV_LABEL <==> PrevAfter(p, total, active).disabled) &&
      (NextAfter(n, total, active).ariaLabel == NO_NEXT_LABEL <==> NextAfter(n, total, active).disabled)
  {
  }

  /** The prev handler (lines 185-187): one step back, only away from the first item. */
  function PrevTarget(active: int): Option<int> {
    if active > 0 then Some(active - 1) else None
  }

  /** The next handler (lines 204-206): one step on, only before the last item. */
  function NextTarget(active: int, total: int): Option<int> {
    if active < total - 1 then Some(active + 1) else None
  }

  /** An arrow delivers a click only when its listener is attached and the
      button exists and is not `disabled`: a disabled `<button>` fires no click. */
  predicate Clickable(wired: bool, b: Option<Button>) {
    wired && b.Some? && !b.value.disabled
  }

  /** With several products and an index in range, an arrow is disabled exactly
      when its handler would not move, and a move stays in range. */
  lemma ArrowsAgreeWithHandlers(p: Button, n: Button, total: int, active: int)
    requires total > 1 && 0 <= active < total
    ensures PrevAfter(p, total, active).disabled <==> PrevTarget(active).None?
    ensures NextAfter(n, total, active).disabled <==> NextTarget(active, total).None?
    ensures PrevTarget(active).Some? ==> Accepts(total, Num(PrevTarget(active).value))
    ensures NextTarget(active, total).Some? ==> Accepts(total, Num(NextTarget(active, total).value))
  {
  }

  // ---------------------------------------------------------------------------
  // The registry

  /** `findIndex` on `data-block-id`: some registered hotspot has this block id. */
  predicate HasBlock(hs: seq<Hotspot>, blockId: Option<string>) {
    exists j :: 0 <= j < |hs| && hs[j].blockId == blockId
  }

  /** No element is registered twice. */
  predicate Distinct(hs: seq<Hotspot>) {
    forall j, k :: 0 <= j < k < |hs| ==> hs[j].element != hs[k].element
  }

  /** `connectedCallback`'s registry update: push unless the block id is taken. */
  function Register(hs: seq<Hotspot>, h: Hotspot): (r: seq<Hotspot>)
  {
    if HasBlock(hs, h.blockId) then hs else hs + [h]
  }

  /** `indexOf`: the first position holding the element, or -1. */
  function IndexOf(hs: seq<Hotspot>, element: nat): (k: int)
    ensures -1 <= k < |hs|
    ensures k == -1 <==> forall j :: 0 <= j < |hs| ==> hs[j].element != element
    ensures k >= 0 ==> hs[k].element == element && forall j :: 0 <= j < k ==> hs[j].element != element
    decreases |hs|
  {
    if hs == [] then -1
    else if hs[0].element == element then 0
    else
      var k := IndexOf(hs[1..], element);
      if k == -1 then -1 else k + 1
  }

  /** `indexOf` then `splice(index, 1)` when found. */
  function Unregister(hs: seq<Hotspot>, element: nat): (r: seq<Hotspot>)
  {
    var k := IndexOf(hs, element);
    if k > -1 then hs[..k] + hs[k + 1..] else hs
  }

  /** Registering adds the hotspot at the end exactly when its block id is
      new, and afterwards the block id is always registered. */
  lemma RegisterFacts(hs: seq<Hotspot>, h: Hotspot)
    ensures var r := Register(hs, h);
      (HasBlock(hs, h.blockId) ==> r == hs) &&
      (!HasBlock(hs, h.blockId) ==> r == hs + [h]) &&
      HasBlock(r, h.blockId) && (forall x :: x in hs ==> x in r)
  {
    if !HasBlock(hs, h.blockId) {
      assert Register(hs, h)[|hs|] == h;
    }
  }

  /** Unregistering removes the element's first entry and keeps every other
      entry in order; a registry without the element is unchanged. */
  lemma UnregisterFacts(hs: seq<Hotspot>, element: nat)
    ensures var r := Unregister(hs, element); var k := IndexOf(hs, element);
      (k >= 0 ==> (|r| == |hs| - 1 && multiset(r) + multiset{hs[k]} == multiset(hs) &&
        forall j :: 0 <= j < |r| ==> r[j] == (if j < k then hs[j] else hs[j + 1]))) &&
      (k == -1 ==> r == hs)
  {
    var k := IndexOf(hs, element);
    if k >= 0 {
      SpliceFacts(hs, k);
    }
  }

  /** `splice(k, 1)` drops exactly the entry at `k`. */
  lemma SpliceFacts(hs: seq<Hotspot>, k: nat)
    requires k < |hs|
    ensures var r := hs[..k] + hs[k + 1..];
      |r| == |hs| - 1 && multiset(r) + multiset{hs[k]} == multiset(hs) &&
      forall j :: 0 <= j < |r| ==> r[j] == (if j < k then hs[j] else hs[j + 1])
  {
    var r := hs[..k] + hs[k + 1..];
    assert hs == hs[..k] + [hs[k]] + hs[k + 1..];
    assert multiset(hs) == multiset(hs[..k]) + multiset{hs[k]} + multiset(hs[k + 1..]);
    forall j | 0 <= j < |r| ensures r[j] == (if j < k then hs[j] else hs[j + 1]) {
      if j >= k {
        assert r[j] == hs[k + 1..][j - k];
      }
    }
  }

  /** In a registry without repeats the element is gone afterwards. */
  lemma UnregisterRemoves(hs: seq<Hotspot>, element: nat)
    requires Distinct(hs)
    ensures forall j :: 0 <= j < |Unregister(hs, element)| ==> Unregister(hs, element)[j].element != element
  {
    var r := Unregister(hs, element);
    var k := IndexOf(hs, element);
    UnregisterFacts(hs, element);
    forall j | 0 <= j < |r| ensures r[j].element != element {
      if k >= 0 {
        if j < k { assert r[j] == hs[j]; } else { assert r[j] == hs[j + 1]; }
      }
    }
  }

  // ---------------------------------------------------------------------------
  // Page init: `Array.from(hotspots).sort((a, b) => parseInt(a) - parseInt(b))`

  /** `a` goes before `b` in the comparator's sense: the difference is negative
      (a NaN difference counts as equal). */
  predicate Before(a: Hotspot, b: Hotspot) {
    a.index.Num? && b.index.Num? && a.index.n < b.index.n
  }

  /** An insertion sort by the comparator: each element goes after every
      earlier one it does not precede, so equal keys keep their order
      (`SortStable`). */
  function SortByIndex(hs: seq<Hotspot>): (r: seq<Hotspot>)
    ensures multiset(r) == multiset(hs)
    decreases |hs|
  {
    if hs == [] then []
    else
      var init := hs[..|hs| - 1];
      assert hs == init + [hs[|hs| - 1]];
      Insert(hs[|hs| - 1], SortByIndex(init))
  }

  function Insert(x: Hotspot, s: seq<Hotspot>): (r: seq<Hotspot>)
    ensures multiset(r) == multiset(s) + multiset{x}
    decreases |s|
  {
    if s == [] then [x]
    else if !Before(x, s[|s| - 1]) then s + [x]
    else
      var init := s[..|s| - 1];
      assert s == init + [s[|s| - 1]];
      Insert(x, init) + [s[|s| - 1]]
  }

  predicate AllNumeric(hs: seq<Hotspot>) {
    forall h :: h in hs ==> h.index.Num?
  }

  /** Ascending `data-index`. */
  predicate Ascending(hs: seq<Hotspot>)
    requires AllNumeric(hs)
  {
    forall j, k :: 0 <= j < k < |hs| ==> hs[j].index.n <= hs[k].index.n
  }

  /** Every element of `Insert(x, s)` is `x` or an element of `s`. */
  lemma InsertMembers(x: Hotspot, s: seq<Hotspot>)
    ensures forall h :: h in Insert(x, s) ==> h == x || h in s
  {
    var r := Insert(x, s);
    forall h | h in r ensures h == x || h in s {
      assert h in multiset(r);
    }
  }

  /** Appending an element bounding every earlier one keeps the order ascending. */
  lemma AppendAscending(a: seq<Hotspot>, y: Hotspot)
    requires AllNumeric(a) && y.index.Num? && Ascending(a)
    requires forall h :: h in a ==> h.index.n <= y.index.n
    ensures AllNumeric(a + [y]) && Ascending(a + [y])
  {
    var r := a + [y];
    forall j, k | 0 <= j < k < |r| ensures r[j].index.n <= r[k].index.n {
      assert r[j] == a[j];
      if k < |a| {
        assert r[k] == a[k];
      } else {
        assert a[j] in a;
      }
    }
  }

  lemma {:induction false} InsertAscending(x: Hotspot, s: seq<Hotspot>)
    requires AllNumeric(s) && x.index.Num? && Ascending(s)
    ensures AllNumeric(Insert(x, s)) && Ascending(Insert(x, s))
    decreases |s|
  {
    if s != [] {
      var y := s[|s| - 1];
      var init := s[..|s| - 1];
      assert s == init + [y];
      forall h | h in init ensures h in s && h.index.n <= y.index.n {
        var a :| 0 <= a < |init| && init[a] == h;
        assert s[a] == h;
      }
      if Before(x, y) {
        InsertAscending(x, init);
        InsertMembers(x, init);
        AppendAscending(Insert(x, init), y);
      } else {
        AppendAscending(s, x);
      }
    }
  }

  /** With numeric indexes the page-init order is ascending by `data-index` and
      holds exactly the hotspots found. */
  lemma {:induction false} SortAscending(hs: seq<Hotspot>)
    requires AllNumeric(hs)
    ensures AllNumeric(SortByIndex(hs)) && Ascending(SortByIndex(hs))
    ensures multiset(SortByIndex(hs)) == multiset(hs)
    decreases |hs|
  {
    if hs != [] {
      var init := hs[..|hs| - 1];
      assert forall h :: h in init ==> h in hs;
      SortAscending(init);
      assert hs[|hs| - 1] in hs;
      InsertAscending(hs[|hs| - 1], SortByIndex(init));
    }
  }

  /** The hotspots of `hs` whose `data-index` reads as `v`, in their order in `hs`. */
  function WithIndex(hs: seq<Hotspot>, v: JsNum): seq<Hotspot>
    decreases |hs|
  {
    if hs == [] then []
    else
      var init := hs[..|hs| - 1];
      WithIndex(init, v) + (if hs[|hs| - 1].index == v then [hs[|hs| - 1]] else [])
  }

  lemma WithIndexSnoc(a: seq<Hotspot>, y: Hotspot, v: JsNum)
    ensures WithIndex(a + [y], v) == WithIndex(a, v) + (if y.index == v then [y] else [])
  {
    assert (a + [y])[..|a|] == a;
  }

  /** Two hotspots with different indexes never both join the same tie list. */
  lemma TiesCommute(w: seq<Hotspot>, x: Hotspot, y: Hotspot, v: JsNum)
    requires Before(x, y)
    ensures w + (if x.index == v then [x] else []) + (if y.index == v then [y] else []) ==
            w + (if y.index == v then [y] else []) + (if x.index == v then [x] else [])
  {
  }

  /** Insertion puts `x` after every element with the same index. */
  lemma {:induction false} InsertKeepsTies(x: Hotspot, s: seq<Hotspot>, v: JsNum)
    ensures WithIndex(Insert(x, s), v) == WithIndex(s, v) + (if x.index == v then [x] else [])
    decreases |s|
  {
    if s == [] {
      WithIndexSnoc([], x, v);
      assert [] + [x] == [x];
    } else {
      var y := s[|s| - 1];
      var init := s[..|s| - 1];
      assert s == init + [y];
      if Before(x, y) {
        var r := Insert(x, init);
        assert Insert(x, s) == r + [y];
        InsertKeepsTies(x, init, v);
        WithIndexSnoc(r, y, v);
        WithIndexSnoc(init, y, v);
        TiesCommute(WithIndex(init, v), x, y, v);
      } else {
        assert Insert(x, s) == s + [x];
        WithIndexSnoc(s, x, v);
      }
    }
  }

  /** The page-init sort is stable: hotspots with the same `data-index` (NaN
      included) keep the order in which they were found. */
  lemma {:induction false} SortStable(hs: seq<Hotspot>, v: JsNum)
    ensures WithIndex(SortByIndex(hs), v) == WithIndex(hs, v)
    decreases |hs|
  {
    if hs != [] {
      var init := hs[..|hs| - 1];
      SortStable(init, v);
      InsertKeepsTies(hs[|hs| - 1], SortByIndex(init), v);
    }
  }

  // ---------------------------------------------------------------------------
  // What `goToIndex` and `initializeSlider` do to the page

  /** The fields `goToIndex` reads and writes: the registry's marks, the
      active index, the track shift, the cards and the two arrow buttons. */
  datatype Slider = Slider(instances: seq<Hotspot>, activeIndex: int, trackShift: int,
                           cards: seq<bool>, prev: Option<Button>, next: Option<Button>)

  /** The listeners: on the prev / next arrow, and on the hotspots' triggers. */
  datatype Wiring = Wiring(prevWired: bool, nextWired: bool, clickable: set<nat>, hoverable: set<nat>)

  /** `goToIndex(index)` with the intended guard, on a list of `total` hotspots. */
  function GoTo(s: Slider, total: int, hasTrack: bool, index: JsNum): (r: Slider)
    ensures !Accepts(total, index) ==> r == s
    ensures Accepts(total, index) ==>
      r.activeIndex == index.n && |r.instances| == |s.instances| && |r.cards| == |s.cards| &&
      (forall j :: 0 <= j < |r.instances| ==> r.instances[j] == s.instances[j].(active := j == index.n)) &&
      (forall j :: 0 <= j < |r.cards| ==> (r.cards[j] <==> j == index.n)) &&
      r.trackShift == (if hasTrack then 100 * index.n else s.trackShift)
    ensures Accepts(total, index) && s.prev.Some? && s.next.Some? ==>
      r.prev == Some(PrevAfter(s.prev.value, total, index.n)) && r.next == Some(NextAfter(s.next.value, total, index.n))
    ensures !(s.prev.Some? && s.next.Some?) ==> r.prev == s.prev && r.next == s.next
  {
    if !Accepts(total, index) then s
    else
      var n := index.n;
      var both := s.prev.Some? && s.next.Some?;
      Slider(Marked(s.instances, index), n, if hasTrack then n * 100 else s.trackShift,
             MarkedCards(s.cards, index),
             if both then Some(PrevAfter(s.prev.value, total, n)) else s.prev,
             if both then Some(NextAfter(s.next.value, total, n)) else s.next)
  }

  /** Going to the same index twice is the same as going there once. */
  lemma GoToIdempotent(s: Slider, total: int, hasTrack: bool, index: JsNum)
    ensures GoTo(GoTo(s, total, hasTrack, index), total, hasTrack, index) == GoTo(s, total, hasTrack, index)
  {
    var r := GoTo(s, total, hasTrack, index);
    var r2 := GoTo(r, total, hasTrack, index);
    if Accepts(total, index) {
      assert r2.instances == r.instances;
      assert r2.cards == r.cards;
    }
  }

  /** `initializeSlider`'s arrow buttons: the ones inside `#HotspotProductCard`
      when it exists (missing ones become null), else the old ones. */
  function WithArrows(s: Slider, hasCard: bool, prevInCard: Option<Button>, nextInCard: Option<Button>): (r: Slider)
    ensures hasCard ==> r.prev == prevInCard && r.next == nextInCard
    ensures r.(prev := s.prev, next := s.next) == s
    ensures !hasCard ==> r == s
  {
    if hasCard then s.(prev := prevInCard, next := nextInCard) else s
  }

  /** Each arrow found carries exactly one click listener afterwards. */
  function WiredArrows(w: Wiring, hasCard: bool, prevInCard: Option<Button>, nextInCard: Option<Button>): (r: Wiring)
    ensures hasCard ==> (r.prevWired <==> prevInCard.Some?) && (r.nextWired <==> nextInCard.Some?)
    ensures r.clickable == w.clickable && r.hoverable == w.hoverable
    ensures !hasCard ==> r == w
  {
    if hasCard then w.(prevWired := prevInCard.Some?, nextWired := nextInCard.Some?) else w
  }

  // ---------------------------------------------------------------------------
  // The class-wide state

  /** The static fields of `ProductHotspotComponent` together with the page
      elements they drive: the product track, the cards and the arrows. */
  class Registry {
    var instances: seq<Hotspot>
    var totalItems: int
    var activeIndex: int
    var prevButton: Option<Button>
    var nextButton: Option<Button>
    /** A click listener from `initializeSlider` is on the prev / next arrow. */
    var prevWired: bool
    var nextWired: bool
    const hasTrack: bool
    /** The percentage the track is shifted left by (`translateX(-n%)`). */
    var trackShift: int
    var cards: seq<bool>
    /** Elements whose trigger has the click / the mouseenter listener of `setupEvents`. */
    var clickable: set<nat>
    var hoverable: set<nat>
    /** Each component's pending `hoverTimer`, with the index it goes to. */
    var hoverTimers: map<nat, JsNum>
    /** How many `initializeSlider` timeouts of `connectedCallback` are pending;
        none is ever cleared, so each one set adds one. */
    var sliderTimers: nat
    /** How many `goToIndex(0)` timeouts of `initializeSlider` are pending. */
    var startTimers: nat

    predicate Valid()
      reads this
    {
      totalItems == |instances| && 0 <= activeIndex
    }

    function SliderOf(): Slider
      reads this
    {
      Slider(instances, activeIndex, trackShift, cards, prevButton, nextButton)
    }

    function WiringOf(): Wiring
      reads this
    {
      Wiring(prevWired, nextWired, clickable, hoverable)
    }

    /** The script's static initial values on a page with `cardCount` cards. */
    constructor (hasTrack: bool, cardCount: nat)
      ensures Valid() && instances == [] && totalItems == 0 && activeIndex == 0
      ensures prevButton.None? && nextButton.None? && |cards| == cardCount
      ensures hoverTimers == map[] && sliderTimers == 0 && startTimers == 0 && this.hasTrack == hasTrack
      ensures !prevWired && !nextWired
      ensures clickable == {} && hoverable == {}
    {
      instances := [];
      totalItems := 0;
      activeIndex := 0;
      prevButton := None;
      nextButton := None;
      prevWired := false;
      nextWired := false;
      this.hasTrack := hasTrack;
      trackShift := 0;
      cards := seq(cardCount, _ => false);
      hoverTimers := map[];
      clickable := {};
      hoverable := {};
      sliderTimers := 0;
      startTimers := 0;
    }

    /** `updateActiveStates(index)`: both `forEach` loops. */
    method UpdateActiveStates(index: JsNum)
      modifies this
      ensures instances == Marked(old(instances), index) && cards == MarkedCards(old(cards), index)
      ensures totalItems == old(totalItems) && activeIndex == old(activeIndex)
      ensures prevButton == old(prevButton) && nextButton == old(nextButton) && trackShift == old(trackShift)
      ensures prevWired == old(prevWired) && nextWired == old(nextWired) && hoverTimers == old(hoverTimers)
      ensures sliderTimers == old(sliderTimers) && startTimers == old(startTimers)
      ensures clickable == old(clickable) && hoverable == old(hoverable)
    {
      var hs := instances;
      var i := 0;
      while i < |hs|
        invariant 0 <= i <= |hs| == |old(instances)|
        invariant forall j :: 0 <= j < i ==> hs[j] == old(instances)[j].(active := index == Num(j))
        invariant forall j :: i <= j < |hs| ==> hs[j] == old(instances)[j]
      {
        hs := hs[i := hs[i].(active := index == Num(i))];
        i := i + 1;
      }
      var cs := cards;
      var k := 0;
      while k < |cs|
        invariant 0 <= k <= |cs| == |old(cards)|
        invariant forall j :: 0 <= j < k ==> cs[j] == (index == Num(j))
      {
        cs := cs[k := index == Num(k)];
        k := k + 1;
      }
      instances, cards := hs, cs;
    }

    /** `updateArrows`: nothing without both buttons; see `ArrowRules`. */
    method UpdateArrows()
      modifies this
      ensures prevButton.Some? == old(prevButton).Some? && nextButton.Some? == old(nextButton).Some?
      ensures old(prevButton).Some? && old(nextButton).Some? ==>
        prevButton == Some(PrevAfter(old(prevButton).value, totalItems, activeIndex)) &&
        nextButton == Some(NextAfter(old(nextButton).value, totalItems, activeIndex))
      ensures !(old(prevButton).Some? && old(nextButton).Some?) ==>
        prevButton == old(prevButton) && nextButton == old(nextButton)
      ensures instances == old(instances) && totalItems == old(totalItems) && activeIndex == old(activeIndex)
      ensures cards == old(cards) && trackShift == old(trackShift) && hoverTimers == old(hoverTimers)
      ensures prevWired == old(prevWired) && nextWired == old(nextWired)
      ensures sliderTimers == old(sliderTimers) && startTimers == old(startTimers)
      ensures clickable == old(clickable) && hoverable == old(hoverable)
    {
      if prevButton.None? || nextButton.None? {
        return;
      }
      var p, n := prevButton.value, nextButton.value;
      if totalItems <= 1 {
        prevButton := Some(p.(disabled := true));
        nextButton := Some(n.(disabled := true));
        return;
      }
      p := p.(disabled := activeIndex == 0);
      n := n.(disabled := activeIndex == totalItems - 1);
      if p.disabled {
        p := p.(ariaLabel := NO_PREV_LABEL);
      } else {
        p := p.(ariaLabel := PREV_LABEL);
      }
      if n.disabled {
        n := n.(ariaLabel := NO_NEXT_LABEL);
      } else {
        n := n.(ariaLabel := NEXT_LABEL);
      }
      prevButton, nextButton := Some(p), Some(n);
    }

    /** `goToIndex(index)`, with the intended guard (`Accepts`): an index outside
        the list, or NaN, changes nothing; otherwise the track shifts to it,
        exactly its hotspot and card are marked, it becomes the active index
        and the arrows are brought up to date. */
    method GoToIndex(index: JsNum)
      requires Valid()
      modifies this
      ensures Valid() && SliderOf() == GoTo(old(SliderOf()), totalItems, hasTrack, index)
      ensures totalItems == old(totalItems) && WiringOf() == old(WiringOf()) && hoverTimers == old(hoverTimers)
      ensures sliderTimers == old(sliderTimers) && startTimers == old(startTimers)
    {
      if totalItems == 0 {
        return;
      }
      if index.NaN? || index.n < 0 || index.n >= totalItems {
        return;
      }
      if hasTrack {
        trackShift := index.n * 100;
      }
      UpdateActiveStates(index);
      activeIndex := index.n;
      UpdateArrows();
    }

    /** `connectedCallback` of a hotspot element: registry update, then
        `setupEvents` (a trigger gets the click listener, and the mouseenter
        one when the viewport is not mobile-sized); when the registry then
        holds one hotspot, one more slider timer is pending. */
    method Connect(h: Hotspot, hasTrigger: bool, width: int)
      requires Valid()
      modifies this
      ensures Valid() && instances == Register(old(instances), h) && totalItems == |instances|
      ensures clickable == if hasTrigger then old(clickable) + {h.element} else old(clickable)
      ensures hoverable == if hasTrigger && !IsMobile(width) then old(hoverable) + {h.element} else old(hoverable)
      ensures sliderTimers == old(sliderTimers) + (if |instances| == 1 then 1 else 0)
      ensures activeIndex == old(activeIndex) && cards == old(cards) && trackShift == old(trackShift)
      ensures prevButton == old(prevButton) && nextButton == old(nextButton) && hoverTimers == old(hoverTimers)
      ensures prevWired == old(prevWired) && nextWired == old(nextWired) && startTimers == old(startTimers)
    {
      var found := -1;
      var j := 0;
      while j < |instances|
        invariant 0 <= j <= |instances|
        invariant found == -1 <==> forall k :: 0 <= k < j ==> instances[k].blockId != h.blockId
        invariant found != -1 ==> 0 <= found < j && instances[found].blockId == h.blockId
      {
        if found == -1 && instances[j].blockId == h.blockId {
          found := j;
        }
        j := j + 1;
      }
      if found == -1 {
        instances := instances + [h];
        totalItems := |instances|;
      }
      if hasTrigger {
        clickable := clickable + {h.element};
        if !IsMobile(width) {
          hoverable := hoverable + {h.element};
        }
      }
      if |instances| == 1 {
        sliderTimers := sliderTimers + 1;
      }
    }

    /** `disconnectedCallback`: its hover timer is cleared and it leaves the
        registry; the active index is left as it was. */
    method Disconnect(element: nat)
      requires Valid()
      modifies this
      ensures Valid() && instances == Unregister(old(instances), element) && totalItems == |instances|
      ensures hoverTimers == old(hoverTimers) - {element}
      ensures activeIndex == old(activeIndex) && cards == old(cards) && trackShift == old(trackShift)
      ensures prevButton == old(prevButton) && nextButton == old(nextButton)
      ensures prevWired == old(prevWired) && nextWired == old(nextWired)
      ensures sliderTimers == old(sliderTimers) && startTimers == old(startTimers)
      ensures clickable == old(clickable) && hoverable == old(hoverable)
    {
      hoverTimers := hoverTimers - {element};
      var at := -1;
      var j := 0;
      while j < |instances|
        invariant 0 <= j <= |instances|
        invariant at == -1 <==> forall k :: 0 <= k < j ==> instances[k].element != element
        invariant at != -1 ==> at == IndexOf(instances, element)
      {
        if at == -1 && instances[j].element == element {
          at := j;
        }
        j := j + 1;
      }
      if at > -1 {
        instances := instances[..at] + instances[at + 1..];
        totalItems := |instances|;
      }
    }

    /** A click on a hotspot's trigger: `handleClick` goes to its index. */
    method HandleClick(element: nat, index: JsNum)
      requires Valid()
      modifies this
      ensures Valid()
      ensures SliderOf() == if element in old(clickable) then GoTo(old(SliderOf()), totalItems, hasTrack, index) else old(SliderOf())
      ensures totalItems == old(totalItems) && WiringOf() == old(WiringOf()) && hoverTimers == old(hoverTimers)
      ensures sliderTimers == old(sliderTimers) && startTimers == old(startTimers)
    {
      if element !in clickable {
        return;
      }
      GoToIndex(index);
    }

    /** The trigger's `mouseenter`: `handleHover` restarts the component's
        hover timer with its index, unless the viewport is now mobile-sized. */
    method HandleHover(element: nat, index: JsNum, width: int)
      requires Valid()
      modifies this
      ensures Valid()
      ensures hoverTimers ==
        if element in hoverable && !IsMobile(width) then old(hoverTimers)[element := index] else old(hoverTimers)
      ensures SliderOf() == old(SliderOf()) && totalItems == old(totalItems) && WiringOf() == old(WiringOf())
      ensures sliderTimers == old(sliderTimers) && startTimers == old(startTimers)
    {
      if element !in hoverable || IsMobile(width) {
        return;
      }
      hoverTimers := hoverTimers[element := index];
    }

    /** A component's hover timer fires and goes to the index it was set with. */
    method FireHoverTimer(element: nat)
      requires Valid()
      modifies this
      ensures Valid() && hoverTimers == old(hoverTimers) - {element}
      ensures SliderOf() ==
        if element in old(hoverTimers) then GoTo(old(SliderOf()), totalItems, hasTrack, old(hoverTimers)[element])
        else old(SliderOf())
      ensures totalItems == old(totalItems) && WiringOf() == old(WiringOf())
      ensures sliderTimers == old(sliderTimers) && startTimers == old(startTimers)
    {
      if element !in hoverTimers {
        return;
      }
      var index := hoverTimers[element];
      hoverTimers := hoverTimers - {element};
      GoToIndex(index);
    }

    /** `initializeSlider`, given what the page holds: whether
        `#HotspotProductCard` exists and the arrow buttons inside it.  Each
        button found is replaced by a copy (dropping old listeners) and gets
        one click listener; then one more `goToIndex(0)` timer is pending. */
    method InitializeSlider(hasCard: bool, prevInCard: Option<Button>, nextInCard: Option<Button>)
      requires Valid()
      modifies this
      ensures Valid() && startTimers == old(startTimers) + 1
      ensures SliderOf() == WithArrows(old(SliderOf()), hasCard, prevInCard, nextInCard)
      ensures WiringOf() == WiredArrows(old(WiringOf()), hasCard, prevInCard, nextInCard)
      ensures totalItems == old(totalItems) && hoverTimers == old(hoverTimers) && sliderTimers == old(sliderTimers)
    {
      if hasCard {
        prevButton := prevInCard;
        prevWired := prevButton.Some?;
        nextButton := nextInCard;
        nextWired := nextButton.Some?;
      }
      startTimers := startTimers + 1;
    }

    /** One pending slider timer of `connectedCallback` fires: `initializeSlider`. */
    method FireSliderTimer(hasCard: bool, prevInCard: Option<Button>, nextInCard: Option<Button>)
      requires Valid()
      modifies this
      ensures Valid() && sliderTimers == (if old(sliderTimers) > 0 then old(sliderTimers) - 1 else 0)
      ensures startTimers == old(startTimers) + (if old(sliderTimers) > 0 then 1 else 0)
      ensures SliderOf() == if old(sliderTimers) > 0 then WithArrows(old(SliderOf()), hasCard, prevInCard, nextInCard) else old(SliderOf())
      ensures WiringOf() == if old(sliderTimers) > 0 then WiredArrows(old(WiringOf()), hasCard, prevInCard, nextInCard) else old(WiringOf())
      ensures totalItems == old(totalItems) && hoverTimers == old(hoverTimers)
    {
      if sliderTimers == 0 {
        return;
      }
      sliderTimers := sliderTimers - 1;
      InitializeSlider(hasCard, prevInCard, nextInCard);
    }

    /** One pending `goToIndex(0)` timer fires; the hotspot count is read when it does. */
    method FireStartTimer()
      requires Valid()
      modifies this
      ensures Valid() && startTimers == (if old(startTimers) > 0 then old(startTimers) - 1 else 0)
      ensures SliderOf() ==
        if old(startTimers) > 0 && old(totalItems) > 0 then GoTo(old(SliderOf()), totalItems, hasTrack, Num(0)) else old(SliderOf())
      ensures totalItems == old(totalItems) && WiringOf() == old(WiringOf()) && hoverTimers == old(hoverTimers)
      ensures sliderTimers == old(sliderTimers)
    {
      if startTimers == 0 {
        return;
      }
      startTimers := startTimers - 1;
      if totalItems > 0 {
        GoToIndex(Num(0));
      }
    }

    /** A click on the prev arrow. A button the page shows as disabled
        dispatches no click, so only a wired, enabled arrow runs the listener,
        which steps back unless at the first item. */
    method PrevClick()
      requires Valid()
      modifies this
      ensures Valid()
      ensures SliderOf() ==
        if Clickable(prevWired, old(prevButton)) && PrevTarget(old(activeIndex)).Some?
        then GoTo(old(SliderOf()), totalItems, hasTrack, Num(PrevTarget(old(activeIndex)).value))
        else old(SliderOf())
      ensures totalItems == old(totalItems) && WiringOf() == old(WiringOf()) && hoverTimers == old(hoverTimers)
      ensures sliderTimers == old(sliderTimers) && startTimers == old(startTimers)
    {
      if !Clickable(prevWired, prevButton) {
        return;
      }
      if activeIndex > 0 {
        GoToIndex(Num(activeIndex - 1));
      }
    }

    /** A click on the next arrow: as `PrevClick`, only a wired, enabled arrow
        runs the listener, which steps on unless at the last item. */
    method NextClick()
      requires Valid()
      modifies this
      ensures Valid()
      ensures SliderOf() ==
        if Clickable(nextWired, old(nextButton)) && NextTarget(old(activeIndex), totalItems).Some?
        then GoTo(old(SliderOf()), totalItems, hasTrack, Num(NextTarget(old(activeIndex), totalItems).value))
        else old(SliderOf())
      ensures totalItems == old(totalItems) && WiringOf() == old(WiringOf()) && hoverTimers == old(hoverTimers)
      ensures sliderTimers == old(sliderTimers) && startTimers == old(startTimers)
    {
      if !Clickable(nextWired, nextButton) {
        return;
      }
      if activeIndex < totalItems - 1 {
        GoToIndex(Num(activeIndex + 1));
      }
    }

    /** `DOMContentLoaded`: the hotspots found in the document, in document
        order, replace the registry sorted by `data-index`, and the slider is
        initialised; without hotspots nothing happens. */
    method PageInit(found: seq<Hotspot>, hasCard: bool, prevInCard: Option<Button>, nextInCard: Option<Button>)
      requires Valid()
      modifies this
      ensures Valid()
      ensures SliderOf() ==
        if |found| > 0 then WithArrows(old(SliderOf()), hasCard, prevInCard, nextInCard).(instances := SortByIndex(found))
        else old(SliderOf())
      ensures WiringOf() == if |found| > 0 then WiredArrows(old(WiringOf()), hasCard, prevInCard, nextInCard) else old(WiringOf())
      ensures totalItems == if |found| > 0 then |found| else old(totalItems)
      ensures startTimers == old(startTimers) + (if |found| > 0 then 1 else 0)
      ensures hoverTimers == old(hoverTimers) && sliderTimers == old(sliderTimers)
    {
      if |found| == 0 {
        return;
      }
      var sorted := SortByIndex(found);
      instances := sorted;
      totalItems := |sorted|;
      InitializeSlider(hasCard, prevInCard, nextInCard);
    }
  }
}
