/** The collection "load more / show less" control of assets/collection-reveal.js.
    The product items (`.product-grid__item[data-product-id]`, in document
    order) are modelled by their `is-reveal-hidden` flags alone. */
module CollectionReveal {
  import opened Wrappers
  import GridColumns

  // ---------------------------------------------------------------------------
  // Counting and selecting over the hidden flags

  /** The positions of the hidden items, in document order. */
  function HiddenPositions(h: seq<bool>): (r: seq<nat>)
    ensures |r| <= |h|
    ensures forall k :: 0 <= k < |r| ==> r[k] < |h| && h[r[k]]
    ensures forall j :: 0 <= j < |h| && h[j] ==> j in r
    ensures forall a, b :: 0 <= a < b < |r| ==> r[a] < r[b]
    decreases |h|
  {
    if h == [] then []
    else
      var init := HiddenPositions(h[..|h| - 1]);
      init + (if h[|h| - 1] then [|h| - 1] else [])
  }

  function HiddenCount(h: seq<bool>): nat { |HiddenPositions(h)| }

  /** `items.filter((li) => !li.classList.contains(HIDDEN)).length`. */
  function Shown(h: seq<bool>): nat
    decreases |h|
  {
    if h == [] then 0 else Shown(h[..|h| - 1]) + (if h[|h| - 1] then 0 else 1)
  }

  /** Every item is either shown or hidden. */
  lemma {:induction false} ShownAndHidden(h: seq<bool>)
    ensures Shown(h) + HiddenCount(h) == |h|
    decreases |h|
  {
    if h != [] {
      ShownAndHidden(h[..|h| - 1]);
    }
  }

  /** `items.some((li) => li.classList.contains(HIDDEN))`. */
  predicate AnyHidden(h: seq<bool>) {
    exists j :: 0 <= j < |h| && h[j]
  }

  lemma AnyHiddenCount(h: seq<bool>)
    ensures AnyHidden(h) <==> HiddenCount(h) > 0
  {
    if HiddenCount(h) > 0 {
      assert h[HiddenPositions(h)[0]];
    }
    if AnyHidden(h) {
      var j :| 0 <= j < |h| && h[j];
      assert j in HiddenPositions(h);
    }
  }

  /** `Math.min(shown, total)`, the number `setCount` displays. */
  function Displayed(shown: int, total: int): int {
    if shown < total then shown else total
  }

  /** The flags `hideAfterInitial(k)` and `showOnlyFirstN(k)` both leave. */
  function HiddenFrom(n: nat, k: int): (r: seq<bool>)
    ensures |r| == n
  {
    seq(n, j => j >= k)
  }

  /** Exactly the first `k` items stay visible (none for a negative `k`, all
      when there are fewer than `k`). */
  lemma {:induction false} HiddenFromShows(n: nat, k: int)
    ensures Shown(HiddenFrom(n, k)) == if k < 0 then 0 else if k > n then n else k
    decreases n
  {
    if n > 0 {
      HiddenFromShows(n - 1, k);
      assert HiddenFrom(n, k)[..n - 1] == HiddenFrom(n - 1, k);
    }
  }

  /** The end index of `slice(0, end)` on a list of `len` elements: a negative
      end counts from the back. */
  function SliceEnd(len: nat, end: int): (r: nat)
    ensures r <= len
  {
    if end < 0 then (if len + end < 0 then 0 else len + end)
    else if end < len then end else len
  }

  /** `hidden.slice(0, batch)`: the items `revealBatch` unhides. */
  function Batch(h: seq<bool>, batch: int): seq<nat>
  {
    var hp := HiddenPositions(h);
    hp[..SliceEnd(|hp|, batch)]
  }

  /** The flags after the items at `pos` lose `is-reveal-hidden`. */
  function Unhide(h: seq<bool>, pos: seq<nat>): (r: seq<bool>)
    ensures |r| == |h|
  {
    seq(|h|, j requires 0 <= j < |h| => h[j] && j !in pos)
  }

  lemma UnhideNothing(h: seq<bool>, pos: seq<nat>)
    requires pos == []
    ensures Unhide(h, pos) == h
  {
  }

  /** The flags once every staggered timer of `revealBatch(batch)` has run. */
  function Revealed(h: seq<bool>, batch: int): seq<bool>
  {
    Unhide(h, Batch(h, batch))
  }

  /** The elements of `xs` that are not in `s`, in order. */
  function Without(xs: seq<nat>, s: seq<nat>): seq<nat>
    decreases |xs|
  {
    if xs == [] then []
    else Without(xs[..|xs| - 1], s) + (if xs[|xs| - 1] in s then [] else [xs[|xs| - 1]])
  }

  lemma WithoutSnoc(xs: seq<nat>, x: nat, s: seq<nat>)
    ensures Without(xs + [x], s) == Without(xs, s) + (if x in s then [] else [x])
  {
    assert (xs + [x])[..|xs|] == xs;
  }

  lemma UnhideInit(h: seq<bool>, s: seq<nat>)
    requires h != []
    ensures Unhide(h, s)[..|h| - 1] == Unhide(h[..|h| - 1], s)
  {
  }

  lemma HiddenStep(h: seq<bool>)
    requires h != []
    ensures HiddenPositions(h) == HiddenPositions(h[..|h| - 1]) + (if h[|h| - 1] then [|h| - 1] else [])
  {
  }

  /** Unhiding removes exactly the given positions from the hidden ones. */
  lemma {:induction false} UnhideHidden(h: seq<bool>, s: seq<nat>)
    ensures HiddenPositions(Unhide(h, s)) == Without(HiddenPositions(h), s)
    decreases |h|
  {
    if h != [] {
      var n := |h|;
      var u := Unhide(h, s);
      UnhideHidden(h[..n - 1], s);
      UnhideInit(h, s);
      HiddenStep(h);
      HiddenStep(u);
      var hp := HiddenPositions(h[..n - 1]);
      assert HiddenPositions(u[..n - 1]) == Without(hp, s);
      assert u[n - 1] == (h[n - 1] && n - 1 !in s);
      WithoutSnoc(hp, n - 1, s);
      if !h[n - 1] {
        assert HiddenPositions(h) == hp;
      }
    }
  }

  lemma {:induction false} WithoutAll(xs: seq<nat>, s: seq<nat>)
    requires forall i :: 0 <= i < |xs| ==> xs[i] in s
    ensures Without(xs, s) == []
    decreases |xs|
  {
    if xs != [] {
      WithoutAll(xs[..|xs| - 1], s);
    }
  }

  lemma {:induction false} WithoutPrefix(xs: seq<nat>, s: seq<nat>, m: nat)
    requires m <= |xs|
    requires forall i :: 0 <= i < |xs| ==> (xs[i] in s <==> i < m)
    ensures Without(xs, s) == xs[m..]
    decreases |xs|
  {
    if |xs| == m {
      WithoutAll(xs, s);
    } else {
      var init := xs[..|xs| - 1];
      WithoutPrefix(init, s, m);
      assert xs[m..] == init[m..] + [xs[|xs| - 1]];
    }
  }

  /** The unhidden items come first among the hidden ones: a later hidden
      item is revealed only with every earlier one. */
  lemma RevealInOrder(h: seq<bool>, batch: int)
    ensures var r := Revealed(h, batch);
      forall j, k :: 0 <= j < k < |h| && h[j] && h[k] && !r[k] ==> !r[j]
  {
    var hp := HiddenPositions(h);
    var b := Batch(h, batch);
    var r := Revealed(h, batch);
    forall j, k | 0 <= j < k < |h| && h[j] && h[k] && !r[k] ensures !r[j] {
      var p :| 0 <= p < |b| && b[p] == k;
      var q :| 0 <= q < |hp| && hp[q] == j;
      assert q < p;
      assert b[q] == j;
    }
  }

  /** Revealing a batch of `m` items shows exactly `m` more. */
  lemma RevealCount(h: seq<bool>, batch: int)
    ensures Shown(Revealed(h, batch)) == Shown(h) + |Batch(h, batch)|
  {
    var hp := HiddenPositions(h);
    var b := Batch(h, batch);
    var m := |b|;
    forall i | 0 <= i < |hp| ensures hp[i] in b <==> i < m {
      if i < m {
        assert b[i] == hp[i];
      }
      if hp[i] in b {
        var a :| 0 <= a < m && b[a] == hp[i];
        assert hp[a] == hp[i];
      }
    }
    UnhideHidden(h, b);
    WithoutPrefix(hp, b, m);
    ShownAndHidden(h);
    ShownAndHidden(Revealed(h, batch));
  }

  /** `revealBatch(batch)` unhides exactly the first `m` hidden items in
      document order and returns `m`, which is `min(batch, hidden)` for a
      non-negative batch; no other item changes, and `m` more items show. */
  lemma RevealBatchFacts(h: seq<bool>, batch: int)
    ensures var r := Revealed(h, batch); var m := |Batch(h, batch)|;
      |r| == |h| &&
      (forall j :: 0 <= j < |h| && !h[j] ==> !r[j]) &&
      (forall j :: 0 <= j < |h| && r[j] ==> h[j]) &&
      (forall j, k :: 0 <= j < k < |h| && h[j] && h[k] && !r[k] ==> !r[j]) &&
      (batch >= 0 ==> m == if batch < HiddenCount(h) then batch else HiddenCount(h)) &&
      (batch < 0 ==> m == if HiddenCount(h) + batch < 0 then 0 else HiddenCount(h) + batch) &&
      Shown(r) == Shown(h) + m
  {
    RevealInOrder(h, batch);
    RevealCount(h, batch);
  }

  /** An enabled "Load more" with hidden items on the page always shows more. */
  lemma RevealProgress(h: seq<bool>, batch: int)
    requires batch >= 1 && HiddenCount(h) > 0
    ensures Shown(Revealed(h, batch)) > Shown(h)
  {
    RevealBatchFacts(h, batch);
  }

  /** The flags after `k` fetched items are appended, hidden, to the end of
      the first `.product-grid`: in the document-wide item list they come
      after the items up to that grid's end and before the `trailing` items
      that follow the grid. */
  function Appended(h: seq<bool>, trailing: nat, k: nat): (r: seq<bool>)
    requires trailing <= |h|
    ensures |r| == |h| + k
    ensures forall j :: 0 <= j < |h| - trailing ==> r[j] == h[j]
    ensures forall j :: |h| - trailing <= j < |h| - trailing + k ==> r[j]
    ensures forall j :: |h| - trailing + k <= j < |r| ==> r[j] == h[j - k]
  {
    h[..|h| - trailing] + seq(k, _ => true) + h[|h| - trailing..]
  }

  lemma {:induction false} HiddenCountConcat(a: seq<bool>, b: seq<bool>)
    ensures HiddenCount(a + b) == HiddenCount(a) + HiddenCount(b)
    decreases |b|
  {
    if b == [] {
      assert a + b == a;
    } else {
      var init := b[..|b| - 1];
      HiddenCountConcat(a, init);
      assert (a + b)[..|a + b| - 1] == a + init;
      HiddenStep(a + b);
      HiddenStep(b);
    }
  }

  lemma {:induction false} HiddenCountAllHidden(k: nat)
    ensures HiddenCount(seq(k, _ => true)) == k
    decreases k
  {
    if k > 0 {
      var s: seq<bool> := seq(k, _ => true);
      HiddenCountAllHidden(k - 1);
      assert s[..k - 1] == seq(k - 1, _ => true);
      HiddenStep(s);
    }
  }

  /** Appending `k` hidden items hides exactly `k` more and shows as many as before. */
  lemma AppendedCounts(h: seq<bool>, trailing: nat, k: nat)
    requires trailing <= |h|
    ensures HiddenCount(Appended(h, trailing, k)) == HiddenCount(h) + k
    ensures Shown(Appended(h, trailing, k)) == Shown(h)
  {
    var g := |h| - trailing;
    var added: seq<bool> := seq(k, _ => true);
    assert h == h[..g] + h[g..];
    HiddenCountConcat(h[..g], h[g..]);
    HiddenCountConcat(h[..g], added);
    HiddenCountConcat(h[..g] + added, h[g..]);
    HiddenCountAllHidden(k);
    ShownAndHidden(h);
    ShownAndHidden(Appended(h, trailing, k));
  }

  /** The part of the page a load-more changes right away: the item flags,
      the next URL and whether the settle timer is pending. */
  datatype Load = Load(hidden: seq<bool>, nextUrl: string, settle: bool)

  /** The synchronous outcome of `onClick`'s load branch (lines 137-149):
      reveal a batch; only when it was empty fetch the next page and reveal
      again; schedule the settle timer unless the fetch threw. */
  function LoadStep(h: seq<bool>, url: string, sectionId: string, hasGrid: bool, trailing: nat,
                    batch: int, outcome: FetchOutcome): (r: Load)
    requires trailing <= |h|
  {
    if |Batch(h, batch)| > 0 then Load(Revealed(h, batch), url, true)
    else if url == "" || sectionId == "" then Load(h, url, true)
    else match outcome
      case Rejected => Load(h, url, false)
      case Response(k, next) =>
        if k == 0 then Load(h, "", true)
        else if !hasGrid then Load(h, url, true)
        else Load(Revealed(Appended(h, trailing, k), batch), next, true)
  }

  /** For a positive batch a load never hides anything and never shrinks the
      list. It shows `min(batch, hidden)` more items when some are hidden,
      and otherwise `min(batch, k)` of the `k` items of a fetched page. Only
      a fetch that throws leaves the settle timer unscheduled. */
  lemma LoadStepFacts(h: seq<bool>, url: string, sectionId: string, hasGrid: bool, trailing: nat,
                      batch: int, outcome: FetchOutcome)
    requires trailing <= |h| && batch >= 1
    ensures var r := LoadStep(h, url, sectionId, hasGrid, trailing, batch, outcome);
      |r.hidden| >= |h| && Shown(r.hidden) >= Shown(h) &&
      (HiddenCount(h) > 0 ==> Shown(r.hidden) == Shown(h) + (if batch < HiddenCount(h) then batch else HiddenCount(h))) &&
      (HiddenCount(h) == 0 && url != "" && sectionId != "" && hasGrid && outcome.Response? && outcome.items > 0 ==>
        Shown(r.hidden) == Shown(h) + (if batch < outcome.items then batch else outcome.items) &&
        r.nextUrl == outcome.next) &&
      (!r.settle <==> HiddenCount(h) == 0 && url != "" && sectionId != "" && outcome.Rejected?)
  {
    RevealBatchFacts(h, batch);
    if HiddenCount(h) > 0 {
      assert |Batch(h, batch)| > 0;
    } else if url != "" && sectionId != "" && outcome.Response? && outcome.items > 0 && hasGrid {
      var a := Appended(h, trailing, outcome.items);
      AppendedCounts(h, trailing, outcome.items);
      RevealBatchFacts(a, batch);
    }
  }

  // ---------------------------------------------------------------------------
  // Button state

  datatype Mode = Unset | More | Less

  /** The mode `updateButtonState` picks: "less" only once every product of
      the collection is shown. */
  function ModeFor(shown: int, total: int): Mode {
    if shown >= total && total > 0 then Less else More
  }

  /** The button offers "Show less" exactly when the counter reads
      `total/total` for a non-empty collection. */
  lemma ModeAgreesWithCount(shown: int, total: int)
    ensures ModeFor(shown, total) == Less <==> total > 0 && Displayed(shown, total) == total
    ensures Displayed(shown, total) <= total
  {
  }

  /** `Math.max(2 * cols - 2, 1)`: two rows, the second sharing space with
      the two-column banner. */
  function CollapseCount(cols: int): (r: int)
    ensures r >= 1
  {
    if 2 * cols - 2 > 1 then 2 * cols - 2 else 1
  }

  /** Show less keeps the first `max(2*cols - 2, 1)` items, so a non-empty
      grid always keeps at least one product in view. */
  lemma CollapseShows(n: nat, cols: int)
    ensures Shown(HiddenFrom(n, CollapseCount(cols))) == if CollapseCount(cols) > n then n else CollapseCount(cols)
    ensures n > 0 ==> Shown(HiddenFrom(n, CollapseCount(cols))) >= 1
  {
    HiddenFromShows(n, CollapseCount(cols));
  }

  /** `wrap.dataset.x || default`: an absent or empty attribute gives the default. */
  function LabelOr(attr: Option<string>, default: string): string {
    if attr.None? || attr.value == "" then default else attr.value
  }

  /** `Number(wrap.dataset.x || default)` for an attribute holding a whole number. */
  function NumberOr(attr: Option<int>, default: int): int {
    if attr.None? then default else attr.value
  }

  /** What `fetchNextPage`'s request produces: the response page's product
      items and `data-next-url` ("" when absent), or a rejected `fetch`. */
  datatype FetchOutcome = Rejected | Response(items: nat, next: string)

  /** How `fetchNextPage` ends: it throws, or resolves to whether items were added. */
  datatype FetchResult = Threw | Resolved(ok: bool)

  /** The count text `setCount` writes: `Showing shown/total`. */
  datatype Count = Count(shown: int, total: int)

  // ---------------------------------------------------------------------------
  // The page

  /** The reveal wrapper `[data-collection-reveal]`, its product items, its
      counter and its button. */
  class Reveal {
    var hidden: seq<bool>
    const total: int
    const batch: int
    const initial: int
    const moreLabel: string
    const lessLabel: string
    const sectionId: string
    var nextUrl: string
    /** The page has a `.product-grid`. */
    const hasGrid: bool
    /** How many product items follow the first `.product-grid` in document order. */
    const trailing: nat
    /** The wrapper holds `[data-reveal-count]` / `[data-reveal-btn]`. */
    const hasCount: bool
    const hasButton: bool
    var count: Option<Count>
    var text: string
    var mode: Mode
    var disabled: bool
    /** `init` attached the click listener. */
    var listening: bool
    /** The count-and-button timer of a load-more is pending. */
    var settlePending: bool

    /** The counter never shows more than the total, the listener exists only
        on a real button, and a load in progress keeps the button disabled. */
    predicate Valid()
      reads this
    {
      (count.Some? ==> count.value.shown <= count.value.total) &&
      (listening ==> hasButton && mode != Unset) &&
      (settlePending ==> listening && disabled) &&
      trailing <= |hidden|
    }

    /** The page as served: flags as in the markup, attributes as given. */
    constructor (items: seq<bool>, totalAttr: Option<int>, batchAttr: Option<int>, initialAttr: Option<int>,
                 moreAttr: Option<string>, lessAttr: Option<string>, sectionId: string, nextUrl: string,
                 hasGrid: bool, trailing: nat, hasCount: bool, hasButton: bool, buttonText: string)
      requires trailing <= |items|
      ensures Valid() && hidden == items && !listening && !settlePending && count.None?
      ensures total == NumberOr(totalAttr, 0) && batch == NumberOr(batchAttr, 5) && initial == NumberOr(initialAttr, 12)
      ensures moreLabel == LabelOr(moreAttr, "Load more") && lessLabel == LabelOr(lessAttr, "Show less")
      ensures this.sectionId == sectionId && this.nextUrl == nextUrl && this.hasGrid == hasGrid && this.trailing == trailing
      ensures this.hasCount == hasCount && this.hasButton == hasButton && text == buttonText && mode == Unset
    {
      hidden := items;
      total := NumberOr(totalAttr, 0);
      batch := NumberOr(batchAttr, 5);
      initial := NumberOr(initialAttr, 12);
      moreLabel := LabelOr(moreAttr, "Load more");
      lessLabel := LabelOr(lessAttr, "Show less");
      this.sectionId := sectionId;
      this.nextUrl := nextUrl;
      this.hasGrid := hasGrid;
      this.trailing := trailing;
      this.hasCount := hasCount;
      this.hasButton := hasButton;
      count := None;
      text := buttonText;
      mode := Unset;
      disabled := false;
      listening := false;
      settlePending := false;
    }

    /** `getCols()` for the grid's current computed template. */
    function GetCols(template: string): (r: nat)
      reads this
      ensures !hasGrid ==> r == 0
      ensures hasGrid ==> r == GridColumns.WordEnds(template)
    {
      GridColumns.ColsCountsWords(template);
      if hasGrid then GridColumns.Cols(template) else 0
    }

    /** `hideAfterInitial(k)`: item j is hidden exactly when j >= k. */
    method HideAfterInitial(k: int)
      modifies this
      ensures hidden == HiddenFrom(|old(hidden)|, k)
      ensures count == old(count) && text == old(text) && mode == old(mode) && disabled == old(disabled)
      ensures listening == old(listening) && settlePending == old(settlePending) && nextUrl == old(nextUrl)
    {
      var h := hidden;
      var idx := 0;
      while idx < |h|
        invariant 0 <= idx <= |h| == |old(hidden)|
        invariant forall j :: 0 <= j < idx ==> h[j] == (j >= k)
      {
        if idx >= k {
          h := h[idx := true];
        } else {
          h := h[idx := false];
        }
        idx := idx + 1;
      }
      hidden := h;
    }

    /** `showOnlyFirstN(n)`: item j is shown exactly when j < n. */
    method ShowOnlyFirstN(n: int)
      modifies this
      ensures hidden == HiddenFrom(|old(hidden)|, n)
      ensures count == old(count) && text == old(text) && mode == old(mode) && disabled == old(disabled)
      ensures listening == old(listening) && settlePending == old(settlePending) && nextUrl == old(nextUrl)
    {
      var h := hidden;
      var idx := 0;
      while idx < |h|
        invariant 0 <= idx <= |h| == |old(hidden)|
        invariant forall j :: 0 <= j < idx ==> h[j] == !(j < n)
      {
        if idx < n {
          h := h[idx := false];
        } else {
          h := h[idx := true];
        }
        idx := idx + 1;
      }
      hidden := h;
    }

    /** `revealBatch(b)`: the selected items are unhidden one by one (the
        80 ms stagger is taken as finished) and their number returned. */
    method RevealBatch(b: int) returns (added: nat)
      modifies this
      ensures hidden == Revealed(old(hidden), b) && added == |Batch(old(hidden), b)|
      ensures count == old(count) && text == old(text) && mode == old(mode) && disabled == old(disabled)
      ensures listening == old(listening) && settlePending == old(settlePending) && nextUrl == old(nextUrl)
    {
      var toShow := Batch(hidden, b);
      var h := hidden;
      var i := 0;
      while i < |toShow|
        invariant 0 <= i <= |toShow| && |h| == |old(hidden)|
        invariant forall j :: 0 <= j < |h| ==> h[j] == (old(hidden)[j] && j !in toShow[..i])
      {
        assert toShow[..i + 1] == toShow[..i] + [toShow[i]];
        var li := toShow[i];
        if li < |h| {
          h := h[li := false];
        }
        i := i + 1;
      }
      assert toShow[..i] == toShow;
      hidden := h;
      added := |toShow|;
    }

    /** `setCount(wrap, Math.min(shown, total), total)`. */
    method SetCount(shown: int)
      modifies this
      ensures count == if hasCount then Some(Count(Displayed(shown, total), total)) else old(count)
      ensures hidden == old(hidden) && text == old(text) && mode == old(mode) && disabled == old(disabled)
      ensures listening == old(listening) && settlePending == old(settlePending) && nextUrl == old(nextUrl)
    {
      if hasCount {
        count := Some(Count(Displayed(shown, total), total));
      }
    }

    /** `updateButtonState`: label and mode from how many items show. */
    method UpdateButtonState()
      modifies this
      ensures mode == ModeFor(Shown(hidden), total)
      ensures text == if mode == Less then lessLabel else moreLabel
      ensures hidden == old(hidden) && count == old(count) && disabled == old(disabled)
      ensures listening == old(listening) && settlePending == old(settlePending) && nextUrl == old(nextUrl)
    {
      var shown := Shown(hidden);
      if shown >= total && total > 0 {
        text := lessLabel;
        mode := Less;
      } else {
        text := moreLabel;
        mode := More;
      }
    }

    /** `init` on `DOMContentLoaded`: hide past `initial`, show the count,
        then (with a button) enable it, set its state and listen for clicks. */
    method Init()
      requires Valid() && !listening
      modifies this
      ensures Valid()
      ensures hidden == HiddenFrom(|old(hidden)|, initial)
      ensures count == if hasCount then Some(Count(Displayed(Shown(hidden), total), total)) else old(count)
      ensures hasButton ==> (listening && !disabled && mode == ModeFor(Shown(hidden), total) &&
        text == (if mode == Less then lessLabel else moreLabel))
      ensures !hasButton ==> listening == old(listening) && disabled == old(disabled) && mode == old(mode)
      ensures settlePending == old(settlePending) && nextUrl == old(nextUrl)
    {
      HideAfterInitial(initial);
      SetCount(Shown(hidden));
      if !hasButton {
        return;
      }
      disabled := false;
      UpdateButtonState();
      listening := true;
    }

    /** `fetchNextPage`: without a next URL or section id nothing is fetched;
        an empty response clears the next URL; with a grid the new items are
        appended hidden at the end of the grid and the next URL taken from
        the response. */
    method FetchNextPage(outcome: FetchOutcome) returns (res: FetchResult)
      requires trailing <= |hidden|
      modifies this
      ensures old(nextUrl) == "" || sectionId == "" ==> res == Resolved(false) && unchanged(this)
      ensures old(nextUrl) != "" && sectionId != "" && outcome.Rejected? ==> res == Threw && unchanged(this)
      ensures old(nextUrl) != "" && sectionId != "" && outcome.Response? ==>
        (outcome.items == 0 ==> res == Resolved(false) && nextUrl == "" && hidden == old(hidden)) &&
        (outcome.items > 0 && !hasGrid ==> res == Resolved(false) && nextUrl == old(nextUrl) && hidden == old(hidden)) &&
        (outcome.items > 0 && hasGrid ==>
          res == Resolved(true) && nextUrl == outcome.next && hidden == Appended(old(hidden), trailing, outcome.items))
      ensures count == old(count) && text == old(text) && mode == old(mode) && disabled == old(disabled)
      ensures listening == old(listening) && settlePending == old(settlePending)
    {
      if nextUrl == "" || sectionId == "" {
        return Resolved(false);
      }
      match outcome {
        case Rejected =>
          return Threw;
        case Response(items, next) =>
          if items == 0 {
            nextUrl := "";
            return Resolved(false);
          }
          if !hasGrid {
            return Resolved(false);
          }
          var at := |hidden| - trailing;
          hidden := hidden[..at] + seq(items, _ => true) + hidden[at..];
          nextUrl := next;
          return Resolved(true);
      }
    }

    /** `onClick` on a full collection: collapse to two rows, update the
        count, and turn the button back into an enabled "more". */
    method ShowLess(template: string)
      requires Valid() && !settlePending
      modifies this
      ensures Valid()
      ensures hidden == HiddenFrom(|old(hidden)|, CollapseCount(GetCols(template)))
      ensures count == if hasCount then Some(Count(Displayed(Shown(hidden), total), total)) else old(count)
      ensures text == moreLabel && mode == More && !disabled && !settlePending
      ensures listening == old(listening) && nextUrl == old(nextUrl)
    {
      var cols := GetCols(template);
      var collapseCount := CollapseCount(cols);
      ShowOnlyFirstN(collapseCount);
      var shownAfter := Shown(hidden);
      SetCount(shownAfter);
      text := moreLabel;
      mode := More;
      disabled := false;
    }

    /** `onClick` on a collection not yet full: disable the button, reveal a
        batch, and when nothing was left to reveal fetch the next page and
        reveal from it; then schedule the settle timer, unless the fetch
        threw, which leaves the button disabled for good. */
    method LoadMore(outcome: FetchOutcome)
      requires Valid() && listening && !settlePending
      modifies this
      ensures Valid() && disabled && listening
      ensures Load(hidden, nextUrl, settlePending) ==
        LoadStep(old(hidden), old(nextUrl), sectionId, hasGrid, trailing, batch, outcome)
      ensures count == old(count) && text == old(text) && mode == old(mode)
    {
      disabled := true;
      ghost var h0, url0 := hidden, nextUrl;
      var added := RevealBatch(batch);
      if added == 0 {
        UnhideNothing(h0, Batch(h0, batch));
        assert hidden == h0 && nextUrl == url0;
        var res := FetchNextPage(outcome);
        if res == Threw {
          return;
        }
        if res.ok {
          added := RevealBatch(batch);
        }
      }
      settlePending := true;
    }

    /** A click on the button (`onClick`); a disabled button fires none, and
        the branch depends on whether every product already shows. */
    method OnClick(template: string, outcome: FetchOutcome)
      requires Valid()
      modifies this
      ensures Valid()
      ensures !old(listening) || old(disabled) ==> unchanged(this)
      ensures old(listening) && !old(disabled) && Shown(old(hidden)) >= total && total > 0 ==>
        hidden == HiddenFrom(|old(hidden)|, CollapseCount(GetCols(template))) &&
        count == (if hasCount then Some(Count(Displayed(Shown(hidden), total), total)) else old(count)) &&
        text == moreLabel && mode == More && !disabled && !settlePending &&
        listening && nextUrl == old(nextUrl)
      ensures old(listening) && !old(disabled) && !(Shown(old(hidden)) >= total && total > 0) ==>
        Load(hidden, nextUrl, settlePending) ==
          LoadStep(old(hidden), old(nextUrl), sectionId, hasGrid, trailing, batch, outcome) &&
        disabled && listening && count == old(count) && text == old(text) && mode == old(mode)
    {
      if !listening || disabled {
        return;
      }
      var shownNow := Shown(hidden);
      if shownNow >= total && total > 0 {
        ShowLess(template);
        return;
      }
      LoadMore(outcome);
    }

    /** The settle timer of a load-more: count, button state, then the
        button is disabled exactly when the collection is not all shown and
        there is neither a hidden item nor a next page left. */
    method FireSettle()
      requires Valid()
      modifies this
      ensures Valid() && !settlePending
      ensures !old(settlePending) ==> unchanged(this)
      ensures old(settlePending) ==>
        hidden == old(hidden) && nextUrl == old(nextUrl) &&
        count == (if hasCount then Some(Count(Displayed(Shown(hidden), total), total)) else old(count)) &&
        mode == ModeFor(Shown(hidden), total) && text == (if mode == Less then lessLabel else moreLabel) &&
        (disabled <==> Shown(hidden) < total && HiddenCount(hidden) == 0 && nextUrl == "")
    {
      if !settlePending {
        return;
      }
      settlePending := false;
      var shownLater := Shown(hidden);
      SetCount(shownLater);
      UpdateButtonState();
      var stillHidden := AnyHidden(hidden);
      AnyHiddenCount(hidden);
      var hasNext := nextUrl != "";
      disabled := false;
      if shownLater < total && !stillHidden && !hasNext {
        disabled := true;
      }
    }
  }

  /** After a settle, an enabled button in "more" mode always has something
      to do: a hidden item to reveal, a next page to fetch, or the whole
      collection already in view. */
  lemma EnabledButtonHasWork(h: seq<bool>, total: int, nextUrl: string, disabled: bool)
    requires disabled <==> Shown(h) < total && HiddenCount(h) == 0 && nextUrl == ""
    requires !disabled && ModeFor(Shown(h), total) == More
    ensures AnyHidden(h) || nextUrl != "" || Shown(h) >= total
  {
    AnyHiddenCount(h);
  }
}
