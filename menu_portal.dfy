/** The menu portal of assets/menu-portal.js: submenu panels are shown as
    detached copies ("clones") placed under their trigger instead of in place.

    This module holds the pure parts (panel lookup, clone construction,
    placement) and the session state machine as step functions over a
    `PortalState` value.  Timers, animation frames and `transitionend` are
    pending-event flags in that state; a step that "fires" one is a function
    of its own.  The class in menu_portal_session.dfy runs these steps in
    place. */
module MenuPortal {
  import opened Wrappers
  import opened MenuDom

  /** `(min-width: 750px)`: below this viewport width hovering opens nothing. */
  const DESKTOP_MIN := 750
  /** The smallest left offset a clone is given, in pixels. */
  const MIN_LEFT := 8
  /** The stacking layer used when `--layer-header-menu` is empty. */
  const DEFAULT_LAYER := "9999"
  /** Prefix of the id a clone gets when its panel has none. */
  const CLONE_ID_PREFIX := "menu-portal-clone-"

  predicate IsDesktop(viewportWidth: int) {
    viewportWidth >= DESKTOP_MIN
  }

  // ---------------------------------------------------------------------------
  // Clone factory (buildCloneFromOriginal)

  /** No strict descendant matches a panel selector. */
  predicate PanelFree(n: Node) {
    forall c :: c in n.children ==> !c.panel && PanelFree(c)
  }

  /** The element and every descendant have no id. */
  predicate IdFree(n: Node) {
    n.id == "" && forall c :: c in n.children ==> IdFree(c)
  }

  /** Two trees that differ at most in their `id` attributes. */
  predicate SameShape(a: Node, b: Node) {
    a.panel == b.panel && a.panelClass == b.panelClass && a.subMenu == b.subMenu && a.header == b.header &&
    a.toggle == b.toggle && a.menuItem == b.menuItem &&
    a.action == b.action && a.controls == b.controls &&
    |a.children| == |b.children| &&
    forall k :: 0 <= k < |a.children| ==> SameShape(a.children[k], b.children[k])
  }

  /** `cloneNode(true)`: the copy stands in no document, so nothing above its
      root carries `.header`, and the panel flags are those of a tree of its own. */
  function Detach(n: Node): (r: Node)
    ensures r.(panel := n.panel, children := n.children) == n && r.panel == n.panelClass
    ensures |r.children| == |n.children|
  {
    InContext(n, false)
  }

  /** Removes, with their subtrees, the descendants that match a panel selector
      (the `querySelectorAll(PANEL_SELECTORS)` removal loop); the root stays. */
  function Prune(n: Node): (r: Node)
    ensures r.(children := n.children) == n
    ensures PanelFree(r)
    decreases n, |n.children| + 1
  {
    n.(children := KeptFrom(n, 0))
  }

  /** The pruned children `i`, `i + 1`, ... of `n`, panels left out. */
  function KeptFrom(n: Node, i: nat): (r: seq<Node>)
    requires i <= |n.children|
    ensures forall m :: m in r ==> !m.panel && PanelFree(m)
    decreases n, |n.children| - i
  {
    if i == |n.children| then []
    else (if n.children[i].panel then [] else [Prune(n.children[i])]) + KeptFrom(n, i + 1)
  }

  /** An element with its own id and every descendant id removed. */
  function Unid(n: Node): (r: Node)
    ensures IdFree(r) && SameShape(r, n)
  {
    n.(id := "", children := seq(|n.children|, k requires 0 <= k < |n.children| => Unid(n.children[k])))
  }

  /** `querySelectorAll('[id]').forEach(el => el.removeAttribute('id'))`: strict
      descendants lose their ids, the root keeps its own. */
  function StripIds(n: Node): (r: Node)
    ensures r.id == n.id && SameShape(r, n)
    ensures forall c :: c in r.children ==> IdFree(c)
  {
    n.(children := seq(|n.children|, k requires 0 <= k < |n.children| => Unid(n.children[k])))
  }

  /** The id of a clone's root: the panel's own, or a generated one (line 56). */
  function CloneRootId(id: string, suffix: string): (r: string)
    ensures r != ""
    ensures id != "" ==> r == id
    ensures id == "" ==> |r| >= |CLONE_ID_PREFIX| && r[..|CLONE_ID_PREFIX|] == CLONE_ID_PREFIX
  {
    if id == "" then CLONE_ID_PREFIX + suffix else id
  }

  lemma {:induction false} SameShapeAt(a: Node, b: Node, q: Path)
    requires SameShape(a, b) && ValidPath(a, q)
    ensures ValidPath(b, q) && SameShape(At(a, q), At(b, q))
    decreases q
  {
    if q != [] {
      SameShapeAt(a.children[q[0]], b.children[q[0]], q[1..]);
    }
  }

  lemma SameShapeSymmetric(a: Node, b: Node)
    requires SameShape(a, b)
    ensures SameShape(b, a)
  {
  }

  lemma {:induction false} PanelFreeAt(n: Node, q: Path)
    requires PanelFree(n) && q != [] && ValidPath(n, q)
    ensures !At(n, q).panel
    decreases q
  {
    assert n.children[q[0]] in n.children;
    if |q| > 1 {
      PanelFreeAt(n.children[q[0]], q[1..]);
    }
  }

  lemma {:induction false} IdFreeAt(n: Node, q: Path)
    requires IdFree(n) && ValidPath(n, q)
    ensures At(n, q).id == ""
    decreases q
  {
    if q != [] {
      assert n.children[q[0]] in n.children;
      IdFreeAt(n.children[q[0]], q[1..]);
    }
  }

  lemma {:induction false} SameShapePanelFree(a: Node, b: Node)
    requires SameShape(a, b) && PanelFree(a)
    ensures PanelFree(b)
    decreases a
  {
    forall c | c in b.children ensures !c.panel && PanelFree(c) {
      var k :| 0 <= k < |b.children| && b.children[k] == c;
      assert a.children[k] in a.children;
      SameShapePanelFree(a.children[k], c);
    }
  }

  /** A selector other than the id ones matches the same paths in trees of the same shape. */
  lemma SameShapeMatches(a: Node, b: Node, sel: Selector)
    requires SameShape(a, b) && sel in {PanelSel, ToggleSel, MenuItemSel, ActionSel}
    ensures QuerySelector(a, sel).None? ==> QuerySelector(b, sel).None?
  {
    if QuerySelector(b, sel).Some? {
      var q := QuerySelector(b, sel).value;
      SameShapeSymmetric(a, b);
      SameShapeAt(b, a, q);
    }
  }

  /** `buildCloneFromOriginal`: a deep copy of the panel whose root keeps its id
      or receives a generated one, with nested panels removed, rejected when no
      `a[href]` or `button[role="menuitem"]` remains, and with every descendant
      id removed. */
  function BuildClone(panel: Node, suffix: string): (r: Option<Node>)
    ensures r.None? <==> QuerySelector(Prune(Detach(panel)), ActionSel).None?
    ensures r.Some? ==> r.value.id == CloneRootId(panel.id, suffix) && r.value.panel == panel.panelClass
    ensures r.Some? ==> SameShape(r.value, Prune(Detach(panel)))
    ensures r.Some? ==> QuerySelector(r.value, PanelSel).None?
    ensures r.Some? ==> QuerySelector(r.value, AnyId).None?
    ensures r.Some? ==> QuerySelector(r.value, ActionSel).Some? && PanelFree(r.value)
    ensures (forall c :: c in Detach(panel).children ==> c.panel) ==> r.None?
  {
    var copy := Detach(panel);
    var pruned := Prune(copy).(id := CloneRootId(panel.id, suffix));
    MatchesFromChildrenOnly(pruned, Prune(copy), 0, ActionSel);
    CloneFacts(pruned);
    AllPanelsKeepNothing(copy, 0);
    if QuerySelector(pruned, ActionSel).None? then None else Some(StripIds(pruned))
  }

  /** What removing the descendant ids does to a pruned copy. */
  lemma CloneFacts(pruned: Node)
    requires PanelFree(pruned)
    ensures QuerySelector(StripIds(pruned), PanelSel).None?
    ensures QuerySelector(StripIds(pruned), AnyId).None?
    ensures QuerySelector(pruned, ActionSel).Some? ==> QuerySelector(StripIds(pruned), ActionSel).Some?
    ensures PanelFree(StripIds(pruned))
  {
    var clone := StripIds(pruned);
    SameShapeSymmetric(clone, pruned);
    SameShapePanelFree(pruned, clone);
    if QuerySelector(clone, PanelSel).Some? {
      PanelFreeAt(clone, QuerySelector(clone, PanelSel).value);
    }
    if QuerySelector(clone, AnyId).Some? {
      var q := QuerySelector(clone, AnyId).value;
      assert clone.children[q[0]] in clone.children;
      IdFreeAt(clone.children[q[0]], q[1..]);
    }
    SameShapeMatches(clone, pruned, ActionSel);
  }

  /** A `.header .sub-menu` panel whose links sit in a nested `.sub-menu`:
      in the page both match a panel selector, but in the detached copy
      neither has a `.header` above it, so the nested one is kept and the
      copy is accepted with its link. */
  lemma HeaderSubMenuKeepsNestedLinks()
    ensures var link := Node(false, false, false, false, false, false, true, "", "", []);
      var nested := Node(true, false, true, false, false, false, false, "", "", [link]);
      var panel := Node(true, false, true, false, false, false, false, "", "", [nested]);
      Prune(panel).children == [] && BuildClone(panel, "a").Some?
  {
    var link := Node(false, false, false, false, false, false, true, "", "", []);
    var nested := Node(true, false, true, false, false, false, false, "", "", [link]);
    var panel := Node(true, false, true, false, false, false, false, "", "", [nested]);
    assert KeptFrom(panel, 1) == [];
    var copy := Detach(panel);
    assert copy.children[0] == Detach(nested);
    assert Detach(nested).children[0] == link;
    var pruned := Prune(copy);
    assert KeptFrom(Detach(nested), 0) == [link] by {
      assert KeptFrom(Detach(nested), 1) == [];
      assert Prune(link) == link by { assert KeptFrom(link, 0) == []; }
    }
    assert KeptFrom(copy, 0) == [Prune(Detach(nested))] by { assert KeptFrom(copy, 1) == []; }
    assert ValidPath(pruned, [0, 0]) && At(pruned, [0, 0]) == link;
  }

  lemma {:induction false} AllPanelsKeepNothing(n: Node, i: nat)
    requires i <= |n.children|
    ensures (forall c :: c in n.children ==> c.panel) ==> KeptFrom(n, i) == []
    decreases |n.children| - i
  {
    if i < |n.children| {
      assert n.children[i] in n.children;
      AllPanelsKeepNothing(n, i + 1);
    }
  }

  // ---------------------------------------------------------------------------
  // What pruning keeps

  /** An element's own attributes, without its children. */
  function Label(n: Node): Node {
    n.(children := [])
  }

  /** Every strict descendant of `n`, in document order. */
  function Labels(n: Node): seq<Node>
    decreases n
  {
    LabelsOf(n.children)
  }

  /** The trees `cs` and all of their descendants, in document order. */
  function LabelsOf(cs: seq<Node>): seq<Node>
    decreases cs
  {
    if cs == [] then [] else [Label(cs[0])] + Labels(cs[0]) + LabelsOf(cs[1..])
  }

  /** The strict descendants of `n` with no panel on the way down from `n`
      (themselves included), in document order. */
  function Survivors(n: Node): seq<Node>
    decreases n
  {
    SurvivorsOf(n.children)
  }

  function SurvivorsOf(cs: seq<Node>): seq<Node>
    decreases cs
  {
    if cs == [] then []
    else (if cs[0].panel then [] else [Label(cs[0])] + Survivors(cs[0])) + SurvivorsOf(cs[1..])
  }

  lemma {:induction false} LabelsOfConcat(a: seq<Node>, b: seq<Node>)
    ensures LabelsOf(a + b) == LabelsOf(a) + LabelsOf(b)
    decreases a
  {
    if a == [] {
      assert a + b == b;
    } else {
      assert (a + b)[0] == a[0] && (a + b)[1..] == a[1..] + b;
      LabelsOfConcat(a[1..], b);
    }
  }

  /** Pruning keeps exactly the descendants with no panel on the way down,
      in document order and with all their attributes: nothing else is
      removed and nothing is reordered. */
  lemma {:induction false} PruneKeepsSurvivors(n: Node)
    ensures Labels(Prune(n)) == Survivors(n)
    decreases n, |n.children| + 1
  {
    KeptSurvivors(n, 0);
    assert n.children[0..] == n.children;
  }

  lemma {:induction false} KeptSurvivors(n: Node, i: nat)
    requires i <= |n.children|
    ensures LabelsOf(KeptFrom(n, i)) == SurvivorsOf(n.children[i..])
    decreases n, |n.children| - i
  {
    if i < |n.children| {
      var c := n.children[i];
      var head: seq<Node> := if c.panel then [] else [Prune(c)];
      KeptSurvivors(n, i + 1);
      LabelsOfConcat(head, KeptFrom(n, i + 1));
      assert n.children[i..][0] == c && n.children[i..][1..] == n.children[i + 1..];
      if !c.panel {
        PruneKeepsSurvivors(c);
        assert Label(Prune(c)) == Label(c);
        assert LabelsOf(head) == [Label(c)] + Labels(Prune(c)) by {
          assert head[1..] == [];
        }
      }
    }
  }

  /** On a tree with no nested panel, pruning changes nothing. */
  lemma {:induction false} PruneNothing(n: Node)
    requires PanelFree(n)
    ensures Prune(n) == n
    decreases n, |n.children| + 1
  {
    KeepAll(n, 0);
    assert n.children[0..] == n.children;
  }

  lemma {:induction false} KeepAll(n: Node, i: nat)
    requires PanelFree(n) && i <= |n.children|
    ensures KeptFrom(n, i) == n.children[i..]
    decreases n, |n.children| - i
  {
    if i < |n.children| {
      var c := n.children[i];
      assert c in n.children;
      KeepAll(n, i + 1);
      PruneNothing(c);
      assert n.children[i..] == [c] + n.children[i + 1..];
    }
  }

  /** The element at every path below `m` is listed. */
  lemma {:induction false} LabelAtIn(m: Node, q: Path)
    requires q != [] && ValidPath(m, q)
    ensures Label(At(m, q)) in Labels(m)
    decreases q
  {
    var c := m.children[q[0]];
    LabelsOfHas(m.children, q[0]);
    if |q| > 1 {
      LabelAtIn(c, q[1..]);
    }
  }

  lemma {:induction false} LabelsOfHas(cs: seq<Node>, i: nat)
    requires i < |cs|
    ensures Label(cs[i]) in LabelsOf(cs)
    ensures forall x :: x in Labels(cs[i]) ==> x in LabelsOf(cs)
    decreases i
  {
    if i > 0 {
      assert cs[1..][i - 1] == cs[i];
      LabelsOfHas(cs[1..], i - 1);
    }
  }

  /** Everything listed is the element at some path below `m`. */
  lemma {:induction false} LabelHasPath(m: Node, x: Node)
    requires x in Labels(m)
    ensures exists q :: q != [] && ValidPath(m, q) && Label(At(m, q)) == x
    decreases m, |m.children| + 1
  {
    assert m.children[0..] == m.children;
    LabelsOfPath(m, 0, x);
  }

  lemma {:induction false} LabelsOfPath(m: Node, i: nat, x: Node)
    requires i <= |m.children| && x in LabelsOf(m.children[i..])
    ensures exists q :: q != [] && ValidPath(m, q) && Label(At(m, q)) == x
    decreases m, |m.children| - i
  {
    var cs := m.children[i..];
    var c := m.children[i];
    assert cs[0] == c && cs[1..] == m.children[i + 1..];
    if x == Label(c) {
      ChildPaths(m, i);
      assert ValidPath(c, []) && [i] + [] == [i];
      assert ValidPath(m, [i]) && At(m, [i]) == c;
    } else if x in Labels(c) {
      LabelHasPath(c, x);
      var q' :| q' != [] && ValidPath(c, q') && Label(At(c, q')) == x;
      ChildPaths(m, i);
      assert ValidPath(m, [i] + q') && At(m, [i] + q') == At(c, q');
    } else {
      LabelsOfPath(m, i + 1, x);
    }
  }

  /** `buildCloneFromOriginal` rejects a panel exactly when none of the
      elements that survive pruning of its detached copy is an `a[href]` or a
      `button[role="menuitem"]`. */
  lemma BuildCloneRejects(panel: Node, suffix: string)
    ensures BuildClone(panel, suffix).None? <==> forall x :: x in Survivors(Detach(panel)) ==> !x.action
  {
    var p := Prune(Detach(panel));
    PruneKeepsSurvivors(Detach(panel));
    if BuildClone(panel, suffix).None? {
      forall x | x in Survivors(Detach(panel)) ensures !x.action {
        LabelHasPath(p, x);
      }
    } else {
      var q := QuerySelector(p, ActionSel).value;
      LabelAtIn(p, q);
    }
  }

  // ---------------------------------------------------------------------------
  // Positioner (positionClone, applyTransformPosition)

  /** What the positioner reads at the moment it runs: the trigger's bounding box
      (whole pixels) and the value of `--layer-header-menu`. */
  datatype Geometry = Geometry(left: int, bottom: int, layerVar: string)

  /** The clone's `translate3d(left, top)` and its `z-index`. */
  datatype Placement = Placement(left: int, top: int, layer: string)

  /** Off-screen start position of a freshly built clone (line 75). */
  const OFFSCREEN := Placement(-9999, -9999, "")

  function Place(g: Geometry): (p: Placement)
    ensures p.top == g.bottom
    ensures p.left >= MIN_LEFT && p.left >= g.left && (p.left == g.left || p.left == MIN_LEFT)
    ensures p.layer != "" && (g.layerVar != "" ==> p.layer == g.layerVar)
  {
    Placement(if g.left > MIN_LEFT then g.left else MIN_LEFT, g.bottom,
              if g.layerVar == "" then DEFAULT_LAYER else g.layerVar)
  }

  // ---------------------------------------------------------------------------
  // Session state

  type CloneId = nat

  /** An element: in the page, or inside an attached clone. */
  datatype Target = Page(path: Path) | InClone(clone: CloneId, path: Path)

  /** One clone node and the expando state the script keeps on it. */
  datatype CloneRec = CloneRec(
    content: Node,            // the built copy
    panel: Target,            // the original panel it copies
    toggle: Target,           // the trigger captured by its handlers
    at: Placement,            // transform and z-index
    attached: bool,           // in the document
    isOpen: bool,             // carries `is-open`
    openFrame: bool,          // the frame that adds `is-open` is pending
    closing: bool,            // `_closing`; until it is set, the listeners it put on its
                              // trigger, itself, the document and the window are attached
    repositionPending: bool,  // the `pending` flag of its reposition closure
    repositionFrame: bool,    // its reposition frame is queued
    closeTimer: bool,         // `clone._closeTimer` is pending
    awaitingTransition: bool, // its `transitionend` listener is attached
    removeTimer: bool)        // its 160 ms removal fallback is pending

  /** The pending `hoverOpenTimeout`: open `panel` for `toggle` when it fires. */
  datatype Hover = Hover(panel: Target, toggle: Target)

  datatype PortalState = PortalState(
    page: Node,
    clones: map<CloneId, CloneRec>,   // every clone built so far
    nextId: CloneId,                  // identity of the next clone to be built
    activeClone: Option<CloneId>,
    activeOriginal: Option<Target>,
    hoverOpen: Option<Hover>,
    toggleTimers: map<Target, CloneId>, // `toggle._closeTimer`, with the clone its callback closes
    expanded: map<Target, bool>)        // `aria-expanded` written on triggers

  predicate Resolvable(s: PortalState, t: Target) {
    match t
    case Page(p) => ValidPath(s.page, p)
    case InClone(c, p) => c in s.clones && ValidPath(s.clones[c].content, p)
  }

  /** The tree the target lives in. */
  function TreeOf(s: PortalState, t: Target): (n: Node)
    requires Resolvable(s, t)
    ensures ValidPath(n, t.path)
  {
    match t
    case Page(_) => s.page
    case InClone(c, _) => s.clones[c].content
  }

  function NodeAt(s: PortalState, t: Target): Node
    requires Resolvable(s, t)
  {
    At(TreeOf(s, t), t.path)
  }

  /** The element at path `q` of the same tree as `t`. */
  function Rehome(t: Target, q: Path): (r: Target)
    ensures r.path == q && r.Page? == t.Page? && (t.InClone? ==> r.clone == t.clone)
  {
    match t
    case Page(_) => Page(q)
    case InClone(c, _) => InClone(c, q)
  }

  /** `s2` keeps every tree of `s`: the page, and every clone with its content. */
  predicate Keeps(s: PortalState, s2: PortalState) {
    s2.page == s.page && s.nextId <= s2.nextId &&
    forall c :: c in s.clones ==>
      (c in s2.clones && s2.clones[c].content == s.clones[c].content &&
       s2.clones[c].panel == s.clones[c].panel && s2.clones[c].toggle == s.clones[c].toggle)
  }

  lemma KeepsResolvable(s: PortalState, s2: PortalState, t: Target)
    requires Keeps(s, s2) && Resolvable(s, t)
    ensures Resolvable(s2, t) && TreeOf(s2, t) == TreeOf(s, t)
  {
  }

  /** `closest(sel)` from a target.  Above a clone's root lie only `body` and
      `html`, which match none of the portal's selectors. */
  function ClosestTarget(s: PortalState, t: Target, sel: Selector): (r: Option<Target>)
    requires Resolvable(s, t)
    ensures r.Some? ==> Resolvable(s, r.value) && Matches(NodeAt(s, r.value), sel)
    ensures r.Some? ==>
      (r.value == Rehome(t, r.value.path) && |r.value.path| <= |t.path| &&
       r.value.path == t.path[..|r.value.path|])
    ensures r.None? ==> forall k :: 0 <= k <= |t.path| ==>
      ValidPath(TreeOf(s, t), t.path[..k]) && !Matches(At(TreeOf(s, t), t.path[..k]), sel)
  {
    match Closest(TreeOf(s, t), t.path, sel)
    case Some(q) => Some(Rehome(t, q))
    case None => None
  }

  // ---------------------------------------------------------------------------
  // Panel locator (findPanelForToggle)

  /** Rule (a): the first panel inside the nearest menu-item container of `p`. */
  function ItemPanel(root: Node, p: Path): (r: Option<Path>)
    requires ValidPath(root, p)
    ensures r.Some? ==> ValidPath(root, r.value) && At(root, r.value).panel
    ensures r.Some? ==> var m := Closest(root, p, MenuItemSel);
      m.Some? && |m.value| < |r.value| && r.value[..|m.value|] == m.value
    ensures r.Some? ==> var m := Closest(root, p, MenuItemSel).value;
      forall q :: q != [] && ValidPath(At(root, m), q) && At(At(root, m), q).panel ==>
        q == r.value[|m|..] || Precedes(r.value[|m|..], q)
    ensures r.None? ==> match Closest(root, p, MenuItemSel)
      case None => true
      case Some(m) => forall q :: q != [] && ValidPath(At(root, m), q) ==> !At(At(root, m), q).panel
  {
    match Closest(root, p, MenuItemSel)
    case None => None
    case Some(m) =>
      match QuerySelector(At(root, m), PanelSel)
      case None => None
      case Some(q) =>
        Descend(root, m, q);
        assert (m + q)[..|m|] == m && (m + q)[|m|..] == q;
        Some(m + q)
  }

  /** Rule (b): the page element whose id the trigger's `aria-controls` names.
      `getElementById` also searches the clones, but they stand after the page
      in document order (appended to the body) and none of their descendants
      keeps an id (`CloneFacts`).  A clone root carries its original's id,
      which the original before it already has, or a generated
      `menu-portal-clone-` id.  So the first hit is the page element, unless
      `aria-controls` names such a generated id and the page has no element
      with it; that case is left out. */
  function ControlsPanel(page: Node, controls: string): (r: Option<Path>)
    ensures r.Some? ==> controls != "" && ValidPath(page, r.value) && At(page, r.value).id == controls
    ensures r.None? ==> controls == "" || forall q :: ValidPath(page, q) ==> At(page, q).id != controls
  {
    if controls == "" then None else ElementById(page, controls)
  }

  /** Rule (c): the trigger's next element sibling, when it is a panel. */
  function SiblingPanel(root: Node, p: Path): (r: Option<Path>)
    requires ValidPath(root, p)
    ensures r.Some? ==> r == NextSibling(root, p) && At(root, r.value).panel
    ensures r.None? ==> NextSibling(root, p).None? || !At(root, NextSibling(root, p).value).panel
  {
    match NextSibling(root, p)
    case Some(q) => if At(root, q).panel then Some(q) else None
    case None => None
  }

  /** `findPanelForToggle`: rule (a), else rule (b), else rule (c), else nothing. */
  function FindPanel(s: PortalState, t: Target): (r: Option<Target>)
    requires Resolvable(s, t)
    ensures r.Some? ==> Resolvable(s, r.value)
    ensures r.Some? ==>
      (NodeAt(s, r.value).panel || (r.value.Page? && NodeAt(s, r.value).id == NodeAt(s, t).controls))
    ensures r.None? <==>
      (ItemPanel(TreeOf(s, t), t.path).None? &&
       ControlsPanel(s.page, NodeAt(s, t).controls).None? && SiblingPanel(TreeOf(s, t), t.path).None?)
  {
    var root := TreeOf(s, t);
    var own := ItemPanel(root, t.path);
    if own.Some? then Some(Rehome(t, own.value))
    else
      var byId := ControlsPanel(s.page, At(root, t.path).controls);
      if byId.Some? then Some(Page(byId.value))
      else
        match SiblingPanel(root, t.path)
        case Some(q) => Some(Rehome(t, q))
        case None => None
  }

  /** The resolution order: the menu-item rule wins, then `aria-controls`, then the sibling. */
  lemma FindPanelOrder(s: PortalState, t: Target)
    requires Resolvable(s, t)
    ensures var own := ItemPanel(TreeOf(s, t), t.path);
      own.Some? ==> FindPanel(s, t) == Some(Rehome(t, own.value))
    ensures var byId := ControlsPanel(s.page, NodeAt(s, t).controls);
      ItemPanel(TreeOf(s, t), t.path).None? && byId.Some? ==> FindPanel(s, t) == Some(Page(byId.value))
    ensures var sib := SiblingPanel(TreeOf(s, t), t.path);
      (ItemPanel(TreeOf(s, t), t.path).None? && ControlsPanel(s.page, NodeAt(s, t).controls).None? &&
       sib.Some?) ==> FindPanel(s, t) == Some(Rehome(t, sib.value))
  {
  }

  /** A trigger inside a clone can only resolve to a page element: the clone has
      no nested panel for rules (a) and (c) to find. */
  lemma {:induction false} CloneTriggerResolvesToPage(s: PortalState, t: Target)
    requires t.InClone? && Resolvable(s, t) && PanelFree(TreeOf(s, t))
    ensures FindPanel(s, t).Some? ==> FindPanel(s, t).value.Page?
  {
    var root := TreeOf(s, t);
    var own := ItemPanel(root, t.path);
    if own.Some? {
      var m := Closest(root, t.path, MenuItemSel).value;
      PanelFreeAt(root, own.value);
    }
    var sib := SiblingPanel(root, t.path);
    if sib.Some? {
      PanelFreeAt(root, sib.value);
    }
  }
  // ---------------------------------------------------------------------------
  // Session invariant

  /** The page's `panel` flags are what the selectors give in the document:
      nothing stands above its root element. */
  predicate PageFlags(page: Node) {
    InContext(page, false) == page
  }

  function Init(page: Node): (s: PortalState)
    requires PageFlags(page)
    ensures Inv(s) && s.activeClone.None? && s.clones == map[]
  {
    PortalState(page, map[], 0, None, None, None, map[], map[])
  }

  /** Clone `c` is in the document and not fading out. */
  predicate Live(s: PortalState, c: CloneId) {
    c in s.clones && s.clones[c].attached && !s.clones[c].closing
  }

  predicate ActiveInv(s: PortalState) {
    (s.activeClone.Some? <==> s.activeOriginal.Some?) &&
    (s.activeClone.Some? ==>
      s.activeClone.value in s.clones && s.clones[s.activeClone.value].attached &&
      s.clones[s.activeClone.value].panel == s.activeOriginal.value)
  }

  /** The flags of one clone record that every step keeps consistent: only the
      active clone may be in the document without fading out, removal is
      pending only once closing started, and a queued frame has `pending` set. */
  predicate RecOk(r: CloneRec, active: bool) {
    (r.attached && !active ==> r.closing) &&
    (!r.closing ==> !r.awaitingTransition && !r.removeTimer) &&
    (r.repositionFrame ==> r.repositionPending)
  }

  predicate RecFlags(s: PortalState, c: CloneId)
    requires c in s.clones
  {
    c < s.nextId && RecOk(s.clones[c], s.activeClone == Some(c))
  }

  /** What a clone record refers to: a panel-free copy, and a panel and a trigger that exist. */
  predicate RecGrounded(s: PortalState, c: CloneId)
    requires c in s.clones
  {
    var r := s.clones[c];
    PanelFree(r.content) && Resolvable(s, r.panel) && Resolvable(s, r.toggle)
  }

  predicate Inv(s: PortalState) {
    ActiveInv(s) &&
    (forall c :: c in s.clones ==> RecFlags(s, c) && RecGrounded(s, c)) &&
    (forall t :: t in s.toggleTimers ==> s.toggleTimers[t] in s.clones) &&
    (s.hoverOpen.Some? ==> Resolvable(s, s.hoverOpen.value.panel) && Resolvable(s, s.hoverOpen.value.toggle))
  }

  /** At most one clone is shown and not fading out, and it is the active one. */
  lemma LiveIsActive(s: PortalState, c: CloneId, d: CloneId)
    requires Inv(s) && Live(s, c)
    ensures s.activeClone == Some(c) && s.activeOriginal == Some(s.clones[c].panel)
    ensures Live(s, d) ==> c == d
  {
    assert RecFlags(s, c);
    if d in s.clones { assert RecFlags(s, d); }
  }

  /** A step that keeps every tree and the pending hover keeps the invariant once
      the active slot, the flags and the trigger timers are consistent. */
  lemma KeepsInv(s: PortalState, r: PortalState)
    requires Inv(s) && Keeps(s, r) && ActiveInv(r)
    requires forall c :: c in r.clones ==> c in s.clones || RecGrounded(r, c)
    requires forall c :: c in r.clones ==> RecFlags(r, c)
    requires forall t :: t in r.toggleTimers ==> r.toggleTimers[t] in r.clones
    requires r.hoverOpen.Some? ==>
      Resolvable(s, r.hoverOpen.value.panel) && Resolvable(s, r.hoverOpen.value.toggle)
    ensures Inv(r)
  {
    forall c | c in r.clones ensures RecGrounded(r, c) {
      if c in s.clones {
        assert RecGrounded(s, c);
        KeepsResolvable(s, r, s.clones[c].panel);
        KeepsResolvable(s, r, s.clones[c].toggle);
      }
    }
    if r.hoverOpen.Some? {
      KeepsResolvable(s, r, r.hoverOpen.value.panel);
      KeepsResolvable(s, r, r.hoverOpen.value.toggle);
    }
  }

  /** The state with another pending hover pair. */
  function WithHover(s: PortalState, h: Option<Hover>): (r: PortalState)
    requires Inv(s) && (h.Some? ==> Resolvable(s, h.value.panel) && Resolvable(s, h.value.toggle))
    ensures Inv(r) && Keeps(s, r) && r == s.(hoverOpen := h)
  {
    var r := s.(hoverOpen := h);
    KeepsInv(s, r);
    r
  }

  /** The state with other trigger close timers, each closing a known clone. */
  function WithToggleTimers(s: PortalState, m: map<Target, CloneId>): (r: PortalState)
    requires Inv(s) && forall t :: t in m ==> m[t] in s.clones
    ensures Inv(r) && Keeps(s, r) && r == s.(toggleTimers := m)
  {
    var r := s.(toggleTimers := m);
    KeepsInv(s, r);
    r
  }

  /** A record changed in place: same content, panel and trigger. */
  function Update(s: PortalState, c: CloneId, r: CloneRec): (t: PortalState)
    requires c in s.clones
    requires r.content == s.clones[c].content && r.panel == s.clones[c].panel && r.toggle == s.clones[c].toggle
    ensures Keeps(s, t) && t.clones.Keys == s.clones.Keys && t.clones[c] == r
    ensures forall d :: d in s.clones && d != c ==> t.clones[d] == s.clones[d]
  {
    s.(clones := s.clones[c := r])
  }

  /** Changing the flags of one record keeps the invariant when it keeps them consistent. */
  lemma UpdateKeepsInv(s: PortalState, c: CloneId, r: CloneRec)
    requires Inv(s) && c in s.clones
    requires r.content == s.clones[c].content && r.panel == s.clones[c].panel && r.toggle == s.clones[c].toggle
    requires r.attached == s.clones[c].attached || (!r.attached && s.activeClone != Some(c))
    requires RecOk(r, s.activeClone == Some(c))
    ensures Inv(Update(s, c, r))
  {
    var t := Update(s, c, r);
    assert forall d :: d in t.clones ==> RecFlags(t, d) by {
      forall d | d in t.clones ensures RecFlags(t, d) { assert RecFlags(s, d); }
    }
    KeepsInv(s, t);
  }

  // ---------------------------------------------------------------------------
  // Closing and removal (smoothCloseClone, its removeNode, closeAllClonesImmediate)

  /** The record after `smoothCloseClone` ran on it. */
  function Closed(r: CloneRec): CloneRec {
    r.(closing := true, isOpen := false, awaitingTransition := true, removeTimer := true)
  }

  /** `smoothCloseClone(clone)`: ignored for a clone already closing; otherwise the
      clone loses `is-open` and its listeners and waits for `transitionend` or the
      160 ms fallback.  It stays the active clone until it is removed. */
  function SmoothClose(s: PortalState, c: CloneId): (r: PortalState)
    requires Inv(s)
    ensures Inv(r) && Keeps(s, r) && r.clones.Keys == s.clones.Keys && r.nextId == s.nextId
    ensures r.activeClone == s.activeClone && r.activeOriginal == s.activeOriginal
    ensures r.hoverOpen == s.hoverOpen && r.toggleTimers == s.toggleTimers && r.expanded == s.expanded
    ensures c in s.clones ==> r.clones[c].closing && !Live(r, c)
    ensures c in s.clones && !s.clones[c].closing ==> r.clones[c] == Closed(s.clones[c])
    ensures forall d :: d in s.clones && d != c ==> r.clones[d] == s.clones[d]
    ensures (c !in s.clones || s.clones[c].closing) ==> r == s
  {
    if c !in s.clones || s.clones[c].closing then s
    else
      assert RecFlags(s, c);
      UpdateKeepsInv(s, c, Closed(s.clones[c]));
      Update(s, c, Closed(s.clones[c]))
  }

  /** `closeAllClones` as published on `window.__MenuPortal`, and the click
      outside any trigger and any panel: smooth-close the active clone, if any. */
  function CloseActive(s: PortalState): (r: PortalState)
    requires Inv(s)
    ensures Inv(r) && Keeps(s, r) && r.clones.Keys == s.clones.Keys && r.nextId == s.nextId
    ensures r.activeClone == s.activeClone && r.activeOriginal == s.activeOriginal
    ensures forall c :: c in r.clones ==> !Live(r, c)
    ensures s.activeClone.Some? ==> r.clones[s.activeClone.value].closing
    ensures s.activeClone.None? ==> r == s
  {
    match s.activeClone
    case None =>
      assert forall c :: c in s.clones ==> !Live(s, c) by {
        forall c | c in s.clones ensures !Live(s, c) { assert RecFlags(s, c); }
      }
      s
    case Some(a) =>
      var r := SmoothClose(s, a);
      assert forall c :: c in r.clones ==> !Live(r, c) by {
        forall c | c in r.clones ensures !Live(r, c) { assert RecFlags(r, c); }
      }
      r
  }

  /** `removeNode`: the clone leaves the document; the session ends only when it
      is still the active clone. */
  function RemoveNode(s: PortalState, c: CloneId): (r: PortalState)
    requires Inv(s) && c in s.clones && s.clones[c].closing
    ensures Inv(r) && Keeps(s, r) && r.clones.Keys == s.clones.Keys
    ensures r.clones[c] == s.clones[c].(attached := false)
    ensures forall d :: d in s.clones && d != c ==> r.clones[d] == s.clones[d]
    ensures s.activeClone == Some(c) ==> r.activeClone.None? && r.activeOriginal.None?
    ensures s.activeClone != Some(c) ==> r.activeClone == s.activeClone && r.activeOriginal == s.activeOriginal
    ensures r.hoverOpen == s.hoverOpen && r.toggleTimers == s.toggleTimers && r.expanded == s.expanded
  {
    var t := Update(s, c, s.clones[c].(attached := false));
    var r := if s.activeClone == Some(c) then t.(activeClone := None, activeOriginal := None) else t;
    RemoveKeepsInv(s, c, r);
    r
  }

  /** Detaching a closing clone, and ending the session when it is the active
      one, keeps the invariant. */
  lemma RemoveKeepsInv(s: PortalState, c: CloneId, r: PortalState)
    requires Inv(s) && c in s.clones && s.clones[c].closing
    requires var t := Update(s, c, s.clones[c].(attached := false));
      r == if s.activeClone == Some(c) then t.(activeClone := None, activeOriginal := None) else t
    ensures Inv(r)
  {
    var t := Update(s, c, s.clones[c].(attached := false));
    if s.activeClone == Some(c) {
      RemoveActiveKeepsInv(s, c, t, r);
    } else {
      RemoveOtherKeepsInv(s, c, t);
    }
  }

  lemma RemoveActiveKeepsInv(s: PortalState, c: CloneId, t: PortalState, r: PortalState)
    requires Inv(s) && c in s.clones && s.clones[c].closing && s.activeClone == Some(c)
    requires t == Update(s, c, s.clones[c].(attached := false))
    requires r == t.(activeClone := None, activeOriginal := None)
    ensures Inv(r)
  {
    assert forall d :: d in r.clones ==> RecFlags(r, d) by {
      forall d | d in r.clones ensures RecFlags(r, d) {
        assert RecFlags(s, d);
      }
    }
    KeepsInv(s, r);
  }

  lemma RemoveOtherKeepsInv(s: PortalState, c: CloneId, t: PortalState)
    requires Inv(s) && c in s.clones && s.clones[c].closing && s.activeClone != Some(c)
    requires t == Update(s, c, s.clones[c].(attached := false))
    ensures Inv(t)
  {
    assert RecFlags(s, c);
    UpdateKeepsInv(s, c, s.clones[c].(attached := false));
  }

  /** The clone's own `transitionend`: its listener detaches and the node is removed. */
  function TransitionEnd(s: PortalState, c: CloneId): (r: PortalState)
    requires Inv(s)
    ensures Inv(r) && Keeps(s, r)
    ensures c in s.clones && s.clones[c].awaitingTransition ==>
      c in r.clones && !r.clones[c].attached && !r.clones[c].awaitingTransition &&
      r.clones[c].removeTimer == s.clones[c].removeTimer &&
      (if s.activeClone == Some(c) then r.activeClone.None? else r.activeClone == s.activeClone)
    ensures !(c in s.clones && s.clones[c].awaitingTransition) ==> r == s
  {
    if c in s.clones && s.clones[c].awaitingTransition then
      var rec := s.clones[c].(awaitingTransition := false);
      assert RecFlags(s, c);
      UpdateKeepsInv(s, c, rec);
      RemoveNode(Update(s, c, rec), c)
    else s
  }

  /** The 160 ms fallback: the `transitionend` listener detaches and the node is removed. */
  function FireRemoveTimer(s: PortalState, c: CloneId): (r: PortalState)
    requires Inv(s)
    ensures Inv(r) && Keeps(s, r)
    ensures c in s.clones && s.clones[c].removeTimer ==>
      c in r.clones && !r.clones[c].attached && !r.clones[c].awaitingTransition && !r.clones[c].removeTimer &&
      (if s.activeClone == Some(c) then r.activeClone.None? else r.activeClone == s.activeClone)
    ensures forall d :: d in s.clones && d != c ==> r.clones[d] == s.clones[d]
    ensures !(c in s.clones && s.clones[c].removeTimer) ==> r == s
  {
    if c in s.clones && s.clones[c].removeTimer then
      var rec := s.clones[c].(awaitingTransition := false, removeTimer := false);
      assert RecFlags(s, c);
      UpdateKeepsInv(s, c, rec);
      RemoveNode(Update(s, c, rec), c)
    else s
  }

  /** `closeAllClonesImmediate` (page hide and unload): the active clone is
      taken out of the document at once; its listeners stay attached. */
  function CloseAllImmediate(s: PortalState): (r: PortalState)
    requires Inv(s)
    ensures Inv(r) && Keeps(s, r) && r.clones.Keys == s.clones.Keys
    ensures r.activeClone.None? && r.activeOriginal.None?
    ensures forall c :: c in r.clones ==> !r.clones[c].attached || r.clones[c].closing
    ensures s.activeClone.Some? ==> r.clones[s.activeClone.value] == s.clones[s.activeClone.value].(attached := false)
    ensures forall d :: d in s.clones && Some(d) != s.activeClone ==> r.clones[d] == s.clones[d]
  {
    match s.activeClone
    case None =>
      assert forall c :: c in s.clones ==> !s.clones[c].attached || s.clones[c].closing by {
        forall c | c in s.clones ensures !s.clones[c].attached || s.clones[c].closing { assert RecFlags(s, c); }
      }
      s
    case Some(a) =>
      var r := Update(s, a, s.clones[a].(attached := false)).(activeClone := None, activeOriginal := None);
      assert forall d :: d in r.clones ==> RecFlags(r, d) by {
        forall d | d in r.clones ensures RecFlags(r, d) { assert RecFlags(s, d); }
      }
      KeepsInv(s, r);
      r
  }

  // ---------------------------------------------------------------------------
  // Repositioning (the `pending` flag and frame of each clone's requestReposition)

  /** `requestReposition`: queues one frame unless one is already pending. */
  function RequestReposition(s: PortalState, c: CloneId): (r: PortalState)
    requires Inv(s)
    ensures Inv(r) && Keeps(s, r) && r.clones.Keys == s.clones.Keys
    ensures r.activeClone == s.activeClone && r.activeOriginal == s.activeOriginal
    ensures r.hoverOpen == s.hoverOpen && r.toggleTimers == s.toggleTimers && r.expanded == s.expanded
    ensures c in s.clones ==> r.clones[c].repositionPending
    ensures c in s.clones && !s.clones[c].repositionPending ==>
      r.clones[c] == s.clones[c].(repositionPending := true, repositionFrame := true)
    ensures forall d :: d in s.clones && d != c ==> r.clones[d] == s.clones[d]
    ensures (c !in s.clones || s.clones[c].repositionPending) ==> r == s
  {
    if c !in s.clones || s.clones[c].repositionPending then s
    else
      var rec := s.clones[c].(repositionPending := true, repositionFrame := true);
      assert RecFlags(s, c);
      UpdateKeepsInv(s, c, rec);
      Update(s, c, rec)
  }

  /** Clone `c`'s queued frame runs and is gone. */
  function ConsumeFrame(s: PortalState, c: CloneId): (r: PortalState)
    requires Inv(s) && c in s.clones
    ensures Inv(r) && Keeps(s, r) && r.clones.Keys == s.clones.Keys
    ensures r == Update(s, c, s.clones[c].(repositionFrame := false))
  {
    var t := Update(s, c, s.clones[c].(repositionFrame := false));
    assert RecFlags(s, c);
    KeepsInv(s, t);
    t
  }

  /** The active clone placed under `c`'s trigger, and `c`'s `pending` cleared. */
  function Reposition(s: PortalState, c: CloneId, g: Geometry): (r: PortalState)
    requires Inv(s) && c in s.clones && !s.clones[c].repositionFrame && s.activeClone.Some?
    ensures Inv(r) && Keeps(s, r) && r.clones.Keys == s.clones.Keys
    ensures r.activeClone == s.activeClone && r.activeOriginal == s.activeOriginal
    ensures r.hoverOpen == s.hoverOpen && r.toggleTimers == s.toggleTimers && r.expanded == s.expanded
    ensures !r.clones[c].repositionPending && !r.clones[c].repositionFrame
    ensures r.clones[s.activeClone.value].at == Place(g)
    ensures forall d :: d in s.clones && d != c && Some(d) != s.activeClone ==> r.clones[d] == s.clones[d]
  {
    var a := s.activeClone.value;
    assert RecFlags(s, a);
    var t := Update(s, a, s.clones[a].(at := Place(g)));
    UpdateKeepsInv(s, a, s.clones[a].(at := Place(g)));
    assert RecFlags(t, c);
    var t2 := Update(t, c, t.clones[c].(repositionPending := false));
    UpdateKeepsInv(t, c, t.clones[c].(repositionPending := false));
    t2
  }

  /** One step of `Reposition`: the active record is placed, then `c`'s request cleared. */
  lemma RepositionUnfold(s: PortalState, c: CloneId, g: Geometry)
    requires Inv(s) && c in s.clones && !s.clones[c].repositionFrame && s.activeClone.Some?
    ensures var a := s.activeClone.value;
      var t := Update(s, a, s.clones[a].(at := Place(g)));
      Reposition(s, c, g) == Update(t, c, t.clones[c].(repositionPending := false))
  {
  }

  /** A record after a reposition: the active one is placed at `at`, and the
      requesting one has its pending flag cleared. */
  function Repositioned(rec: CloneRec, active: bool, requester: bool, at: Placement): CloneRec {
    rec.(at := if active then at else rec.at,
         repositionPending := if requester then false else rec.repositionPending)
  }

  /** What a reposition changes: the active record's placement and `c`'s
      pending flag, nothing else. */
  lemma RepositionEffect(s: PortalState, c: CloneId, g: Geometry)
    requires Inv(s) && c in s.clones && !s.clones[c].repositionFrame && s.activeClone.Some?
    ensures var r := Reposition(s, c, g);
      r.page == s.page && r.nextId == s.nextId &&
      forall d :: d in s.clones ==> r.clones[d] == Repositioned(s.clones[d], Some(d) == s.activeClone, d == c, Place(g))
  {
    RepositionUnfold(s, c, g);
    PlaceThenClear(s.clones, s.activeClone.value, c, Place(g));
  }

  /** The two record changes of a reposition, on the record map alone. */
  lemma PlaceThenClear(m: map<CloneId, CloneRec>, a: CloneId, c: CloneId, at: Placement)
    requires a in m && c in m
    ensures var m1 := m[a := m[a].(at := at)];
      var m2 := m1[c := m1[c].(repositionPending := false)];
      m2.Keys == m.Keys &&
      forall d :: d in m ==> m2[d] == Repositioned(m[d], d == a, d == c, at)
  {
    var m1 := m[a := m[a].(at := at)];
    var m2 := m1[c := m1[c].(repositionPending := false)];
    forall d | d in m
      ensures m2[d] == Repositioned(m[d], d == a, d == c, at)
    {
      if d == c {
        assert m2[d] == m1[d].(repositionPending := false);
      } else {
        assert m2[d] == m1[d];
      }
    }
  }

  /** Repositioning is idempotent: with unchanged geometry a second pass
      leaves the placement and the flags as the first one left them. */
  lemma RepositionIdempotent(s: PortalState, c: CloneId, g: Geometry)
    requires Inv(s) && c in s.clones && !s.clones[c].repositionFrame && s.activeClone.Some?
    ensures Reposition(Reposition(s, c, g), c, g) == Reposition(s, c, g)
  {
    var r := Reposition(s, c, g);
    var r2 := Reposition(r, c, g);
    RepositionEffect(s, c, g);
    RepositionEffect(r, c, g);
    SecondRepositionSame(s, r, r2, c, g);
  }

  /** A state whose active placement is `Place(g)` and whose `c` has no
      pending request is a fixed point of the record changes of a reposition. */
  lemma SecondRepositionSame(s: PortalState, r: PortalState, r2: PortalState, c: CloneId, g: Geometry)
    requires r.clones.Keys == s.clones.Keys && r2.clones.Keys == r.clones.Keys
    requires r.activeClone == s.activeClone
    requires forall d :: d in s.clones ==> r.clones[d] == Repositioned(s.clones[d], Some(d) == s.activeClone, d == c, Place(g))
    requires forall d :: d in r.clones ==> r2.clones[d] == Repositioned(r.clones[d], Some(d) == r.activeClone, d == c, Place(g))
    requires r2.page == r.page && r2.nextId == r.nextId && r2.activeClone == r.activeClone
    requires r2.activeOriginal == r.activeOriginal && r2.hoverOpen == r.hoverOpen
    requires r2.toggleTimers == r.toggleTimers && r2.expanded == r.expanded
    ensures r2 == r
  {
    assert r2.clones == r.clones by {
      forall d | d in r.clones ensures r2.clones[d] == r.clones[d] {
        assert d in s.clones;
      }
    }
  }

  /** `rAFReposition` of clone `c`, with `g` the geometry of `c`'s trigger: nothing
      happens without a session; once `c` has closed, reading its deleted
      handlers throws, so `pending` stays set; otherwise the ACTIVE clone is
      placed under `c`'s trigger and `pending` is cleared. */
  function FireRepositionFrame(s: PortalState, c: CloneId, g: Geometry): (r: PortalState)
    requires Inv(s)
    ensures Inv(r) && Keeps(s, r) && r.clones.Keys == s.clones.Keys
    ensures r.activeClone == s.activeClone && r.activeOriginal == s.activeOriginal
    ensures c in s.clones && s.clones[c].repositionFrame ==> !r.clones[c].repositionFrame
    ensures c in s.clones && s.clones[c].repositionFrame && s.activeClone.Some? && !s.clones[c].closing ==>
      !r.clones[c].repositionPending && r.clones[s.activeClone.value].at == Place(g)
    ensures c in s.clones && s.clones[c].repositionFrame && (s.activeClone.None? || s.clones[c].closing) ==>
      r == ConsumeFrame(s, c)
    ensures !(c in s.clones && s.clones[c].repositionFrame) ==> r == s
  {
    if !(c in s.clones && s.clones[c].repositionFrame) then s
    else
      var t := ConsumeFrame(s, c);
      if s.activeClone.None? || s.clones[c].closing then t
      else Reposition(t, c, g)
  }

  /** A clone whose frame failed never repositions again: its `pending` stays set. */
  lemma StuckReposition(s: PortalState, c: CloneId, g: Geometry)
    requires Inv(s) && c in s.clones && s.clones[c].repositionFrame && s.clones[c].closing
    ensures var r := FireRepositionFrame(s, c, g);
      r.clones[c].repositionPending && RequestReposition(r, c) == r
  {
    assert RecFlags(s, c);
  }

  /** Requesting twice queues a single frame. */
  lemma RepositionCoalesces(s: PortalState, c: CloneId)
    requires Inv(s)
    ensures RequestReposition(RequestReposition(s, c), c) == RequestReposition(s, c)
  {
  }

  // ---------------------------------------------------------------------------
  // Opening (openCloneFor)

  /** The part of `openCloneFor` after a clone was built: it enters the
      document at the trigger's position, its opening frame is queued, its
      listeners are attached and it becomes the active clone. */
  function Attach(s: PortalState, content: Node, panel: Target, toggle: Target, g: Geometry): (r: PortalState)
    requires Inv(s) && PanelFree(content) && Resolvable(s, panel) && Resolvable(s, toggle)
    requires forall c :: c in s.clones ==> !Live(s, c)
    ensures Inv(r) && Keeps(s, r) && r.clones.Keys == s.clones.Keys + {s.nextId} && s.nextId !in s.clones
    ensures r.activeClone == Some(s.nextId) && r.activeOriginal == Some(panel) && Live(r, s.nextId)
    ensures r.clones[s.nextId] ==
      CloneRec(content, panel, toggle, Place(g), true, false, true, false, false, false, false, false, false)
    ensures forall d :: d in s.clones ==> r.clones[d] == s.clones[d]
    ensures r.hoverOpen == s.hoverOpen && r.toggleTimers == s.toggleTimers && r.expanded == s.expanded
  {
    var rec := CloneRec(content, panel, toggle, Place(g), true, false, true, false, false, false, false, false, false);
    var r := s.(clones := s.clones[s.nextId := rec], nextId := s.nextId + 1,
                activeClone := Some(s.nextId), activeOriginal := Some(panel));
    AttachKeepsInv(s, rec, r);
    AddedRecord(s.clones, s.nextId, rec);
    r
  }

  /** Adding a record under a fresh id leaves every other record as it was. */
  lemma AddedRecord(m: map<CloneId, CloneRec>, id: CloneId, rec: CloneRec)
    requires id !in m
    ensures m[id := rec].Keys == m.Keys + {id} && m[id := rec][id] == rec
    ensures forall d :: d in m ==> d in m[id := rec] && m[id := rec][d] == m[d]
  {
  }

  /** A new live record under a fresh id, made the active clone, keeps the
      invariant when no other clone is live. */
  lemma AttachKeepsInv(s: PortalState, rec: CloneRec, r: PortalState)
    requires Inv(s) && PanelFree(rec.content) && Resolvable(s, rec.panel) && Resolvable(s, rec.toggle)
    requires forall c :: c in s.clones ==> !Live(s, c)
    requires RecOk(rec, true) && rec.attached
    requires r == s.(clones := s.clones[s.nextId := rec], nextId := s.nextId + 1,
                     activeClone := Some(s.nextId), activeOriginal := Some(rec.panel))
    ensures s.nextId !in s.clones && Inv(r)
  {
    var id := s.nextId;
    assert id !in s.clones by {
      forall c | c in s.clones ensures c < id { assert RecFlags(s, c); }
    }
    assert Keeps(s, r);
    KeepsResolvable(s, r, rec.panel);
    KeepsResolvable(s, r, rec.toggle);
    assert RecGrounded(r, id);
    assert forall d :: d in r.clones ==> RecFlags(r, d) by {
      forall d | d in r.clones ensures RecFlags(r, d) {
        if d != id { assert RecFlags(s, d); assert !Live(s, d); }
      }
    }
    KeepsInv(s, r);
  }

  /** `openCloneFor(panel, toggle)` with the previous clone smooth-closed first
      (line 104 intends this; see `OpenAsWritten`).  Reopening the active
      panel only asks for a reposition; otherwise see `OpenNew`. */
  function Open(s: PortalState, panel: Target, toggle: Target, suffix: string, g: Geometry): (r: PortalState)
    requires Inv(s) && Resolvable(s, panel) && Resolvable(s, toggle)
    ensures Inv(r) && Keeps(s, r)
    ensures r.hoverOpen == s.hoverOpen && r.toggleTimers == s.toggleTimers && r.expanded == s.expanded
    ensures s.activeOriginal == Some(panel) && s.activeClone.Some? ==>
      r == RequestReposition(s, s.activeClone.value)
    ensures !(s.activeOriginal == Some(panel) && s.activeClone.Some?) ==> r == OpenNew(s, panel, toggle, suffix, g)
  {
    if s.activeOriginal == Some(panel) && s.activeClone.Some? then
      RequestReposition(s, s.activeClone.value)
    else
      OpenNew(s, panel, toggle, suffix, g)
  }

  /** Opening a panel other than the active one: the active clone starts
      fading and, when the panel yields a usable copy, that copy becomes the
      one live clone. */
  function OpenNew(s: PortalState, panel: Target, toggle: Target, suffix: string, g: Geometry): (r: PortalState)
    requires Inv(s) && Resolvable(s, panel) && Resolvable(s, toggle)
    ensures Inv(r) && Keeps(s, r)
    ensures r.hoverOpen == s.hoverOpen && r.toggleTimers == s.toggleTimers && r.expanded == s.expanded
    ensures s.activeClone.Some? ==> r.clones[s.activeClone.value].closing
    ensures BuildClone(NodeAt(s, panel), suffix).None? ==>
      r == CloseActive(s) && forall c :: c in r.clones ==> !Live(r, c)
    ensures BuildClone(NodeAt(s, panel), suffix).Some? ==>
      r.activeClone == Some(s.nextId) && r.activeOriginal == Some(panel) && Live(r, s.nextId) &&
      r.clones[s.nextId] == CloneRec(BuildClone(NodeAt(s, panel), suffix).value, panel, toggle, Place(g),
                                     true, false, true, false, false, false, false, false, false)
  {
    var s1 := CloseActive(s);
    KeepsResolvable(s, s1, panel);
    KeepsResolvable(s, s1, toggle);
    assert NodeAt(s1, panel) == NodeAt(s, panel);
    match BuildClone(NodeAt(s1, panel), suffix)
    case None => s1
    case Some(content) =>
      var r := Attach(s1, content, panel, toggle, g);
      assert s.activeClone.Some? ==> s.activeClone.value in s1.clones && r.clones[s.activeClone.value] == s1.clones[s.activeClone.value];
      r
  }

  /** `openCloneFor` as written: line 104 calls `closeAllClones`, which is not
      defined in the script's scope, so every call past the reposition shortcut
      throws before anything is built, and the state stays as it was. */
  function OpenAsWritten(s: PortalState, panel: Target, toggle: Target): (r: PortalState)
    requires Inv(s) && Resolvable(s, panel) && Resolvable(s, toggle)
    ensures Inv(r) && Keeps(s, r) && r.activeClone == s.activeClone && r.clones.Keys == s.clones.Keys
    ensures s.activeClone.None? ==> r == s
  {
    if s.activeOriginal == Some(panel) && s.activeClone.Some? then
      RequestReposition(s, s.activeClone.value)
    else s
  }

  /** The discrepancy: from the initial page, the published script never shows a
      menu that the intended `openCloneFor` shows. */
  lemma OpenAsWrittenNeverShows(page: Node, panel: Path, toggle: Path, suffix: string, g: Geometry)
    requires PageFlags(page) && ValidPath(page, panel) && ValidPath(page, toggle)
    requires BuildClone(At(page, panel), suffix).Some?
    ensures OpenAsWritten(Init(page), Page(panel), Page(toggle)) == Init(page)
    ensures Open(Init(page), Page(panel), Page(toggle), suffix, g).activeClone == Some(0)
    ensures Live(Open(Init(page), Page(panel), Page(toggle), suffix, g), 0)
  {
  }

  /** Reopening the active panel while it fades out (closed by a click, say, and
      not yet removed) shows nothing: the shortcut only requests a reposition. */
  lemma ReopenDuringFadeShowsNothing(s: PortalState, toggle: Target, suffix: string, g: Geometry)
    requires Inv(s) && s.activeClone.Some? && s.clones[s.activeClone.value].closing
    requires Resolvable(s, toggle)
    ensures var r := Open(s, s.activeOriginal.value, toggle, suffix, g);
      forall c :: c in r.clones ==> !Live(r, c)
  {
    var r := Open(s, s.activeOriginal.value, toggle, suffix, g);
    forall c | c in r.clones ensures !Live(r, c) {
      assert RecFlags(s, s.activeClone.value);
      if c in s.clones { assert RecFlags(s, c); }
    }
  }

  // ---------------------------------------------------------------------------
  // Per-clone listeners (cloneEnter, cloneLeave, toggleEnter, toggleLeave,
  // the outside-pointer and Escape handlers, scroll and resize) and the timers

  /** Clone `c`'s listeners are attached: it was opened and has not started closing. */
  predicate Listening(s: PortalState, c: CloneId) {
    c in s.clones && !s.clones[c].closing
  }

  /** Setting or clearing a clone's close timer, with trigger timers that close
      known clones and any `aria-expanded` marks, keeps the invariant. */
  lemma CloseTimerKeepsInv(s: PortalState, c: CloneId, flag: bool, m: map<Target, CloneId>, e: map<Target, bool>)
    requires Inv(s) && c in s.clones
    requires forall t :: t in m ==> m[t] in s.clones
    ensures Inv(s.(clones := s.clones[c := s.clones[c].(closeTimer := flag)], toggleTimers := m, expanded := e))
  {
    var r := s.(clones := s.clones[c := s.clones[c].(closeTimer := flag)], toggleTimers := m, expanded := e);
    assert forall d :: d in r.clones ==> RecFlags(r, d) by {
      forall d | d in r.clones ensures RecFlags(r, d) { assert RecFlags(s, d); }
    }
    KeepsInv(s, r);
  }

  /** `cancelClose` on the clone and on its trigger, then `syncOpen`. */
  function CloneEnter(s: PortalState, c: CloneId): (r: PortalState)
    requires Inv(s)
    ensures Inv(r) && Keeps(s, r)
    ensures r.activeClone == s.activeClone && r.activeOriginal == s.activeOriginal
    ensures Listening(s, c) ==>
      var t := s.clones[c].toggle;
      r == s.(clones := s.clones[c := s.clones[c].(closeTimer := false)],
              toggleTimers := s.toggleTimers - {t}, expanded := s.expanded[t := true])
    ensures !Listening(s, c) ==> r == s
  {
    if !Listening(s, c) then s
    else
      var t := s.clones[c].toggle;
      CloseTimerKeepsInv(s, c, false, s.toggleTimers - {t}, s.expanded[t := true]);
      s.(clones := s.clones[c := s.clones[c].(closeTimer := false)],
         toggleTimers := s.toggleTimers - {t}, expanded := s.expanded[t := true])
  }

  /** `cloneLeave` and `toggleLeave` (the same three effects in either order):
      `scheduleClose` on the clone and on its trigger, then `syncClose`.  The
      trigger's timer now belongs to `c`, whichever clone set it before. */
  function Leave(s: PortalState, c: CloneId): (r: PortalState)
    requires Inv(s)
    ensures Inv(r) && Keeps(s, r)
    ensures r.activeClone == s.activeClone && r.activeOriginal == s.activeOriginal
    ensures Listening(s, c) ==>
      var t := s.clones[c].toggle;
      r == s.(clones := s.clones[c := s.clones[c].(closeTimer := true)],
              toggleTimers := s.toggleTimers[t := c], expanded := s.expanded[t := false])
    ensures !Listening(s, c) ==> r == s
  {
    if !Listening(s, c) then s
    else
      var t := s.clones[c].toggle;
      CloseTimerKeepsInv(s, c, true, s.toggleTimers[t := c], s.expanded[t := false]);
      s.(clones := s.clones[c := s.clones[c].(closeTimer := true)],
         toggleTimers := s.toggleTimers[t := c], expanded := s.expanded[t := false])
  }

  /** Coming back before the close delay runs out cancels the close: leaving
      and re-entering is the same as entering. */
  lemma ReentryCancelsClose(s: PortalState, c: CloneId)
    requires Inv(s)
    ensures CloneEnter(Leave(s, c), c) == CloneEnter(s, c)
  {
    if Listening(s, c) {
      var rec := s.clones[c];
      ReentryRecords(s, c, rec.toggle);
    }
  }

  /** The record arithmetic behind `ReentryCancelsClose`. */
  lemma ReentryRecords(s: PortalState, c: CloneId, t: Target)
    requires c in s.clones
    ensures var rec := s.clones[c];
      var l := s.(clones := s.clones[c := rec.(closeTimer := true)],
                  toggleTimers := s.toggleTimers[t := c], expanded := s.expanded[t := false]);
      l.(clones := l.clones[c := l.clones[c].(closeTimer := false)],
         toggleTimers := l.toggleTimers - {t}, expanded := l.expanded[t := true]) ==
      s.(clones := s.clones[c := rec.(closeTimer := false)],
         toggleTimers := s.toggleTimers - {t}, expanded := s.expanded[t := true])
  {
    var rec := s.clones[c];
    OverwriteTwice(s.clones, c, rec.(closeTimer := true), rec.(closeTimer := false));
    OverwriteTwice(s.expanded, t, false, true);
    assert s.toggleTimers[t := c] - {t} == s.toggleTimers - {t};
  }

  lemma OverwriteTwice<K, V>(m: map<K, V>, k: K, v: V, w: V)
    ensures m[k := v][k := w] == m[k := w]
  {
  }

  /** `toggleEnter`: both close timers are cancelled, `openCloneFor` runs for the
      clone's panel and trigger, then `syncOpen`. */
  function ToggleEnter(s: PortalState, c: CloneId, suffix: string, g: Geometry): (r: PortalState)
    requires Inv(s)
    ensures Inv(r) && Keeps(s, r)
    ensures Listening(s, c) ==>
      var e := CloneEnter(s, c);
      r == Open(e, s.clones[c].panel, s.clones[c].toggle, suffix, g).(expanded := e.expanded)
    ensures Listening(s, c) ==> s.clones[c].toggle !in r.toggleTimers && r.expanded[s.clones[c].toggle]
    ensures !Listening(s, c) ==> r == s
  {
    if !Listening(s, c) then s
    else
      var e := CloneEnter(s, c);
      assert RecGrounded(s, c);
      KeepsResolvable(s, e, s.clones[c].panel);
      KeepsResolvable(s, e, s.clones[c].toggle);
      var o := Open(e, s.clones[c].panel, s.clones[c].toggle, suffix, g);
      o.(expanded := e.expanded)
  }

  /** The document `mousedown`/`touchstart` handler of clone `c`: a press inside
      any clone or on a trigger is ignored, anything else closes `c`. */
  function OutsidePointer(s: PortalState, c: CloneId, target: Target): (r: PortalState)
    requires Inv(s) && Resolvable(s, target)
    ensures Inv(r) && Keeps(s, r)
    ensures Listening(s, c) && target.Page? && ClosestTarget(s, target, ToggleSel).None? ==>
      r == SmoothClose(s, c)
    ensures !(Listening(s, c) && target.Page? && ClosestTarget(s, target, ToggleSel).None?) ==> r == s
  {
    if Listening(s, c) && target.Page? && ClosestTarget(s, target, ToggleSel).None? then SmoothClose(s, c)
    else s
  }

  /** The document `keydown` handler of clone `c`. */
  function KeyDown(s: PortalState, c: CloneId, key: string): (r: PortalState)
    requires Inv(s)
    ensures Inv(r) && Keeps(s, r)
    ensures Listening(s, c) && key == "Escape" ==> !Listening(r, c) && r == SmoothClose(s, c)
    ensures !(Listening(s, c) && key == "Escape") ==> r == s
  {
    if Listening(s, c) && key == "Escape" then SmoothClose(s, c) else s
  }

  /** The window `scroll` and `resize` handlers of clone `c`. */
  function Scroll(s: PortalState, c: CloneId): (r: PortalState)
    requires Inv(s)
    ensures Inv(r) && Keeps(s, r)
    ensures Listening(s, c) ==> r == RequestReposition(s, c) && r.clones[c].repositionPending
    ensures !Listening(s, c) ==> r == s
  {
    if Listening(s, c) then RequestReposition(s, c) else s
  }

  /** The frame queued by `openCloneFor`: it adds `is-open`, even to a clone that
      already started closing. */
  function FireOpenFrame(s: PortalState, c: CloneId): (r: PortalState)
    requires Inv(s)
    ensures Inv(r) && Keeps(s, r) && r.activeClone == s.activeClone
    ensures c in s.clones && s.clones[c].openFrame ==>
      r == Update(s, c, s.clones[c].(openFrame := false, isOpen := true))
    ensures !(c in s.clones && s.clones[c].openFrame) ==> r == s
  {
    if c in s.clones && s.clones[c].openFrame then
      assert RecFlags(s, c);
      UpdateKeepsInv(s, c, s.clones[c].(openFrame := false, isOpen := true));
      Update(s, c, s.clones[c].(openFrame := false, isOpen := true))
    else s
  }

  /** A clone closed within the frame it was opened in ends up with `is-open`
      while it fades out. */
  lemma CloseBeforeFirstFrame(s: PortalState, c: CloneId)
    requires Inv(s) && Listening(s, c) && s.clones[c].openFrame
    ensures var r := FireOpenFrame(SmoothClose(s, c), c);
      r.clones[c].isOpen && r.clones[c].closing
  {
  }

  /** `clone._closeTimer` fires: `smoothCloseClone(clone)`. */
  function FireCloseTimer(s: PortalState, c: CloneId): (r: PortalState)
    requires Inv(s)
    ensures Inv(r) && Keeps(s, r) && r.activeClone == s.activeClone
    ensures c in s.clones && s.clones[c].closeTimer ==>
      !r.clones[c].closeTimer && r.clones[c].closing
    ensures !(c in s.clones && s.clones[c].closeTimer) ==> r == s
  {
    if c in s.clones && s.clones[c].closeTimer then
      var rec := s.clones[c].(closeTimer := false);
      assert RecFlags(s, c);
      UpdateKeepsInv(s, c, rec);
      SmoothClose(Update(s, c, rec), c)
    else s
  }

  /** `toggle._closeTimer` fires: it closes the clone whose handler set it last. */
  function FireToggleTimer(s: PortalState, t: Target): (r: PortalState)
    requires Inv(s)
    ensures Inv(r) && Keeps(s, r) && r.activeClone == s.activeClone
    ensures t in s.toggleTimers ==>
      t !in r.toggleTimers && r == SmoothClose(WithToggleTimers(s, s.toggleTimers - {t}), s.toggleTimers[t])
    ensures t !in s.toggleTimers ==> r == s
  {
    if t in s.toggleTimers then
      SmoothClose(WithToggleTimers(s, s.toggleTimers - {t}), s.toggleTimers[t])
    else s
  }

  // ---------------------------------------------------------------------------
  // Document-level listeners

  /** The document `mouseover` handler: on a wide viewport, hovering inside a
      trigger with a panel (re)starts the open timer for that pair. */
  function HoverOver(s: PortalState, target: Target, viewportWidth: int): (r: PortalState)
    requires Inv(s) && Resolvable(s, target)
    ensures Inv(r) && r == s.(hoverOpen := r.hoverOpen)
    ensures !IsDesktop(viewportWidth) ==> r == s
    ensures r.hoverOpen != s.hoverOpen ==>
      var t := ClosestTarget(s, target, ToggleSel);
      t.Some? && FindPanel(s, t.value).Some? && r.hoverOpen == Some(Hover(FindPanel(s, t.value).value, t.value))
    ensures (IsDesktop(viewportWidth) && ClosestTarget(s, target, ToggleSel).Some? &&
             FindPanel(s, ClosestTarget(s, target, ToggleSel).value).Some?) ==>
      var t := ClosestTarget(s, target, ToggleSel).value;
      r.hoverOpen == Some(Hover(FindPanel(s, t).value, t))
    ensures (ClosestTarget(s, target, ToggleSel).None? ||
             FindPanel(s, ClosestTarget(s, target, ToggleSel).value).None?) ==> r == s
  {
    match ClosestTarget(s, target, ToggleSel)
    case None => s
    case Some(t) =>
      if !IsDesktop(viewportWidth) then s
      else
        match FindPanel(s, t)
        case None => s
        case Some(p) => WithHover(s, Some(Hover(p, t)))
  }

  /** The open timer fires: `openCloneFor(panel, toggle)` for the pair it holds. */
  function FireHoverOpen(s: PortalState, suffix: string, g: Geometry): (r: PortalState)
    requires Inv(s)
    ensures Inv(r) && Keeps(s, r) && r.hoverOpen.None?
    ensures s.hoverOpen.Some? ==>
      r == Open(WithHover(s, None), s.hoverOpen.value.panel, s.hoverOpen.value.toggle, suffix, g)
    ensures s.hoverOpen.None? ==> r == s
  {
    match s.hoverOpen
    case None => s
    case Some(h) =>
      var u := WithHover(s, None);
      KeepsResolvable(s, u, h.panel);
      KeepsResolvable(s, u, h.toggle);
      Open(u, h.panel, h.toggle, suffix, g)
  }

  /** The document `click` handler: a click inside a trigger closes its panel
      when that panel is the active one and opens it otherwise; a click outside
      every trigger and every panel closes the active clone. */
  function Click(s: PortalState, target: Target, suffix: string, g: Geometry): (r: PortalState)
    requires Inv(s) && Resolvable(s, target)
    ensures Inv(r) && Keeps(s, r)
    ensures ClosestTarget(s, target, ToggleSel).None? ==>
      r == if ClosestTarget(s, target, PanelSel).None? then CloseActive(s) else s
    ensures (ClosestTarget(s, target, ToggleSel).Some? && s.activeClone.Some? &&
             FindPanel(s, ClosestTarget(s, target, ToggleSel).value) == s.activeOriginal) ==>
      r == SmoothClose(s, s.activeClone.value) && forall c :: c in r.clones ==> !Live(r, c)
    ensures var t := ClosestTarget(s, target, ToggleSel);
      t.Some? && FindPanel(s, t.value).Some? &&
      !(s.activeClone.Some? && FindPanel(s, t.value) == s.activeOriginal) ==>
      r == Open(s, FindPanel(s, t.value).value, t.value, suffix, g)
    ensures var t := ClosestTarget(s, target, ToggleSel);
      t.Some? && FindPanel(s, t.value).None? ==> r == s
  {
    match ClosestTarget(s, target, ToggleSel)
    case None => if ClosestTarget(s, target, PanelSel).None? then CloseActive(s) else s
    case Some(t) =>
      match FindPanel(s, t)
      case None => s
      case Some(p) =>
        if s.activeClone.Some? && s.activeOriginal == Some(p) then
          var r := SmoothClose(s, s.activeClone.value);
          assert forall c :: c in r.clones ==> !Live(r, c) by {
            forall c | c in r.clones ensures !Live(r, c) { assert RecFlags(r, c); }
          }
          r
        else Open(s, p, t, suffix, g)
  }

  /** A click inside a clone, below no trigger: the clone holds no nested
      panel, so the click counts as inside a panel exactly when the clone's
      root carries a context-free panel class.  A root that was a panel in
      the page only as `.header .sub-menu` or `.header .dropdown` has no
      `.header` above it under `body`, and the click closes the active clone. */
  lemma ClickInsideClone(s: PortalState, c: CloneId, path: Path, suffix: string, g: Geometry)
    requires Inv(s) && Resolvable(s, InClone(c, path)) && ClosestTarget(s, InClone(c, path), ToggleSel).None?
    ensures Click(s, InClone(c, path), suffix, g) == if s.clones[c].content.panel then s else CloseActive(s)
  {
    var t := InClone(c, path);
    var root := s.clones[c].content;
    assert RecGrounded(s, c);
    match ClosestTarget(s, t, PanelSel)
    case Some(q) =>
      if q.path != [] {
        PanelFreeAt(root, q.path);
      }
    case None =>
      assert path[..0] == [];
  }

  /** The document `focusin` handler: focus inside a trigger with a panel opens it. */
  function FocusIn(s: PortalState, target: Target, suffix: string, g: Geometry): (r: PortalState)
    requires Inv(s) && Resolvable(s, target)
    ensures Inv(r) && Keeps(s, r)
    ensures var t := ClosestTarget(s, target, ToggleSel);
      t.Some? && FindPanel(s, t.value).Some? ==> r == Open(s, FindPanel(s, t.value).value, t.value, suffix, g)
    ensures var t := ClosestTarget(s, target, ToggleSel);
      (t.None? || FindPanel(s, t.value).None?) ==> r == s
  {
    match ClosestTarget(s, target, ToggleSel)
    case None => s
    case Some(t) =>
      match FindPanel(s, t)
      case None => s
      case Some(p) => Open(s, p, t, suffix, g)
  }

  // ---------------------------------------------------------------------------
  // Properties of sessions

  /** Closing is idempotent: a second `smoothCloseClone` is ignored. */
  lemma SmoothCloseIdempotent(s: PortalState, c: CloneId)
    requires Inv(s)
    ensures SmoothClose(SmoothClose(s, c), c) == SmoothClose(s, c)
  {
  }

  /** Moving to another menu item: the previous clone keeps fading in the document
      while the new one is the single live clone. */
  lemma SwitchSessions(s: PortalState, panel: Target, toggle: Target, suffix: string, g: Geometry)
    requires Inv(s) && s.activeClone.Some? && Live(s, s.activeClone.value)
    requires Resolvable(s, panel) && Resolvable(s, toggle) && s.activeOriginal != Some(panel)
    requires BuildClone(NodeAt(s, panel), suffix).Some?
    ensures var prev := s.activeClone.value; var r := Open(s, panel, toggle, suffix, g);
      prev in r.clones && r.clones[prev].attached && r.clones[prev].closing && r.clones[prev].removeTimer &&
      r.activeClone == Some(s.nextId) && prev != s.nextId &&
      forall c :: Live(r, c) ==> c == s.nextId
  {
    var prev := s.activeClone.value;
    var r := Open(s, panel, toggle, suffix, g);
    assert RecFlags(s, prev);
    var s1 := CloseActive(s);
    assert s1.clones[prev] == Closed(s.clones[prev]);
    forall c | Live(r, c) ensures c == s.nextId {
      LiveIsActive(r, c, c);
    }
  }

  /** The previous clone's removal, whenever it comes, leaves the new session alone. */
  lemma LateRemovalKeepsNewSession(s: PortalState, panel: Target, toggle: Target, suffix: string, g: Geometry)
    requires Inv(s) && s.activeClone.Some? && Live(s, s.activeClone.value)
    requires Resolvable(s, panel) && Resolvable(s, toggle) && s.activeOriginal != Some(panel)
    requires BuildClone(NodeAt(s, panel), suffix).Some?
    ensures var prev := s.activeClone.value; var r := Open(s, panel, toggle, suffix, g);
      TransitionEnd(r, prev).activeClone == Some(s.nextId) && Live(TransitionEnd(r, prev), s.nextId) &&
      FireRemoveTimer(r, prev).activeClone == Some(s.nextId) && Live(FireRemoveTimer(r, prev), s.nextId) &&
      !FireRemoveTimer(r, prev).clones[prev].attached
  {
    SwitchSessions(s, panel, toggle, suffix, g);
    var prev := s.activeClone.value;
    var r := Open(s, panel, toggle, suffix, g);
    assert RecFlags(r, prev);
  }

  /** Hovering a trigger on a wide viewport and letting the open timer fire shows
      the trigger's panel, under the trigger, as the one live clone. */
  lemma HoverShowsPanel(s: PortalState, target: Target, width: int, suffix: string, g: Geometry)
    requires Inv(s) && s.activeClone.None? && Resolvable(s, target) && IsDesktop(width)
    requires ClosestTarget(s, target, ToggleSel).Some?
    requires var t := ClosestTarget(s, target, ToggleSel).value;
      FindPanel(s, t).Some? && BuildClone(NodeAt(s, FindPanel(s, t).value), suffix).Some?
    ensures var t := ClosestTarget(s, target, ToggleSel).value;
      var r := FireHoverOpen(HoverOver(s, target, width), suffix, g);
      r.activeClone == Some(s.nextId) && r.activeOriginal == FindPanel(s, t) &&
      Live(r, s.nextId) && r.clones[s.nextId].toggle == t && r.clones[s.nextId].at == Place(g) &&
      forall c :: Live(r, c) ==> c == s.nextId
  {
    var r := FireHoverOpen(HoverOver(s, target, width), suffix, g);
    forall c | Live(r, c) ensures c == s.nextId {
      LiveIsActive(r, c, c);
    }
  }
}
