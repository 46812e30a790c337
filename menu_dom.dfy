/** The element tree that the menu portal queries.

    An element records which of the portal's selector lists it matches (the
    trigger list, the panel list, the menu-item container list and the
    actionable-item list), the classes that decide the panel match (two of
    the panel selectors, `.header .sub-menu` and `.header .dropdown`, depend
    on an ancestor, so the match is recomputed when a tree is copied out of
    the document), its `id` and `aria-controls` attributes (the empty
    string when absent) and its element children in document order.  An element
    is addressed by its path of child indices from the root of its tree.

    The DOM queries the portal uses are defined here: `querySelectorAll` and
    `querySelector` over strict descendants, `closest` over an element and its
    ancestors, `getElementById` and `nextElementSibling`. */
module MenuDom {
  import opened Wrappers

  datatype Node = Node(
    panel: bool,      // matches PANEL_SELECTORS where the element stands in its tree
    panelClass: bool, // carries one of the classes of the five context-free panel selectors
    subMenu: bool,    // carries `sub-menu` or `dropdown` (a panel only below a `.header`)
    header: bool,     // carries `header`
    toggle: bool,    // matches '.menu-list__link[aria-haspopup], [data-menu-toggle], ...'
    menuItem: bool,  // matches 'li, .menu-list__list-item, .menu-item, [data-menu-item]'
    action: bool,    // matches 'a[href], button[role="menuitem"]'
    id: string,
    controls: string,
    children: seq<Node>)

  type Path = seq<nat>

  /** The tree of `n` with every `panel` flag re-evaluated for the place the
      tree now stands: `above` says whether an element above `n` carries
      `.header`.  An element matches a panel selector when it carries one of
      the context-free panel classes, or carries `sub-menu`/`dropdown` below
      a `.header` (the selectors `.header .sub-menu` and `.header .dropdown`). */
  function InContext(n: Node, above: bool): (r: Node)
    ensures r.panel == (n.panelClass || (n.subMenu && above))
    ensures r.(panel := n.panel, children := n.children) == n
    ensures |r.children| == |n.children|
  {
    n.(panel := n.panelClass || (n.subMenu && above),
       children := seq(|n.children|, k requires 0 <= k < |n.children| => InContext(n.children[k], above || n.header)))
  }

  datatype Selector = PanelSel | ToggleSel | MenuItemSel | ActionSel | AnyId | IdIs(name: string)

  predicate Matches(n: Node, sel: Selector) {
    match sel
    case PanelSel => n.panel
    case ToggleSel => n.toggle
    case MenuItemSel => n.menuItem
    case ActionSel => n.action
    case AnyId => n.id != ""
    case IdIs(name) => name != "" && n.id == name
  }

  predicate ValidPath(n: Node, p: Path)
    decreases p
  {
    p == [] || (p[0] < |n.children| && ValidPath(n.children[p[0]], p[1..]))
  }

  function At(n: Node, p: Path): Node
    requires ValidPath(n, p)
    decreases p
  {
    if p == [] then n else At(n.children[p[0]], p[1..])
  }

  /** The paths under child `i` of `n` are `[i]` followed by a path of that child. */
  lemma ChildPaths(n: Node, i: nat)
    requires i < |n.children|
    ensures forall q :: ValidPath(n.children[i], q) ==>
      ValidPath(n, [i] + q) && At(n, [i] + q) == At(n.children[i], q)
  {
    forall q | ValidPath(n.children[i], q)
      ensures ValidPath(n, [i] + q) && At(n, [i] + q) == At(n.children[i], q)
    {
      assert ([i] + q)[0] == i && ([i] + q)[1..] == q;
    }
  }

  /** A path into `n` that starts with `i` is `[i]` followed by a path of child `i`. */
  lemma SplitPath(n: Node, q: Path)
    requires q != [] && ValidPath(n, q)
    ensures q[0] < |n.children| && q == [q[0]] + q[1..]
    ensures ValidPath(n.children[q[0]], q[1..]) && At(n, q) == At(n.children[q[0]], q[1..])
    ensures |q| == 1 ==> At(n, q) == n.children[q[0]]
  {
  }

  /** Stepping from an element to one of its children. */
  lemma {:induction false} Extend(n: Node, p: Path, i: nat)
    requires ValidPath(n, p) && i < |At(n, p).children|
    ensures ValidPath(n, p + [i]) && At(n, p + [i]) == At(n, p).children[i]
    decreases p
  {
    if p != [] {
      assert (p + [i])[0] == p[0] && (p + [i])[1..] == p[1..] + [i];
      Extend(n.children[p[0]], p[1..], i);
    }
  }

  /** Following path `m` and then path `q` from the element reached. */
  lemma {:induction false} Descend(n: Node, m: Path, q: Path)
    requires ValidPath(n, m) && ValidPath(At(n, m), q)
    ensures ValidPath(n, m + q) && At(n, m + q) == At(At(n, m), q)
    decreases m
  {
    if m != [] {
      assert (m + q)[0] == m[0] && (m + q)[1..] == m[1..] + q;
      Descend(n.children[m[0]], m[1..], q);
    } else {
      assert m + q == q;
    }
  }

  /** Every ancestor of an element of the tree is in the tree. */
  lemma {:induction false} PrefixValid(n: Node, p: Path, k: nat)
    requires ValidPath(n, p) && k <= |p|
    ensures ValidPath(n, p[..k])
    decreases p
  {
    if k > 0 {
      assert p[..k][0] == p[0] && p[..k][1..] == p[1..][..k - 1];
      PrefixValid(n.children[p[0]], p[1..], k - 1);
    }
  }

  /** Document (preorder) order: `p` is an ancestor of `q` or lies in an earlier sibling subtree. */
  predicate Precedes(p: Path, q: Path)
    decreases p
  {
    q != [] && (p == [] || p[0] < q[0] || (p[0] == q[0] && Precedes(p[1..], q[1..])))
  }

  /** The paths of a child's matches, as seen from its parent. */
  function Under(i: nat, qs: seq<Path>): (r: seq<Path>)
    ensures |r| == |qs| && forall k :: 0 <= k < |qs| ==> r[k] == [i] + qs[k]
  {
    seq(|qs|, k requires 0 <= k < |qs| => [i] + qs[k])
  }

  lemma UnderContains(i: nat, qs: seq<Path>, q: Path)
    requires q in qs
    ensures [i] + q in Under(i, qs)
  {
    var k :| 0 <= k < |qs| && qs[k] == q;
    assert Under(i, qs)[k] == [i] + q;
  }

  /** The matches of child `i`, as seen from its parent, match there too. */
  lemma UnderMatches(n: Node, i: nat, qs: seq<Path>, sel: Selector)
    requires i < |n.children|
    requires forall q :: q in qs ==> ValidPath(n.children[i], q) && Matches(At(n.children[i], q), sel)
    ensures forall q :: q in Under(i, qs) ==> q != [] && q[0] == i && ValidPath(n, q) && Matches(At(n, q), sel)
  {
    ChildPaths(n, i);
    forall q | q in Under(i, qs)
      ensures q != [] && q[0] == i && ValidPath(n, q) && Matches(At(n, q), sel)
    {
      var k :| 0 <= k < |qs| && Under(i, qs)[k] == q;
      assert qs[k] in qs;
    }
  }

  /** The three parts `MatchesFrom` joins are matches at or after child `i`. */
  lemma JoinMatches(n: Node, i: nat, sel: Selector, inner: seq<Path>, tail: seq<Path>)
    requires i < |n.children|
    requires forall q :: q in inner ==> ValidPath(n.children[i], q) && Matches(At(n.children[i], q), sel)
    requires forall q :: q in tail ==> q != [] && i + 1 <= q[0] && ValidPath(n, q) && Matches(At(n, q), sel)
    ensures var r := (if Matches(n.children[i], sel) then [[i]] else []) + Under(i, inner) + tail;
      forall q :: q in r ==> q != [] && i <= q[0] && ValidPath(n, q) && Matches(At(n, q), sel)
  {
    UnderMatches(n, i, inner, sel);
    var head: seq<Path> := if Matches(n.children[i], sel) then [[i]] else [];
    var r := head + Under(i, inner) + tail;
    forall q | q in r
      ensures q != [] && i <= q[0] && ValidPath(n, q) && Matches(At(n, q), sel)
    {
      if q in head {
        assert q == [i] && q[1..] == [];
      } else if q in Under(i, inner) {
      } else {
        assert q in tail;
      }
    }
  }

  /** `n.querySelectorAll(sel)`: the strict descendants of `n` that match, in document order. */
  function QuerySelectorAll(n: Node, sel: Selector): (r: seq<Path>)
    ensures forall q :: q in r ==> q != [] && ValidPath(n, q) && Matches(At(n, q), sel)
    decreases n, |n.children| + 1
  {
    MatchesFrom(n, 0, sel)
  }

  /** The matches inside the subtrees of children `i`, `i + 1`, ... of `n`. */
  function MatchesFrom(n: Node, i: nat, sel: Selector): (r: seq<Path>)
    requires i <= |n.children|
    ensures forall q :: q in r ==> q != [] && i <= q[0] && ValidPath(n, q) && Matches(At(n, q), sel)
    decreases n, |n.children| - i
  {
    if i == |n.children| then []
    else
      var c := n.children[i];
      var inner := QuerySelectorAll(c, sel);
      var tail := MatchesFrom(n, i + 1, sel);
      JoinMatches(n, i, sel, inner, tail);
      (if Matches(c, sel) then [[i]] else []) + Under(i, inner) + tail
  }

  /** Every matching strict descendant is listed. */
  lemma {:induction false} QuerySelectorAllComplete(n: Node, sel: Selector, q: Path)
    requires q != [] && ValidPath(n, q) && Matches(At(n, q), sel)
    ensures q in QuerySelectorAll(n, sel)
    decreases n, |n.children| + 1
  {
    MatchesFromComplete(n, 0, sel, q);
  }

  lemma {:induction false} MatchesFromComplete(n: Node, i: nat, sel: Selector, q: Path)
    requires q != [] && ValidPath(n, q) && Matches(At(n, q), sel) && i <= q[0]
    ensures i <= |n.children| && q in MatchesFrom(n, i, sel)
    decreases n, |n.children| - i, 1
  {
    SplitPath(n, q);
    if q[0] == i && |q| == 1 {
      assert At(n, q) == n.children[i];
      assert MatchesFrom(n, i, sel)[0] == q;
    } else if q[0] == i {
      CompleteInChild(n, i, sel, q);
    } else {
      MatchesFromComplete(n, i + 1, sel, q);
      var inner := QuerySelectorAll(n.children[i], sel);
      assert MatchesFrom(n, i, sel) ==
        (if Matches(n.children[i], sel) then [[i]] else []) + Under(i, inner) + MatchesFrom(n, i + 1, sel);
    }
  }

  /** A match strictly inside child `i` is listed among child `i`'s matches. */
  lemma {:induction false} CompleteInChild(n: Node, i: nat, sel: Selector, q: Path)
    requires q != [] && ValidPath(n, q) && Matches(At(n, q), sel) && q[0] == i && |q| > 1
    ensures i < |n.children| && q in MatchesFrom(n, i, sel)
    decreases n, |n.children| - i, 0
  {
    SplitPath(n, q);
    var c := n.children[i];
    var inner := QuerySelectorAll(c, sel);
    QuerySelectorAllComplete(c, sel, q[1..]);
    UnderContains(i, inner, q[1..]);
    assert MatchesFrom(n, i, sel) ==
      (if Matches(c, sel) then [[i]] else []) + Under(i, inner) + MatchesFrom(n, i + 1, sel);
  }

  /** The first listed match comes no later, in document order, than any match. */
  lemma {:induction false} QuerySelectorAllFirst(n: Node, sel: Selector, q: Path)
    requires q != [] && ValidPath(n, q) && Matches(At(n, q), sel)
    ensures |QuerySelectorAll(n, sel)| > 0
    ensures QuerySelectorAll(n, sel)[0] == q || Precedes(QuerySelectorAll(n, sel)[0], q)
    decreases n, |n.children| + 1
  {
    MatchesFromFirst(n, 0, sel, q);
  }

  lemma {:induction false} MatchesFromFirst(n: Node, i: nat, sel: Selector, q: Path)
    requires q != [] && ValidPath(n, q) && Matches(At(n, q), sel) && i <= q[0]
    ensures i <= |n.children| && |MatchesFrom(n, i, sel)| > 0
    ensures MatchesFrom(n, i, sel)[0] == q || Precedes(MatchesFrom(n, i, sel)[0], q)
    decreases n, |n.children| - i, 1
  {
    SplitPath(n, q);
    var c := n.children[i];
    if Matches(c, sel) {
      FirstAtChild(n, i, sel, q);
    } else if |QuerySelectorAll(c, sel)| > 0 {
      FirstInChild(n, i, sel, q);
    } else {
      FirstAfterChild(n, i, sel, q);
    }
  }

  /** When child `i` neither matches nor holds a match, the first match comes later. */
  lemma {:induction false} FirstAfterChild(n: Node, i: nat, sel: Selector, q: Path)
    requires q != [] && ValidPath(n, q) && Matches(At(n, q), sel) && i <= q[0]
    requires i < |n.children| && !Matches(n.children[i], sel) && |QuerySelectorAll(n.children[i], sel)| == 0
    ensures |MatchesFrom(n, i, sel)| > 0
    ensures MatchesFrom(n, i, sel)[0] == q || Precedes(MatchesFrom(n, i, sel)[0], q)
    decreases n, |n.children| - i, 0
  {
    SplitPath(n, q);
    assert q[0] != i by {
      if q[0] == i && |q| > 1 {
        QuerySelectorAllComplete(n.children[i], sel, q[1..]);
      }
    }
    MatchesFromFirst(n, i + 1, sel, q);
    MatchesFromStep(n, i, sel);
  }

  /** Without a match at child `i`, the list is child `i`'s matches followed by the later ones. */
  lemma MatchesFromStep(n: Node, i: nat, sel: Selector)
    requires i < |n.children| && !Matches(n.children[i], sel)
    ensures MatchesFrom(n, i, sel) == Under(i, QuerySelectorAll(n.children[i], sel)) + MatchesFrom(n, i + 1, sel)
  {
  }

  /** When child `i` matches, it is listed first and precedes every later match. */
  lemma FirstAtChild(n: Node, i: nat, sel: Selector, q: Path)
    requires i < |n.children| && Matches(n.children[i], sel) && q != [] && i <= q[0]
    ensures |MatchesFrom(n, i, sel)| > 0
    ensures MatchesFrom(n, i, sel)[0] == q || Precedes(MatchesFrom(n, i, sel)[0], q)
  {
    assert MatchesFrom(n, i, sel)[0] == [i];
    if q[0] == i && |q| > 1 {
      assert Precedes([i][1..], q[1..]);
    }
  }

  /** A first match of child `i` that comes no later than `q[1..]` there comes
      no later than `q` in the parent. */
  lemma PrecedesInChild(i: nat, inner: seq<Path>, q: Path)
    requires |inner| > 0 && |q| > 1 && q[0] == i
    requires inner[0] == q[1..] || Precedes(inner[0], q[1..])
    ensures [i] + inner[0] == q || Precedes([i] + inner[0], q)
  {
    assert ([i] + inner[0])[1..] == inner[0];
    if inner[0] == q[1..] {
      assert q == [q[0]] + q[1..];
    }
  }

  /** When child `i` does not match but holds matches, its first match is listed first. */
  lemma {:induction false} FirstInChild(n: Node, i: nat, sel: Selector, q: Path)
    requires q != [] && ValidPath(n, q) && Matches(At(n, q), sel) && i <= q[0]
    requires i < |n.children| && !Matches(n.children[i], sel) && |QuerySelectorAll(n.children[i], sel)| > 0
    ensures |MatchesFrom(n, i, sel)| > 0
    ensures MatchesFrom(n, i, sel)[0] == q || Precedes(MatchesFrom(n, i, sel)[0], q)
    decreases n, |n.children| - i, 0
  {
    SplitPath(n, q);
    var c := n.children[i];
    var inner := QuerySelectorAll(c, sel);
    MatchesFromStep(n, i, sel);
    var mid := Under(i, inner);
    assert MatchesFrom(n, i, sel)[0] == mid[0] == [i] + inner[0];
    if q[0] == i {
      assert |q| > 1 by {
        assert At(n, q) == At(c, q[1..]);
        assert q[1..] != [];
      }
      QuerySelectorAllFirst(c, sel, q[1..]);
      PrecedesInChild(i, inner, q);
    }
  }

  /** The list depends only on the children of `n`, not on its own attributes. */
  lemma {:induction false} MatchesFromChildrenOnly(a: Node, b: Node, i: nat, sel: Selector)
    requires a.children == b.children && i <= |a.children|
    ensures MatchesFrom(a, i, sel) == MatchesFrom(b, i, sel)
    decreases |a.children| - i
  {
    if i < |a.children| {
      MatchesFromChildrenOnly(a, b, i + 1, sel);
    }
  }

  /** `n.querySelector(sel)`: the first matching strict descendant in document order. */
  function QuerySelector(n: Node, sel: Selector): (r: Option<Path>)
    ensures r.Some? ==> r.value != [] && ValidPath(n, r.value) && Matches(At(n, r.value), sel)
    ensures r.Some? ==> forall q :: q != [] && ValidPath(n, q) && Matches(At(n, q), sel) ==>
      q == r.value || Precedes(r.value, q)
    ensures r.None? ==> forall q :: q != [] && ValidPath(n, q) ==> !Matches(At(n, q), sel)
  {
    var all := QuerySelectorAll(n, sel);
    if |all| == 0 then
      assert forall q :: q != [] && ValidPath(n, q) && Matches(At(n, q), sel) ==> q in all by {
        forall q | q != [] && ValidPath(n, q) && Matches(At(n, q), sel) {
          QuerySelectorAllComplete(n, sel, q);
        }
      }
      None
    else
      var first := all[0];
      assert first in all;
      assert first != [] && ValidPath(n, first) && Matches(At(n, first), sel);
      assert forall q :: q != [] && ValidPath(n, q) && Matches(At(n, q), sel) ==>
        q == first || Precedes(first, q) by {
        forall q | q != [] && ValidPath(n, q) && Matches(At(n, q), sel) {
          QuerySelectorAllFirst(n, sel, q);
        }
      }
      Some(first)
  }

  /** `closest(sel)` from the element at `p`: the nearest of the element and its
      ancestors that matches. */
  function Closest(n: Node, p: Path, sel: Selector): (r: Option<Path>)
    requires ValidPath(n, p)
    ensures r.Some? ==> |r.value| <= |p| && r.value == p[..|r.value|] && ValidPath(n, r.value)
    ensures r.Some? ==> Matches(At(n, r.value), sel)
    ensures r.Some? ==> forall k :: |r.value| < k <= |p| ==>
      ValidPath(n, p[..k]) && !Matches(At(n, p[..k]), sel)
    ensures r.None? ==> forall k :: 0 <= k <= |p| ==>
      ValidPath(n, p[..k]) && !Matches(At(n, p[..k]), sel)
    decreases |p|
  {
    assert p[..|p|] == p;
    if Matches(At(n, p), sel) then Some(p)
    else if p == [] then None
    else
      var up := p[..|p| - 1];
      PrefixValid(n, p, |p| - 1);
      assert forall k :: 0 <= k <= |up| ==> up[..k] == p[..k];
      Closest(n, up, sel)
  }

  /** `nextElementSibling` of the element at `p`, when it has one. */
  function NextSibling(n: Node, p: Path): (r: Option<Path>)
    requires ValidPath(n, p)
    ensures r.Some? ==> p != [] && |r.value| == |p| && r.value[..|p| - 1] == p[..|p| - 1]
    ensures r.Some? ==> r.value[|p| - 1] == p[|p| - 1] + 1 && ValidPath(n, r.value)
    ensures p != [] ==> ValidPath(n, p[..|p| - 1])
    ensures r.None? <==> p == [] || p[|p| - 1] + 1 >= |At(n, p[..|p| - 1]).children|
  {
    if p == [] then None
    else
      var up := p[..|p| - 1];
      PrefixValid(n, p, |p| - 1);
      var k := p[|p| - 1] + 1;
      if k < |At(n, up).children| then
        Extend(n, up, k);
        assert (up + [k])[..|p| - 1] == up;
        Some(up + [k])
      else None
  }

  /** `document.getElementById(name)`: the first element of the tree, root included,
      whose id is `name`. */
  function ElementById(n: Node, name: string): (r: Option<Path>)
    ensures r.Some? ==> ValidPath(n, r.value) && name != "" && At(n, r.value).id == name
    ensures r.None? <==> forall q :: ValidPath(n, q) ==> !Matches(At(n, q), IdIs(name))
    ensures r.Some? ==> forall q :: ValidPath(n, q) && Matches(At(n, q), IdIs(name)) ==>
      q == r.value || Precedes(r.value, q)
  {
    if Matches(n, IdIs(name)) then
      assert ValidPath(n, []);
      Some([])
    else QuerySelector(n, IdIs(name))
  }
}
