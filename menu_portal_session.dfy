/** The script-level session of assets/menu-portal.js as an object updated in
    place: the module variables `activeClone`, `activeOriginal` and
    `hoverOpenTimeout`, and the expando properties the script keeps on clones
    and triggers, are fields; every handler and timer callback is a method
    that changes them step by step.  Each method is proved to leave the state
    that the matching function of `MenuPortal` describes, so every property
    proved there holds of the object. */
module PortalSession {
  import opened Wrappers
  import opened MenuDom
  import opened MenuPortal

  class Portal {
    const page: Node
    var clones: map<CloneId, CloneRec>
    var nextId: CloneId
    var activeClone: Option<CloneId>
    var activeOriginal: Option<Target>
    var hoverOpen: Option<Hover>
    var toggleTimers: map<Target, CloneId>
    var expanded: map<Target, bool>

    function State(): PortalState
      reads this
    {
      PortalState(page, clones, nextId, activeClone, activeOriginal, hoverOpen, toggleTimers, expanded)
    }

    predicate Valid()
      reads this
    {
      Inv(State())
    }

    /** The script starts with no clone, no session and no pending timer. */
    constructor (page: Node)
      requires PageFlags(page)
      ensures State() == Init(page) && Valid()
    {
      this.page := page;
      clones := map[];
      nextId := 0;
      activeClone := None;
      activeOriginal := None;
      hoverOpen := None;
      toggleTimers := map[];
      expanded := map[];
    }

    /** The element a target names, read from the live fields. */
    function Element(t: Target): (n: Node)
      reads this
      requires Resolvable(State(), t)
      ensures n == NodeAt(State(), t)
    {
      match t
      case Page(p) => At(page, p)
      case InClone(c, p) => At(clones[c].content, p)
    }

    method SmoothCloseClone(c: CloneId)
      requires Valid()
      modifies this
      ensures State() == SmoothClose(old(State()), c) && Valid()
    {
      if c !in clones || clones[c].closing {
        return;
      }
      var rec := clones[c];
      rec := rec.(closing := true);
      rec := rec.(isOpen := false);
      // the trigger, clone, document and window listeners go with `closing`
      rec := rec.(awaitingTransition := true);
      rec := rec.(removeTimer := true);
      clones := clones[c := rec];
    }

    /** `window.__MenuPortal.closeAllClones`. */
    method CloseAllClones()
      requires Valid()
      modifies this
      ensures State() == CloseActive(old(State())) && Valid()
    {
      if activeClone.Some? {
        SmoothCloseClone(activeClone.value);
      }
    }

    method RemoveNodeOf(c: CloneId)
      requires Valid() && c in clones && clones[c].closing
      modifies this
      ensures State() == RemoveNode(old(State()), c) && Valid()
    {
      clones := clones[c := clones[c].(attached := false)];
      if activeClone == Some(c) {
        activeClone := None;
        activeOriginal := None;
      }
    }

    /** The clone's own `transitionend` event. */
    method OnTransitionEnd(c: CloneId)
      requires Valid()
      modifies this
      ensures State() == TransitionEnd(old(State()), c) && Valid()
    {
      if c in clones && clones[c].awaitingTransition {
        ghost var s0 := State();
        assert RecFlags(s0, c);
        UpdateKeepsInv(s0, c, clones[c].(awaitingTransition := false));
        clones := clones[c := clones[c].(awaitingTransition := false)];
        assert State() == Update(s0, c, s0.clones[c].(awaitingTransition := false));
        RemoveNodeOf(c);
      }
    }

    /** The 160 ms fallback of `smoothCloseClone` fires. */
    method OnRemoveTimer(c: CloneId)
      requires Valid()
      modifies this
      ensures State() == FireRemoveTimer(old(State()), c) && Valid()
    {
      if c in clones && clones[c].removeTimer {
        ghost var s0 := State();
        var rec := clones[c].(awaitingTransition := false, removeTimer := false);
        assert RecFlags(s0, c);
        UpdateKeepsInv(s0, c, rec);
        clones := clones[c := rec];
        assert State() == Update(s0, c, rec);
        RemoveNodeOf(c);
      }
    }

    /** The window's `beforeunload` and `pagehide` events. */
    method CloseAllClonesImmediate()
      requires Valid()
      modifies this
      ensures State() == CloseAllImmediate(old(State())) && Valid()
    {
      if activeClone.None? {
        return;
      }
      var a := activeClone.value;
      clones := clones[a := clones[a].(attached := false)];
      activeClone := None;
      activeOriginal := None;
    }

    method RequestRepositionOf(c: CloneId)
      requires Valid()
      modifies this
      ensures State() == RequestReposition(old(State()), c) && Valid()
    {
      if c !in clones || clones[c].repositionPending {
        return;
      }
      clones := clones[c := clones[c].(repositionPending := true, repositionFrame := true)];
    }

    /** Clone `c`'s reposition frame runs, `g` measured on `c`'s trigger. */
    method OnRepositionFrame(c: CloneId, g: Geometry)
      requires Valid()
      modifies this
      ensures State() == FireRepositionFrame(old(State()), c, g) && Valid()
    {
      if !(c in clones && clones[c].repositionFrame) {
        return;
      }
      clones := clones[c := clones[c].(repositionFrame := false)];
      if activeClone.None? || clones[c].closing {
        return;
      }
      var a := activeClone.value;
      clones := clones[a := clones[a].(at := Place(g))];
      clones := clones[c := clones[c].(repositionPending := false)];
    }

    /** `openCloneFor(panel, toggle)`, with `suffix` the random part of a
        generated id and `g` the trigger's geometry. */
    method OpenCloneFor(panel: Target, toggle: Target, suffix: string, g: Geometry)
      requires Valid() && Resolvable(State(), panel) && Resolvable(State(), toggle)
      modifies this
      ensures State() == Open(old(State()), panel, toggle, suffix, g) && Valid()
    {
      if activeOriginal == Some(panel) && activeClone.Some? {
        RequestRepositionOf(activeClone.value);
        return;
      }
      ghost var s0 := State();
      CloseAllClones();   // line 104, with the function the script defines at line 310
      ghost var s1 := State();
      KeepsResolvable(s0, s1, panel);
      KeepsResolvable(s0, s1, toggle);
      var built := BuildClone(Element(panel), suffix);
      if built.None? {
        return;
      }
      AppendClone(built.value, panel, toggle, g);
    }

    /** Lines 109-186 of `openCloneFor`: the built copy, moved off-screen, is
        appended to the body, becomes the active clone, is placed under its
        trigger, gets `is-open` on the next frame and attaches its listeners. */
    method AppendClone(content: Node, panel: Target, toggle: Target, g: Geometry)
      requires Valid() && PanelFree(content) && Resolvable(State(), panel) && Resolvable(State(), toggle)
      requires forall d :: d in clones ==> !Live(State(), d)
      modifies this
      ensures State() == Attach(old(State()), content, panel, toggle, g) && Valid()
    {
      var id := nextId;
      var rec := CloneRec(content, panel, toggle, OFFSCREEN, false, false, false,
                          false, false, false, false, false, false);
      rec := rec.(attached := true);
      nextId := nextId + 1;
      activeClone := Some(id);
      activeOriginal := Some(panel);
      rec := rec.(at := Place(g));
      rec := rec.(openFrame := true);
      clones := clones[id := rec];
    }

    /** The frame queued by `openCloneFor` runs. */
    method OnOpenFrame(c: CloneId)
      requires Valid()
      modifies this
      ensures State() == FireOpenFrame(old(State()), c) && Valid()
    {
      if c in clones && clones[c].openFrame {
        clones := clones[c := clones[c].(openFrame := false, isOpen := true)];
      }
    }

    /** `cloneEnter`, on `mouseenter` and `focusin` of clone `c`. */
    method CloneEnter(c: CloneId)
      requires Valid()
      modifies this
      ensures State() == MenuPortal.CloneEnter(old(State()), c) && Valid()
    {
      if c !in clones || clones[c].closing {
        return;
      }
      var t := clones[c].toggle;
      clones := clones[c := clones[c].(closeTimer := false)];
      toggleTimers := toggleTimers - {t};
      expanded := expanded[t := true];
    }

    /** `cloneLeave`, on `mouseleave` and `focusout` of clone `c`. */
    method CloneLeave(c: CloneId)
      requires Valid()
      modifies this
      ensures State() == Leave(old(State()), c) && Valid()
    {
      if c !in clones || clones[c].closing {
        return;
      }
      var t := clones[c].toggle;
      clones := clones[c := clones[c].(closeTimer := true)];
      toggleTimers := toggleTimers[t := c];
      expanded := expanded[t := false];
    }

    /** `toggleLeave`, on `mouseleave` and `focusout` of clone `c`'s trigger. */
    method ToggleLeave(c: CloneId)
      requires Valid()
      modifies this
      ensures State() == Leave(old(State()), c) && Valid()
    {
      if c !in clones || clones[c].closing {
        return;
      }
      var t := clones[c].toggle;
      toggleTimers := toggleTimers[t := c];
      clones := clones[c := clones[c].(closeTimer := true)];
      expanded := expanded[t := false];
    }

    /** `toggleEnter`, on `mouseenter` and `focusin` of clone `c`'s trigger. */
    method ToggleEnter(c: CloneId, suffix: string, g: Geometry)
      requires Valid()
      modifies this
      ensures State() == MenuPortal.ToggleEnter(old(State()), c, suffix, g) && Valid()
    {
      if c !in clones || clones[c].closing {
        return;
      }
      ghost var s0 := State();
      var panel, t := clones[c].panel, clones[c].toggle;
      assert RecGrounded(s0, c);
      CloneEnter(c);
      KeepsResolvable(s0, State(), panel);
      KeepsResolvable(s0, State(), t);
      var shown := expanded;
      OpenCloneFor(panel, t, suffix, g);
      expanded := shown;
    }

    /** Clone `c`'s document `mousedown` and `touchstart` handler. */
    method OutsideHandler(c: CloneId, target: Target)
      requires Valid() && Resolvable(State(), target)
      modifies this
      ensures State() == OutsidePointer(old(State()), c, target) && Valid()
    {
      if c !in clones || clones[c].closing {
        return;
      }
      if target.InClone? {
        return;
      }
      if ClosestTarget(State(), target, ToggleSel).Some? {
        return;
      }
      SmoothCloseClone(c);
    }

    /** Clone `c`'s document `keydown` handler. */
    method EscHandler(c: CloneId, key: string)
      requires Valid()
      modifies this
      ensures State() == KeyDown(old(State()), c, key) && Valid()
    {
      if c in clones && !clones[c].closing && key == "Escape" {
        SmoothCloseClone(c);
      }
    }

    /** Clone `c`'s window `scroll` and `resize` handler. */
    method OnScroll(c: CloneId)
      requires Valid()
      modifies this
      ensures State() == Scroll(old(State()), c) && Valid()
    {
      if c in clones && !clones[c].closing {
        RequestRepositionOf(c);
      }
    }

    /** `clone._closeTimer` fires. */
    method OnCloseTimer(c: CloneId)
      requires Valid()
      modifies this
      ensures State() == FireCloseTimer(old(State()), c) && Valid()
    {
      if c in clones && clones[c].closeTimer {
        ghost var s0 := State();
        var rec := clones[c].(closeTimer := false);
        assert RecFlags(s0, c);
        UpdateKeepsInv(s0, c, rec);
        clones := clones[c := rec];
        assert State() == Update(s0, c, rec);
        SmoothCloseClone(c);
      }
    }

    /** `toggle._closeTimer` fires. */
    method OnToggleTimer(t: Target)
      requires Valid()
      modifies this
      ensures State() == FireToggleTimer(old(State()), t) && Valid()
    {
      if t in toggleTimers {
        ghost var s0 := State();
        var c := toggleTimers[t];
        ghost var s1 := WithToggleTimers(s0, s0.toggleTimers - {t});
        toggleTimers := toggleTimers - {t};
        assert State() == s1;
        SmoothCloseClone(c);
      }
    }

    /** The document `mouseover` handler. */
    method OnMouseOver(target: Target, viewportWidth: int)
      requires Valid() && Resolvable(State(), target)
      modifies this
      ensures State() == HoverOver(old(State()), target, viewportWidth) && Valid()
    {
      var toggle := ClosestTarget(State(), target, ToggleSel);
      if toggle.None? {
        return;
      }
      if !IsDesktop(viewportWidth) {
        return;
      }
      var panel := FindPanel(State(), toggle.value);
      if panel.None? {
        return;
      }
      hoverOpen := Some(Hover(panel.value, toggle.value));
    }

    /** `hoverOpenTimeout` fires. */
    method OnHoverTimer(suffix: string, g: Geometry)
      requires Valid()
      modifies this
      ensures State() == FireHoverOpen(old(State()), suffix, g) && Valid()
    {
      if hoverOpen.None? {
        return;
      }
      var h := hoverOpen.value;
      ghost var s0 := State();
      hoverOpen := None;
      assert State() == WithHover(s0, None);
      KeepsResolvable(s0, State(), h.panel);
      KeepsResolvable(s0, State(), h.toggle);
      OpenCloneFor(h.panel, h.toggle, suffix, g);
    }

    /** The document `click` handler. */
    method OnClick(target: Target, suffix: string, g: Geometry)
      requires Valid() && Resolvable(State(), target)
      modifies this
      ensures State() == Click(old(State()), target, suffix, g) && Valid()
    {
      var toggle := ClosestTarget(State(), target, ToggleSel);
      if toggle.Some? {
        var panel := FindPanel(State(), toggle.value);
        if panel.None? {
          return;
        }
        if activeClone.Some? && activeOriginal == panel {
          SmoothCloseClone(activeClone.value);
        } else {
          OpenCloneFor(panel.value, toggle.value, suffix, g);
        }
        return;
      }
      if ClosestTarget(State(), target, PanelSel).None? {
        CloseAllClones();
      }
    }

    /** The document `focusin` handler. */
    method OnFocusIn(target: Target, suffix: string, g: Geometry)
      requires Valid() && Resolvable(State(), target)
      modifies this
      ensures State() == FocusIn(old(State()), target, suffix, g) && Valid()
    {
      var toggle := ClosestTarget(State(), target, ToggleSel);
      if toggle.Some? {
        var panel := FindPanel(State(), toggle.value);
        if panel.Some? {
          OpenCloneFor(panel.value, toggle.value, suffix, g);
        }
      }
    }
  }
}
