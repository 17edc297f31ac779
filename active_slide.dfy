/**
 * The state behind a decorated carousel and how it changes, as values:
 * the recorded active index, each slide's `aria-hidden` and `active` class,
 * each link's tab stop (true when it has no `tabindex="-1"`), and each
 * indicator button's `disabled` flag.
 */
module ActiveSlide {
  import opened Options
  import opened SlideIndex

  datatype ViewState = ViewState(
    active: Option<int>,          // block.dataset.activeSlide; None while unset
    hidden: seq<bool>,            // aria-hidden per slide
    activeClass: seq<bool>,       // 'active' class per slide
    links: seq<seq<bool>>,        // per slide, per link: reachable by Tab
    disabled: seq<bool>)          // per indicator button

  /** The three per-slide sequences describe the same slides. */
  predicate Consistent(s: ViewState) {
    |s.hidden| == |s.links| && |s.activeClass| == |s.links|
  }

  /** A slide without links never carries the 'active' class. */
  predicate ClassOnlyWithLinks(s: ViewState) {
    forall i :: 0 <= i < |s.activeClass| && i < |s.links| && s.activeClass[i] ==> |s.links[i]| > 0
  }

  function Fill(m: nat, b: bool): seq<bool> {
    seq(m, _ => b)
  }

  /** How many entries of `s` equal `v`. */
  function CountOf(s: seq<bool>, v: bool): nat {
    if s == [] then 0 else CountOf(s[..|s| - 1], v) + (if s[|s| - 1] == v then 1 else 0)
  }

  lemma {:induction false} CountSingle(s: seq<bool>, v: bool, k: int)
    requires forall i :: 0 <= i < |s| ==> (s[i] == v <==> i == k)
    ensures CountOf(s, v) == if 0 <= k < |s| then 1 else 0
  {
    if s != [] {
      var prefix := s[..|s| - 1];
      assert forall i :: 0 <= i < |prefix| ==> prefix[i] == s[i];
      CountSingle(prefix, v, k);
    }
  }

  // ---------------------------------------------------------------------
  // updateActiveSlide: the committed transition
  // ---------------------------------------------------------------------

  /**
   * The state after `updateActiveSlide` for the slide with index `k`. The
   * 'active' class is written inside the per-link loop, so a slide without
   * links keeps whatever class state it had.
   */
  function UpdateActive(s: ViewState, k: int): (r: ViewState)
    ensures r.active == Some(k)
    ensures |r.hidden| == |s.hidden| && |r.activeClass| == |s.activeClass| &&
            |r.links| == |s.links| && |r.disabled| == |s.disabled|
    ensures Consistent(s) ==> Consistent(r)
  {
    ViewState(
      Some(k),
      seq(|s.hidden|, i => i != k),
      seq(|s.activeClass|, i requires 0 <= i < |s.activeClass| =>
        if i < |s.links| && |s.links[i]| > 0 then i == k else s.activeClass[i]),
      seq(|s.links|, i requires 0 <= i < |s.links| => Fill(|s.links[i]|, i == k)),
      seq(|s.disabled|, i => i == k))
  }

  /** A state that agrees with `UpdateActive(s, k)` slide by slide is that state. */
  lemma UpdateActiveFromParts(s: ViewState, r: ViewState, k: int)
    requires r.active == Some(k)
    requires |r.hidden| == |s.hidden| && forall i :: 0 <= i < |s.hidden| ==> r.hidden[i] == (i != k)
    requires |r.links| == |s.links| && forall i :: 0 <= i < |s.links| ==> r.links[i] == Fill(|s.links[i]|, i == k)
    requires |r.activeClass| == |s.activeClass|
    requires forall i :: 0 <= i < |s.activeClass| ==>
      r.activeClass[i] == if i < |s.links| && |s.links[i]| > 0 then i == k else s.activeClass[i]
    requires |r.disabled| == |s.disabled| && forall i :: 0 <= i < |s.disabled| ==> r.disabled[i] == (i == k)
    ensures r == UpdateActive(s, k)
  {
  }

  /** The index is recorded and exactly slide `k` is left visible. */
  lemma UpdateActiveShowsOneSlide(s: ViewState, k: int)
    ensures UpdateActive(s, k).active == Some(k)
    ensures |UpdateActive(s, k).hidden| == |s.hidden|
    ensures forall i :: 0 <= i < |s.hidden| ==> (!UpdateActive(s, k).hidden[i] <==> i == k)
    ensures CountOf(UpdateActive(s, k).hidden, false) == if 0 <= k < |s.hidden| then 1 else 0
  {
    CountSingle(UpdateActive(s, k).hidden, false, k);
  }

  /** Exactly indicator `k` is disabled. */
  lemma UpdateActiveDisablesOneIndicator(s: ViewState, k: int)
    ensures |UpdateActive(s, k).disabled| == |s.disabled|
    ensures forall i :: 0 <= i < |s.disabled| ==> (UpdateActive(s, k).disabled[i] <==> i == k)
    ensures CountOf(UpdateActive(s, k).disabled, true) == if 0 <= k < |s.disabled| then 1 else 0
  {
    CountSingle(UpdateActive(s, k).disabled, true, k);
  }

  /** Every link of slide `k` is a tab stop and every other link is not. */
  lemma UpdateActiveLinks(s: ViewState, k: int)
    ensures |UpdateActive(s, k).links| == |s.links|
    ensures forall i :: 0 <= i < |s.links| ==> |UpdateActive(s, k).links[i]| == |s.links[i]|
    ensures forall i, j :: 0 <= i < |s.links| && 0 <= j < |s.links[i]| ==>
      (UpdateActive(s, k).links[i][j] <==> i == k)
  {
  }

  /**
   * Slides with links get the 'active' class exactly when they are slide `k`;
   * slides without links keep their previous class. From a state in which
   * linkless slides carry no class, the class ends up on slide `k` alone, and
   * only if it has a link.
   */
  lemma UpdateActiveClass(s: ViewState, k: int)
    requires Consistent(s)
    ensures forall i :: 0 <= i < |s.links| && |s.links[i]| > 0 ==> (UpdateActive(s, k).activeClass[i] <==> i == k)
    ensures forall i :: 0 <= i < |s.links| && |s.links[i]| == 0 ==> UpdateActive(s, k).activeClass[i] == s.activeClass[i]
    ensures ClassOnlyWithLinks(s) ==> ClassOnlyWithLinks(UpdateActive(s, k))
    ensures ClassOnlyWithLinks(s) ==>
      forall i :: 0 <= i < |s.links| ==> (UpdateActive(s, k).activeClass[i] <==> i == k && |s.links[i]| > 0)
  {
  }

  /** The visible slide of a one-slide carousel without links never gets the 'active' class. */
  lemma VisibleLinklessSlideLacksClass()
    ensures var r := UpdateActive(ViewState(None, [false], [false], [[]], [false]), 0);
      !r.hidden[0] && !r.activeClass[0]
  {
  }

  /**
   * Everything `updateActiveSlide` writes depends on `k` alone or is left as
   * it was, so a later update overrides an earlier one completely.
   */
  lemma UpdateActiveLastWins(s: ViewState, a: int, b: int)
    ensures UpdateActive(UpdateActive(s, a), b) == UpdateActive(s, b)
  {
  }

  /** Re-applying the same update is harmless. */
  lemma UpdateActiveIdempotent(s: ViewState, k: int)
    ensures UpdateActive(UpdateActive(s, k), k) == UpdateActive(s, k)
  {
    UpdateActiveLastWins(s, k, k);
  }

  // ---------------------------------------------------------------------
  // showSlide and the previous/next buttons
  // ---------------------------------------------------------------------

  /** What `showSlide` does: scroll to a slide (not modelled) after making its links tab stops, or fail. */
  datatype ShowResult = Scrolled(target: nat, state: ViewState) | NoSuchSlide

  /**
   * `showSlide(block, index)`. When the wrapped index names no slide (there
   * are no slides) the source dereferences `undefined` and throws before
   * changing anything.
   */
  function ShowSlide(s: ViewState, index: int): (r: ShowResult)
    ensures r.Scrolled? <==> |s.links| > 0
    ensures r.Scrolled? ==> r.target < |s.links| && r.state.active == s.active && r.state.hidden == s.hidden
  {
    var t := TargetIndex(index, |s.links|);
    if 0 <= t < |s.links| then
      Scrolled(t, s.(links := s.links[t := Fill(|s.links[t]|, true)]))
    else
      NoSuchSlide
  }

  /**
   * A slide is shown exactly when there is one; its links become tab stops
   * and nothing else changes: the active index, visibility, classes and
   * indicators wait for the commit.
   */
  lemma ShowSlideEffect(s: ViewState, index: int)
    ensures ShowSlide(s, index).Scrolled? <==> |s.links| > 0
    ensures ShowSlide(s, index).Scrolled? ==>
      var r := ShowSlide(s, index);
      r.target == TargetIndex(index, |s.links|) &&
      r.state.active == s.active && r.state.hidden == s.hidden &&
      r.state.activeClass == s.activeClass && r.state.disabled == s.disabled &&
      |r.state.links| == |s.links| &&
      (forall i :: 0 <= i < |s.links| && i != r.target ==> r.state.links[i] == s.links[i]) &&
      |r.state.links[r.target]| == |s.links[r.target]| &&
      (forall j :: 0 <= j < |s.links[r.target]| ==> r.state.links[r.target][j])
  {
  }

  /** Making the target's links tab stops is subsumed by the commit that follows. */
  lemma ShowThenCommit(s: ViewState, index: int)
    requires ShowSlide(s, index).Scrolled?
    ensures var r := ShowSlide(s, index);
      UpdateActive(r.state, r.target) == UpdateActive(s, r.target)
  {
  }

  /** A button click: step from the recorded active index; an unset index (NaN) reaches no slide. */
  function Step(s: ViewState, delta: int): (r: ShowResult)
    ensures r.Scrolled? <==> s.active.Some? && |s.links| > 0
    ensures r.Scrolled? ==> r.target == TargetIndex(s.active.value + delta, |s.links|)
  {
    match s.active
    case None => NoSuchSlide
    case Some(a) => ShowSlide(s, a + delta)
  }

  /** The next button: from a committed in-range slide a, slide (a + 1) mod n. */
  function Next(s: ViewState): (r: ShowResult)
    ensures s.active.Some? && 0 <= s.active.value < |s.links| ==>
      r.Scrolled? && r.target == (s.active.value + 1) % |s.links|
  {
    Step(s, 1)
  }

  /** The previous button: from a committed in-range slide a, slide (a - 1) mod n. */
  function Prev(s: ViewState): (r: ShowResult)
    ensures s.active.Some? && 0 <= s.active.value < |s.links| ==>
      r.Scrolled? && r.target == (s.active.value - 1) % |s.links|
  {
    Step(s, -1)
  }

  /** Next from the last slide shows the first; previous from the first shows the last. */
  lemma NavigationWraps(s: ViewState)
    requires |s.links| >= 1
    ensures s.active == Some(|s.links| - 1) ==> Next(s).Scrolled? && Next(s).target == 0
    ensures s.active == Some(0) ==> Prev(s).Scrolled? && Prev(s).target == |s.links| - 1
  {
  }

  /** Before any slide has been committed the buttons reach nothing. */
  lemma NavigationNeedsCommittedSlide(s: ViewState)
    requires s.active == None
    ensures Next(s) == NoSuchSlide && Prev(s) == NoSuchSlide
  {
  }

  /**
   * From a committed slide `a`, next followed by the observer's commit makes
   * slide (a + 1) mod n the only visible slide, and previous makes
   * (a - 1) mod n the only visible one.
   */
  lemma NavigateThenCommit(s: ViewState, a: int)
    requires Consistent(s) && s.active == Some(a) && 0 <= a < |s.links|
    ensures Next(s).Scrolled? && Next(s).target == (a + 1) % |s.links|
    ensures Prev(s).Scrolled? && Prev(s).target == (a - 1) % |s.links|
    ensures UpdateActive(Next(s).state, Next(s).target) == UpdateActive(s, (a + 1) % |s.links|)
    ensures UpdateActive(Prev(s).state, Prev(s).target) == UpdateActive(s, (a - 1) % |s.links|)
    ensures CountOf(UpdateActive(Next(s).state, Next(s).target).hidden, false) == 1
    ensures CountOf(UpdateActive(Prev(s).state, Prev(s).target).hidden, false) == 1
  {
    var n := |s.links|;
    StepIsModular(a, n);
    ShowThenCommit(s, a + 1);
    ShowThenCommit(s, a - 1);
    UpdateActiveShowsOneSlide(s, (a + 1) % n);
    UpdateActiveShowsOneSlide(s, (a - 1) % n);
  }

  // ---------------------------------------------------------------------
  // The intersection observer's callback
  // ---------------------------------------------------------------------

  /** One observer entry: the index of the observed slide and whether it intersects. */
  datatype Entry = Entry(slideIndex: nat, isIntersecting: bool)

  /** The callback commits every intersecting entry, in order. */
  function ObserveEntries(s: ViewState, entries: seq<Entry>): (r: ViewState)
    ensures |r.hidden| == |s.hidden| && |r.activeClass| == |s.activeClass| &&
            |r.links| == |s.links| && |r.disabled| == |s.disabled|
    ensures (forall i :: 0 <= i < |entries| ==> !entries[i].isIntersecting) ==> r == s
    decreases |entries|
  {
    if entries == [] then s
    else
      var next := if entries[0].isIntersecting then UpdateActive(s, entries[0].slideIndex) else s;
      ObserveEntries(next, entries[1..])
  }

  /** The slide of the last intersecting entry, if any. */
  function LastIntersecting(entries: seq<Entry>): Option<nat>
    decreases |entries|
  {
    if entries == [] then None
    else
      match LastIntersecting(entries[1..])
      case Some(k) => Some(k)
      case None => if entries[0].isIntersecting then Some(entries[0].slideIndex) else None
  }

  /** A batch of entries has the effect of its last intersecting entry alone. */
  lemma {:induction false} ObserveEntriesLastWins(s: ViewState, entries: seq<Entry>)
    ensures ObserveEntries(s, entries) ==
      match LastIntersecting(entries)
      case None => s
      case Some(k) => UpdateActive(s, k)
    decreases |entries|
  {
    if entries != [] {
      var e := entries[0];
      var next := if e.isIntersecting then UpdateActive(s, e.slideIndex) else s;
      ObserveEntriesLastWins(next, entries[1..]);
      match LastIntersecting(entries[1..])
      case Some(k) =>
        if e.isIntersecting {
          UpdateActiveLastWins(s, e.slideIndex, k);
        }
      case None =>
    }
  }
}
