/**
 * A decorated carousel block. The slide list, the indicator list and the
 * navigation controls are built once; what changes afterwards is held in
 * arrays that the event handlers update in place, as the page's attributes
 * and classes are.
 */
module CarouselBlock {
  import opened Options
  import opened Decimal
  import opened SlideIndex
  import opened ActiveSlide
  import opened Construction

  /** The `aria-label`s of the indicator `nav` and of the previous/next buttons. */
  datatype Controls = Controls(navLabel: string, prevLabel: string, nextLabel: string)

  /** The English fallbacks used when the page has no localized placeholders. */
  const DefaultControls := Controls("Carousel Slide Controls", "Previous Slide", "Next Slide")

  class Carousel {
    const id: string
    const role: string
    const roleDescription: string
    const singleSlide: bool
    const slides: seq<Slide>
    const indicators: seq<Indicator>
    const controls: Option<Controls>

    var activeSlide: Option<int>
    const hidden: array<bool>
    const activeClass: array<bool>
    const tabbable: array<seq<bool>>
    const indicatorDisabled: array<bool>

    ghost predicate Valid()
      reads this, hidden, activeClass, tabbable, indicatorDisabled
    {
      hidden.Length == |slides| && activeClass.Length == |slides| && tabbable.Length == |slides| &&
      indicatorDisabled.Length == |indicators| && |indicators| == |slides| &&
      hidden != activeClass && hidden != indicatorDisabled && activeClass != indicatorDisabled &&
      (forall i :: 0 <= i < |slides| ==> |tabbable[i]| == LinkCount(slides[i].columns)) &&
      (forall j :: 0 <= j < |indicators| ==> indicators[j].targetSlide == NatToString(j)) &&
      ClassOnlyWithLinks(State())
    }

    /** The current state, as the value the transitions of `ActiveSlide` act on. */
    function State(): (s: ViewState)
      reads this, hidden, activeClass, tabbable, indicatorDisabled
    {
      ViewState(activeSlide, hidden[..], activeClass[..], tabbable[..], indicatorDisabled[..])
    }

    /**
     * `decorate(block)` on a block of authored rows, as the `carouselId`-th
     * carousel of the page.
     */
    constructor Decorate(rows: seq<Row>, carouselId: nat)
      ensures Valid()
      ensures fresh(hidden) && fresh(activeClass) && fresh(tabbable) && fresh(indicatorDisabled)
      ensures id == BlockId(carouselId) && role == "region" && roleDescription == "Carousel"
      ensures singleSlide == IsSingleSlide(false, |rows|) && !singleSlide
      ensures controls == Some(DefaultControls)
      ensures |slides| == |rows| && |indicators| == |rows|
      ensures forall idx :: 0 <= idx < |rows| ==>
        slides[idx] == SlideFor(rows[idx], idx, carouselId) && indicators[idx] == IndicatorFor(idx, |rows|)
      ensures activeSlide == None
      ensures forall i :: 0 <= i < |rows| ==>
        !hidden[i] && !activeClass[i] && tabbable[i] == Fill(LinkCount(rows[i].columns), true)
      ensures forall j :: 0 <= j < |rows| ==> !indicatorDisabled[j]
    {
      var single := IsSingleSlide(false, |rows|);
      var built, marks := BuildFromRows(rows, carouselId, !single);
      forall idx | 0 <= idx < |rows|
        ensures LinkCount(built[idx].columns) == LinkCount(rows[idx].columns)
      {
        LinkCountTagged(rows[idx].columns, built[idx].columns);
      }
      id := BlockId(carouselId);
      role := "region";
      roleDescription := "Carousel";
      singleSlide := single;
      controls := if single then None else Some(DefaultControls);
      slides := built;
      indicators := marks;
      activeSlide := None;
      hidden := new bool[|built|](_ => false);
      activeClass := new bool[|built|](_ => false);
      tabbable := new seq<bool>[|built|](i requires 0 <= i < |built| => Fill(LinkCount(built[i].columns), true));
      indicatorDisabled := new bool[|marks|](_ => false);
    }

    /** The per-link loop of `updateActiveSlide` for slide `i`. */
    method MarkSlideLinks(i: nat, isActive: bool)
      requires i < tabbable.Length && i < activeClass.Length
      modifies tabbable, activeClass
      ensures tabbable[i] == Fill(|old(tabbable[i])|, isActive)
      ensures activeClass[i] == if |old(tabbable[i])| > 0 then isActive else old(activeClass[i])
      ensures forall x :: 0 <= x < tabbable.Length && x != i ==> tabbable[x] == old(tabbable[x])
      ensures forall x :: 0 <= x < activeClass.Length && x != i ==> activeClass[x] == old(activeClass[x])
    {
      var j := 0;
      while j < |tabbable[i]|
        invariant 0 <= j <= |tabbable[i]| == |old(tabbable[i])|
        invariant forall y :: 0 <= y < j ==> tabbable[i][y] == isActive
        invariant activeClass[i] == if j > 0 then isActive else old(activeClass[i])
        invariant forall x :: 0 <= x < tabbable.Length && x != i ==> tabbable[x] == old(tabbable[x])
        invariant forall x :: 0 <= x < activeClass.Length && x != i ==> activeClass[x] == old(activeClass[x])
      {
        tabbable[i] := tabbable[i][j := isActive];
        activeClass[i] := isActive;
        j := j + 1;
      }
    }

    /** The slide loop of `updateActiveSlide`: `aria-hidden`, link tab stops and class per slide. */
    method MarkSlides(k: int)
      requires hidden.Length == activeClass.Length == tabbable.Length && hidden != activeClass
      modifies hidden, activeClass, tabbable
      ensures forall x :: 0 <= x < hidden.Length ==> hidden[x] == (x != k)
      ensures forall x :: 0 <= x < tabbable.Length ==> tabbable[x] == Fill(|old(tabbable[x])|, x == k)
      ensures forall x :: 0 <= x < activeClass.Length ==>
        activeClass[x] == if |old(tabbable[x])| > 0 then x == k else old(activeClass[x])
    {
      var i := 0;
      while i < hidden.Length
        invariant 0 <= i <= hidden.Length
        invariant forall x :: 0 <= x < i ==> hidden[x] == (x != k)
        invariant forall x :: 0 <= x < i ==> tabbable[x] == Fill(|old(tabbable[x])|, x == k)
        invariant forall x :: 0 <= x < i ==>
          activeClass[x] == if |old(tabbable[x])| > 0 then x == k else old(activeClass[x])
        invariant forall x :: i <= x < hidden.Length ==>
          tabbable[x] == old(tabbable[x]) && activeClass[x] == old(activeClass[x])
      {
        hidden[i] := i != k;
        MarkSlideLinks(i, i == k);
        i := i + 1;
      }
    }

    /** The indicator loop of `updateActiveSlide`: only indicator `k` is disabled. */
    method MarkIndicators(k: int)
      modifies indicatorDisabled
      ensures forall x :: 0 <= x < indicatorDisabled.Length ==> indicatorDisabled[x] == (x == k)
    {
      var j := 0;
      while j < indicatorDisabled.Length
        invariant 0 <= j <= indicatorDisabled.Length
        invariant forall x :: 0 <= x < j ==> indicatorDisabled[x] == (x == k)
      {
        indicatorDisabled[j] := j == k;
        j := j + 1;
      }
    }

    /** `updateActiveSlide` for the slide whose index is `k`. */
    method UpdateActiveSlide(k: int)
      requires Valid()
      modifies this`activeSlide, hidden, activeClass, tabbable, indicatorDisabled
      ensures Valid()
      ensures State() == UpdateActive(old(State()), k)
    {
      ghost var before := State();
      activeSlide := Some(k);
      MarkSlides(k);
      MarkIndicators(k);
      UpdateActiveFromParts(before, State(), k);
      UpdateActiveClass(before, k);
    }

    /**
     * `showSlide(block, index)`: the target's links become tab stops, and
     * `target` names the slide scrolled to, or is None when the wrapped index
     * names no slide (the source throws there).
     */
    method ShowSlide(index: int) returns (target: Option<nat>)
      requires Valid()
      modifies tabbable
      ensures Valid()
      ensures ActiveSlide.ShowSlide(old(State()), index) ==
        if target.Some? then Scrolled(target.value, State()) else NoSuchSlide
      ensures target == None ==> State() == old(State())
    {
      var t := TargetIndex(index, |slides|);
      if !(0 <= t < |slides|) {
        return None;
      }
      var j := 0;
      while j < |tabbable[t]|
        invariant 0 <= j <= |tabbable[t]| == |old(tabbable[t])|
        invariant forall y :: 0 <= y < j ==> tabbable[t][y]
        invariant forall x :: 0 <= x < tabbable.Length && x != t ==> tabbable[x] == old(tabbable[x])
      {
        tabbable[t] := tabbable[t][j := true];
        j := j + 1;
      }
      assert tabbable[t] == Fill(|old(tabbable[t])|, true);
      assert tabbable[..] == old(tabbable[..])[t := Fill(|old(tabbable[t])|, true)];
      target := Some(t);
    }

    /** The previous-slide button. */
    method Prev() returns (target: Option<nat>)
      requires Valid() && !singleSlide
      modifies tabbable
      ensures Valid()
      ensures ActiveSlide.Prev(old(State())) ==
        if target.Some? then Scrolled(target.value, State()) else NoSuchSlide
      ensures target == None ==> State() == old(State())
    {
      match activeSlide
      case None =>
        target := None;
      case Some(a) =>
        target := ShowSlide(a - 1);
    }

    /** The next-slide button. */
    method Next() returns (target: Option<nat>)
      requires Valid() && !singleSlide
      modifies tabbable
      ensures Valid()
      ensures ActiveSlide.Next(old(State())) ==
        if target.Some? then Scrolled(target.value, State()) else NoSuchSlide
      ensures target == None ==> State() == old(State())
    {
      match activeSlide
      case None =>
        target := None;
      case Some(a) =>
        target := ShowSlide(a + 1);
    }

    /** A click on indicator `j`: show the slide its `data-target-slide` names. */
    method SelectIndicator(j: nat) returns (target: Option<nat>)
      requires Valid() && !singleSlide && j < |indicators|
      modifies tabbable
      ensures Valid()
      ensures ActiveSlide.ShowSlide(old(State()), j) ==
        if target.Some? then Scrolled(target.value, State()) else NoSuchSlide
      ensures target == None ==> State() == old(State())
    {
      ParseNatToString(j);
      target := ShowSlide(ParseNat(indicators[j].targetSlide));
    }

    /** The intersection observer's callback on a batch of entries. */
    method HandleIntersections(entries: seq<Entry>)
      requires Valid() && !singleSlide
      modifies this`activeSlide, hidden, activeClass, tabbable, indicatorDisabled
      ensures Valid()
      ensures State() == ObserveEntries(old(State()), entries)
    {
      var i := 0;
      while i < |entries|
        invariant 0 <= i <= |entries|
        invariant Valid()
        invariant ObserveEntries(State(), entries[i..]) == ObserveEntries(old(State()), entries)
      {
        if entries[i].isIntersecting {
          UpdateActiveSlide(entries[i].slideIndex);
        }
        i := i + 1;
      }
    }
  }
}
