/**
 * Building the slide list and the indicator list from the rows an author
 * wrote (`createSlide` and the row branch of `decorate`). DOM nodes are
 * values here: a column keeps its class list and how many links it holds.
 */
module Construction {
  import opened Options
  import opened Decimal

  /** An authored `div` column: its class list and the number of `a` elements inside it. */
  datatype Column = Column(classes: seq<string>, links: nat)

  /** An authored row: its `div` children, in document order. */
  datatype Row = Row(columns: seq<Column>)

  /** A `li.carousel-slide`: `data-slide-index`, `id`, class list and the moved columns. */
  datatype Slide = Slide(slideIndex: string, id: string, classes: seq<string>, columns: seq<Column>)

  /** A `li.carousel-slide-indicator`: `data-target-slide` and the text of its button. */
  datatype Indicator = Indicator(classes: seq<string>, targetSlide: string, text: string)

  const SlideClass := "carousel-slide"
  const IndicatorClass := "carousel-slide-indicator"
  const ImageClass := "carousel-slide-image"
  const ContentClass := "carousel-slide-content"

  /** The id of the block of the `carouselId`-th carousel on the page: "carousel-" and the id, readable back. */
  function BlockId(carouselId: nat): (r: string)
    ensures |r| > 9 && r[..9] == "carousel-"
    ensures IsNumeral(r[9..]) && ParseNat(r[9..]) == carouselId
  {
    ParseNatToString(carouselId);
    var r := "carousel-" + NatToString(carouselId);
    assert r[9..] == NatToString(carouselId);
    r
  }

  /** A slide's id: its block's id, "-slide-" and the slide index, readable back. */
  function SlideId(carouselId: nat, slideIndex: nat): (r: string)
    ensures var b := BlockId(carouselId);
      |r| > |b| + 7 && r[..|b|] == b && r[|b|..|b| + 7] == "-slide-" &&
      IsNumeral(r[|b| + 7..]) && ParseNat(r[|b| + 7..]) == slideIndex
  {
    ParseNatToString(slideIndex);
    var b := BlockId(carouselId);
    var r := b + "-slide-" + NatToString(slideIndex);
    assert r[..|b|] == b && r[|b|..|b| + 7] == "-slide-" && r[|b| + 7..] == NatToString(slideIndex);
    r
  }

  /** The first column holds the image, every later one content. */
  function ColumnClass(colIdx: nat): string {
    if colIdx == 0 then ImageClass else ContentClass
  }

  /** `column.classList.add(...)`: a class already present is not added twice. */
  function Tag(c: Column, colIdx: nat): (r: Column)
    ensures r.links == c.links
    ensures ColumnClass(colIdx) in r.classes
    ensures forall x :: x in r.classes <==> x in c.classes || x == ColumnClass(colIdx)
    ensures |r.classes| == |c.classes| + (if ColumnClass(colIdx) in c.classes then 0 else 1)
    ensures r.classes[..|c.classes|] == c.classes
  {
    var cls := ColumnClass(colIdx);
    if cls in c.classes then c else c.(classes := c.classes + [cls])
  }

  /**
   * What `createSlide(row, slideIndex, carouselId)` returns: a slide of class
   * `carousel-slide` holding the row's columns, in order, each tagged by its
   * position and with its links.
   */
  function SlideFor(row: Row, slideIndex: nat, carouselId: nat): (r: Slide)
    ensures r.classes == [SlideClass] && r.id == SlideId(carouselId, slideIndex)
    ensures IsNumeral(r.slideIndex) && ParseNat(r.slideIndex) == slideIndex
    ensures |r.columns| == |row.columns|
    ensures forall c :: 0 <= c < |row.columns| ==>
      r.columns[c].links == row.columns[c].links && ColumnClass(c) in r.columns[c].classes
  {
    ParseNatToString(slideIndex);
    Slide(NatToString(slideIndex), SlideId(carouselId, slideIndex), [SlideClass],
          seq(|row.columns|, c requires 0 <= c < |row.columns| => Tag(row.columns[c], c)))
  }

  /** The English fallback of the indicator text: "Show Slide {idx+1} of {count}". */
  function IndicatorLabel(idx: nat, count: nat): (r: string)
    ensures var x := NatToString(idx + 1);
      |r| > 15 + |x| && r[..11] == "Show Slide " &&
      r[11..11 + |x|] == x && r[11 + |x|..15 + |x|] == " of " &&
      IsNumeral(r[15 + |x|..]) && ParseNat(r[15 + |x|..]) == count
  {
    ParseNatToString(count);
    var x := NatToString(idx + 1);
    var r := "Show Slide " + x + " of " + NatToString(count);
    assert r[..11] == "Show Slide " && r[11..11 + |x|] == x && r[11 + |x|..15 + |x|] == " of ";
    assert r[15 + |x|..] == NatToString(count);
    r
  }

  /** Indicator `idx` of `count`: it targets slide `idx` and its text names slide idx + 1 of `count`. */
  function IndicatorFor(idx: nat, count: nat): (r: Indicator)
    ensures r.classes == [IndicatorClass]
    ensures IsNumeral(r.targetSlide) && ParseNat(r.targetSlide) == idx
    ensures r.text == IndicatorLabel(idx, count)
  {
    ParseNatToString(idx);
    Indicator([IndicatorClass], NatToString(idx), IndicatorLabel(idx, count))
  }

  /** The number of links a slide holds, which `querySelectorAll('a')` visits. */
  function LinkCount(columns: seq<Column>): nat {
    if columns == [] then 0 else LinkCount(columns[..|columns| - 1]) + columns[|columns| - 1].links
  }

  /** `createSlide`: tag each column by position and move it into a new slide. */
  method CreateSlide(row: Row, slideIndex: nat, carouselId: nat) returns (slide: Slide)
    ensures slide == SlideFor(row, slideIndex, carouselId)
  {
    var columns: seq<Column> := [];
    var colIdx := 0;
    while colIdx < |row.columns|
      invariant 0 <= colIdx <= |row.columns|
      invariant |columns| == colIdx
      invariant forall c :: 0 <= c < colIdx ==> columns[c] == Tag(row.columns[c], c)
    {
      columns := columns + [Tag(row.columns[colIdx], colIdx)];
      colIdx := colIdx + 1;
    }
    slide := Slide(NatToString(slideIndex), SlideId(carouselId, slideIndex), [SlideClass], columns);
  }

  /**
   * The row branch of `decorate`: one slide per row and, when the indicator
   * list exists, one indicator per row.
   */
  method BuildFromRows(rows: seq<Row>, carouselId: nat, withIndicators: bool)
    returns (slides: seq<Slide>, indicators: seq<Indicator>)
    ensures |slides| == |rows|
    ensures forall idx :: 0 <= idx < |rows| ==> slides[idx] == SlideFor(rows[idx], idx, carouselId)
    ensures withIndicators ==> |indicators| == |rows|
    ensures withIndicators ==> forall idx :: 0 <= idx < |rows| ==> indicators[idx] == IndicatorFor(idx, |rows|)
    ensures !withIndicators ==> indicators == []
  {
    slides, indicators := [], [];
    var idx := 0;
    while idx < |rows|
      invariant 0 <= idx <= |rows|
      invariant |slides| == idx
      invariant slides == seq(idx, i requires 0 <= i < idx => SlideFor(rows[i], i, carouselId))
      invariant indicators == if withIndicators then seq(idx, i requires 0 <= i < idx => IndicatorFor(i, |rows|)) else []
    {
      var slide := CreateSlide(rows[idx], idx, carouselId);
      SlidesGrow(rows, idx, carouselId);
      slides := slides + [slide];
      if withIndicators {
        IndicatorsGrow(idx, |rows|);
        indicators := indicators + [IndicatorFor(idx, |rows|)];
      }
      idx := idx + 1;
    }
  }

  lemma SlidesGrow(rows: seq<Row>, idx: nat, carouselId: nat)
    requires idx < |rows|
    ensures seq(idx, i requires 0 <= i < idx => SlideFor(rows[i], i, carouselId)) + [SlideFor(rows[idx], idx, carouselId)]
      == seq(idx + 1, i requires 0 <= i < idx + 1 => SlideFor(rows[i], i, carouselId))
  {
  }

  lemma IndicatorsGrow(idx: nat, count: nat)
    ensures seq(idx, i requires 0 <= i < idx => IndicatorFor(i, count)) + [IndicatorFor(idx, count)]
      == seq(idx + 1, i requires 0 <= i < idx + 1 => IndicatorFor(i, count))
  {
  }

  /** Slide `idx` records its index as text that parses back to `idx`, and its columns are tagged by position. */
  lemma SlideForShape(row: Row, idx: nat, carouselId: nat)
    ensures var slide := SlideFor(row, idx, carouselId);
      ParseNat(slide.slideIndex) == idx &&
      |slide.columns| == |row.columns| &&
      (|row.columns| > 0 ==> ImageClass in slide.columns[0].classes) &&
      (forall c :: 1 <= c < |row.columns| ==> ContentClass in slide.columns[c].classes) &&
      LinkCount(slide.columns) == LinkCount(row.columns)
  {
    ParseNatToString(idx);
    LinkCountTagged(row.columns, SlideFor(row, idx, carouselId).columns);
  }

  lemma {:induction false} LinkCountTagged(authored: seq<Column>, tagged: seq<Column>)
    requires |tagged| == |authored|
    requires forall c :: 0 <= c < |authored| ==> tagged[c].links == authored[c].links
    ensures LinkCount(tagged) == LinkCount(authored)
  {
    if authored != [] {
      LinkCountTagged(authored[..|authored| - 1], tagged[..|tagged| - 1]);
    }
  }

  /**
   * Indicator `idx` targets slide `idx`, and the number its text shows after
   * "Show Slide " reads back as idx + 1, between 1 and the count (the rest of
   * the text is given by `IndicatorLabel`).
   */
  lemma IndicatorForShape(idx: nat, count: nat)
    requires idx < count
    ensures ParseNat(IndicatorFor(idx, count).targetSlide) == idx
    ensures var t, x := IndicatorFor(idx, count).text, NatToString(idx + 1);
      |t| > 11 + |x| && t[..11] == "Show Slide " && t[11..11 + |x|] == x &&
      ParseNat(x) == idx + 1 && 1 <= idx + 1 <= count
  {
    ParseNatToString(idx + 1);
  }

  /** The indicators of one carousel have pairwise different texts. */
  lemma IndicatorLabelsDistinct(i: nat, j: nat, count: nat)
    ensures IndicatorLabel(i, count) == IndicatorLabel(j, count) ==> i == j
  {
    if IndicatorLabel(i, count) == IndicatorLabel(j, count) {
      var t := IndicatorLabel(i, count);
      var xi, xj := NatToString(i + 1), NatToString(j + 1);
      assert t[11..] == xi + t[11 + |xi|..] by {
        assert t == "Show Slide " + xi + " of " + NatToString(count);
      }
      assert t[11..] == xj + t[11 + |xj|..] by {
        assert t == "Show Slide " + xj + " of " + NatToString(count);
      }
      SeparatedNumerals(xi, t[11 + |xi|..], xj, t[11 + |xj|..]);
      NatToStringInjective(i + 1, j + 1);
    }
  }

  /** Slide ids never collide: not within one carousel, nor between two carousels. */
  lemma SlideIdsUnique(c1: nat, i1: nat, c2: nat, i2: nat)
    ensures SlideId(c1, i1) == SlideId(c2, i2) ==> c1 == c2 && i1 == i2
  {
    if SlideId(c1, i1) == SlideId(c2, i2) {
      var x1, y1 := NatToString(c1), NatToString(i1);
      var x2, y2 := NatToString(c2), NatToString(i2);
      SlideIdAfterPrefix(c1, i1);
      SlideIdAfterPrefix(c2, i2);
      SeparatedNumerals(x1, "-slide-" + y1, x2, "-slide-" + y2);
      assert y1 == ("-slide-" + y1)[7..] == ("-slide-" + y2)[7..] == y2;
      NatToStringInjective(c1, c2);
      NatToStringInjective(i1, i2);
    }
  }

  lemma SlideIdAfterPrefix(c: nat, i: nat)
    ensures SlideId(c, i)[9..] == NatToString(c) + ("-slide-" + NatToString(i))
  {
    var x, y := NatToString(c), NatToString(i);
    var b := BlockId(c);
    assert b == "carousel-" + x;
    assert SlideId(c, i) == b + ("-slide-" + y);
    assert (b + ("-slide-" + y))[9..] == b[9..] + ("-slide-" + y);
  }

  /**
   * `isSingleSlide` reads `isJSONCarousel.length`, but `isJSONCarousel` is a
   * boolean: the length is `undefined`, and `undefined < 2` is false.
   */
  function BooleanLength(b: bool): Option<int> {
    None
  }

  /** `x < 2` where `undefined` converts to NaN and every comparison with NaN is false. */
  function LessThanTwo(x: Option<int>): bool {
    match x
    case None => false
    case Some(v) => v < 2
  }

  /** The single-slide mode never happens: navigation is always built, even for one row or none. */
  function IsSingleSlide(isJsonCarousel: bool, rowCount: nat): (r: bool)
    ensures !r
  {
    LessThanTwo(BooleanLength(isJsonCarousel)) && rowCount < 2
  }
}
