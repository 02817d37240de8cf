/** The markup composer: the size of the document, the drummer group (impact
    rings around the embedded GIF, or a placeholder when no GIF could be
    encoded) and the order of the document's parts. The text of the parts is
    not modelled; each part is a value carrying the data that goes into it.
 */
module Document {
  import opened Contributions
  import Layout

  const DrummerWidth: int := 120
  const DrummerHeight: int := 120
  /** Vertical offset of the drummer group. */
  const DrummerTop: int := 20
  /** Where the contribution grid group is translated to. */
  const GridLeft: int := 30
  const GridTop: int := DrummerHeight + 40
  /** Number of impact rings around the drummer. */
  const RingCount: nat := 3
  /** Hundredths of a second between the starts of two rings (0.05s). */
  const RingStagger: int := 5

  /** A child of the drummer group. */
  datatype Element =
    | Ring(delay: int)            // an `impact-ring` circle with its animation delay
    | Image(payload: string)      // the GIF, inlined as base64
    | PlaceholderRect             // the fallback rounded rectangle
    | PlaceholderGlyph            // the fallback drum glyph

  /** One entry of `svg_parts`. */
  datatype Part =
    | Header(width: int, height: int)
    | Defs                        // the constant filter, gradient and keyframes block
    | Drummer(x: int, y: int, children: seq<Element>)
    | GridGroup(x: int, y: int, rects: seq<Layout.Rect>)  // the `contribution-grid` group
    | ImpactEffects               // always empty
    | Close

  function Max(a: int, b: int): int
  {
    if a < b then b else a
  }

  /** `total_width`: the wider of the drummer and the grid, plus margins. */
  function DocumentWidth(weeks: nat): int
  {
    Max(DrummerWidth, weeks * Layout.Pitch) + 60
  }

  /** `total_height`: drummer, seven rows of cells, plus margins. */
  function DocumentHeight(): int
  {
    DrummerHeight + 7 * Layout.Pitch + 80
  }

  /** The drummer group's horizontal offset. The grid's pixel width
      `weeks * 14 - 4` is even, so the halving is exact. */
  function DrummerX(weeks: nat): int
  {
    GridLeft + (weeks * Layout.Pitch - Layout.CellGap - DrummerWidth) / 2
  }

  /** How many impact rings a sequence of elements holds. */
  function Rings(elements: seq<Element>): nat
  {
    if elements == [] then 0
    else (if elements[0].Ring? then 1 else 0) + Rings(elements[1..])
  }

  lemma {:induction false} RingsAppend(a: seq<Element>, b: seq<Element>)
    ensures Rings(a + b) == Rings(a) + Rings(b)
  {
    if a == [] {
      assert a + b == b;
    } else {
      assert (a + b)[1..] == a[1..] + b;
      RingsAppend(a[1..], b);
    }
  }

  /** The halving in `DrummerX` is exact: the offset is `7 * weeks - 32`. */
  lemma DrummerXValue(weeks: nat)
    ensures DrummerX(weeks) == 7 * weeks - 32
  {
    var k := 7 * weeks - 62;
    assert weeks * Layout.Pitch - Layout.CellGap - DrummerWidth == 2 * k;
    assert (2 * k) / 2 == k;
  }

  /** The drummer is centred over the grid: the two centres coincide. */
  lemma DrummerCentred(weeks: nat)
    ensures 2 * DrummerX(weeks) + DrummerWidth == 2 * GridLeft + (weeks * Layout.Pitch - Layout.CellGap)
  {
    DrummerXValue(weeks);
  }

  /** The drummer's right edge is always inside the document, but its left
      edge is inside only from five weeks on: below that the centring puts it
      left of the origin. It always sits above the grid. */
  lemma DrummerPlacement(weeks: nat)
    ensures DrummerX(weeks) + DrummerWidth <= DocumentWidth(weeks)
    ensures 0 <= DrummerX(weeks) <==> weeks >= 5
    ensures 0 <= DrummerTop && DrummerTop + DrummerHeight <= GridTop
  {
    DrummerXValue(weeks);
  }

  /** Every rect of the grid, translated by the grid group's offset, lies
      inside the document, provided no week has more than seven days. */
  lemma CellsInsideDocument(grid: Grid)
    requires forall w :: 0 <= w < |grid| ==> |grid[w]| <= 7
    ensures forall r :: r in Layout.Render(Layout.Cells(grid)) ==>
              0 <= GridLeft + r.x && GridLeft + r.x + Layout.CellSize <= DocumentWidth(|grid|) &&
              0 <= GridTop + r.y && GridTop + r.y + Layout.CellSize <= DocumentHeight()
  {
    var cells := Layout.Cells(grid);
    Layout.CellsWithin(grid, 7);
    forall r | r in Layout.Render(cells)
      ensures 0 <= GridLeft + r.x && GridLeft + r.x + Layout.CellSize <= DocumentWidth(|grid|)
      ensures 0 <= GridTop + r.y && GridTop + r.y + Layout.CellSize <= DocumentHeight()
    {
      var i :| 0 <= i < |cells| && Layout.Render(cells)[i] == r;
      assert r.x == cells[i].x && r.y == cells[i].y;
    }
  }

  /** `_generate_drummer_gif`: three staggered impact rings, then the GIF
      when its payload is non-empty and the placeholder otherwise. */
  method DrummerGif(grid: Grid, payload: string) returns (part: Part)
    ensures part.Drummer? && part.x == DrummerX(|grid|) && part.y == DrummerTop
    ensures |part.children| == RingCount + (if payload == "" then 2 else 1)
    ensures forall i :: 0 <= i < RingCount ==> part.children[i] == Ring(i * RingStagger)
    ensures payload != "" ==> part.children[RingCount..] == [Image(payload)]
    ensures payload == "" ==> part.children[RingCount..] == [PlaceholderRect, PlaceholderGlyph]
    ensures Rings(part.children) == RingCount
  {
    var parts: seq<Element> := [];
    for i := 0 to RingCount
      invariant |parts| == i
      invariant forall k :: 0 <= k < i ==> parts[k] == Ring(k * RingStagger)
      invariant Rings(parts) == i
    {
      RingsAppend(parts, [Ring(i * RingStagger)]);
      parts := parts + [Ring(i * RingStagger)];
    }
    var tail;
    if payload != "" {
      tail := [Image(payload)];
    } else {
      tail := [PlaceholderRect, PlaceholderGlyph];
    }
    RingsAppend(parts, tail);
    assert Rings(tail[1..]) == 0;
    parts := parts + tail;
    part := Drummer(DrummerX(|grid|), DrummerTop, parts);
  }

  /** `generate_svg`: the header sized for the grid, the constant
      definitions, the drummer, the grid of rects, the (empty) impact
      effects and the closing tag, in that order. It never fails: a missing
      GIF only changes the drummer's children. */
  method GenerateSvg(grid: Grid, payload: string) returns (parts: seq<Part>)
    ensures |parts| == 6
    ensures parts[0] == Header(DocumentWidth(|grid|), DocumentHeight())
    ensures parts[1] == Defs && parts[4] == ImpactEffects && parts[5] == Close
    ensures parts[2] == Drummer(DrummerX(|grid|), DrummerTop,
                                [Ring(0), Ring(RingStagger), Ring(2 * RingStagger)] +
                                (if payload != "" then [Image(payload)] else [PlaceholderRect, PlaceholderGlyph]))
    ensures Rings(parts[2].children) == RingCount
    ensures Image(payload) in parts[2].children <==> payload != ""
    ensures PlaceholderRect in parts[2].children <==> payload == ""
    ensures parts[3] == GridGroup(GridLeft, GridTop, Layout.Render(Layout.Cells(grid)))
  {
    var widthOfGrid := |grid| * Layout.Pitch;
    var heightOfGrid := 7 * Layout.Pitch;
    var totalWidth := Max(DrummerWidth, widthOfGrid) + 60;
    var totalHeight := DrummerHeight + heightOfGrid + 80;
    parts := [Header(totalWidth, totalHeight)];
    parts := parts + [Defs];
    var drummer := DrummerGif(grid, payload);
    assert drummer.children == drummer.children[..RingCount] + drummer.children[RingCount..];
    assert drummer.children[..RingCount] == [Ring(0), Ring(RingStagger), Ring(2 * RingStagger)];
    parts := parts + [drummer];
    var rects := Layout.ContributionGrid(grid);
    parts := parts + [GridGroup(GridLeft, GridTop, rects)];
    parts := parts + [ImpactEffects];
    parts := parts + [Close];
  }
}
