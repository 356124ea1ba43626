/**
  The page compositor as a plan: which source page goes into which
  rectangle of a new 842 x 595 point landscape page, and where the label
  bar and its text go (create_landscape_page, create_two_up_landscape_page,
  _add_label_to_rect). Coordinates are whole tenths of a point, so the
  60/40 split (842 x 0.6 = 505.2 points) and the half height (297.5 points)
  are exact; y grows downwards, as in the page space of the rendering
  library.
*/
module Layout {
  import opened Wrappers

  /** A source document: the mark scheme, or the student at this position of the discovery order. */
  datatype DocRef = MarkScheme | StudentDoc(position: nat)

  /** A page of a source document, by 0-based index. */
  datatype Page = Page(doc: DocRef, index: nat)

  datatype Rect = Rect(x0: int, y0: int, x1: int, y1: int)

  datatype Point = Point(x: int, y: int)

  /** A source page shown, stretched, in a rectangle of the new page. */
  datatype Placement = Placement(page: Page, rect: Rect)

  /** The dark bar drawn over the bottom of a region and the white text written on it. */
  datatype LabelBar = LabelBar(bar: Rect, origin: Point, text: string)

  /** One page of an output document. */
  datatype ComposedPage = ComposedPage(placements: seq<Placement>, labels: seq<LabelBar>)

  /** What the right-hand side of a question page shows. */
  datatype MarkSchemeSlot = Blank | Single(page: Page) | Stacked(top: Page, bottom: Page)

  /** A4 turned on its side. */
  const Width: int := 8420
  const Height: int := 5950
  const BarHeight: int := 400
  /** The text origin sits this far in from the left edge and up from the bottom edge. */
  const TextInset: int := 100
  const TextRise: int := 120

  const Sheet: Rect := Rect(0, 0, Width, Height)

  /** The 60/40 split of a question page. */
  const SplitX: int := Width * 6 / 10
  const StudentRegion: Rect := Rect(0, 0, SplitX, Height)
  const MarkSchemeRegion: Rect := Rect(SplitX, 0, Width, Height)
  const MarkSchemeTop: Rect := Rect(SplitX, 0, Width, Height / 2)
  const MarkSchemeBottom: Rect := Rect(SplitX, Height / 2, Width, Height)

  /** The 50/50 split of an extra-space page. */
  const LeftHalf: Rect := Rect(0, 0, Width / 2, Height)
  const RightHalf: Rect := Rect(Width / 2, 0, Width, Height)

  predicate Inside(a: Rect, b: Rect) {
    b.x0 <= a.x0 <= a.x1 <= b.x1 && b.y0 <= a.y0 <= a.y1 <= b.y1
  }

  /** The two rectangles do not overlap (they may share an edge). */
  predicate Apart(a: Rect, b: Rect) {
    a.x1 <= b.x0 || b.x1 <= a.x0 || a.y1 <= b.y0 || b.y1 <= a.y0
  }

  predicate PointIn(p: Point, r: Rect) {
    r.x0 <= p.x <= r.x1 && r.y0 <= p.y <= r.y1
  }

  /**
    _add_label_to_rect: a bar 40 points high spanning the width of rect at
    its bottom, with the text origin 10 points in from the left edge and 12
    points above the bottom. In any region at least that large, bar and text
    origin stay inside it.
  */
  function LabelOver(rect: Rect, text: string): LabelBar {
    LabelBar(Rect(rect.x0, rect.y1 - BarHeight, rect.x1, rect.y1), Point(rect.x0 + TextInset, rect.y1 - TextRise), text)
  }

  /**
    The bar is 40 points high and spans the bottom edge of the region; the
    text origin is 10 points in and 12 points up; in a region at least that
    large, bar and text origin stay inside it.
  */
  lemma LabelOverInside(rect: Rect, text: string)
    ensures var l := LabelOver(rect, text);
      && l.text == text
      && l.bar.y1 == rect.y1 && l.bar.x0 == rect.x0 && l.bar.x1 == rect.x1
      && l.bar.y0 == rect.y1 - BarHeight
      && l.origin == Point(rect.x0 + TextInset, rect.y1 - TextRise)
      && (rect.x0 + TextInset <= rect.x1 && rect.y0 + BarHeight <= rect.y1 ==> Inside(l.bar, rect) && PointIn(l.origin, l.bar))
  {
  }

  /** The mark-scheme pages a slot shows, top first. */
  function SlotPages(s: MarkSchemeSlot): seq<Page> {
    match s
    case Blank => []
    case Single(p) => [p]
    case Stacked(top, bottom) => [top, bottom]
  }

  /**
    The branch on the number of mark-scheme pages: one page fills the right
    side, two are stacked, and any other number leaves it blank.
  */
  function ChooseSlot(ms: seq<Page>): (s: MarkSchemeSlot)
    ensures SlotPages(s) == if |ms| == 1 || |ms| == 2 then ms else []
  {
    if |ms| == 1 then Single(ms[0])
    else if |ms| == 2 then Stacked(ms[0], ms[1])
    else Blank
  }

  function SlotPlacements(s: MarkSchemeSlot): seq<Placement> {
    match s
    case Blank => []
    case Single(p) => [Placement(p, MarkSchemeRegion)]
    case Stacked(top, bottom) => [Placement(top, MarkSchemeTop), Placement(bottom, MarkSchemeBottom)]
  }

  /** The source pages a composed page shows, in drawing order. */
  function PlacedPages(c: ComposedPage): (ps: seq<Page>)
    ensures |ps| == |c.placements|
  {
    seq(|c.placements|, i requires 0 <= i < |c.placements| => c.placements[i].page)
  }

  /** Every page and every label bar lies on the sheet, and no two pages overlap. */
  predicate WellPlaced(c: ComposedPage) {
    && (forall i :: 0 <= i < |c.placements| ==> Inside(c.placements[i].rect, Sheet))
    && (forall i, j :: 0 <= i < j < |c.placements| ==> Apart(c.placements[i].rect, c.placements[j].rect))
    && (forall i :: 0 <= i < |c.labels| ==> Inside(c.labels[i].bar, Sheet))
  }

  /**
    create_landscape_page: the student page on the left 60%, the slot's
    mark-scheme pages on the right, and one label over the bottom of the
    student's side.
  */
  function QuestionPage(student: Page, slot: MarkSchemeSlot, text: string): ComposedPage {
    ComposedPage([Placement(student, StudentRegion)] + SlotPlacements(slot), [LabelOver(StudentRegion, text)])
  }

  /**
    A question page shows the student page in the student region and the
    slot's pages inside the mark-scheme region (a single page filling it,
    two stacked top over bottom), nothing overlapping, under
    one label whose bar and text lie on the student's side.
  */
  lemma QuestionPageLayout(student: Page, slot: MarkSchemeSlot, text: string)
    ensures var c := QuestionPage(student, slot, text);
      && PlacedPages(c) == [student] + SlotPages(slot)
      && c.placements[0].rect == StudentRegion
      && (forall i :: 1 <= i < |c.placements| ==> Inside(c.placements[i].rect, MarkSchemeRegion))
      && (slot.Single? ==> c.placements[1].rect == MarkSchemeRegion)
      && (slot.Stacked? ==> c.placements[1].rect == MarkSchemeTop && c.placements[2].rect == MarkSchemeBottom
                            && c.placements[1].rect.y1 <= c.placements[2].rect.y0)
      && WellPlaced(c)
      && |c.labels| == 1 && c.labels[0].text == text
      && Inside(c.labels[0].bar, StudentRegion) && PointIn(c.labels[0].origin, c.labels[0].bar)
  {
  }

  /** The text of an extra-space label. */
  function ExtraSpaceText(name: string): string {
    name + " Extra Space"
  }

  /**
    create_two_up_landscape_page: the first page on the left half with its
    label; the second page, when there is one, on the right half, labelled
    only when its student name is given and non-empty.
  */
  function TwoUpPage(page1: Page, page2: Option<Page>, name1: string, name2: Option<string>): ComposedPage {
    var left := [Placement(page1, LeftHalf)];
    var leftLabel := [LabelOver(LeftHalf, ExtraSpaceText(name1))];
    match page2
    case None => ComposedPage(left, leftLabel)
    case Some(p2) =>
      var labels := if name2.Some? && name2.value != "" then leftLabel + [LabelOver(RightHalf, ExtraSpaceText(name2.value))] else leftLabel;
      ComposedPage(left + [Placement(p2, RightHalf)], labels)
  }

  /**
    A two-up page shows the first page on the left half and the second, if
    any, on the right half; the right label is drawn exactly when there is
    a second page with a non-empty student name.
  */
  lemma TwoUpLayout(page1: Page, page2: Option<Page>, name1: string, name2: Option<string>)
    ensures var c := TwoUpPage(page1, page2, name1, name2);
      && PlacedPages(c) == [page1] + (if page2.Some? then [page2.value] else [])
      && c.placements[0].rect == LeftHalf
      && (page2.Some? ==> c.placements[1].rect == RightHalf)
      && WellPlaced(c)
      && |c.labels| == (if page2.Some? && name2.Some? && name2.value != "" then 2 else 1)
      && c.labels[0].text == ExtraSpaceText(name1) && Inside(c.labels[0].bar, LeftHalf)
      && (|c.labels| == 2 ==> c.labels[1].text == ExtraSpaceText(name2.value) && Inside(c.labels[1].bar, RightHalf))
  {
  }

  /** The label bars of the two halves of an extra-space page never overlap. */
  lemma TwoUpLabelsApart(page1: Page, page2: Page, name1: string, name2: string)
    requires name2 != ""
    ensures var c := TwoUpPage(page1, Some(page2), name1, Some(name2));
      |c.labels| == 2 && Apart(c.labels[0].bar, c.labels[1].bar)
  {
  }
}
