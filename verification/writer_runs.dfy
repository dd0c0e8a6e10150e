/** Sequences of public writer calls, and the invariants every such sequence
    keeps: each page carries the same guides, the page index counts the page
    breaks, a closed writer stays closed, and, when a card fits on the page,
    every card is drawn inside the margins with rows filled top to bottom. */
module WriterRuns {
  import opened Wrappers
  import opened CardPdfWriter

  /** A call on the public interface of the writer. */
  datatype Op = AddCardOp(image: ImageId, copies: int) | AddPageOp | CloseOp

  function Apply(w: Writer, op: Op): Result<Writer, WriterError>
    requires w.geom.GuidesEnd()
  {
    match op
    case AddCardOp(img, n) => AddCard(w, img, n)
    case AddPageOp => AddPage(w)
    case CloseOp => Close(w)
  }

  /** Performs the calls in order; the first error propagates and ends the run. */
  function Run(w: Writer, ops: seq<Op>): (r: Result<Writer, WriterError>)
    requires w.geom.GuidesEnd()
    ensures r.Success? ==> r.value.geom == w.geom && w.page <= r.value.page
    ensures r.Success? ==> Draws(w.trace) <= Draws(r.value.trace)
    ensures r.Failure? ==> r.error == FileClosed
    decreases |ops|
  {
    if |ops| == 0 then Success(w)
    else
      match Apply(w, ops[0])
      case Failure(e) => Failure(e)
      case Success(w') => Run(w', ops[1..])
  }

  /** Running `a + b` runs `a`, then `b` from where `a` left off; the first
      error ends the run. */
  lemma {:induction false} RunAppend(w: Writer, a: seq<Op>, b: seq<Op>)
    requires w.geom.GuidesEnd()
    ensures Run(w, a + b) == if Run(w, a).Failure? then Run(w, a) else Run(Run(w, a).value, b)
    decreases |a|
  {
    if |a| == 0 {
      assert a + b == b;
    } else {
      assert (a + b)[1..] == a[1..] + b;
      match Apply(w, a[0]) {
        case Failure(_) =>
        case Success(w') => RunAppend(w', a[1..], b);
      }
    }
  }

  /** Once `close` succeeded, every further call raises, `close` included. */
  lemma CloseIsFinal(w: Writer, ops: seq<Op>, op: Op)
    requires w.geom.GuidesEnd()
    requires Run(w, ops + [CloseOp]).Success?
    ensures Run(w, ops + [CloseOp] + [op]) == Failure(FileClosed)
  {
    RunAppend(w, ops, [CloseOp]);
    RunAppend(w, ops + [CloseOp], [op]);
  }

  // ---------------------------------------------------------------------
  // Every page carries the same guide lines

  /** The number of page breaks in a trace. */
  function PageBreaks(t: seq<Event>): nat {
    if |t| == 0 then 0
    else PageBreaks(t[..|t| - 1]) + (if t[|t| - 1].NewPage? then 1 else 0)
  }

  /** The guide lines and page breaks of a trace, in order: everything but
      the card placements. */
  function Skeleton(t: seq<Event>): (r: seq<Event>)
    ensures |r| <= |t|
  {
    if |t| == 0 then []
    else Skeleton(t[..|t| - 1]) + (if t[|t| - 1].Draw? then [] else [t[|t| - 1]])
  }

  /** The guides `gl` of the first page, then a page break and the same
      guides again for each of `k` further pages. */
  function Pages(gl: seq<Event>, k: nat): seq<Event> {
    if k == 0 then gl else Pages(gl, k - 1) + [NewPage] + gl
  }

  /** The trace opens with the guides `gl`, and every page break is
      followed by exactly `gl` again. */
  ghost predicate BreaksFollowedByGuides(t: seq<Event>, gl: seq<Event>) {
    && gl <= t
    && forall i :: 0 <= i < |t| && t[i].NewPage? ==>
         i + 1 + |gl| <= |t| && t[i + 1..i + 1 + |gl|] == gl
  }

  /** Besides card placements the trace holds nothing but one copy of the
      guides `gl` per page, each page after the first opened by a break. */
  ghost predicate OnlyGuides(t: seq<Event>, gl: seq<Event>) {
    Skeleton(t) == Pages(gl, PageBreaks(t))
  }

  /** Each page carries exactly the guide lines `gl`, right after its
      page break. */
  ghost predicate GuidedPages(t: seq<Event>, gl: seq<Event>) {
    BreaksFollowedByGuides(t, gl) && OnlyGuides(t, gl)
  }

  /** The trace of `w` is well formed for its geometry and its page index
      is the number of page breaks. */
  ghost predicate PagesInvariant(w: Writer)
    requires w.geom.GuidesEnd()
  {
    GuidedPages(w.trace, GuideLines(w.geom)) && PageBreaks(w.trace) == w.page
  }

  lemma {:induction false} PageBreaksAppend(t: seq<Event>, e: Event)
    ensures PageBreaks(t + [e]) == PageBreaks(t) + (if e.NewPage? then 1 else 0)
  {
    assert (t + [e])[..|t|] == t;
  }

  lemma {:induction false} PageBreaksOfLines(t: seq<Event>, u: seq<Event>)
    requires forall i :: 0 <= i < |u| ==> u[i].Line?
    ensures PageBreaks(t + u) == PageBreaks(t)
    decreases |u|
  {
    if |u| == 0 {
      assert t + u == t;
    } else {
      var u' := u[..|u| - 1];
      assert t + u == (t + u') + [u[|u| - 1]];
      PageBreaksAppend(t + u', u[|u| - 1]);
      PageBreaksOfLines(t, u');
    }
  }

  lemma {:induction false} SkeletonAppend(t: seq<Event>, u: seq<Event>)
    ensures Skeleton(t + u) == Skeleton(t) + Skeleton(u)
    decreases |u|
  {
    if |u| == 0 {
      assert t + u == t;
    } else {
      var u' := u[..|u| - 1];
      assert (t + u)[..|t + u| - 1] == t + u';
      SkeletonAppend(t, u');
    }
  }

  /** A trace of guide lines is its own skeleton. */
  lemma {:induction false} SkeletonOfLines(u: seq<Event>)
    requires forall i :: 0 <= i < |u| ==> u[i].Line?
    ensures Skeleton(u) == u
    decreases |u|
  {
    if |u| > 0 {
      SkeletonOfLines(u[..|u| - 1]);
    }
  }

  /** Appending a card placement keeps the guide structure. */
  lemma AppendDraw(t: seq<Event>, gl: seq<Event>, e: Event)
    requires GuidedPages(t, gl)
    requires e.Draw?
    ensures GuidedPages(t + [e], gl)
  {
    var t' := t + [e];
    forall i | 0 <= i < |t'| && t'[i].NewPage?
      ensures i + 1 + |gl| <= |t'| && t'[i + 1..i + 1 + |gl|] == gl
    {
      assert i < |t|;
      assert t'[i + 1..i + 1 + |gl|] == t[i + 1..i + 1 + |gl|];
    }
    SkeletonAppend(t, [e]);
    assert Skeleton([e]) == [];
    PageBreaksAppend(t, e);
  }

  /** Appending a page break followed by the guides keeps the structure. */
  lemma AppendPage(t: seq<Event>, gl: seq<Event>)
    requires GuidedPages(t, gl)
    requires forall i :: 0 <= i < |gl| ==> gl[i].Line?
    ensures GuidedPages(t + [NewPage] + gl, gl)
    ensures PageBreaks(t + [NewPage] + gl) == PageBreaks(t) + 1
  {
    AppendPageBreaks(t, gl);
    AppendPageSkeleton(t, gl);
  }

  lemma AppendPageBreaks(t: seq<Event>, gl: seq<Event>)
    requires BreaksFollowedByGuides(t, gl)
    requires forall i :: 0 <= i < |gl| ==> gl[i].Line?
    ensures BreaksFollowedByGuides(t + [NewPage] + gl, gl)
  {
    var t' := t + [NewPage] + gl;
    assert forall i :: |t| < i < |t'| ==> t'[i] == gl[i - |t| - 1];
    forall i | 0 <= i < |t'| && t'[i].NewPage?
      ensures i + 1 + |gl| <= |t'| && t'[i + 1..i + 1 + |gl|] == gl
    {
      if i < |t| {
        assert t'[i + 1..i + 1 + |gl|] == t[i + 1..i + 1 + |gl|];
      }
    }
  }

  lemma AppendPageSkeleton(t: seq<Event>, gl: seq<Event>)
    requires OnlyGuides(t, gl)
    requires forall i :: 0 <= i < |gl| ==> gl[i].Line?
    ensures OnlyGuides(t + [NewPage] + gl, gl)
    ensures PageBreaks(t + [NewPage] + gl) == PageBreaks(t) + 1
  {
    PageBreaksAppend(t, NewPage);
    PageBreaksOfLines(t + [NewPage], gl);
    SkeletonAppend(t, [NewPage]);
    assert Skeleton([NewPage]) == [NewPage];
    SkeletonAppend(t + [NewPage], gl);
    SkeletonOfLines(gl);
  }

  /** The first page alone: its guides and no page break. */
  lemma FirstPage(gl: seq<Event>)
    requires forall i :: 0 <= i < |gl| ==> gl[i].Line?
    ensures GuidedPages(gl, gl) && PageBreaks(gl) == 0
  {
    PageBreaksOfLines([], gl);
    assert [] + gl == gl;
    SkeletonOfLines(gl);
  }

  lemma StartPageKeepsPages(w: Writer)
    requires w.geom.GuidesEnd() && PagesInvariant(w)
    ensures PagesInvariant(StartPage(w))
  {
    var gl := GuideLines(w.geom);
    AppendPage(w.trace, gl);
  }

  lemma PlaceOneKeepsPages(w: Writer, img: ImageId)
    requires w.geom.GuidesEnd() && PagesInvariant(w)
    ensures PagesInvariant(PlaceOne(w, img))
  {
    var r := PlaceOne(w, img);
    PlaceOneTrace(w, img);
    var before := r.trace[..|r.trace| - 1];
    var drawn := r.trace[|r.trace| - 1];
    assert r.trace == before + [drawn];
    if w.cursor.y > w.geom.Limit().y {
      StartPageKeepsPages(w);
      assert before == StartPage(w).trace;
    } else {
      assert before == w.trace;
    }
    AppendDraw(before, GuideLines(w.geom), drawn);
    PageBreaksAppend(before, drawn);
  }

  lemma {:induction false} PlaceCopiesKeepsPages(w: Writer, img: ImageId, n: int)
    requires w.geom.GuidesEnd() && PagesInvariant(w)
    ensures PagesInvariant(PlaceCopies(w, img, n))
    decreases n
  {
    if 0 < n {
      var w1 := PlaceOne(w, img);
      PlaceOneKeepsPages(w, img);
      PlaceCopiesKeepsPages(w1, img, n - 1);
      PlaceCopiesUnfold(w, img, n);
      SamePages(PlaceCopies(w1, img, n - 1), PlaceCopies(w, img, n));
    }
  }

  /** Moves the layout invariant across an equation between writers, so
      the solver need not unfold the invariant on both sides. */
  lemma SameLayout(a: Writer, b: Writer)
    requires a == b
    ensures LayoutInvariant(a) ==> LayoutInvariant(b)
  {
  }

  /** Moves the page invariant across an equation between writers, so
      the solver need not unfold the invariant on both sides. */
  lemma SamePages(a: Writer, b: Writer)
    requires a.geom.GuidesEnd() && a == b
    ensures PagesInvariant(a) ==> PagesInvariant(b)
  {
  }

  /** Every page of every run, including pages added by `addPage`, carries the
      identical set of guides, and the page index is the number of page breaks. */
  lemma {:induction false} RunKeepsPages(w: Writer, ops: seq<Op>)
    requires w.geom.GuidesEnd() && PagesInvariant(w)
    requires Run(w, ops).Success?
    ensures PagesInvariant(Run(w, ops).value)
    decreases |ops|
  {
    if |ops| > 0 {
      var w' := Apply(w, ops[0]).value;
      match ops[0] {
        case AddCardOp(img, n) => PlaceCopiesKeepsPages(w, img, n);
        case AddPageOp => StartPageKeepsPages(w);
        case CloseOp =>
      }
      RunKeepsPages(w', ops[1..]);
    }
  }

  /** A freshly created writer satisfies the page invariant, so every run from
      it does: apart from the cards, the document is the guides of the first
      page followed, for each further page, by a page break and the same
      guides. */
  lemma CreatedPages(cardMM: Vec, paperMM: Vec, sepMM: Vec, fileOpened: bool, ops: seq<Op>)
    requires Create(cardMM, paperMM, sepMM, fileOpened).Success?
    requires Run(Create(cardMM, paperMM, sepMM, fileOpened).value, ops).Success?
    ensures PagesInvariant(Run(Create(cardMM, paperMM, sepMM, fileOpened).value, ops).value)
    ensures var w := Run(Create(cardMM, paperMM, sepMM, fileOpened).value, ops).value;
      Skeleton(w.trace) == Pages(GuideLines(w.geom), w.page)
  {
    var w := Create(cardMM, paperMM, sepMM, fileOpened).value;
    FirstPage(w.trace);
    RunKeepsPages(w, ops);
  }

  // ---------------------------------------------------------------------
  // Cards stay inside the margins; rows are filled top to bottom

  /** A whole card fits between the margins on both axes, and the grid
      advances by a positive step. */
  predicate Fits(g: Geometry) {
    && 0.0 <= g.card.x && 0.0 <= g.card.y
    && 0.0 < g.Step().x && 0.0 < g.Step().y
    && g.bleed.x <= g.Limit().x && g.bleed.y <= g.Limit().y
  }

  /** A placement lies within `[bleed, paper - bleed]` on both axes. */
  predicate InsideMargins(g: Geometry, e: Event)
    requires e.Draw?
  {
    && g.bleed.x <= e.at.x && e.at.x + e.size.x <= g.paper.x - g.bleed.x
    && g.bleed.y <= e.at.y && e.at.y + e.size.y <= g.paper.y - g.bleed.y
  }

  /** Reading order of positions on the pages: `(p, y)` comes no later than
      `(p', y')`. */
  predicate NotAfter(p: nat, y: real, p': nat, y': real) {
    p < p' || (p == p' && y <= y')
  }

  /** Every placement in `d` is inside the margins with the card's size, and
      none comes after the next one in reading order, nor after `(page, y)`. */
  ghost predicate LaidOut(g: Geometry, d: seq<Event>, page: nat, y: real)
    decreases |d|
  {
    if |d| == 0 then true
    else
      var e := d[|d| - 1];
      && e.Draw? && InsideMargins(g, e) && e.size == g.card
      && NotAfter(e.page, e.at.y, page, y)
      && LaidOut(g, d[..|d| - 1], e.page, e.at.y)
  }

  /** The cursor is within the margins horizontally and below the top margin,
      and the placements so far are laid out up to the cursor. */
  ghost predicate LayoutInvariant(w: Writer) {
    CursorInside(w) && LaidOut(w.geom, Draws(w.trace), w.page, w.cursor.y)
  }

  ghost predicate CursorInside(w: Writer) {
    var g := w.geom;
    g.bleed.x <= w.cursor.x <= g.Limit().x && g.bleed.y <= w.cursor.y
  }

  lemma LaidOutLater(g: Geometry, d: seq<Event>, page: nat, y: real, page': nat, y': real)
    requires LaidOut(g, d, page, y) && NotAfter(page, y, page', y')
    ensures LaidOut(g, d, page', y')
  {
  }

  /** Appending a placement inside the margins that does not come before the
      bound keeps the layout. */
  lemma LaidOutExtend(g: Geometry, d: seq<Event>, page: nat, y: real, e: Event, y': real)
    requires LaidOut(g, d, page, y)
    requires e.Draw? && InsideMargins(g, e) && e.size == g.card
    requires NotAfter(page, y, e.page, e.at.y) && e.at.y <= y'
    ensures LaidOut(g, d + [e], e.page, y')
  {
    assert (d + [e])[..|d|] == d;
    LaidOutLater(g, d, page, y, e.page, e.at.y);
  }

  /** The pairwise reading of `LaidOut`: all placements are inside the
      margins, and any earlier one comes no later than any later one. */
  lemma {:induction false} LaidOutPairwise(g: Geometry, d: seq<Event>, page: nat, y: real)
    requires LaidOut(g, d, page, y)
    ensures forall i :: 0 <= i < |d| ==> d[i].Draw? && InsideMargins(g, d[i]) && d[i].size == g.card
    ensures forall i :: 0 <= i < |d| ==> NotAfter(d[i].page, d[i].at.y, page, y)
    ensures forall i, j :: 0 <= i < j < |d| ==> NotAfter(d[i].page, d[i].at.y, d[j].page, d[j].at.y)
    decreases |d|
  {
    if |d| > 0 {
      var n := |d| - 1;
      var e := d[n];
      var d' := d[..n];
      LaidOutPairwise(g, d', e.page, e.at.y);
      forall i | 0 <= i < |d|
        ensures d[i].Draw? && InsideMargins(g, d[i]) && d[i].size == g.card
        ensures NotAfter(d[i].page, d[i].at.y, page, y)
      {
        if i < n {
          assert d[i] == d'[i];
        }
      }
      forall i, j | 0 <= i < j < |d|
        ensures NotAfter(d[i].page, d[i].at.y, d[j].page, d[j].at.y)
      {
        assert d[i] == d'[i];
        if j < n {
          assert d[j] == d'[j];
        }
      }
    }
  }

  lemma PlaceOneKeepsLayout(w: Writer, img: ImageId)
    requires w.geom.GuidesEnd() && Fits(w.geom) && LayoutInvariant(w)
    ensures LayoutInvariant(PlaceOne(w, img))
  {
    var g := w.geom;
    var r := PlaceOne(w, img);
    var newPage := w.cursor.y > g.Limit().y;
    var at := if newPage then g.bleed else w.cursor;
    assert g.bleed.x <= at.x <= g.Limit().x && g.bleed.y <= at.y <= g.Limit().y;
    assert g.bleed.x <= r.cursor.x <= g.Limit().x && at.y <= r.cursor.y;
    var drawn := Draw(img, at, g.card, r.page);
    assert InsideMargins(g, drawn);
    LaidOutExtend(g, Draws(w.trace), w.page, w.cursor.y, drawn, r.cursor.y);
  }

  lemma {:induction false} PlaceCopiesKeepsLayout(w: Writer, img: ImageId, n: int)
    requires w.geom.GuidesEnd() && Fits(w.geom) && LayoutInvariant(w)
    ensures LayoutInvariant(PlaceCopies(w, img, n))
    decreases n
  {
    if 0 < n {
      var w1 := PlaceOne(w, img);
      PlaceOneKeepsLayout(w, img);
      PlaceCopiesKeepsLayout(w1, img, n - 1);
      PlaceCopiesUnfold(w, img, n);
      SameLayout(PlaceCopies(w1, img, n - 1), PlaceCopies(w, img, n));
    }
  }

  lemma {:induction false} RunKeepsLayout(w: Writer, ops: seq<Op>)
    requires w.geom.GuidesEnd() && Fits(w.geom) && LayoutInvariant(w)
    requires Run(w, ops).Success?
    ensures LayoutInvariant(Run(w, ops).value)
    decreases |ops|
  {
    if |ops| > 0 {
      var w' := Apply(w, ops[0]).value;
      match ops[0] {
        case AddCardOp(img, n) => PlaceCopiesKeepsLayout(w, img, n);
        case AddPageOp => LaidOutLater(w.geom, Draws(w.trace), w.page, w.cursor.y, w.page + 1, w.cursor.y);
        case CloseOp =>
      }
      RunKeepsLayout(w', ops[1..]);
    }
  }

  /** When one card fits on each axis, every card drawn by any run of calls
      lies within the margins, and on each page later cards never sit higher
      than earlier ones. */
  lemma CreatedLayout(cardMM: Vec, paperMM: Vec, sepMM: Vec, fileOpened: bool, ops: seq<Op>)
    requires Create(cardMM, paperMM, sepMM, fileOpened).Success?
    requires Fits(Create(cardMM, paperMM, sepMM, fileOpened).value.geom)
    requires Run(Create(cardMM, paperMM, sepMM, fileOpened).value, ops).Success?
    ensures
      var w := Run(Create(cardMM, paperMM, sepMM, fileOpened).value, ops).value;
      var d := Draws(w.trace);
      && (forall i :: 0 <= i < |d| ==> InsideMargins(w.geom, d[i]) && d[i].size == w.geom.card)
      && (forall i, j :: 0 <= i < j < |d| ==> d[i].page <= d[j].page)
      && (forall i, j :: 0 <= i < j < |d| && d[i].page == d[j].page ==> d[i].at.y <= d[j].at.y)
  {
    var w := Create(cardMM, paperMM, sepMM, fileOpened).value;
    RunKeepsLayout(w, ops);
    var w' := Run(w, ops).value;
    LaidOutPairwise(w'.geom, Draws(w'.trace), w'.page, w'.cursor.y);
  }
}
