/** The card-tiling PDF writer: a state machine over an open/closed flag, a
    cursor, a page index and a trace of drawing events that stands in for the
    painter's output. */
module CardPdfWriter {
  import opened Wrappers
  import opened PyNum

  /** Dots per inch of the output document. */
  const Resolution: int := 300

  /** Millimetres to device pixels, as exact arithmetic. */
  function Mm2Pix(mm: real): (px: real)
    ensures 0.0 < mm ==> mm * 11.0 < px < mm * 12.0
    ensures mm == 0.0 <==> px == 0.0
  {
    mm * (Resolution as real / 25.4)
  }

  /** A pair of coordinates or extents, one per axis. */
  datatype Vec = Vec(x: real, y: real)

  function Mm2PixVec(v: Vec): Vec {
    Vec(Mm2Pix(v.x), Mm2Pix(v.y))
  }

  type ImageId = nat

  /** What the painter is asked to do. `Draw` records the target rectangle
      (top-left corner and size) and the index of the page it lands on. */
  datatype Event =
    | Line(from: Vec, to: Vec)
    | NewPage
    | Draw(image: ImageId, at: Vec, size: Vec, page: nat)

  datatype WriterError =
    | ZeroDivision     // int(card + separation) is 0 on some axis
    | GuidesNeverEnd   // the guide-line loop of page setup does not terminate
    | FileClosed       // an operation on a writer whose file is not open

  /** Per-axis pixel geometry, fixed at construction. `bleed` is the centring
      margin. */
  datatype Geometry = Geometry(card: Vec, paper: Vec, sep: Vec, bleed: Vec) {

    /** Distance between the top-left corners of adjacent cards. */
    function Step(): Vec {
      Vec(card.x + sep.x, card.y + sep.y)
    }

    /** The largest cursor coordinate at which a whole card still fits
        before the far margin. */
    function Limit(): Vec {
      Vec(paper.x - bleed.x - card.x, paper.y - bleed.y - card.y)
    }

    /** The first guide line sits half a separation before the margin. */
    function GuideStart(): Vec {
      Vec(bleed.x - sep.x / 2.0, bleed.y - sep.y / 2.0)
    }

    /** Both guide-line loops of page setup terminate. */
    predicate GuidesEnd() {
      && (0.0 < Step().x || paper.x <= GuideStart().x)
      && (0.0 < Step().y || paper.y <= GuideStart().y)
    }
  }

  datatype Writer = Writer(geom: Geometry, cursor: Vec, page: nat, open: bool, trace: seq<Event>)

  /** The centring margin on one axis: half of what is left of the paper
      after as many whole (truncated) card-plus-separation steps as fit. */
  function Bleeding(paper: real, step: real): (b: real)
    requires Trunc(step) != 0
    ensures 0 < Trunc(step) ==> 0.0 <= b < Trunc(step) as real / 2.0
    ensures Trunc(step) < 0 ==> Trunc(step) as real / 2.0 < b <= 0.0
    ensures IsWhole((paper - 2.0 * b) / Trunc(step) as real)
  {
    FloatMod(paper, Trunc(step)) / 2.0
  }

  /** The coordinates visited by the page-setup loop
      `pos = start; while pos < limit: line at pos; pos += step`. */
  function GuideCoords(start: real, step: real, limit: real): (r: seq<real>)
    requires 0.0 < step || limit <= start
    decreases if start < limit then ((limit - start) / step).Floor + 1 else 0
  {
    if start < limit then
      ShiftQuotient(limit - start, step);
      [start] + GuideCoords(start + step, step, limit)
    else
      []
  }

  /** The loop visits `start + k * step` for `k = 0, 1, ...` while that is
      below `limit`, and stops at the first one that is not. */
  lemma GuideCoordsSpec(start: real, step: real, limit: real)
    requires 0.0 < step || limit <= start
    ensures var r := GuideCoords(start, step, limit);
      && (forall k :: 0 <= k < |r| ==> r[k] == start + k as real * step && r[k] < limit)
      && limit <= start + |r| as real * step
  {
    var r := GuideCoords(start, step, limit);
    forall k | 0 <= k < |r|
      ensures r[k] == start + k as real * step && r[k] < limit
    {
      GuideCoordAt(start, step, limit, k);
    }
    GuideCoordsEnd(start, step, limit);
  }

  /** The `k`-th coordinate the loop visits. */
  lemma {:induction false} GuideCoordAt(start: real, step: real, limit: real, k: nat)
    requires 0.0 < step || limit <= start
    requires k < |GuideCoords(start, step, limit)|
    ensures GuideCoords(start, step, limit)[k] == start + k as real * step < limit
    decreases k
  {
    ShiftQuotient(limit - start, step);
    var t := GuideCoords(start + step, step, limit);
    assert GuideCoords(start, step, limit) == [start] + t;
    if 0 < k {
      GuideCoordAt(start + step, step, limit, k - 1);
      NextMultiple(k - 1, step);
    }
  }

  /** The loop stops at the first coordinate that is not below `limit`. */
  lemma {:induction false} GuideCoordsEnd(start: real, step: real, limit: real)
    requires 0.0 < step || limit <= start
    ensures limit <= start + |GuideCoords(start, step, limit)| as real * step
    decreases if start < limit then ((limit - start) / step).Floor + 1 else 0
  {
    if start < limit {
      ShiftQuotient(limit - start, step);
      GuideCoordsEnd(start + step, step, limit);
      NextMultiple(|GuideCoords(start + step, step, limit)|, step);
    }
  }

  /** One more step is the next whole multiple of the step. */
  lemma NextMultiple(k: nat, step: real)
    ensures k as real * step + step == (k + 1) as real * step
  {
  }

  lemma ShiftQuotient(d: real, s: real)
    requires s != 0.0
    ensures (d - s) / s == d / s - 1.0
  {
    var q := d / s;
    assert q * s == d;
    assert (q - 1.0) * s == d - s;
    assert ((d - s) / s) * s == d - s;
    var e := (d - s) / s - (q - 1.0);
    assert e * s == 0.0;
    if e != 0.0 {
      if 0.0 < s {
        if e < 0.0 { MulStrict(e, 0.0, s); } else { MulStrict(0.0, e, s); }
      } else {
        if e < 0.0 { MulStrict(e, 0.0, -s); } else { MulStrict(0.0, e, -s); }
      }
    }
  }

  /** Vertical cutting guides: full-height lines at the column boundaries. */
  function VerticalGuides(g: Geometry): (r: seq<Event>)
    requires g.GuidesEnd()
    ensures forall k :: 0 <= k < |r| ==> r[k].Line?
  {
    var xs := GuideCoords(g.GuideStart().x, g.Step().x, g.paper.x);
    seq(|xs|, k requires 0 <= k < |xs| => Line(Vec(xs[k], 0.0), Vec(xs[k], g.paper.y)))
  }

  /** The k-th vertical guide runs down the page at `x = start + k * step`,
      every guide is left of the paper's edge, and the next one would not be. */
  lemma VerticalGuidePositions(g: Geometry)
    requires g.GuidesEnd()
    ensures var r := VerticalGuides(g);
      && (forall k :: 0 <= k < |r| ==>
            var x := g.GuideStart().x + k as real * g.Step().x;
            r[k] == Line(Vec(x, 0.0), Vec(x, g.paper.y)) && x < g.paper.x)
      && g.paper.x <= g.GuideStart().x + |r| as real * g.Step().x
  {
    GuideCoordsSpec(g.GuideStart().x, g.Step().x, g.paper.x);
  }

  /** Horizontal cutting guides: full-width lines at the row boundaries. */
  function HorizontalGuides(g: Geometry): (r: seq<Event>)
    requires g.GuidesEnd()
    ensures forall k :: 0 <= k < |r| ==> r[k].Line?
  {
    var ys := GuideCoords(g.GuideStart().y, g.Step().y, g.paper.y);
    seq(|ys|, k requires 0 <= k < |ys| => Line(Vec(0.0, ys[k]), Vec(g.paper.x, ys[k])))
  }

  /** The k-th horizontal guide runs across the page at `y = start + k * step`. */
  lemma HorizontalGuidePositions(g: Geometry)
    requires g.GuidesEnd()
    ensures var r := HorizontalGuides(g);
      && (forall k :: 0 <= k < |r| ==>
            var y := g.GuideStart().y + k as real * g.Step().y;
            r[k] == Line(Vec(0.0, y), Vec(g.paper.x, y)) && y < g.paper.y)
      && g.paper.y <= g.GuideStart().y + |r| as real * g.Step().y
  {
    GuideCoordsSpec(g.GuideStart().y, g.Step().y, g.paper.y);
  }

  /** Everything page setup draws: the vertical guides, then the horizontal ones. */
  function GuideLines(g: Geometry): (r: seq<Event>)
    requires g.GuidesEnd()
    ensures forall i :: 0 <= i < |r| ==> r[i].Line?
  {
    VerticalGuides(g) + HorizontalGuides(g)
  }

  /** The card placements recorded in a trace, in drawing order. */
  function Draws(t: seq<Event>): (r: seq<Event>)
    ensures |r| <= |t|
    ensures forall i :: 0 <= i < |r| ==> r[i].Draw?
  {
    if |t| == 0 then []
    else Draws(t[..|t| - 1]) + (if t[|t| - 1].Draw? then [t[|t| - 1]] else [])
  }

  /** Drawing order is preserved under concatenation of traces. */
  lemma {:induction false} DrawsAppend(a: seq<Event>, b: seq<Event>)
    ensures Draws(a + b) == Draws(a) + Draws(b)
    decreases |b|
  {
    if |b| == 0 {
      assert a + b == a;
    } else {
      var b' := b[..|b| - 1];
      assert (a + b)[..|a + b| - 1] == a + b';
      DrawsAppend(a, b');
    }
  }

  /** A trace without card placements contributes none. */
  lemma {:induction false} DrawsOfLines(t: seq<Event>)
    requires forall i :: 0 <= i < |t| ==> !t[i].Draw?
    ensures Draws(t) == []
    decreases |t|
  {
    if |t| != 0 {
      DrawsOfLines(t[..|t| - 1]);
    }
  }

  /** The bleed lies within half a whole-pixel step of the paper edge, on
      the side the step's sign points to. */
  predicate BleedBounds(g: Geometry)
  {
    && (0 < Trunc(g.Step().x) ==> 0.0 <= g.bleed.x < Trunc(g.Step().x) as real / 2.0)
    && (0 < Trunc(g.Step().y) ==> 0.0 <= g.bleed.y < Trunc(g.Step().y) as real / 2.0)
    && (Trunc(g.Step().x) < 0 ==> Trunc(g.Step().x) as real / 2.0 < g.bleed.x <= 0.0)
    && (Trunc(g.Step().y) < 0 ==> Trunc(g.Step().y) as real / 2.0 < g.bleed.y <= 0.0)
  }

  /** The geometry the constructor derives from sizes in pixels: the bleed
      on each axis is computed by `Bleeding` from the paper size and step. */
  function Layout(card: Vec, paper: Vec, sep: Vec): (g: Geometry)
    requires Trunc(card.x + sep.x) != 0 && Trunc(card.y + sep.y) != 0
    ensures g.card == card && g.paper == paper && g.sep == sep
    ensures BleedBounds(g)
    ensures IsWhole((g.paper.x - 2.0 * g.bleed.x) / Trunc(g.Step().x) as real)
    ensures IsWhole((g.paper.y - 2.0 * g.bleed.y) / Trunc(g.Step().y) as real)
  {
    Geometry(card, paper, sep, Vec(Bleeding(paper.x, card.x + sep.x), Bleeding(paper.y, card.y + sep.y)))
  }

  /** The constructor: converts the formats to pixels, computes the margin,
      puts the cursor on it and sets up the first page. Whether the output
      file could be opened is an input. */
  function Create(cardMM: Vec, paperMM: Vec, sepMM: Vec, fileOpened: bool): (r: Result<Writer, WriterError>)
    ensures r == Failure(ZeroDivision) <==>
      Trunc(Mm2Pix(cardMM.x) + Mm2Pix(sepMM.x)) == 0 || Trunc(Mm2Pix(cardMM.y) + Mm2Pix(sepMM.y)) == 0
    ensures r.Failure? ==> r.error != FileClosed
    ensures r == Failure(GuidesNeverEnd) <==>
      && Trunc(Mm2Pix(cardMM.x) + Mm2Pix(sepMM.x)) != 0 && Trunc(Mm2Pix(cardMM.y) + Mm2Pix(sepMM.y)) != 0
      && !Layout(Mm2PixVec(cardMM), Mm2PixVec(paperMM), Mm2PixVec(sepMM)).GuidesEnd()
    ensures r.Success? ==> r.value.geom == Layout(Mm2PixVec(cardMM), Mm2PixVec(paperMM), Mm2PixVec(sepMM))
    ensures r.Success? ==>
      var w := r.value;
      var g := w.geom;
      && g.card == Mm2PixVec(cardMM) && g.paper == Mm2PixVec(paperMM) && g.sep == Mm2PixVec(sepMM)
      && g.GuidesEnd()
      && w.cursor == g.bleed && w.page == 0 && w.open == fileOpened
      && w.trace == GuideLines(g) && Draws(w.trace) == []
      && BleedBounds(g)
  {
    var card := Mm2PixVec(cardMM);
    var paper := Mm2PixVec(paperMM);
    var sep := Mm2PixVec(sepMM);
    if Trunc(card.x + sep.x) == 0 || Trunc(card.y + sep.y) == 0 then
      Failure(ZeroDivision)
    else
      var g := Layout(card, paper, sep);
      if !g.GuidesEnd() then
        Failure(GuidesNeverEnd)
      else
        DrawsOfLines(GuideLines(g));
        Success(Writer(g, g.bleed, 0, fileOpened, GuideLines(g)))
  }

  /** Starts a new page in the document and draws its guides; the cursor is
      left alone. */
  function StartPage(w: Writer): (r: Writer)
    requires w.geom.GuidesEnd()
    ensures r.geom == w.geom && r.cursor == w.cursor && r.open == w.open
    ensures r.page == w.page + 1
    ensures Draws(r.trace) == Draws(w.trace)
    ensures r.trace == w.trace + [NewPage] + GuideLines(w.geom)
  {
    var extra := [NewPage] + GuideLines(w.geom);
    DrawsOfLines(extra);
    DrawsAppend(w.trace, extra);
    w.(page := w.page + 1, trace := w.trace + extra)
  }

  /** The public `addPage`: fails on a closed file. */
  function AddPage(w: Writer): (r: Result<Writer, WriterError>)
    requires w.geom.GuidesEnd()
    ensures r.Failure? <==> !w.open
    ensures r.Failure? ==> r.error == FileClosed
    ensures r.Success? ==>
      && r.value.cursor == w.cursor && r.value.geom == w.geom && r.value.open
      && r.value.page == w.page + 1
      && r.value.trace == w.trace + [NewPage] + GuideLines(w.geom)
  {
    if !w.open then Failure(FileClosed) else Success(StartPage(w))
  }

  /** One iteration of the `addCard` loop: start a new page if no card fits
      below the cursor, draw the card at the cursor, then advance the cursor,
      wrapping to the next row when no further card fits on this one. */
  function PlaceOne(w: Writer, img: ImageId): (r: Writer)
    requires w.geom.GuidesEnd()
    ensures r.geom == w.geom && r.open == w.open
    ensures
      var g := w.geom;
      var newPage := w.cursor.y > g.Limit().y;
      var at := if newPage then g.bleed else w.cursor;
      var drawn := Draw(img, at, g.card, r.page);
      && r.page == (if newPage then w.page + 1 else w.page)
      && Draws(r.trace) == Draws(w.trace) + [drawn]
      && r.cursor == (if at.x + g.Step().x > g.Limit().x
                      then Vec(g.bleed.x, at.y + g.Step().y)
                      else Vec(at.x + g.Step().x, at.y))
  {
    var g := w.geom;
    var newPage := w.cursor.y > g.Limit().y;
    // a new page resets the cursor to the margin and calls `addPage`
    var at := if newPage then g.bleed else w.cursor;
    var page := if newPage then w.page + 1 else w.page;
    var before := if newPage then StartPage(w).trace else w.trace;
    assert Draws(before) == Draws(w.trace);
    var drawn := Draw(img, at, g.card, page);
    DrawsAppend(before, [drawn]);
    assert Draws([drawn]) == [drawn] by {
      assert [drawn][..0] == [];
    }
    var next := at.x + g.Step().x;
    var cursor := if next > g.Limit().x then Vec(g.bleed.x, at.y + g.Step().y) else Vec(next, at.y);
    Writer(g, cursor, page, w.open, before + [drawn])
  }

  /** What one placement adds to the painter's output: a page break and the
      new page's guides when the cursor has run past the last row, then the
      card. */
  lemma PlaceOneTrace(w: Writer, img: ImageId)
    requires w.geom.GuidesEnd()
    ensures
      var g := w.geom;
      var newPage := w.cursor.y > g.Limit().y;
      var r := PlaceOne(w, img);
      r.trace == (if newPage then w.trace + [NewPage] + GuideLines(g) else w.trace)
        + [Draw(img, if newPage then g.bleed else w.cursor, g.card, r.page)]
  {
  }

  /** `addCard`'s loop over `range(n)`: nothing happens when `n <= 0`. */
  function PlaceCopies(w: Writer, img: ImageId, n: int): (r: Writer)
    requires w.geom.GuidesEnd()
    ensures r.geom == w.geom && r.open == w.open && w.page <= r.page
    ensures n <= 0 ==> r == w
    ensures 0 < n ==> |Draws(r.trace)| == |Draws(w.trace)| + n
    ensures Draws(w.trace) <= Draws(r.trace)
    decreases n
  {
    if n <= 0 then w else PlaceCopies(PlaceOne(w, img), img, n - 1)
  }

  /** One step of `addCard`'s loop. */
  lemma PlaceCopiesUnfold(w: Writer, img: ImageId, n: int)
    requires w.geom.GuidesEnd() && 0 < n
    ensures PlaceCopies(w, img, n) == PlaceCopies(PlaceOne(w, img), img, n - 1)
  {
  }

  /** Every card `addCard` draws shows the image it was given. */
  lemma PlaceCopiesImages(w: Writer, img: ImageId, n: int)
    requires w.geom.GuidesEnd()
    ensures var r := PlaceCopies(w, img, n);
      forall i :: |Draws(w.trace)| <= i < |Draws(r.trace)| ==> Draws(r.trace)[i].image == img
  {
    var d' := Draws(PlaceCopies(w, img, n).trace);
    forall i | |Draws(w.trace)| <= i < |d'|
      ensures d'[i].image == img
    {
      PlaceCopiesImageAt(w, img, n, i);
    }
  }

  /** The card at one position among those an `addCard` draws. */
  lemma {:induction false} PlaceCopiesImageAt(w: Writer, img: ImageId, n: int, i: int)
    requires w.geom.GuidesEnd()
    requires |Draws(w.trace)| <= i < |Draws(PlaceCopies(w, img, n).trace)|
    ensures Draws(PlaceCopies(w, img, n).trace)[i].image == img
    decreases n
  {
    var w1 := PlaceOne(w, img);
    var r1 := PlaceCopies(w1, img, n - 1);
    PlaceCopiesUnfold(w, img, n);
    SameDraws(PlaceCopies(w, img, n), r1);
    if i == |Draws(w.trace)| {
      assert Draws(r1.trace)[i] == Draws(w1.trace)[i];
    } else {
      PlaceCopiesImageAt(w1, img, n - 1, i);
    }
  }

  /** Moves the drawing order across an equation between writers, which
      the solver does not rewrite by itself inside the induction. */
  lemma SameDraws(a: Writer, b: Writer)
    requires a == b
    ensures Draws(a.trace) == Draws(b.trace)
  {
  }

  /** The public `addCard`: fails on a closed file, otherwise places `n` copies. */
  function AddCard(w: Writer, img: ImageId, n: int): (r: Result<Writer, WriterError>)
    requires w.geom.GuidesEnd()
    ensures r.Failure? <==> !w.open
    ensures r.Failure? ==> r.error == FileClosed
    ensures n <= 0 ==> r.Success? ==> r.value == w
    ensures r.Success? ==>
      && r.value.geom == w.geom && r.value.open && w.page <= r.value.page
      && Draws(w.trace) <= Draws(r.value.trace)
      && |Draws(r.value.trace)| == |Draws(w.trace)| + (if n < 0 then 0 else n)
  {
    if !w.open then Failure(FileClosed) else Success(PlaceCopies(w, img, n))
  }

  /** The public `close`: ends painting and closes the file; a second call fails. */
  function Close(w: Writer): (r: Result<Writer, WriterError>)
    ensures r.Failure? <==> !w.open
    ensures r.Failure? ==> r.error == FileClosed
    ensures r.Success? ==> !r.value.open && r.value == w.(open := false)
  {
    if !w.open then Failure(FileClosed) else Success(w.(open := false))
  }
}
