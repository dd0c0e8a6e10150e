/** The placement order of `addCard`: with `Cols` columns and `Rows` rows per
    page, the n-th card placed over the writer's lifetime lands on page
    `n / (Cols * Rows)` at slot `n % (Cols * Rows)`, slots filling row by row,
    and the document ends up with `max(1, ceil(N / (Cols * Rows)))` pages. */
module TilingOrder {
  import opened Wrappers
  import opened CardPdfWriter
  import opened WriterRuns

  /** How many cards fit side by side: the number of `k >= 0` with
      `bleed.x + k * step.x <= limit.x`. */
  function Cols(g: Geometry): (n: nat)
    requires Fits(g)
    ensures 1 <= n
  {
    NonNegQuotient(g.Limit().x - g.bleed.x, g.Step().x);
    ((g.Limit().x - g.bleed.x) / g.Step().x).Floor + 1
  }

  /** How many rows of cards fit on a page. */
  function Rows(g: Geometry): (n: nat)
    requires Fits(g)
    ensures 1 <= n
  {
    NonNegQuotient(g.Limit().y - g.bleed.y, g.Step().y);
    ((g.Limit().y - g.bleed.y) / g.Step().y).Floor + 1
  }

  /** Cards per page. */
  function Capacity(g: Geometry): (n: nat)
    requires Fits(g)
    ensures Cols(g) <= n && Rows(g) <= n
  {
    AtLeastFactors(Cols(g), Rows(g));
    Cols(g) * Rows(g)
  }

  /** `k` steps of size `s`, added one at a time as the cursor advances. */
  function Steps(s: real, k: nat): real {
    if k == 0 then 0.0 else Steps(s, k - 1) + s
  }

  /** `a * b`, by repeated addition. */
  function Times(a: nat, b: nat): nat {
    if a == 0 then 0 else Times(a - 1, b) + b
  }

  /** Top-left corner of the card in column `c` and row `r`. */
  function Cell(g: Geometry, c: nat, r: nat): Vec {
    Vec(g.bleed.x + Steps(g.Step().x, c), g.bleed.y + Steps(g.Step().y, r))
  }

  /** Top-left corner of slot `s` of a page with `cols` columns, slots
      numbered row by row. */
  function SlotPos(g: Geometry, cols: nat, s: nat): Vec
    requires 1 <= cols
  {
    Cell(g, s % cols, s / cols)
  }

  /** `cols` is the number of columns: column `cols - 1` still fits, column
      `cols` does not. */
  predicate ColsOk(g: Geometry, cols: nat) {
    && 1 <= cols
    && Steps(g.Step().x, cols - 1) <= g.Limit().x - g.bleed.x
    && g.Limit().x - g.bleed.x < Steps(g.Step().x, cols)
  }

  /** `rows` is the number of rows, in the same sense. */
  predicate RowsOk(g: Geometry, rows: nat) {
    && 1 <= rows
    && Steps(g.Step().y, rows - 1) <= g.Limit().y - g.bleed.y
    && g.Limit().y - g.bleed.y < Steps(g.Step().y, rows)
  }

  /** `n` copies of `img`. */
  function Repeat(img: ImageId, n: int): (r: seq<ImageId>)
    ensures |r| == if n < 0 then 0 else n
    ensures forall i :: 0 <= i < |r| ==> r[i] == img
    decreases n
  {
    if n <= 0 then [] else [img] + Repeat(img, n - 1)
  }

  /** The images that a sequence of `addCard` calls asks to place, in order. */
  function Expand(ops: seq<Op>): seq<ImageId> {
    if |ops| == 0 then []
    else
      (match ops[0]
       case AddCardOp(img, n) => Repeat(img, n)
       case _ => [])
      + Expand(ops[1..])
  }

  // ---------------------------------------------------------------------
  // Arithmetic

  lemma NonNegQuotient(d: real, s: real)
    requires 0.0 <= d && 0.0 < s
    ensures 0.0 <= d / s
  {
  }

  lemma AtLeastFactors(a: nat, b: nat)
    requires 1 <= a && 1 <= b
    ensures a <= a * b && b <= a * b
  {
    assert a * b == a + a * (b - 1);
    assert a * b == b + (a - 1) * b;
  }

  lemma MulAtLeast(a: int, d: int)
    requires 0 < d
    ensures 1 <= a ==> d <= a * d
    ensures a <= -1 ==> a * d <= -d
  {
    if 1 <= a {
      assert a * d == d + (a - 1) * d;
    } else if a <= -1 {
      assert a * d == -d + (a + 1) * d;
    }
  }

  lemma MulMono(x: real, y: real, s: real)
    requires x <= y && 0.0 < s
    ensures x * s <= y * s
  {
  }

  lemma MulStrictMono(x: real, y: real, s: real)
    requires x < y && 0.0 < s
    ensures x * s < y * s
  {
  }

  /** `k` steps of size `s` stay within `d` exactly when `k` is at most
      `floor(d / s)`. */
  lemma StepsWithin(k: int, d: real, s: real)
    requires 0.0 < s && 0.0 <= d
    ensures k as real * s <= d <==> k <= (d / s).Floor
  {
    var q := d / s;
    assert q * s == d;
    if k <= q.Floor {
      assert k as real <= q;
      MulMono(k as real, q, s);
    } else {
      assert q < k as real;
      MulStrictMono(q, k as real, s);
    }
  }

  lemma {:induction false} StepsClosedForm(s: real, k: nat)
    ensures Steps(s, k) == k as real * s
  {
    if k > 0 {
      StepsClosedForm(s, k - 1);
    }
  }

  lemma {:induction false} StepsMonotone(s: real, a: nat, b: nat)
    requires 0.0 < s && a <= b
    ensures Steps(s, a) <= Steps(s, b)
    decreases b
  {
    if a < b {
      StepsMonotone(s, a, b - 1);
    }
  }

  lemma {:induction false} TimesClosedForm(a: nat, b: nat)
    ensures Times(a, b) == a * b
  {
    if a > 0 {
      TimesClosedForm(a - 1, b);
    }
  }

  /** The corner of column `c`, row `r` in closed form. */
  lemma CellClosedForm(g: Geometry, c: nat, r: nat)
    ensures Cell(g, c, r) == Vec(g.bleed.x + c as real * g.Step().x, g.bleed.y + r as real * g.Step().y)
  {
    StepsClosedForm(g.Step().x, c);
    StepsClosedForm(g.Step().y, r);
  }

  /** The closed forms of `Cols` and `Rows` meet their characterisations. */
  lemma DimsOk(g: Geometry)
    requires Fits(g)
    ensures ColsOk(g, Cols(g)) && RowsOk(g, Rows(g))
  {
    StepsWithin(Cols(g) - 1, g.Limit().x - g.bleed.x, g.Step().x);
    StepsWithin(Cols(g), g.Limit().x - g.bleed.x, g.Step().x);
    StepsWithin(Rows(g) - 1, g.Limit().y - g.bleed.y, g.Step().y);
    StepsWithin(Rows(g), g.Limit().y - g.bleed.y, g.Step().y);
    StepsClosedForm(g.Step().x, Cols(g) - 1);
    StepsClosedForm(g.Step().x, Cols(g));
    StepsClosedForm(g.Step().y, Rows(g) - 1);
    StepsClosedForm(g.Step().y, Rows(g));
  }

  /** Quotient and remainder are determined by any decomposition with the
      remainder in range. */
  lemma DivModUnique(n: int, q: int, s: int, d: int)
    requires 0 < d && 0 <= s < d && n == q * d + s
    ensures n / d == q && n % d == s
  {
    var q' := n / d;
    var s' := n % d;
    assert n == q' * d + s';
    assert (q - q') * d == s' - s;
    MulAtLeast(q - q', d);
  }

  // ---------------------------------------------------------------------
  // The grid invariant

  /** The k-th card drawn shows the k-th image, on page `k / cap`, in slot
      `k % cap` of a page with `cols` columns. */
  ghost predicate Placed(g: Geometry, cols: nat, cap: nat, d: seq<Event>, imgs: seq<ImageId>)
    requires 1 <= cols && 1 <= cap
  {
    && |d| == |imgs|
    && forall k :: 0 <= k < |d| ==>
         d[k] == Draw(imgs[k], SlotPos(g, cols, k % cap), g.card, k / cap)
  }

  /** After `n` cards placed from the start of the document, the cursor is
      at column `c`, row `r` of the current page (row `rows` meaning the page
      is full). */
  ghost predicate Shape(w: Writer, cols: nat, rows: nat, cap: nat, n: nat, c: nat, r: nat)
  {
    && Fits(w.geom) && ColsOk(w.geom, cols) && RowsOk(w.geom, rows) && cap == Times(rows, cols)
    && 1 <= cap
    && w.cursor == Cell(w.geom, c, r)
    && c < cols && r <= rows && (r == rows ==> c == 0)
    && n == Times(w.page, cap) + Times(r, cols) + c
    && (0 < n ==> 1 <= Times(r, cols) + c)
  }

  /** The cursor is where `Shape` says, and every card drawn so far sits
      where the theorem says. */
  ghost predicate Grid(w: Writer, cols: nat, rows: nat, cap: nat, imgs: seq<ImageId>, c: nat, r: nat)
  {
    && Shape(w, cols, rows, cap, |imgs|, c, r)
    && Placed(w.geom, cols, cap, Draws(w.trace), imgs)
  }

  /** Whether the cursor in row `r` leaves room for a card below it. */
  lemma RowFits(g: Geometry, rows: nat, r: nat)
    requires Fits(g) && RowsOk(g, rows)
    ensures Cell(g, 0, r).y <= g.Limit().y <==> r < rows
  {
    if r < rows {
      StepsMonotone(g.Step().y, r, rows - 1);
    } else {
      StepsMonotone(g.Step().y, rows, r);
    }
  }

  /** Whether the cursor after column `c` leaves room for another card. */
  lemma ColumnFits(g: Geometry, cols: nat, c: nat)
    requires Fits(g) && ColsOk(g, cols)
    ensures g.bleed.x + Steps(g.Step().x, c + 1) <= g.Limit().x <==> c + 1 < cols
  {
    if c + 1 < cols {
      StepsMonotone(g.Step().x, c + 1, cols - 1);
    } else {
      StepsMonotone(g.Step().x, cols, c + 1);
    }
  }

  lemma {:induction false} TimesMonotone(a: nat, b: nat, d: nat)
    requires a <= b
    ensures Times(a, d) <= Times(b, d)
    decreases b
  {
    if a < b {
      TimesMonotone(a, b - 1, d);
    }
  }

  lemma {:induction false} TimesAtLeast(a: nat, d: nat)
    requires 1 <= d
    ensures a <= Times(a, d)
  {
    if a > 0 {
      TimesAtLeast(a - 1, d);
    }
  }

  /** Slot `Times(r, cols) + c` of a page lies before slot `cap` unless the
      cursor has run past the last row. */
  lemma SlotBelowCapacity(cols: nat, rows: nat, c: nat, r: nat)
    requires c < cols && r <= rows && (r == rows ==> c == 0)
    ensures r < rows ==> Times(r, cols) + c < Times(rows, cols)
    ensures r == rows ==> Times(r, cols) + c == Times(rows, cols)
  {
    if r < rows {
      TimesMonotone(r + 1, rows, cols);
    }
  }

  /** Division of `Times(q, d) + s` by `d`. */
  lemma DivOfTimes(q: nat, d: nat, s: nat)
    requires 0 < d && s < d
    ensures (Times(q, d) + s) / d == q && (Times(q, d) + s) % d == s
  {
    TimesClosedForm(q, d);
    DivModUnique(Times(q, d) + s, q, s, d);
  }

  /** Where card `n` goes, given that the cursor is at column `c`, row `r`
      of page `page` after `n` cards: the same slot, or slot 0 of the next
      page when the page is full. */
  lemma SlotOfNext(cols: nat, rows: nat, cap: nat, page: nat, n: nat, c: nat, r: nat)
    requires 1 <= cols && 1 <= rows && cap == Times(rows, cols)
    requires c < cols && r <= rows && (r == rows ==> c == 0)
    requires n == Times(page, cap) + Times(r, cols) + c
    ensures r < rows ==>
      && n / cap == page && n % cap == Times(r, cols) + c
      && (Times(r, cols) + c) % cols == c && (Times(r, cols) + c) / cols == r
    ensures r == rows ==> n / cap == page + 1 && n % cap == 0
    ensures r == rows ==> n == Times(page + 1, cap)
  {
    SlotBelowCapacity(cols, rows, c, r);
    if r < rows {
      DivOfTimes(page, cap, Times(r, cols) + c);
      DivOfTimes(r, cols, c);
    } else {
      assert n == Times(page + 1, cap) + 0;
      DivOfTimes(page + 1, cap, 0);
    }
  }

  /** The cursor after drawing at column `c0`, row `r0`. */
  lemma Advance(g: Geometry, cols: nat, c0: nat, r0: nat) returns (c': nat, r': nat)
    requires Fits(g) && ColsOk(g, cols) && c0 < cols
    ensures
      var at := Cell(g, c0, r0);
      var next := at.x + g.Step().x;
      (if next > g.Limit().x then Vec(g.bleed.x, at.y + g.Step().y) else Vec(next, at.y))
        == Cell(g, c', r')
    ensures Times(r', cols) + c' == Times(r0, cols) + c0 + 1
    ensures c' < cols && r0 <= r' <= r0 + 1 && (r' == r0 + 1 ==> c' == 0)
  {
    ColumnFits(g, cols, c0);
    if c0 + 1 < cols {
      c', r' := c0 + 1, r0;
    } else {
      c', r' := 0, r0 + 1;
    }
  }

  /** Drawing card n where the theorem says extends `Placed`. */
  lemma PlacedExtend(g: Geometry, cols: nat, cap: nat, d: seq<Event>, imgs: seq<ImageId>, img: ImageId, at: Vec, page: nat)
    requires 1 <= cols && 1 <= cap && Placed(g, cols, cap, d, imgs)
    requires at == SlotPos(g, cols, |imgs| % cap) && page == |imgs| / cap
    ensures Placed(g, cols, cap, d + [Draw(img, at, g.card, page)], imgs + [img])
  {
    var d' := d + [Draw(img, at, g.card, page)];
    var imgs' := imgs + [img];
    forall k | 0 <= k < |d'|
      ensures d'[k] == Draw(imgs'[k], SlotPos(g, cols, k % cap), g.card, k / cap)
    {
      if k < |d| {
        assert d'[k] == d[k];
      }
    }
  }

  /** Where the next card goes: on the current page at the cursor, or at the
      margin of a new page once the cursor has run past the last row. */
  lemma NextSlot(w: Writer, cols: nat, rows: nat, cap: nat, n: nat, c: nat, r: nat)
    requires Shape(w, cols, rows, cap, n, c, r)
    ensures
      var g := w.geom;
      var newPage := w.cursor.y > g.Limit().y;
      && (newPage <==> r == rows)
      && (if newPage then g.bleed else w.cursor) == SlotPos(g, cols, n % cap)
      && (if newPage then w.page + 1 else w.page) == n / cap
      && (if newPage then n == Times(w.page + 1, cap) else n == Times(w.page, cap) + Times(r, cols) + c)
  {
    RowFits(w.geom, rows, r);
    SlotOfNext(cols, rows, cap, w.page, n, c, r);
    assert Cell(w.geom, 0, 0) == w.geom.bleed;
  }

  /** One card placement draws card `n` in slot `n % cap` of page
      `n / cap` and moves the cursor one slot forward. */
  lemma PlaceOneShape(w: Writer, cols: nat, rows: nat, cap: nat, img: ImageId, n: nat, c: nat, r: nat)
    returns (c': nat, r': nat)
    requires Shape(w, cols, rows, cap, n, c, r)
    ensures Shape(PlaceOne(w, img), cols, rows, cap, n + 1, c', r')
    ensures PlaceOne(w, img).page == n / cap
    ensures Draws(PlaceOne(w, img).trace)
      == Draws(w.trace) + [Draw(img, SlotPos(w.geom, cols, n % cap), w.geom.card, PlaceOne(w, img).page)]
  {
    var g := w.geom;
    NextSlot(w, cols, rows, cap, n, c, r);
    var newPage := r == rows;
    var c0: nat := if newPage then 0 else c;
    var r0: nat := if newPage then 0 else r;
    var at := Cell(g, c0, r0);
    assert at == (if newPage then g.bleed else w.cursor);
    c', r' := Advance(g, cols, c0, r0);
    var w' := PlaceOne(w, img);
    assert w'.cursor == Cell(g, c', r');
    assert w'.page == n / cap;
    assert n == Times(w'.page, cap) + Times(r0, cols) + c0;
  }

  /** One card placement moves the grid invariant one slot forward. */
  lemma PlaceOneStep(w: Writer, cols: nat, rows: nat, cap: nat, img: ImageId, imgs: seq<ImageId>, c: nat, r: nat)
    returns (c': nat, r': nat)
    requires Grid(w, cols, rows, cap, imgs, c, r)
    ensures Grid(PlaceOne(w, img), cols, rows, cap, imgs + [img], c', r')
  {
    var n := |imgs|;
    c', r' := PlaceOneShape(w, cols, rows, cap, img, n, c, r);
    PlacedExtend(w.geom, cols, cap, Draws(w.trace), imgs, img, SlotPos(w.geom, cols, n % cap), PlaceOne(w, img).page);
  }

  lemma RepeatUnfold(imgs: seq<ImageId>, img: ImageId, n: int)
    requires 0 < n
    ensures imgs + [img] + Repeat(img, n - 1) == imgs + Repeat(img, n)
  {
  }

  lemma ExpandUnfold(imgs: seq<ImageId>, ops: seq<Op>)
    requires 0 < |ops| && ops[0].AddCardOp?
    ensures imgs + Repeat(ops[0].image, ops[0].copies) + Expand(ops[1..]) == imgs + Expand(ops)
  {
  }

  lemma {:induction false} PlaceCopiesStep(w: Writer, cols: nat, rows: nat, cap: nat, img: ImageId, n: int, imgs: seq<ImageId>, c: nat, r: nat)
    returns (c': nat, r': nat)
    requires Grid(w, cols, rows, cap, imgs, c, r)
    ensures Grid(PlaceCopies(w, img, n), cols, rows, cap, imgs + Repeat(img, n), c', r')
    decreases n
  {
    if n <= 0 {
      assert imgs + Repeat(img, n) == imgs;
      c', r' := c, r;
    } else {
      RepeatUnfold(imgs, img, n);
      var w1 := PlaceOne(w, img);
      PlaceCopiesUnfold(w, img, n);
      var c1, r1 := PlaceOneStep(w, cols, rows, cap, img, imgs, c, r);
      c', r' := PlaceCopiesStep(w1, cols, rows, cap, img, n - 1, imgs + [img], c1, r1);
    }
  }

  lemma {:induction false} RunStep(w: Writer, cols: nat, rows: nat, cap: nat, ops: seq<Op>, imgs: seq<ImageId>, c: nat, r: nat)
    returns (c': nat, r': nat)
    requires Grid(w, cols, rows, cap, imgs, c, r) && w.open
    requires forall i :: 0 <= i < |ops| ==> ops[i].AddCardOp?
    ensures Run(w, ops).Success?
    ensures Grid(Run(w, ops).value, cols, rows, cap, imgs + Expand(ops), c', r')
    decreases |ops|
  {
    if |ops| == 0 {
      assert imgs + Expand(ops) == imgs;
      c', r' := c, r;
    } else {
      var img, n := ops[0].image, ops[0].copies;
      var c1, r1 := PlaceCopiesStep(w, cols, rows, cap, img, n, imgs, c, r);
      c', r' := RunStep(PlaceCopies(w, img, n), cols, rows, cap, ops[1..], imgs + Repeat(img, n), c1, r1);
      ExpandUnfold(imgs, ops);
    }
  }

  /** Pages needed for `n` cards at `cap` per page: `ceil(n / cap)`, and one
      blank page when there are none. */
  function PagesFor(n: nat, cap: nat): nat
    requires 0 < cap
  {
    if n == 0 then 1 else (n + cap - 1) / cap
  }

  /** What the grid invariant says about the finished document. */
  lemma GridPages(w: Writer, cols: nat, rows: nat, cap: nat, imgs: seq<ImageId>, c: nat, r: nat)
    requires Grid(w, cols, rows, cap, imgs, c, r)
    ensures 1 <= cap && |Draws(w.trace)| == |imgs|
    ensures w.page + 1 == PagesFor(|Draws(w.trace)|, cap)
  {
    PageCount(cols, rows, cap, |imgs|, w.page, c, r);
  }

  /** A page ending in column `c` of row `r` holds `s` cards, `1 <= s` when
      any card was placed, and `ceil(n / cap)` pages hold `n` cards. */
  lemma PageCount(cols: nat, rows: nat, cap: nat, n: nat, page: nat, c: nat, r: nat)
    requires 1 <= cols && 1 <= rows && cap == Times(rows, cols)
    requires c < cols && r <= rows && (r == rows ==> c == 0)
    requires n == Times(page, cap) + Times(r, cols) + c
    requires 0 < n ==> 1 <= Times(r, cols) + c
    ensures page + 1 == PagesFor(n, cap)
  {
    SlotBelowCapacity(cols, rows, c, r);
    var s := Times(r, cols) + c;
    TimesAtLeast(rows, cols);
    if n == 0 {
      TimesAtLeast(page, cap);
    } else {
      assert n + cap - 1 == Times(page + 1, cap) + (s - 1);
      DivOfTimes(page + 1, cap, s - 1);
    }
  }

  /** A fresh writer is at slot 0 of page 0 with nothing placed. */
  lemma InitialGrid(w0: Writer)
    requires Fits(w0.geom)
    requires w0.cursor == w0.geom.bleed && w0.page == 0 && Draws(w0.trace) == []
    ensures Grid(w0, Cols(w0.geom), Rows(w0.geom), Capacity(w0.geom), [], 0, 0)
  {
    var g := w0.geom;
    DimsOk(g);
    TimesClosedForm(Rows(g), Cols(g));
    assert Cell(g, 0, 0) == g.bleed;
  }

  /** The order theorem. Starting from a writer as the constructor leaves it
      (open, cursor on the margin, first page, nothing drawn) on which a card
      fits, any sequence of `addCard` calls succeeds; the k-th card drawn is
      the k-th image requested, on page `k / cap`, at slot `k % cap` of that
      page; and the document has `max(1, ceil(N / cap))` pages. */
  lemma PlacementOrder(w0: Writer, ops: seq<Op>)
    requires Fits(w0.geom)
    requires w0.open && w0.cursor == w0.geom.bleed && w0.page == 0 && Draws(w0.trace) == []
    requires forall i :: 0 <= i < |ops| ==> ops[i].AddCardOp?
    ensures Run(w0, ops).Success?
    ensures Placed(w0.geom, Cols(w0.geom), Capacity(w0.geom), Draws(Run(w0, ops).value.trace), Expand(ops))
    ensures
      var n := |Draws(Run(w0, ops).value.trace)|;
      var cap := Capacity(w0.geom);
      Run(w0, ops).value.page + 1 == PagesFor(n, cap)
  {
    var g := w0.geom;
    var cols, rows := Cols(g), Rows(g);
    var cap := Capacity(g);
    InitialGrid(w0);
    var c, r := RunStep(w0, cols, rows, cap, ops, [], 0, 0);
    assert [] + Expand(ops) == Expand(ops);
    GridPages(Run(w0, ops).value, cols, rows, cap, Expand(ops), c, r);
  }

  /** The same, for the writer the constructor returns. */
  lemma CreatedPlacementOrder(cardMM: Vec, paperMM: Vec, sepMM: Vec, ops: seq<Op>)
    requires Create(cardMM, paperMM, sepMM, true).Success?
    requires Fits(Create(cardMM, paperMM, sepMM, true).value.geom)
    requires forall i :: 0 <= i < |ops| ==> ops[i].AddCardOp?
    ensures Run(Create(cardMM, paperMM, sepMM, true).value, ops).Success?
    ensures
      var w0 := Create(cardMM, paperMM, sepMM, true).value;
      Placed(w0.geom, Cols(w0.geom), Capacity(w0.geom), Draws(Run(w0, ops).value.trace), Expand(ops))
  {
    PlacementOrder(Create(cardMM, paperMM, sepMM, true).value, ops);
  }
}
