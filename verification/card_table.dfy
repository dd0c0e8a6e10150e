/** The main window's card list: the parallel `imageNames` / `images` lists
    and the table rows that show them, with the copy-count column. */
module CardTable {
  import opened Wrappers

  /** A loaded image; it remembers the file it was loaded from. */
  datatype Pixmap = Pixmap(source: string)

  /** The copy-count cell of a row as Python's `int(text)` reads it:
      `None` when `int()` raises. */
  type CopyCell = Option<int>

  /** The list state: file names, loaded images and the table's copy
      column, one entry per row. */
  datatype Gui = Gui(names: seq<string>, images: seq<Pixmap>, copies: seq<CopyCell>)

  /** The two lists and the table have one entry per row, and each image
      is the one loaded from the name beside it. */
  predicate Aligned(g: Gui) {
    |g.names| == |g.images| == |g.copies| &&
    forall i :: 0 <= i < |g.names| ==> g.images[i].source == g.names[i]
  }

  predicate Distinct<T(==)>(s: seq<T>) {
    forall i, j :: 0 <= i < j < |s| ==> s[i] != s[j]
  }

  /** The elements of `s` that satisfy `p`, in order. */
  function Filter<T>(s: seq<T>, p: T -> bool): (r: seq<T>)
    ensures |r| <= |s|
    ensures forall i :: 0 <= i < |r| ==> p(r[i])
  {
    if |s| == 0 then [] else (if p(s[0]) then [s[0]] else []) + Filter(s[1..], p)
  }

  /** Filtering works piece by piece: a concatenation filters to the
      concatenation of the filtered pieces, in the same order. */
  lemma {:induction false} FilterAppend<T>(a: seq<T>, b: seq<T>, p: T -> bool)
    ensures Filter(a + b, p) == Filter(a, p) + Filter(b, p)
    decreases |a|
  {
    if |a| > 0 {
      assert (a + b)[0] == a[0];
      assert (a + b)[1..] == a[1..] + b;
      FilterAppend(a[1..], b, p);
    } else {
      assert a + b == b;
    }
  }

  /** A single element is kept exactly when it satisfies `p`; with
      `FilterAppend` this determines `Filter` on every list. */
  lemma FilterOne<T>(x: T, p: T -> bool)
    ensures Filter([x], p) == if p(x) then [x] else []
  {
    assert [x][1..] == [];
  }

  lemma {:induction false} FilterMembers<T>(s: seq<T>, p: T -> bool)
    ensures forall x :: x in Filter(s, p) <==> x in s && p(x)
  {
    if |s| > 0 {
      FilterMembers(s[1..], p);
      assert s == [s[0]] + s[1..];
    }
  }

  lemma {:induction false} FilterDistinct<T>(s: seq<T>, p: T -> bool)
    requires Distinct(s)
    ensures Distinct(Filter(s, p))
  {
    if |s| > 0 {
      var t := Filter(s[1..], p);
      FilterDistinct(s[1..], p);
      FilterMembers(s[1..], p);
      assert s[0] !in s[1..];
      assert s[0] !in t;
    }
  }

  /** `QPixmap(name)` for each name, keeping the ones that load. */
  function LoadAll(names: seq<string>, loads: string -> bool): (r: seq<Pixmap>)
    ensures |r| == |Filter(names, loads)|
    ensures forall i :: 0 <= i < |r| ==> r[i].source == Filter(names, loads)[i]
  {
    var kept := Filter(names, loads);
    seq(|kept|, i requires 0 <= i < |kept| => Pixmap(kept[i]))
  }

  /** The loop loads the names one after another: the images of a
      concatenation are the images of each piece in turn, and a single
      name gives its image exactly when it loads. */
  lemma LoadAllAppend(a: seq<string>, b: seq<string>, x: string, loads: string -> bool)
    ensures LoadAll(a + b, loads) == LoadAll(a, loads) + LoadAll(b, loads)
    ensures LoadAll([x], loads) == if loads(x) then [Pixmap(x)] else []
  {
    FilterAppend(a, b, loads);
    FilterOne(x, loads);
  }

  /** A new table row reads `'1'` in its copy column. */
  function Ones(n: nat): (r: seq<CopyCell>)
    ensures |r| == n
    ensures forall i :: 0 <= i < n ==> r[i] == Some(1)
  {
    seq(n, i => Some(1))
  }

  /** The outcome of adding images: the new state and whether the
      "Some images could not be loaded" message was shown. */
  datatype Added = Added(gui: Gui, warned: bool)

  /** `addImgsToTable`: loads each new image, appends the loadable ones to
      both lists and to the table with one copy each, and warns when some
      did not load. `loads` stands in for `QPixmap(img).isNull()` failing. */
  function AddImgsToTable(g: Gui, newImages: seq<string>, loads: string -> bool): (r: Added)
    requires Aligned(g)
    ensures Aligned(r.gui) && |g.names| <= |r.gui.names|
    ensures r.gui.names[..|g.names|] == g.names && r.gui.copies[..|g.copies|] == g.copies
    ensures r.gui.names[|g.names|..] == Filter(newImages, loads)
    ensures forall x :: x in r.gui.names[|g.names|..] <==> x in newImages && loads(x)
    ensures forall i :: |g.copies| <= i < |r.gui.copies| ==> r.gui.copies[i] == Some(1)
    ensures r.warned <==> exists x :: x in newImages && !loads(x)
  {
    var kept := Filter(newImages, loads);
    FilterMembers(newImages, loads);
    AllKeptIffNoneFails(newImages, loads);
    var r := Gui(g.names + kept, g.images + LoadAll(newImages, loads), g.copies + Ones(|kept|));
    assert r.names[|g.names|..] == kept;
    Added(r, |kept| != |newImages|)
  }

  /** Nothing was dropped exactly when every image loads. */
  lemma {:induction false} AllKeptIffNoneFails(s: seq<string>, p: string -> bool)
    ensures |Filter(s, p)| == |s| <==> forall x :: x in s ==> p(x)
  {
    if |s| > 0 {
      AllKeptIffNoneFails(s[1..], p);
      assert s == [s[0]] + s[1..];
    }
  }

  /** Adding names none of which is listed yet, themselves distinct, keeps
      the names distinct. */
  lemma AddKeepsDistinct(g: Gui, newImages: seq<string>, loads: string -> bool)
    requires Aligned(g) && Distinct(g.names) && Distinct(newImages)
    requires forall x :: x in newImages ==> x !in g.names
    ensures Distinct(AddImgsToTable(g, newImages, loads).gui.names)
  {
    var kept := Filter(newImages, loads);
    FilterDistinct(newImages, loads);
    FilterMembers(newImages, loads);
    assert AddImgsToTable(g, newImages, loads).gui.names == g.names + kept;
    DistinctConcat(g.names, kept);
  }

  /** Two distinct lists with nothing in common concatenate to a
      distinct list. */
  lemma DistinctConcat<T>(a: seq<T>, b: seq<T>)
    requires Distinct(a) && Distinct(b)
    requires forall x :: x in b ==> x !in a
    ensures Distinct(a + b)
  {
    var c := a + b;
    forall i, j | 0 <= i < j < |c|
      ensures c[i] != c[j]
    {
      if j < |a| {
        assert c[i] == a[i] && c[j] == a[j];
      } else if i >= |a| {
        assert c[i] == b[i - |a|] && c[j] == b[j - |a|];
      } else {
        assert c[j] == b[j - |a|] && c[j] in b;
        assert c[i] == a[i] && c[i] in a;
      }
    }
  }

  /** `selectImages`: a cancelled or empty pick changes nothing; otherwise
      the picked files not listed yet are added. */
  function SelectImages(g: Gui, picked: seq<string>, ok: bool, loads: string -> bool): (r: Added)
    requires Aligned(g)
    ensures Aligned(r.gui) && |g.names| <= |r.gui.names|
    ensures r.gui.names[..|g.names|] == g.names && r.gui.copies[..|g.copies|] == g.copies
    ensures (!ok || picked == []) ==> r == Added(g, false)
    ensures ok ==> r.gui.names[|g.names|..] == Filter(Filter(picked, x => x !in g.names), loads)
    ensures forall x :: x in r.gui.names[|g.names|..] ==> x in picked && x !in g.names && loads(x)
    ensures ok ==> forall x :: x in picked && x !in g.names && loads(x) ==> x in r.gui.names[|g.names|..]
    ensures r.warned <==> ok && exists x :: x in picked && x !in g.names && !loads(x)
  {
    if !ok || picked == [] then Added(g, false)
    else
      var unlisted := Filter(picked, x => x !in g.names);
      FilterMembers(picked, x => x !in g.names);
      AddImgsToTable(g, unlisted, loads)
  }

  /** Picking never lists a name (a path string) twice. */
  lemma SelectKeepsDistinct(g: Gui, picked: seq<string>, ok: bool, loads: string -> bool)
    requires Aligned(g) && Distinct(g.names) && Distinct(picked)
    ensures Distinct(SelectImages(g, picked, ok, loads).gui.names)
  {
    if ok && picked != [] {
      var p := x => x !in g.names;
      FilterMembers(picked, p);
      FilterDistinct(picked, p);
      AddKeepsDistinct(g, Filter(picked, p), loads);
    }
  }

  /** `clearList`: both lists and the table are emptied together. */
  function ClearList(g: Gui): (r: Gui)
    ensures Aligned(r) && |r.names| == 0
  {
    Gui([], [], [])
  }

  /** A cell `parseNumCopies` accepts: an int, and not negative. */
  predicate ValidCount(c: CopyCell) {
    c.Some? && c.value >= 0
  }

  /** `parseNumCopies`: the copy count of every row in row order, or the
      empty list as soon as one row does not hold a non-negative int. */
  method ParseNumCopies(cells: seq<CopyCell>) returns (result: seq<nat>)
    ensures (forall i :: 0 <= i < |cells| ==> ValidCount(cells[i])) ==>
      |result| == |cells| && forall i :: 0 <= i < |cells| ==> result[i] == cells[i].value
    ensures (exists i :: 0 <= i < |cells| && !ValidCount(cells[i])) ==> result == []
  {
    result := [];
    var it := 0;
    while it < |cells|
      invariant 0 <= it <= |cells|
      invariant |result| == it
      invariant forall i :: 0 <= i < it ==> ValidCount(cells[i]) && result[i] == cells[i].value
    {
      var c := cells[it];
      if !(c.Some? && c.value >= 0) {
        return [];
      }
      result := result + [c.value];
      it := it + 1;
    }
  }

  /** `list.pop(i)` for an index in range. */
  function Pop<T>(s: seq<T>, i: nat): (r: seq<T>)
    requires i < |s|
    ensures |r| == |s| - 1
    ensures forall k :: 0 <= k < i ==> r[k] == s[k]
    ensures forall k :: i <= k < |r| ==> r[k] == s[k + 1]
  {
    s[..i] + s[i + 1..]
  }

  /** Ordered from the largest down. */
  predicate Descending(s: seq<int>) {
    forall i, j :: 0 <= i < j < |s| ==> s[i] >= s[j]
  }

  /** `sorted(rows, reverse=True)`. */
  function SortDesc(s: seq<int>): (r: seq<int>)
    ensures |r| == |s| && Descending(r)
  {
    if |s| == 0 then [] else Insert(s[0], SortDesc(s[1..]))
  }

  /** Inserting into a list sorted from the largest down. */
  function Insert(x: int, s: seq<int>): (r: seq<int>)
    requires Descending(s)
    ensures |r| == |s| + 1 && (r[0] == x || (|s| > 0 && r[0] == s[0]))
    ensures Descending(r)
  {
    if |s| == 0 || x >= s[0] then [x] + s
    else
      var t := Insert(x, s[1..]);
      assert forall j :: 0 <= j < |t| ==> s[0] >= t[0] >= t[j];
      [s[0]] + t
  }

  lemma {:induction false} InsertPermutes(x: int, s: seq<int>)
    requires Descending(s)
    ensures multiset(Insert(x, s)) == multiset(s) + multiset{x}
  {
    if |s| > 0 && x < s[0] {
      InsertPermutes(x, s[1..]);
      assert s == [s[0]] + s[1..];
    }
  }

  /** Sorting permutes its input. */
  lemma {:induction false} SortDescPermutes(s: seq<int>)
    ensures multiset(SortDesc(s)) == multiset(s)
  {
    if |s| > 0 {
      var t := SortDesc(s[1..]);
      SortDescPermutes(s[1..]);
      InsertPermutes(s[0], t);
      ConsMultiset(s);
    }
  }

  lemma ConsMultiset(s: seq<int>)
    requires |s| > 0
    ensures multiset(s) == multiset(s[1..]) + multiset{s[0]}
  {
    assert s == [s[0]] + s[1..];
  }

  /** Sorting keeps exactly the same values. */
  lemma SortDescMembers(s: seq<int>)
    ensures forall x :: x in SortDesc(s) <==> x in s
  {
    SortDescPermutes(s);
    forall x
      ensures x in SortDesc(s) <==> x in s
    {
      assert x in SortDesc(s) <==> x in multiset(SortDesc(s));
      assert x in s <==> x in multiset(s);
    }
  }

  /** The state after `removeSelected` or the error it raises. */
  datatype RemoveError = IndexError(index: int)

  /** Removing the given rows one after another, as the loop body does:
      the table ignores a row out of range, `pop` raises on one. */
  function PopRows(g: Gui, rows: seq<int>): (r: Result<Gui, RemoveError>)
    requires Aligned(g)
    ensures r.Success? ==> Aligned(r.value) && |r.value.names| == |g.names| - |rows|
    decreases |rows|
  {
    if |rows| == 0 then Success(g)
    else
      var it := rows[0];
      if 0 <= it < |g.names| then
        PopRows(Gui(Pop(g.names, it), Pop(g.images, it), Pop(g.copies, it)), rows[1..])
      else Failure(IndexError(it))
  }

  /** `removeSelected` as written: the row of every selected item, sorted
      from the bottom up. A row selected in both of its item columns is
      listed, and removed, twice. */
  function RemoveSelected(g: Gui, selectedRows: seq<int>): (r: Result<Gui, RemoveError>)
    requires Aligned(g)
    requires forall i :: 0 <= i < |selectedRows| ==> 0 <= selectedRows[i] < |g.names|
    ensures r.Success? ==> Aligned(r.value) && |r.value.names| == |g.names| - |selectedRows|
  {
    PopRows(g, SortDesc(selectedRows))
  }

  /** A list sorted from the largest down without repeats is strictly
      decreasing. */
  lemma {:induction false} SortDescDistinct(s: seq<int>)
    requires Distinct(s)
    ensures Distinct(SortDesc(s))
    ensures forall i, j :: 0 <= i < j < |s| ==> SortDesc(s)[i] > SortDesc(s)[j]
    decreases |s|
  {
    if |s| > 0 {
      var t := SortDesc(s[1..]);
      assert Distinct(s[1..]) by {
        forall i, j | 0 <= i < j < |s[1..]|
          ensures s[1..][i] != s[1..][j]
        {
          assert s[1..][i] == s[i + 1] && s[1..][j] == s[j + 1];
        }
      }
      SortDescDistinct(s[1..]);
      SortDescMembers(s[1..]);
      assert s[0] !in s[1..] by {
        forall k | 0 <= k < |s[1..]|
          ensures s[1..][k] != s[0]
        {
          assert s[1..][k] == s[k + 1];
        }
      }
      InsertDistinct(s[0], t);
    }
  }

  /** Inserting a new value into a list without repeats keeps it so. */
  lemma {:induction false} InsertDistinct(x: int, s: seq<int>)
    requires Descending(s) && Distinct(s) && x !in s
    ensures Distinct(Insert(x, s))
    decreases |s|
  {
    if |s| > 0 && x < s[0] {
      var u := Insert(x, s[1..]);
      assert Distinct(s[1..]) by {
        forall i, j | 0 <= i < j < |s[1..]|
          ensures s[1..][i] != s[1..][j]
        {
          assert s[1..][i] == s[i + 1] && s[1..][j] == s[j + 1];
        }
      }
      InsertDistinct(x, s[1..]);
      InsertPermutes(x, s[1..]);
      assert s[0] !in u by {
        assert s[0] !in multiset(s[1..]) by {
          forall k | 0 <= k < |s[1..]|
            ensures s[1..][k] != s[0]
          {
            assert s[1..][k] == s[k + 1];
          }
        }
        assert s[0] != x;
        assert s[0] !in multiset(u);
      }
      DistinctConcat([s[0]], u);
    } else {
      DistinctConcat([x], s);
    }
  }

  /** Without a row selected twice, `removeSelected` as written removes
      exactly the selected rows, as the corrected removal does. */
  lemma RemoveSelectedDistinct(g: Gui, selectedRows: seq<int>)
    requires Aligned(g)
    requires forall i :: 0 <= i < |selectedRows| ==> 0 <= selectedRows[i] < |g.names|
    requires Distinct(selectedRows)
    ensures RemoveSelected(g, selectedRows) == RemoveSelectedOnce(g, selectedRows)
    ensures RemoveSelected(g, selectedRows) == Success(Gui(
      Without(g.names, set x | x in selectedRows),
      Without(g.images, set x | x in selectedRows),
      Without(g.copies, set x | x in selectedRows)))
  {
    var sorted := SortDesc(selectedRows);
    SortDescDistinct(selectedRows);
    SortDescMembers(selectedRows);
    assert (set x | x in sorted) == (set x | x in selectedRows);
    forall i | 0 <= i < |sorted|
      ensures 0 <= sorted[i] < |g.names|
    {
      assert sorted[i] in selectedRows;
    }
    PopRowsDescending(g, sorted);
    RemoveSelectedOnceSpec(g, selectedRows);
  }

  /** `sorted` leaves a row listed twice in place. */
  lemma SortTwin(x: int)
    ensures SortDesc([x, x]) == [x, x]
  {
    assert [x, x][1..] == [x];
    assert SortDesc([x]) == Insert(x, SortDesc([])) == [x];
  }

  function ThreeRows(): (g: Gui)
    ensures Aligned(g)
  {
    Gui(["a", "b", "c"], [Pixmap("a"), Pixmap("b"), Pixmap("c")], [Some(1), Some(1), Some(1)])
  }

  /** Selecting both item cells of the middle row of three (the row listed
      twice) removes the unselected bottom row too. */
  lemma RemoveSelectedExtraRow()
    ensures RemoveSelected(ThreeRows(), [1, 1]) == Success(Gui(["a"], [Pixmap("a")], [Some(1)]))
  {
    var g := ThreeRows();
    SortTwin(1);
    var g1 := Gui(["a", "c"], [Pixmap("a"), Pixmap("c")], [Some(1), Some(1)]);
    var g2 := Gui(["a"], [Pixmap("a")], [Some(1)]);
    assert Gui(Pop(g.names, 1), Pop(g.images, 1), Pop(g.copies, 1)) == g1;
    assert Gui(Pop(g1.names, 1), Pop(g1.images, 1), Pop(g1.copies, 1)) == g2;
    assert PopRows(g1, [1]) == PopRows(g2, []);
  }

  /** Selecting both item cells of the bottom row makes the second `pop`
      raise. */
  lemma RemoveSelectedRaises()
    ensures RemoveSelected(ThreeRows(), [2, 2]) == Failure(IndexError(2))
  {
    var g := ThreeRows();
    SortTwin(2);
    var g1 := Gui(["a", "b"], [Pixmap("a"), Pixmap("b")], [Some(1), Some(1)]);
    assert Gui(Pop(g.names, 2), Pop(g.images, 2), Pop(g.copies, 2)) == g1;
  }

  /** The elements of `s` whose index is not in `sel`, in order. */
  function Without<T>(s: seq<T>, sel: set<int>): (r: seq<T>)
    ensures |r| <= |s|
  {
    if |s| == 0 then []
    else Without(s[..|s| - 1], sel) + (if |s| - 1 in sel then [] else [s[|s| - 1]])
  }

  /** Indices at or past `n` that `sel` does not hold are kept as a block. */
  lemma {:induction false} WithoutPrefix<T>(s: seq<T>, sel: set<int>, n: nat)
    requires n <= |s|
    requires forall x :: x in sel ==> x < n
    ensures Without(s, sel) == Without(s[..n], sel) + s[n..]
    decreases |s|
  {
    if |s| > n {
      var t := s[..|s| - 1];
      WithoutPrefix(t, sel, n);
      assert t[..n] == s[..n];
      assert t[n..] + [s[|s| - 1]] == s[n..];
    } else {
      assert s[..n] == s;
    }
  }

  /** Only the indices of `s` in `sel` matter. */
  lemma {:induction false} WithoutSameIndices<T>(s: seq<T>, a: set<int>, b: set<int>)
    requires forall x :: 0 <= x < |s| ==> (x in a <==> x in b)
    ensures Without(s, a) == Without(s, b)
    decreases |s|
  {
    if |s| > 0 {
      WithoutSameIndices(s[..|s| - 1], a, b);
    }
  }

  /** Popping the highest selected index first leaves the lower ones in
      place. */
  lemma PopHighest<T>(s: seq<T>, i: nat, sel: set<int>)
    requires i < |s|
    requires forall x :: x in sel ==> x < i
    ensures Without(Pop(s, i), sel) == Without(s, sel + {i})
  {
    var p := Pop(s, i);
    WithoutPrefix(p, sel, i);
    assert p[..i] == s[..i] && p[i..] == s[i + 1..];
    WithoutPrefix(s, sel + {i}, i + 1);
    var u := s[..i + 1];
    assert u[..|u| - 1] == s[..i];
    assert Without(u, sel + {i}) == Without(s[..i], sel + {i});
    WithoutSameIndices(s[..i], sel + {i}, sel);
  }

  /** Removing strictly descending rows in range removes exactly those
      rows from every list. */
  lemma {:induction false} PopRowsDescending(g: Gui, rows: seq<int>)
    requires Aligned(g)
    requires forall i :: 0 <= i < |rows| ==> 0 <= rows[i] < |g.names|
    requires forall i, j :: 0 <= i < j < |rows| ==> rows[i] > rows[j]
    ensures PopRows(g, rows) == Success(Gui(
      Without(g.names, set x | x in rows), Without(g.images, set x | x in rows), Without(g.copies, set x | x in rows)))
    decreases |rows|
  {
    var sel := set x | x in rows;
    if |rows| == 0 {
      assert sel == {};
      WithoutNone(g.names);
      WithoutNone(g.images);
      WithoutNone(g.copies);
    } else {
      var it := rows[0];
      var g' := Gui(Pop(g.names, it), Pop(g.images, it), Pop(g.copies, it));
      var rest := set x | x in rows[1..];
      forall i | 0 <= i < |rows[1..]|
        ensures rows[1..][i] < it
      {
        assert rows[1..][i] == rows[i + 1];
      }
      PopRowsDescending(g', rows[1..]);
      assert sel == rest + {it};
      PopHighest(g.names, it, rest);
      PopHighest(g.images, it, rest);
      PopHighest(g.copies, it, rest);
    }
  }

  lemma {:induction false} WithoutNone<T>(s: seq<T>)
    ensures Without(s, {}) == s
  {
    if |s| > 0 {
      WithoutNone(s[..|s| - 1]);
    }
  }

  /** Sorted from the bottom up, each row once: consecutive repeats of a
      sorted list dropped. */
  function UniqDesc(s: seq<int>): (r: seq<int>)
    requires Descending(s)
    ensures forall x :: x in r <==> x in s
    ensures |s| > 0 ==> |r| > 0 && r[0] == s[0]
    ensures forall i, j :: 0 <= i < j < |r| ==> r[i] > r[j]
  {
    if |s| <= 1 then s
    else if s[0] == s[1] then UniqDesc(s[1..])
    else
      assert s == [s[0]] + s[1..];
      [s[0]] + UniqDesc(s[1..])
  }

  /** `removeSelected` corrected: `sorted(set(rows), reverse=True)`, so each
      selected row is removed once. */
  function RemoveSelectedOnce(g: Gui, selectedRows: seq<int>): (r: Result<Gui, RemoveError>)
    requires Aligned(g)
    requires forall i :: 0 <= i < |selectedRows| ==> 0 <= selectedRows[i] < |g.names|
    ensures r.Success? ==> Aligned(r.value)
  {
    PopRows(g, UniqDesc(SortDesc(selectedRows)))
  }

  /** The corrected removal always succeeds and removes exactly the
      selected rows, the same rows from both lists and from the table. */
  lemma RemoveSelectedOnceSpec(g: Gui, selectedRows: seq<int>)
    requires Aligned(g)
    requires forall i :: 0 <= i < |selectedRows| ==> 0 <= selectedRows[i] < |g.names|
    ensures RemoveSelectedOnce(g, selectedRows) == Success(Gui(
      Without(g.names, set x | x in selectedRows),
      Without(g.images, set x | x in selectedRows),
      Without(g.copies, set x | x in selectedRows)))
  {
    var sorted := SortDesc(selectedRows);
    SortDescMembers(selectedRows);
    var rows := UniqDesc(sorted);
    assert (set x | x in rows) == (set x | x in selectedRows);
    forall i | 0 <= i < |rows|
      ensures 0 <= rows[i] < |g.names|
    {
      assert rows[i] in selectedRows;
    }
    PopRowsDescending(g, rows);
  }
}
