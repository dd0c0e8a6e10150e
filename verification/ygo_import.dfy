/** Importing a YGOPro deck into the card list: the download pass that maps
    each card id to a picture file, and the merge of the downloaded counts
    into the table. */
module YgoImport {
  import opened Wrappers
  import opened YgoParser
  import opened CardTable

  /** `d[k] = v` on an insertion-ordered dict: overwrites in place, or
      appends. */
  function Put(d: Counts, k: string, v: nat): (r: Counts)
    ensures |r| == |d| || |r| == |d| + 1
  {
    if |d| == 0 then [Entry(k, v)]
    else if d[0].key == k then [Entry(k, v)] + d[1..]
    else [d[0]] + Put(d[1..], k, v)
  }

  /** The key `k` has an entry in `d`. */
  predicate Has(d: Counts, k: string) {
    exists i :: 0 <= i < |d| && d[i].key == k
  }

  lemma {:induction false} PutSpec(d: Counts, k: string, v: nat)
    requires DistinctKeys(d)
    ensures DistinctKeys(Put(d, k, v))
    ensures forall k' :: Has(Put(d, k, v), k') <==> Has(d, k') || k' == k
    ensures forall k' :: Lookup(Put(d, k, v), k') == if k' == k then v else Lookup(d, k')
  {
    var r := Put(d, k, v);
    if |d| == 0 {
      assert r[0].key == k;
    } else {
      HasCons(d, d[0].key);
      assert !Has(d[1..], d[0].key);
      if d[0].key == k {
        assert r[1..] == d[1..];
        forall k'
          ensures Has(r, k') <==> Has(d, k') || k' == k
        {
          HasCons(r, k');
          HasCons(d, k');
        }
      } else {
        var t := Put(d[1..], k, v);
        PutSpec(d[1..], k, v);
        assert r == [d[0]] + t;
        assert r[1..] == t;
        forall k'
          ensures Has(r, k') <==> Has(d, k') || k' == k
        {
          HasCons(r, k');
          HasCons(d, k');
        }
        forall i, j | 0 <= i < j < |r|
          ensures r[i].key != r[j].key
        {
          if i == 0 {
            assert r[j] == t[j - 1];
            assert Has(t, t[j - 1].key);
          } else {
            assert r[i] == t[i - 1] && r[j] == t[j - 1];
          }
        }
      }
    }
  }

  /** The result of the download pass: picture path to copy count, and the
      card ids whose picture could not be had. */
  datatype Downloads = Downloads(path2num: Counts, notFound: seq<string>)

  /** The worker's pass over the deck (the `work` callable): `fetch` stands
      in for `download_pic_by_id`, which yields the picture's path or
      nothing. Each id found records its count under its path. */
  function Download(card2num: Counts, fetch: string -> Option<string>): Downloads
    decreases |card2num|
  {
    DownloadFrom(Downloads([], []), card2num, fetch)
  }

  function DownloadFrom(acc: Downloads, ids: Counts, fetch: string -> Option<string>): Downloads
    decreases |ids|
  {
    if |ids| == 0 then acc else DownloadFrom(Visit(acc, ids[0], fetch), ids[1..], fetch)
  }

  /** One call of `work`: a card id whose picture is found records its
      count under the picture's path; otherwise the id is noted as not
      found. */
  function Visit(acc: Downloads, e: Entry, fetch: string -> Option<string>): Downloads {
    match fetch(e.key)
    case None => Downloads(acc.path2num, acc.notFound + [e.key])
    case Some(path) => Downloads(Put(acc.path2num, path, e.count), acc.notFound)
  }

  /** `fetch` found the picture for the card id of `e` at `path`. */
  predicate Fetched(e: Entry, fetch: string -> Option<string>, path: string) {
    fetch(e.key) == Some(path)
  }

  /** The ids that found no picture, in deck order. */
  function Missing(ids: Counts, fetch: string -> Option<string>): (r: seq<string>) {
    if |ids| == 0 then []
    else (if fetch(ids[0].key).None? then [ids[0].key] else []) + Missing(ids[1..], fetch)
  }

  /** Paths stay distinct, and a path once recorded stays recorded. */
  lemma {:induction false} DownloadFromKeys(acc: Downloads, ids: Counts, fetch: string -> Option<string>)
    requires DistinctKeys(acc.path2num)
    ensures DistinctKeys(DownloadFrom(acc, ids, fetch).path2num)
    ensures forall p :: Has(acc.path2num, p) ==> Has(DownloadFrom(acc, ids, fetch).path2num, p)
    decreases |ids|
  {
    if |ids| > 0 {
      var e := ids[0];
      if fetch(e.key).Some? {
        PutSpec(acc.path2num, fetch(e.key).value, e.count);
      }
      DownloadFromKeys(Visit(acc, e, fetch), ids[1..], fetch);
    }
  }

  /** The ids not found are appended in deck order. */
  lemma {:induction false} DownloadFromMissing(acc: Downloads, ids: Counts, fetch: string -> Option<string>)
    ensures DownloadFrom(acc, ids, fetch).notFound == acc.notFound + Missing(ids, fetch)
    decreases |ids|
  {
    if |ids| > 0 {
      DownloadFromMissing(Visit(acc, ids[0], fetch), ids[1..], fetch);
      assert acc.notFound + Missing(ids, fetch) == Visit(acc, ids[0], fetch).notFound + Missing(ids[1..], fetch);
    } else {
      assert acc.notFound + [] == acc.notFound;
    }
  }

  /** Every picture found is recorded. */
  lemma {:induction false} DownloadFromFound(acc: Downloads, ids: Counts, fetch: string -> Option<string>)
    requires DistinctKeys(acc.path2num)
    ensures forall i :: 0 <= i < |ids| && fetch(ids[i].key).Some? ==>
      Has(DownloadFrom(acc, ids, fetch).path2num, fetch(ids[i].key).value)
    decreases |ids|
  {
    if |ids| > 0 {
      var e := ids[0];
      var next := Visit(acc, e, fetch);
      var r := DownloadFrom(acc, ids, fetch);
      if fetch(e.key).Some? {
        PutSpec(acc.path2num, fetch(e.key).value, e.count);
      }
      DownloadFromFound(next, ids[1..], fetch);
      DownloadFromKeys(next, ids[1..], fetch);
      forall i | 0 <= i < |ids| && fetch(ids[i].key).Some?
        ensures Has(r.path2num, fetch(ids[i].key).value)
      {
        if i > 0 {
          assert ids[1..][i - 1] == ids[i];
        }
      }
    }
  }

  /** The count under `p` after the pass over `ids`: the one it had before
      when no id fetches `p`, otherwise the count of an id that does. */
  ghost predicate Sourced(r: Counts, acc: Counts, ids: Counts, fetch: string -> Option<string>, p: string) {
    (Has(acc, p) && Lookup(r, p) == Lookup(acc, p) && forall i :: 0 <= i < |ids| ==> !Fetched(ids[i], fetch, p)) ||
    (exists i :: 0 <= i < |ids| && Fetched(ids[i], fetch, p) && Lookup(r, p) == ids[i].count)
  }

  /** Every recorded path carries the count of an id that fetched it. */
  lemma {:induction false} DownloadFromSourced(acc: Downloads, ids: Counts, fetch: string -> Option<string>, p: string)
    requires DistinctKeys(acc.path2num)
    requires Has(DownloadFrom(acc, ids, fetch).path2num, p)
    ensures Sourced(DownloadFrom(acc, ids, fetch).path2num, acc.path2num, ids, fetch, p)
    decreases |ids|
  {
    if |ids| > 0 {
      var e := ids[0];
      var next := Visit(acc, e, fetch);
      var r := DownloadFrom(acc, ids, fetch).path2num;
      if fetch(e.key).Some? {
        PutSpec(acc.path2num, fetch(e.key).value, e.count);
      }
      DownloadFromSourced(next, ids[1..], fetch, p);
      SourcedCons(r, acc.path2num, next.path2num, ids, fetch, p);
    }
  }

  /** Sourcing through the first id and then the rest is sourcing through
      all of them. */
  lemma SourcedCons(r: Counts, acc: Counts, next: Counts, ids: Counts, fetch: string -> Option<string>, p: string)
    requires |ids| > 0
    requires Sourced(r, next, ids[1..], fetch, p)
    requires forall k :: Has(next, k) <==> Has(acc, k) || Fetched(ids[0], fetch, k)
    requires Fetched(ids[0], fetch, p) ==> Lookup(next, p) == ids[0].count
    requires !Fetched(ids[0], fetch, p) ==> Lookup(next, p) == Lookup(acc, p)
    ensures Sourced(r, acc, ids, fetch, p)
  {
    if exists i :: 0 <= i < |ids[1..]| && Fetched(ids[1..][i], fetch, p) && Lookup(r, p) == ids[1..][i].count {
      var i :| 0 <= i < |ids[1..]| && Fetched(ids[1..][i], fetch, p) && Lookup(r, p) == ids[1..][i].count;
      assert ids[i + 1] == ids[1..][i];
    } else {
      forall i | 1 <= i < |ids|
        ensures !Fetched(ids[i], fetch, p)
      {
        assert ids[1..][i - 1] == ids[i];
      }
    }
  }

  lemma {:induction false} PutLookup(d: Counts, k: string, v: nat, k': string)
    ensures Lookup(Put(d, k, v), k') == if k' == k then v else Lookup(d, k')
  {
    if |d| > 0 && d[0].key != k {
      PutLookup(d[1..], k, v, k');
    }
  }

  /** The download pass over a whole deck: each path once, every picture
      found recorded with the count of an id that fetched it, and the ids
      not found listed in deck order. */
  lemma DownloadSpec(card2num: Counts, fetch: string -> Option<string>)
    ensures var r := Download(card2num, fetch);
      DistinctKeys(r.path2num) &&
      r.notFound == Missing(card2num, fetch) &&
      (forall i :: 0 <= i < |card2num| && fetch(card2num[i].key).Some? ==> Has(r.path2num, fetch(card2num[i].key).value)) &&
      (forall p :: Has(r.path2num, p) ==>
        (exists i :: 0 <= i < |card2num| && Fetched(card2num[i], fetch, p) && Lookup(r.path2num, p) == card2num[i].count))
  {
    var acc := Downloads([], []);
    DownloadFromKeys(acc, card2num, fetch);
    DownloadFromMissing(acc, card2num, fetch);
    DownloadFromFound(acc, card2num, fetch);
    forall p | Has(Download(card2num, fetch).path2num, p)
      ensures exists i ::
        0 <= i < |card2num| && Fetched(card2num[i], fetch, p) && Lookup(Download(card2num, fetch).path2num, p) == card2num[i].count
    {
      DownloadFromSourced(acc, card2num, fetch, p);
    }
  }

  /** The count already in an existing row: `int(text)` when that is a
      non-negative int, otherwise 0. */
  function Base(c: CopyCell): nat {
    if c.Some? && c.value >= 0 then c.value else 0
  }

  /** The copy cell of an existing row named `name` once the downloads are
      merged: the old count (or 0) plus the download when the name was
      downloaded, the untouched cell otherwise. */
  function Bumped(c: CopyCell, pending: Counts, name: string): CopyCell {
    if Has(pending, name) then Some(Base(c) + Lookup(pending, name)) else c
  }

  /** `path2num.pop(name)`. */
  function Drop(d: Counts, k: string): (r: Counts)
    ensures |r| <= |d|
  {
    if |d| == 0 then []
    else (if d[0].key == k then [] else [d[0]]) + Drop(d[1..], k)
  }

  /** The entries whose key is none of `ks`, in order. */
  function Unlisted(d: Counts, ks: seq<string>): (r: Counts) {
    if |d| == 0 then []
    else (if d[0].key in ks then [] else [d[0]]) + Unlisted(d[1..], ks)
  }

  lemma {:induction false} DropUnlisted(d: Counts, ks: seq<string>, k: string)
    ensures Drop(Unlisted(d, ks), k) == Unlisted(d, ks + [k])
  {
    if |d| > 0 {
      DropUnlisted(d[1..], ks, k);
      var u := Unlisted(d, ks);
      if d[0].key in ks {
        assert u == Unlisted(d[1..], ks);
      } else {
        assert u == [d[0]] + Unlisted(d[1..], ks);
        assert u[1..] == Unlisted(d[1..], ks);
      }
    }
  }

  lemma {:induction false} UnlistedLookup(d: Counts, ks: seq<string>, k: string)
    ensures Lookup(Unlisted(d, ks), k) == if k in ks then 0 else Lookup(d, k)
    ensures Has(Unlisted(d, ks), k) <==> Has(d, k) && k !in ks
  {
    if |d| > 0 {
      UnlistedLookup(d[1..], ks, k);
      var u := Unlisted(d, ks);
      var t := Unlisted(d[1..], ks);
      assert u == (if d[0].key in ks then [] else [d[0]]) + t;
      HasCons(d, k);
      if d[0].key !in ks {
        assert u[0] == d[0] && u[1..] == t;
        HasCons(u, k);
        assert Lookup(u, k) == if d[0].key == k then d[0].count else Lookup(t, k);
      } else {
        assert u == t;
      }
    }
  }

  lemma HasCons(d: Counts, k: string)
    requires |d| > 0
    ensures Has(d, k) <==> d[0].key == k || Has(d[1..], k)
  {
    if Has(d, k) && d[0].key != k {
      var i :| 0 <= i < |d| && d[i].key == k;
      assert d[1..][i - 1].key == k;
    }
    if Has(d[1..], k) {
      var i :| 0 <= i < |d[1..]| && d[1..][i].key == k;
      assert d[i + 1].key == k;
    }
  }

  lemma {:induction false} UnlistedDistinct(d: Counts, ks: seq<string>)
    requires DistinctKeys(d)
    ensures DistinctKeys(Unlisted(d, ks))
  {
    if |d| > 0 {
      UnlistedDistinct(d[1..], ks);
      var t := Unlisted(d[1..], ks);
      if d[0].key !in ks {
        assert Unlisted(d, ks) == [d[0]] + t;
        DistinctTail(d);
        KeysHas(d[1..]);
        UnlistedLookup(d[1..], ks, d[0].key);
        KeysHas(t);
        DistinctCons(d[0], t);
      }
    }
  }

  /** The state of the import's loop over the rows already listed, which
      adds each downloaded count to the row of the same name: the copy
      column so far and the downloaded pictures still pending. */
  datatype Merged = Merged(copies: seq<CopyCell>, pending: Counts)

  /** Rows `i..` of the loop: a row whose name is pending gets its old
      count (or 0) plus the pending count, and the name leaves the
      pending map. */
  function MergeFrom(names: seq<string>, copies: seq<CopyCell>, pending: Counts, i: nat): (r: Merged)
    requires i <= |names| == |copies|
    ensures |r.copies| == |copies|
    decreases |names| - i
  {
    if i == |names| then Merged(copies, pending)
    else if Has(pending, names[i]) then
      MergeFrom(names, copies[i := Some(Base(copies[i]) + Lookup(pending, names[i]))],
                Drop(pending, names[i]), i + 1)
    else MergeFrom(names, copies, pending, i + 1)
  }

  /** What the loop over existing rows leaves behind, stated row by row. */
  ghost predicate MergedRows(names: seq<string>, old0: seq<CopyCell>, p0: Counts, copies: seq<CopyCell>, i: nat)
    requires i <= |names| == |old0| == |copies|
  {
    (forall j :: 0 <= j < i ==>
      copies[j] == Bumped(old0[j], p0, names[j])) &&
    (forall j :: i <= j < |names| ==> copies[j] == old0[j])
  }

  lemma {:induction false} MergeFromSpec(names: seq<string>, old0: seq<CopyCell>, p0: Counts, copies: seq<CopyCell>, i: nat)
    requires i <= |names| == |old0| == |copies|
    requires Distinct(names)
    requires MergedRows(names, old0, p0, copies, i)
    ensures MergedRows(names, old0, p0, MergeFrom(names, copies, Unlisted(p0, names[..i]), i).copies, |names|)
    ensures MergeFrom(names, copies, Unlisted(p0, names[..i]), i).pending == Unlisted(p0, names)
    decreases |names| - i
  {
    if i == |names| {
      assert names[..i] == names;
    } else {
      MergeFromStep(names, old0, p0, copies, i);
      var pending := Unlisted(p0, names[..i]);
      MergeFromSpec(names, old0, p0, copies[i := Bumped(copies[i], pending, names[i])], i + 1);
    }
  }

  /** One row of the loop over existing rows. */
  lemma MergeFromStep(names: seq<string>, old0: seq<CopyCell>, p0: Counts, copies: seq<CopyCell>, i: nat)
    requires i < |names| == |old0| == |copies|
    requires Distinct(names)
    requires MergedRows(names, old0, p0, copies, i)
    ensures var pending := Unlisted(p0, names[..i]);
      var next := copies[i := Bumped(copies[i], pending, names[i])];
      MergedRows(names, old0, p0, next, i + 1) &&
      MergeFrom(names, copies, pending, i) == MergeFrom(names, next, Unlisted(p0, names[..i + 1]), i + 1)
  {
    var pending := Unlisted(p0, names[..i]);
    var n := names[i];
    assert n !in names[..i];
    UnlistedLookup(p0, names[..i], n);
    assert names[..i + 1] == names[..i] + [n];
    assert copies[i] == old0[i];
    if Has(pending, n) {
      MergedRowsNext(names, old0, p0, copies, i, Some(Base(copies[i]) + Lookup(pending, n)));
      DropUnlisted(p0, names[..i], n);
    } else {
      MergedRowsNext(names, old0, p0, copies, i, copies[i]);
      assert copies[i := copies[i]] == copies;
      UnlistedSkip(p0, names[..i], n);
    }
  }

  lemma MergedRowsNext(names: seq<string>, old0: seq<CopyCell>, p0: Counts, copies: seq<CopyCell>, i: nat, c: CopyCell)
    requires i < |names| == |old0| == |copies|
    requires MergedRows(names, old0, p0, copies, i)
    requires c == Bumped(old0[i], p0, names[i])
    ensures MergedRows(names, old0, p0, copies[i := c], i + 1)
  {
  }

  /** Listing a key that has no entry changes nothing. */
  lemma {:induction false} UnlistedSkip(d: Counts, ks: seq<string>, k: string)
    requires !Has(Unlisted(d, ks), k)
    ensures Unlisted(d, ks + [k]) == Unlisted(d, ks)
  {
    if |d| > 0 {
      var t := Unlisted(d[1..], ks);
      UnlistedLookup(d[1..], ks, k);
      UnlistedLookup(d, ks, k);
      HasCons(d, k);
      UnlistedSkip(d[1..], ks, k);
    }
  }

  /** The loop over the existing rows: each listed name that was
      downloaded has the download added to its count and leaves the
      pending map; all other rows keep their count. */
  lemma MergeExistingSpec(names: seq<string>, copies: seq<CopyCell>, pending: Counts)
    requires |names| == |copies| && Distinct(names)
    ensures var m := MergeFrom(names, copies, pending, 0);
      m.pending == Unlisted(pending, names) &&
      forall j :: 0 <= j < |names| ==>
        m.copies[j] == Bumped(copies[j], pending, names[j])
  {
    assert names[..0] == [];
    UnlistedNone(pending);
    MergeFromSpec(names, copies, pending, copies, 0);
  }

  lemma {:induction false} UnlistedNone(d: Counts)
    ensures Unlisted(d, []) == d
  {
    if |d| > 0 {
      UnlistedNone(d[1..]);
    }
  }

  /** The outcome of an import: the new list state and whether the "Some
      images could not be loaded" message was shown. */
  datatype Imported = Imported(gui: Gui, warned: bool)

  /** The import's table update as written, after merging into the rows
      already listed: once the pending pictures are added, row `old_len + it` gets the count of the
      `it`-th pending key, whether or not every picture loaded; the table
      ignores rows past its end. */
  function MergeCounts(g: Gui, path2num: Counts, loads: string -> bool): (r: Imported)
    requires Aligned(g)
    ensures Aligned(r.gui)
  {
    var m := MergeFrom(g.names, g.copies, path2num, 0);
    var oldLen := |g.names|;
    var keys := Keys(m.pending);
    var added := AddImgsToTable(Gui(g.names, g.images, m.copies), keys, loads);
    var copies := m.copies + PositionCounts(m.pending, keys, |added.gui.names| - oldLen);
    Imported(Gui(added.gui.names, added.gui.images, copies), added.warned)
  }

  /** The copy cells of `n` new rows when the `it`-th row takes the count of
      the `it`-th pending key; a row with no key keeps the 1 it was added
      with. */
  function PositionCounts(pending: Counts, keys: seq<string>, n: nat): (r: seq<CopyCell>)
    ensures |r| == n
  {
    seq(n, it requires 0 <= it < n => if it < |keys| then Some(Lookup(pending, keys[it])) else Some(1))
  }

  /** An empty table importing `a` twice and `b` three times, where the
      picture of `a` does not load: the row of `b` gets `a`'s count. */
  lemma MergeCountsShiftsCounts(a: string, b: string, loads: string -> bool)
    requires a != b && !loads(a) && loads(b)
    ensures MergeCounts(Gui([], [], []), [Entry(a, 2), Entry(b, 3)], loads).gui
      == Gui([b], [Pixmap(b)], [Some(2)])
  {
    PendingAB(a, b);
    MergeCountsAB(a, b, loads);
  }

  /** The as-written update on the example, before the cells are evaluated. */
  lemma MergeCountsAB(a: string, b: string, loads: string -> bool)
    requires a != b && !loads(a) && loads(b)
    ensures var p := [Entry(a, 2), Entry(b, 3)];
      MergeCounts(Gui([], [], []), p, loads) == Imported(Gui([b], [Pixmap(b)], [] + PositionCounts(p, [a, b], 1)), true)
  {
    PendingAB(a, b);
    AddOnlyB(a, b, loads);
  }

  /** The pending map of the example, with no existing rows to merge into. */
  lemma PendingAB(a: string, b: string)
    requires a != b
    ensures var p := [Entry(a, 2), Entry(b, 3)];
      MergeFrom([], [], p, 0) == Merged([], p) && Keys(p) == [a, b] &&
      PositionCounts(p, [a, b], 1) == [Some(2)] && OwnCounts(p, [b]) == [Some(3)]
  {
    var p := [Entry(a, 2), Entry(b, 3)];
    assert Lookup(p, a) == 2;
    assert p[1..] == [Entry(b, 3)];
    assert Lookup(p, b) == 3;
  }

  /** Of `a` and `b` only `b` loads: one row is added and the warning shows. */
  lemma AddOnlyB(a: string, b: string, loads: string -> bool)
    requires !loads(a) && loads(b)
    ensures AddImgsToTable(Gui([], [], []), [a, b], loads) == Added(Gui([b], [Pixmap(b)], [Some(1)]), true)
  {
    assert Filter([a, b], loads) == [b] by {
      assert [a, b][1..] == [b];
      assert Filter([b], loads) == [b];
    }
    assert LoadAll([a, b], loads) == [Pixmap(b)];
    assert Ones(1) == [Some(1)];
  }

  /** The table update corrected: each new row gets the count of its own
      name. */
  function MergeCountsByName(g: Gui, path2num: Counts, loads: string -> bool): (r: Imported)
    requires Aligned(g)
    ensures Aligned(r.gui)
  {
    var m := MergeFrom(g.names, g.copies, path2num, 0);
    var oldLen := |g.names|;
    var added := AddImgsToTable(Gui(g.names, g.images, m.copies), Keys(m.pending), loads);
    var names := added.gui.names;
    Imported(Gui(names, added.gui.images, m.copies + OwnCounts(m.pending, names[oldLen..])), added.warned)
  }

  lemma OwnCountsAt(pre: seq<CopyCell>, pending: Counts, names: seq<string>, j: int)
    requires |pre| <= j < |pre| + |names|
    ensures (pre + OwnCounts(pending, names))[j] == Some(Lookup(pending, names[j - |pre|]))
  {
  }

  /** The copy cells of new rows named `names`, each with its own count. */
  function OwnCounts(pending: Counts, names: seq<string>): (r: seq<CopyCell>)
    ensures |r| == |names|
  {
    seq(|names|, j requires 0 <= j < |names| => Some(Lookup(pending, names[j])))
  }

  /** On the same import the corrected update gives `b` its own count. */
  lemma MergeCountsByNameKeepsCounts(a: string, b: string, loads: string -> bool)
    requires a != b && !loads(a) && loads(b)
    ensures MergeCountsByName(Gui([], [], []), [Entry(a, 2), Entry(b, 3)], loads).gui
      == Gui([b], [Pixmap(b)], [Some(3)])
  {
    PendingAB(a, b);
    MergeCountsByNameAB(a, b, loads);
  }

  /** The corrected update on the example, before the cells are evaluated. */
  lemma MergeCountsByNameAB(a: string, b: string, loads: string -> bool)
    requires a != b && !loads(a) && loads(b)
    ensures var p := [Entry(a, 2), Entry(b, 3)];
      MergeCountsByName(Gui([], [], []), p, loads) == Imported(Gui([b], [Pixmap(b)], [] + OwnCounts(p, [b])), true)
  {
    PendingAB(a, b);
    AddOnlyB(a, b, loads);
    assert [b][0..] == [b];
  }

  /** When every pending picture loads, the update as written and the
      corrected one agree: the shift needs a picture that fails to load. */
  lemma MergeCountsAgreeWhenAllLoad(g: Gui, path2num: Counts, loads: string -> bool)
    requires Aligned(g)
    requires forall k :: Has(path2num, k) ==> loads(k)
    ensures MergeCounts(g, path2num, loads) == MergeCountsByName(g, path2num, loads)
  {
    var m := MergeFrom(g.names, g.copies, path2num, 0);
    var keys := Keys(m.pending);
    forall k | k in keys
      ensures loads(k)
    {
      KeysHas(m.pending);
      MergeExistingPending(g.names, g.copies, path2num, 0, k);
    }
    FilterAll(keys, loads);
    var added := AddImgsToTable(Gui(g.names, g.images, m.copies), keys, loads);
    assert added.gui.names == g.names + keys;
    assert added.gui.names[|g.names|..] == keys;
    PositionIsOwn(m.pending, keys);
  }

  /** When there is a key for every new row, the two updates give the same
      cells. */
  lemma PositionIsOwn(pending: Counts, keys: seq<string>)
    ensures PositionCounts(pending, keys, |keys|) == OwnCounts(pending, keys)
  {
  }

  /** The pending map only loses entries during the loop. */
  lemma {:induction false} MergeExistingPending(names: seq<string>, copies: seq<CopyCell>, pending: Counts, i: nat, k: string)
    requires i <= |names| == |copies|
    requires Has(MergeFrom(names, copies, pending, i).pending, k)
    ensures Has(pending, k)
    decreases |names| - i
  {
    if i < |names| && Has(pending, names[i]) {
      var copies' := copies[i := Some(Base(copies[i]) + Lookup(pending, names[i]))];
      MergeExistingPending(names, copies', Drop(pending, names[i]), i + 1, k);
      DropHas(pending, names[i], k);
    } else if i < |names| {
      MergeExistingPending(names, copies, pending, i + 1, k);
    }
  }

  lemma {:induction false} DropHas(d: Counts, k: string, k': string)
    requires Has(Drop(d, k), k')
    ensures Has(d, k')
  {
    if |d| > 0 {
      var t := Drop(d[1..], k);
      HasCons(d, k');
      if d[0].key == k {
        assert Drop(d, k) == t;
        DropHas(d[1..], k, k');
      } else {
        assert Drop(d, k) == [d[0]] + t;
        HasCons(Drop(d, k), k');
        assert Drop(d, k)[1..] == t;
        if Has(t, k') {
          DropHas(d[1..], k, k');
        }
      }
    }
  }

  /** Filtering by a predicate that holds throughout keeps everything. */
  lemma {:induction false} FilterAll<T>(s: seq<T>, p: T -> bool)
    requires forall x :: x in s ==> p(x)
    ensures Filter(s, p) == s
  {
    if |s| > 0 {
      assert s[0] in s;
      forall x | x in s[1..]
        ensures p(x)
      {
        assert x in s;
      }
      FilterAll(s[1..], p);
      assert s == [s[0]] + s[1..];
    }
  }

  /** `Has` is the witness form of membership among the keys, the form the
      proofs about `Put`, `Drop` and `Unlisted` use; the two agree. */
  lemma KeysHas(d: Counts)
    ensures forall k :: k in Keys(d) <==> Has(d, k)
  {
    forall k
      ensures k in Keys(d) <==> Has(d, k)
    {
      if k in Keys(d) {
        var i :| 0 <= i < |Keys(d)| && Keys(d)[i] == k;
        assert d[i].key == k;
      }
      if Has(d, k) {
        var i :| 0 <= i < |d| && d[i].key == k;
        assert Keys(d)[i] == k;
      }
    }
  }

  lemma KeysDistinct(d: Counts)
    requires DistinctKeys(d)
    ensures Distinct(Keys(d))
  {
  }

  /** The corrected update: existing rows keep their names and gain the
      downloaded count of their name; the new rows are exactly the
      downloaded pictures not listed yet that load, each with its own
      count; names stay distinct. */
  lemma MergeCountsByNameSpec(g: Gui, path2num: Counts, loads: string -> bool)
    requires Aligned(g) && Distinct(g.names) && DistinctKeys(path2num)
    ensures var r := MergeCountsByName(g, path2num, loads).gui;
      |g.names| <= |r.names| && r.names[..|g.names|] == g.names &&
      Distinct(r.names) &&
      (forall j :: 0 <= j < |g.names| ==>
        r.copies[j] == Bumped(g.copies[j], path2num, g.names[j])) &&
      (forall j :: |g.names| <= j < |r.names| ==>
        Has(path2num, r.names[j]) && r.names[j] !in g.names && loads(r.names[j]) &&
        r.copies[j] == Some(Lookup(path2num, r.names[j]))) &&
      (forall k :: Has(path2num, k) && k !in g.names && loads(k) ==> k in r.names[|g.names|..])
  {
    var m := MergeFrom(g.names, g.copies, path2num, 0);
    var r := MergeCountsByName(g, path2num, loads).gui;
    MergeExistingSpec(g.names, g.copies, path2num);
    MergeByNameExisting(g, path2num, loads);
    forall j | 0 <= j < |g.names|
      ensures r.copies[j] == Bumped(g.copies[j], path2num, g.names[j])
    {
      assert r.copies[j] == m.copies[j];
    }
    MergeByNameDistinct(g, path2num, loads);
    MergeByNameNew(g, path2num, loads);
  }

  /** The rows already in the table keep their names and the copy cells
      the pass over existing rows gave them. */
  lemma MergeByNameExisting(g: Gui, path2num: Counts, loads: string -> bool)
    requires Aligned(g)
    ensures var r := MergeCountsByName(g, path2num, loads).gui;
      var m := MergeFrom(g.names, g.copies, path2num, 0);
      |g.names| <= |r.names| && r.names[..|g.names|] == g.names &&
      forall j :: 0 <= j < |g.names| ==> r.copies[j] == m.copies[j]
  {
    var m := MergeFrom(g.names, g.copies, path2num, 0);
    var added := AddImgsToTable(Gui(g.names, g.images, m.copies), Keys(m.pending), loads);
    var r := MergeCountsByName(g, path2num, loads).gui;
    assert r.names == added.gui.names;
    assert |m.copies| == |g.names|;
    assert r.copies == m.copies + OwnCounts(m.pending, r.names[|g.names|..]);
  }

  lemma MergeByNameDistinct(g: Gui, path2num: Counts, loads: string -> bool)
    requires Aligned(g) && Distinct(g.names) && DistinctKeys(path2num)
    ensures Distinct(MergeCountsByName(g, path2num, loads).gui.names)
  {
    var m := MergeFrom(g.names, g.copies, path2num, 0);
    MergeExistingSpec(g.names, g.copies, path2num);
    var keys := Keys(m.pending);
    KeysHas(m.pending);
    UnlistedDistinct(path2num, g.names);
    KeysDistinct(m.pending);
    var g1 := Gui(g.names, g.images, m.copies);
    forall x | x in keys
      ensures x !in g1.names
    {
      UnlistedLookup(path2num, g.names, x);
    }
    AddKeepsDistinct(g1, keys, loads);
  }

  lemma MergeByNameNew(g: Gui, path2num: Counts, loads: string -> bool)
    requires Aligned(g) && Distinct(g.names)
    ensures var r := MergeCountsByName(g, path2num, loads).gui;
      |g.names| <= |r.names| &&
      (forall j :: |g.names| <= j < |r.names| ==>
        Has(path2num, r.names[j]) && r.names[j] !in g.names && loads(r.names[j]) &&
        r.copies[j] == Some(Lookup(path2num, r.names[j]))) &&
      (forall k :: Has(path2num, k) && k !in g.names && loads(k) ==> k in r.names[|g.names|..])
  {
    var m := MergeFrom(g.names, g.copies, path2num, 0);
    MergeExistingSpec(g.names, g.copies, path2num);
    var keys := Keys(m.pending);
    KeysHas(m.pending);
    var added := AddImgsToTable(Gui(g.names, g.images, m.copies), keys, loads);
    var r := MergeCountsByName(g, path2num, loads).gui;
    assert r.names == added.gui.names;
    forall j | |g.names| <= j < |r.names|
      ensures Has(path2num, r.names[j]) && r.names[j] !in g.names && loads(r.names[j])
      ensures r.copies[j] == Some(Lookup(path2num, r.names[j]))
    {
      var x := r.names[j];
      var tail := r.names[|g.names|..];
      assert tail[j - |g.names|] == x;
      assert x in keys && loads(x);
      assert Has(m.pending, x);
      UnlistedLookup(path2num, g.names, x);
      assert r.copies == m.copies + OwnCounts(m.pending, tail);
      OwnCountsAt(m.copies, m.pending, tail, j);
    }
    forall k | Has(path2num, k) && k !in g.names && loads(k)
      ensures k in r.names[|g.names|..]
    {
      UnlistedLookup(path2num, g.names, k);
    }
  }

  /** Importing a deck file end to end, with the corrected update: read the
      lines, count the ids, fetch the pictures, merge. */
  function ImportDeck(g: Gui, text: string, fetch: string -> Option<string>, loads: string -> bool): (r: Imported)
    requires Aligned(g)
    ensures Aligned(r.gui)
  {
    var card2num := ParseDeck(SplitLines(text));
    MergeCountsByName(g, Download(card2num, fetch).path2num, loads)
  }

  /** The same import with the table update as written. */
  function ImportDeckAsWritten(g: Gui, text: string, fetch: string -> Option<string>, loads: string -> bool): (r: Imported)
    requires Aligned(g)
    ensures Aligned(r.gui)
  {
    var card2num := ParseDeck(SplitLines(text));
    MergeCounts(g, Download(card2num, fetch).path2num, loads)
  }

  /** An import keeps the list free of repeated names, as written and
      corrected alike: the two differ in the copy counts only. */
  lemma ImportKeepsDistinct(g: Gui, text: string, fetch: string -> Option<string>, loads: string -> bool)
    requires Aligned(g) && Distinct(g.names)
    ensures Distinct(ImportDeck(g, text, fetch, loads).gui.names)
    ensures Distinct(ImportDeckAsWritten(g, text, fetch, loads).gui.names)
    ensures var (w, c) := (ImportDeckAsWritten(g, text, fetch, loads), ImportDeck(g, text, fetch, loads));
      w.gui.names == c.gui.names && w.gui.images == c.gui.images && w.warned == c.warned
  {
    var card2num := ParseDeck(SplitLines(text));
    DownloadSpec(card2num, fetch);
    MergeCountsByNameSpec(g, Download(card2num, fetch).path2num, loads);
  }
}
