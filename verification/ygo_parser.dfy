/** The YGOPro deck-file parser and the download worker's progress formula. */
module YgoParser {

  /** How Python iterates over a file opened in text mode: newlines are
      translated first (`Universal`), then each line keeps its `'\n'`
      terminator, except a last line the file does not terminate. */
  function SplitLines(text: string): (lines: seq<string>) {
    SplitFrom(Universal(text), "")
  }

  /** Universal newlines, the default of Python's `open` in text mode:
      `"\r\n"` and a lone `'\r'` both read as `'\n'`. */
  function Universal(text: string): (r: string)
    ensures |r| <= |text|
    ensures |r| == 0 <==> |text| == 0
    ensures forall i :: 0 <= i < |r| ==> r[i] != '\r'
    decreases |text|
  {
    if |text| == 0 then ""
    else if text[0] == '\r' then
      "\n" + Universal(if |text| > 1 && text[1] == '\n' then text[2..] else text[1..])
    else [text[0]] + Universal(text[1..])
  }

  predicate NoCr(text: string) {
    forall i :: 0 <= i < |text| ==> text[i] != '\r'
  }

  /** A file written with Windows line ends. */
  function ToCrLf(text: string): string {
    if |text| == 0 then ""
    else (if text[0] == '\n' then "\r\n" else [text[0]]) + ToCrLf(text[1..])
  }

  /** A file written with classic Mac OS line ends. */
  function ToCr(text: string): (r: string)
    ensures forall i :: 0 <= i < |r| ==> r[i] != '\n'
  {
    if |text| == 0 then ""
    else (if text[0] == '\n' then "\r" else [text[0]]) + ToCr(text[1..])
  }

  /** Text without carriage returns reads unchanged. */
  lemma {:induction false} UniversalPlain(text: string)
    requires NoCr(text)
    ensures Universal(text) == text
    decreases |text|
  {
    if |text| > 0 {
      UniversalPlain(text[1..]);
      assert text == [text[0]] + text[1..];
    }
  }

  /** Windows line ends read back as the original text. */
  lemma {:induction false} UniversalCrLf(text: string)
    requires NoCr(text)
    ensures Universal(ToCrLf(text)) == text
    decreases |text|
  {
    if |text| > 0 {
      var u := ToCrLf(text);
      UniversalCrLf(text[1..]);
      if text[0] == '\n' {
        assert u == "\r\n" + ToCrLf(text[1..]);
        assert u[2..] == ToCrLf(text[1..]);
      } else {
        assert u == [text[0]] + ToCrLf(text[1..]);
        assert u[1..] == ToCrLf(text[1..]);
      }
      assert text == [text[0]] + text[1..];
    }
  }

  /** Classic Mac OS line ends read back as the original text. */
  lemma {:induction false} UniversalCr(text: string)
    requires NoCr(text)
    ensures Universal(ToCr(text)) == text
    decreases |text|
  {
    if |text| > 0 {
      var u := ToCr(text);
      UniversalCr(text[1..]);
      if text[0] == '\n' {
        assert u == "\r" + ToCr(text[1..]);
        assert u[1..] == ToCr(text[1..]);
      } else {
        assert u == [text[0]] + ToCr(text[1..]);
        assert u[1..] == ToCr(text[1..]);
      }
      assert text == [text[0]] + text[1..];
    }
  }

  /** A deck file gives the same lines, hence the same deck, whichever
      line ends it was written with. */
  lemma LineEndsIrrelevant(text: string)
    requires NoCr(text)
    ensures SplitLines(ToCrLf(text)) == SplitLines(text)
    ensures SplitLines(ToCr(text)) == SplitLines(text)
    ensures ParseDeck(SplitLines(ToCrLf(text))) == ParseDeck(SplitLines(text))
  {
    UniversalPlain(text);
    UniversalCrLf(text);
    UniversalCr(text);
  }

  /** Splitting the rest of the text while `cur` holds the unterminated
      part of the current line. */
  function SplitFrom(text: string, cur: string): (lines: seq<string>)
    decreases |text|
  {
    if |text| == 0 then (if cur == "" then [] else [cur])
    else if text[0] == '\n' then [cur + "\n"] + SplitFrom(text[1..], "")
    else SplitFrom(text[1..], cur + [text[0]])
  }

  function Concat(lines: seq<string>): string {
    if |lines| == 0 then "" else lines[0] + Concat(lines[1..])
  }

  /** A well-formed line sequence: no empty line, and every line but the
      last ends with its terminator and holds no other newline. */
  predicate LineShaped(lines: seq<string>) {
    forall i :: 0 <= i < |lines| ==>
      |lines[i]| > 0 &&
      (forall j :: 0 <= j < |lines[i]| - 1 ==> lines[i][j] != '\n') &&
      (i < |lines| - 1 ==> lines[i][|lines[i]| - 1] == '\n')
  }

  /** Splitting loses nothing and yields line-shaped pieces. */
  lemma {:induction false} SplitFromSpec(text: string, cur: string)
    requires forall j :: 0 <= j < |cur| ==> cur[j] != '\n'
    ensures Concat(SplitFrom(text, cur)) == cur + text
    ensures LineShaped(SplitFrom(text, cur))
    ensures |SplitFrom(text, cur)| == 0 <==> cur + text == ""
    decreases |text|
  {
    var lines := SplitFrom(text, cur);
    if |text| == 0 {
      if cur != "" {
        assert lines == [cur];
        assert Concat(lines) == cur + Concat([]);
      }
    } else if text[0] == '\n' {
      var rest := SplitFrom(text[1..], "");
      SplitFromSpec(text[1..], "");
      assert lines == [cur + "\n"] + rest;
      assert lines[1..] == rest;
      assert cur + text == (cur + "\n") + text[1..];
      forall i | 0 <= i < |lines|
        ensures |lines[i]| > 0
        ensures forall j :: 0 <= j < |lines[i]| - 1 ==> lines[i][j] != '\n'
        ensures i < |lines| - 1 ==> lines[i][|lines[i]| - 1] == '\n'
      {
        if i > 0 {
          assert lines[i] == rest[i - 1];
        }
      }
    } else {
      var cur' := cur + [text[0]];
      SplitFromSpec(text[1..], cur');
      assert cur + text == cur' + text[1..];
    }
  }

  /** Reading a file and concatenating its lines gives back its text with
      newlines translated; a file without carriage returns comes back
      whole. */
  lemma SplitLinesSpec(text: string)
    ensures Concat(SplitLines(text)) == Universal(text)
    ensures NoCr(text) ==> Concat(SplitLines(text)) == text
    ensures LineShaped(SplitLines(text))
    ensures |SplitLines(text)| == 0 <==> text == ""
  {
    var u := Universal(text);
    SplitFromSpec(u, "");
    assert "" + u == u;
    if NoCr(text) {
      UniversalPlain(text);
    }
  }

  /** Lines starting with `#` (section headers) or `!` (side deck marker). */
  predicate IsComment(line: string) {
    |line| > 0 && (line[0] == '#' || line[0] == '!')
  }

  /** Python's `line[:-1]`: the line without its last character. */
  function Key(line: string): (k: string)
    ensures |line| > 0 ==> line == k + [line[|line| - 1]]
    ensures |line| == 0 ==> k == ""
  {
    if |line| == 0 then "" else line[..|line| - 1]
  }

  /** A terminated line keys on its text; an unterminated one loses its
      last character, and a bare newline keys on the empty string. */
  lemma KeyOfLine(s: string, c: char)
    ensures Key(s + "\n") == s
    ensures Key(s + [c]) == s
    ensures Key("\n") == ""
  {
    assert (s + "\n")[..|s|] == s;
    assert (s + [c])[..|s|] == s;
  }

  /** One entry of the insertion-ordered count dictionary. */
  datatype Entry = Entry(key: string, count: nat)

  /** A Python `defaultdict(int)`: insertion-ordered, one entry per key. */
  type Counts = seq<Entry>

  function Keys(d: Counts): (ks: seq<string>)
    ensures |ks| == |d|
    ensures forall i :: 0 <= i < |d| ==> ks[i] == d[i].key
  {
    if |d| == 0 then [] else [d[0].key] + Keys(d[1..])
  }

  predicate DistinctKeys(d: Counts) {
    forall i, j :: 0 <= i < j < |d| ==> d[i].key != d[j].key
  }

  /** Reading a key; a missing key reads as 0, as in a `defaultdict(int)`. */
  function Lookup(d: Counts, k: string): nat {
    if |d| == 0 then 0
    else if d[0].key == k then d[0].count
    else Lookup(d[1..], k)
  }

  function Total(d: Counts): nat {
    if |d| == 0 then 0 else d[0].count + Total(d[1..])
  }

  /** `cards[k] += 1`: bumps the entry of `k`, or appends a new one. */
  function Bump(d: Counts, k: string): (r: Counts)
    ensures |r| == |d| || |r| == |d| + 1
  {
    if |d| == 0 then [Entry(k, 1)]
    else if d[0].key == k then [Entry(k, d[0].count + 1)] + d[1..]
    else [d[0]] + Bump(d[1..], k)
  }

  /** The effect of one line of the file on the counts. */
  function Step(d: Counts, line: string): Counts {
    if IsComment(line) then d else Bump(d, Key(line))
  }

  /** Feeding lines one by one, front to back. */
  function Feed(d: Counts, lines: seq<string>): Counts
    decreases |lines|
  {
    if |lines| == 0 then d else Feed(Step(d, lines[0]), lines[1..])
  }

  /** `parse_ygo_deck`: card id to number of copies. */
  function ParseDeck(lines: seq<string>): Counts {
    Feed([], lines)
  }

  /** The lines that are not comments, in file order. */
  function Kept(lines: seq<string>): (r: seq<string>)
    ensures |r| <= |lines|
  {
    if |lines| == 0 then []
    else (if IsComment(lines[0]) then [] else [lines[0]]) + Kept(lines[1..])
  }

  /** How many non-comment lines key on `k`. */
  function Occurrences(lines: seq<string>, k: string): nat {
    if |lines| == 0 then 0
    else (if !IsComment(lines[0]) && Key(lines[0]) == k then 1 else 0) + Occurrences(lines[1..], k)
  }

  lemma {:induction false} BumpLookup(d: Counts, k: string, k': string)
    ensures Lookup(Bump(d, k), k') == Lookup(d, k') + (if k == k' then 1 else 0)
  {
    if |d| > 0 && d[0].key != k {
      BumpLookup(d[1..], k, k');
      assert Bump(d, k)[1..] == Bump(d[1..], k);
    }
  }

  lemma {:induction false} BumpTotal(d: Counts, k: string)
    ensures Total(Bump(d, k)) == Total(d) + 1
  {
    if |d| > 0 && d[0].key != k {
      BumpTotal(d[1..], k);
      assert Bump(d, k)[1..] == Bump(d[1..], k);
    } else if |d| > 0 {
      assert Bump(d, k)[1..] == d[1..];
    }
  }

  /** Bumping keeps the old keys in place and appends `k` only if new. */
  lemma {:induction false} BumpKeys(d: Counts, k: string)
    ensures Keys(Bump(d, k)) == if k in Keys(d) then Keys(d) else Keys(d) + [k]
  {
    var r := Bump(d, k);
    if |d| > 0 {
      assert Keys(d) == [d[0].key] + Keys(d[1..]);
      if d[0].key == k {
        assert Keys(r) == Keys(d);
      } else {
        var t := Bump(d[1..], k);
        BumpKeys(d[1..], k);
        assert r == [d[0]] + t && r[1..] == t;
        assert Keys(r) == [d[0].key] + Keys(t);
      }
    }
  }

  /** Bumping keeps keys distinct and counts positive. */
  lemma {:induction false} BumpShape(d: Counts, k: string)
    requires DistinctKeys(d)
    requires forall i :: 0 <= i < |d| ==> d[i].count >= 1
    ensures DistinctKeys(Bump(d, k))
    ensures forall i :: 0 <= i < |Bump(d, k)| ==> Bump(d, k)[i].count >= 1
  {
    var r := Bump(d, k);
    if |d| > 0 && d[0].key != k {
      var t := Bump(d[1..], k);
      BumpShape(d[1..], k);
      BumpKeys(d[1..], k);
      DistinctTail(d);
      assert r == [d[0]] + t && r[1..] == t;
      DistinctCons(d[0], t);
    } else if |d| > 0 {
      assert Keys(r) == Keys(d);
    }
  }

  /** A distinct dict stays distinct without its first entry, whose key
      the rest does not hold. */
  lemma DistinctTail(d: Counts)
    requires |d| > 0 && DistinctKeys(d)
    ensures DistinctKeys(d[1..]) && d[0].key !in Keys(d[1..])
  {
  }

  /** Putting an entry with a new key in front keeps keys distinct. */
  lemma DistinctCons(e: Entry, t: Counts)
    requires DistinctKeys(t) && e.key !in Keys(t)
    ensures DistinctKeys([e] + t)
  {
    var r := [e] + t;
    forall i, j | 0 <= i < j < |r|
      ensures r[i].key != r[j].key
    {
      assert r[j] == t[j - 1];
      if i == 0 {
        assert Keys(t)[j - 1] == t[j - 1].key;
      } else {
        assert r[i] == t[i - 1];
      }
    }
  }

  /** Feeding more lines adds their occurrences to every key. */
  lemma {:induction false} FeedLookup(d: Counts, lines: seq<string>, k: string)
    ensures Lookup(Feed(d, lines), k) == Lookup(d, k) + Occurrences(lines, k)
    decreases |lines|
  {
    if |lines| > 0 {
      FeedLookup(Step(d, lines[0]), lines[1..], k);
      if !IsComment(lines[0]) {
        BumpLookup(d, Key(lines[0]), k);
      }
    }
  }

  lemma {:induction false} FeedTotal(d: Counts, lines: seq<string>)
    ensures Total(Feed(d, lines)) == Total(d) + |Kept(lines)|
    decreases |lines|
  {
    if |lines| > 0 {
      FeedTotal(Step(d, lines[0]), lines[1..]);
      if !IsComment(lines[0]) {
        BumpTotal(d, Key(lines[0]));
      }
    }
  }

  lemma {:induction false} FeedShape(d: Counts, lines: seq<string>)
    requires DistinctKeys(d)
    requires forall i :: 0 <= i < |d| ==> d[i].count >= 1
    ensures DistinctKeys(Feed(d, lines))
    ensures forall i :: 0 <= i < |Feed(d, lines)| ==> Feed(d, lines)[i].count >= 1
    decreases |lines|
  {
    if |lines| > 0 {
      if !IsComment(lines[0]) {
        BumpShape(d, Key(lines[0]));
      }
      FeedShape(Step(d, lines[0]), lines[1..]);
    }
  }

  lemma {:induction false} FeedAppend(d: Counts, a: seq<string>, b: seq<string>)
    ensures Feed(d, a + b) == Feed(Feed(d, a), b)
    decreases |a|
  {
    if |a| > 0 {
      assert (a + b)[0] == a[0];
      assert (a + b)[1..] == a[1..] + b;
      FeedAppend(Step(d, a[0]), a[1..], b);
    } else {
      assert a + b == b;
    }
  }

  /** The count of each card id is the number of non-comment lines naming it. */
  lemma ParseDeckCounts(lines: seq<string>, k: string)
    ensures Lookup(ParseDeck(lines), k) == Occurrences(lines, k)
  {
    FeedLookup([], lines, k);
  }

  /** All counts together add up to the number of non-comment lines. */
  lemma ParseDeckTotal(lines: seq<string>)
    ensures Total(ParseDeck(lines)) == |Kept(lines)|
  {
    FeedTotal([], lines);
  }

  /** Every key appears once, with a count of at least one; the keys are
      exactly the ids some non-comment line names. */
  lemma ParseDeckKeys(lines: seq<string>)
    ensures DistinctKeys(ParseDeck(lines))
    ensures forall i :: 0 <= i < |ParseDeck(lines)| ==> ParseDeck(lines)[i].count >= 1
    ensures forall k :: k in Keys(ParseDeck(lines)) <==> Occurrences(lines, k) > 0
  {
    var d := ParseDeck(lines);
    FeedShape([], lines);
    forall k
      ensures k in Keys(d) <==> Occurrences(lines, k) > 0
    {
      ParseDeckCounts(lines, k);
      LookupPositive(d, k);
    }
  }

  /** With positive counts, a key is present exactly when it reads non-zero. */
  lemma {:induction false} LookupPositive(d: Counts, k: string)
    requires forall i :: 0 <= i < |d| ==> d[i].count >= 1
    ensures k in Keys(d) <==> Lookup(d, k) > 0
  {
    if |d| > 0 {
      LookupPositive(d[1..], k);
      assert Keys(d) == [d[0].key] + Keys(d[1..]);
    }
  }

  /** A comment line anywhere in the file changes nothing. */
  lemma CommentIgnored(a: seq<string>, c: string, b: seq<string>)
    requires IsComment(c)
    ensures ParseDeck(a + [c] + b) == ParseDeck(a + b)
  {
    FeedAppend([], a + [c], b);
    FeedAppend([], a, [c]);
    FeedAppend([], a, b);
    assert Feed(Feed([], a), [c]) == Feed(Step(Feed([], a), c), []);
  }

  /** The worker's progress report after item `it` of `n`:
      `100*(it+1)//n`, a percentage. */
  function Progress(it: nat, n: nat): (p: int)
    requires it < n
    ensures 0 <= p <= 100
    ensures it == n - 1 <==> p == 100
  {
    ProgressBounds(it, n);
    100 * (it + 1) / n
  }

  lemma ProgressBounds(it: nat, n: nat)
    requires it < n
    ensures 0 <= 100 * (it + 1) / n <= 100
    ensures it == n - 1 <==> 100 * (it + 1) / n == 100
  {
    var a := 100 * (it + 1);
    var q := a / n;
    assert q * n <= a < q * n + n;
    if it == n - 1 {
      assert a == 100 * n;
      if q < 100 {
        MulLeq(n, q + 1, 100);
      }
      if q > 100 {
        MulLeq(n, 101, q);
      }
    } else {
      assert a + 100 <= 100 * n;
      if q >= 100 {
        MulLeq(n, 100, q);
      }
    }
  }

  /** The progress bar never moves backwards. */
  lemma ProgressMonotone(i: nat, j: nat, n: nat)
    requires i <= j < n
    ensures Progress(i, n) <= Progress(j, n)
  {
    DivMonotone(100 * (i + 1), 100 * (j + 1), n);
  }

  lemma DivMonotone(a: nat, b: nat, n: nat)
    requires a <= b && 0 < n
    ensures a / n <= b / n
  {
    var qa, qb := a / n, b / n;
    assert n * qa <= a && b < n * qb + n;
    if qa > qb {
      MulLeq(n, qb + 1, qa);
      assert false;
    }
  }

  lemma MulLeq(n: nat, x: int, y: int)
    requires x <= y
    ensures n * x <= n * y
  {
  }

  /** The reports the worker emits over a run of `n` items. */
  function Reports(n: nat): (r: seq<int>)
    ensures |r| == n
  {
    seq(n, i requires 0 <= i < n => Progress(i, n))
  }

  /** The reports climb to exactly 100, reached only by the last item. */
  lemma ReportsClimb(n: nat)
    ensures forall i, j :: 0 <= i <= j < n ==> 0 <= Reports(n)[i] <= Reports(n)[j] <= 100
    ensures forall i :: 0 <= i < n ==> (Reports(n)[i] == 100 <==> i == n - 1)
  {
    forall i, j | 0 <= i <= j < n
      ensures 0 <= Reports(n)[i] <= Reports(n)[j] <= 100
    {
      ProgressMonotone(i, j, n);
    }
  }
}
