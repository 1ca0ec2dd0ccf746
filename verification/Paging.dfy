/** Paged scans: the page a query asks for, and what a caller gets who resumes
    from the last key examined until the store says it is done. */
module Paging {
  import opened Text
  import opened Bytes
  import opened Table

  const MAX_LIST_LIMIT: nat := 1024
  const MAX_LIST_SCAN_LIMIT: nat := 8192
  const MAX_LIST_RESPONSE_BYTES: nat := 4 * 1024 * 1024

  datatype ValueFilter = HasPrefix(p: Bytes) | LacksPrefix(p: Bytes) {
    predicate Keeps(value: Bytes) {
      match this
      case HasPrefix(p) => StartsWith(value, p)
      case LacksPrefix(p) => !StartsWith(value, p)
    }
  }

  datatype ListQuery = ListQuery(
    prefix: Bytes, startAfter: Bytes, limit: nat, scanLimit: nat, filter: Option<ValueFilter>)

  type Row = (Bytes, Bytes)

  datatype EntryPage = EntryPage(entries: seq<Row>, lastExamined: Option<Bytes>, exhausted: bool)

  /** What a module sees of the store: its own keys and values. */
  type Contents = map<Bytes, Bytes>

  /** A bound as asked for, the cap when none is, nothing when it is too large. */
  function Resolve(asked: nat, cap: nat): Option<nat> {
    if asked == 0 then Some(cap) else if asked <= cap then Some(asked) else None
  }

  /* ----- The page a window cuts out of the rows ----- */

  /** A page's bounds: entries, rows examined, bytes returned if bounded. */
  datatype Window = Window(limit: nat, scan: nat, bytes: Option<nat>, filter: Option<ValueFilter>)

  predicate ValidWindow(w: Window) {
    w.limit >= 1 && w.scan >= 1
  }

  /** The row is text and its value survives the filter. */
  predicate Passes(w: Window, row: Row) {
    ValidUtf8(row.0) && (w.filter.None? || w.filter.value.Keeps(row.1))
  }

  function Kept(w: Window, rows: seq<Row>): seq<Row> {
    if rows == [] then []
    else Kept(w, rows[..|rows| - 1]) + (if Passes(w, rows[|rows| - 1]) then [rows[|rows| - 1]] else [])
  }

  function Size(rows: seq<Row>): nat {
    if rows == [] then 0 else Size(rows[..|rows| - 1]) + |rows[|rows| - 1].0| + |rows[|rows| - 1].1|
  }

  function LastText(rows: seq<Row>): Option<Bytes> {
    if rows == [] then None
    else if ValidUtf8(rows[|rows| - 1].0) then Some(rows[|rows| - 1].0)
    else LastText(rows[..|rows| - 1])
  }

  /** No room for `row` after `kept`. A single row has room whatever its size. */
  predicate Full(w: Window, kept: seq<Row>, row: Row) {
    || |kept| == w.limit
    || (kept != [] && w.bytes.Some? && Size(kept) + |row.0| + |row.1| > w.bytes.value)
  }

  /** The page ends before row `m`. */
  predicate Stops(w: Window, rows: seq<Row>, m: nat)
    requires m < |rows|
  {
    m == w.scan || (Passes(w, rows[m]) && Full(w, Kept(w, rows[..m]), rows[m]))
  }

  /** Where the page that has got to row `m` ends. */
  function EndFrom(w: Window, rows: seq<Row>, m: nat): (n: nat)
    requires m <= |rows|
    ensures m <= n <= |rows|
    ensures n < |rows| ==> Stops(w, rows, n)
    ensures forall i :: m <= i < n ==> !Stops(w, rows, i)
    decreases |rows| - m
  {
    if m == |rows| || Stops(w, rows, m) then m else EndFrom(w, rows, m + 1)
  }

  function End(w: Window, rows: seq<Row>): nat {
    EndFrom(w, rows, 0)
  }

  function PageOf(w: Window, rows: seq<Row>): EntryPage {
    var n := End(w, rows);
    EntryPage(Kept(w, rows[..n]), LastText(rows[..n]), n == |rows|)
  }

  /* ----- The rows of a query ----- */

  /** The keys a query walks: those under the prefix and past the resume key. */
  function Wanted(c: Contents, prefix: Bytes, startAfter: Bytes): set<Bytes> {
    set key | key in c && StartsWith(key, prefix) && (startAfter == [] || Less(startAfter, key))
  }

  function RowsAt(c: Contents, keys: set<Bytes>): (rows: seq<Row>)
    requires keys <= c.Keys
    ensures |rows| == |InOrder(keys)|
    ensures forall i :: 0 <= i < |rows| ==> InOrder(keys)[i] in c && rows[i] == (InOrder(keys)[i], c[InOrder(keys)[i]])
  {
    var ks := InOrder(keys);
    assert forall i :: 0 <= i < |ks| ==> ks[i] in ks;
    seq(|ks|, i requires 0 <= i < |ks| => (ks[i], c[ks[i]]))
  }

  function Rows(c: Contents, prefix: Bytes, startAfter: Bytes): seq<Row> {
    RowsAt(c, Wanted(c, prefix, startAfter))
  }

  function ListPage(w: Window, c: Contents, prefix: Bytes, startAfter: Bytes): EntryPage {
    PageOf(w, Rows(c, prefix, startAfter))
  }

  predicate TextKeys(c: Contents) {
    forall key :: key in c ==> ValidUtf8(key)
  }

  /* ----- One page ----- */

  /** The first stop is the end. */
  lemma EndIsFirstStop(w: Window, rows: seq<Row>, n: nat)
    requires n <= |rows| && forall m :: 0 <= m < n ==> !Stops(w, rows, m)
    requires n == |rows| || Stops(w, rows, n)
    ensures End(w, rows) == n
  {
  }

  /** Kept rows are exactly the rows that pass, in order. */
  lemma {:induction false} KeptIsFilter(w: Window, rows: seq<Row>)
    ensures forall row :: row in Kept(w, rows) <==> row in rows && Passes(w, row)
    ensures |Kept(w, rows)| <= |rows|
  {
    if rows != [] {
      KeptIsFilter(w, rows[..|rows| - 1]);
      assert rows == rows[..|rows| - 1] + [rows[|rows| - 1]];
    }
  }

  lemma {:induction false} KeptOfConcat(w: Window, a: seq<Row>, b: seq<Row>)
    ensures Kept(w, a + b) == Kept(w, a) + Kept(w, b)
  {
    if b == [] {
      assert a + b == a;
    } else {
      var init := b[..|b| - 1];
      assert (a + b)[..|a + b| - 1] == a + init;
      KeptOfConcat(w, a, init);
    }
  }

  /** A page respects its bounds: the entries, the rows examined, and the bytes
      unless it holds a single entry. */
  lemma PageWithinBounds(w: Window, rows: seq<Row>)
    requires ValidWindow(w)
    ensures End(w, rows) <= w.scan
    ensures |PageOf(w, rows).entries| <= w.limit
    ensures w.bytes.Some? && |PageOf(w, rows).entries| > 1 ==> Size(PageOf(w, rows).entries) <= w.bytes.value
  {
    var n := End(w, rows);
    assert n > w.scan ==> Stops(w, rows, w.scan);
    PrefixWithinBounds(w, rows, n);
  }

  lemma {:induction false} PrefixWithinBounds(w: Window, rows: seq<Row>, m: nat)
    requires ValidWindow(w) && m <= End(w, rows)
    ensures |Kept(w, rows[..m])| <= w.limit
    ensures w.bytes.Some? && |Kept(w, rows[..m])| > 1 ==> Size(Kept(w, rows[..m])) <= w.bytes.value
  {
    assert Kept(w, rows[..0]) == [];
    hide Kept, Size, Passes, EndFrom;
    if m > 0 {
      PrefixWithinBounds(w, rows, m - 1);
      KeptStep(w, rows, m - 1);
      assert !Stops(w, rows, m - 1);
      SizeOfAppend(Kept(w, rows[..m - 1]), rows[m - 1]);
    }
  }

  lemma KeptStep(w: Window, rows: seq<Row>, m: nat)
    requires m < |rows|
    ensures Kept(w, rows[..m + 1]) == if Passes(w, rows[m]) then Kept(w, rows[..m]) + [rows[m]] else Kept(w, rows[..m])
  {
    assert rows[..m + 1][..m] == rows[..m];
  }

  lemma SizeOfAppend(rows: seq<Row>, row: Row)
    ensures Size(rows + [row]) == Size(rows) + |row.0| + |row.1|
  {
    assert (rows + [row])[..|rows|] == rows;
  }

  /** A page over at least one row examines at least one row. */
  lemma PageAdvances(w: Window, rows: seq<Row>)
    requires ValidWindow(w) && rows != []
    ensures End(w, rows) >= 1
  {
    assert Kept(w, rows[..0]) == [];
    assert !Stops(w, rows, 0);
  }

  predicate Ascending(rows: seq<Row>) {
    forall i, j :: 0 <= i < j < |rows| ==> Less(rows[i].0, rows[j].0)
  }

  lemma {:induction false} KeptIsAscending(w: Window, rows: seq<Row>)
    requires Ascending(rows)
    ensures Ascending(Kept(w, rows))
  {
    if rows != [] {
      var init := rows[..|rows| - 1];
      KeptIsAscending(w, init);
      KeptIsFilter(w, init);
      var kept := Kept(w, init);
      forall i | 0 <= i < |kept|
        ensures Less(kept[i].0, rows[|rows| - 1].0)
      {
        assert kept[i] in init;
      }
    }
  }

  predicate Beyond(start: Bytes, key: Bytes) {
    start == [] || Less(start, key)
  }

  lemma RowsAreWanted(c: Contents, prefix: Bytes, start: Bytes)
    ensures Ascending(Rows(c, prefix, start))
    ensures forall row :: row in Rows(c, prefix, start) <==>
              row.0 in c && row.1 == c[row.0] && StartsWith(row.0, prefix) && Beyond(start, row.0)
  {
    hide InOrder;
    var ks, rows := InOrder(Wanted(c, prefix, start)), Rows(c, prefix, start);
    forall row: Row
      ensures row in rows <==> row.0 in c && row.1 == c[row.0] && StartsWith(row.0, prefix) && Beyond(start, row.0)
    {
      if row in rows {
        var i :| 0 <= i < |rows| && rows[i] == row;
        assert ks[i] in ks;
      }
      if row.0 in c && row.1 == c[row.0] && StartsWith(row.0, prefix) && Beyond(start, row.0) {
        assert row.0 in ks;
        var i :| 0 <= i < |ks| && ks[i] == row.0;
        assert rows[i] == row;
      }
    }
  }

  /** One page of a scan: its entries are in order, wanted and kept; an
      unfinished page says how far it got; nothing wanted up to there is
      missing. */
  lemma PageIsComplete(w: Window, c: Contents, prefix: Bytes, start: Bytes)
    requires ValidWindow(w) && TextKeys(c)
    ensures
      var page := ListPage(w, c, prefix, start);
      && Ascending(page.entries)
      && (forall row :: row in page.entries ==>
            && row.0 in c && row.1 == c[row.0] && StartsWith(row.0, prefix) && Beyond(start, row.0)
            && Passes(w, row))
      && (!page.exhausted ==>
            && page.lastExamined.Some?
            && var last := page.lastExamined.value;
               && last in c && StartsWith(last, prefix) && Beyond(start, last)
               && forall row :: row in page.entries ==> Leq(row.0, last))
      && (forall key :: key in c && StartsWith(key, prefix) && Beyond(start, key) && Passes(w, (key, c[key]))
                        && (page.exhausted || Leq(key, page.lastExamined.value)) ==>
            (key, c[key]) in page.entries)
  {
    hide InOrder, ValidUtf8, Rows, Kept, LastText;
    var rows := Rows(c, prefix, start);
    var n := End(w, rows);
    RowsAreWanted(c, prefix, start);
    KeptIsAscending(w, rows[..n]);
    KeptIsFilter(w, rows[..n]);
    assert forall row :: row in rows[..n] ==> row in rows;
    if n < |rows| {
      PageAdvances(w, rows);
      assert rows[n - 1] in rows;
      assert rows[..n][n - 1] == rows[n - 1];
      LastOfText(rows[..n]);
      HeadIsUpTo(rows, n);
    }
    HeadHasAllUpTo(rows, n);
    forall key | key in c && StartsWith(key, prefix) && Beyond(start, key)
                 && (n == |rows| || Leq(key, rows[n - 1].0))
      ensures (key, c[key]) in rows[..n]
    {
      assert (key, c[key]) in rows;
    }
  }

  lemma HeadIsUpTo(rows: seq<Row>, n: nat)
    requires Ascending(rows) && 1 <= n <= |rows|
    ensures forall row :: row in rows[..n] ==> Leq(row.0, rows[n - 1].0)
  {
  }

  lemma HeadHasAllUpTo(rows: seq<Row>, n: nat)
    requires Ascending(rows) && n <= |rows| && (n < |rows| ==> n >= 1)
    ensures forall row :: row in rows && (n == |rows| || Leq(row.0, rows[n - 1].0)) ==> row in rows[..n]
  {
    forall row | row in rows && (n == |rows| || Leq(row.0, rows[n - 1].0))
      ensures row in rows[..n]
    {
      var i :| 0 <= i < |rows| && rows[i] == row;
      if i >= n { LessAsymmetric(rows[n - 1].0, rows[i].0); }
      assert rows[..n][i] == row;
    }
  }

  /* ----- Whole scans, with writes between the pages ----- */

  /** Page `i` is read from contents `cs[i]`; each page but the last is
      unfinished, and the next resumes from the last key it examined. */
  ghost predicate Scan(w: Window, prefix: Bytes, start: Bytes, cs: seq<Contents>, pages: seq<EntryPage>)
    decreases |cs|
  {
    && |pages| == |cs|
    && (cs != [] ==>
          && pages[0] == ListPage(w, cs[0], prefix, start)
          && (|cs| > 1 ==>
                && !pages[0].exhausted && pages[0].lastExamined.Some?
                && Scan(w, prefix, pages[0].lastExamined.value, cs[1..], pages[1..])))
  }

  function Returned(pages: seq<EntryPage>): seq<Row> {
    if pages == [] then [] else pages[0].entries + Returned(pages[1..])
  }

  /** A module that never stores the empty key, or never scans for it. */
  predicate Resumable(prefix: Bytes, c: Contents) {
    TextKeys(c) && (prefix != [] || [] !in c)
  }

  /** Keys rise, except that the empty key may repeat. */
  predicate RisesButForEmpty(rows: seq<Row>) {
    forall i, j :: 0 <= i < j < |rows| ==> Less(rows[i].0, rows[j].0) || rows[i].0 == [] == rows[j].0
  }

  /** Whatever is written between the pages of a scan, the keys it returns rise,
      and no key but the empty one is returned twice. */
  lemma {:induction false} OnlyTheEmptyKeyRepeats(
      w: Window, prefix: Bytes, start: Bytes, cs: seq<Contents>, pages: seq<EntryPage>)
    requires ValidWindow(w) && Scan(w, prefix, start, cs, pages)
    requires forall i :: 0 <= i < |cs| ==> TextKeys(cs[i])
    ensures RisesButForEmpty(Returned(pages))
    ensures forall row :: row in Returned(pages) ==> Beyond(start, row.0) && StartsWith(row.0, prefix) && Passes(w, row)
    decreases |cs|
  {
    hide ListPage, Passes, TextKeys;
    if cs != [] {
      PageIsComplete(w, cs[0], prefix, start);
      if |cs| > 1 {
        var last := pages[0].lastExamined.value;
        OnlyTheEmptyKeyRepeats(w, prefix, last, cs[1..], pages[1..]);
        var a, b := pages[0].entries, Returned(pages[1..]);
        forall i, j | 0 <= i < |a| && 0 <= j < |b|
          ensures Less(a[i].0, b[j].0) || a[i].0 == [] == b[j].0
        {
          assert a[i] in a && b[j] in b;
          if last != [] && a[i].0 != last { LessTransitive(a[i].0, last, b[j].0); }
        }
        forall row | row in b
          ensures Beyond(start, row.0)
        {
          if start != [] { LessTransitive(start, last, row.0); }
        }
      } else {
        assert pages[1..] == [];
        assert Returned(pages) == pages[0].entries + [];
      }
    }
  }

  /** A key that is there, with a value the filter keeps, at every page of a
      finished scan is returned by it. */
  lemma {:induction false} ScanMissesNothing(
    w: Window, prefix: Bytes, start: Bytes, cs: seq<Contents>, pages: seq<EntryPage>, key: Bytes)
    requires ValidWindow(w) && Scan(w, prefix, start, cs, pages) && cs != [] && pages[|pages| - 1].exhausted
    requires forall i :: 0 <= i < |cs| ==> TextKeys(cs[i])
    requires StartsWith(key, prefix) && Beyond(start, key)
    requires forall i :: 0 <= i < |cs| ==> key in cs[i] && Passes(w, (key, cs[i][key]))
    ensures exists row :: row in Returned(pages) && row.0 == key
    decreases |cs|
  {
    hide ListPage, Passes, TextKeys;
    PageIsComplete(w, cs[0], prefix, start);
    assert key in cs[0] && Passes(w, (key, cs[0][key]));
    if pages[0].exhausted || Leq(key, pages[0].lastExamined.value) {
      assert (key, cs[0][key]) in pages[0].entries;
      assert (key, cs[0][key]) in Returned(pages);
    } else {
      LessTotal(key, pages[0].lastExamined.value);
      assert pages[1..][|pages| - 2] == pages[|pages| - 1];
      assert forall i :: 0 <= i < |cs| - 1 ==> cs[1..][i] == cs[i + 1];
      ScanMissesNothing(w, prefix, pages[0].lastExamined.value, cs[1..], pages[1..], key);
      var row :| row in Returned(pages[1..]) && row.0 == key;
      assert row in Returned(pages);
    }
  }

  /* ----- Scans of a store that does not change ----- */

  /** Resuming after row `n - 1` leaves the rows from `n` on. */
  lemma ResumeIsSuffix(c: Contents, prefix: Bytes, start: Bytes, n: nat)
    requires 1 <= n <= |Rows(c, prefix, start)| && Rows(c, prefix, start)[n - 1].0 != []
    ensures Rows(c, prefix, Rows(c, prefix, start)[n - 1].0) == Rows(c, prefix, start)[n..]
  {
    hide InOrder;
    var ks := InOrder(Wanted(c, prefix, start));
    var last := ks[n - 1];
    var left := InOrder(Wanted(c, prefix, last));
    forall key
      ensures key in left <==> key in ks[n..]
    {
      if key in left {
        assert last in ks;
        if start != [] { LessTransitive(start, last, key); }
        assert key in ks;
        var i :| 0 <= i < |ks| && ks[i] == key;
        if i < n - 1 { LessAsymmetric(ks[i], last); }
        LessIrreflexive(last);
        assert ks[n..][i - n] == key;
      }
      if key in ks[n..] {
        var i :| 0 <= i < |ks[n..]| && ks[n..][i] == key;
        assert ks[n + i] == key && key in ks;
      }
    }
    SortedIsUnique(left, ks[n..]);
  }

  /** The one way a scan of a fixed store can fail to end: its first page stops
      right after the empty key, and resuming from that key starts over. */
  predicate Stalls(w: Window, c: Contents, prefix: Bytes) {
    var rows := Rows(c, prefix, []);
    && |rows| >= 2 && rows[0].0 == []
    && (w.scan == 1 || (Passes(w, rows[0]) && Passes(w, rows[1]) && Full(w, [rows[0]], rows[1])))
  }

  lemma StallIsOneRow(w: Window, c: Contents, prefix: Bytes)
    requires ValidWindow(w) && TextKeys(c)
    requires var rows := Rows(c, prefix, []); |rows| >= 2 && rows[0].0 == []
    ensures Stalls(w, c, prefix) <==> End(w, Rows(c, prefix, [])) == 1
  {
    hide InOrder, ValidUtf8, Rows;
    var rows := Rows(c, prefix, []);
    PageAdvances(w, rows);
    assert rows[..1] == [rows[0]];
    assert Kept(w, [rows[0]]) == if Passes(w, rows[0]) then [rows[0]] else [] by {
      assert [rows[0]][..0] == [];
    }
    assert Stops(w, rows, 1) <==> Stalls(w, c, prefix);
  }

  /** Every scan of a fixed store that does not stall ends, and returns exactly
      the kept rows of the prefix. */
  ghost function ScanPages(w: Window, c: Contents, prefix: Bytes, start: Bytes): seq<EntryPage>
    requires ValidWindow(w) && TextKeys(c) && (start == [] ==> !Stalls(w, c, prefix))
    decreases |Rows(c, prefix, start)|
  {
    var page := ListPage(w, c, prefix, start);
    if page.exhausted then [page]
    else
      LastIsNotEmpty(w, c, prefix, start);
      [page] + ScanPages(w, c, prefix, page.lastExamined.value)
  }

  lemma LastIsNotEmpty(w: Window, c: Contents, prefix: Bytes, start: Bytes)
    requires ValidWindow(w) && TextKeys(c) && (start == [] ==> !Stalls(w, c, prefix))
    requires !ListPage(w, c, prefix, start).exhausted
    ensures
      var rows := Rows(c, prefix, start);
      var n := End(w, rows);
      && 1 <= n < |rows| && rows[n - 1].0 != []
      && ListPage(w, c, prefix, start).lastExamined == Some(rows[n - 1].0)
      && Rows(c, prefix, rows[n - 1].0) == rows[n..]
  {
    hide InOrder, ValidUtf8, Rows;
    var rows := Rows(c, prefix, start);
    var n := End(w, rows);
    PageAdvances(w, rows);
    RowsAreWanted(c, prefix, start);
    assert rows[n - 1] in rows;
    LastOfText(rows[..n]);
    assert n > 1 ==> Less(rows[0].0, rows[n - 1].0);
    if rows[n - 1].0 == [] {
      StallIsOneRow(w, c, prefix);
    }
    ResumeIsSuffix(c, prefix, start, n);
  }

  lemma LastOfText(rows: seq<Row>)
    requires rows != [] && ValidUtf8(rows[|rows| - 1].0)
    ensures LastText(rows) == Some(rows[|rows| - 1].0)
  {
  }

  /** A scan whose first page does not stall returns no key twice, whatever is
      written between its pages. */
  lemma ScanIsAscending(w: Window, prefix: Bytes, start: Bytes, cs: seq<Contents>, pages: seq<EntryPage>)
    requires ValidWindow(w) && Scan(w, prefix, start, cs, pages)
    requires forall i :: 0 <= i < |cs| ==> TextKeys(cs[i])
    requires |cs| > 1 && start == [] ==> !Stalls(w, cs[0], prefix)
    ensures Ascending(Returned(pages))
  {
    hide ListPage, TextKeys, Stalls;
    OnlyTheEmptyKeyRepeats(w, prefix, start, cs, pages);
    if |cs| > 1 {
      PageIsComplete(w, cs[0], prefix, start);
      LastIsNotEmpty(w, cs[0], prefix, start);
      var a, b := pages[0].entries, Returned(pages[1..]);
      OnlyTheEmptyKeyRepeats(w, prefix, pages[0].lastExamined.value, cs[1..], pages[1..]);
      assert forall j :: 0 <= j < |b| ==> b[j] in b;
    } else if cs != [] {
      PageIsComplete(w, cs[0], prefix, start);
      assert pages[1..] == [];
      assert Returned(pages) == pages[0].entries + [];
    }
  }

  function Copies(c: Contents, n: nat): seq<Contents> {
    seq(n, _ => c)
  }

  lemma {:induction false} FixedScanIsExact(w: Window, c: Contents, prefix: Bytes, start: Bytes)
    requires ValidWindow(w) && TextKeys(c) && (start == [] ==> !Stalls(w, c, prefix))
    ensures
      var pages := ScanPages(w, c, prefix, start);
      && pages != [] && pages[|pages| - 1].exhausted
      && Scan(w, prefix, start, Copies(c, |pages|), pages)
      && Returned(pages) == Kept(w, Rows(c, prefix, start))
    decreases |Rows(c, prefix, start)|
  {
    hide InOrder, Rows, Stalls, TextKeys, ValidWindow, ListPage, Kept, End, Scan, Returned;
    var page := ListPage(w, c, prefix, start);
    var rows := Rows(c, prefix, start);
    OnePage(w, c, prefix, start);
    PageAndRest(w, rows);
    assert page == PageOf(w, rows) by { PageIsCut(w, c, prefix, start); }
    hide PageOf;
    if !page.exhausted {
      LastIsNotEmpty(w, c, prefix, start);
      FixedScanIsExact(w, c, prefix, page.lastExamined.value);
      PrependPage(w, c, prefix, start, ScanPages(w, c, prefix, page.lastExamined.value));
    }
  }

  lemma PageIsCut(w: Window, c: Contents, prefix: Bytes, start: Bytes)
    ensures ListPage(w, c, prefix, start) == PageOf(w, Rows(c, prefix, start))
  {
  }

  /** A page and what is kept of the rows after it make up the whole. */
  lemma PageAndRest(w: Window, rows: seq<Row>)
    ensures PageOf(w, rows).exhausted ==> PageOf(w, rows).entries == Kept(w, rows)
    ensures PageOf(w, rows).entries + Kept(w, rows[End(w, rows)..]) == Kept(w, rows)
  {
    hide Kept, EndFrom, LastText;
    var n := End(w, rows);
    KeptOfConcat(w, rows[..n], rows[n..]);
    assert rows[..n] + rows[n..] == rows;
    assert n == |rows| ==> rows[..n] == rows;
  }

  lemma OnePage(w: Window, c: Contents, prefix: Bytes, start: Bytes)
    ensures Scan(w, prefix, start, Copies(c, 1), [ListPage(w, c, prefix, start)])
    ensures Returned([ListPage(w, c, prefix, start)]) == ListPage(w, c, prefix, start).entries
  {
    hide ListPage;
  }

  lemma PrependPage(w: Window, c: Contents, prefix: Bytes, start: Bytes, rest: seq<EntryPage>)
    requires
      var page := ListPage(w, c, prefix, start);
      && !page.exhausted && page.lastExamined.Some? && rest != []
      && Scan(w, prefix, page.lastExamined.value, Copies(c, |rest|), rest)
    ensures
      var pages := [ListPage(w, c, prefix, start)] + rest;
      && Scan(w, prefix, start, Copies(c, |pages|), pages)
      && Returned(pages) == ListPage(w, c, prefix, start).entries + Returned(rest)
      && pages[|pages| - 1] == rest[|rest| - 1]
  {
    hide ListPage;
    assert Copies(c, |rest| + 1)[1..] == Copies(c, |rest|);
    assert ([ListPage(w, c, prefix, start)] + rest)[1..] == rest;
  }

  /** A stalled scan returns the same unfinished page for ever. */
  lemma {:induction false} StallNeverEnds(w: Window, c: Contents, prefix: Bytes, pages: seq<EntryPage>)
    requires ValidWindow(w) && TextKeys(c) && Stalls(w, c, prefix)
    requires Scan(w, prefix, [], Copies(c, |pages|), pages)
    ensures forall i :: 0 <= i < |pages| ==> pages[i] == ListPage(w, c, prefix, []) && !pages[i].exhausted
  {
    hide InOrder, Rows, ValidUtf8, ValidWindow;
    if pages != [] {
      var rows := Rows(c, prefix, []);
      StallIsOneRow(w, c, prefix);
      RowsAreWanted(c, prefix, []);
      assert rows[0] in rows && rows[..1][0] == rows[0];
      LastOfText(rows[..1]);
      assert Copies(c, |pages|)[1..] == Copies(c, |pages| - 1);
      if |pages| > 1 { StallNeverEnds(w, c, prefix, pages[1..]); }
    }
  }

  /** And it returns the empty key once a page, if the filter keeps it. */
  lemma StallRepeatsTheEmptyKey(w: Window, c: Contents, prefix: Bytes)
    requires ValidWindow(w) && TextKeys(c) && Stalls(w, c, prefix) && Passes(w, Rows(c, prefix, [])[0])
    ensures
      var page, empty := ListPage(w, c, prefix, []), Rows(c, prefix, [])[0];
      Scan(w, prefix, [], Copies(c, 2), [page, page]) && Returned([page, page]) == [empty, empty] && empty.0 == []
  {
    hide InOrder, Rows, ValidUtf8, Passes;
    var rows := Rows(c, prefix, []);
    var page := ListPage(w, c, prefix, []);
    StallIsOneRow(w, c, prefix);
    TextIsPassed(w, rows[0]);
    LastOfText(rows[..1]);
    assert rows[..1] == [rows[0]] && [rows[0]][..0] == [];
    assert page.entries == [rows[0]];
    assert Copies(c, 2)[1..] == Copies(c, 1) && [page, page][1..] == [page] && [page][1..] == [];
    OnePage(w, c, prefix, []);
  }

  lemma TextIsPassed(w: Window, row: Row)
    requires Passes(w, row)
    ensures ValidUtf8(row.0)
  {
  }

  /** Stalling is the exact condition: a scan of a fixed store can be finished if
      and only if it does not stall. Without the empty key it never stalls. */
  lemma FinishesUnlessStalled(w: Window, c: Contents, prefix: Bytes)
    requires ValidWindow(w) && TextKeys(c)
    ensures (exists pages: seq<EntryPage> :: Scan(w, prefix, [], Copies(c, |pages|), pages)
                             && pages != [] && pages[|pages| - 1].exhausted)
       <==> !Stalls(w, c, prefix)
    ensures Resumable(prefix, c) ==> !Stalls(w, c, prefix)
  {
    hide InOrder, Rows, ValidUtf8, Scan;
    if Stalls(w, c, prefix) {
      forall pages: seq<EntryPage> | Scan(w, prefix, [], Copies(c, |pages|), pages) && pages != []
        ensures !pages[|pages| - 1].exhausted
      {
        StallNeverEnds(w, c, prefix, pages);
      }
    } else {
      FixedScanIsExact(w, c, prefix, []);
    }
    RowsAreWanted(c, prefix, []);
    assert Rows(c, prefix, []) != [] ==> Rows(c, prefix, [])[0] in Rows(c, prefix, []);
  }

  lemma EmptyKeyIsFirst(rows: seq<Row>, i: nat)
    requires Ascending(rows) && i < |rows| && rows[i].0 == []
    ensures rows[0].0 == []
  {
  }

  /* ----- Pages with and without a byte cap ----- */

  lemma {:induction false} SizeGrows(w: Window, rows: seq<Row>, m: nat, n: nat)
    requires m <= n <= |rows|
    ensures Size(Kept(w, rows[..m])) <= Size(Kept(w, rows[..n]))
    decreases n
  {
    hide Kept, Size, Passes;
    if m < n {
      SizeGrows(w, rows, m, n - 1);
      KeptStep(w, rows, n - 1);
      SizeOfAppend(Kept(w, rows[..n - 1]), rows[n - 1]);
    }
  }

  lemma {:induction false} KeptIgnoresCap(w: Window, rows: seq<Row>)
    ensures Kept(w.(bytes := None), rows) == Kept(w, rows)
  {
    if rows != [] { KeptIgnoresCap(w, rows[..|rows| - 1]); }
  }

  lemma {:induction false} CountGrows(w: Window, rows: seq<Row>, m: nat, n: nat)
    requires m <= n <= |rows|
    ensures |Kept(w, rows[..m])| <= |Kept(w, rows[..n])|
    decreases n
  {
    hide Kept, Passes;
    if m < n {
      CountGrows(w, rows, m, n - 1);
      KeptStep(w, rows, n - 1);
    }
  }

  /** A byte cap changes nothing exactly when the uncapped page holds a single
      entry at most, or does not reach it. */
  lemma CapCutsExactly(w: Window, rows: seq<Row>)
    requires ValidWindow(w) && w.bytes.Some?
    ensures
      var free := PageOf(w.(bytes := None), rows);
      PageOf(w, rows) == free <==> |free.entries| <= 1 || Size(free.entries) <= w.bytes.value
  {
    hide Kept, Size, EndFrom;
    PageWithinBounds(w, rows);
    var free := w.(bytes := None);
    if |PageOf(free, rows).entries| <= 1 || Size(PageOf(free, rows).entries) <= w.bytes.value {
      var n := End(free, rows);
      forall m | 0 <= m < n
        ensures !Stops(w, rows, m)
      {
        CapDoesNotStop(w, rows, m, n);
      }
      KeptIgnoresCap(w, rows[..n]);
      EndIsFirstStop(w, rows, n);
    }
  }

  lemma CapDoesNotStop(w: Window, rows: seq<Row>, m: nat, n: nat)
    requires w.bytes.Some? && m < n <= |rows| && !Stops(w.(bytes := None), rows, m)
    requires
      var kept := Kept(w.(bytes := None), rows[..n]);
      |kept| <= 1 || Size(kept) <= w.bytes.value
    ensures !Stops(w, rows, m)
  {
    hide Kept, Size;
    KeptIgnoresCap(w, rows[..m]);
    KeptIgnoresCap(w, rows[..n]);
    SizeGrows(w, rows, m + 1, n);
    CountGrows(w, rows, m + 1, n);
    KeptStep(w, rows, m);
    SizeOfAppend(Kept(w, rows[..m]), rows[m]);
  }

  /** An unfinished page is as long as its bounds allow: it has examined as many
      rows as it may, or the next row is kept and the page has all the entries or
      all the bytes it may have. */
  lemma PageIsMaximal(w: Window, rows: seq<Row>)
    requires ValidWindow(w) && !PageOf(w, rows).exhausted
    ensures
      var page, n := PageOf(w, rows), End(w, rows);
      && n < |rows|
      && (|| n == w.scan
          || (Passes(w, rows[n]) && |page.entries| == w.limit)
          || (Passes(w, rows[n]) && w.bytes.Some? && Size(page.entries + [rows[n]]) > w.bytes.value))
  {
    hide Kept, Size, Passes;
    SizeOfAppend(PageOf(w, rows).entries, rows[End(w, rows)]);
  }

  /* ----- Filters, on the bytes of the values ----- */

  /** `value` is `p` and then some more. */
  ghost predicate Extends(value: Bytes, p: Bytes) {
    exists rest: Bytes :: value == p + rest
  }

  /** What a filter asks of a value. */
  ghost predicate Survives(filter: Option<ValueFilter>, value: Bytes) {
    match filter
    case None => true
    case Some(HasPrefix(p)) => Extends(value, p)
    case Some(LacksPrefix(p)) => !Extends(value, p)
  }

  lemma KeepsIsSurvives(w: Window, row: Row)
    ensures Passes(w, row) <==> ValidUtf8(row.0) && Survives(w.filter, row.1)
  {
    hide ValidUtf8;
    if w.filter.Some? {
      var p := w.filter.value.p;
      if StartsWith(row.1, p) { assert row.1 == p + row.1[|p|..]; }
    }
  }

  /** Every value on a page survives the filter, and no wanted row whose value does
      is missing up to the last key examined. */
  lemma PageIsFiltered(w: Window, c: Contents, prefix: Bytes, start: Bytes)
    requires ValidWindow(w) && TextKeys(c)
    ensures
      var page := ListPage(w, c, prefix, start);
      && (forall row :: row in page.entries ==> Survives(w.filter, row.1))
      && (!page.exhausted ==> page.lastExamined.Some?)
      && (forall key :: key in c && StartsWith(key, prefix) && Beyond(start, key) && Survives(w.filter, c[key])
                        && (page.exhausted || Leq(key, page.lastExamined.value)) ==>
            (key, c[key]) in page.entries)
  {
    hide ListPage, Passes, Survives, ValidUtf8;
    PageIsComplete(w, c, prefix, start);
    forall row: Row
      ensures Passes(w, row) <==> ValidUtf8(row.0) && Survives(w.filter, row.1)
    {
      KeepsIsSurvives(w, row);
    }
  }

  /** A whole scan of an unchanged store returns exactly the wanted rows whose
      values survive the filter. */
  lemma ScanIsFiltered(w: Window, c: Contents, prefix: Bytes, start: Bytes, key: Bytes)
    requires ValidWindow(w) && TextKeys(c) && (start == [] ==> !Stalls(w, c, prefix)) && key in c
    ensures (key, c[key]) in Returned(ScanPages(w, c, prefix, start))
       <==> StartsWith(key, prefix) && Beyond(start, key) && Survives(w.filter, c[key])
  {
    hide Stalls, Passes, ValidUtf8, Rows, ScanPages, Survives, InOrder;
    FixedScanIsExact(w, c, prefix, start);
    KeptIsFilter(w, Rows(c, prefix, start));
    RowsAreWanted(c, prefix, start);
    KeepsIsSurvives(w, (key, c[key]));
  }
}
