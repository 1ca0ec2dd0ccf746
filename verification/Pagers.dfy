/** The three pagers and the in-memory double: each is proved to give the page
    `Paging` describes, so on common ground they agree. */
module Pagers {
  import opened Text
  import opened Bytes
  import opened Table
  import opened StoreSpec
  import opened LocalStore
  import opened Paging

  /** What the namespace of `prefix` holds, by module key. */
  function ContentsOf(t: Table, prefix: Bytes): (c: Contents)
    ensures forall key :: key in c <==> BuildKey(prefix, key) in t
    ensures forall key :: key in c ==> c[key] == t[BuildKey(prefix, key)]
  {
    assert forall k :: StartsWith(k, prefix) ==> BuildKey(prefix, k[|prefix|..]) == k;
    assert forall key :: BuildKey(prefix, key)[|prefix|..] == key && StartsWith(BuildKey(prefix, key), prefix);
    map k | k in t && StartsWith(k, prefix) :: k[|prefix|..] := t[k]
  }

  /** The bounds a query resolves to, or the refusal of one past its cap. */
  function ResolveQuery(query: ListQuery): Result<Window, StorageError> {
    match Resolve(query.limit, MAX_LIST_LIMIT)
    case None => Err(ListLimitExceeded(query.limit, MAX_LIST_LIMIT))
    case Some(limit) =>
      match Resolve(query.scanLimit, MAX_LIST_SCAN_LIMIT)
      case None => Err(ListScanLimitExceeded(query.scanLimit, MAX_LIST_SCAN_LIMIT))
      case Some(scan) => Ok(Window(limit, scan, Some(MAX_LIST_RESPONSE_BYTES), query.filter))
  }

  /** A page being filled: it has got to row `i`. */
  ghost predicate Filling(w: Window, rows: seq<Row>, i: nat, page: EntryPage, bytes: nat) {
    && i <= |rows|
    && page == EntryPage(Kept(w, rows[..i]), LastText(rows[..i]), true)
    && bytes == Size(page.entries)
    && forall m :: 0 <= m < i ==> !Stops(w, rows, m)
  }

  lemma FillingStarts(w: Window, rows: seq<Row>)
    ensures Filling(w, rows, 0, EntryPage([], None, true), 0)
  {
  }

  /** Taking one more row. */
  lemma FillingStep(w: Window, rows: seq<Row>, i: nat, page: EntryPage, bytes: nat)
    requires Filling(w, rows, i, page, bytes) && i < |rows| && !Stops(w, rows, i)
    ensures
      var row := rows[i];
      var kept := Passes(w, row);
      Filling(w, rows, i + 1,
              EntryPage(if kept then page.entries + [row] else page.entries,
                        if ValidUtf8(row.0) then Some(row.0) else page.lastExamined,
                        true),
              if kept then bytes + |row.0| + |row.1| else bytes)
  {
    hide Kept, Size, ValidUtf8;
    KeptStep(w, rows, i);
    SizeOfAppend(page.entries, rows[i]);
    assert rows[..i + 1][..i] == rows[..i];
  }

  lemma FillingEnds(w: Window, rows: seq<Row>, i: nat, page: EntryPage, bytes: nat)
    requires Filling(w, rows, i, page, bytes) && (i == |rows| || Stops(w, rows, i))
    ensures PageOf(w, rows) == page.(exhausted := i == |rows|)
  {
    EndIsFirstStop(w, rows, i);
  }

  /* ----- The database pager ----- */

  function LowerBound(h: Handle, query: ListQuery): Bound {
    if query.startAfter == [] || Less(query.startAfter, query.prefix)
    then Included(BuildKey(h.prefix, query.prefix))
    else Excluded(BuildKey(h.prefix, query.startAfter))
  }

  /** One page under `query`, read from the shared table. */
  method ListEntries(store: Store, h: Handle, query: ListQuery, io: Io) returns (r: Result<EntryPage, StorageError>)
    ensures
      match ResolveQuery(query)
      case Err(e) => r == Err(e)
      case Ok(w) =>
        match ReadFault(io)
        case Some(e) => r == Err(e)
        case None => r == Ok(ListPage(w, ContentsOf(store.table, h.prefix), query.prefix, query.startAfter))
  {
    hide Range, Rows, ContentsOf, Kept, Size, ValidUtf8, LowerBound;
    var resolved := ResolveQuery(query);
    if resolved.Err? {
      return Err(resolved.error);
    }
    var w := resolved.value;
    var fullPrefix := BuildKey(h.prefix, query.prefix);
    if io.TxnFails? {
      return Err(Txn);
    }
    if io.TableFails? {
      return Err(OpenTable);
    }
    if io.AccessFails? {
      return Err(Storage);
    }
    var page := EntryPage([], None, true);
    var examined: nat := 0;
    var bytes: nat := 0;
    var ks := Range(store.table, LowerBound(h, query));
    ghost var rows := Rows(ContentsOf(store.table, h.prefix), query.prefix, query.startAfter);
    WalkIsRows(store.table, h, query);
    FillingStarts(w, rows);
    for i := 0 to |ks|
      invariant Filling(w, rows, i, page, bytes) && examined == i
    {
      if !StartsWith(ks[i], fullPrefix) {
        FillingEnds(w, rows, i, page, bytes);
        return Ok(page);
      }
      var row := (ks[i][|h.prefix|..], store.table[ks[i]]);
      assert row == rows[i];
      if examined == w.scan {
        page := page.(exhausted := false);
        FillingEnds(w, rows, i, page.(exhausted := true), bytes);
        return Ok(page);
      }
      if !ValidUtf8(row.0) {
        FillingStep(w, rows, i, page, bytes);
        examined := examined + 1;
        continue;
      }
      if w.filter.None? || w.filter.value.Keeps(row.1) {
        var cost := |row.0| + |row.1|;
        if |page.entries| == w.limit || (page.entries != [] && bytes + cost > MAX_LIST_RESPONSE_BYTES) {
          page := page.(exhausted := false);
          FillingEnds(w, rows, i, page.(exhausted := true), bytes);
          return Ok(page);
        }
        FillingStep(w, rows, i, page, bytes);
        bytes := bytes + cost;
        page := page.(entries := page.entries + [row]);
      } else {
        FillingStep(w, rows, i, page, bytes);
      }
      examined := examined + 1;
      page := page.(lastExamined := Some(row.0));
    }
    FillingEnds(w, rows, |ks|, page, bytes);
    return Ok(page);
  }

  /** The rows of the query are the head of the walk, up to the first key
      outside the prefix. */
  lemma WalkIsRows(t: Table, h: Handle, query: ListQuery)
    ensures
      var fullPrefix := BuildKey(h.prefix, query.prefix);
      var ks := Range(t, LowerBound(h, query));
      var rows := Rows(ContentsOf(t, h.prefix), query.prefix, query.startAfter);
      && |rows| == RunLength(ks, fullPrefix)
      && forall i :: 0 <= i < |rows| ==>
           StartsWith(ks[i], h.prefix) && ks[i] in t && rows[i] == (ks[i][|h.prefix|..], t[ks[i]])
  {
    hide Range, InOrder, ContentsOf, LowerBound, Less;
    var p, lower := h.prefix, LowerBound(h, query);
    var full := BuildKey(p, query.prefix);
    var ks := Range(t, lower);
    var n := RunLength(ks, full);
    var c := ContentsOf(t, p);
    var found := set k | k in Under(t, full) && Above(lower, k);
    LowerIsInside(h, query);
    EarlyStopMissesNothing(t, lower, full);
    forall i | 0 <= i < n
      ensures ks[i] in found && ks[i] == BuildKey(p, ks[i][|p|..])
    {
      assert ks[..n][i] in InOrder(found);
      assert ks[i][..|full|][..|p|] == p;
    }
    forall key
      ensures BuildKey(p, key) in found <==> key in Wanted(c, query.prefix, query.startAfter)
    {
      PrefixThroughPrefix(p, query.prefix, key);
      if StartsWith(key, query.prefix) { AboveIsBeyond(h, query, key); }
    }
    StripIsInOrder(p, ks[..n], found, Wanted(c, query.prefix, query.startAfter));
  }

  /** Stripping a common prefix from an ordered walk. */
  lemma StripIsInOrder(p: Bytes, ks: seq<Bytes>, full: set<Bytes>, keys: set<Bytes>)
    requires ks == InOrder(full)
    requires forall i :: 0 <= i < |ks| ==> StartsWith(ks[i], p) && ks[i] == BuildKey(p, ks[i][|p|..])
    requires forall key :: BuildKey(p, key) in full <==> key in keys
    ensures |InOrder(keys)| == |ks|
    ensures forall i :: 0 <= i < |ks| ==> StartsWith(ks[i], p) && InOrder(keys)[i] == ks[i][|p|..]
  {
    hide InOrder, Less;
    assert forall i :: 0 <= i < |ks| ==> |p| <= |ks[i]|;
    var out := seq(|ks|, i requires 0 <= i < |ks| => ks[i][|p|..]);
    forall i, j | 0 <= i < j < |out|
      ensures Less(out[i], out[j])
    {
      LessAfterPrefix(p, out[i], out[j]);
    }
    forall key
      ensures key in out <==> key in InOrder(keys)
    {
      if key in out {
        var i :| 0 <= i < |out| && out[i] == key;
        assert ks[i] in ks;
      }
      if key in keys {
        assert BuildKey(p, key) in ks;
        var i :| 0 <= i < |ks| && ks[i] == BuildKey(p, key);
        SameKey(p, key, out[i]);
        assert out[i] == key;
      }
    }
    SortedIsUnique(out, InOrder(keys));
  }

  lemma LowerIsInside(h: Handle, query: ListQuery)
    ensures Leq(BuildKey(h.prefix, query.prefix), LowerBound(h, query).key)
  {
    LessTotal(query.startAfter, query.prefix);
    LessAfterPrefix(h.prefix, query.prefix, query.startAfter);
  }

  /** Being past the lower bound is being past the resume key. */
  lemma AboveIsBeyond(h: Handle, query: ListQuery, key: Bytes)
    requires StartsWith(key, query.prefix)
    ensures Above(LowerBound(h, query), BuildKey(h.prefix, key)) <==> Beyond(query.startAfter, key)
  {
    var p := h.prefix;
    PrefixComesFirst(query.prefix, key);
    LessAfterPrefix(p, query.prefix, key);
    LessAfterPrefix(p, query.startAfter, key);
    if Less(query.startAfter, query.prefix) && query.prefix != key {
      LessTransitive(query.startAfter, query.prefix, key);
    }
  }

  /* ----- The module-side pager ----- */

  // Of the 32-bit guest that modules run in.
  const USIZE_MAX: nat := 0xFFFF_FFFF

  /** On the module side a zero bound is none at all. */
  function SdkWindow(query: ListQuery): Window {
    Window(if query.limit == 0 then USIZE_MAX else query.limit,
           if query.scanLimit == 0 then USIZE_MAX else query.scanLimit,
           None, query.filter)
  }

  predicate Selects(query: ListQuery, row: Row) {
    StartsWith(row.0, query.prefix) && Less(query.startAfter, row.0)
  }

  function Selected(query: ListQuery, rows: seq<Row>): seq<Row> {
    if rows == [] then []
    else Selected(query, rows[..|rows| - 1]) + (if Selects(query, rows[|rows| - 1]) then [rows[|rows| - 1]] else [])
  }

  /** Page `rows`, which are in key order, against `query`. */
  method PageEntries(query: ListQuery, rows: seq<Row>) returns (page: EntryPage)
    requires forall i :: 0 <= i < |rows| ==> ValidUtf8(rows[i].0)
    ensures page == PageOf(SdkWindow(query), Selected(query, rows))
  {
    hide Kept, Size, ValidUtf8;
    var w := SdkWindow(query);
    ghost var chosen := Selected(query, rows);
    ghost var bytes: nat := 0;
    page := EntryPage([], None, true);
    var examined: nat := 0;
    FillingStarts(w, chosen);
    for i := 0 to |rows|
      invariant examined == |Selected(query, rows[..i])|
      invariant Filling(w, chosen, examined, page, bytes)
    {
      SelectedStep(query, rows, i);
      if !StartsWith(rows[i].0, query.prefix) || !Less(query.startAfter, rows[i].0) {
        continue;
      }
      assert chosen[examined] == rows[i];
      if examined == w.scan {
        page := page.(exhausted := false);
        FillingEnds(w, chosen, examined, page.(exhausted := true), bytes);
        return;
      }
      if query.filter.None? || query.filter.value.Keeps(rows[i].1) {
        if |page.entries| == w.limit {
          page := page.(exhausted := false);
          FillingEnds(w, chosen, examined, page.(exhausted := true), bytes);
          return;
        }
        FillingStep(w, chosen, examined, page, bytes);
        bytes := bytes + |rows[i].0| + |rows[i].1|;
        page := page.(entries := page.entries + [rows[i]]);
      } else {
        FillingStep(w, chosen, examined, page, bytes);
      }
      examined := examined + 1;
      page := page.(lastExamined := Some(rows[i].0));
    }
    assert rows[..|rows|] == rows;
    FillingEnds(w, chosen, examined, page, bytes);
  }

  /** The selected rows so far head the selected rows of the whole. */
  lemma SelectedStep(query: ListQuery, rows: seq<Row>, i: nat)
    requires i < |rows|
    ensures
      var before, all := Selected(query, rows[..i]), Selected(query, rows);
      && Selected(query, rows[..i + 1]) == (if Selects(query, rows[i]) then before + [rows[i]] else before)
      && (Selects(query, rows[i]) ==> |before| < |all| && all[|before|] == rows[i])
  {
    assert rows[..i + 1][..i] == rows[..i];
    SelectedHead(query, rows, i + 1);
  }

  lemma {:induction false} SelectedHead(query: ListQuery, rows: seq<Row>, i: nat)
    requires i <= |rows|
    ensures Selected(query, rows[..i]) <= Selected(query, rows)
  {
    if i == |rows| {
      assert rows[..i] == rows;
    } else {
      var init := rows[..|rows| - 1];
      SelectedHead(query, init, i);
      assert init[..i] == rows[..i];
    }
  }

  predicate Ordered(keys: seq<Bytes>) {
    forall i, j :: 0 <= i < j < |keys| ==> Leq(keys[i], keys[j])
  }

  predicate LeqAll(keys: seq<Bytes>, key: Bytes) {
    forall i :: 0 <= i < |keys| ==> Leq(keys[i], key)
  }

  lemma LastIsGreatest(keys: seq<Bytes>, key: Bytes)
    requires keys != [] && Leq(keys[|keys| - 1], key) && Ordered(keys)
    ensures LeqAll(keys, key)
  {
    hide Less;
    forall i | 0 <= i < |keys|
      ensures Leq(keys[i], key)
    {
      var last := keys[|keys| - 1];
      if Less(keys[i], last) && Less(last, key) { LessTransitive(keys[i], last, key); }
    }
  }

  lemma InsertBelow(keys: seq<Bytes>, key: Bytes, last: Bytes, out: seq<Bytes>)
    requires LeqAll(keys, last) && !Leq(last, key) && multiset(out) == multiset(keys + [key])
    ensures LeqAll(out, last)
  {
    hide Less;
    LessTotal(last, key);
    forall i | 0 <= i < |out|
      ensures Leq(out[i], last)
    {
      assert out[i] in multiset(keys + [key]);
    }
  }

  /** Keys in byte order, repeats kept. */
  function SortKeys(keys: seq<Bytes>): seq<Bytes> {
    if keys == [] then [] else Insert(SortKeys(keys[..|keys| - 1]), keys[|keys| - 1])
  }

  function Insert(keys: seq<Bytes>, key: Bytes): seq<Bytes> {
    if keys == [] || Leq(keys[|keys| - 1], key) then keys + [key]
    else Insert(keys[..|keys| - 1], key) + [keys[|keys| - 1]]
  }

  lemma {:induction false} SortKeysSorts(keys: seq<Bytes>)
    ensures Ordered(SortKeys(keys)) && multiset(SortKeys(keys)) == multiset(keys)
  {
    hide Insert, Ordered;
    if keys == [] {
      assert Ordered([]) by { EmptyIsOrdered(); }
    } else {
      var init, last := keys[..|keys| - 1], keys[|keys| - 1];
      assert keys == init + [last];
      SortKeysSorts(init);
      InsertKeepsOrder(SortKeys(init), last);
    }
  }

  lemma EmptyIsOrdered()
    ensures Ordered([])
  {
  }

  lemma {:induction false} InsertKeepsOrder(keys: seq<Bytes>, key: Bytes)
    requires Ordered(keys)
    ensures Ordered(Insert(keys, key)) && multiset(Insert(keys, key)) == multiset(keys + [key])
  {
    hide Leq;
    if keys != [] {
      var init, last := keys[..|keys| - 1], keys[|keys| - 1];
      assert keys == init + [last];
      if Leq(last, key) {
        LastIsGreatest(keys, key);
      } else {
        InsertKeepsOrder(init, key);
        InsertBelow(init, key, last, Insert(init, key));
      }
    }
  }

  /** What the first `n` fetches give: the keys that are still there with their
      values, or the first fault. `get` is the host's answer to its i-th call. */
  function Fetched<F>(keys: seq<Bytes>, get: (nat, Bytes) -> Result<Option<Bytes>, F>, n: nat): Result<seq<Row>, F>
    requires n <= |keys|
  {
    if n == 0 then Ok([])
    else
      match Fetched(keys, get, n - 1)
      case Err(e) => Err(e)
      case Ok(rows) =>
        match get(n - 1, keys[n - 1])
        case Err(e) => Err(e)
        case Ok(None) => Ok(rows)
        case Ok(Some(value)) => Ok(rows + [(keys[n - 1], value)])
  }

  /** The first fault of the listing or of a fetch in key order; otherwise the
      page of what the fetches gave. */
  ghost function FetchedPage<F>(
      listed: Result<seq<Bytes>, F>, get: (nat, Bytes) -> Result<Option<Bytes>, F>, query: ListQuery)
    : Result<EntryPage, F>
  {
    if listed.Err? then Err(listed.error)
    else
      var fetched := Fetched(SortKeys(listed.value), get, |SortKeys(listed.value)|);
      if fetched.Err? then Err(fetched.error)
      else Ok(PageOf(SdkWindow(query), Selected(query, fetched.value)))
  }

  /** The default `list_entries`, on any host: list the keys, sort them, fetch
      each, page. */
  method DefaultListEntries<F>(
      listed: Result<seq<Bytes>, F>, get: (nat, Bytes) -> Result<Option<Bytes>, F>, query: ListQuery)
    returns (r: Result<EntryPage, F>)
    requires listed.Ok? ==> forall key :: key in listed.value ==> ValidUtf8(key)
    ensures r == FetchedPage(listed, get, query)
  {
    hide PageOf, Selected, ValidUtf8, SortKeys;
    if listed.Err? {
      return Err(listed.error);
    }
    var keys := SortKeys(listed.value);
    assert forall i :: 0 <= i < |keys| ==> ValidUtf8(keys[i]) by { SortKeepsKeys(listed.value); }
    var rows: seq<Row> := [];
    for i := 0 to |keys|
      invariant Fetched(keys, get, i) == Ok(rows)
      invariant forall j :: 0 <= j < |rows| ==> ValidUtf8(rows[j].0)
    {
      var got := get(i, keys[i]);
      if got.Err? {
        FaultStays(keys, get, i + 1, |keys|);
        return Err(got.error);
      }
      if got.value.Some? {
        rows := rows + [(keys[i], got.value.value)];
      }
    }
    var page := PageEntries(query, rows);
    r := Ok(page);
  }

  lemma SortKeepsKeys(listed: seq<Bytes>)
    ensures forall i :: 0 <= i < |SortKeys(listed)| ==> SortKeys(listed)[i] in listed
  {
    hide SortKeys;
    var keys := SortKeys(listed);
    SortKeysSorts(listed);
    forall i | 0 <= i < |keys|
      ensures keys[i] in listed
    {
      assert keys[i] in multiset(keys);
    }
  }

  lemma {:induction false} FaultStays<F>(
      keys: seq<Bytes>, get: (nat, Bytes) -> Result<Option<Bytes>, F>, m: nat, n: nat)
    requires m <= n <= |keys| && Fetched(keys, get, m).Err?
    ensures Fetched(keys, get, n) == Fetched(keys, get, m)
  {
    if m < n { FaultStays(keys, get, m, n - 1); }
  }

  /** On a host that lists each key under the prefix once, in any order, and
      fetches what it holds, the fallback pages exactly the rows under the prefix
      and strictly past the resume key. */
  lemma FaithfulHostRows<F>(
      c: Contents, query: ListQuery, listed: seq<Bytes>, get: (nat, Bytes) -> Result<Option<Bytes>, F>)
    requires multiset(listed) == multiset(set key | key in c && StartsWith(key, query.prefix))
    requires forall i: nat, key | key in c :: get(i, key) == Ok(Some(c[key]))
    ensures FetchedPage(Ok(listed), get, query)
         == Ok(PageOf(SdkWindow(query), StrictRows(c, query.prefix, query.startAfter)))
  {
    hide InOrder, StrictRows, Selected, SortKeys, PageOf;
    var keys := set key | key in c && StartsWith(key, query.prefix);
    SortedOnce(listed, keys);
    FetchedAll(c, SortKeys(listed), get, |SortKeys(listed)|);
    assert Fetched(SortKeys(listed), get, |SortKeys(listed)|).value == RowsAt(c, keys);
    SelectedIsStrict(c, query);
  }

  /** Sorting a list that has each key once gives the keys in order. */
  lemma SortedOnce(listed: seq<Bytes>, keys: set<Bytes>)
    requires multiset(listed) == multiset(keys)
    ensures SortKeys(listed) == InOrder(keys)
  {
    hide InOrder, SortKeys, Less;
    var out := SortKeys(listed);
    SortKeysSorts(listed);
    forall i, j | 0 <= i < j < |out|
      ensures Less(out[i], out[j])
    {
      Twice(out, i, j);
      assert multiset(out)[out[i]] <= 1;
    }
    forall key
      ensures key in out <==> key in InOrder(keys)
    {
      assert key in out <==> key in multiset(out);
    }
    SortedIsUnique(out, InOrder(keys));
  }

  lemma Twice(s: seq<Bytes>, i: nat, j: nat)
    requires i < j < |s|
    ensures s[i] == s[j] ==> multiset(s)[s[i]] >= 2
  {
    assert s == s[..j] + [s[j]] + s[j + 1..];
    assert s[i] in s[..j];
  }

  lemma {:induction false} FetchedAll<F>(
      c: Contents, keys: seq<Bytes>, get: (nat, Bytes) -> Result<Option<Bytes>, F>, n: nat)
    requires n <= |keys| && forall key :: key in keys ==> key in c
    requires forall i: nat, key | key in c :: get(i, key) == Ok(Some(c[key]))
    ensures Fetched(keys, get, n).Ok? && |Fetched(keys, get, n).value| == n
    ensures forall j :: 0 <= j < n ==> Fetched(keys, get, n).value[j] == (keys[j], c[keys[j]])
  {
    if n > 0 { FetchedAll(c, keys, get, n - 1); }
  }

  /* ----- Agreement ----- */

  /** The keys past the resume key, taken literally: with an empty resume key
      this leaves out the empty key. */
  function StrictlyWanted(c: Contents, prefix: Bytes, startAfter: Bytes): set<Bytes> {
    set key | key in c && StartsWith(key, prefix) && Less(startAfter, key)
  }

  function StrictRows(c: Contents, prefix: Bytes, startAfter: Bytes): seq<Row> {
    RowsAt(c, StrictlyWanted(c, prefix, startAfter))
  }

  lemma SelectedIsStrict(c: Contents, query: ListQuery)
    ensures Selected(query, RowsAt(c, set key | key in c && StartsWith(key, query.prefix)))
         == StrictRows(c, query.prefix, query.startAfter)
  {
    hide InOrder, RowsAt;
    var listed := set key | key in c && StartsWith(key, query.prefix);
    var rows, strict := RowsAt(c, listed), StrictRows(c, query.prefix, query.startAfter);
    RowsAtSpec(c, listed);
    RowsAtSpec(c, StrictlyWanted(c, query.prefix, query.startAfter));
    SelectedSpec(query, rows);
    AscendingIsUnique(Selected(query, rows), strict);
  }

  lemma RowsAtSpec(c: Contents, keys: set<Bytes>)
    requires keys <= c.Keys
    ensures Ascending(RowsAt(c, keys))
    ensures forall row :: row in RowsAt(c, keys) <==> row.0 in keys && row.1 == c[row.0]
  {
    hide InOrder;
    var ks, rows := InOrder(keys), RowsAt(c, keys);
    forall row: Row
      ensures row in rows <==> row.0 in keys && row.1 == c[row.0]
    {
      if row in rows {
        var i :| 0 <= i < |rows| && rows[i] == row;
        assert ks[i] in ks;
      }
      if row.0 in keys && row.1 == c[row.0] {
        assert row.0 in ks;
        var i :| 0 <= i < |ks| && ks[i] == row.0;
        assert rows[i] == row;
      }
    }
  }

  lemma {:induction false} SelectedSpec(query: ListQuery, rows: seq<Row>)
    requires Ascending(rows)
    ensures Ascending(Selected(query, rows))
    ensures forall row :: row in Selected(query, rows) <==> row in rows && Selects(query, row)
  {
    if rows != [] {
      var init, last := rows[..|rows| - 1], rows[|rows| - 1];
      SelectedSpec(query, init);
      assert rows == init + [last];
      var out := Selected(query, init);
      forall i | 0 <= i < |out|
        ensures Less(out[i].0, last.0)
      {
        assert out[i] in init;
      }
    }
  }

  lemma {:induction false} AscendingIsUnique(a: seq<Row>, b: seq<Row>)
    requires Ascending(a) && Ascending(b) && forall row :: row in a <==> row in b
    ensures a == b
  {
    assert b != [] ==> b[0] in b;
    if a != [] {
      assert a[0] in b && b[0] in a;
      if a[0] != b[0] { LessAsymmetric(a[0].0, b[0].0); }
      LessIrreflexive(a[0].0);
      forall row
        ensures row in a[1..] <==> row in b[1..]
      {
        assert a == [a[0]] + a[1..] && b == [b[0]] + b[1..];
        assert row in a <==> row in b;
      }
      AscendingIsUnique(a[1..], b[1..]);
    }
  }

  /** The database walks the same rows as the two in-memory pagers exactly when
      the empty key is not at stake. */
  lemma RowsAgree(c: Contents, prefix: Bytes, startAfter: Bytes)
    ensures Rows(c, prefix, startAfter) == StrictRows(c, prefix, startAfter)
       <==> !(startAfter == [] && prefix == [] && [] in c)
  {
    hide InOrder;
    var a, b := Wanted(c, prefix, startAfter), StrictlyWanted(c, prefix, startAfter);
    if startAfter == [] && prefix == [] && [] in c {
      assert [] in a && [] !in b;
      RowsAtSpec(c, a);
      RowsAtSpec(c, b);
      assert ([], c[[]]) in Rows(c, prefix, startAfter);
    } else {
      assert a == b;
    }
  }

  /** The module-side page is the host's page for the same resolved bounds exactly
      when it holds a single entry at most, or does not reach the byte cap. */
  lemma SdkPageIsHostPage(c: Contents, query: ListQuery)
    requires query.limit != 0 && query.scanLimit != 0 && ResolveQuery(query).Ok?
    requires !(query.startAfter == [] && query.prefix == [] && [] in c)
    ensures
      var page := PageOf(SdkWindow(query), StrictRows(c, query.prefix, query.startAfter));
      ListPage(ResolveQuery(query).value, c, query.prefix, query.startAfter) == page
      <==> |page.entries| <= 1 || Size(page.entries) <= MAX_LIST_RESPONSE_BYTES
  {
    hide Rows, StrictRows, PageOf;
    RowsAgree(c, query.prefix, query.startAfter);
    var w := ResolveQuery(query).value;
    assert w.(bytes := None) == SdkWindow(query);
    CapCutsExactly(w, Rows(c, query.prefix, query.startAfter));
  }

  /** A store that stalls under a query the real pager accepts: the empty key,
      another key, and a scan limit of one. */
  lemma SomeScanStalls()
    ensures
      var query := ListQuery([], [], 0, 1, None);
      && ResolveQuery(query).Ok?
      && ValidWindow(ResolveQuery(query).value)
      && Stalls(ResolveQuery(query).value, map[[] := [], [0] := []], [])
  {
    var c: Contents := map[[] := [], [0] := []];
    var rows := Rows(c, [], []);
    RowsAreWanted(c, [], []);
    assert ([], []) in rows && ([0], []) in rows;
    var i :| 0 <= i < |rows| && rows[i] == ([], []);
    EmptyKeyIsFirst(rows, i);
  }

  /* ----- Bounds ----- */

  /** A query's bounds: zero takes 1024 entries and 8192 rows, larger ones are
      refused, the entries first, and a page holds four mebibytes. */
  lemma BoundsAsDocumented(query: ListQuery)
    ensures query.limit > 1_024 ==> ResolveQuery(query) == Err(ListLimitExceeded(query.limit, 1_024))
    ensures query.limit <= 1_024 && query.scanLimit > 8_192 ==>
              ResolveQuery(query) == Err(ListScanLimitExceeded(query.scanLimit, 8_192))
    ensures query.limit <= 1_024 && query.scanLimit <= 8_192 ==>
              ResolveQuery(query) == Ok(Window(if query.limit == 0 then 1_024 else query.limit,
                                               if query.scanLimit == 0 then 8_192 else query.scanLimit,
                                               Some(4_194_304), query.filter))
  {
  }

  /** A query with zero bounds gets the page of one that asks for the caps. */
  lemma ZeroAsksForTheCaps(query: ListQuery, c: Contents)
    requires query.limit == 0 && query.scanLimit == 0
    ensures
      var capped := query.(limit := 1_024, scanLimit := 8_192);
      && ResolveQuery(query).Ok? && ResolveQuery(capped).Ok?
      && ListPage(ResolveQuery(query).value, c, query.prefix, query.startAfter)
         == ListPage(ResolveQuery(capped).value, c, query.prefix, query.startAfter)
  {
    hide ListPage;
  }

  /** On the module side zero bounds are none: one page has everything. */
  lemma ZeroIsUnbounded(query: ListQuery, rows: seq<Row>)
    requires query.limit == 0 && query.scanLimit == 0 && |rows| < 0xFFFF_FFFF
    ensures PageOf(SdkWindow(query), rows) == EntryPage(Kept(SdkWindow(query), rows), LastText(rows), true)
  {
    hide Kept, LastText;
    var w := SdkWindow(query);
    forall m: nat | m < |rows|
      ensures !Stops(w, rows, m)
    {
      KeptIsFilter(w, rows[..m]);
    }
    EndIsFirstStop(w, rows, |rows|);
    assert rows[..|rows|] == rows;
  }
}
