/** The in-memory double: one plain map per namespace. It is held to the same
    kind of contract as the real store, and then to the real store itself. */
module MockStore {
  import opened Text
  import opened Bytes
  import opened Table
  import opened StoreSpec
  import opened LocalStore
  import opened Paging
  import opened Pagers

  /** The double charges key and value bytes only. */
  function PlainCost(c: Contents): Bytes -> nat {
    key => if key in c then |key| + |c[key]| else 0
  }

  ghost function PlainFootprint(c: Contents): nat {
    Sum(PlainCost(c), c.Keys)
  }

  /** A request's effect on a namespace. */
  function Effect(c: Contents, req: Request): Contents {
    After(c, [], req)
  }

  ghost function PlainCharge(req: Request): nat {
    PlainFootprint(Effect(map[], req))
  }

  /** The contract of a write to the double. */
  ghost function MockPerform(c: Contents, quota: Option<nat>, req: Request): Outcome {
    var needed := PlainFootprint(Effect(c, req));
    if CapVerdict(req).Some? then Refused(CapVerdict(req).value)
    else if req.DeleteOne? || quota.None? || needed <= quota.value then Written(Effect(c, req))
    else if PlainCharge(req) > quota.value then Refused(QuotaUnsatisfiable(PlainCharge(req), quota.value))
    else Refused(QuotaExceeded(needed, quota.value))
  }

  /* ----- Footprints of the double ----- */

  /** Releasing and charging the touched keys is exact here too. */
  lemma PlainFootprintAfterWrite(c: Contents, req: Request)
    ensures
      var keys := Touched([], Ops(req));
      && Sum(PlainCost(c), keys) <= PlainFootprint(c)
      && PlainCharge(req) == Sum(PlainCost(Effect(c, req)), keys)
      && PlainFootprint(Effect(c, req)) == PlainFootprint(c) - Sum(PlainCost(c), keys) + PlainCharge(req)
  {
    hide Sum, ApplyAll;
    var ops := Ops(req);
    var keys, c' := Touched([], ops), Effect(c, req);
    WritesOnlyTouched(c, [], ops);
    WritesOnlyTouched(map[], [], ops);
    PlainSplits(c, keys);
    PlainSplits(c', keys);
    assert c.Keys - keys == c'.Keys - keys;
    SumSame(PlainCost(c), PlainCost(c'), c.Keys - keys);
    var scratch := Effect(map[], req);
    forall k | k in keys
      ensures PlainCost(scratch)(k) == PlainCost(c')(k)
    {
      TouchedIsForgetful(c, map[], [], ops, k);
    }
    SumSame(PlainCost(scratch), PlainCost(c'), keys);
    PlainSplits(scratch, keys);
    assert scratch.Keys - keys == {};
    SumZero(PlainCost(scratch), {});
  }

  lemma PlainSplits(c: Contents, keys: set<Bytes>)
    ensures PlainFootprint(c) == Sum(PlainCost(c), keys) + Sum(PlainCost(c), c.Keys - keys)
  {
    hide Sum;
    var present, absent := keys * c.Keys, keys - c.Keys;
    SumSplit(PlainCost(c), present, absent);
    assert present + absent == keys;
    SumZero(PlainCost(c), absent);
    SumSplit(PlainCost(c), present, c.Keys - keys);
    assert present + (c.Keys - keys) == c.Keys;
  }

  /* ----- The double ----- */

  class Mock {
    var namespaces: map<Bytes, Contents>

    constructor ()
      ensures namespaces == map[]
    {
      namespaces := map[];
    }

    function Of(namespace: Bytes): Contents
      reads this
    {
      if namespace in namespaces then namespaces[namespace] else map[]
    }

    method Set(namespace: Bytes, quota: Option<nat>, key: Bytes, value: Bytes) returns (r: Result<(), StorageError>)
      modifies this
      ensures
        match MockPerform(old(Of(namespace)), quota, SetOne(key, value))
        case Refused(e) => r == Err(e) && Of(namespace) == old(Of(namespace))
        case Written(c) => r == Ok(()) && Of(namespace) == c
      ensures forall other :: other != namespace ==> Of(other) == old(Of(other))
    {
      hide Sum, PlainFootprint, PlainCharge;
      var ns := Of(namespace);
      namespaces := namespaces[namespace := ns];
      PlainSet(ns, key, value);
      if quota.Some? {
        var entry := |key| + |value|;
        var released := PlainCost(ns)(key);
        var used := Total(ns);
        var projected := SaturatingSub(used, released) + entry;
        if projected > quota.value {
          return Err(if entry > quota.value
                     then QuotaUnsatisfiable(entry, quota.value)
                     else QuotaExceeded(projected, quota.value));
        }
      }
      namespaces := namespaces[namespace := ns[key := value]];
      r := Ok(());
    }

    method Delete(namespace: Bytes, key: Bytes) returns (r: Result<(), StorageError>)
      modifies this
      ensures r == Ok(()) && Of(namespace) == Effect(old(Of(namespace)), DeleteOne(key))
      ensures forall other :: other != namespace ==> Of(other) == old(Of(other))
    {
      OneOp(Of(namespace), [], StoreSpec.Delete(key));
      NoPrefix(key);
      if namespace in namespaces {
        namespaces := namespaces[namespace := namespaces[namespace] - {key}];
      }
      r := Ok(());
    }

    method Apply(namespace: Bytes, quota: Option<nat>, ops: seq<WriteOp>) returns (r: Result<(), StorageError>)
      modifies this
      ensures
        match MockPerform(old(Of(namespace)), quota, Batch(ops))
        case Refused(e) => r == Err(e) && Of(namespace) == old(Of(namespace))
        case Written(c) => r == Ok(()) && Of(namespace) == c
      ensures forall other :: other != namespace ==> Of(other) == old(Of(other))
    {
      hide Sum, PlainFootprint, PlainCharge, ApplyAll, Touched, ValueBytes;
      if |ops| > MAX_APPLY_OPS {
        return Err(ApplyOpsExceeded(|ops|, MAX_APPLY_OPS));
      }
      var valueBytes := ValueBytes(ops);
      if valueBytes > MAX_APPLY_VALUE_BYTES {
        return Err(ApplyBytesExceeded(valueBytes, MAX_APPLY_VALUE_BYTES));
      }
      var ns := Of(namespace);
      namespaces := namespaces[namespace := ns];
      PlainFootprintAfterWrite(ns, Batch(ops));
      if quota.Some? {
        var used := Total(ns);
        var released, charged := PlainNetCost(ns, ops);
        var projected := SaturatingSub(used, released) + charged;
        if projected > quota.value {
          return Err(if charged > quota.value
                     then QuotaUnsatisfiable(charged, quota.value)
                     else QuotaExceeded(projected, quota.value));
        }
      }
      var staged := PlainStage(ns, ops);
      namespaces := namespaces[namespace := staged];
      r := Ok(());
    }

    /** One page under `query`; keys are text. */
    method ListEntries(namespace: Bytes, query: ListQuery) returns (r: Result<EntryPage, StorageError>)
      requires TextKeys(Of(namespace))
      ensures
        match ResolveQuery(query)
        case Err(e) => r == Err(e)
        case Ok(w) => r == Ok(PageOf(w, StrictRows(Of(namespace), query.prefix, query.startAfter)))
    {
      hide InOrder, Kept, Size, ValidUtf8, StrictRows;
      var resolved := ResolveQuery(query);
      if resolved.Err? {
        return Err(resolved.error);
      }
      var w := resolved.value;
      var rows := StrictRows(Of(namespace), query.prefix, query.startAfter);
      StrictRowsAreText(Of(namespace), query.prefix, query.startAfter);
      var page := EntryPage([], None, true);
      var bytes: nat := 0;
      FillingStarts(w, rows);
      for examined := 0 to |rows|
        invariant Filling(w, rows, examined, page, bytes)
      {
        var row := rows[examined];
        if examined == w.scan {
          page := page.(exhausted := false);
          FillingEnds(w, rows, examined, page.(exhausted := true), bytes);
          return Ok(page);
        }
        if query.filter.None? || query.filter.value.Keeps(row.1) {
          var cost := |row.0| + |row.1|;
          if |page.entries| == w.limit || (page.entries != [] && bytes + cost > MAX_LIST_RESPONSE_BYTES) {
            page := page.(exhausted := false);
            FillingEnds(w, rows, examined, page.(exhausted := true), bytes);
            return Ok(page);
          }
          FillingStep(w, rows, examined, page, bytes);
          bytes := bytes + cost;
          page := page.(entries := page.entries + [row]);
        } else {
          FillingStep(w, rows, examined, page, bytes);
        }
        page := page.(lastExamined := Some(row.0));
      }
      FillingEnds(w, rows, |rows|, page, bytes);
      return Ok(page);
    }
  }

  function One(op: WriteOp): Request {
    match op
    case Set(key, value) => SetOne(key, value)
    case Delete(key) => DeleteOne(key)
  }

  /** A host as a batch sees it: one call per operation, giving the host's next
      state and its answer. */
  type Host<!S, F> = (S, WriteOp) -> (S, Result<(), F>)

  /** The host after the first `n` calls. */
  function Called<S, F>(host: Host<S, F>, start: S, ops: seq<WriteOp>, n: nat): S
    requires n <= |ops|
  {
    if n == 0 then start else host(Called(host, start, ops, n - 1), ops[n - 1]).0
  }

  /** The host's answer to call `n`. */
  function Answer<S, F>(host: Host<S, F>, start: S, ops: seq<WriteOp>, n: nat): Result<(), F>
    requires n < |ops|
  {
    host(Called(host, start, ops, n), ops[n]).1
  }

  /** The module-side fallback for a batch, on any host: one call per operation,
      in order, stopping at the first refusal. `made` is the number of calls. */
  method DefaultApply<S, F>(host: Host<S, F>, start: S, ops: seq<WriteOp>)
    returns (end: S, r: Result<(), F>, made: nat)
    ensures made <= |ops| && end == Called(host, start, ops, made)
    ensures r.Ok? ==> made == |ops| && forall k :: 0 <= k < |ops| ==> Answer(host, start, ops, k).Ok?
    ensures r.Err? ==> 0 < made && Answer(host, start, ops, made - 1) == r
                       && forall k :: 0 <= k < made - 1 ==> Answer(host, start, ops, k).Ok?
  {
    end, made := start, 0;
    for i := 0 to |ops|
      invariant made == i && end == Called(host, start, ops, i)
      invariant forall k :: 0 <= k < i ==> Answer(host, start, ops, k).Ok?
    {
      var (next, answer) := host(end, ops[i]);
      end, made := next, i + 1;
      if answer.Err? {
        return end, answer, made;
      }
    }
    r := Ok(());
  }

  /** The double, as a host of one namespace. */
  ghost function DoubleHost(quota: Option<nat>): Host<Contents, StorageError> {
    (c: Contents, op: WriteOp) =>
      match MockPerform(c, quota, One(op))
      case Written(next) => (next, Ok(()))
      case Refused(e) => (c, Err(e))
  }

  /** On the double the fallback leaves exactly the operations before the first
      refusal applied. */
  lemma {:induction false} FallbackLeavesAPrefix(c: Contents, quota: Option<nat>, ops: seq<WriteOp>, n: nat)
    requires n <= |ops|
    requires forall k :: 0 <= k < n ==> Answer(DoubleHost(quota), c, ops, k).Ok?
    ensures Called(DoubleHost(quota), c, ops, n) == ApplyAll(c, [], ops[..n])
    ensures n < |ops| && Answer(DoubleHost(quota), c, ops, n).Err? ==>
              Called(DoubleHost(quota), c, ops, n + 1) == ApplyAll(c, [], ops[..n])
  {
    hide MockPerform, ApplyAll, Effect;
    if n == 0 {
      assert ops[..0] == [];
      NoOps(c);
    } else {
      FallbackLeavesAPrefix(c, quota, ops, n - 1);
      assert Answer(DoubleHost(quota), c, ops, n - 1).Ok?;
      OneMoreOp(c, quota, ops, n - 1);
    }
  }

  lemma NoOps(c: Contents)
    ensures ApplyAll(c, [], []) == c
  {
  }

  /** Performing the next operation alone extends the run by it; a delete is
      never refused. */
  lemma OneMoreOp(c: Contents, quota: Option<nat>, ops: seq<WriteOp>, i: nat)
    requires i < |ops|
    ensures
      var now := ApplyAll(c, [], ops[..i]);
      && Effect(now, One(ops[i])) == ApplyAll(c, [], ops[..i + 1])
      && (match MockPerform(now, quota, One(ops[i]))
          case Written(next) => next == Effect(now, One(ops[i]))
          case Refused(_) => ops[i].Set?)
  {
    hide PlainFootprint, PlainCharge;
    assert ops[..i + 1][..i] == ops[..i];
    OneOp(ApplyAll(c, [], ops[..i]), [], ops[i]);
  }

  /** From a namespace within quota, a batch that the fallback lands op by op is
      also landed whole, with the same result. */
  lemma FallbackIsStricter(c: Contents, quota: Option<nat>, ops: seq<WriteOp>)
    requires quota.Some? ==> PlainFootprint(c) <= quota.value
    requires forall k :: 0 <= k < |ops| ==> MockPerform(ApplyAll(c, [], ops[..k]), quota, One(ops[k])).Written?
    requires CapVerdict(Batch(ops)).None?
    ensures MockPerform(c, quota, Batch(ops)) == Written(ApplyAll(c, [], ops))
  {
    hide PlainFootprint, PlainCharge, CapVerdict, ApplyAll;
    if quota.Some? { FallbackStaysWithin(c, quota, ops, |ops|); }
    assert ops[..|ops|] == ops;
  }

  lemma {:induction false} FallbackStaysWithin(c: Contents, quota: Option<nat>, ops: seq<WriteOp>, n: nat)
    requires quota.Some? && PlainFootprint(c) <= quota.value && n <= |ops|
    requires forall k :: 0 <= k < |ops| ==> MockPerform(ApplyAll(c, [], ops[..k]), quota, One(ops[k])).Written?
    ensures PlainFootprint(ApplyAll(c, [], ops[..n])) <= quota.value
  {
    hide PlainFootprint, PlainCharge, ApplyAll, Effect;
    if n == 0 {
      assert ops[..0] == [];
      NoOps(c);
    } else {
      var k := n - 1;
      FallbackStaysWithin(c, quota, ops, k);
      var now := ApplyAll(c, [], ops[..k]);
      assert MockPerform(now, quota, One(ops[k])).Written?;
      OneMoreOp(c, quota, ops, k);
      if ops[k].Delete? { DeleteShrinks(now, ops[k].key); }
    }
  }

  lemma DeleteShrinks(c: Contents, key: Bytes)
    ensures PlainFootprint(Effect(c, DeleteOne(key))) <= PlainFootprint(c)
  {
    var req := DeleteOne(key);
    OneOp(c, [], StoreSpec.Delete(key));
    NoPrefix(key);
    var c' := Effect(c, req);
    assert key !in c';
    hide Sum, ApplyAll, PlainFootprint, PlainCharge;
    PlainFootprintAfterWrite(c, req);
    SumZero(PlainCost(c'), {key});
  }

  method Total(c: Contents) returns (used: nat)
    ensures used == PlainFootprint(c)
  {
    hide Sum, PlainCost;
    used := 0;
    var todo := c.Keys;
    assert c.Keys - todo == {};
    SumZero(PlainCost(c), {});
    while todo != {}
      invariant todo <= c.Keys && used == Sum(PlainCost(c), c.Keys - todo)
      decreases |todo|
    {
      var key :| key in todo;
      SumAdd(PlainCost(c), c.Keys - todo, key);
      assert c.Keys - todo + {key} == c.Keys - (todo - {key});
      PlainCostOf(c, key);
      used := used + |key| + |c[key]|;
      todo := todo - {key};
    }
    assert c.Keys - todo == c.Keys;
  }

  lemma PlainCostOf(c: Contents, key: Bytes)
    requires key in c
    ensures PlainCost(c)(key) == |key| + |c[key]|
  {
  }

  method PlainStage(c: Contents, ops: seq<WriteOp>) returns (staged: Contents)
    ensures staged == Effect(c, Batch(ops))
  {
    staged := c;
    for i := 0 to |ops|
      invariant staged == ApplyAll(c, [], ops[..i])
    {
      assert ops[..i + 1][..i] == ops[..i];
      NoPrefix(ops[i].key);
      match ops[i] {
        case Set(key, value) => staged := staged[key := value];
        case Delete(key) => staged := staged - {key};
      }
    }
    assert ops[..|ops|] == ops;
  }

  method PlainNetCost(c: Contents, ops: seq<WriteOp>) returns (released: nat, charged: nat)
    ensures released == Sum(PlainCost(c), Touched([], ops))
    ensures charged == Sum(PlainCost(Effect(c, Batch(ops))), Touched([], ops))
  {
    hide Sum, Finals, PlainCost, Effect, Touched, Fulls, PlainCostThen;
    var finals := LastWins(ops);
    ghost var after := Effect(c, Batch(ops));
    released, charged := 0, 0;
    var todo := finals.Keys;
    assert finals.Keys - todo == {};
    SumZero(PlainCost(c), {});
    SumZero(PlainCost(after), {});
    while todo != {}
      invariant todo <= finals.Keys
      invariant released == Sum(PlainCost(c), finals.Keys - todo)
      invariant charged == Sum(PlainCost(after), finals.Keys - todo)
      decreases |todo|
    {
      var key :| key in todo;
      PlainCostStep(c, ops, finals.Keys - todo, key);
      assert finals.Keys - todo + {key} == finals.Keys - (todo - {key});
      released := released + PlainCost(c)(key);
      charged := charged + PlainCostThen(key, finals[key]);
      todo := todo - {key};
    }
    FinalsAreTouched([], ops);
    NoPrefixes(finals.Keys);
    assert finals.Keys - todo == finals.Keys;
  }

  function PlainCostThen(key: Bytes, len: Option<nat>): nat {
    if len.Some? then |key| + len.value else 0
  }

  lemma PlainCostStep(c: Contents, ops: seq<WriteOp>, keys: set<Bytes>, key: Bytes)
    requires key !in keys && key in Finals(ops)
    ensures Sum(PlainCost(c), keys + {key}) == Sum(PlainCost(c), keys) + PlainCost(c)(key)
    ensures
      var after := Effect(c, Batch(ops));
      Sum(PlainCost(after), keys + {key}) == Sum(PlainCost(after), keys) + PlainCostThen(key, Finals(ops)[key])
  {
    hide Sum, ApplyAll, Finals;
    FinalIsLast(c, [], ops, key);
    NoPrefix(key);
    SumAdd(PlainCost(c), keys, key);
    SumAdd(PlainCost(Effect(c, Batch(ops))), keys, key);
  }

  lemma NoPrefix(key: Bytes)
    ensures BuildKey([], key) == key
  {
  }

  lemma NoPrefixes(keys: set<Bytes>)
    ensures Fulls([], keys) == keys
  {
    forall key ensures BuildKey([], key) == key { NoPrefix(key); }
  }

  lemma PlainSet(c: Contents, key: Bytes, value: Bytes)
    ensures Effect(c, SetOne(key, value)) == c[key := value]
    ensures PlainCharge(SetOne(key, value)) == |key| + |value|
    ensures PlainCost(c)(key) <= PlainFootprint(c)
    ensures PlainFootprint(c[key := value]) == PlainFootprint(c) - PlainCost(c)(key) + |key| + |value|
  {
    var req := SetOne(key, value);
    OneOp(c, [], StoreSpec.Set(key, value));
    NoPrefix(key);
    PlainFootprintAfterWrite(c, req);
    OneKey(PlainCost(c), key);
    OneKey(PlainCost(c[key := value]), key);
  }

  lemma StrictRowsAreText(c: Contents, prefix: Bytes, startAfter: Bytes)
    requires TextKeys(c)
    ensures forall i :: 0 <= i < |StrictRows(c, prefix, startAfter)| ==>
              ValidUtf8(StrictRows(c, prefix, startAfter)[i].0)
  {
    hide InOrder, ValidUtf8;
  }

  /* ----- The double and the real store ----- */

  /** What a module sees of the real store changes as the double's map does, for
      every request. */
  lemma ViewFollowsTheDouble(t: Table, prefix: Bytes, req: Request)
    ensures ContentsOf(After(t, prefix, req), prefix) == Effect(ContentsOf(t, prefix), req)
  {
    ViewOfOps(t, prefix, Ops(req));
  }

  lemma {:induction false} ViewOfOps(t: Table, prefix: Bytes, ops: seq<WriteOp>)
    ensures ContentsOf(ApplyAll(t, prefix, ops), prefix) == ApplyAll(ContentsOf(t, prefix), [], ops)
  {
    if ops != [] {
      var init, op := ops[..|ops| - 1], ops[|ops| - 1];
      ViewOfOps(t, prefix, init);
      ViewOfOp(ApplyAll(t, prefix, init), prefix, op);
    }
  }

  lemma ViewOfOp(t: Table, prefix: Bytes, op: WriteOp)
    ensures ContentsOf(ApplyOne(t, prefix, op), prefix) == ApplyOne(ContentsOf(t, prefix), [], op)
  {
    hide ContentsOf;
    NoPrefix(op.key);
    match op
    case Set(key, value) => ViewOfSet(t, prefix, key, value);
    case Delete(key) => ViewOfDelete(t, prefix, key);
  }

  lemma ViewOfSet(t: Table, prefix: Bytes, key: Bytes, value: Bytes)
    ensures ContentsOf(t[BuildKey(prefix, key) := value], prefix) == ContentsOf(t, prefix)[key := value]
  {
    hide ContentsOf, BuildKey;
    KeysStayApart(prefix, key);
  }

  lemma ViewOfDelete(t: Table, prefix: Bytes, key: Bytes)
    ensures ContentsOf(t - {BuildKey(prefix, key)}, prefix) == ContentsOf(t, prefix) - {key}
  {
    hide ContentsOf, BuildKey;
    KeysStayApart(prefix, key);
  }

  lemma KeysStayApart(prefix: Bytes, key: Bytes)
    ensures forall k :: BuildKey(prefix, k) == BuildKey(prefix, key) <==> k == key
  {
    hide BuildKey;
    forall k
      ensures BuildKey(prefix, k) == BuildKey(prefix, key) <==> k == key
    {
      if BuildKey(prefix, k) == BuildKey(prefix, key) { SameKey(prefix, k, key); }
    }
  }

  /** The two footprints differ by the prefix and the overhead of every entry:
      a quota on the real store is that much tighter. */
  lemma FootprintsDifferByOverhead(t: Table, prefix: Bytes)
    ensures
      var c := ContentsOf(t, prefix);
      Footprint(t, prefix) == PlainFootprint(c) + (|prefix| + ENTRY_OVERHEAD) * |c|
  {
    hide Sum, ContentsOf;
    var c := ContentsOf(t, prefix);
    OverheadPerKey(t, prefix, c.Keys, |prefix| + ENTRY_OVERHEAD);
    assert Fulls(prefix, c.Keys) == Under(t, prefix) by {
      forall k | k in Under(t, prefix)
        ensures k in Fulls(prefix, c.Keys)
      {
        assert k == BuildKey(prefix, k[|prefix|..]);
      }
    }
    assert |c| == |c.Keys|;
  }

  /** In a namespace, which has a prefix of 32 bytes, that is 64 bytes an entry. */
  lemma SixtyFourBytesAnEntry(t: Table, h: Handle)
    requires |h.prefix| == PREFIX_LEN
    ensures
      var c := ContentsOf(t, h.prefix);
      Footprint(t, h.prefix) == PlainFootprint(c) + 64 * |c|
  {
    hide Footprint, PlainFootprint, ContentsOf;
    FootprintsDifferByOverhead(t, h.prefix);
  }

  lemma {:induction false} OverheadPerKey(t: Table, prefix: Bytes, keys: set<Bytes>, o: nat)
    requires keys <= ContentsOf(t, prefix).Keys && o == |prefix| + ENTRY_OVERHEAD
    ensures Sum(Cost(t), Fulls(prefix, keys)) == Sum(PlainCost(ContentsOf(t, prefix)), keys) + o * |keys|
    decreases |keys|
  {
    hide ContentsOf, Sum, Cost, PlainCost, Fulls, BuildKey;
    if keys == {} {
      assert Fulls(prefix, {}) == {} by { NoFulls(prefix); }
      SumZero(Cost(t), {});
      SumZero(PlainCost(ContentsOf(t, prefix)), {});
    } else {
      var key :| key in keys;
      var rest := keys - {key};
      OverheadPerKey(t, prefix, rest, o);
      OverheadStep(t, prefix, rest, key, o);
      assert rest + {key} == keys;
    }
  }

  lemma OverheadStep(t: Table, prefix: Bytes, keys: set<Bytes>, key: Bytes, o: nat)
    requires key in ContentsOf(t, prefix) && key !in keys && o == |prefix| + ENTRY_OVERHEAD
    requires Sum(Cost(t), Fulls(prefix, keys)) == Sum(PlainCost(ContentsOf(t, prefix)), keys) + o * |keys|
    ensures Sum(Cost(t), Fulls(prefix, keys + {key}))
         == Sum(PlainCost(ContentsOf(t, prefix)), keys + {key}) + o * |keys + {key}|
  {
    hide ContentsOf, Sum, Cost, PlainCost, Fulls, BuildKey;
    FullsStep(prefix, keys, key);
    OneMoreKey(t, prefix, keys, key);
    OneMore(o, |keys|);
  }

  lemma OneMore(o: nat, n: nat)
    ensures o * (n + 1) == o * n + o
  {
  }

  lemma OneMoreKey(t: Table, prefix: Bytes, keys: set<Bytes>, key: Bytes)
    requires key in ContentsOf(t, prefix) && key !in keys && BuildKey(prefix, key) !in Fulls(prefix, keys)
    ensures Sum(Cost(t), Fulls(prefix, keys) + {BuildKey(prefix, key)})
         == Sum(Cost(t), Fulls(prefix, keys)) + PlainCost(ContentsOf(t, prefix))(key) + |prefix| + ENTRY_OVERHEAD
    ensures Sum(PlainCost(ContentsOf(t, prefix)), keys + {key})
         == Sum(PlainCost(ContentsOf(t, prefix)), keys) + PlainCost(ContentsOf(t, prefix))(key)
  {
    hide Sum, Fulls, ContentsOf;
    SumAdd(Cost(t), Fulls(prefix, keys), BuildKey(prefix, key));
    SumAdd(PlainCost(ContentsOf(t, prefix)), keys, key);
  }

  lemma DoubleIsSmaller(t: Table, prefix: Bytes)
    ensures PlainFootprint(ContentsOf(t, prefix)) <= Footprint(t, prefix)
  {
    hide Footprint, PlainFootprint, ContentsOf;
    FootprintsDifferByOverhead(t, prefix);
    assert (|prefix| + ENTRY_OVERHEAD) * |ContentsOf(t, prefix)| >= 0;
  }

  /** So whatever lands on the real store under a quota lands on the double under
      the same quota. */
  lemma DoubleIsLooser(t: Table, h: Handle, req: Request)
    requires Perform(t, h, req, Works).Written?
    ensures MockPerform(ContentsOf(t, h.prefix), h.quota, req)
         == Written(ContentsOf(Perform(t, h, req, Works).table, h.prefix))
  {
    hide Footprint, PlainFootprint, After, Effect, ContentsOf, Charge, PlainCharge, CapVerdict;
    ViewFollowsTheDouble(t, h.prefix, req);
    DoubleIsSmaller(After(t, h.prefix, req), h.prefix);
  }

  /** What the plain contents of a namespace weigh on the real store. */
  function Overhead(h: Handle, c: Contents): nat {
    (|h.prefix| + ENTRY_OVERHEAD) * |c|
  }

  /** Real store and double refuse alike, and otherwise land the same contents. */
  ghost predicate AgreeOn(t: Table, h: Handle, req: Request) {
    match Perform(t, h, req, Works)
    case Refused(_) => MockPerform(ContentsOf(t, h.prefix), h.quota, req).Refused?
    case Written(next) => MockPerform(ContentsOf(t, h.prefix), h.quota, req) == Written(ContentsOf(next, h.prefix))
  }

  /** The quota falls between what the request would leave in key and value bytes
      and what that weighs on the real store. */
  ghost predicate QuotaInTheGap(t: Table, h: Handle, req: Request) {
    var c := Effect(ContentsOf(t, h.prefix), req);
    h.quota.Some? && PlainFootprint(c) <= h.quota.value < PlainFootprint(c) + Overhead(h, c)
  }

  /** The exact condition for a quota on the real store to be a quota on key and
      value bytes: the two part on a write if and only if its quota is in the
      gap. Requests past their caps, and single deletes, never part them. */
  lemma AgreeUnlessInTheGap(t: Table, h: Handle, req: Request)
    ensures AgreeOn(t, h, req) <==> !(CapVerdict(req).None? && !req.DeleteOne? && QuotaInTheGap(t, h, req))
  {
    hide Footprint, PlainFootprint, After, Effect, ContentsOf, Charge, PlainCharge, CapVerdict, Overhead;
    WeightOnTheRealStore(t, h, req);
    ViewFollowsTheDouble(t, h.prefix, req);
  }

  lemma WeightOnTheRealStore(t: Table, h: Handle, req: Request)
    ensures
      var c := Effect(ContentsOf(t, h.prefix), req);
      Footprint(After(t, h.prefix, req), h.prefix) == PlainFootprint(c) + Overhead(h, c)
  {
    hide Footprint, PlainFootprint, After, Effect, ContentsOf;
    ViewFollowsTheDouble(t, h.prefix, req);
    FootprintsDifferByOverhead(After(t, h.prefix, req), h.prefix);
  }

  /** One byte of key and one of value do not fit in a quota of ten bytes on the
      real store. */
  lemma TenBytesHoldNothing(prefix: Bytes)
    requires |prefix| == PREFIX_LEN
    ensures !AgreeOn(map[], Handle(prefix, Some(10)), SetOne([1], [2]))
    ensures MockPerform(map[], Some(10), SetOne([1], [2])) == Written(map[[1] := [2]])
  {
    hide PlainFootprint, Effect, ContentsOf, PlainCharge, AgreeOn;
    var h, req := Handle(prefix, Some(10)), SetOne([1], [2]);
    TwoBytes();
    assert ContentsOf(map[], prefix) == map[];
    AgreeUnlessInTheGap(map[], h, req);
  }

  lemma TwoBytes()
    ensures Effect(map[], SetOne([1], [2])) == map[[1] := [2]]
    ensures PlainFootprint(map[[1] := [2]]) == 2 && |map[[1] := [2]]| == 1
  {
    hide PlainFootprint, Effect, PlainCharge;
    var none: Contents := map[];
    PlainSet(none, [1], [2]);
    NothingWeighsNothing();
    var c := none[[1] := [2]];
    assert c == map[[1] := [2]];
    assert |c.Keys| == 1 by { assert c.Keys == {[1]}; }
  }

  lemma NothingWeighsNothing()
    ensures PlainFootprint(map[]) == 0
  {
    var none: Contents := map[];
    assert none.Keys == {};
    SumZero(PlainCost(none), {});
  }

  /** Real and double give the same page when the empty key is not at stake. */
  lemma PagesAgree(t: Table, h: Handle, query: ListQuery, w: Window)
    requires !(query.startAfter == [] && query.prefix == [] && [] in ContentsOf(t, h.prefix))
    ensures PageOf(w, StrictRows(ContentsOf(t, h.prefix), query.prefix, query.startAfter))
         == ListPage(w, ContentsOf(t, h.prefix), query.prefix, query.startAfter)
  {
    hide PageOf, StrictRows, Rows, ContentsOf;
    RowsAgree(ContentsOf(t, h.prefix), query.prefix, query.startAfter);
  }
}
