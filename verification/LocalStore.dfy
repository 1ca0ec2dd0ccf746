/** The local store: one table shared by all namespaces, and a cache of live
    bytes per namespace that is seeded on first need. Every write is proved
    against the cache-free contract in `StoreSpec`. */
module LocalStore {
  import opened Text
  import opened Bytes
  import opened Table
  import opened StoreSpec

  function SaturatingSub(a: nat, b: nat): nat {
    if a < b then 0 else a - b
  }

  /** Every tracked counter is the full-scan footprint of its namespace. */
  ghost predicate CountersAgree(t: Table, counters: map<Bytes, nat>) {
    forall p :: p in counters ==> |p| == PREFIX_LEN && counters[p] == Footprint(t, p)
  }

  /** `counters` after a write that landed: a tracked namespace is at its new
      footprint. */
  ghost function Recount(t: Table, counters: map<Bytes, nat>, h: Handle, req: Request): map<Bytes, nat> {
    if h.prefix in counters || (h.quota.Some? && !req.DeleteOne?)
    then counters[h.prefix := Footprint(t, h.prefix)]
    else counters
  }

  /** The last thing each key of a batch is told: the length of its new value,
      or nothing. */
  function Finals(ops: seq<WriteOp>): map<Bytes, Option<nat>> {
    if ops == [] then map[]
    else
      var init, last := ops[..|ops| - 1], ops[|ops| - 1];
      Finals(init)[last.key := match last case Set(_, value) => Some(|value|) case Delete(_) => None]
  }

  /** What the entry at a module key costs now. */
  function CostNow(t: Table, prefix: Bytes, key: Bytes): nat {
    var full := BuildKey(prefix, key);
    if full in t then EntryCost(prefix, |key|, |t[full]|) else 0
  }

  /** What it will cost, given its new value's length. */
  function CostThen(prefix: Bytes, key: Bytes, len: Option<nat>): nat {
    if len.Some? then EntryCost(prefix, |key|, len.value) else 0
  }

  class Store {
    var table: Table
    var counters: map<Bytes, nat>

    ghost predicate Valid()
      reads this
    {
      CountersAgree(table, counters)
    }

    constructor (table: Table)
      ensures Valid() && this.table == table && counters == map[]
    {
      this.table := table;
      counters := map[];
    }

    /** The footprint of a namespace, by one walk over its keys. */
    method UsedBytes(prefix: Bytes, io: Io) returns (r: Result<nat, StorageError>)
      ensures r == if io.AccessFails? then Err(Storage) else Ok(Footprint(table, prefix))
    {
      if io.AccessFails? {
        return Err(Storage);
      }
      var used := 0;
      hide Range, Under, InOrder, Sum, StartsWith;
      var ks := Range(table, Included(prefix));
      RangeIsOrdered(table, Included(prefix));
      hide Sorted, Above;
      var i := 0;
      while i < |ks|
        invariant 0 <= i <= RunLength(ks, prefix)
        invariant used == Sum(Cost(table), Elems(ks[..i]))
      {
        if !StartsWith(ks[i], prefix) {
          break;
        }
        ElemsStep(ks, i);
        SumAdd(Cost(table), Elems(ks[..i]), ks[i]);
        used := used + EntryCost(prefix, |ks[i]| - |prefix|, |table[ks[i]]|);
        i := i + 1;
      }
      assert i == RunLength(ks, prefix);
      PrefixWalk(table, prefix);
      assert Elems(ks[..i]) == Under(table, prefix);
      r := Ok(used);
    }

    /** How many of the module's keys have a prefix. */
    method Count(h: Handle, prefix: Bytes, io: Io) returns (r: Result<nat, StorageError>)
      ensures
        match ReadFault(io)
        case Some(e) => r == Err(e)
        case None => r == Ok(|Under(table, BuildKey(h.prefix, prefix))|)
    {
      hide Range, Under, InOrder, StartsWith;
      var fullPrefix := BuildKey(h.prefix, prefix);
      if io.TxnFails? {
        return Err(Txn);
      }
      if io.TableFails? {
        return Err(OpenTable);
      }
      if io.AccessFails? {
        return Err(Storage);
      }
      var count := 0;
      var ks := Range(table, Included(fullPrefix));
      for i := 0 to |ks|
        invariant i <= RunLength(ks, fullPrefix) && count == i
      {
        if !StartsWith(ks[i], fullPrefix) {
          break;
        }
        count := count + 1;
      }
      assert count == RunLength(ks, fullPrefix);
      PrefixWalk(table, fullPrefix);
      InOrderLength(Under(table, fullPrefix));
      r := Ok(count);
    }

    /** The module's keys under `prefix`, in order; a key that is not text is
        passed over. */
    method ListKeys(h: Handle, prefix: Bytes, io: Io) returns (r: Result<seq<Bytes>, StorageError>)
      ensures
        match ReadFault(io)
        case Some(e) => r == Err(e)
        case None =>
          && r.Ok?
          && Sorted(r.value)
          && forall key :: key in r.value <==>
               BuildKey(h.prefix, key) in table && StartsWith(key, prefix) && ValidUtf8(key)
    {
      hide Range, Under, InOrder, ValidUtf8, Sorted;
      var fullPrefix := BuildKey(h.prefix, prefix);
      if io.TxnFails? {
        return Err(Txn);
      }
      if io.TableFails? {
        return Err(OpenTable);
      }
      if io.AccessFails? {
        return Err(Storage);
      }
      var out := [];
      var ks := Range(table, Included(fullPrefix));
      var i := 0;
      while i < |ks|
        invariant 0 <= i <= RunLength(ks, fullPrefix)
        invariant forall j :: 0 <= j < i ==> StartsWith(ks[j], h.prefix)
        invariant out == Texts(h.prefix, ks[..i])
      {
        if !StartsWith(ks[i], fullPrefix) {
          break;
        }
        var key := ks[i][|h.prefix|..];
        assert ks[..i + 1][..i] == ks[..i];
        if ValidUtf8(key) {
          out := out + [key];
        }
        i := i + 1;
      }
      assert i == RunLength(ks, fullPrefix);
      PrefixWalk(table, fullPrefix);
      ListedKeys(table, h.prefix, prefix);
      r := Ok(out);
    }

    /** Write one entry, unless the quota forbids it. */
    method Set(h: Handle, key: Bytes, value: Bytes, io: Io) returns (r: Result<(), StorageError>)
      requires Valid() && |h.prefix| == PREFIX_LEN
      modifies this
      ensures Valid()
      ensures
        var req := SetOne(key, value);
        match Perform(old(table), h, req, io)
        case Refused(e) => r == Err(e) && table == old(table) && counters == old(counters)
        case Written(t) => r == Ok(()) && table == t && counters == Recount(t, old(counters), h, req)
    {
      hide Footprint, After, Charge, CountersAgree, EntryCost, BuildKey, CostNow;
      ghost var req := SetOne(key, value);
      var full := BuildKey(h.prefix, key);
      if io.TxnFails? {
        return Err(Txn);
      }
      var track := h.quota.Some? || h.prefix in counters;
      var projected := 0;
      if io.TableFails? {
        return Err(OpenTable);
      }
      if io.AccessFails? {
        return Err(Storage);
      }
      SetEffect(table, h.prefix, key, value);
      if track {
        var entry := EntryCost(h.prefix, |key|, |value|);
        var released := CostNow(table, h.prefix, key);
        var used;
        if h.prefix in counters {
          used := counters[h.prefix];
        } else {
          var scanned := UsedBytes(h.prefix, io);
          used := scanned.value;
        }
        CounterIsFootprint(table, counters, h.prefix);
        assert used == Footprint(table, h.prefix) && released <= used;
        projected := SaturatingSub(used, released) + entry;
        if h.quota.Some? && projected > h.quota.value {
          return Err(if entry > h.quota.value
                     then QuotaUnsatisfiable(entry, h.quota.value)
                     else QuotaExceeded(projected, h.quota.value));
        }
      }
      if io.InsertFails? {
        return Err(Storage);
      }
      if io.CommitFails? {
        return Err(Commit);
      }
      CountersAfter(table, counters, h, req);
      table := table[full := value];
      if track {
        counters := counters[h.prefix := projected];
      }
      r := Ok(());
    }

    /** Delete; deleting a missing key changes nothing. */
    method Delete(h: Handle, key: Bytes, io: Io) returns (r: Result<(), StorageError>)
      requires Valid() && |h.prefix| == PREFIX_LEN
      modifies this
      ensures Valid()
      ensures
        var req := DeleteOne(key);
        match Perform(old(table), h, req, io)
        case Refused(e) => r == Err(e) && table == old(table) && counters == old(counters)
        case Written(t) => r == Ok(()) && table == t && counters == Recount(t, old(counters), h, req)
    {
      hide Footprint, After, Charge, CountersAgree, EntryCost, BuildKey, CostNow;
      ghost var req := DeleteOne(key);
      var full := BuildKey(h.prefix, key);
      if io.TxnFails? {
        return Err(Txn);
      }
      var tracked := h.prefix in counters;
      var released := 0;
      if io.TableFails? {
        return Err(OpenTable);
      }
      if io.AccessFails? {
        return Err(Storage);
      }
      DeleteEffect(table, h.prefix, key);
      if tracked {
        released := CostNow(table, h.prefix, key);
      }
      if io.InsertFails? {
        return Err(Storage);
      }
      if io.CommitFails? {
        return Err(Commit);
      }
      CountersAfter(table, counters, h, req);
      table := table - {full};
      if tracked {
        CounterIsFootprint(old(table), counters, h.prefix);
        assert released <= counters[h.prefix];
        counters := counters[h.prefix := SaturatingSub(counters[h.prefix], released)];
      }
      r := Ok(());
    }

    /** Apply a batch whole; later operations on a key win. */
    method Apply(h: Handle, ops: seq<WriteOp>, io: Io) returns (r: Result<(), StorageError>)
      requires Valid() && |h.prefix| == PREFIX_LEN
      modifies this
      ensures Valid()
      ensures
        var req := Batch(ops);
        match Perform(old(table), h, req, io)
        case Refused(e) => r == Err(e) && table == old(table) && counters == old(counters)
        case Written(t) => r == Ok(()) && table == t && counters == Recount(t, old(counters), h, req)
    {
      hide Footprint, Charge, CountersAgree, EntryCost, BuildKey, CostNow, Touched, Sum, Cost, ValueBytes, ApplyAll;
      ghost var req := Batch(ops);
      if |ops| > MAX_APPLY_OPS {
        return Err(ApplyOpsExceeded(|ops|, MAX_APPLY_OPS));
      }
      var valueBytes := ValueBytes(ops);
      if valueBytes > MAX_APPLY_VALUE_BYTES {
        return Err(ApplyBytesExceeded(valueBytes, MAX_APPLY_VALUE_BYTES));
      }
      if io.TxnFails? {
        return Err(Txn);
      }
      var track := h.quota.Some? || h.prefix in counters;
      var projected := 0;
      if io.TableFails? {
        return Err(OpenTable);
      }
      if io.AccessFails? {
        return Err(Storage);
      }
      ChargeIsNewCost(table, h.prefix, req);
      WritesOnlyTouched(table, h.prefix, ops);
      FootprintAfterWrite(table, After(table, h.prefix, req), h.prefix, Touched(h.prefix, ops));
      if track {
        var used;
        if h.prefix in counters {
          used := counters[h.prefix];
        } else {
          var scanned := UsedBytes(h.prefix, io);
          used := scanned.value;
        }
        CounterIsFootprint(table, counters, h.prefix);
        var released, charged := NetCost(h, ops);
        assert released <= used;
        projected := SaturatingSub(used, released) + charged;
        if h.quota.Some? && projected > h.quota.value {
          return Err(if charged > h.quota.value
                     then QuotaUnsatisfiable(charged, h.quota.value)
                     else QuotaExceeded(projected, h.quota.value));
        }
      }
      if io.InsertFails? {
        return Err(Storage);
      }
      CountersAfter(table, counters, h, req);
      var staged := Stage(h, ops);
      if io.CommitFails? {
        return Err(Commit);
      }
      table := staged;
      if track {
        counters := counters[h.prefix := projected];
      }
      r := Ok(());
    }

    /** The writes of a batch, in order. */
    method Stage(h: Handle, ops: seq<WriteOp>) returns (staged: Table)
      ensures staged == ApplyAll(table, h.prefix, ops)
    {
      staged := table;
      for i := 0 to |ops|
        invariant staged == ApplyAll(table, h.prefix, ops[..i])
      {
        assert ops[..i + 1][..i] == ops[..i];
        match ops[i] {
          case Set(key, value) => staged := staged[BuildKey(h.prefix, key) := value];
          case Delete(key) => staged := staged - {BuildKey(h.prefix, key)};
        }
      }
      assert ops[..|ops|] == ops;
    }

    /** What the touched keys cost now, and what they will cost: each key once,
        at its last operation, in whatever order the map gives them. */
    method NetCost(h: Handle, ops: seq<WriteOp>) returns (released: nat, charged: nat)
      ensures released == Sum(Cost(table), Touched(h.prefix, ops))
      ensures charged == Sum(Cost(ApplyAll(table, h.prefix, ops)), Touched(h.prefix, ops))
    {
      hide Sum, Finals, CostNow, CostThen, Touched, Fulls, Cost;
      var finals := LastWins(ops);
      ghost var after := ApplyAll(table, h.prefix, ops);
      hide ApplyAll;
      released, charged := 0, 0;
      var todo := finals.Keys;
      NoFulls(h.prefix);
      assert finals.Keys - todo == {};
      SumZero(Cost(table), {});
      SumZero(Cost(after), {});
      while todo != {}
        invariant todo <= finals.Keys
        invariant released == Sum(Cost(table), Fulls(h.prefix, finals.Keys - todo))
        invariant charged == Sum(Cost(after), Fulls(h.prefix, finals.Keys - todo))
        decreases |todo|
      {
        var key :| key in todo;
        CostStep(table, h.prefix, ops, finals.Keys - todo, key);
        released := released + CostNow(table, h.prefix, key);
        charged := charged + CostThen(h.prefix, key, finals[key]);
        assert finals.Keys - (todo - {key}) == finals.Keys - todo + {key};
        todo := todo - {key};
      }
      FinalsAreTouched(h.prefix, ops);
      assert finals.Keys - todo == finals.Keys;
    }
  }

  /** Later operations on a key win. */
  method LastWins(ops: seq<WriteOp>) returns (finals: map<Bytes, Option<nat>>)
    ensures finals == Finals(ops)
  {
    finals := map[];
    for i := 0 to |ops|
      invariant finals == Finals(ops[..i])
    {
      assert ops[..i + 1][..i] == ops[..i];
      match ops[i] {
        case Set(key, value) => finals := finals[key := Some(|value|)];
        case Delete(key) => finals := finals[key := None];
      }
    }
    assert ops[..|ops|] == ops;
  }

  /* ----- Proof support ----- */

  function Elems(ks: seq<Bytes>): set<Bytes> {
    set k | k in ks
  }

  lemma ElemsStep(ks: seq<Bytes>, i: nat)
    requires Sorted(ks) && i < |ks|
    ensures Elems(ks[..i + 1]) == Elems(ks[..i]) + {ks[i]} && ks[i] !in Elems(ks[..i])
  {
    assert ks[..i + 1] == ks[..i] + [ks[i]];
    LessIrreflexive(ks[i]);
  }

  function Fulls(prefix: Bytes, keys: set<Bytes>): set<Bytes> {
    set key | key in keys :: BuildKey(prefix, key)
  }

  /** The module keys of a walk that are text. */
  function Texts(prefix: Bytes, ks: seq<Bytes>): seq<Bytes>
    requires forall i :: 0 <= i < |ks| ==> StartsWith(ks[i], prefix)
  {
    if ks == [] then []
    else
      var n := |ks| - 1;
      assert StartsWith(ks[n], prefix);
      var key := ks[n][|prefix|..];
      Texts(prefix, ks[..n]) + (if ValidUtf8(key) then [key] else [])
  }

  lemma {:induction false} TextsInOrder(prefix: Bytes, ks: seq<Bytes>)
    requires Sorted(ks) && forall i :: 0 <= i < |ks| ==> StartsWith(ks[i], prefix)
    ensures Sorted(Texts(prefix, ks))
    ensures forall key :: key in Texts(prefix, ks) <==> BuildKey(prefix, key) in ks && ValidUtf8(key)
  {
    hide ValidUtf8, Less;
    if ks != [] {
      var n := |ks| - 1;
      TextsInOrder(prefix, ks[..n]);
      TextsStep(prefix, ks, Texts(prefix, ks[..n]));
    }
  }

  lemma TextsStep(prefix: Bytes, ks: seq<Bytes>, out: seq<Bytes>)
    requires ks != [] && Sorted(ks) && (forall i :: 0 <= i < |ks| ==> StartsWith(ks[i], prefix))
    requires Sorted(out)
    requires forall key :: key in out <==> BuildKey(prefix, key) in ks[..|ks| - 1] && ValidUtf8(key)
    ensures StartsWith(ks[|ks| - 1], prefix)
    ensures
      var last := ks[|ks| - 1][|prefix|..];
      var all := out + (if ValidUtf8(last) then [last] else []);
      && Sorted(all)
      && forall key :: key in all <==> BuildKey(prefix, key) in ks && ValidUtf8(key)
  {
    hide ValidUtf8, Less;
    var n := |ks| - 1;
    var last := ks[n][|prefix|..];
    assert ks == ks[..n] + [ks[n]] && ks[n] == BuildKey(prefix, last);
    forall j | 0 <= j < |out|
      ensures Less(out[j], last)
    {
      assert out[j] in out;
      LessAfterPrefix(prefix, out[j], last);
    }
    forall key | BuildKey(prefix, key) == ks[n]
      ensures key == last
    {
      SameKey(prefix, key, last);
    }
  }

  lemma ListedKeys(t: Table, p: Bytes, prefix: Bytes)
    ensures forall k :: k in InOrder(Under(t, BuildKey(p, prefix))) ==> StartsWith(k, p)
    ensures
      var out := Texts(p, InOrder(Under(t, BuildKey(p, prefix))));
      && Sorted(out)
      && forall key :: key in out <==> BuildKey(p, key) in t && StartsWith(key, prefix) && ValidUtf8(key)
  {
    hide ValidUtf8;
    forall k | k in InOrder(Under(t, BuildKey(p, prefix)))
      ensures StartsWith(k, p)
    {
      assert k[..|p + prefix|][..|p|] == p;
    }
    assert forall i :: 0 <= i < |InOrder(Under(t, BuildKey(p, prefix)))| ==>
        InOrder(Under(t, BuildKey(p, prefix)))[i] in InOrder(Under(t, BuildKey(p, prefix)));
    TextsInOrder(p, InOrder(Under(t, BuildKey(p, prefix))));
    forall key
      ensures StartsWith(BuildKey(p, key), BuildKey(p, prefix)) <==> StartsWith(key, prefix)
    {
      PrefixThroughPrefix(p, prefix, key);
    }
  }

  lemma PrefixThroughPrefix(p: Bytes, prefix: Bytes, key: Bytes)
    ensures StartsWith(BuildKey(p, key), BuildKey(p, prefix)) <==> StartsWith(key, prefix)
  {
    if StartsWith(BuildKey(p, key), BuildKey(p, prefix)) {
      assert (p + key)[|p|..][..|prefix|] == prefix;
    }
  }

  lemma NoFulls(prefix: Bytes)
    ensures Fulls(prefix, {}) == {}
  {
  }

  lemma FullsStep(prefix: Bytes, keys: set<Bytes>, key: Bytes)
    requires key !in keys
    ensures Fulls(prefix, keys + {key}) == Fulls(prefix, keys) + {BuildKey(prefix, key)}
    ensures BuildKey(prefix, key) !in Fulls(prefix, keys)
  {
    if BuildKey(prefix, key) in Fulls(prefix, keys) {
      var other :| other in keys && BuildKey(prefix, other) == BuildKey(prefix, key);
      SameKey(prefix, other, key);
    }
  }

  lemma SameKey(prefix: Bytes, a: Bytes, b: Bytes)
    requires BuildKey(prefix, a) == BuildKey(prefix, b)
    ensures a == b
  {
    assert (prefix + a)[|prefix|..] == a;
    assert (prefix + b)[|prefix|..] == b;
  }

  lemma {:induction false} FinalsAreTouched(prefix: Bytes, ops: seq<WriteOp>)
    ensures Fulls(prefix, Finals(ops).Keys) == Touched(prefix, ops)
  {
    if ops != [] {
      var init, last := ops[..|ops| - 1], ops[|ops| - 1];
      FinalsAreTouched(prefix, init);
      assert ops == init + [last];
      assert Finals(ops).Keys == Finals(init).Keys + {last.key};
      assert Touched(prefix, ops) == Touched(prefix, init) + {BuildKey(prefix, last.key)};
    }
  }

  /** The finals describe the table a batch leaves behind. */
  lemma {:induction false} FinalIsLast(t: Table, prefix: Bytes, ops: seq<WriteOp>, key: Bytes)
    requires key in Finals(ops)
    ensures
      var after := ApplyAll(t, prefix, ops);
      var full := BuildKey(prefix, key);
      && (Finals(ops)[key].Some? <==> full in after)
      && (full in after ==> |after[full]| == Finals(ops)[key].value)
  {
    var init, last := ops[..|ops| - 1], ops[|ops| - 1];
    if key != last.key {
      FinalIsLast(t, prefix, init, key);
      if BuildKey(prefix, key) == BuildKey(prefix, last.key) { SameKey(prefix, key, last.key); }
    }
  }

  lemma CostStep(t: Table, prefix: Bytes, ops: seq<WriteOp>, keys: set<Bytes>, key: Bytes)
    requires key !in keys && key in Finals(ops)
    ensures Sum(Cost(t), Fulls(prefix, keys + {key})) == Sum(Cost(t), Fulls(prefix, keys)) + CostNow(t, prefix, key)
    ensures
      var after := ApplyAll(t, prefix, ops);
      Sum(Cost(after), Fulls(prefix, keys + {key}))
        == Sum(Cost(after), Fulls(prefix, keys)) + CostThen(prefix, key, Finals(ops)[key])
  {
    hide Sum, ApplyAll, Finals;
    FinalIsLast(t, prefix, ops, key);
    FullsStep(prefix, keys, key);
    SumAdd(Cost(t), Fulls(prefix, keys), BuildKey(prefix, key));
    SumAdd(Cost(ApplyAll(t, prefix, ops)), Fulls(prefix, keys), BuildKey(prefix, key));
  }

  lemma OneKey(f: Bytes -> nat, k: Bytes)
    ensures Sum(f, {k}) == f(k)
  {
    SumPick(f, {k}, k);
    assert {k} - {k} == {};
  }

  lemma SetEffect(t: Table, prefix: Bytes, key: Bytes, value: Bytes)
    ensures
      var full := BuildKey(prefix, key);
      var req := SetOne(key, value);
      && After(t, prefix, req) == t[full := value]
      && Charge(prefix, req) == EntryCost(prefix, |key|, |value|)
      && CostNow(t, prefix, key) <= Footprint(t, prefix)
      && Footprint(After(t, prefix, req), prefix)
         == Footprint(t, prefix) - CostNow(t, prefix, key) + Charge(prefix, req)
  {
    var full := BuildKey(prefix, key);
    var req := SetOne(key, value);
    OneWrite(t, prefix, req);
  }

  lemma DeleteEffect(t: Table, prefix: Bytes, key: Bytes)
    ensures
      var full := BuildKey(prefix, key);
      var req := DeleteOne(key);
      && After(t, prefix, req) == t - {full}
      && CostNow(t, prefix, key) <= Footprint(t, prefix)
      && Footprint(After(t, prefix, req), prefix) == Footprint(t, prefix) - CostNow(t, prefix, key)
  {
    var full := BuildKey(prefix, key);
    var req := DeleteOne(key);
    OneWrite(t, prefix, req);
  }

  lemma OneWrite(t: Table, prefix: Bytes, req: Request)
    requires !req.Batch?
    ensures After(t, prefix, req) == ApplyOne(t, prefix, Ops(req)[0])
    ensures Charge(prefix, req) == CostNow(After(t, prefix, req), prefix, req.key)
    ensures CostNow(t, prefix, req.key) <= Footprint(t, prefix)
    ensures Footprint(After(t, prefix, req), prefix)
         == Footprint(t, prefix) - CostNow(t, prefix, req.key) + Charge(prefix, req)
  {
    var full := BuildKey(prefix, req.key);
    var t' := After(t, prefix, req);
    OneOp(t, prefix, Ops(req)[0]);
    assert Ops(req) == [Ops(req)[0]];
    hide Sum, Footprint, ApplyAll, Charge;
    WritesOnlyTouched(t, prefix, Ops(req));
    FootprintAfterWrite(t, t', prefix, {full});
    ChargeIsNewCost(t, prefix, req);
    OneKey(Cost(t), full);
    OneKey(Cost(t'), full);
  }

  lemma OneOp(t: Table, prefix: Bytes, op: WriteOp)
    ensures ApplyAll(t, prefix, [op]) == ApplyOne(t, prefix, op)
    ensures Touched(prefix, [op]) == {BuildKey(prefix, op.key)}
  {
    assert [op][..0] == [];
  }

  lemma CounterIsFootprint(t: Table, counters: map<Bytes, nat>, prefix: Bytes)
    requires CountersAgree(t, counters)
    ensures prefix in counters ==> counters[prefix] == Footprint(t, prefix)
  {
  }

  /** Recounting the written namespace keeps every counter right, since all
      tracked prefixes are of one length and so cannot overlap. */
  lemma CountersAfter(t: Table, counters: map<Bytes, nat>, h: Handle, req: Request)
    requires CountersAgree(t, counters) && |h.prefix| == PREFIX_LEN
    ensures CountersAgree(After(t, h.prefix, req), Recount(After(t, h.prefix, req), counters, h, req))
  {
    forall p | p in counters && p != h.prefix
      ensures Footprint(After(t, h.prefix, req), p) == Footprint(t, p)
    {
      WritesStayInside(t, h.prefix, p, Ops(req));
    }
  }
}
