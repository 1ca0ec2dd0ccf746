/** What the local store's writes do to the table, with no cache in sight: the
    effect of a batch, the byte footprint of a namespace, and the outcome of a
    request. */
module StoreSpec {
  import opened Text
  import opened Bytes
  import opened Table

  const ENTRY_OVERHEAD: nat := 32
  const PREFIX_LEN: nat := 32
  const MAX_APPLY_OPS: nat := 1024
  const MAX_APPLY_VALUE_BYTES: nat := 4 * 1024 * 1024

  datatype WriteOp = Set(key: Bytes, value: Bytes) | Delete(key: Bytes)

  /** A per-module handle: the namespace's key prefix and its byte quota. */
  datatype Handle = Handle(prefix: Bytes, quota: Option<nat>)

  datatype StorageError =
    | Txn
    | OpenTable
    | Storage
    | Commit
    | InvalidNamespace
    | QuotaExceeded(needed: nat, quota: nat)
    | QuotaUnsatisfiable(needed: nat, quota: nat)
    | ApplyOpsExceeded(ops: nat, cap: nat)
    | ApplyBytesExceeded(bytes: nat, cap: nat)
    | ListLimitExceeded(limit: nat, cap: nat)
    | ListScanLimitExceeded(scanLimit: nat, cap: nat)

  /** How the database answers one call: the step that fails, if any. A failed
      commit leaves the table as it was. */
  datatype Io = Works | TxnFails | TableFails | AccessFails | InsertFails | CommitFails

  /** What a read reports: it begins a transaction, opens the table and walks it. */
  function ReadFault(io: Io): Option<StorageError> {
    match io
    case TxnFails => Some(Txn)
    case TableFails => Some(OpenTable)
    case AccessFails => Some(Storage)
    case Works | InsertFails | CommitFails => None
  }

  datatype Request = SetOne(key: Bytes, value: Bytes) | DeleteOne(key: Bytes) | Batch(ops: seq<WriteOp>)

  /** The handle of a namespace, or a refusal of the empty one. `digest` stands
      for keccak-256. */
  function Module(digest: Bytes -> Bytes, namespace: Bytes): Result<Handle, StorageError> {
    if namespace == [] then Err(InvalidNamespace) else Ok(Handle(digest(namespace), None))
  }

  function BuildKey(prefix: Bytes, key: Bytes): Bytes {
    prefix + key
  }

  /** What one entry is charged. */
  function EntryCost(prefix: Bytes, keyLen: nat, valueLen: nat): nat {
    |prefix| + ENTRY_OVERHEAD + keyLen + valueLen
  }

  /* ----- Effects ----- */

  function ApplyOne(t: Table, prefix: Bytes, op: WriteOp): Table {
    match op
    case Set(key, value) => t[BuildKey(prefix, key) := value]
    case Delete(key) => t - {BuildKey(prefix, key)}
  }

  /** The operations one by one, in order. */
  function ApplyAll(t: Table, prefix: Bytes, ops: seq<WriteOp>): Table {
    if ops == [] then t else ApplyOne(ApplyAll(t, prefix, ops[..|ops| - 1]), prefix, ops[|ops| - 1])
  }

  function Ops(req: Request): seq<WriteOp> {
    match req
    case SetOne(key, value) => [Set(key, value)]
    case DeleteOne(key) => [Delete(key)]
    case Batch(ops) => ops
  }

  function After(t: Table, prefix: Bytes, req: Request): Table {
    ApplyAll(t, prefix, Ops(req))
  }

  /** The table keys a batch writes. */
  function Touched(prefix: Bytes, ops: seq<WriteOp>): set<Bytes> {
    set op | op in ops :: BuildKey(prefix, op.key)
  }

  function ValueBytes(ops: seq<WriteOp>): nat {
    if ops == [] then 0
    else ValueBytes(ops[..|ops| - 1]) + (match ops[|ops| - 1] case Set(_, value) => |value| case Delete(_) => 0)
  }

  /* ----- Footprints ----- */

  /** The cost of the entry at a table key; nothing when there is none. */
  ghost function Cost(t: Table): Bytes -> nat {
    k => if k in t then ENTRY_OVERHEAD + |k| + |t[k]| else 0
  }

  /** The live bytes of a namespace, by a full scan. */
  ghost function Footprint(t: Table, prefix: Bytes): nat {
    Sum(Cost(t), Under(t, prefix))
  }

  ghost predicate SameOutside(t: Table, t': Table, keys: set<Bytes>) {
    forall k :: k !in keys ==> (k in t <==> k in t') && (k in t ==> t[k] == t'[k])
  }

  /** Releasing what the written keys cost and charging what they cost now is
      exact, and never releases more than the namespace holds. */
  lemma FootprintAfterWrite(t: Table, t': Table, prefix: Bytes, keys: set<Bytes>)
    requires forall k :: k in keys ==> StartsWith(k, prefix)
    requires SameOutside(t, t', keys)
    ensures Sum(Cost(t), keys) <= Footprint(t, prefix)
    ensures Footprint(t', prefix) == Footprint(t, prefix) - Sum(Cost(t), keys) + Sum(Cost(t'), keys)
  {
    var rest := Under(t, prefix) - keys;
    assert rest == Under(t', prefix) - keys;
    FootprintSplits(t, prefix, keys);
    FootprintSplits(t', prefix, keys);
    SumSame(Cost(t), Cost(t'), rest);
  }

  lemma FootprintSplits(t: Table, prefix: Bytes, keys: set<Bytes>)
    requires forall k :: k in keys ==> StartsWith(k, prefix)
    ensures Footprint(t, prefix) == Sum(Cost(t), keys) + Sum(Cost(t), Under(t, prefix) - keys)
  {
    var under := Under(t, prefix);
    var present, absent := keys * under, keys - under;
    SumSplit(Cost(t), present, absent);
    assert present + absent == keys;
    SumZero(Cost(t), absent);
    SumSplit(Cost(t), present, under - keys);
    assert present + (under - keys) == under;
  }

  lemma {:induction false} WritesOnlyTouched(t: Table, prefix: Bytes, ops: seq<WriteOp>)
    ensures SameOutside(t, ApplyAll(t, prefix, ops), Touched(prefix, ops))
    ensures forall k :: k in Touched(prefix, ops) ==> StartsWith(k, prefix)
  {
    if ops != [] {
      var init, last := ops[..|ops| - 1], ops[|ops| - 1];
      WritesOnlyTouched(t, prefix, init);
      assert ops == init + [last];
      assert Touched(prefix, ops) == Touched(prefix, init) + {BuildKey(prefix, last.key)};
    }
  }

  /* ----- Namespaces do not meet ----- */

  predicate Disjoint(p: Bytes, q: Bytes) {
    !StartsWith(p, q) && !StartsWith(q, p)
  }

  lemma NoKeyInBoth(p: Bytes, q: Bytes, k: Bytes)
    requires Disjoint(p, q) && StartsWith(k, p)
    ensures !StartsWith(k, q)
  {
  }

  /** Every namespace but the empty one gets the handle of its digest, with no
      quota yet. */
  lemma NamespacesHaveHandles(digest: Bytes -> Bytes, namespace: Bytes)
    ensures Module(digest, namespace)
         == if |namespace| == 0 then Err(InvalidNamespace) else Ok(Handle(digest(namespace), None))
  {
  }

  /** Namespaces with different digests get handles that share no key. */
  lemma ModulesAreDisjoint(digest: Bytes -> Bytes, a: Bytes, b: Bytes)
    requires Module(digest, a).Ok? && Module(digest, b).Ok?
    requires |digest(a)| == PREFIX_LEN && |digest(b)| == PREFIX_LEN && digest(a) != digest(b)
    ensures Disjoint(Module(digest, a).value.prefix, Module(digest, b).value.prefix)
  {
  }

  /** A write in one namespace changes neither the entries nor the footprint of
      another. */
  lemma WritesStayInside(t: Table, p: Bytes, q: Bytes, ops: seq<WriteOp>)
    requires Disjoint(p, q)
    ensures Under(ApplyAll(t, p, ops), q) == Under(t, q)
    ensures forall k :: k in Under(t, q) ==> ApplyAll(t, p, ops)[k] == t[k]
    ensures Footprint(ApplyAll(t, p, ops), q) == Footprint(t, q)
  {
    var t' := ApplyAll(t, p, ops);
    WritesOnlyTouched(t, p, ops);
    forall k | StartsWith(k, q)
      ensures k !in Touched(p, ops)
    {
      if k in Touched(p, ops) { NoKeyInBoth(p, q, k); }
    }
    assert Under(t', q) == Under(t, q);
    SumSame(Cost(t), Cost(t'), Under(t, q));
  }

  /** The verdict on a write reads nothing outside the namespace. */
  lemma VerdictIsLocal(t: Table, t': Table, h: Handle, req: Request)
    requires Under(t, h.prefix) == Under(t', h.prefix)
    requires forall k :: k in Under(t, h.prefix) ==> t[k] == t'[k]
    ensures QuotaVerdict(t, h, req) == QuotaVerdict(t', h, req)
  {
    var p, ops := h.prefix, Ops(req);
    var u, u' := After(t, p, req), After(t', p, req);
    WritesOnlyTouched(t, p, ops);
    WritesOnlyTouched(t', p, ops);
    forall k | StartsWith(k, p)
      ensures (k in u <==> k in u') && (k in u ==> u[k] == u'[k])
    {
      if k in Touched(p, ops) {
        TouchedIsForgetful(t, t', p, ops, k);
      } else {
        assert k in t <==> k in Under(t, p);
        assert k in t' <==> k in Under(t', p);
      }
    }
    assert Under(u, p) == Under(u', p);
    SumSame(Cost(u), Cost(u'), Under(u, p));
  }

  /* ----- Outcomes ----- */

  /** What the entries a request leaves behind cost by themselves. */
  ghost function Charge(prefix: Bytes, req: Request): nat {
    Footprint(After(map[], prefix, req), prefix)
  }

  ghost function QuotaVerdict(t: Table, h: Handle, req: Request): Option<StorageError> {
    var needed := Footprint(After(t, h.prefix, req), h.prefix);
    if req.DeleteOne? || h.quota.None? || needed <= h.quota.value then None
    else if Charge(h.prefix, req) > h.quota.value then Some(QuotaUnsatisfiable(Charge(h.prefix, req), h.quota.value))
    else Some(QuotaExceeded(needed, h.quota.value))
  }

  function CapVerdict(req: Request): Option<StorageError> {
    if !req.Batch? then None
    else if |req.ops| > MAX_APPLY_OPS then Some(ApplyOpsExceeded(|req.ops|, MAX_APPLY_OPS))
    else if ValueBytes(req.ops) > MAX_APPLY_VALUE_BYTES
    then Some(ApplyBytesExceeded(ValueBytes(req.ops), MAX_APPLY_VALUE_BYTES))
    else None
  }

  datatype Outcome = Refused(error: StorageError) | Written(table: Table)

  /** The whole contract of a write: caps, the database's own failures, the
      quota measured by full scans, and all of the request or none of it. */
  ghost function Perform(t: Table, h: Handle, req: Request, io: Io): Outcome {
    if CapVerdict(req).Some? then Refused(CapVerdict(req).value)
    else if io.TxnFails? then Refused(Txn)
    else if io.TableFails? then Refused(OpenTable)
    else if io.AccessFails? then Refused(Storage)
    else if QuotaVerdict(t, h, req).Some? then Refused(QuotaVerdict(t, h, req).value)
    else if io.InsertFails? then Refused(Storage)
    else if io.CommitFails? then Refused(Commit)
    else Written(After(t, h.prefix, req))
  }

  /** What is left of the touched keys does not depend on the table they were
      written to. */
  lemma {:induction false} TouchedIsForgetful(t: Table, t': Table, prefix: Bytes, ops: seq<WriteOp>, k: Bytes)
    requires k in Touched(prefix, ops)
    ensures k in ApplyAll(t, prefix, ops) <==> k in ApplyAll(t', prefix, ops)
    ensures k in ApplyAll(t, prefix, ops) ==> ApplyAll(t, prefix, ops)[k] == ApplyAll(t', prefix, ops)[k]
  {
    var init, last := ops[..|ops| - 1], ops[|ops| - 1];
    assert ops == init + [last];
    if k != BuildKey(prefix, last.key) {
      assert k in Touched(prefix, init);
      TouchedIsForgetful(t, t', prefix, init, k);
    }
  }

  /** The charge is the new cost of the touched keys, whatever the table was. */
  lemma ChargeIsNewCost(t: Table, prefix: Bytes, req: Request)
    ensures Charge(prefix, req) == Sum(Cost(After(t, prefix, req)), Touched(prefix, Ops(req)))
  {
    var ops := Ops(req);
    var keys := Touched(prefix, ops);
    var scratch := ApplyAll(map[], prefix, ops);
    WritesOnlyTouched(map[], prefix, ops);
    FootprintAfterWrite(map[], scratch, prefix, keys);
    forall k | k in keys
      ensures Cost(scratch)(k) == Cost(ApplyAll(t, prefix, ops))(k)
    {
      TouchedIsForgetful(t, map[], prefix, ops, k);
    }
    SumSame(Cost(scratch), Cost(ApplyAll(t, prefix, ops)), keys);
    SumZero(Cost(map[]), keys);
    assert Under(map[], prefix) == {};
  }

  /** `QuotaUnsatisfiable` is returned exactly when the same write would be
      refused for quota against every state the namespace could be in. */
  lemma UnsatisfiableIsExact(t: Table, h: Handle, req: Request)
    ensures QuotaVerdict(t, h, req).Some? && QuotaVerdict(t, h, req).value.QuotaUnsatisfiable?
       <==> forall t': Table :: QuotaVerdict(t', h, req).Some?
  {
    hide Footprint, Charge;
    if forall t': Table :: QuotaVerdict(t', h, req).Some? {
      var empty: Table := map[];
      assert QuotaVerdict(empty, h, req).Some? && QuotaVerdict(t, h, req).Some?;
      assert Charge(h.prefix, req) == Footprint(After(empty, h.prefix, req), h.prefix) by {
        EmptyCharge(h.prefix, req);
      }
    }
    if QuotaVerdict(t, h, req).Some? && QuotaVerdict(t, h, req).value.QuotaUnsatisfiable? {
      forall t': Table
        ensures QuotaVerdict(t', h, req).Some?
      {
        ChargeIsLeast(t', h.prefix, req);
      }
    }
  }

  lemma EmptyCharge(prefix: Bytes, req: Request)
    ensures Charge(prefix, req) == Footprint(After(map[], prefix, req), prefix)
  {
  }

  /** No state lets a write leave less than its own charge behind. */
  lemma ChargeIsLeast(t: Table, prefix: Bytes, req: Request)
    ensures Charge(prefix, req) <= Footprint(After(t, prefix, req), prefix)
  {
    hide Footprint, Charge;
    ChargeIsNewCost(t, prefix, req);
    WritesOnlyTouched(t, prefix, Ops(req));
    FootprintAfterWrite(t, After(t, prefix, req), prefix, Touched(prefix, Ops(req)));
  }

  /* ----- Caps ----- */

  /** The bytes of a batch are those of the values it sets. */
  lemma {:induction false} ValueBytesAdds(a: seq<WriteOp>, b: seq<WriteOp>)
    ensures ValueBytes(a + b) == ValueBytes(a) + ValueBytes(b)
  {
    if b == [] {
      assert a + b == a;
    } else {
      assert (a + b)[..|a + b| - 1] == a + b[..|b| - 1];
      ValueBytesAdds(a, b[..|b| - 1]);
    }
  }

  lemma ValueBytesOfOne(key: Bytes, value: Bytes)
    ensures ValueBytes([Set(key, value)]) == |value| && ValueBytes([Delete(key)]) == 0 && ValueBytes([]) == 0
  {
    assert [Set(key, value)][..0] == [] && [Delete(key)][..0] == [];
  }

  /** A batch is past its caps exactly with more than 1024 operations, or else with
      more than four mebibytes of values; one operation never is. */
  lemma CapsAsDocumented(req: Request)
    ensures !req.Batch? ==> CapVerdict(req) == None
    ensures req.Batch? && |req.ops| > 1_024 ==> CapVerdict(req) == Some(ApplyOpsExceeded(|req.ops|, 1_024))
    ensures req.Batch? && |req.ops| <= 1_024 ==>
              CapVerdict(req) == if ValueBytes(req.ops) > 4_194_304
                                 then Some(ApplyBytesExceeded(ValueBytes(req.ops), 4_194_304))
                                 else None
  {
    hide ValueBytes;
  }
}
