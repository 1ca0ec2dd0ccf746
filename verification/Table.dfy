/** The database table: an ordered byte-key map, walked in key order from a
    lower bound, and sums over its entries. */
module Table {
  import opened Bytes

  type Table = map<Bytes, Bytes>

  datatype Bound = Included(key: Bytes) | Excluded(key: Bytes)

  /* ----- Key order ----- */

  predicate Sorted(ks: seq<Bytes>) {
    forall i, j :: 0 <= i < j < |ks| ==> Less(ks[i], ks[j])
  }

  predicate IsLeast(s: set<Bytes>, k: Bytes) {
    k in s && forall x :: x in s ==> Leq(k, x)
  }

  lemma {:induction false} LeastExists(s: set<Bytes>) returns (k: Bytes)
    requires s != {}
    ensures IsLeast(s, k)
  {
    k :| k in s;
    if s != {k} {
      var rest := s - {k};
      assert s == rest + {k};
      var m := LeastExists(rest);
      LessTotal(k, m);
      if Less(m, k) {
        k := m;
      } else {
        forall x | x in rest && Less(m, x)
          ensures Leq(k, x)
        {
          if k != m { LessTransitive(k, m, x); }
        }
      }
    }
  }

  lemma LeastIsUnique(s: set<Bytes>, a: Bytes, b: Bytes)
    requires IsLeast(s, a) && IsLeast(s, b)
    ensures a == b
  {
    if a != b { LessAsymmetric(a, b); }
  }

  /** The first key of a set. */
  function Least(s: set<Bytes>): (k: Bytes)
    requires s != {}
    ensures IsLeast(s, k)
  {
    assert exists k :: IsLeast(s, k) by { var k := LeastExists(s); }
    assert forall a, b :: IsLeast(s, a) && IsLeast(s, b) ==> a == b by {
      forall a, b | IsLeast(s, a) && IsLeast(s, b) ensures a == b { LeastIsUnique(s, a, b); }
    }
    var k :| k in s && IsLeast(s, k);
    k
  }

  /** The keys of a set in order. */
  function InOrder(s: set<Bytes>): (ks: seq<Bytes>)
    ensures Sorted(ks)
    ensures forall k :: k in ks <==> k in s
    decreases |s|
  {
    if s == {} then []
    else
      var k := Least(s);
      var rest := InOrder(s - {k});
      assert forall j :: 0 <= j < |rest| ==> rest[j] in rest;
      [k] + rest
  }

  lemma {:induction false} InOrderLength(s: set<Bytes>)
    ensures |InOrder(s)| == |s|
    decreases |s|
  {
    if s != {} { InOrderLength(s - {Least(s)}); }
  }

  lemma HeadIsNotInTail(ks: seq<Bytes>)
    requires Sorted(ks) && ks != []
    ensures ks[0] !in ks[1..]
  {
    LessIrreflexive(ks[0]);
  }

  /** Order and membership determine the walk. */
  lemma {:induction false} SortedIsUnique(a: seq<Bytes>, b: seq<Bytes>)
    requires Sorted(a) && Sorted(b) && forall k :: k in a <==> k in b
    ensures a == b
  {
    assert b != [] ==> b[0] in b;
    if a != [] {
      assert a[0] in b;
      assert b[0] in a;
      if a[0] != b[0] { LessAsymmetric(a[0], b[0]); }
      HeadIsNotInTail(a);
      HeadIsNotInTail(b);
      forall k
        ensures k in a[1..] <==> k in b[1..]
      {
        assert a == [a[0]] + a[1..] && b == [b[0]] + b[1..];
        assert k in a <==> k in b;
      }
      SortedIsUnique(a[1..], b[1..]);
    }
  }

  predicate Above(lower: Bound, k: Bytes) {
    match lower
    case Included(b) => Leq(b, k)
    case Excluded(b) => Less(b, k)
  }

  /** The keys from `lower` on, in order: what a range walk visits. */
  function Range(t: Table, lower: Bound): seq<Bytes> {
    InOrder(set k | k in t && Above(lower, k))
  }

  lemma RangeIsOrdered(t: Table, lower: Bound)
    ensures Sorted(Range(t, lower))
    ensures forall k :: k in Range(t, lower) <==> k in t && Above(lower, k)
  {
  }

  /** The table's keys with prefix `p`. */
  function Under(t: Table, p: Bytes): set<Bytes> {
    set k | k in t && StartsWith(k, p)
  }

  /* ----- Walks that stop at the first key outside a prefix ----- */

  /** How far such a walk gets. */
  function RunLength(ks: seq<Bytes>, p: Bytes): (n: nat)
    ensures n <= |ks|
    ensures forall i :: 0 <= i < n ==> StartsWith(ks[i], p)
    ensures n < |ks| ==> !StartsWith(ks[n], p)
  {
    if ks == [] || !StartsWith(ks[0], p) then 0 else 1 + RunLength(ks[1..], p)
  }

  /** A walk that starts at or after the prefix misses no key of the prefix by
      stopping early: it visits the same keys, in the same order, as a filter of
      the whole table. */
  lemma EarlyStopMissesNothing(t: Table, lower: Bound, p: Bytes)
    requires Leq(p, lower.key)
    ensures
      var ks := Range(t, lower);
      ks[..RunLength(ks, p)] == InOrder(set k | k in Under(t, p) && Above(lower, k))
  {
    RangeIsOrdered(t, lower);
    var ks := Range(t, lower);
    var n := RunLength(ks, p);
    var want := set k | k in Under(t, p) && Above(lower, k);
    forall k
      ensures k in ks[..n] <==> k in InOrder(want)
    {
      if k in want {
        assert k in ks;
        var i :| 0 <= i < |ks| && ks[i] == k;
        if n <= i {
          StopIsOutside(ks, n, i, lower, p);
        }
        assert ks[..n][i] == k;
      }
      if k in ks[..n] {
        var i :| 0 <= i < n && ks[..n][i] == k;
        assert ks[i] == k;
        assert k in ks;
      }
    }
    SortedIsUnique(ks[..n], InOrder(want));
  }

  lemma StopIsOutside(ks: seq<Bytes>, n: nat, i: nat, lower: Bound, p: Bytes)
    requires Sorted(ks) && n <= i < |ks| && Leq(p, lower.key)
    requires forall k :: k in ks ==> Above(lower, k)
    requires !StartsWith(ks[n], p)
    ensures !StartsWith(ks[i], p)
  {
    if n < i && StartsWith(ks[i], p) {
      assert ks[n] in ks;
      if p != lower.key && lower.key != ks[n] { LessTransitive(p, lower.key, ks[n]); }
      PrefixIsContiguous(p, ks[n], ks[i]);
    }
  }

  /** From the prefix itself, the walk visits all of its keys. */
  lemma PrefixWalk(t: Table, p: Bytes)
    ensures
      var ks := Range(t, Included(p));
      ks[..RunLength(ks, p)] == InOrder(Under(t, p))
  {
    EarlyStopMissesNothing(t, Included(p), p);
    assert (set k | k in Under(t, p) && Above(Included(p), k)) == Under(t, p) by {
      forall k | k in Under(t, p) ensures Leq(p, k) { PrefixComesFirst(p, k); }
    }
  }

  /* ----- Sums over key sets ----- */

  ghost function Sum(f: Bytes -> nat, s: set<Bytes>): nat
    decreases |s|
  {
    if s == {} then 0
    else
      var k := Least(s);
      f(k) + Sum(f, s - {k})
  }

  lemma {:induction false} SumPick(f: Bytes -> nat, s: set<Bytes>, k: Bytes)
    requires k in s
    ensures Sum(f, s) == f(k) + Sum(f, s - {k})
    decreases |s|
  {
    var m := Least(s);
    if m != k {
      SumPick(f, s - {m}, k);
      SumPick(f, s - {k}, m);
      assert s - {m} - {k} == s - {k} - {m};
    }
  }

  lemma SumAdd(f: Bytes -> nat, s: set<Bytes>, k: Bytes)
    requires k !in s
    ensures Sum(f, s + {k}) == f(k) + Sum(f, s)
  {
    SumPick(f, s + {k}, k);
    assert s + {k} - {k} == s;
  }

  lemma {:induction false} SumSplit(f: Bytes -> nat, a: set<Bytes>, b: set<Bytes>)
    requires a !! b
    ensures Sum(f, a + b) == Sum(f, a) + Sum(f, b)
    decreases |b|
  {
    if b == {} {
      assert a + b == a;
    } else {
      var k := Least(b);
      SumSplit(f, a + {k}, b - {k});
      SumAdd(f, a, k);
      assert a + {k} + (b - {k}) == a + b;
    }
  }

  lemma {:induction false} SumSame(f: Bytes -> nat, g: Bytes -> nat, s: set<Bytes>)
    requires forall k :: k in s ==> f(k) == g(k)
    ensures Sum(f, s) == Sum(g, s)
    decreases |s|
  {
    if s != {} { SumSame(f, g, s - {Least(s)}); }
  }

  lemma {:induction false} SumZero(f: Bytes -> nat, s: set<Bytes>)
    requires forall k :: k in s ==> f(k) == 0
    ensures Sum(f, s) == 0
    decreases |s|
  {
    if s != {} { SumZero(f, s - {Least(s)}); }
  }
}
