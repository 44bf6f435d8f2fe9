/**
 * Range partitioning of records over the cluster (netsort.go:181-188).
 * A record goes to node `record[0] >> (8 - n)` with `n = floor(log2(#servers))`,
 * and the records bound for each node are gathered, in input order, in a map.
 */
module Partition {
  import opened Records

  datatype Option<T> = None | Some(value: T)

  /**
   * A record as read from the input file: a successful read yields at least
   * one byte, so `record[0]` exists. (A short final read is kept as it is.)
   */
  type InputRecord = r: Record | |r| >= 1 witness [0]

  function Pow2(k: nat): (p: nat)
    ensures p >= 1
  {
    if k == 0 then 1 else 2 * Pow2(k - 1)
  }

  /** `int(math.Log2(float64(servers)))`: the number of key bits used to pick a node. */
  function Log2Floor(servers: nat): (n: nat)
    requires servers >= 1
    ensures Pow2(n) <= servers < Pow2(n + 1)
  {
    if servers == 1 then 0 else 1 + Log2Floor(servers / 2)
  }

  /** Go's `x >> k` on an unsigned value: k halvings, each dropping the low bit. */
  function ShiftRight(x: nat, k: nat): (y: nat)
    ensures y <= x
    ensures x < Pow2(k) ==> y == 0
  {
    if k == 0 then x else ShiftRight(x / 2, k - 1)
  }

  /** The node a record whose first byte is `first` is sent to, when n key bits are used. */
  function Destination(first: byte, n: nat): (d: nat)
    requires n <= 8
    ensures d < Pow2(n)
  {
    ShiftBound(first, 8 - n, n);
    ShiftRight(first, 8 - n)
  }

  lemma {:induction false} ShiftBound(x: nat, k: nat, m: nat)
    requires m <= 8 && k == 8 - m && x < 256
    ensures ShiftRight(x, k) < Pow2(m)
  {
    ShiftBoundGeneral(x, k, m);
    assert Pow2(k + m) == Pow2(8) == 256;
  }

  lemma {:induction false} ShiftBoundGeneral(x: nat, k: nat, m: nat)
    requires x < Pow2(k + m)
    ensures ShiftRight(x, k) < Pow2(m)
  {
    if k > 0 {
      assert Pow2(k + m) == 2 * Pow2(k - 1 + m);
      ShiftBoundGeneral(x / 2, k - 1, m);
    }
  }

  /** A shift is floor division by a power of two. */
  lemma {:induction false} ShiftIsDivision(x: nat, k: nat)
    ensures ShiftRight(x, k) == x / Pow2(k)
  {
    if k > 0 {
      ShiftIsDivision(x / 2, k - 1);
      DivHalf(x, Pow2(k - 1));
    }
  }

  lemma DivHalf(x: nat, p: nat)
    requires p >= 1
    ensures (x / 2) / p == x / (2 * p)
  {
    var q := (x / 2) / p;
    var r := (x / 2) % p;
    assert x / 2 == q * p + r;
    assert x == q * (2 * p) + (2 * r + x % 2);
    assert 0 <= 2 * r + x % 2 < 2 * p;
    DivUnique(x, 2 * p, q, 2 * r + x % 2);
  }

  lemma DivUnique(x: nat, d: nat, q: nat, r: nat)
    requires d >= 1 && x == q * d + r && r < d
    ensures x / d == q
  {
    var q', r' := x / d, x % d;
    assert x == q' * d + r';
    if q' > q {
      assert (q + 1) * d == q * d + d;
      MulMono(q + 1, q', d);
    } else if q' < q {
      assert (q' + 1) * d == q' * d + d;
      MulMono(q' + 1, q, d);
    }
  }

  lemma MulMono(a: nat, b: nat, d: nat)
    requires a <= b
    ensures a * d <= b * d
  {
  }

  lemma {:induction false} ShiftMonotone(a: nat, b: nat, k: nat)
    requires a <= b
    ensures ShiftRight(a, k) <= ShiftRight(b, k)
  {
    if k > 0 {
      ShiftMonotone(a / 2, b / 2, k - 1);
    }
  }

  /** A record with a smaller first byte never goes to a higher-numbered node. */
  lemma DestinationMonotone(a: byte, b: byte, n: nat)
    requires n <= 8 && a <= b
    ensures Destination(a, n) <= Destination(b, n)
  {
    ShiftMonotone(a, b, 8 - n);
  }

  /**
   * Every destination names a configured node: it is below the server
   * count, and with a single server every record stays on node 0.
   */
  lemma DestinationIsNode(first: byte, servers: nat)
    requires servers >= 1 && Log2Floor(servers) <= 8
    ensures Destination(first, Log2Floor(servers)) < servers
    ensures servers == 1 ==> Destination(first, Log2Floor(servers)) == 0
  {
  }

  /** The records, in input order, whose destination is d. */
  function Route(records: seq<InputRecord>, n: nat, d: int): (bucket: seq<InputRecord>)
    requires n <= 8 || |records| == 0
    ensures |bucket| <= |records|
  {
    if records == [] then []
    else
      var last := records[|records| - 1];
      Route(records[..|records| - 1], n, d) + (if Destination(last[0], n) == d then [last] else [])
  }

  /** Appending one record extends exactly the bucket of its destination. */
  lemma RouteSnoc(records: seq<InputRecord>, r: InputRecord, n: nat, d: int)
    requires n <= 8
    ensures Route(records + [r], n, d) == Route(records, n, d) + (if Destination(r[0], n) == d then [r] else [])
  {
  }

  /** Positions in `records` of the records whose destination is d. */
  function RoutePositions(records: seq<InputRecord>, n: nat, d: int): seq<nat>
    requires n <= 8 || |records| == 0
  {
    if records == [] then []
    else
      var k := |records| - 1;
      RoutePositions(records[..k], n, d) + (if Destination(records[k][0], n) == d then [k] else [])
  }

  /** Every record in bucket d has destination d. */
  lemma {:induction false} RouteDestinations(records: seq<InputRecord>, n: nat, d: int)
    requires n <= 8
    ensures forall r :: r in Route(records, n, d) ==> |r| >= 1 && Destination(r[0], n) == d
  {
    if records != [] {
      var k := |records| - 1;
      RouteDestinations(records[..k], n, d);
    }
  }

  /**
   * Each bucket keeps input order: bucket d is the records at strictly
   * increasing positions of the input, and every position whose record
   * has destination d is among them.
   */
  lemma {:induction false} RouteKeepsOrder(records: seq<InputRecord>, n: nat, d: int)
    requires n <= 8
    ensures var ps, bucket := RoutePositions(records, n, d), Route(records, n, d);
      && |ps| == |bucket|
      && (forall j :: 0 <= j < |ps| ==> ps[j] < |records| && bucket[j] == records[ps[j]])
      && (forall j, l :: 0 <= j < l < |ps| ==> ps[j] < ps[l])
      && (forall i :: 0 <= i < |records| && Destination(records[i][0], n) == d ==> i in ps)
  {
    if records != [] {
      var k := |records| - 1;
      var front := records[..k];
      RouteKeepsOrder(front, n, d);
      var ps0, b0 := RoutePositions(front, n, d), Route(front, n, d);
      var ps, bucket := RoutePositions(records, n, d), Route(records, n, d);
      var hit := Destination(records[k][0], n) == d;
      assert ps == ps0 + (if hit then [k] else []);
      assert bucket == b0 + (if hit then [records[k]] else []);
      forall j | 0 <= j < |ps|
        ensures ps[j] < |records| && bucket[j] == records[ps[j]]
      {
        if j < |ps0| {
          assert ps[j] == ps0[j] && bucket[j] == b0[j];
          assert front[ps0[j]] == records[ps0[j]];
        }
      }
      forall i | 0 <= i < |records| && Destination(records[i][0], n) == d
        ensures i in ps
      {
        if i < k {
          assert front[i] == records[i];
          assert i in ps0;
        }
      }
    }
  }

  /**
   * The buckets together are a permutation of the input: each record occurs
   * in the bucket of its destination exactly as often as in the input, and
   * in no other bucket. Nothing is lost and nothing is duplicated.
   */
  lemma {:induction false} BucketsArePermutation(records: seq<InputRecord>, n: nat, d: int, x: InputRecord)
    requires n <= 8
    ensures multiset(Route(records, n, d))[x] == if Destination(x[0], n) == d then multiset(records)[x] else 0
  {
    if records != [] {
      var k := |records| - 1;
      var front := records[..k];
      assert records == front + [records[k]];
      BucketsArePermutation(front, n, d, x);
    }
  }

  /** Go's map read: a missing key yields the empty (nil) slice. */
  function Lookup(m: map<int, seq<InputRecord>>, d: int): (bucket: seq<InputRecord>)
    ensures d in m ==> bucket == m[d]
    ensures d !in m ==> bucket == []
  {
    if d in m then m[d] else []
  }

  /** Holds when the map `m` has exactly the buckets of `records`, with no empty entry. */
  ghost predicate HoldsBuckets(m: map<int, seq<InputRecord>>, records: seq<InputRecord>, n: nat)
    requires n <= 8 || |records| == 0
  {
    && (forall d :: Lookup(m, d) == Route(records, n, d))
    && (forall d :: d in m ==> m[d] != [])
  }

  lemma BucketStep(m: map<int, seq<InputRecord>>, records: seq<InputRecord>, record: InputRecord, n: nat)
    requires n <= 8
    requires HoldsBuckets(m, records, n)
    ensures var dest := Destination(record[0], n);
      HoldsBuckets(m[dest := Lookup(m, dest) + [record]], records + [record], n)
  {
    var all := records + [record];
    var dest := Destination(record[0], n);
    var m' := m[dest := Lookup(m, dest) + [record]];
    forall d
      ensures Lookup(m', d) == Route(all, n, d)
    {
      RouteSnoc(records, record, n, d);
      if d != dest {
        assert Lookup(m', d) == Lookup(m, d);
      }
    }
  }

  /**
   * The bucketing loop: `records_by_server[d] = append(records_by_server[d], record)`.
   * With 512 or more servers the shift count `8 - n` is negative and Go panics on
   * the first record; the result is then None.
   */
  method BucketRecords(records: seq<InputRecord>, servers: nat) returns (buckets: Option<map<int, seq<InputRecord>>>)
    requires servers >= 1
    ensures buckets.None? <==> Log2Floor(servers) > 8 && |records| > 0
    ensures buckets.Some? ==> HoldsBuckets(buckets.value, records, Log2Floor(servers))
  {
    var n := Log2Floor(servers);
    if n > 8 && |records| > 0 {
      return None;
    }
    var m: map<int, seq<InputRecord>> := map[];
    var i := 0;
    while i < |records|
      invariant 0 <= i <= |records|
      invariant HoldsBuckets(m, records[..i], n)
    {
      var record := records[i];
      var dest := Destination(record[0], n);
      assert records[..i + 1] == records[..i] + [record];
      BucketStep(m, records[..i], record, n);
      m := m[dest := Lookup(m, dest) + [record]];
      i := i + 1;
    }
    assert records[..i] == records;
    return Some(m);
  }
}
