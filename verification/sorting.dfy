/**
 * The local merge and sort (netsort.go:198-203): the received records are
 * followed by this node's own bucket, and the whole is sorted by the first
 * ten bytes of each record, compared as Go strings.
 */
module Sorting {
  import opened Records
  import Partition

  /**
   * `record[:10]`. A record shorter than ten bytes is a short read into a
   * zero-filled 100-byte buffer; reslicing reaches into that buffer, so its
   * key continues with zero bytes.
   */
  function Key(r: Record): (k: seq<byte>)
    ensures |k| == KeySize
  {
    if |r| >= KeySize then r[..KeySize] else r + Zeros(KeySize - |r|)
  }

  /**
   * Go's `string(a) < string(b)`: lexicographic order on unsigned bytes.
   * Equal strings are not below each other; a proper prefix is below.
   */
  predicate Less(a: seq<byte>, b: seq<byte>): (below: bool)
    ensures below ==> a != b
    ensures |a| < |b| && a == b[..|a|] ==> below
  {
    if |a| == 0 then |b| > 0
    else if |b| == 0 then false
    else a[0] < b[0] || (a[0] == b[0] && Less(a[1..], b[1..]))
  }

  lemma {:induction false} LessTransitive(a: seq<byte>, b: seq<byte>, c: seq<byte>)
    requires Less(a, b) && Less(b, c)
    ensures Less(a, c)
  {
    if |a| > 0 && |b| > 0 && |c| > 0 && a[0] == b[0] == c[0] {
      LessTransitive(a[1..], b[1..], c[1..]);
    }
  }

  lemma {:induction false} LessAsymmetric(a: seq<byte>, b: seq<byte>)
    requires Less(a, b)
    ensures !Less(b, a)
  {
    if |a| > 0 && |b| > 0 && a[0] == b[0] {
      LessAsymmetric(a[1..], b[1..]);
    }
  }

  /** Any two distinct byte strings are ordered one way or the other. */
  lemma {:induction false} LessTotal(a: seq<byte>, b: seq<byte>)
    requires a != b
    ensures Less(a, b) || Less(b, a)
  {
    if |a| > 0 && |b| > 0 && a[0] == b[0] {
      assert a == [a[0]] + a[1..] && b == [b[0]] + b[1..];
      LessTotal(a[1..], b[1..]);
    }
  }

  /**
   * Byte strings of equal length that agree on their first i bytes and
   * differ at byte i are ordered by that byte.
   */
  lemma {:induction false} LessAtFirstDifference(a: seq<byte>, b: seq<byte>, i: nat)
    requires |a| == |b| && i < |a| && a[..i] == b[..i] && a[i] < b[i]
    ensures Less(a, b) && !Less(b, a)
  {
    if i > 0 {
      assert a[1..][..i - 1] == a[..i][1..] && b[1..][..i - 1] == b[..i][1..];
      assert a[0] == a[..i][0] && b[0] == b[..i][0];
      LessAtFirstDifference(a[1..], b[1..], i - 1);
    }
  }

  /** The comparator handed to `sort.Slice`. */
  predicate KeyLess(x: Record, y: Record)
  {
    Less(Key(x), Key(y))
  }

  /** Adjacent records are non-decreasing by key. */
  predicate Sorted(s: seq<Record>)
  {
    forall i :: 0 < i < |s| ==> !KeyLess(s[i], s[i - 1])
  }

  /** In a sorted sequence no record has a key below that of any earlier record. */
  lemma {:induction false} SortedAllPairs(s: seq<Record>, i: nat, j: nat)
    requires Sorted(s) && i < j < |s|
    ensures !KeyLess(s[j], s[i])
    decreases j - i
  {
    if i + 1 < j {
      SortedAllPairs(s, i + 1, j);
      var a, b, c := Key(s[i]), Key(s[i + 1]), Key(s[j]);
      assert !Less(b, a) && !Less(c, b);
      if Less(c, a) && a != b {
        LessTotal(a, b);
        LessTransitive(c, a, b);
      }
    }
  }

  /**
   * Midway through inserting s[i] into the sorted s[..i]: the inserted record
   * now sits at j, every adjacent pair up to i is in order except possibly the
   * one ending at j, and the records either side of j are in order.
   */
  predicate Inserting(s: seq<Record>, i: nat, j: nat)
    requires j <= i < |s|
  {
    && (forall k :: 0 < k <= i && k != j ==> !KeyLess(s[k], s[k - 1]))
    && (0 < j < i ==> !KeyLess(s[j + 1], s[j - 1]))
  }

  /** Swapping the inserted record with a greater left neighbour keeps the insertion going. */
  lemma SwapStep(s: seq<Record>, i: nat, j: nat)
    requires 0 < j <= i < |s| && Inserting(s, i, j) && KeyLess(s[j], s[j - 1])
    ensures Inserting(s[j - 1 := s[j]][j := s[j - 1]], i, j - 1)
  {
    var t := s[j - 1 := s[j]][j := s[j - 1]];
    LessAsymmetric(Key(s[j]), Key(s[j - 1]));
    forall k | 0 < k <= i && k != j - 1
      ensures !KeyLess(t[k], t[k - 1])
    {
      if k == j + 1 {
        assert t[k] == s[j + 1] && t[k - 1] == s[j - 1];
      } else if k != j {
        assert k < j - 1 || k > j + 1;
        assert t[k] == s[k] && t[k - 1] == s[k - 1];
      }
    }
    if 0 < j - 1 {
      assert t[j] == s[j - 1] && t[j - 2] == s[j - 2];
    }
  }

  lemma SwapPermutes<T>(s: seq<T>, p: nat, q: nat)
    requires p < q < |s|
    ensures multiset(s[p := s[q]][q := s[p]]) == multiset(s)
  {
  }

  /** Adjacent records below position m are in order. */
  predicate OrderedBelow(s: seq<Record>, m: nat)
  {
    forall k :: 0 < k < m && k < |s| ==> !KeyLess(s[k], s[k - 1])
  }

  lemma InsertDone(s: seq<Record>, i: nat, j: nat)
    requires j <= i < |s| && Inserting(s, i, j)
    requires j == 0 || !KeyLess(s[j], s[j - 1])
    ensures OrderedBelow(s, i + 1)
  {
  }

  /** Inserts a[i] into the sorted prefix a[..i] by adjacent swaps. */
  method InsertAt(a: array<Record>, i: nat)
    requires i < a.Length
    requires OrderedBelow(a[..], i)
    modifies a
    ensures OrderedBelow(a[..], i + 1)
    ensures a[i + 1..] == old(a[i + 1..])
    ensures multiset(a[..]) == multiset(old(a[..]))
  {
    var j := i;
    while j > 0 && KeyLess(a[j], a[j - 1])
      invariant 0 <= j <= i
      invariant Inserting(a[..], i, j)
      invariant a[i + 1..] == old(a[i + 1..])
      invariant multiset(a[..]) == multiset(old(a[..]))
      decreases j
    {
      ghost var s := a[..];
      SwapStep(s, i, j);
      SwapPermutes(s, j - 1, j);
      a[j - 1], a[j] := a[j], a[j - 1];
      assert a[..] == s[j - 1 := s[j]][j := s[j - 1]];
      j := j - 1;
    }
    InsertDone(a[..], i, j);
  }

  /** `sort.Slice` with the key comparator: sorts `a` in place. */
  method SortByKey(a: array<Record>)
    modifies a
    ensures Sorted(a[..])
    ensures multiset(a[..]) == multiset(old(a[..]))
  {
    var i := 0;
    while i < a.Length
      invariant 0 <= i <= a.Length
      invariant OrderedBelow(a[..], i)
      invariant multiset(a[..]) == multiset(old(a[..]))
    {
      InsertAt(a, i);
      i := i + 1;
    }
  }

  /**
   * `append(received_records, records_by_server[serverId]...)` followed by
   * the key sort: the result is sorted by key and is a permutation of the
   * received records followed by this node's own bucket (empty when the map
   * has no entry for this node).
   */
  method MergeAndSort(received: seq<Record>, buckets: map<int, seq<Partition.InputRecord>>, serverId: int)
    returns (all: seq<Record>)
    ensures Sorted(all)
    ensures multiset(all) == multiset(received + Partition.Lookup(buckets, serverId))
  {
    var merged := received + Partition.Lookup(buckets, serverId);
    var a := new Record[|merged|](k requires 0 <= k < |merged| => merged[k]);
    assert a[..] == merged;
    SortByKey(a);
    all := a[..];
  }
}
