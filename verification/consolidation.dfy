/**
 * `consolidateData` (netsort.go:107-123): the frames every receiver
 * publishes arrive on one channel, modelled as the sequence of records in
 * the order they are dequeued. Sentinels are counted, other records kept,
 * until `numOfClients` sentinels have been seen.
 */
module Consolidation {
  import opened Records

  /** Number of sentinels in `s`. */
  function SentinelCount(s: seq<Record>): nat
  {
    if s == [] then 0
    else SentinelCount(s[..|s| - 1]) + (if IsSentinel(s[|s| - 1]) then 1 else 0)
  }

  /** The records of `s` other than sentinels, in order. */
  function DataRecords(s: seq<Record>): seq<Record>
  {
    if s == [] then []
    else DataRecords(s[..|s| - 1]) + (if IsSentinel(s[|s| - 1]) then [] else [s[|s| - 1]])
  }

  /**
   * What the consolidator ends with. Done: it returned after dequeuing
   * `consumed` records. Starved: the channel ran dry first; the real node
   * then blocks on the channel forever.
   */
  datatype Outcome = Done(records: seq<Record>, consumed: nat) | Starved(records: seq<Record>)

  lemma {:induction false} SentinelCountPrefix(s: seq<Record>, k: nat)
    requires k <= |s|
    ensures SentinelCount(s[..k]) <= SentinelCount(s)
    decreases |s| - k
  {
    if k < |s| {
      SentinelCountPrefix(s, k + 1);
      assert s[..k + 1][..k] == s[..k];
    } else {
      assert s[..k] == s;
    }
  }

  /**
   * Returns right after the `numOfClients`-th sentinel is dequeued, with the
   * data records dequeued up to then, in arrival order; nothing after that
   * sentinel is consumed. With `numOfClients < 1` the count never equals it,
   * so the loop never returns.
   */
  method ConsolidateData(channel: seq<Record>, numOfClients: int) returns (out: Outcome)
    ensures out.Done? <==> 1 <= numOfClients <= SentinelCount(channel)
    ensures out.Done? ==>
      && 1 <= out.consumed <= |channel|
      && IsSentinel(channel[out.consumed - 1])
      && SentinelCount(channel[..out.consumed - 1]) == numOfClients - 1
      && out.records == DataRecords(channel[..out.consumed])
    ensures out.Starved? ==> out.records == DataRecords(channel)
  {
    var records: seq<Record> := [];
    var received := 0;
    var i := 0;
    while i < |channel|
      invariant 0 <= i <= |channel|
      invariant received == SentinelCount(channel[..i])
      invariant records == DataRecords(channel[..i])
      invariant numOfClients >= 1 ==> received < numOfClients
    {
      var record := channel[i];
      assert channel[..i + 1][..i] == channel[..i];
      i := i + 1;
      if IsSentinel(record) {
        received := received + 1;
        if received == numOfClients {
          SentinelCountPrefix(channel, i);
          return Done(records, i);
        }
      } else {
        records := records + [record];
      }
    }
    assert channel[..i] == channel;
    return Starved(records);
  }

  /** No sentinel is ever kept as data. */
  lemma {:induction false} DataRecordsHaveNoSentinel(s: seq<Record>)
    ensures forall r :: r in DataRecords(s) ==> !IsSentinel(r)
  {
    if s != [] {
      DataRecordsHaveNoSentinel(s[..|s| - 1]);
    }
  }

  lemma {:induction false} CountsAppend(a: seq<Record>, b: seq<Record>)
    ensures SentinelCount(a + b) == SentinelCount(a) + SentinelCount(b)
    ensures DataRecords(a + b) == DataRecords(a) + DataRecords(b)
    decreases |b|
  {
    if b == [] {
      assert a + b == a;
    } else {
      var k := |b| - 1;
      CountsAppend(a, b[..k]);
      assert (a + b)[..|a + b| - 1] == a + b[..k];
    }
  }

  /** What one peer's receiver publishes: its data records, then one sentinel. */
  function PeerFrames(data: seq<Record>): seq<Record>
  {
    data + [Sentinel()]
  }

  /** The channel when the peers' frame sequences arrive one peer after another. */
  function Arrivals(peers: seq<seq<Record>>): seq<Record>
  {
    if peers == [] then [] else Arrivals(peers[..|peers| - 1]) + PeerFrames(peers[|peers| - 1])
  }

  /** All the peers' data, one peer after another. */
  function AllData(peers: seq<seq<Record>>): seq<Record>
  {
    if peers == [] then [] else AllData(peers[..|peers| - 1]) + peers[|peers| - 1]
  }

  /**
   * When every peer sends data records that are never all zero, followed by
   * exactly one sentinel, the channel holds one sentinel per peer, the last
   * record is a sentinel, and the data records are exactly the peers' data.
   * With `numOfClients` equal to the number of peers, ConsolidateData is
   * therefore Done, and by StopsAtLastSentinel it has consumed the whole
   * channel and returns all the data.
   */
  lemma {:induction false} PeersDeliverAll(peers: seq<seq<Record>>)
    requires forall p, j :: 0 <= p < |peers| && 0 <= j < |peers[p]| ==> !IsSentinel(peers[p][j])
    ensures SentinelCount(Arrivals(peers)) == |peers|
    ensures DataRecords(Arrivals(peers)) == AllData(peers)
    ensures peers != [] ==> IsSentinel(Arrivals(peers)[|Arrivals(peers)| - 1])
  {
    if peers != [] {
      var k := |peers| - 1;
      var front, last := peers[..k], peers[k];
      assert forall p, j :: 0 <= p < |front| && 0 <= j < |front[p]| ==> !IsSentinel(front[p][j]) by {
        forall p, j | 0 <= p < |front| && 0 <= j < |front[p]|
          ensures !IsSentinel(front[p][j])
        {
          assert front[p] == peers[p];
        }
      }
      PeersDeliverAll(front);
      CountsAppend(Arrivals(front), PeerFrames(last));
      PeerDataOnly(last);
    }
  }

  /**
   * The only point where the count of sentinels reaches the total, just
   * after a sentinel, is the end of a channel that ends in a sentinel.
   */
  lemma StopsAtLastSentinel(s: seq<Record>, k: nat)
    requires 1 <= k <= |s| && IsSentinel(s[k - 1]) && IsSentinel(s[|s| - 1])
    requires SentinelCount(s[..k - 1]) + 1 == SentinelCount(s)
    ensures k == |s|
  {
    if k < |s| {
      var front, back := s[..k], s[k..];
      assert s == front + back;
      assert front[..k - 1] == s[..k - 1];
      assert SentinelCount(back) >= 1 by {
        assert back[|back| - 1] == s[|s| - 1];
      }
      CountsAppend(front, back);
    }
  }

  lemma {:induction false} PeerDataOnly(data: seq<Record>)
    requires forall j :: 0 <= j < |data| ==> !IsSentinel(data[j])
    ensures SentinelCount(PeerFrames(data)) == 1
    ensures DataRecords(PeerFrames(data)) == data
  {
    NoSentinels(data);
    CountsAppend(data, [Sentinel()]);
    assert [Sentinel()][..0] == [];
  }

  lemma {:induction false} NoSentinels(data: seq<Record>)
    requires forall j :: 0 <= j < |data| ==> !IsSentinel(data[j])
    ensures SentinelCount(data) == 0
    ensures DataRecords(data) == data
  {
    if data != [] {
      var k := |data| - 1;
      NoSentinels(data[..k]);
      assert data == data[..k] + [data[k]];
    }
  }
}
