/** Bytes, records and the all-zero sentinel shared by every stage of netsort. */
module Records {

  /** A Go `byte`: an unsigned 8-bit value. */
  type byte = x: int | 0 <= x < 256

  /** A Go `[]byte` record. Well-formed records are RecordSize bytes long. */
  type Record = seq<byte>

  /** Width of one record on disk and on the wire. */
  const RecordSize: nat := 100

  /** Number of leading bytes that form the sort key. */
  const KeySize: nat := 10

  function Zeros(n: nat): (z: seq<byte>)
    ensures |z| == n
    ensures forall i :: 0 <= i < n ==> z[i] == 0
  {
    seq(n, _ => 0 as byte)
  }

  /** The end-of-stream marker a sender writes after its data: `make([]byte, 100)`. */
  function Sentinel(): Record
  {
    Zeros(RecordSize)
  }

  /** `bytes.Equal(all_zero_record, record)`. */
  predicate IsSentinel(r: Record)
  {
    r == Sentinel()
  }

  /** A record is a sentinel exactly when it is 100 bytes long and every byte is zero. */
  lemma SentinelIsAllZero(r: Record)
    ensures IsSentinel(r) <==> |r| == RecordSize && forall i :: 0 <= i < |r| ==> r[i] == 0
  {
  }

  /** The pieces written back to back. */
  function Flatten(pieces: seq<seq<byte>>): seq<byte>
  {
    if pieces == [] then [] else pieces[0] + Flatten(pieces[1..])
  }

  lemma {:induction false} FlattenAppend(a: seq<seq<byte>>, b: seq<seq<byte>>)
    ensures Flatten(a + b) == Flatten(a) + Flatten(b)
  {
    if a == [] {
      assert a + b == b;
    } else {
      assert (a + b)[1..] == a[1..] + b;
      FlattenAppend(a[1..], b);
    }
  }
}
