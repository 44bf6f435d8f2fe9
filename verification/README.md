# netsort in Dafny

A model of the core of `netsort`, a distributed sort of 100-byte records. Each
node holds part of the input. It routes every record to the node that owns
the record's key range, streams each peer its share over a byte-stream
connection, collects what the peers send it, and sorts its own share by the
ten-byte key.

The model has five modules, one per component of `src/netsort.go`:

- `Records` (records.dfy): bytes, records, the all-zero sentinel record, and
  concatenation of byte strings.
- `Partition` (partition.dfy): the destination of a record,
  `record[0] >> (8 - n)` with `n = floor(log2(#servers))`, and the loop that
  appends each record to its destination's bucket in a map.
- `Framing` (framing.dfy): the byte stream a sender writes (its records, then
  one sentinel) and the receiver loop that cuts 100-byte frames out of the
  reads of one connection.
- `Consolidation` (consolidation.dfy): the loop that takes records off the
  shared channel, counts sentinels and keeps data records until
  `numOfClients` sentinels have arrived.
- `Sorting` (sorting.dfy): the merge of received records with the node's own
  bucket and the sort by key, with Go's bytewise string order.

The sockets, goroutines and the channel are replaced by sequences. One
connection is the sequence of its successful reads, followed by end-of-stream.
The channel is the sequence of records in the order the consolidator dequeues
them. The model replaces the library sort by an in-place insertion sort on
an array, with the same guarantees: the result is sorted by key and is a
permutation of the input.

Two behaviours of the code that the model keeps:

- With a single server, `numOfClients` is 0. `consolidateData` always
  dequeues before it tests the count, and the count goes from 0 to 1 on the
  first sentinel, so it never equals 0. The node therefore waits on the
  channel forever instead of returning an empty result at once.
  `ConsolidateData` is `Done` only when `1 <= numOfClients`.
- The input reader keeps a short final read as a record (`buf[0:n]`) instead
  of discarding it. The partition model accepts records of any length of at
  least one byte. The key of a record shorter than ten bytes continues with
  the zero bytes of its read buffer. Such a record is the last one read, so
  it ends its bucket. On the wire the front of the sentinel completes the
  short record's frame, and the rest of the sentinel is left over and
  dropped at end-of-stream (`Framing.ShortRecordMisframes`). Unless the
  short record is all zero, that frame is not a sentinel: the receiver
  never publishes a sentinel for this peer, and the receiving node waits
  for one forever.

## Model

| member | source | states |
|---|---|---|
| Partition.Log2Floor | src/netsort.go:181 | the number of key bits n satisfies 2^n <= #servers < 2^(n+1), i.e. it is floor(log2 #servers) |
| Partition.ShiftRight | src/netsort.go:186 | a right shift never increases a value, and shifting a value below 2^k by k bits gives 0 |
| Partition.Destination | src/netsort.go:186 | the destination of a record is below 2^n: a value of n bits |
| Partition.ShiftIsDivision | src/netsort.go:186 | shifting right by k bits is floor division by 2^k |
| Partition.DestinationMonotone | src/netsort.go:186 | a smaller first byte never yields a higher-numbered destination |
| Partition.DestinationIsNode | src/netsort.go:181-186 | every destination is below the server count; with one server every record goes to node 0 |
| Partition.Lookup | src/netsort.go:187 | reading a node's entry yields its bucket when present and the empty slice when the key is missing |
| Partition.RouteDestinations | src/netsort.go:185-188 | every record in bucket d has destination d |
| Partition.RouteKeepsOrder | src/netsort.go:185-188 | bucket d is the input records at strictly increasing input positions, and every position whose record has destination d is among them: each bucket keeps input order |
| Partition.BucketsArePermutation | src/netsort.go:185-188 | each record occurs in its destination's bucket as often as in the input and in no other bucket: nothing lost, nothing duplicated |
| Partition.BucketRecords | src/netsort.go:181-188 | the loop fails (Go panics on a negative shift count) exactly when there are 512 or more servers and at least one record; otherwise the map's entry for every node is that node's bucket and no entry is empty |
| Framing.Encode | src/netsort.go:81-88 | the bytes a sender writes are its records back to back, followed by exactly 100 zero bytes |
| Framing.Frames | src/netsort.go:53-55 | a stream yields floor(length / 100) frames, each exactly 100 bytes |
| Framing.Leftover | src/netsort.go:55 | the bytes still pending after the last frame are fewer than 100 |
| Framing.FramesConserve | src/netsort.go:52-55 | the frames followed by the leftover bytes are exactly the stream: framing loses nothing |
| Framing.FramesUnique | src/netsort.go:52-55 | any split of a stream into 100-byte frames and a tail shorter than 100 is the one the receiver produces |
| Framing.RoundTrip | src/netsort.go:81-88 | when every record is 100 bytes, framing what a sender writes yields its records in order, then one sentinel, with nothing left over |
| Framing.FramesIncremental | src/netsort.go:51-56 | after each read of at most 100 bytes the frames so far are extended by at most one frame, cut from the pending bytes plus that read, and what remains pending is again the leftover of those bytes |
| Framing.ShortRecordMisframes | src/netsort.go:81-88 | when a sender's records are 100 bytes each except the last, which is shorter and not all zero, the receiver gets the full records in order and then one frame made of the short record and the front of the sentinel, which is not a sentinel; the rest of the sentinel is left over as fewer than 100 zero bytes |
| Framing.HandleConnection | src/netsort.go:38-61 | for any reads of at most 100 bytes each, the frames emitted are the frames of the bytes read, no more frames than reads, and the bytes dropped at end-of-stream are the leftover (fewer than 100); frames and dropped bytes together are the bytes read |
| Records.SentinelIsAllZero | src/netsort.go:113 | a record is a sentinel exactly when it is 100 bytes long and every byte is zero |
| Consolidation.ConsolidateData | src/netsort.go:107-123 | returns iff 1 <= numOfClients <= the number of sentinels on the channel; it returns right after the numOfClients-th sentinel, having consumed nothing after it, with the data records dequeued before that point in arrival order; otherwise it drains the channel and waits |
| Consolidation.DataRecordsHaveNoSentinel | src/netsort.go:113-119 | no all-zero record is ever kept as data |
| Consolidation.CountsAppend | src/netsort.go:111-121 | counting sentinels and keeping data records distribute over concatenation of channel contents |
| Consolidation.PeersDeliverAll | src/netsort.go:107-123 | when the peers' frames arrive one peer after another and each peer delivers non-zero data records and then one sentinel, the channel holds one sentinel per peer, ends in a sentinel, and its data records are all the peers' data |
| Consolidation.StopsAtLastSentinel | src/netsort.go:113-117 | on a channel that ends in a sentinel, the point where the count first reaches the total is the end of the channel |
| Sorting.Key | src/netsort.go:202 | every key is exactly ten bytes |
| Sorting.Less | src/netsort.go:202 | Go's string comparison on keys: a string is never below itself, and a proper prefix is below the longer string |
| Sorting.LessAsymmetric | src/netsort.go:202 | two keys are never each below the other |
| Sorting.LessTransitive | src/netsort.go:202 | the key order is transitive |
| Sorting.LessTotal | src/netsort.go:202 | any two different keys are ordered one way or the other |
| Sorting.LessAtFirstDifference | src/netsort.go:202 | keys that agree on their first i bytes are ordered by byte i, compared unsigned |
| Sorting.SortedAllPairs | src/netsort.go:201-203 | in a sequence whose adjacent records are in key order, no record has a key below that of any earlier record |
| Sorting.InsertAt | src/netsort.go:201-203 | inserting one record into a key-sorted prefix extends the sorted prefix by one, permutes the array, and leaves the rest alone |
| Sorting.SortByKey | src/netsort.go:201-203 | the array ends sorted by key (adjacent records non-decreasing) and is a permutation of what it held |
| Sorting.MergeAndSort | src/netsort.go:198-203 | the result is sorted by key and is a permutation of the received records followed by this node's own bucket (empty when the map has no entry for it) |

## Left out

- Command-line parsing, configuration loading and the lookup of this node's
  host and port (netsort.go:25-36, 129-156): argument and YAML plumbing.
- Reading the input file (netsort.go:159-177): operating-system I/O. The
  records it produces are the input of `Partition.BucketRecords`.
- Writing the output file (netsort.go:206-214): operating-system I/O. Note
  that the loop at netsort.go:212 writes the original input `records`, not
  the sorted `all_records`; the model's result is the sorted sequence.
- Listening, accepting, dialling with its unbounded retry loop, and closing
  connections (netsort.go:64-78, 90-105): networking, with no result to state
  beyond eventually connecting. Errors from `conn.Write` are ignored by the
  source and not modelled.
- A read error other than end-of-stream (netsort.go:49) aborts the whole
  process; every modelled connection ends in end-of-stream.
- Goroutines and the channel (netsort.go:76, 99, 192-194): the channel is a
  sequence of records. How frames from different peers interleave on it is
  concurrency and is not modelled; `Consolidation.PeersDeliverAll` takes the
  peers one after another.
- `math.Log2` on a float (netsort.go:181) is modelled as integer floor of
  log2. It agrees with the float computation for the server counts the
  system runs with. A server count of 0 is excluded: the float result is
  minus infinity and its conversion to `int` is platform-defined in Go.
- Aliasing of Go slices (a frame `record[:100]` sharing its backing array
  with the pending bytes): frames are immutable byte sequences.
- The algorithm behind `sort.Slice` is library code and its algorithm is not
  modelled. The insertion sort gives the same guarantees: sorted by key and
  a permutation. Order among records with equal keys is unspecified in the
  source and may differ.
