# Persisted Raft log and key/value store — a Dafny model

This project models the persistence helpers of a Raft implementation. They
are a durable, ordered Raft log and a small key/value store. Both sit on a
bolt (bbolt) bucket, i.e. a sorted map from byte keys to byte values, and
both use one integer codec: `i2b` writes an `int` as eight big-endian bytes
of its two's-complement `uint64`, and `b2i` reads it back.

Modules, leaf first:

- `Wrappers` (wrappers.dfy): `Option` and `Result`, the stand-ins for Go's
  `(value, error)` returns.
- `Codec` (codec.dfy): `i2b`, `b2i`, `bytes.Compare` and `compare`. Go's
  `int` is modelled as 64 bits (`Int64`), and `uint64(v)` / `int(u)` as
  explicit two's-complement conversions.
- `Cursor` (cursor.dfy): the order in which a bolt cursor visits a bucket
  whose keys are all `i2b(k)`: `Last()`, and `Seek` followed by `Next()`.
  bolt orders keys by `bytes.Compare`. On these keys that is the order of
  `uint64(k)` (`Codec.CompareUnsigned`). That agrees with integer order
  between two non-negative keys and between two negative keys, but every
  negative key sorts after every non-negative one.
- `RaftLog` (log.dfy): `Get`, `Match`, `Last`, `RangeGet`, `PopAfter` and
  `Append`. The bucket is a `map<Int64, Slot>` keyed by the decoded index.
  Because `i2b` is a bijection onto 8-byte strings, this loses nothing.
  A `Slot` is either JSON that decodes to an entry or bytes that do not.
  Each `db.View` is a read of the map. Each `db.Update` is a function that
  returns either the new map (commit) or an error (rollback; `Commit` keeps
  the old map).
- `Contiguity` (contiguity.dfy): the gap-free invariant. The log holds
  exactly indices 1..n, and every entry carries its own index. `Append` and
  `PopAfter` keep it. `Replay` proves it for any sequence of calls in which
  each Append's new indices fit in an int. On such
  a log, `Last` and `RangeGet` mean what a Raft log needs.
- `Store` (store.dfy): `Set`, `Get`, `SetInt` and `GetInt` over a
  `map<seq<Byte>, seq<Byte>>`.

The model follows the code where the code and its own doc comments, or the
usual Raft log contract, disagree:

- `PopAfter(i)` deletes index `i` as well as everything after it, though
  its comment promises only the entries after `i`. The loop runs while
  `i <= last`. On a log holding 1..3, `PopAfter(1)` therefore empties the
  log (`Contiguity.SessionOnThree`), and the next append lands at index 1
  again (`Contiguity.AppendToEmpty`).
- `RangeGet(i, j)` never looks at `j`, though its comment names the
  interval `(i, j]`. It returns every entry from `i + 1` to the end of the
  bucket.
- `Match` on an absent index compares against term 0. So an absent index
  matches term 0, where a Raft log would say that a missing entry never
  matches.
- `Last` always returns a nil error. If the last value does not decode, it
  reports that key with term 0.
- The codec keeps integer order within the non-negative ints and within
  the negative ints, but not across the sign. Every negative key sorts
  after every non-negative one. As a result, on a log holding 1..n,
  `RangeGet(i, j)` returns nothing when `i < -1`, or when `i` is the
  greatest int (where `i + 1` wraps) (`Contiguity.RangeGetBelowZero`).

There is one departure from the code, recorded under "## Findings".
`PopAfter` of the least int never ends in the source. The model's
`PopAfter` stops after deleting `i`, so it terminates there too. For every
other `i` it is the source's loop.

log.go calls `itob` and `btoi`, but util.go defines only `i2b` and `b2i`.
The model takes them to be the same 8-byte big-endian codec.

External collaborators are parameters or abstractions. JSON marshalling
failure is a predicate `marshals: Entry -> bool`. Undecodable stored bytes
are the `Corrupt` slot. bolt's key and value size limits are the constants
of `Store`.

## Model

| member | source | states |
|---|---|---|
| Codec.ToUint64 | util.go:36 | uint64(v) is a value in [0, 2^64) whose top bit is clear exactly when v >= 0 |
| Codec.ToUint64IsModulo | util.go:36 | uint64(v) equals v modulo 2^64, and int(uint64(v)) is v again |
| Codec.FromUint64 | util.go:41 | int(u) is the int whose uint64 pattern is u, so int is the inverse of uint64 |
| Codec.PutBigEndian | util.go:36 | binary.BigEndian.PutUint64 of u into n bytes writes exactly n bytes |
| Codec.BigEndian | util.go:41 | binary.BigEndian.Uint64 of n bytes reads a value below 256^n |
| Codec.BigEndianOfPut | util.go:36-41 | reading back what PutBigEndian wrote gives u, for every u below 256^n |
| Codec.PutOfBigEndian | util.go:36-41 | writing back what BigEndian read gives the same bytes |
| Codec.I2B | util.go:33-38 | i2b always yields exactly eight bytes |
| Codec.I2BLayout | util.go:33-38 | i2b is big-endian: byte k is byte 7-k of uint64(v), so byte 0 is its top byte and byte 7 its low byte |
| Codec.B2I | util.go:40-42 | b2i needs at least eight bytes and reads uint64(result) from the first eight, big-endian |
| Codec.B2IReadsEightBytes | util.go:40-42 | b2i ignores every byte after the eighth |
| Codec.RoundTrip | util.go:34-42 | b2i(i2b(v)) == v for every 64-bit v, negatives included |
| Codec.RoundTripBytes | util.go:34-42 | i2b(b2i(b)) == b for every 8-byte b, so the codec is a bijection |
| Codec.I2BInjective | util.go:34-38 | distinct ints have distinct encodings |
| Codec.BytesCompare | util.go:45 | bytes.Compare yields -1, 0 or +1, and 0 exactly when the byte strings are equal |
| Codec.Compare | util.go:44-46 | compare yields -1, 0 or +1, and 0 exactly when i == j |
| Codec.CompareUnsigned | util.go:44-46 | compare(i, j) is the sign of uint64(i) - uint64(j) |
| Codec.CompareAntisymmetric | util.go:44-46 | compare(i, j) == -compare(j, i) |
| Codec.CompareTransitive | util.go:44-46 | compare is transitive |
| Codec.CompareNonNegative | util.go:44-46 | for i, j >= 0, compare is -1, 0, +1 exactly when i < j, i == j, i > j |
| Codec.CompareNegative | util.go:44-46 | between two negative ints compare is also the integer order |
| Codec.CompareSignBoundary | util.go:34-46 | for v < 0 <= w, compare(v, w) == +1: byte order breaks integer order at the sign |
| Codec.Wrap | log.go:93 | Go's int arithmetic result: equals x in range, and equals x modulo 2^64 as uint64 |
| Cursor.LastKey | log.go:72 | a cursor's Last() lands on a key of the bucket that is not below any other |
| Cursor.LastKeyNonNegative | log.go:72 | when every key is non-negative, the cursor's last key is the greatest integer |
| Cursor.SeekFrom | log.go:93 | Seek(i2b(t)) then Next() visit exactly the keys not below t, in strictly increasing order |
| Cursor.LastKeyIsByteGreatest | log.go:72 | that key is the greatest under bytes.Compare of the encodings |
| Cursor.SeekFromIsByteOrder | log.go:93 | the seek visits the keys whose encoding is not below i2b(t), in bytes.Compare order |
| Cursor.SeekFromNonNegative | log.go:93 | on non-negative keys and t >= 0 the seek visits exactly the keys >= t, in increasing integer order |
| Cursor.SeekFromNegative | log.go:93 | on non-negative keys a seek from a negative t visits nothing |
| RaftLog.Get | log.go:37-56 | absent index: term 0 and no error; present: its term; undecodable: an error |
| RaftLog.Match | log.go:58-66 | true exactly when the stored term equals term, or the index is absent and term is 0; an error exactly when the value does not decode |
| RaftLog.Last | log.go:68-87 | (0, 0) on an empty bucket; otherwise the cursor's last key with its term; term 0 and still no error when that value does not decode |
| RaftLog.LastIsByteGreatest | log.go:70-87 | the index Last reports is the greatest key in byte order |
| RaftLog.Collect | log.go:93-100 | the scan returns the decoded values of the keys in order, up to the first that fails to decode, and then the error |
| RaftLog.CollectSound | log.go:93-100 | every returned entry is stored at a scanned key, and there is no error exactly when every scanned value decodes |
| RaftLog.RangeGet | log.go:89-104 | the entries are the values at the seek keys from i2b(i + 1) on, in cursor order, position by position: all of them and no error when every value decodes; otherwise the decoded prefix, with the next key corrupt and an unmarshal error; each entry is stored at a key not below i2b(i + 1), and there is no error exactly when all such values decode |
| RaftLog.Truncated | log.go:106-120 | PopAfter(i) leaves exactly the keys outside [i, last], with their values |
| RaftLog.PopAfter | log.go:106-120 | the deletion loop, counting last down to i, commits exactly Truncated(b, i) for every i, the least int included (corrected; see Findings) |
| RaftLog.PopAfterStep | log.go:114-117 | one pass of the loop as written: it exits exactly when last < i; otherwise last-- steps down by one, and from the least int wraps to the greatest |
| RaftLog.PopAfterLeastNeverExits | log.go:114-117 | with i the least int, the loop as written has not exited after any number of passes |
| RaftLog.PopAfterBeyondLast | log.go:114-117 | i above the last index is a no-op, and keys below i are always kept |
| RaftLog.PutAll | log.go:130-138 | fails exactly when some re-indexed entry does not marshal; otherwise entry x is at next + x with Index next + x and other keys are untouched |
| RaftLog.Append | log.go:122-141 | fails exactly when some entry, re-indexed to L + 1 + x, does not marshal |
| RaftLog.AppendAtomic | log.go:133-136 | one marshal failure makes the whole Append fail and leaves the log as it was |
| RaftLog.Commit | log.go:108 | a write transaction that returns an error leaves the bucket unchanged |
| RaftLog.GetAfterAppend | log.go:123-141 | after Append, index L + 1 + x reads back entry x's term and matches it; indices up to L read as before |
| RaftLog.PutAllIgnoresIndex | log.go:130-138 | the caller's Index fields do not affect what the puts store |
| RaftLog.AppendIgnoresIndex | log.go:131-132 | entries differing only in Index are appended identically |
| Contiguity.LastOfHolds | log.go:68-87 | on a log holding 1..n, Last is (n, term of n), or (0, 0) exactly when it is empty |
| Contiguity.AppendHolds | log.go:123-141 | on a log holding 1..n, Append leaves 1..n+\|es\| on success and 1..n on failure |
| Contiguity.AppendToEmpty | log.go:123-141 | appending to an empty log fills 1..\|es\|, entry x at index x + 1 |
| Contiguity.PopAfterHolds | log.go:107-120 | on a log holding 1..n, PopAfter(i) leaves 1..i-1; it empties the log for i <= 0 and is a no-op for i > n |
| Contiguity.RangeGetOnHolds | log.go:90-104 | on a log holding 1..n and -1 <= i < max int, RangeGet returns entries i+1..n in order without error, whatever j is |
| Contiguity.RangeGetIgnoresUpperBound | log.go:89-104 | RangeGet(0, j) returns entry n even when j < n |
| Contiguity.RangeGetBelowZero | log.go:93 | on a log holding 1..n, RangeGet with i < -1, or i the greatest int, returns nothing |
| Contiguity.Replay | log.go:106-141 | any run of Append and PopAfter from an empty log, each Append within its int bound, keeps the key set equal to 1..last with each entry's Index equal to its key, and last is Length(ops): appends add their entries exactly when all marshal, and PopAfter(i) keeps Kept(n, i) |
| Contiguity.ReplayAppend | log.go:123-141 | one Append keeps the log gap-free and adds \|es\| to its last index exactly when every re-indexed entry marshals |
| Contiguity.ReplayPopAfter | log.go:107-120 | one PopAfter keeps the log gap-free with last index Kept(n, i) |
| Contiguity.RefillAfterFullLog | log.go:123-141 | the bound is per call: Append of MAX_INT64 entries, PopAfter(1), then Append of one entry is a feasible run ending with one entry |
| Contiguity.SessionOnThree | log.go:68-120 | on a log 1..3 with terms 1, 1, 2: Last is (3, 2); Get(2) is 1; RangeGet(1, 3) is 2..3; PopAfter(1) empties it |
| Contiguity.Session | log.go:68-141 | after appending terms 1, 1, 2 to an empty log: Last is (3, 2); Get(2) is 1; RangeGet(1, 3) is 2..3; PopAfter(1) empties it |
| Store.Set | store.go:29-33 | fails exactly on bolt's key and value limits (KeyRequired exactly for an empty key); otherwise key maps to val and no other key changes |
| Store.Get | store.go:35-48 | the value at key, or empty bytes when there is none; never an error |
| Store.SetInt | store.go:50-54 | fails exactly on an empty or oversized key, with KeyRequired exactly for the empty key; otherwise the key holds i2b(i) and no other key changes |
| Store.GetInt | store.go:56-72 | 0 for an absent key; b2i of the first eight bytes otherwise; a panic exactly when the value is shorter than eight bytes |
| Store.SetThenGet | store.go:29-48 | Get after Set returns the value set |
| Store.SetKeepsOtherKeys | store.go:29-33 | Set on one key leaves Get and GetInt of every other key unchanged |
| Store.SetIntThenGetInt | store.go:50-72 | GetInt after SetInt returns the integer set, and Get returns its eight-byte encoding |
| Store.SetThenGetInt | store.go:56-72 | GetInt after Set(key, val) is b2i of val's first eight bytes, or the panic when val is shorter |
| Store.NeverSet | store.go:35-72 | a key never set reads as empty bytes and as 0 |

## Left out

- bolt plumbing is not modelled: `createBucket`, `getBucket`, `NewLog`, `NewStore`, and opening `db.View` / `db.Update` (util.go:10-31, log.go:14-26 and 143-145, store.go:12-21 and 74-76). These are I/O against an external engine. Each Update is an atomic state transition and each View a read.
- JSON `marshal` / `unmarshal` are library calls. The model replaces them with the `marshals` predicate and the `Corrupt` slot. A decoded entry is assumed to be the entry that was marshalled.
- `raft.LogEntry` comes from another package. Only `Index` and `Term` are used here; the rest is an opaque byte sequence.
- The nested read transaction that `Last()` opens inside `PopAfter` and `Append` is a bolt locking concern. In the model, `Last` reads the state the write transaction started from.
- The errors of `Delete` and `Put` inside the log's loops are ignored by the source. The model treats those calls as always succeeding.
- RaftLog.Append: requires `Last(b).index + |es| <= MAX_INT64`. The wrap-around of `last + 1 + i` (log.go:131) at the top of the int range is not modelled.
- Contiguity.Replay: requires every Append in the run to meet `RaftLog.Append`'s bound, for the same reason.
- A present but empty value in the store bucket is treated as present, so `GetInt` panics on it. Whether bolt returns nil for such a value is not modelled.
- bolt's other Put refusals are not modelled: a closed or read-only transaction, and a key that names a nested bucket.
- Concurrency between writers, durability and crash behaviour are properties of the storage engine and are not modelled.

## Findings

| source | as written | input that shows it | evidently intended | confidence | as-written member | corrected member |
|---|---|---|---|---|---|---|
| log.go:114-117 | `for i <= last { Delete(itob(last)); last-- }` | `PopAfter(math.MinInt64)` on any log: every int is >= i, and `last--` from the least int wraps to the greatest, so the loop never exits | delete every index from i up to the last one, then return | not executed; high that the loop never ends, since it follows from int wrap-around alone | RaftLog.PopAfterLeastNeverExits | RaftLog.PopAfter |
