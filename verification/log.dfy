/** The persisted Raft log: a bolt bucket mapping i2b(index) to a JSON-encoded
    raft.LogEntry, read and written only through the six operations of
    log.go. Each `db.View` is a pure read of the bucket; each `db.Update` is a
    function from the bucket to either a new bucket (commit) or an error
    (rollback, bucket unchanged). */
module RaftLog {
  import opened Wrappers
  import opened Codec
  import opened Cursor

  /** raft.LogEntry as far as this package touches it: `Index` and `Term`;
      the rest of the entry is carried as opaque bytes. */
  datatype Entry = Entry(index: Int64, term: Int64, command: seq<Byte>)

  /** A value in the bucket: bytes that unmarshal to an entry, or bytes
      that do not (only ever written by something other than this log). */
  datatype Slot = Stored(entry: Entry) | Corrupt

  /** The log bucket. Every key the log writes is i2b(index), and i2b is a
      bijection between Int64 and 8-byte strings (Codec.RoundTrip and
      Codec.RoundTripBytes), so the bucket is keyed here by the index. */
  type Bucket = map<Int64, Slot>

  datatype Error = UnmarshalError | MarshalError

  /** The result of `Last()`: index and term, never an error. */
  datatype Tail = Tail(index: Int64, term: Int64)

  /** The result of `RangeGet`: the entries collected and the error, if any,
      that stopped the scan (Go returns both). */
  datatype Fetched = Fetched(entries: seq<Entry>, err: Option<Error>)

  /** Get: the term stored at index; 0 with no error when nothing is stored
      there; an error (and term 0) when the stored bytes do not decode. */
  function Get(b: Bucket, index: Int64): (r: Result<Int64, Error>)
    ensures r.Failure? <==> index in b && b[index].Corrupt?
    ensures index !in b ==> r == Success(0)
    ensures index in b && b[index].Stored? ==> r == Success(b[index].entry.term)
  {
    if index !in b then Success(0)
    else match b[index]
      case Corrupt => Failure(UnmarshalError)
      case Stored(e) => Success(e.term)
  }

  /** Match: whether the term at index is `term`. An absent index reads as
      term 0, so it matches term 0 and nothing else. */
  function Match(b: Bucket, index: Int64, term: Int64): (r: Result<bool, Error>)
    ensures r.Failure? <==> index in b && b[index].Corrupt?
    ensures r == Success(true) <==>
              || (index in b && b[index].Stored? && b[index].entry.term == term)
              || (index !in b && term == 0)
  {
    match Get(b, index)
    case Failure(e) => Failure(e)
    case Success(t) => Success(term == t)
  }

  /** Last: the key a cursor's Last() finds, i.e. the greatest key in byte
      order, with its term; (0, 0) for an empty bucket. A decode failure is
      swallowed: the index is still reported and the term is 0. */
  function Last(b: Bucket): (t: Tail)
    ensures b == map[] ==> t == Tail(0, 0)
    ensures b != map[] ==> t.index in b && forall k | k in b :: ToUint64(k) <= ToUint64(t.index)
    ensures b != map[] && b[t.index].Stored? ==> t.term == b[t.index].entry.term
    ensures b != map[] && b[t.index].Corrupt? ==> t.term == 0
  {
    if b == map[] then Tail(0, 0)
    else
      var k := LastKey(b.Keys);
      match b[k]
      case Stored(e) => Tail(k, e.term)
      case Corrupt => Tail(k, 0)
  }

  /** The cursor loop of RangeGet: decode the values at keys in turn, stopping
      at the first that does not decode. */
  function Collect(b: Bucket, keys: seq<Int64>): (r: Fetched)
    requires forall x | 0 <= x < |keys| :: keys[x] in b
    ensures |r.entries| <= |keys|
    ensures forall x | 0 <= x < |r.entries| :: b[keys[x]] == Stored(r.entries[x])
    ensures r.err.None? ==> |r.entries| == |keys|
    ensures r.err.Some? ==> |r.entries| < |keys| && b[keys[|r.entries|]].Corrupt? && r.err == Some(UnmarshalError)
  {
    if keys == [] then Fetched([], None)
    else match b[keys[0]]
      case Corrupt => Fetched([], Some(UnmarshalError))
      case Stored(e) =>
        var rest := Collect(b, keys[1..]);
        Fetched([e] + rest.entries, rest.err)
  }

  /** RangeGet: seek to i2b(i + 1) (Go's `i + 1` wraps at the top of the int
      range) and collect every entry from there to the end of the bucket in
      byte order. The bound j is never consulted. */
  function RangeGet(b: Bucket, i: Int64, j: Int64): (r: Fetched)
    ensures var keys := SeekFrom(b.Keys, Wrap(i + 1));
      && |r.entries| <= |keys|
      && (forall x | 0 <= x < |r.entries| :: b[keys[x]] == Stored(r.entries[x]))
      && (r.err.None? ==> |r.entries| == |keys|)
      && (r.err.Some? ==> |r.entries| < |keys| && b[keys[|r.entries|]].Corrupt? && r.err == Some(UnmarshalError))
    ensures forall e | e in r.entries :: exists k :: k in b && ToUint64(k) >= ToUint64(Wrap(i + 1)) && b[k] == Stored(e)
    ensures r.err.None? <==> forall k | k in b && ToUint64(k) >= ToUint64(Wrap(i + 1)) :: b[k].Stored?
  {
    var keys := SeekFrom(b.Keys, Wrap(i + 1));
    var r := Collect(b, keys);
    CollectSound(b, keys, r);
    r
  }

  lemma CollectSound(b: Bucket, keys: seq<Int64>, r: Fetched)
    requires forall x | 0 <= x < |keys| :: keys[x] in b
    requires r == Collect(b, keys)
    ensures forall e | e in r.entries :: exists k :: k in keys && b[k] == Stored(e)
    ensures r.err.None? <==> forall k | k in keys :: b[k].Stored?
  {
    forall e | e in r.entries
      ensures exists k :: k in keys && b[k] == Stored(e)
    {
      var x :| 0 <= x < |r.entries| && r.entries[x] == e;
      assert keys[x] in keys;
    }
    if r.err.Some? {
      assert keys[|r.entries|] in keys;
    } else {
      forall k | k in keys ensures b[k].Stored? {
        var x :| 0 <= x < |keys| && keys[x] == k;
      }
    }
  }

  /** The bucket PopAfter(i) commits: every key from i up to the last index
      (both included) removed, everything else as it was. */
  function Truncated(b: Bucket, i: Int64): (b': Bucket)
    ensures forall k :: k in b' <==> k in b && !(i <= k <= Last(b).index)
    ensures forall k | k in b' :: b'[k] == b[k]
  {
    var last := Last(b).index;
    map k | k in b && !(i <= k <= last) :: b[k]
  }

  /** One pass of the deletion loop of log.go as written: while i <= last,
      delete last and decrement it with Go's wrapping `last--`. None means
      the loop has exited. */
  function PopAfterStep(i: Int64, last: Int64): (next: Option<Int64>)
    ensures next.None? <==> last < i
    ensures next.Some? && last > MIN_INT64 ==> next.value == last - 1
    ensures next.Some? && last == MIN_INT64 ==> next.value == MAX_INT64
  {
    if i <= last then Some(Wrap(last - 1)) else None
  }

  /** Where the loop as written stands after n passes from last; None once
      it has exited. */
  function PopAfterRun(i: Int64, last: Int64, n: nat): Option<Int64>
    decreases n
  {
    if n == 0 then Some(last)
    else match PopAfterStep(i, last)
      case None => None
      case Some(l) => PopAfterRun(i, l, n - 1)
  }

  /** With i the least int the loop as written never exits: every int is
      >= i, and `last--` from the least int wraps to the greatest. */
  lemma {:induction false} PopAfterLeastNeverExits(last: Int64, n: nat)
    ensures PopAfterRun(MIN_INT64, last, n).Some?
    decreases n
  {
    if n > 0 {
      PopAfterLeastNeverExits(PopAfterStep(MIN_INT64, last).value, n - 1);
    }
  }

  /** PopAfter: the deletion loop, counting `last` down to i, with the loop
      stopping once it has deleted i itself rather than decrementing past
      it. For every i but the least int this is the loop of log.go; for the
      least int, where that loop never ends, it deletes down to i and stops. */
  method PopAfter(b: Bucket, i: Int64) returns (b': Bucket)
    ensures b' == Truncated(b, i)
  {
    var last := Last(b).index;
    ghost var top := last;
    b' := b;
    while i <= last
      invariant i <= last <= top || last == top
      invariant b' == map k | k in b && !(last < k <= top) :: b[k]
      decreases last - i
    {
      b' := b' - {last};
      if last == i {
        break;
      }
      last := last - 1;
    }
  }

  /** The puts of Append's loop: entry x goes to key next + x with its Index
      overwritten; the first entry that fails to marshal aborts the loop. */
  function PutAll(b: Bucket, es: seq<Entry>, next: int, marshals: Entry -> bool): (r: Result<Bucket, Error>)
    requires MIN_INT64 <= next && next + |es| <= MAX_INT64 + 1
    ensures r.Failure? <==> exists x | 0 <= x < |es| :: !marshals(es[x].(index := next + x))
    ensures r.Failure? ==> r.error == MarshalError
    ensures r.Success? ==> forall k :: k in r.value <==> k in b || next <= k < next + |es|
    ensures r.Success? ==> forall x | 0 <= x < |es| :: r.value[next + x] == Stored(es[x].(index := next + x))
    ensures r.Success? ==> forall k | k in b && !(next <= k < next + |es|) :: r.value[k] == b[k]
    decreases |es|
  {
    if es == [] then Success(b)
    else
      var e := es[0].(index := next);
      if !marshals(e) then Failure(MarshalError)
      else
        var r := PutAll(b[next := Stored(e)], es[1..], next + 1, marshals);
        assert forall x | 1 <= x < |es| :: es[x] == es[1..][x - 1];
        r
  }

  /** Append: inside one write transaction, read the last index L and store
      es[x] at L + 1 + x. A marshal failure rolls the whole batch back. */
  function Append(b: Bucket, es: seq<Entry>, marshals: Entry -> bool): (r: Result<Bucket, Error>)
    requires Last(b).index + |es| <= MAX_INT64
    ensures r.Failure? <==> exists x | 0 <= x < |es| :: !marshals(es[x].(index := Last(b).index + 1 + x))
  {
    PutAll(b, es, Last(b).index + 1, marshals)
  }

  /** What `db.Update` leaves behind: the new bucket on commit, the old one
      on rollback. */
  function Commit(b: Bucket, r: Result<Bucket, Error>): (b': Bucket)
    ensures r.Failure? ==> b' == b
  {
    match r
    case Success(b2) => b2
    case Failure(_) => b
  }

  // ---------------------------------------------------------------------
  // Properties of the operations

  /** Last reports the key bolt's cursor really lands on: the greatest in
      byte order of the encodings. */
  lemma LastIsByteGreatest(b: Bucket)
    requires b != map[]
    ensures forall k | k in b :: Compare(k, Last(b).index) <= 0
  {
    forall k | k in b ensures Compare(k, Last(b).index) <= 0 {
      CompareUnsigned(k, Last(b).index);
    }
  }

  /** After a successful Append, entry x reads back at index L + 1 + x with
      its own term (so it matches that term), and every index the log held
      up to L reads as before. */
  lemma GetAfterAppend(b: Bucket, es: seq<Entry>, marshals: Entry -> bool, x: nat)
    requires Last(b).index + |es| <= MAX_INT64
    requires Append(b, es, marshals).Success? && x < |es|
    ensures Get(Append(b, es, marshals).value, Last(b).index + 1 + x) == Success(es[x].term)
    ensures Match(Append(b, es, marshals).value, Last(b).index + 1 + x, es[x].term) == Success(true)
    ensures forall k: Int64 | k <= Last(b).index :: Get(Append(b, es, marshals).value, k) == Get(b, k)
  {
    var b' := Append(b, es, marshals).value;
    var last := Last(b).index;
    assert b'[last + 1 + x] == Stored(es[x].(index := last + 1 + x));
    forall k: Int64 | k <= last ensures Get(b', k) == Get(b, k) {
      if k in b {
        assert b'[k] == b[k];
      }
    }
  }

  /** The Index a caller puts on an entry is ignored: entries that agree on
      everything but Index are stored identically. */
  lemma {:induction false} PutAllIgnoresIndex(b: Bucket, es: seq<Entry>, es': seq<Entry>, next: int, marshals: Entry -> bool)
    requires MIN_INT64 <= next && next + |es| <= MAX_INT64 + 1
    requires |es| == |es'|
    requires forall x | 0 <= x < |es| :: es[x].term == es'[x].term && es[x].command == es'[x].command
    ensures PutAll(b, es, next, marshals) == PutAll(b, es', next, marshals)
    decreases |es|
  {
    if es != [] {
      assert es[0].(index := next) == es'[0].(index := next);
      PutAllIgnoresIndex(b[next := Stored(es[0].(index := next))], es[1..], es'[1..], next + 1, marshals);
    }
  }

  lemma AppendIgnoresIndex(b: Bucket, es: seq<Entry>, es': seq<Entry>, marshals: Entry -> bool)
    requires Last(b).index + |es| <= MAX_INT64
    requires |es| == |es'|
    requires forall x | 0 <= x < |es| :: es[x].term == es'[x].term && es[x].command == es'[x].command
    ensures Append(b, es, marshals) == Append(b, es', marshals)
  {
    PutAllIgnoresIndex(b, es, es', Last(b).index + 1, marshals);
  }

  /** A failed Append is all-or-nothing: the transaction rolls back and not
      even the entries before the one that failed to marshal are kept. */
  lemma AppendAtomic(b: Bucket, es: seq<Entry>, marshals: Entry -> bool, x: nat)
    requires Last(b).index + |es| <= MAX_INT64
    requires x < |es| && !marshals(es[x].(index := Last(b).index + 1 + x))
    ensures Append(b, es, marshals) == Failure(MarshalError)
    ensures Commit(b, Append(b, es, marshals)) == b
  {
  }

  /** PopAfter(i) for i above the last index deletes nothing; for any i it
      keeps every key below i. */
  lemma PopAfterBeyondLast(b: Bucket, i: Int64)
    ensures i > Last(b).index ==> Truncated(b, i) == b
    ensures forall k | k in b && k < i :: k in Truncated(b, i) && Truncated(b, i)[k] == b[k]
  {
    if i > Last(b).index {
      assert Truncated(b, i).Keys == b.Keys;
    }
  }
}
