/** The invariant Append and PopAfter keep: the log holds exactly the
    indices 1..n with no gaps, and the entry stored at each index carries
    that index. On such a log the byte-ordered cursor agrees with integer
    order, so Last, RangeGet and PopAfter mean what a Raft log needs. */
module Contiguity {
  import opened Wrappers
  import opened Codec
  import opened Cursor
  import opened RaftLog

  /** The bucket holds exactly the indices 1..n, each entry tagged with its key. */
  predicate Holds(b: Bucket, n: Int64)
  {
    && 0 <= n
    && (forall k | k in b :: 1 <= k <= n)
    && (forall k: Int64 | 1 <= k <= n :: k in b)
    && (forall k | k in b :: b[k].Stored? && b[k].entry.index == k)
  }

  /** How many entries survive PopAfter(i) on a log holding 1..n. */
  function Kept(n: nat, i: int): (m: nat)
    ensures m <= n
  {
    if i <= 0 then 0 else if i > n then n else i - 1
  }

  /** Last on a gap-free log is (n, term of entry n), or (0, 0) when empty. */
  lemma LastOfHolds(b: Bucket, n: Int64)
    requires Holds(b, n)
    ensures Last(b).index == n
    ensures n == 0 <==> b == map[]
    ensures n > 0 ==> Last(b).term == b[n].entry.term
  {
    if b != map[] {
      var k :| k in b;
      assert 1 <= k <= n;
      LastKeyNonNegative(b.Keys);
    }
    if n > 0 {
      assert n in b;
    }
  }

  /** Append on a gap-free log stores es[x] at n + 1 + x and the log then
      holds 1..n + |es|; a failed Append leaves 1..n. */
  lemma AppendHolds(b: Bucket, n: Int64, es: seq<Entry>, marshals: Entry -> bool)
    requires Holds(b, n)
    requires n + |es| <= MAX_INT64
    ensures Last(b).index + |es| <= MAX_INT64
    ensures Append(b, es, marshals).Success? ==> Holds(Append(b, es, marshals).value, n + |es|)
    ensures Append(b, es, marshals).Failure? ==> Holds(Commit(b, Append(b, es, marshals)), n)
  {
    LastOfHolds(b, n);
    var r := Append(b, es, marshals);
    if r.Success? {
      var b' := r.value;
      forall k | k in b' ensures b'[k].Stored? && b'[k].entry.index == k {
        if n + 1 <= k <= n + |es| {
          assert b'[n + 1 + (k - n - 1)] == Stored(es[k - n - 1].(index := k));
        }
      }
    }
  }

  /** PopAfter(i) on a log holding 1..n leaves 1..Kept(n, i): it removes i
      itself and everything above it, empties the log for i <= 0, and does
      nothing for i > n. */
  lemma PopAfterHolds(b: Bucket, n: Int64, i: Int64)
    requires Holds(b, n)
    ensures Holds(Truncated(b, i), Kept(n, i))
    ensures i <= 0 ==> Truncated(b, i) == map[]
    ensures i > n ==> Truncated(b, i) == b
    ensures forall k | 1 <= k < i && k <= n :: k in Truncated(b, i) && Truncated(b, i)[k] == b[k]
  {
    LastOfHolds(b, n);
    var b' := Truncated(b, i);
    if b' != map[] {
      var k :| k in b';
      assert 1 <= k < i;
    }
    if i > n {
      assert b'.Keys == b.Keys;
    }
  }

  /** The key sequence i..n in ascending order. */
  function Span(lo: int, hi: Int64): (s: seq<Int64>)
    requires MIN_INT64 <= lo
    ensures |s| == if lo <= hi then hi - lo + 1 else 0
    ensures forall x | 0 <= x < |s| :: s[x] == lo + x
    decreases hi - lo
  {
    if lo > hi then [] else [lo] + Span(lo + 1, hi)
  }

  lemma SpanOrdered(lo: int, hi: Int64)
    requires 0 <= lo
    ensures Ordered(Span(lo, hi))
  {
  }

  /** The cursor walk of RangeGet from a non-negative seek key t over a log
      holding 1..n visits t..n (or 1..n when t is 0). */
  lemma SeekOnHolds(b: Bucket, n: Int64, t: Int64)
    requires Holds(b, n) && 0 <= t
    ensures SeekFrom(b.Keys, t) == Span(if t < 1 then 1 else t, n)
  {
    var lo: Int64 := if t < 1 then 1 else t;
    var s, span := SeekFrom(b.Keys, t), Span(lo, n);
    forall k ensures k in s <==> k in span {
      SeekMember(b, n, t, k);
    }
    SpanOrdered(lo, n);
    OrderedUnique(s, span);
  }

  lemma SeekMember(b: Bucket, n: Int64, t: Int64, k: Int64)
    requires Holds(b, n) && 0 <= t
    ensures k in SeekFrom(b.Keys, t) <==> k in Span(if t < 1 then 1 else t, n)
  {
    var lo: Int64 := if t < 1 then 1 else t;
    var span := Span(lo, n);
    SeekFromNonNegative(b.Keys, t);
    if k in span {
      var x :| 0 <= x < |span| && span[x] == k;
      assert k in b;
    }
    if k in b && k >= t {
      assert span[k - lo] == k;
    }
  }

  /** r lists, without error, the entries lo..n of b in order. */
  predicate ListsFrom(r: Fetched, b: Bucket, lo: int, n: Int64)
  {
    && r.err == None
    && |r.entries| == (if lo <= n then n - lo + 1 else 0)
    && forall x | 0 <= x < |r.entries| ::
         && r.entries[x].index == lo + x
         && lo + x in b
         && b[lo + x] == Stored(r.entries[x])
  }

  /** Collecting the entries at lo..n of a log holding 1..n never fails
      and yields entry lo + x at position x. */
  lemma CollectOnHolds(b: Bucket, n: Int64, lo: int)
    requires Holds(b, n) && 1 <= lo
    ensures forall x | 0 <= x < |Span(lo, n)| :: Span(lo, n)[x] in b
    ensures ListsFrom(Collect(b, Span(lo, n)), b, lo, n)
  {
    var keys := Span(lo, n);
    var r := Collect(b, keys);
    forall x | 0 <= x < |r.entries|
      ensures r.entries[x].index == lo + x && b[lo + x] == Stored(r.entries[x])
    {
      assert keys[x] == lo + x;
    }
  }

  /** RangeGet(i, j) on a log holding 1..n returns, without error, the entries
      i+1..n in order (1..n for i = -1), whatever j is, for every i from -1 up
      to (but not including) the greatest int. */
  lemma RangeGetOnHolds(b: Bucket, n: Int64, i: Int64, j: Int64)
    requires Holds(b, n)
    requires -1 <= i < MAX_INT64
    ensures ListsFrom(RangeGet(b, i, j), b, (if i < 0 then 0 else i) + 1, n)
  {
    var lo: int := (if i < 0 then 0 else i) + 1;
    assert Wrap(i + 1) == i + 1;
    SeekOnHolds(b, n, i + 1);
    CollectOnHolds(b, n, lo);
  }

  /** The bound j really is ignored: on a log holding 1..n, RangeGet(0, j)
      returns entry n even when j < n. */
  lemma RangeGetIgnoresUpperBound(b: Bucket, n: Int64, j: Int64)
    requires Holds(b, n) && 0 <= j < n
    ensures |RangeGet(b, 0, j).entries| == n
    ensures RangeGet(b, 0, j).entries[n - 1].index == n > j
  {
    RangeGetOnHolds(b, n, 0, j);
  }

  /** A seek key below -0 never reaches a positive index: RangeGet(i, j) with
      i < -1, or with i the greatest int (where i + 1 wraps), is empty. */
  lemma RangeGetBelowZero(b: Bucket, n: Int64, i: Int64, j: Int64)
    requires Holds(b, n)
    requires i < -1 || i == MAX_INT64
    ensures RangeGet(b, i, j) == Fetched([], None)
  {
    assert Wrap(i + 1) < 0;
    SeekFromNegative(b.Keys, Wrap(i + 1));
  }

  /** One call a consensus layer may make on the log. */
  datatype Op = AppendOp(entries: seq<Entry>) | PopAfterOp(i: Int64)

  /** How many entries the log holds after ops, by arithmetic alone: an
      Append adds its entries when every one of them, re-indexed after the
      current last index, marshals, and adds nothing otherwise; PopAfter(i)
      keeps Kept(n, i). */
  function Length(ops: seq<Op>, marshals: Entry -> bool): (n: Int64)
    requires Feasible(ops, marshals)
    ensures 0 <= n
    decreases |ops|, 1
  {
    if ops == [] then 0
    else
      var n := Length(ops[..|ops| - 1], marshals);
      match ops[|ops| - 1]
      case AppendOp(es) =>
        if AllMarshal(es, n, marshals) then n + |es| else n
      case PopAfterOp(i) => Kept(n, i)
  }

  /** Every entry of es marshals once re-indexed to follow index n. */
  predicate AllMarshal(es: seq<Entry>, n: Int64, marshals: Entry -> bool)
    requires n + |es| <= MAX_INT64
  {
    forall x | 0 <= x < |es| :: marshals(es[x].(index := n + 1 + x))
  }

  /** A run the source completes without int overflow: every Append fits
      its new indices below the greatest int, given the log it finds, which is
      the precondition of Append itself. */
  predicate Feasible(ops: seq<Op>, marshals: Entry -> bool)
    decreases |ops|, 0
  {
    ops != [] ==>
      && Feasible(ops[..|ops| - 1], marshals)
      && (ops[|ops| - 1].AppendOp? ==> Length(ops[..|ops| - 1], marshals) + |ops[|ops| - 1].entries| <= MAX_INT64)
  }

  /** The bucket after applying ops, in order, to an empty log: each Append
      commits or rolls back, each PopAfter commits. Whatever the sequence and
      whichever appends fail, the log stays gap-free from index 1. */
  function Replay(ops: seq<Op>, marshals: Entry -> bool): (b: Bucket)
    requires Feasible(ops, marshals)
    ensures Holds(b, Last(b).index)
    ensures Last(b).index == Length(ops, marshals)
    decreases |ops|
  {
    if ops == [] then map[]
    else
      var init := ops[..|ops| - 1];
      assert Feasible(init, marshals);
      var prev := Replay(init, marshals);
      assert Last(prev).index == Length(init, marshals);
      match ops[|ops| - 1]
      case AppendOp(es) =>
        ReplayAppend(prev, es, marshals);
        Commit(prev, Append(prev, es, marshals))
      case PopAfterOp(i) =>
        ReplayPopAfter(prev, i);
        Truncated(prev, i)
  }

  /** One Append step of Replay: the log stays gap-free and its last index
      grows by |es| exactly when every re-indexed entry marshals. */
  lemma ReplayAppend(b: Bucket, es: seq<Entry>, marshals: Entry -> bool)
    requires Holds(b, Last(b).index)
    requires Last(b).index + |es| <= MAX_INT64
    ensures var n := Last(b).index;
      var b' := Commit(b, Append(b, es, marshals));
      && Holds(b', Last(b').index)
      && Last(b').index == if AllMarshal(es, n, marshals) then n + |es| else n
  {
    var n := Last(b).index;
    var r := Append(b, es, marshals);
    AppendHolds(b, n, es, marshals);
    LastOfHolds(Commit(b, r), if r.Success? then n + |es| else n);
  }

  /** One PopAfter step of Replay: the log stays gap-free, holding Kept(n, i). */
  lemma ReplayPopAfter(b: Bucket, i: Int64)
    requires Holds(b, Last(b).index)
    ensures Holds(Truncated(b, i), Last(Truncated(b, i)).index)
    ensures Last(Truncated(b, i)).index == Kept(Last(b).index, i)
  {
    var n := Last(b).index;
    PopAfterHolds(b, n, i);
    LastOfHolds(Truncated(b, i), Kept(n, i));
  }

  /** A log filled to the greatest int, popped after 1, takes appends again:
      the bound is on each call, not on the run. */
  lemma RefillAfterFullLog(es: seq<Entry>, e: Entry, marshals: Entry -> bool)
    requires |es| == MAX_INT64
    requires forall f :: marshals(f)
    ensures Feasible([AppendOp(es), PopAfterOp(1), AppendOp([e])], marshals)
    ensures Length([AppendOp(es), PopAfterOp(1), AppendOp([e])], marshals) == 1
  {
    var one := [AppendOp(es)];
    var two := one + [PopAfterOp(1)];
    var ops := two + [AppendOp([e])];
    assert one[..|one| - 1] == [] && two[..|two| - 1] == one && ops[..|ops| - 1] == two;
    assert Feasible([], marshals) && Length([], marshals) == 0;
    assert AllMarshal(es, 0, marshals);
    assert Feasible(one, marshals);
    assert Length(one, marshals) == MAX_INT64;
    assert Feasible(two, marshals) && Length(two, marshals) == 0;
    assert Feasible(ops, marshals);
  }

  /** Appending to an empty log with every entry marshalling fills 1..|es|,
      entry x at index x + 1. */
  lemma AppendToEmpty(es: seq<Entry>, marshals: Entry -> bool)
    requires |es| <= MAX_INT64
    requires forall x | 0 <= x < |es| :: marshals(es[x].(index := x + 1))
    ensures Last(map[]) == Tail(0, 0)
    ensures Append(map[], es, marshals).Success?
    ensures Holds(Append(map[], es, marshals).value, |es|)
    ensures forall x | 0 <= x < |es| :: Append(map[], es, marshals).value[x + 1].entry.term == es[x].term
  {
    assert Holds(map[], 0);
    AppendHolds(map[], 0, es, marshals);
  }

  /** The reads and the truncation of the session below, on a log holding
      1..3 with terms 1, 1, 2. */
  lemma SessionOnThree(b: Bucket)
    requires Holds(b, 3) && b[2].entry.term == 1 && b[3].entry.term == 2
    ensures Last(b) == Tail(3, 2)
    ensures Get(b, 2) == Success(1)
    ensures ListsFrom(RangeGet(b, 1, 3), b, 2, 3)
    ensures Truncated(b, 1) == map[]
  {
    LastOfHolds(b, 3);
    RangeGetOnHolds(b, 3, 1, 3);
    PopAfterHolds(b, 3, 1);
  }

  /** A short session: three entries with terms 1, 1, 2 appended to an empty
      log land at 1..3; Last is (3, 2); index 2 has term 1; RangeGet(1, 3)
      returns indices 2 and 3; PopAfter(1) removes index 1 too and leaves the
      log empty, so the next Append lands at index 1 again (AppendToEmpty). */
  lemma Session(es: seq<Entry>, marshals: Entry -> bool)
    requires |es| == 3 && es[0].term == 1 && es[1].term == 1 && es[2].term == 2
    requires forall e :: marshals(e)
    ensures Last(map[]) == Tail(0, 0)
    ensures var b := Commit(map[], Append(map[], es, marshals));
      && Last(b) == Tail(3, 2)
      && Get(b, 2) == Success(1)
      && ListsFrom(RangeGet(b, 1, 3), b, 2, 3)
      && Truncated(b, 1) == map[]
  {
    AppendToEmpty(es, marshals);
    SessionOnThree(Append(map[], es, marshals).value);
  }
}
