/** The order in which a bolt cursor visits the keys of a bucket whose keys
    were all written as i2b(k). bolt sorts keys by bytes.Compare; on 8-byte
    big-endian keys that is the order of uint64(k) (Codec.CompareUnsigned),
    which is what the functions below use. The lemmas at the end restate
    their results in byte order and in integer order. */
module Cursor {
  import opened Codec

  /** The key a cursor's `Last()` lands on: the greatest. */
  function LastKey(keys: set<Int64>): (k: Int64)
    requires keys != {}
    ensures k in keys
    ensures forall k' | k' in keys :: ToUint64(k') <= ToUint64(k)
  {
    GreatestExists(keys);
    var k :| IsGreatest(k, keys); k
  }

  /** The key a cursor's `Seek` lands on when every key qualifies: the least. */
  function FirstKey(keys: set<Int64>): (k: Int64)
    requires keys != {}
    ensures k in keys
    ensures forall k' | k' in keys :: ToUint64(k) <= ToUint64(k')
  {
    LeastExists(keys);
    var k :| IsLeast(k, keys); k
  }

  /** Strictly increasing in key order. */
  predicate Ordered(s: seq<Int64>)
  {
    forall x, y | 0 <= x < y < |s| :: ToUint64(s[x]) < ToUint64(s[y])
  }

  /** The keys in the order a cursor visits them with `Next()`. */
  function Ascending(keys: set<Int64>): (s: seq<Int64>)
    ensures |s| == |keys|
    ensures forall k :: k in s <==> k in keys
    ensures Ordered(s)
    decreases |keys|
  {
    if keys == {} then []
    else
      var m := FirstKey(keys);
      var rest := Ascending(keys - {m});
      ConsOrdered(keys, m, rest);
      [m] + rest
  }

  /** The keys `c.Seek(i2b(t))` followed by `c.Next()` visits: those not
      below t, in order. */
  function SeekFrom(keys: set<Int64>, t: Int64): (s: seq<Int64>)
    ensures forall k :: k in s <==> k in keys && ToUint64(k) >= ToUint64(t)
    ensures Ordered(s)
  {
    Ascending(set k | k in keys && ToUint64(k) >= ToUint64(t))
  }

  predicate IsGreatest(m: Int64, keys: set<Int64>)
  {
    m in keys && forall k' | k' in keys :: ToUint64(k') <= ToUint64(m)
  }

  predicate IsLeast(m: Int64, keys: set<Int64>)
  {
    m in keys && forall k' | k' in keys :: ToUint64(m) <= ToUint64(k')
  }

  lemma {:induction false} GreatestExists(keys: set<Int64>)
    requires keys != {}
    ensures exists k :: IsGreatest(k, keys)
    decreases |keys|
  {
    var y :| y in keys;
    if keys == {y} {
      assert IsGreatest(y, keys);
    } else {
      GreatestExists(keys - {y});
      var k :| IsGreatest(k, keys - {y});
      if ToUint64(y) <= ToUint64(k) {
        forall k' | k' in keys ensures ToUint64(k') <= ToUint64(k) {
          if k' != y {
            assert k' in keys - {y};
          }
        }
        assert IsGreatest(k, keys);
      } else {
        forall k' | k' in keys ensures ToUint64(k') <= ToUint64(y) {
          if k' != y {
            assert k' in keys - {y};
          }
        }
        assert IsGreatest(y, keys);
      }
    }
  }

  lemma {:induction false} LeastExists(keys: set<Int64>)
    requires keys != {}
    ensures exists k :: IsLeast(k, keys)
    decreases |keys|
  {
    var y :| y in keys;
    if keys == {y} {
      assert IsLeast(y, keys);
    } else {
      LeastExists(keys - {y});
      var k :| IsLeast(k, keys - {y});
      if ToUint64(k) <= ToUint64(y) {
        forall k' | k' in keys ensures ToUint64(k) <= ToUint64(k') {
          if k' != y {
            assert k' in keys - {y};
          }
        }
        assert IsLeast(k, keys);
      } else {
        forall k' | k' in keys ensures ToUint64(y) <= ToUint64(k') {
          if k' != y {
            assert k' in keys - {y};
          }
        }
        assert IsLeast(y, keys);
      }
    }
  }

  /** Putting the least key in front of the ascending rest keeps the order. */
  lemma ConsOrdered(keys: set<Int64>, m: Int64, rest: seq<Int64>)
    requires m in keys && forall k' | k' in keys :: ToUint64(m) <= ToUint64(k')
    requires |rest| == |keys - {m}|
    requires forall k :: k in rest <==> k in keys - {m}
    requires Ordered(rest)
    ensures |[m] + rest| == |keys|
    ensures forall k :: k in [m] + rest <==> k in keys
    ensures Ordered([m] + rest)
  {
    var s := [m] + rest;
    forall x, y | 0 <= x < y < |s| ensures ToUint64(s[x]) < ToUint64(s[y]) {
      assert s[y] == rest[y - 1] && rest[y - 1] in rest;
      if x > 0 {
        assert s[x] == rest[x - 1];
      }
    }
  }

  /** Two ordered sequences with the same members are equal: the visiting
      order is determined by the key set alone. */
  lemma {:induction false} OrderedUnique(s: seq<Int64>, t: seq<Int64>)
    requires Ordered(s) && Ordered(t)
    requires forall k :: k in s <==> k in t
    ensures s == t
    decreases |s|
  {
    if |s| > 0 {
      assert s[0] in s;
    }
    if |t| > 0 {
      assert t[0] in t;
    }
    if |s| > 0 && |t| > 0 {
      OrderedSameHead(s, t);
      forall k ensures k in s[1..] <==> k in t[1..] {
        if k in s[1..] {
          InTail(s, t, k);
        }
        if k in t[1..] {
          InTail(t, s, k);
        }
      }
      OrderedUnique(s[1..], t[1..]);
      assert s == [s[0]] + s[1..] && t == [t[0]] + t[1..];
    }
  }

  lemma InTail(s: seq<Int64>, t: seq<Int64>, k: Int64)
    requires |s| > 0 && |t| > 0 && s[0] == t[0]
    requires Ordered(s)
    requires forall k :: k in s <==> k in t
    requires k in s[1..]
    ensures k in t[1..]
  {
    var x :| 1 <= x < |s| && s[x] == k;
    assert k in t;
    var z :| 0 <= z < |t| && t[z] == k;
    assert t[1..][z - 1] == k;
  }

  lemma OrderedSameHead(s: seq<Int64>, t: seq<Int64>)
    requires |s| > 0 && |t| > 0
    requires Ordered(s) && Ordered(t)
    requires forall k :: k in s <==> k in t
    ensures s[0] == t[0]
  {
    assert s[0] in s && t[0] in t;
    var x :| 0 <= x < |t| && t[x] == s[0];
    var y :| 0 <= y < |s| && s[y] == t[0];
  }

  // ---------------------------------------------------------------------
  // The same orders, seen as bolt sees them and as the log means them

  /** The last key is the greatest in byte order of the encodings. */
  lemma LastKeyIsByteGreatest(keys: set<Int64>)
    requires keys != {}
    ensures forall k | k in keys :: Compare(k, LastKey(keys)) <= 0
  {
    forall k | k in keys ensures Compare(k, LastKey(keys)) <= 0 {
      CompareUnsigned(k, LastKey(keys));
    }
  }

  /** A seek visits exactly the keys whose encoding is not below the seek
      key's, each encoding strictly after the one before. */
  lemma SeekFromIsByteOrder(keys: set<Int64>, t: Int64)
    ensures forall k :: k in SeekFrom(keys, t) <==> k in keys && Compare(k, t) >= 0
    ensures forall x, y | 0 <= x < y < |SeekFrom(keys, t)| ::
              Compare(SeekFrom(keys, t)[x], SeekFrom(keys, t)[y]) < 0
  {
    var s := SeekFrom(keys, t);
    forall k | k in keys ensures Compare(k, t) >= 0 <==> ToUint64(k) >= ToUint64(t) {
      CompareUnsigned(k, t);
    }
    forall x, y | 0 <= x < y < |s| ensures Compare(s[x], s[y]) < 0 {
      CompareUnsigned(s[x], s[y]);
    }
  }

  /** On non-negative keys the last key is the greatest integer. */
  lemma LastKeyNonNegative(keys: set<Int64>)
    requires keys != {}
    requires forall k | k in keys :: k >= 0
    ensures forall k | k in keys :: k <= LastKey(keys)
  {
  }

  /** On non-negative keys a seek from a non-negative t visits exactly the
      keys >= t, in increasing integer order. */
  lemma SeekFromNonNegative(keys: set<Int64>, t: Int64)
    requires 0 <= t
    requires forall k | k in keys :: k >= 0
    ensures forall k :: k in SeekFrom(keys, t) <==> k in keys && k >= t
    ensures forall x, y | 0 <= x < y < |SeekFrom(keys, t)| :: SeekFrom(keys, t)[x] < SeekFrom(keys, t)[y]
  {
    var s := SeekFrom(keys, t);
    forall x, y | 0 <= x < y < |s| ensures s[x] < s[y] {
      assert s[x] in s && s[y] in s;
    }
  }

  /** A seek from a negative t never reaches a non-negative key: every
      negative encoding has its top bit set and sorts after them all. */
  lemma SeekFromNegative(keys: set<Int64>, t: Int64)
    requires t < 0
    requires forall k | k in keys :: k >= 0
    ensures SeekFrom(keys, t) == []
  {
    assert (set k | k in keys && ToUint64(k) >= ToUint64(t)) == {};
  }
}
