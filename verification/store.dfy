/** The key/value store of store.go: one bolt bucket of arbitrary byte keys
    and values, with integers stored through the i2b/b2i codec. */
module Store {
  import opened Wrappers
  import opened Codec

  type Bytes = seq<Byte>

  /** The store bucket. Only presence and contents matter here; the order of
      keys is never observed by the store. */
  type Bucket = map<Bytes, Bytes>

  /** bolt's limits on what `Bucket.Put` accepts. */
  const MAX_KEY_SIZE: nat := 32768
  const MAX_VALUE_SIZE: nat := 0x7FFF_FFFE

  /** KeyRequired, KeyTooLarge and ValueTooLarge are bolt's refusals of a
      Put, which Set and SetInt return. ShortValue stands for the panic of
      b2i on a stored value of fewer than eight bytes. */
  datatype Error = KeyRequired | KeyTooLarge | ValueTooLarge | ShortValue

  /** Set: one write transaction that puts val at key. On a refusal nothing
      changes; otherwise key maps to val and no other key is touched. */
  function Set(s: Bucket, key: Bytes, val: Bytes): (r: Result<Bucket, Error>)
    ensures r.Success? <==> 0 < |key| <= MAX_KEY_SIZE && |val| <= MAX_VALUE_SIZE
    ensures r == Failure(KeyRequired) <==> |key| == 0
    ensures r.Success? ==> key in r.value && r.value[key] == val
    ensures r.Success? ==> forall k | k != key :: (k in r.value <==> k in s)
    ensures r.Success? ==> forall k | k != key && k in s :: r.value[k] == s[k]
  {
    if |key| == 0 then Failure(KeyRequired)
    else if |key| > MAX_KEY_SIZE then Failure(KeyTooLarge)
    else if |val| > MAX_VALUE_SIZE then Failure(ValueTooLarge)
    else Success(s[key := val])
  }

  /** Get: a copy of the value at key, or an empty slice if there is none.
      Never an error. */
  function Get(s: Bucket, key: Bytes): (r: Bytes)
    ensures key in s ==> r == s[key]
    ensures key !in s ==> r == []
  {
    if key in s then s[key] else []
  }

  /** SetInt: Set of the eight-byte encoding i2b(i). */
  function SetInt(s: Bucket, key: Bytes, i: Int64): (r: Result<Bucket, Error>)
    ensures r.Success? <==> 0 < |key| <= MAX_KEY_SIZE
    ensures r == Failure(KeyRequired) <==> |key| == 0
    ensures r.Success? ==> key in r.value && r.value[key] == I2B(i)
    ensures r.Success? ==> forall k | k != key :: (k in r.value <==> k in s)
    ensures r.Success? ==> forall k | k != key && k in s :: r.value[k] == s[k]
  {
    Set(s, key, I2B(i))
  }

  /** GetInt: b2i of the value at key, or 0 if there is none. A stored
      value shorter than eight bytes makes b2i panic. */
  function GetInt(s: Bucket, key: Bytes): (r: Result<Int64, Error>)
    ensures key !in s ==> r == Success(0)
    ensures r.Failure? <==> key in s && |s[key]| < 8
    ensures key in s && |s[key]| >= 8 ==> r == Success(B2I(s[key][..8]))
  {
    if key !in s then Success(0)
    else if |s[key]| < 8 then Failure(ShortValue)
    else
      B2IReadsEightBytes(s[key], s[key][..8]);
      Success(B2I(s[key]))
  }

  /** Set then Get returns what was set. */
  lemma SetThenGet(s: Bucket, key: Bytes, val: Bytes)
    requires Set(s, key, val).Success?
    ensures Get(Set(s, key, val).value, key) == val
  {
  }

  /** Set on one key leaves every other key's value, as Get and GetInt read
      it, unchanged. */
  lemma SetKeepsOtherKeys(s: Bucket, key: Bytes, val: Bytes, other: Bytes)
    requires Set(s, key, val).Success? && other != key
    ensures Get(Set(s, key, val).value, other) == Get(s, other)
    ensures GetInt(Set(s, key, val).value, other) == GetInt(s, other)
  {
    var s' := Set(s, key, val).value;
    if other in s {
      assert s'[other] == s[other];
    }
  }

  /** SetInt then GetInt returns the integer set, negative ones included:
      the codec round trip. */
  lemma SetIntThenGetInt(s: Bucket, key: Bytes, i: Int64)
    requires SetInt(s, key, i).Success?
    ensures GetInt(SetInt(s, key, i).value, key) == Success(i)
    ensures Get(SetInt(s, key, i).value, key) == I2B(i)
  {
    RoundTrip(i);
    assert I2B(i)[..8] == I2B(i);
  }

  /** GetInt after Set(key, val) decodes the first eight bytes of val, or
      panics when val is shorter. */
  lemma SetThenGetInt(s: Bucket, key: Bytes, val: Bytes)
    requires Set(s, key, val).Success?
    ensures |val| >= 8 ==> GetInt(Set(s, key, val).value, key) == Success(B2I(val[..8]))
    ensures |val| < 8 ==> GetInt(Set(s, key, val).value, key) == Failure(ShortValue)
  {
  }

  /** A key that was never set reads as empty bytes and as 0. */
  lemma NeverSet(s: Bucket, key: Bytes)
    requires key !in s
    ensures Get(s, key) == [] && GetInt(s, key) == Success(0)
  {
  }
}
