/** The fixed-size bucketed store of users (`HashTable`): bucket index
    `hash(key) % size`, collisions resolved by appending to the bucket. */
module Hashing {
  import opened Entities

  /** The modulus CPython reduces integers by when hashing them on a 64-bit
      build: the Mersenne prime 2^61 - 1. */
  const HashModulus: int := 0x1FFF_FFFF_FFFF_FFFF

  /** CPython's `hash` of an int: the absolute value reduced modulo
      2^61 - 1, carrying the sign of the argument, with -1 (reserved for
      errors) replaced by -2. */
  function PyHash(n: int): (h: int)
    ensures h != -1
    ensures -HashModulus < h < HashModulus
    ensures 0 <= n < HashModulus ==> h == n
    ensures n < 0 ==> h <= 0
  {
    var h := if n >= 0 then n % HashModulus else -((-n) % HashModulus);
    if h == -1 then -2 else h
  }

  /** `_hash`: Python's `%` with a positive divisor never yields a
      negative remainder, so every key lands on an existing bucket. */
  function BucketOf(key: int, size: nat): (b: int)
    requires size > 0
    ensures 0 <= b < size
  {
    PyHash(key) % size
  }

  /** The bucket without the users carrying id `key`. */
  function WithoutId(bucket: seq<User>, key: int): (r: seq<User>)
    ensures forall v :: v in r ==> v in bucket && v.userId != key
    ensures forall v :: v in bucket && v.userId != key ==> multiset(r)[v] == multiset(bucket)[v]
  {
    if bucket == [] then []
    else
      assert bucket == [bucket[0]] + bucket[1..];
      if bucket[0].userId == key then WithoutId(bucket[1..], key)
      else [bucket[0]] + WithoutId(bucket[1..], key)
  }

  class HashTable {
    const size: nat
    var buckets: seq<seq<User>>

    ghost predicate Valid()
      reads this
    {
      size > 0 && |buckets| == size
    }

    /** Ten empty buckets. */
    constructor ()
      ensures Valid() && size == 10
      ensures forall b :: 0 <= b < size ==> buckets[b] == []
    {
      size := 10;
      buckets := seq(10, _ => []);
    }

    /** `_hash` on this table's size. */
    function Hash(key: int): (b: int)
      requires size > 0
      ensures 0 <= b < size
      ensures 0 <= key < HashModulus ==> b == key % size
    {
      BucketOf(key, size)
    }

    /** The bucket a key hashes to; the source returns the live bucket,
        the model returns its value. */
    function Search(key: int): (bucket: seq<User>)
      requires Valid()
      reads this
      ensures 0 <= key < HashModulus ==> bucket == buckets[key % size]
    {
      buckets[Hash(key)]
    }

    /** Appends the value to the key's bucket, with no check for duplicates. */
    method Insert(key: int, value: User)
      requires Valid()
      modifies this
      ensures Valid()
      ensures buckets == old(buckets)[Hash(key) := old(buckets)[Hash(key)] + [value]]
      ensures Search(key) == old(Search(key)) + [value]
    {
      var h := Hash(key);
      buckets := buckets[h := buckets[h] + [value]];
    }

    /** `remove` as the source writes it: it asks whether the int `key` is
        in a bucket of users. An int never compares equal to a user object,
        so the test fails and no bucket changes. */
    method RemoveAsWritten(key: int)
      requires Valid()
      ensures buckets == old(buckets)
    {
      var h := Hash(key);
    }

    /** Removal that compares `key` with the ids of the stored users. */
    method Remove(key: int)
      requires Valid()
      modifies this
      ensures Valid()
      ensures buckets == old(buckets)[Hash(key) := WithoutId(old(buckets)[Hash(key)], key)]
    {
      var h := Hash(key);
      buckets := buckets[h := WithoutId(buckets[h], key)];
    }
  }
}
