/** The hash table with separate chaining of question1Hashing.py: a fixed number of
    buckets, each an append-only list of keys, and a counter of the inserts that
    landed in a bucket that already held a key. */
module Chaining {
  import opened Folding

  type Bucket = seq<string>

  function EmptyBuckets(size: nat): (b: seq<Bucket>)
    ensures |b| == size && forall i :: 0 <= i < size ==> b[i] == []
  {
    seq(size, _ => [])
  }

  predicate AllDigits(keys: seq<string>) {
    forall j :: 0 <= j < |keys| ==> IsDigits(keys[j])
  }

  /** The keys can be inserted one after the other into a table of this size: every
      key is a digit string, and a table without buckets takes no key at all (the
      hash would divide by zero). */
  predicate Insertable(size: nat, keys: seq<string>) {
    AllDigits(keys) && (size >= 1 || keys == [])
  }

  /** The buckets after inserting `keys`, in order, into a fresh (or freshly reset)
      table: each key is appended to the bucket its folding hash names. */
  function Fill(size: nat, keys: seq<string>): (b: seq<Bucket>)
    requires Insertable(size, keys)
    ensures |b| == size
  {
    if keys == [] then EmptyBuckets(size)
    else
      var prev := Fill(size, keys[..|keys| - 1]);
      var key := keys[|keys| - 1];
      var i := Fold(key, size);
      prev[i := prev[i] + [key]]
  }

  /** The collision counter after inserting `keys` into a fresh table: one for every
      insert whose target bucket was already non-empty at that moment. The first
      insert always finds its bucket empty, so there are fewer collisions than keys. */
  function Collisions(size: nat, keys: seq<string>): (c: nat)
    requires Insertable(size, keys)
    ensures keys != [] ==> c < |keys|
  {
    if keys == [] then 0
    else
      var prev := keys[..|keys| - 1];
      var key := keys[|keys| - 1];
      Collisions(size, prev) + (if Fill(size, prev)[Fold(key, size)] != [] then 1 else 0)
  }

  /** The keys among `keys` whose folding hash is `i`, in the order they come. */
  function KeysAt(size: nat, keys: seq<string>, i: nat): (r: seq<string>)
    requires Insertable(size, keys)
    ensures forall k :: k in r ==> k in keys && IsDigits(k) && Fold(k, size) == i
  {
    if keys == [] then []
    else
      var key := keys[|keys| - 1];
      KeysAt(size, keys[..|keys| - 1], i) + (if Fold(key, size) == i then [key] else [])
  }

  /** The number of keys stored in all buckets together. */
  function TotalKeys(b: seq<Bucket>): nat {
    if b == [] then 0 else |b[0]| + TotalKeys(b[1..])
  }

  /** The number of buckets holding at least one key. */
  function NonEmptyCount(b: seq<Bucket>): (n: nat)
    ensures n <= |b|
  {
    if b == [] then 0 else (if b[0] != [] then 1 else 0) + NonEmptyCount(b[1..])
  }

  /** The two invariants the table keeps: every key sits in the bucket its hash
      names, and the counter is the number of keys minus the number of occupied
      buckets. */
  ghost predicate Consistent(size: nat, table: seq<Bucket>, collisions: nat) {
    && |table| == size
    && Homed(table)
    && collisions + NonEmptyCount(table) == TotalKeys(table)
  }

  /** Every key sits in the bucket its folding hash names. */
  ghost predicate Homed(table: seq<Bucket>) {
    forall i, k :: 0 <= i < |table| && k in table[i] ==> IsDigits(k) && Fold(k, |table|) == i
  }

  /** Replacing one bucket changes the key count by the difference in its length. */
  lemma {:induction false} TotalKeysUpdate(b: seq<Bucket>, i: nat, x: Bucket)
    requires i < |b|
    ensures TotalKeys(b[i := x]) == TotalKeys(b) - |b[i]| + |x|
  {
    if i > 0 {
      TotalKeysUpdate(b[1..], i - 1, x);
      assert b[i := x][1..] == b[1..][i - 1 := x];
    }
  }

  /** Replacing one bucket changes the occupied count only if its emptiness changes. */
  lemma {:induction false} NonEmptyCountUpdate(b: seq<Bucket>, i: nat, x: Bucket)
    requires i < |b|
    ensures NonEmptyCount(b[i := x])
         == NonEmptyCount(b) - (if b[i] != [] then 1 else 0) + (if x != [] then 1 else 0)
  {
    if i > 0 {
      NonEmptyCountUpdate(b[1..], i - 1, x);
      assert b[i := x][1..] == b[1..][i - 1 := x];
    }
  }

  lemma {:induction false} EmptyBucketsCounts(size: nat)
    ensures TotalKeys(EmptyBuckets(size)) == 0 && NonEmptyCount(EmptyBuckets(size)) == 0
  {
    if size > 0 {
      EmptyBucketsCounts(size - 1);
      assert EmptyBuckets(size)[1..] == EmptyBuckets(size - 1);
    }
  }

  /** A table with keys in it has at least one occupied bucket. */
  lemma {:induction false} OccupiedWhenKeys(b: seq<Bucket>)
    requires TotalKeys(b) > 0
    ensures NonEmptyCount(b) >= 1
  {
    if b[0] == [] {
      OccupiedWhenKeys(b[1..]);
    }
  }

  /** Bucket i after the inserts holds exactly the keys hashing to i, in insertion
      order: nothing is lost, deduplicated or reordered. */
  lemma {:induction false} FillBucket(size: nat, keys: seq<string>, i: nat)
    requires Insertable(size, keys) && i < size
    ensures Fill(size, keys)[i] == KeysAt(size, keys, i)
  {
    if keys != [] {
      FillBucket(size, keys[..|keys| - 1], i);
    }
  }

  /** Inserting `keys` stores every one of them, and the counter ends at the number
      of keys minus the number of occupied buckets. */
  lemma {:induction false} FillCounts(size: nat, keys: seq<string>)
    requires Insertable(size, keys)
    ensures TotalKeys(Fill(size, keys)) == |keys|
    ensures Collisions(size, keys) + NonEmptyCount(Fill(size, keys)) == |keys|
  {
    if keys == [] {
      EmptyBucketsCounts(size);
    } else {
      var prev := keys[..|keys| - 1];
      var key := keys[|keys| - 1];
      var b := Fill(size, prev);
      var i := Fold(key, size);
      FillCounts(size, prev);
      TotalKeysUpdate(b, i, b[i] + [key]);
      NonEmptyCountUpdate(b, i, b[i] + [key]);
    }
  }

  /** The state reached by inserting `keys` into a fresh table satisfies both
      invariants of the table. */
  lemma FillConsistent(size: nat, keys: seq<string>)
    requires Insertable(size, keys)
    ensures Consistent(size, Fill(size, keys), Collisions(size, keys))
  {
    FillCounts(size, keys);
    FillHomes(size, keys);
  }

  /** Every key in every bucket hashes to that bucket. */
  lemma FillHomes(size: nat, keys: seq<string>)
    requires Insertable(size, keys)
    ensures Homed(Fill(size, keys))
  {
    forall i, k | 0 <= i < size && k in Fill(size, keys)[i]
      ensures IsDigits(k) && Fold(k, size) == i
    {
      HomeBucket(size, keys, i, k);
    }
  }

  /** Every key stored in bucket i hashes to i. */
  lemma HomeBucket(size: nat, keys: seq<string>, i: nat, k: string)
    requires Insertable(size, keys) && i < size && k in Fill(size, keys)[i]
    ensures IsDigits(k) && Fold(k, size) == i
  {
    FillBucket(size, keys, i);
  }

  /** Whatever the keys, at least |keys| - size and, when there is a key, at most
      |keys| - 1 of the inserts collide. */
  lemma CollisionBounds(size: nat, keys: seq<string>)
    requires Insertable(size, keys)
    ensures Collisions(size, keys) + size >= |keys|
    ensures keys != [] ==> Collisions(size, keys) <= |keys| - 1
  {
    FillCounts(size, keys);
    if keys != [] {
      OccupiedWhenKeys(Fill(size, keys));
    }
  }

  /** A table of one bucket turns every insert after the first into a collision; five
      keys give four collisions. */
  lemma SingleBucket(keys: seq<string>)
    requires AllDigits(keys) && keys != []
    ensures Collisions(1, keys) == |keys| - 1
  {
    FillCounts(1, keys);
    OccupiedWhenKeys(Fill(1, keys));
  }

  function Repeat(key: string, n: nat): (r: seq<string>)
    ensures |r| == n && forall j :: 0 <= j < n ==> r[j] == key
  {
    if n == 0 then [] else Repeat(key, n - 1) + [key]
  }

  /** Inserting the same key n times (n >= 1) counts n - 1 collisions: keys are not
      deduplicated. */
  lemma {:induction false} RepeatedKey(size: nat, key: string, n: nat)
    requires IsDigits(key) && size >= 1 && n >= 1
    ensures Collisions(size, Repeat(key, n)) == n - 1
    ensures Fill(size, Repeat(key, n))[Fold(key, size)] == Repeat(key, n)
  {
    var prev := Repeat(key, n - 1);
    assert Repeat(key, n) == prev + [key];
    InsertLast(size, prev, key);
    if n > 1 {
      RepeatedKey(size, key, n - 1);
    } else {
      assert Fill(size, prev)[Fold(key, size)] == [];
    }
  }

  /** One more insert: the key joins the end of its bucket, and it collides exactly
      when that bucket was already occupied. */
  lemma InsertLast(size: nat, prev: seq<string>, key: string)
    requires Insertable(size, prev) && IsDigits(key) && size >= 1
    ensures Insertable(size, prev + [key])
    ensures Fill(size, prev + [key])[Fold(key, size)] == Fill(size, prev)[Fold(key, size)] + [key]
    ensures Collisions(size, prev + [key])
         == Collisions(size, prev) + (if Fill(size, prev)[Fold(key, size)] != [] then 1 else 0)
  {
    assert (prev + [key])[..|prev|] == prev;
  }

  /** The buckets and the counter are those reached by inserting `keys` into a fresh
      table. */
  ghost predicate Tallied(size: nat, keys: seq<string>, table: seq<Bucket>, collisions: nat)
    requires Insertable(size, keys)
  {
    table == Fill(size, keys) && collisions == Collisions(size, keys)
  }

  /** A hash table of `size` buckets with separate chaining. `inserted` is the
      sequence of keys given to `Insert` since construction or the last `Reset`. */
  class HashTable {
    const size: nat
    var table: seq<Bucket>
    var collisions: nat
    ghost var inserted: seq<string>

    ghost predicate Valid()
      reads this
    {
      && Insertable(size, inserted)
      && Tallied(size, inserted, table, collisions)
    }

    /** `HashTable(size)`: `size` empty buckets and no collision. */
    constructor (size: nat)
      ensures Valid() && Consistent(size, table, collisions)
      ensures this.size == size && table == EmptyBuckets(size) && collisions == 0 && inserted == []
    {
      this.size := size;
      table := EmptyBuckets(size);
      collisions := 0;
      inserted := [];
      new;
      FillConsistent(size, []);
    }

    /** `insert(key)`: the key goes to the end of bucket `folding_hash(key, size)`, and
        the counter goes up by one exactly when that bucket already held a key. */
    method Insert(key: string)
      requires Valid() && IsDigits(key) && size >= 1
      modifies this
      ensures Valid() && Consistent(size, table, collisions)
      ensures inserted == old(inserted) + [key]
      ensures table == old(table)[Fold(key, size) := old(table)[Fold(key, size)] + [key]]
      ensures collisions == old(collisions) + (if old(table)[Fold(key, size)] != [] then 1 else 0)
    {
      var index := FoldingHash(key, size);
      if table[index] != [] {
        collisions := collisions + 1;
      }
      table := table[index := table[index] + [key]];
      assert (inserted + [key])[..|inserted|] == inserted;
      inserted := inserted + [key];
      FillConsistent(size, inserted);
    }

    /** `reset()`: all buckets empty and the counter zero, whatever came before. */
    method Reset()
      modifies this
      ensures Valid() && Consistent(size, table, collisions)
      ensures table == EmptyBuckets(size) && collisions == 0 && inserted == []
    {
      table := EmptyBuckets(size);
      collisions := 0;
      inserted := [];
      FillConsistent(size, []);
    }
  }
}
