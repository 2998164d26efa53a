/** The bucketed hash table of table.py: a fixed array of bucket lists of
    (key, value) pairs, a key living in bucket `hash(key) % size`. Keys are
    the integers the program uses (parcel ids, node ids), whose Python hash
    is the key itself. */
module Tables {
  import opened Util

  const DefaultSize: nat := 10

  type pos = n: int | n > 0 witness 1

  // ---------------------------------------------------------------------
  // One bucket

  predicate HasKey<V>(bucket: seq<(int, V)>, key: int) {
    exists i :: 0 <= i < |bucket| && bucket[i].0 == key
  }

  /** No key occurs twice in the bucket: the first key is not among the
      rest, and the rest are unique. */
  predicate UniqueKeys<V>(bucket: seq<(int, V)>) {
    bucket != [] ==>
      && (forall j :: 1 <= j < |bucket| ==> bucket[j].0 != bucket[0].0)
      && UniqueKeys(bucket[1..])
  }

  /** UniqueKeys says that keys at two distinct positions differ. */
  lemma {:induction false} UniqueKeysPairs<V>(bucket: seq<(int, V)>)
    ensures UniqueKeys(bucket) <==> forall i, j :: 0 <= i < j < |bucket| ==> bucket[i].0 != bucket[j].0
  {
    if bucket != [] {
      var rest := bucket[1..];
      UniqueKeysPairs(rest);
      if UniqueKeys(bucket) {
        forall i, j | 0 <= i < j < |bucket| ensures bucket[i].0 != bucket[j].0 {
          if i > 0 {
            assert bucket[i] == rest[i - 1] && bucket[j] == rest[j - 1];
          }
        }
      }
      if forall i, j :: 0 <= i < j < |bucket| ==> bucket[i].0 != bucket[j].0 {
        forall i, j | 0 <= i < j < |rest| ensures rest[i].0 != rest[j].0 {
          assert rest[i] == bucket[i + 1] && rest[j] == bucket[j + 1];
        }
      }
    }
  }

  /** The value of the first entry with `key`, as Table.get's scan finds it. */
  function Find<V>(bucket: seq<(int, V)>, key: int): (r: Option<V>)
    ensures r.None? <==> !HasKey(bucket, key)
    ensures r.Some? ==> exists i :: 0 <= i < |bucket| && bucket[i] == (key, r.value)
  {
    if bucket == [] then None
    else if bucket[0].0 == key then Some(bucket[0].1)
    else
      var r := Find(bucket[1..], key);
      assert r.Some? ==> exists i :: 1 <= i < |bucket| && bucket[i] == (key, r.value) by {
        if r.Some? {
          var i :| 0 <= i < |bucket[1..]| && bucket[1..][i] == (key, r.value);
          assert bucket[i + 1] == (key, r.value);
        }
      }
      assert HasKey(bucket[1..], key) <==> HasKey(bucket, key) by {
        if HasKey(bucket, key) {
          var i :| 0 <= i < |bucket| && bucket[i].0 == key;
          assert bucket[1..][i - 1].0 == key;
        }
      }
      r
  }

  /** Find returns the entry at the first matching position. */
  lemma {:induction false} FindFirst<V>(bucket: seq<(int, V)>, key: int, i: nat)
    requires i < |bucket| && bucket[i].0 == key
    requires forall j :: 0 <= j < i ==> bucket[j].0 != key
    ensures Find(bucket, key) == Some(bucket[i].1)
  {
    if i > 0 {
      FindFirst(bucket[1..], key, i - 1);
    }
  }

  /** Table.insert's update of one bucket: overwrite the first entry with
      `key` where it stands, or append a new entry. */
  function Put<V>(bucket: seq<(int, V)>, key: int, item: V): (r: seq<(int, V)>)
    ensures forall e :: e in r ==> e in bucket || e == (key, item)
  {
    if bucket == [] then [(key, item)]
    else if bucket[0].0 == key then [(key, item)] + bucket[1..]
    else [bucket[0]] + Put(bucket[1..], key, item)
  }

  /** After Put, the bucket finds the new item under `key` and the old value
      under every other key. */
  lemma {:induction false} PutFind<V>(bucket: seq<(int, V)>, key: int, item: V, k: int)
    ensures Find(Put(bucket, key, item), k) == if k == key then Some(item) else Find(bucket, k)
  {
    if bucket != [] && bucket[0].0 != key {
      PutFind(bucket[1..], key, item, k);
      assert Put(bucket, key, item)[1..] == Put(bucket[1..], key, item);
    } else if bucket != [] {
      assert Put(bucket, key, item)[1..] == bucket[1..];
    }
  }

  /** Put keeps the keys of a bucket distinct. */
  lemma {:induction false} PutUnique<V>(bucket: seq<(int, V)>, key: int, item: V)
    requires UniqueKeys(bucket)
    ensures UniqueKeys(Put(bucket, key, item))
  {
    var r := Put(bucket, key, item);
    if bucket != [] && bucket[0].0 != key {
      PutUnique(bucket[1..], key, item);
      assert r[1..] == Put(bucket[1..], key, item);
      forall j | 1 <= j < |r| ensures r[0].0 != r[j].0 {
        assert r[j] in Put(bucket[1..], key, item);
        if r[j] != (key, item) {
          assert r[j] in bucket[1..];
        }
      }
    } else if bucket != [] {
      assert r[1..] == bucket[1..];
    }
  }

  /** Put overwrites the entry at the first position holding the key. */
  lemma {:induction false} PutAt<V>(bucket: seq<(int, V)>, key: int, item: V, i: nat)
    requires i < |bucket| && bucket[i].0 == key
    requires forall j :: 0 <= j < i ==> bucket[j].0 != key
    ensures Put(bucket, key, item) == bucket[i := (key, item)]
  {
    if i > 0 {
      PutAt(bucket[1..], key, item, i - 1);
      assert bucket[i := (key, item)] == [bucket[0]] + bucket[1..][i - 1 := (key, item)];
    }
  }

  /** Put appends when the key is absent. */
  lemma {:induction false} PutAbsent<V>(bucket: seq<(int, V)>, key: int, item: V)
    requires forall j :: 0 <= j < |bucket| ==> bucket[j].0 != key
    ensures Put(bucket, key, item) == bucket + [(key, item)]
  {
    if bucket != [] {
      PutAbsent(bucket[1..], key, item);
      assert bucket + [(key, item)] == [bucket[0]] + (bucket[1..] + [(key, item)]);
    }
  }

  /** Table.remove's update of one bucket: delete the first entry with `key`. */
  function Delete<V>(bucket: seq<(int, V)>, key: int): (r: seq<(int, V)>)
    ensures forall e :: e in r ==> e in bucket
  {
    if bucket == [] then []
    else if bucket[0].0 == key then bucket[1..]
    else [bucket[0]] + Delete(bucket[1..], key)
  }

  /** After Delete, a bucket of distinct keys no longer finds `key`, and
      finds every other key as before. */
  lemma {:induction false} DeleteFind<V>(bucket: seq<(int, V)>, key: int, k: int)
    requires UniqueKeys(bucket)
    ensures Find(Delete(bucket, key), k) == if k == key then None else Find(bucket, k)
  {
    if bucket != [] && bucket[0].0 != key {
      DeleteFind(bucket[1..], key, k);
      assert Delete(bucket, key)[1..] == Delete(bucket[1..], key);
    } else if bucket != [] {
      forall i | 0 <= i < |bucket[1..]| ensures bucket[1..][i].0 != key {
        assert bucket[i + 1].0 != bucket[0].0;
      }
    }
  }

  /** Delete keeps the keys of a bucket distinct. */
  lemma {:induction false} DeleteUnique<V>(bucket: seq<(int, V)>, key: int)
    requires UniqueKeys(bucket)
    ensures UniqueKeys(Delete(bucket, key))
  {
    var r := Delete(bucket, key);
    if bucket != [] && bucket[0].0 != key {
      DeleteUnique(bucket[1..], key);
      assert r[1..] == Delete(bucket[1..], key);
      forall j | 1 <= j < |r| ensures r[0].0 != r[j].0 {
        assert r[j] in Delete(bucket[1..], key);
        assert r[j] in bucket[1..];
      }
    }
  }

  /** Delete removes the entry at the first position holding the key. */
  lemma {:induction false} DeleteAt<V>(bucket: seq<(int, V)>, key: int, i: nat)
    requires i < |bucket| && bucket[i].0 == key
    requires forall j :: 0 <= j < i ==> bucket[j].0 != key
    ensures Delete(bucket, key) == bucket[..i] + bucket[i + 1..]
  {
    if i > 0 {
      DeleteAt(bucket[1..], key, i - 1);
      assert bucket[..i] + bucket[i + 1..] == [bucket[0]] + (bucket[1..][..i - 1] + bucket[1..][i..]);
    }
  }

  /** Delete changes nothing when the key is absent. */
  lemma {:induction false} DeleteAbsent<V>(bucket: seq<(int, V)>, key: int)
    requires forall j :: 0 <= j < |bucket| ==> bucket[j].0 != key
    ensures Delete(bucket, key) == bucket
  {
    if bucket != [] {
      DeleteAbsent(bucket[1..], key);
    }
  }

  // ---------------------------------------------------------------------
  // All buckets

  /** The entries of the buckets, bucket by bucket, in bucket order. */
  function Flatten<V>(buckets: seq<seq<(int, V)>>): seq<(int, V)>
  {
    if buckets == [] then [] else Flatten(buckets[..|buckets| - 1]) + buckets[|buckets| - 1]
  }

  function Values<V>(entries: seq<(int, V)>): (r: seq<V>)
    ensures |r| == |entries|
  {
    if entries == [] then [] else Values(entries[..|entries| - 1]) + [entries[|entries| - 1].1]
  }

  /** Values keeps the order of the entries. */
  lemma {:induction false} ValuesIndex<V>(entries: seq<(int, V)>)
    ensures forall i :: 0 <= i < |entries| ==> Values(entries)[i] == entries[i].1
  {
    if entries != [] {
      ValuesIndex(entries[..|entries| - 1]);
    }
  }

  lemma {:induction false} ValuesAppend<V>(a: seq<(int, V)>, b: seq<(int, V)>)
    ensures Values(a + b) == Values(a) + Values(b)
  {
    ValuesIndex(a + b);
    ValuesIndex(a);
    ValuesIndex(b);
  }

  lemma {:induction false} FlattenAppend<V>(a: seq<seq<(int, V)>>, b: seq<seq<(int, V)>>)
    ensures Flatten(a + b) == Flatten(a) + Flatten(b)
    decreases |b|
  {
    if b == [] {
      assert a + b == a;
    } else {
      var m := |b| - 1;
      assert (a + b)[..|a + b| - 1] == a + b[..m];
      FlattenAppend(a, b[..m]);
    }
  }

  lemma {:induction false} FlattenMember<V>(buckets: seq<seq<(int, V)>>, e: (int, V))
    ensures e in Flatten(buckets) <==> exists b :: 0 <= b < |buckets| && e in buckets[b]
  {
    if buckets != [] {
      var m := |buckets| - 1;
      FlattenMember(buckets[..m], e);
      if e in Flatten(buckets[..m]) {
        var b :| 0 <= b < m && e in buckets[..m][b];
        assert e in buckets[b];
      }
      if exists b :: 0 <= b < |buckets| && e in buckets[b] {
        var b :| 0 <= b < |buckets| && e in buckets[b];
        if b < m {
          assert e in buckets[..m][b];
        }
      }
    }
  }

  lemma {:induction false} FlattenUnique<V>(buckets: seq<seq<(int, V)>>, n: pos)
    requires forall b :: 0 <= b < |buckets| ==> UniqueKeys(buckets[b])
    requires forall b, j :: 0 <= b < |buckets| && 0 <= j < |buckets[b]| ==> buckets[b][j].0 % n == b
    ensures UniqueKeys(Flatten(buckets))
  {
    if buckets != [] {
      var m := |buckets| - 1;
      var front := Flatten(buckets[..m]);
      FlattenUnique(buckets[..m], n);
      var r := Flatten(buckets);
      assert r == front + buckets[m];
      UniqueKeysPairs(r);
      UniqueKeysPairs(front);
      UniqueKeysPairs(buckets[m]);
      forall i, j | 0 <= i < j < |r| ensures r[i].0 != r[j].0 {
        if j >= |front| && i < |front| {
          FlattenMember(buckets[..m], r[i]);
          var b :| 0 <= b < m && r[i] in buckets[..m][b];
          var jj :| 0 <= jj < |buckets[b]| && buckets[b][jj] == r[i];
          assert r[j] == buckets[m][j - |front|];
        } else if i >= |front| {
          assert r[i] == buckets[m][i - |front|] && r[j] == buckets[m][j - |front|];
        }
      }
    }
  }

  // ---------------------------------------------------------------------

  /** The inner loop of items(): the values of one bucket, appended in
      order. */
  method AppendValues<V>(acc: seq<V>, bucket: seq<(int, V)>) returns (r: seq<V>)
    ensures r == acc + Values(bucket)
  {
    r := acc;
    var j := 0;
    while j < |bucket|
      invariant 0 <= j <= |bucket|
      invariant r == acc + Values(bucket[..j])
    {
      assert bucket[..j + 1][..j] == bucket[..j];
      r := r + [bucket[j].1];
      j := j + 1;
    }
    assert bucket[..j] == bucket;
  }

  class Table<V> {
    const buckets: array<seq<(int, V)>>
    /** The key/value association the buckets stand for. */
    ghost var contents: map<int, V>

    /** What `get(key)` finds: the first entry with `key` in its bucket. */
    ghost function Slot(key: int): Option<V>
      reads this, buckets
      requires buckets.Length > 0
    {
      Find(buckets[key % buckets.Length], key)
    }

    ghost predicate Valid()
      reads this, buckets
    {
      && buckets.Length > 0
      && (forall b :: 0 <= b < buckets.Length ==> UniqueKeys(buckets[b]))
      && (forall b, j :: 0 <= b < buckets.Length && 0 <= j < |buckets[b]| ==> buckets[b][j].0 % buckets.Length == b)
      && (forall k :: Slot(k) == if k in contents then Some(contents[k]) else None)
    }

    /** Every stored entry, bucket by bucket, in insertion order within a bucket. */
    ghost function Entries(): seq<(int, V)>
      reads this, buckets
    {
      Flatten(buckets[..])
    }

    /** The stored values in the order Table.items() lists them. */
    ghost function AllValues(): seq<V>
      reads this, buckets
    {
      Values(Entries())
    }

    constructor (tableSize: nat)
      requires tableSize > 0
      ensures Valid() && fresh(buckets)
      ensures buckets.Length == tableSize && contents == map[]
      ensures forall b :: 0 <= b < tableSize ==> buckets[b] == []
    {
      buckets := new seq<(int, V)>[tableSize](_ => []);
      contents := map[];
    }

    method Insert(key: int, item: V)
      requires Valid()
      modifies this, buckets
      ensures Valid()
      ensures contents == old(contents)[key := item]
      ensures buckets[key % buckets.Length] == Put(old(buckets[key % buckets.Length]), key, item)
      ensures forall b :: 0 <= b < buckets.Length && b != key % buckets.Length ==> buckets[b] == old(buckets[b])
    {
      var index := key % buckets.Length;
      var bucket := buckets[index];
      var i := 0;
      while i < |bucket| && bucket[i].0 != key
        invariant 0 <= i <= |bucket|
        invariant forall j :: 0 <= j < i ==> bucket[j].0 != key
      {
        i := i + 1;
      }
      var keyExists := i < |bucket|;
      if keyExists {
        PutAt(bucket, key, item, i);
        buckets[index] := bucket[i := (key, item)];
      } else {
        PutAbsent(bucket, key, item);
        buckets[index] := bucket + [(key, item)];
      }
      contents := contents[key := item];
      PutUnique(bucket, key, item);
      forall b, j | 0 <= b < buckets.Length && 0 <= j < |buckets[b]|
        ensures buckets[b][j].0 % buckets.Length == b
      {
        if b == index {
          assert buckets[b][j] in buckets[b];
        }
      }
      forall k ensures Slot(k) == if k in contents then Some(contents[k]) else None {
        if k % buckets.Length != index {
          assert Slot(k) == old(Slot(k));
        } else {
          PutFind(bucket, key, item, k);
          assert old(Slot(k)) == Find(bucket, k);
        }
      }
    }

    method Get(key: int) returns (r: Option<V>)
      requires Valid()
      ensures r == if key in contents then Some(contents[key]) else None
    {
      var bucket := buckets[key % buckets.Length];
      var i := 0;
      while i < |bucket|
        invariant 0 <= i <= |bucket|
        invariant forall j :: 0 <= j < i ==> bucket[j].0 != key
      {
        if bucket[i].0 == key {
          FindFirst(bucket, key, i);
          assert Slot(key) == Some(bucket[i].1);
          return Some(bucket[i].1);
        }
        i := i + 1;
      }
      assert Slot(key) == None;
      r := None;
    }

    method Remove(key: int)
      requires Valid()
      modifies this, buckets
      ensures Valid()
      ensures contents == old(contents) - {key}
      ensures buckets[key % buckets.Length] == Delete(old(buckets[key % buckets.Length]), key)
      ensures forall b :: 0 <= b < buckets.Length && b != key % buckets.Length ==> buckets[b] == old(buckets[b])
    {
      var index := key % buckets.Length;
      var bucket := buckets[index];
      var i := 0;
      while i < |bucket| && bucket[i].0 != key
        invariant 0 <= i <= |bucket|
        invariant forall j :: 0 <= j < i ==> bucket[j].0 != key
      {
        i := i + 1;
      }
      var keyExists := i < |bucket|;
      if keyExists {
        DeleteAt(bucket, key, i);
        buckets[index] := bucket[..i] + bucket[i + 1..];
      } else {
        DeleteAbsent(bucket, key);
      }
      contents := contents - {key};
      DeleteUnique(bucket, key);
      forall b, j | 0 <= b < buckets.Length && 0 <= j < |buckets[b]|
        ensures buckets[b][j].0 % buckets.Length == b
      {
        if b == index {
          assert buckets[b][j] in buckets[b];
        }
      }
      forall k ensures Slot(k) == if k in contents then Some(contents[k]) else None {
        if k % buckets.Length != index {
          assert Slot(k) == old(Slot(k));
        } else {
          DeleteFind(bucket, key, k);
          assert old(Slot(k)) == Find(bucket, k);
        }
      }
    }

    method Items() returns (r: seq<V>)
      requires Valid()
      ensures r == AllValues()
    {
      r := [];
      var b := 0;
      while b < buckets.Length
        invariant 0 <= b <= buckets.Length
        invariant r == Values(Flatten(buckets[..b]))
      {
        var bucket := buckets[b];
        r := AppendValues(r, bucket);
        assert buckets[..b + 1][..b] == buckets[..b];
        ValuesAppend(Flatten(buckets[..b]), bucket);
        b := b + 1;
      }
      assert buckets[..b] == buckets[..];
    }

    /** Each stored key occurs in exactly one entry, and the entries are
        exactly the stored key/value pairs: items() lists every stored
        value once (table.py:144-154). */
    lemma EntriesAreContents()
      requires Valid()
      ensures UniqueKeys(Entries())
      ensures forall e :: e in Entries() <==> e.0 in contents && contents[e.0] == e.1
    {
      FlattenUnique(buckets[..], buckets.Length);
      forall e ensures e in Entries() <==> e.0 in contents && contents[e.0] == e.1 {
        FlattenMember(buckets[..], e);
        var b := e.0 % buckets.Length;
        if e in Entries() {
          var bb :| 0 <= bb < buckets.Length && e in buckets[..][bb];
          var j :| 0 <= j < |buckets[bb]| && buckets[bb][j] == e;
          assert bb == b;
          UniqueKeysPairs(buckets[b]);
          forall jj | 0 <= jj < j ensures buckets[b][jj].0 != e.0 {
          }
          FindFirst(buckets[b], e.0, j);
          assert Slot(e.0) == Some(e.1);
        }
        if e.0 in contents && contents[e.0] == e.1 {
          assert Slot(e.0) == Some(e.1);
          var j :| 0 <= j < |buckets[b]| && buckets[b][j] == (e.0, e.1);
          assert e in buckets[..][b];
        }
      }
    }
  }
}
