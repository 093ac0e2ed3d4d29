/** Buckets of the bolt store: entries in ascending byte order of their keys,
    with the cursor operations the database uses. A bucket that does not exist
    is treated as an empty one. */
module Buckets {
  import opened Bytes

  datatype Entry = Entry(key: Bytes, value: Bytes)

  predicate Sorted(b: seq<Entry>) {
    forall i, j | 0 <= i < j < |b| :: LexLess(b[i].key, b[j].key)
  }

  type Bucket = b: seq<Entry> | Sorted(b) witness []

  /** Number of entries below a key: where a cursor's Seek stops. */
  function Rank(b: Bucket, k: Bytes): (r: nat)
    ensures r <= |b|
    decreases |b|
  {
    if b == [] || !LexLess(b[0].key, k) then 0 else 1 + Rank(b[1..], k)
  }

  lemma {:induction false} RankSplits(b: Bucket, k: Bytes)
    ensures forall i | 0 <= i < Rank(b, k) :: LexLess(b[i].key, k)
    ensures forall i | Rank(b, k) <= i < |b| :: !LexLess(b[i].key, k)
    decreases |b|
  {
    if b == [] {
    } else if LexLess(b[0].key, k) {
      RankSplits(b[1..], k);
    } else {
      forall i | 0 < i < |b|
        ensures !LexLess(b[i].key, k)
      {
        if LexLess(b[i].key, k) {
          LexTransitive(b[0].key, b[i].key, k);
        }
      }
    }
  }

  function Get(b: Bucket, k: Bytes): Option<Bytes> {
    var i := Rank(b, k);
    if i < |b| && b[i].key == k then Some(b[i].value) else None
  }

  lemma KeysDiffer(b: Bucket, i: nat, j: nat)
    requires i < |b| && j < |b| && b[i].key == b[j].key
    ensures i == j
  {
    LexTotal(b[i].key, b[j].key);
  }

  /** Get finds exactly the stored entries. */
  lemma GetStored(b: Bucket, k: Bytes, v: Bytes)
    ensures Get(b, k) == Some(v) <==> Entry(k, v) in b
  {
    RankSplits(b, k);
    if Entry(k, v) in b {
      var i :| 0 <= i < |b| && b[i] == Entry(k, v);
      LexTotal(k, k);
      assert Rank(b, k) <= i;
    }
  }

  /** bbolt refuses empty keys, keys over 32768 bytes and values over 2^31 - 2 bytes. */
  predicate Storable(k: Bytes, v: Bytes) {
    0 < |k| <= 32768 && |v| <= 0x7fff_fffe
  }

  function PutRaw(b: Bucket, k: Bytes, v: Bytes): seq<Entry> {
    var i := Rank(b, k);
    b[..i] + [Entry(k, v)] + if i < |b| && b[i].key == k then b[i + 1..] else b[i..]
  }

  lemma PutSorted(b: Bucket, k: Bytes, v: Bytes)
    ensures Sorted(PutRaw(b, k, v))
  {
    var r, i := PutRaw(b, k, v), Rank(b, k);
    var skip := if i < |b| && b[i].key == k then 1 else 0;
    RankSplits(b, k);
    forall p, q | 0 <= p < q < |r|
      ensures LexLess(r[p].key, r[q].key)
    {
      if q < i {
      } else if q == i {
      } else if p < i {
        assert r[q] == b[q - 1 + skip];
      } else if p == i {
        LexTotal(k, b[q - 1 + skip].key);
      } else {
        assert r[p] == b[p - 1 + skip] && r[q] == b[q - 1 + skip];
      }
    }
  }

  function Put(b: Bucket, k: Bytes, v: Bytes): Bucket {
    PutSorted(b, k, v);
    PutRaw(b, k, v)
  }

  lemma PutStored(b: Bucket, k: Bytes, v: Bytes, e: Entry)
    ensures e in Put(b, k, v) <==> e == Entry(k, v) || (e in b && e.key != k)
  {
    var i := Rank(b, k);
    RankSplits(b, k);
    LexTotal(k, k);
    if e in b && e.key != k {
      var j :| 0 <= j < |b| && b[j] == e;
      if j < i {
        assert e == b[..i][j] && e in b[..i];
      } else if i < |b| && b[i].key == k {
        assert e == b[i + 1..][j - i - 1];
      } else {
        assert e == b[i..][j - i];
      }
    }
    if e in Put(b, k, v) && e != Entry(k, v) {
      if e in b[..i] {
      } else if i < |b| && b[i].key == k {
        assert e in b[i + 1..];
        var j :| i < j < |b| && b[j] == e;
        LexTotal(b[i].key, b[j].key);
      } else {
        assert e in b[i..];
        var j :| i <= j < |b| && b[j] == e;
        if e.key == k {
          GetStored(b, k, e.value);
        }
      }
    }
  }

  lemma GetPut(b: Bucket, k: Bytes, v: Bytes, k': Bytes)
    ensures Get(Put(b, k, v), k') == if k' == k then Some(v) else Get(b, k')
  {
    GetStored(Put(b, k, v), k, v);
    PutStored(b, k, v, Entry(k, v));
    if k' != k {
      if Get(b, k').Some? {
        var u := Get(b, k').value;
        GetStored(b, k', u);
        GetStored(Put(b, k, v), k', u);
        PutStored(b, k, v, Entry(k', u));
      } else if Get(Put(b, k, v), k').Some? {
        var u := Get(Put(b, k, v), k').value;
        GetStored(b, k', u);
        GetStored(Put(b, k, v), k', u);
        PutStored(b, k, v, Entry(k', u));
      }
    }
  }

  /** Storing what is there changes nothing. */
  lemma PutSame(b: Bucket, k: Bytes, v: Bytes)
    requires Get(b, k) == Some(v)
    ensures Put(b, k, v) == b
  {
    var i := Rank(b, k);
    assert b[i] == Entry(k, v);
    assert b == b[..i] + [b[i]] + b[i + 1..];
  }

  lemma {:induction false} RankAll(b: Bucket, k: Bytes)
    requires forall i | 0 <= i < |b| :: LexLess(b[i].key, k)
    ensures Rank(b, k) == |b|
    decreases |b|
  {
    if b != [] {
      RankAll(b[1..], k);
    }
  }

  /** A key above all others goes to the end. */
  lemma PutLast(b: Bucket, k: Bytes, v: Bytes)
    requires forall i | 0 <= i < |b| :: LexLess(b[i].key, k)
    ensures Put(b, k, v) == b + [Entry(k, v)]
  {
    RankAll(b, k);
  }

  function Delete(b: Bucket, k: Bytes): Bucket {
    var i := Rank(b, k);
    if i < |b| && b[i].key == k then
      DeleteSorted(b, i);
      b[..i] + b[i + 1..]
    else b
  }

  lemma DeleteSorted(b: Bucket, i: nat)
    requires i < |b|
    ensures Sorted(b[..i] + b[i + 1..])
  {
    var r := b[..i] + b[i + 1..];
    forall p, q | 0 <= p < q < |r|
      ensures LexLess(r[p].key, r[q].key)
    {
      assert r[p] == b[if p < i then p else p + 1] && r[q] == b[if q < i then q else q + 1];
    }
  }

  lemma DeleteStored(b: Bucket, k: Bytes, e: Entry)
    ensures e in Delete(b, k) <==> e in b && e.key != k
  {
    var i := Rank(b, k);
    if i < |b| && b[i].key == k {
      if e in b && e.key != k {
        var j :| 0 <= j < |b| && b[j] == e;
        if j < i {
          assert e == b[..i][j];
        } else {
          assert e == b[i + 1..][j - i - 1];
        }
      }
      if e in Delete(b, k) {
        var d := b[..i] + b[i + 1..];
        var j :| 0 <= j < |d| && d[j] == e;
        var j' := if j < i then j else j + 1;
        assert b[j'] == e;
        if e.key == k {
          KeysDiffer(b, i, j');
        }
      }
    } else if e in b && e.key == k {
      GetStored(b, k, e.value);
    }
  }

  lemma GetDelete(b: Bucket, k: Bytes, k': Bytes)
    ensures Get(Delete(b, k), k') == if k' == k then None else Get(b, k')
  {
    if Get(Delete(b, k), k').Some? {
      var u := Get(Delete(b, k), k').value;
      GetStored(Delete(b, k), k', u);
      DeleteStored(b, k, Entry(k', u));
      GetStored(b, k', u);
    }
    if Get(b, k').Some? && k' != k {
      var u := Get(b, k').value;
      GetStored(b, k', u);
      DeleteStored(b, k, Entry(k', u));
      GetStored(Delete(b, k), k', u);
    }
  }

  /** Cursor: Seek(k), then Prev. */
  function SeekPrev(b: Bucket, k: Bytes): Option<Entry> {
    var i := Rank(b, k);
    if i == 0 then None else Some(b[i - 1])
  }

  /** One step back from a Seek is the greatest entry strictly below the key. */
  lemma SeekPrevGreatest(b: Bucket, k: Bytes, e: Entry)
    ensures SeekPrev(b, k) == Some(e) <==>
              e in b && LexLess(e.key, k) && forall f | f in b && LexLess(f.key, k) :: f == e || LexLess(f.key, e.key)
    ensures SeekPrev(b, k).None? ==> forall f | f in b :: !LexLess(f.key, k)
  {
    RankSplits(b, k);
    var i := Rank(b, k);
    if SeekPrev(b, k) == Some(e) {
      forall f | f in b && LexLess(f.key, k)
        ensures f == e || LexLess(f.key, e.key)
      {
        var j :| 0 <= j < |b| && b[j] == f;
        assert j < i;
      }
    }
    if e in b && LexLess(e.key, k) && forall f | f in b && LexLess(f.key, k) :: f == e || LexLess(f.key, e.key) {
      var j :| 0 <= j < |b| && b[j] == e;
      assert j < i && b[i - 1] in b;
      LexTotal(b[i - 1].key, e.key);
    }
  }

  /** Buckets with the same content are equal. */
  lemma {:induction false} SameContent(a: Bucket, b: Bucket)
    requires forall k :: Get(a, k) == Get(b, k)
    ensures a == b
    decreases |a|
  {
    if a == [] || b == [] {
      OneEmpty(a, b);
    } else {
      HeadsEqual(a, b);
      forall k
        ensures Get(a[1..], k) == Get(b[1..], k)
      {
        GetTail(a, k);
        GetTail(b, k);
      }
      SameContent(a[1..], b[1..]);
      assert a == [a[0]] + a[1..] && b == [b[0]] + b[1..];
    }
  }

  lemma OneEmpty(a: Bucket, b: Bucket)
    requires forall k :: Get(a, k) == Get(b, k)
    requires a == [] || b == []
    ensures a == b
  {
    if a != [] {
      GetStored(a, a[0].key, a[0].value);
    }
    if b != [] {
      GetStored(b, b[0].key, b[0].value);
    }
  }

  lemma HeadIsLeast(a: Bucket, e: Entry)
    requires a != [] && e in a
    ensures e == a[0] || LexLess(a[0].key, e.key)
  {
    var i :| 0 <= i < |a| && a[i] == e;
  }

  lemma HeadsEqual(a: Bucket, b: Bucket)
    requires forall k :: Get(a, k) == Get(b, k)
    requires a != [] && b != []
    ensures a[0] == b[0]
  {
    hide Get, Rank;
    GetStored(a, a[0].key, a[0].value);
    GetStored(b, b[0].key, b[0].value);
    assert Get(b, a[0].key) == Get(a, a[0].key);
    GetStored(b, a[0].key, a[0].value);
    GetStored(a, b[0].key, b[0].value);
    HeadIsLeast(a, b[0]);
    HeadIsLeast(b, a[0]);
    LexTotal(a[0].key, b[0].key);
  }

  lemma GetTail(a: Bucket, k: Bytes)
    requires a != []
    ensures Get(a[1..], k) == if k == a[0].key then None else Get(a, k)
  {
    hide Get, Rank;
    if Get(a[1..], k).Some? {
      var v := Get(a[1..], k).value;
      GetStored(a[1..], k, v);
      GetStored(a, k, v);
      LexTotal(a[0].key, k);
    }
    if Get(a, k).Some? {
      var v := Get(a, k).value;
      GetStored(a, k, v);
      GetStored(a[1..], k, v);
      assert a == [a[0]] + a[1..];
    }
  }
}
