/**
 * The content of an intermediate file (a Go map[string][]string once decoded)
 * and the key-wise merge of two such contents, which both the map side
 * (storeInto, src/mapreduce/common_map.go) and the reduce side (doReduce,
 * src/mapreduce/common_reduce.go) perform with the same loop shape.
 */
module Intermediate {
  import opened Common

  /** One decoded intermediate file: each key with its ordered list of values. */
  type Bucket = map<Bytes, seq<Bytes>>

  /** The intermediate files, by name, with their decoded content. */
  type Store = map<string, Bucket>

  /** The values listed for k, or none when k is absent. */
  function Get(b: Bucket, k: Bytes): seq<Bytes> {
    if k in b then b[k] else []
  }

  /** Key-wise concatenation: for every key of either side, a's values followed by b's. */
  function Merge(a: Bucket, b: Bucket): Bucket {
    map k | k in a.Keys + b.Keys :: Get(a, k) + Get(b, k)
  }

  /**
   * The merge loop: every key of b is visited once, in any order; a key new to
   * the accumulator takes b's list, a key already there gets b's list appended.
   */
  method MergeInto(a: Bucket, b: Bucket) returns (r: Bucket)
    ensures r == Merge(a, b)
  {
    r := a;
    var todo := b.Keys;
    while todo != {}
      invariant todo <= b.Keys
      invariant r.Keys == a.Keys + (b.Keys - todo)
      invariant forall k :: k in r ==> r[k] == Get(a, k) + (if k in todo then [] else Get(b, k))
      decreases |todo|
    {
      var k :| k in todo;
      if k !in r {
        r := r[k := b[k]];
      } else {
        r := r[k := r[k] + b[k]];
      }
      todo := todo - {k};
    }
  }

  /** The number of values a bucket holds, over all its keys. */
  ghost function Size(b: Bucket): nat
    decreases |b|
  {
    if b == map[] then 0
    else
      var k :| k in b;
      assert |b - {k}| < |b| by { assert (b - {k}).Keys < b.Keys; }
      |b[k]| + Size(b - {k})
  }

  /** Size does not depend on which key is taken out first. */
  lemma {:induction false} SizeRemove(b: Bucket, k: Bytes)
    requires k in b
    ensures Size(b) == |b[k]| + Size(b - {k})
    decreases |b|
  {
    var j :| j in b && Size(b) == |b[j]| + Size(b - {j});
    if j != k {
      var bj, bk := b - {j}, b - {k};
      assert |bj| < |b| by { assert bj.Keys < b.Keys; }
      assert |bk| < |b| by { assert bk.Keys < b.Keys; }
      SizeRemove(bj, k);
      SizeRemove(bk, j);
      assert bj - {k} == bk - {j};
    }
  }

  /** Replacing the list of k changes the size by the difference in list lengths. */
  lemma SizeUpdate(m: Bucket, k: Bytes, v: seq<Bytes>)
    ensures Size(m[k := v]) + |Get(m, k)| == Size(m) + |v|
  {
    SizeRemove(m[k := v], k);
    assert m[k := v] - {k} == m - {k};
    if k in m {
      SizeRemove(m, k);
    } else {
      assert m - {k} == m;
    }
  }

  lemma MergeEmpty(a: Bucket)
    ensures Merge(a, map[]) == a
  {
    var l := Merge(a, map[]);
    assert l.Keys == a.Keys;
    forall j | j in l
      ensures l[j] == a[j]
    {
      assert Get(map[], j) == [];
    }
  }

  /** Merging b is merging b without k, then appending b's list for k. */
  lemma MergeAddKey(a: Bucket, b: Bucket, k: Bytes)
    requires k in b
    ensures Get(Merge(a, b - {k}), k) == Get(a, k)
    ensures Merge(a, b) == Merge(a, b - {k})[k := Get(a, k) + b[k]]
  {
  }

  /** Merging loses and invents no value: the sizes add up. */
  lemma {:induction false} MergeSize(a: Bucket, b: Bucket)
    ensures Size(Merge(a, b)) == Size(a) + Size(b)
    decreases |b|
  {
    if b == map[] {
      MergeEmpty(a);
    } else {
      var k :| k in b;
      var rest := b - {k};
      assert |rest| < |b| by { assert rest.Keys < b.Keys; }
      MergeSize(a, rest);
      var m := Merge(a, rest);
      MergeAddKey(a, b, k);
      SizeUpdate(m, k, Get(a, k) + b[k]);
      SizeRemove(b, k);
    }
  }

  /**
   * Merging a bucket with a copy of itself lists every value twice: a merge is
   * not idempotent, so re-storing the same content duplicates it.
   */
  lemma MergeSelfDuplicates(b: Bucket)
    ensures Merge(b, b).Keys == b.Keys
    ensures forall k :: k in b ==> Merge(b, b)[k] == b[k] + b[k]
    ensures Size(Merge(b, b)) == 2 * Size(b)
  {
    MergeSize(b, b);
  }

  /** The number of values held by a sequence of buckets. */
  ghost function TotalSize(bs: seq<Bucket>): nat {
    if |bs| == 0 then 0 else TotalSize(bs[..|bs| - 1]) + Size(bs[|bs| - 1])
  }

  lemma {:induction false} TotalSizeUpdate(bs: seq<Bucket>, p: nat, b: Bucket)
    requires p < |bs|
    ensures TotalSize(bs[p := b]) + Size(bs[p]) == TotalSize(bs) + Size(b)
  {
    var last := |bs| - 1;
    if p < last {
      TotalSizeUpdate(bs[..last], p, b);
      assert bs[p := b][..last] == bs[..last][p := b];
    } else {
      assert bs[p := b][..last] == bs[..last];
    }
  }

  lemma {:induction false} TotalSizeEmpty(bs: seq<Bucket>)
    requires forall p :: 0 <= p < |bs| ==> bs[p] == map[]
    ensures TotalSize(bs) == 0
  {
    if |bs| > 0 {
      TotalSizeEmpty(bs[..|bs| - 1]);
    }
  }
}
