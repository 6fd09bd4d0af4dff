/**
 * One reduce task (doReduce, src/mapreduce/common_reduce.go): read the
 * intermediate file that every map task wrote for this reduce task, merge
 * them key by key, and emit one record KeyValue{key, reduceF(key, values)}
 * per distinct key, keys in sorted order.
 *
 * The function as written does not compile, so what is modelled is the
 * behaviour its doc comment and loop structure describe:
 *   - the maps `final` and `tmp` are declared but never made, so writing into
 *     `final` would panic on a nil map (line 51);
 *   - the decode loop runs while Decode returns an error, the inverse of the
 *     intended "until it returns an error" (line 57);
 *   - `[]string{v}` builds a list of strings from v, which is already a list
 *     (line 60);
 *   - the result of `append` is discarded, so later values would be lost
 *     (line 62);
 *   - `tmp` is shared by every decode, and decoding into a non-nil map keeps
 *     the entries of the files decoded before it (lines 51 and 57);
 *   - the keys are emitted in map iteration order, although the doc comment
 *     promises sorted keys (lines 9-10 and 70).
 * Each intermediate file holds one encoded bucket (storeInto writes one map
 * per file), so reading a file yields one Bucket; the JSON encoding, the
 * file system calls and the writing of the output file are outside the
 * model, and reduceF is a parameter.
 */
module ReduceTask {
  import opened Wrappers
  import opened Common
  import opened Intermediate

  /** Go's string order: byte by byte, a proper prefix before its extensions. */
  predicate LexLess(a: Bytes, b: Bytes) {
    if |a| == 0 then |b| > 0
    else if |b| == 0 then false
    else a[0] < b[0] || (a[0] == b[0] && LexLess(a[1..], b[1..]))
  }

  lemma {:induction false} LexIrreflexive(a: Bytes)
    ensures !LexLess(a, a)
  {
    if |a| > 0 {
      LexIrreflexive(a[1..]);
    }
  }

  lemma {:induction false} LexTransitive(a: Bytes, b: Bytes, c: Bytes)
    requires LexLess(a, b) && LexLess(b, c)
    ensures LexLess(a, c)
  {
    if |a| > 0 && a[0] == b[0] && b[0] == c[0] {
      LexTransitive(a[1..], b[1..], c[1..]);
    }
  }

  lemma {:induction false} LexTotal(a: Bytes, b: Bytes)
    ensures a == b || LexLess(a, b) || LexLess(b, a)
  {
    if |a| > 0 && |b| > 0 && a[0] == b[0] {
      LexTotal(a[1..], b[1..]);
      if a[1..] == b[1..] {
        assert a == [a[0]] + a[1..] && b == [b[0]] + b[1..];
      }
    }
  }

  /** The contents of the intermediate files map task m wrote for this reduce task, m = 0 .. n-1, or the first missing name. */
  function ReadInputs(fs: Store, jobName: string, reduceTask: int, n: int): Result<seq<Bucket>, string>
    decreases n
  {
    if n <= 0 then Ok([])
    else
      match ReadInputs(fs, jobName, reduceTask, n - 1)
      case Err(e) => Err(e)
      case Ok(bs) =>
        var name := ReduceName(jobName, n - 1, reduceTask);
        if name in fs then Ok(bs + [fs[name]]) else Err(name)
  }

  /**
   * The reduce task reads exactly the files reduceName(jobName, m, reduceTask)
   * for m in [0, n), in that order; it fails exactly when one is missing, and
   * then on the first missing one.
   */
  lemma {:induction false} ReadInputsSpec(fs: Store, jobName: string, reduceTask: int, n: int)
    ensures var r := ReadInputs(fs, jobName, reduceTask, n);
      && (r.Ok? <==> forall m :: 0 <= m < n ==> ReduceName(jobName, m, reduceTask) in fs)
      && (r.Ok? ==> |r.value| == (if n < 0 then 0 else n)
                    && forall m :: 0 <= m < n ==> r.value[m] == fs[ReduceName(jobName, m, reduceTask)])
      && (r.Err? ==> exists m :: (0 <= m < n && r.error == ReduceName(jobName, m, reduceTask)
                    && r.error !in fs
                    && forall j :: 0 <= j < m ==> ReduceName(jobName, j, reduceTask) in fs))
    decreases n
  {
    if n > 0 {
      ReadInputsSpec(fs, jobName, reduceTask, n - 1);
      var prev, r := ReadInputs(fs, jobName, reduceTask, n - 1), ReadInputs(fs, jobName, reduceTask, n);
      var name := ReduceName(jobName, n - 1, reduceTask);
      if prev.Err? {
        assert r == prev;
      } else if name in fs {
        assert r == Ok(prev.value + [fs[name]]);
      } else {
        assert r == Err(name);
      }
    }
  }

  /** A failed read stays failed, with the same name, however many more files the task would read. */
  lemma {:induction false} ReadInputsErrStays(fs: Store, jobName: string, reduceTask: int, m: int, n: int)
    requires m <= n && ReadInputs(fs, jobName, reduceTask, m).Err?
    ensures ReadInputs(fs, jobName, reduceTask, n) == ReadInputs(fs, jobName, reduceTask, m)
    decreases n
  {
    if m < n {
      ReadInputsErrStays(fs, jobName, reduceTask, m, n - 1);
    }
  }

  /** The merge of the decoded files, in file order: `final` after the read loop. */
  function Combine(bs: seq<Bucket>): Bucket {
    if |bs| == 0 then map[] else Merge(Combine(bs[..|bs| - 1]), bs[|bs| - 1])
  }

  lemma CombineSnoc(bs: seq<Bucket>, b: Bucket)
    ensures Combine(bs + [b]) == Merge(Combine(bs), b)
  {
  }

  /** Reference definition of a merged list: the key's values from each file, files in order. */
  function Gather(bs: seq<Bucket>, k: Bytes): seq<Bytes> {
    if |bs| == 0 then [] else Gather(bs[..|bs| - 1], k) + Get(bs[|bs| - 1], k)
  }

  /**
   * The merged keys are the union of the files' keys, and each merged list is
   * the concatenation of that key's lists across the files, in file order.
   */
  lemma {:induction false} CombineGather(bs: seq<Bucket>, k: Bytes)
    ensures (k in Combine(bs)) <==> exists i :: 0 <= i < |bs| && k in bs[i]
    ensures Get(Combine(bs), k) == Gather(bs, k)
  {
    if |bs| > 0 {
      var init, last := bs[..|bs| - 1], bs[|bs| - 1];
      CombineGather(init, k);
      assert Combine(bs) == Merge(Combine(init), last);
      assert Get(Combine(bs), k) == Get(Combine(init), k) + Get(last, k);
      if k in Combine(init) {
        var i :| 0 <= i < |init| && k in init[i];
        assert bs[i] == init[i];
      }
    }
  }

  /** Merging the files loses and invents no value. */
  lemma {:induction false} CombineSize(bs: seq<Bucket>)
    ensures Size(Combine(bs)) == TotalSize(bs)
  {
    if |bs| > 0 {
      CombineSize(bs[..|bs| - 1]);
      MergeSize(Combine(bs[..|bs| - 1]), bs[|bs| - 1]);
    }
  }

  /**
   * The output the reduce task promises for merged content: keys strictly
   * increasing, each merged key once, each record's value reduceF of its key
   * and the key's full merged list.
   */
  predicate IsReduceOutput(out: seq<KeyValue>, merged: Bucket, reduceF: (Bytes, seq<Bytes>) -> Bytes) {
    && (forall i :: 0 <= i < |out| ==> out[i].key in merged && out[i].value == reduceF(out[i].key, merged[out[i].key]))
    && (forall k :: k in merged ==> exists i :: 0 <= i < |out| && out[i].key == k)
    && (forall i, j :: 0 <= i < j < |out| ==> LexLess(out[i].key, out[j].key))
  }

  /** The keys of a record sequence. */
  function OutKeys(out: seq<KeyValue>): seq<Bytes> {
    seq(|out|, i requires 0 <= i < |out| => out[i].key)
  }

  /**
   * reduceF is called once per distinct merged key: no key has two records,
   * and there are exactly as many records as merged keys.
   */
  lemma ReduceOutputOncePerKey(out: seq<KeyValue>, merged: Bucket, reduceF: (Bytes, seq<Bytes>) -> Bytes)
    requires IsReduceOutput(out, merged, reduceF)
    ensures forall i, j :: 0 <= i < |out| && 0 <= j < |out| && out[i].key == out[j].key ==> i == j
    ensures |out| == |merged.Keys|
  {
    forall i, j | 0 <= i < |out| && 0 <= j < |out| && out[i].key == out[j].key
      ensures i == j
    {
      LexIrreflexive(out[i].key);
    }
    var ks := OutKeys(out);
    DistinctCard(ks);
    assert (set x | x in ks) == merged.Keys by {
      forall k | k in merged
        ensures k in ks
      {
        var i :| 0 <= i < |out| && out[i].key == k;
        assert ks[i] == k;
      }
    }
  }

  /** The least key of a non-empty key set. */
  method MinKey(keys: set<Bytes>) returns (m: Bytes)
    requires keys != {}
    ensures m in keys
    ensures forall k :: k in keys && k != m ==> LexLess(m, k)
  {
    m :| m in keys;
    var todo := keys - {m};
    while todo != {}
      invariant todo <= keys && m in keys && m !in todo
      invariant forall k :: k in keys && k !in todo && k != m ==> LexLess(m, k)
      decreases |todo|
    {
      var k :| k in todo;
      LexTotal(k, m);
      if LexLess(k, m) {
        forall j | j in keys && j !in todo && j != m
          ensures LexLess(k, j)
        {
          LexTransitive(k, m, j);
        }
        m := k;
      }
      todo := todo - {k};
    }
  }

  /**
   * The emission loop's state: the records so far are those of the merged keys
   * no longer remaining, in increasing key order, each below every remaining key.
   */
  ghost predicate EmittedBelow(out: seq<KeyValue>, merged: Bucket, remaining: set<Bytes>, reduceF: (Bytes, seq<Bytes>) -> Bytes) {
    && remaining <= merged.Keys
    && (forall i :: 0 <= i < |out| ==>
          out[i].key in merged && out[i].key !in remaining && out[i].value == reduceF(out[i].key, merged[out[i].key]))
    && (forall k :: k in merged && k !in remaining ==> exists i :: 0 <= i < |out| && out[i].key == k)
    && (forall i, j :: 0 <= i < j < |out| ==> LexLess(out[i].key, out[j].key))
    && (forall i, k :: 0 <= i < |out| && k in remaining ==> LexLess(out[i].key, k))
  }

  /** Emitting the least remaining key keeps the emission state. */
  lemma EmitStep(out: seq<KeyValue>, merged: Bucket, remaining: set<Bytes>, reduceF: (Bytes, seq<Bytes>) -> Bytes, key: Bytes)
    requires EmittedBelow(out, merged, remaining, reduceF)
    requires key in remaining && forall k :: k in remaining && k != key ==> LexLess(key, k)
    ensures EmittedBelow(out + [KeyValue(key, reduceF(key, merged[key]))], merged, remaining - {key}, reduceF)
  {
    var out' := out + [KeyValue(key, reduceF(key, merged[key]))];
    var rest := remaining - {key};
    assert forall i :: 0 <= i < |out| ==> out'[i] == out[i];
    assert out'[|out|].key == key;
    forall i | 0 <= i < |out'|
      ensures out'[i].key in merged && out'[i].key !in rest
      ensures out'[i].value == reduceF(out'[i].key, merged[out'[i].key])
      ensures forall k :: k in rest ==> LexLess(out'[i].key, k)
    {
    }
    forall i, j | 0 <= i < j < |out'|
      ensures LexLess(out'[i].key, out'[j].key)
    {
      if j == |out| {
        assert out'[j].key == key;
      }
    }
    forall k | k in merged && k !in remaining - {key}
      ensures exists i :: 0 <= i < |out'| && out'[i].key == k
    {
      if k == key {
        assert out'[|out|].key == k;
      } else {
        var i :| 0 <= i < |out| && out[i].key == k;
        assert out'[i].key == k;
      }
    }
  }

  /**
   * The emission loop, over the merged keys in sorted order: one record
   * KeyValue{key, reduceF(key, merged[key])} per key.
   */
  method Emit(merged: Bucket, reduceF: (Bytes, seq<Bytes>) -> Bytes) returns (out: seq<KeyValue>)
    ensures IsReduceOutput(out, merged, reduceF)
  {
    out := [];
    var remaining := merged.Keys;
    while remaining != {}
      invariant EmittedBelow(out, merged, remaining, reduceF)
      decreases |remaining|
    {
      var key := MinKey(remaining);
      EmitStep(out, merged, remaining, reduceF, key);
      out := out + [KeyValue(key, reduceF(key, merged[key]))];
      remaining := remaining - {key};
    }
  }

  /**
   * doReduce: read the nMap intermediate files of this reduce task, merging
   * each into `final`; then emit the reduced records in key order. A missing
   * file stops the task (os.Open fails and ErrorClient calls log.Fatal) with
   * its name.
   */
  method DoReduce(jobName: string, reduceTask: int, nMap: int, reduceF: (Bytes, seq<Bytes>) -> Bytes, fs: Store)
    returns (r: Result<seq<KeyValue>, string>)
    ensures var inputs := ReadInputs(fs, jobName, reduceTask, nMap);
      && (r.Err? <==> inputs.Err?)
      && (r.Err? ==> r.error == inputs.error)
      && (r.Ok? ==> IsReduceOutput(r.value, Combine(inputs.value), reduceF))
  {
    var final: Bucket := map[];
    ghost var bs: seq<Bucket> := [];
    var i := 0;
    while i < nMap
      invariant 0 <= i && (i <= nMap || i == 0)
      invariant ReadInputs(fs, jobName, reduceTask, i) == Ok(bs)
      invariant final == Combine(bs)
    {
      var filename := ReduceName(jobName, i, reduceTask);
      if filename !in fs {
        assert ReadInputs(fs, jobName, reduceTask, i + 1) == Err(filename);
        ReadInputsErrStays(fs, jobName, reduceTask, i + 1, nMap);
        return Err(filename);
      }
      var decoded := fs[filename];
      final := MergeInto(final, decoded);
      CombineSnoc(bs, decoded);
      bs := bs + [decoded];
      i := i + 1;
    }
    assert ReadInputs(fs, jobName, reduceTask, nMap) == ReadInputs(fs, jobName, reduceTask, i) by {
      if nMap < 0 {
        assert i == 0;
      }
    }
    var out := Emit(final, reduceF);
    r := Ok(out);
  }
}
