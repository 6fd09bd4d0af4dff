/**
 * One map task (doMap and storeInto, src/mapreduce/common_map.go): route the
 * pairs the map function emitted into nReduce buckets by hash, then store
 * bucket r under reduceName(jobName, mapTask, r).
 *
 * Reading the input file and calling mapF are outside the model: the pairs
 * mapF returned are a parameter. Files are a Store, a name-to-content map, so
 * JSON encoding and decoding are outside the model too.
 */
module MapTask {
  import opened Wrappers
  import opened Common
  import opened Fnv
  import opened Intermediate

  /** The Go run-time panics doMap can raise before it writes anything. */
  datatype Panic =
    | NegativeSliceLength   // make([]map[string][]string, nReduce) with nReduce < 0
    | IntegerDivideByZero   // ihash(kv.Key) % nReduce with nReduce == 0

  /** The reduce task a key goes to: ihash(key) % nReduce. */
  function Route(key: Bytes, nReduce: int): (p: int)
    requires nReduce > 0
    ensures 0 <= p < nReduce
  {
    IHash(key) % nReduce
  }

  /** The distinct keys among the pairs. */
  function KeysOf(s: seq<KeyValue>): set<Bytes> {
    set kv | kv in s :: kv.key
  }

  /** The values paired with k, in the order the pairs come, duplicates kept. */
  function ValuesOf(s: seq<KeyValue>, k: Bytes): seq<Bytes> {
    if |s| == 0 then []
    else ValuesOf(s[..|s| - 1], k) + (if s[|s| - 1].key == k then [s[|s| - 1].value] else [])
  }

  /** Bucket p: every key that routes to p, with all its values in order. */
  function RoutedTo(s: seq<KeyValue>, nReduce: nat, p: nat): Bucket
    requires p < nReduce
  {
    map k | k in KeysOf(s) && Route(k, nReduce) == p :: ValuesOf(s, k)
  }

  /** The nReduce buckets of a map task's output. */
  function Partitioned(s: seq<KeyValue>, nReduce: nat): seq<Bucket> {
    seq(nReduce, p requires 0 <= p < nReduce => RoutedTo(s, nReduce, p))
  }

  /** A key has values exactly when some pair carries it. */
  lemma {:induction false} ValuesOfNonEmpty(s: seq<KeyValue>, k: Bytes)
    ensures (ValuesOf(s, k) != []) == (k in KeysOf(s))
  {
    if |s| > 0 {
      var init := s[..|s| - 1];
      ValuesOfNonEmpty(init, k);
      assert s == init + [s[|s| - 1]];
      assert KeysOf(s) == KeysOf(init) + {s[|s| - 1].key};
    }
  }

  /** No value is lost: the value of every pair is listed for its key. */
  lemma {:induction false} ValueListed(s: seq<KeyValue>, i: nat)
    requires i < |s|
    ensures s[i].value in ValuesOf(s, s[i].key)
  {
    if i < |s| - 1 {
      ValueListed(s[..|s| - 1], i);
    }
  }

  lemma ValuesOfSnoc(s: seq<KeyValue>, kv: KeyValue, k: Bytes)
    ensures ValuesOf(s + [kv], k) == ValuesOf(s, k) + (if kv.key == k then [kv.value] else [])
  {
  }

  lemma KeysOfSnoc(s: seq<KeyValue>, kv: KeyValue)
    ensures KeysOf(s + [kv]) == KeysOf(s) + {kv.key}
  {
  }

  /** Routing one more pair extends only the bucket its key goes to. */
  lemma RoutedToSnoc(s: seq<KeyValue>, kv: KeyValue, nReduce: nat, p: nat)
    requires p < nReduce
    ensures var b := RoutedTo(s, nReduce, p);
      RoutedTo(s + [kv], nReduce, p) ==
        if Route(kv.key, nReduce) != p then b
        else if kv.key in b then b[kv.key := b[kv.key] + [kv.value]]
        else b[kv.key := [kv.value]]
  {
    var t := s + [kv];
    KeysOfSnoc(s, kv);
    var b, b' := RoutedTo(s, nReduce, p), RoutedTo(t, nReduce, p);
    if Route(kv.key, nReduce) != p {
      assert b'.Keys == b.Keys;
      forall k | k in b'
        ensures b'[k] == b[k]
      {
        ValuesOfSnoc(s, kv, k);
      }
      assert b' == b;
    } else {
      ValuesOfNonEmpty(s, kv.key);
      var expected := b[kv.key := Get(b, kv.key) + [kv.value]];
      assert b'.Keys == expected.Keys;
      forall k | k in b'
        ensures b'[k] == expected[k]
      {
        ValuesOfSnoc(s, kv, k);
      }
      assert b' == expected;
      if kv.key !in b {
        assert Get(b, kv.key) + [kv.value] == [kv.value];
      }
    }
  }

  /** Every pair lands in bucket Route(key), and in no other bucket. */
  lemma EveryPairRouted(s: seq<KeyValue>, nReduce: nat, i: nat)
    requires nReduce > 0 && i < |s|
    ensures var p := Route(s[i].key, nReduce);
      && s[i].key in Partitioned(s, nReduce)[p]
      && s[i].value in Partitioned(s, nReduce)[p][s[i].key]
      && forall q :: 0 <= q < nReduce && q != p ==> s[i].key !in Partitioned(s, nReduce)[q]
  {
    assert s[i] in s;
    ValueListed(s, i);
  }

  /** The buckets of a map task hold exactly as many values as the map function emitted pairs. */
  lemma {:induction false} PartitionedSize(s: seq<KeyValue>, nReduce: nat)
    requires nReduce > 0
    ensures TotalSize(Partitioned(s, nReduce)) == |s|
  {
    if |s| == 0 {
      TotalSizeEmpty(Partitioned(s, nReduce));
    } else {
      var init, kv := s[..|s| - 1], s[|s| - 1];
      assert s == init + [kv];
      PartitionedSize(init, nReduce);
      var p := Route(kv.key, nReduce);
      var before := Partitioned(init, nReduce);
      var b := before[p];
      var b' := if kv.key in b then b[kv.key := b[kv.key] + [kv.value]] else b[kv.key := [kv.value]];
      forall q | 0 <= q < nReduce
        ensures Partitioned(s, nReduce)[q] == before[p := b'][q]
      {
        RoutedToSnoc(init, kv, nReduce, q);
      }
      assert Partitioned(s, nReduce) == before[p := b'];
      assert b' == b[kv.key := Get(b, kv.key) + [kv.value]] by {
        if kv.key !in b {
          assert Get(b, kv.key) + [kv.value] == [kv.value];
        }
      }
      SizeUpdate(b, kv.key, Get(b, kv.key) + [kv.value]);
      TotalSizeUpdate(before, p, b');
    }
  }

  /**
   * The partition loop of doMap: make nReduce empty maps, then append each
   * pair's value to its key's list in bucket ihash(key) % nReduce.
   */
  method Partition(mapOut: seq<KeyValue>, nReduce: int) returns (r: Result<seq<Bucket>, Panic>)
    ensures nReduce < 0 ==> r == Err(NegativeSliceLength)
    ensures nReduce == 0 && |mapOut| > 0 ==> r == Err(IntegerDivideByZero)
    ensures nReduce > 0 || (nReduce == 0 && |mapOut| == 0) ==> r == Ok(Partitioned(mapOut, nReduce))
  {
    if nReduce < 0 {
      return Err(NegativeSliceLength);
    }
    var interkv := new Bucket[nReduce];
    var j := 0;
    while j < nReduce
      invariant 0 <= j <= nReduce
      invariant forall q :: 0 <= q < j ==> interkv[q] == map[]
    {
      interkv[j] := map[];
      j := j + 1;
    }
    var i := 0;
    while i < |mapOut|
      invariant 0 <= i <= |mapOut|
      invariant nReduce == 0 ==> i == 0
      invariant forall q :: 0 <= q < nReduce ==> interkv[q] == RoutedTo(mapOut[..i], nReduce, q)
    {
      if nReduce == 0 {
        return Err(IntegerDivideByZero);
      }
      var kv := mapOut[i];
      var pos := IHash(kv.key) % nReduce;
      if kv.key !in interkv[pos] {
        interkv[pos] := interkv[pos][kv.key := [kv.value]];
      } else {
        interkv[pos] := interkv[pos][kv.key := interkv[pos][kv.key] + [kv.value]];
      }
      forall q | 0 <= q < nReduce
        ensures RoutedTo(mapOut[..i + 1], nReduce, q) == interkv[q]
      {
        assert mapOut[..i + 1] == mapOut[..i] + [kv];
        RoutedToSnoc(mapOut[..i], kv, nReduce, q);
      }
      i := i + 1;
    }
    assert mapOut[..i] == mapOut;
    assert interkv[..] == Partitioned(mapOut, nReduce);
    r := Ok(interkv[..]);
  }

  /** The names of the files a map task writes for the first n reduce tasks. */
  function OutputNames(jobName: string, mapTask: int, n: int): set<string> {
    set w | 0 <= w < n :: ReduceName(jobName, mapTask, w)
  }

  /** The file for reduce task `which` is not among those for the reduce tasks before it. */
  lemma NextOutputName(jobName: string, mapTask: int, which: nat)
    ensures ReduceName(jobName, mapTask, which) !in OutputNames(jobName, mapTask, which)
    ensures OutputNames(jobName, mapTask, which + 1)
      == OutputNames(jobName, mapTask, which) + {ReduceName(jobName, mapTask, which)}
  {
    forall w | 0 <= w < which
      ensures ReduceName(jobName, mapTask, w) != ReduceName(jobName, mapTask, which)
    {
      if ReduceName(jobName, mapTask, w) == ReduceName(jobName, mapTask, which) {
        ReduceNameInjective(jobName, mapTask, w, mapTask, which);
      }
    }
  }

  /**
   * exists() as written returns os.IsNotExist(err) (src/mapreduce/common.go:50):
   * it holds exactly when the file is ABSENT.
   */
  predicate ExistsAsWritten(fs: Store, name: string) {
    name !in fs
  }

  /** exists() as its name and doc comment promise: the file is present. */
  predicate Exists(fs: Store, name: string) {
    name in fs
  }

  /**
   * After storeInto as written has handled buckets [0, k): each of their files
   * was already present and now holds exactly its bucket; the set of files is
   * unchanged, and so is every other file.
   */
  ghost predicate OverwrotePrefix(fs: Store, fs': Store, interkv: seq<Bucket>, jobName: string, mapTask: int, k: nat)
    requires k <= |interkv|
  {
    && fs'.Keys == fs.Keys
    && (forall w :: 0 <= w < k ==>
          ReduceName(jobName, mapTask, w) in fs && fs'[ReduceName(jobName, mapTask, w)] == interkv[w])
    && (forall name :: name in fs && name !in OutputNames(jobName, mapTask, k) ==> fs'[name] == fs[name])
  }

  lemma OverwriteStep(fs: Store, fs': Store, interkv: seq<Bucket>, jobName: string, mapTask: int, k: nat)
    requires k < |interkv|
    requires OverwrotePrefix(fs, fs', interkv, jobName, mapTask, k)
    requires ReduceName(jobName, mapTask, k) in fs
    ensures OverwrotePrefix(fs, fs'[ReduceName(jobName, mapTask, k) := interkv[k]], interkv, jobName, mapTask, k + 1)
  {
    var name := ReduceName(jobName, mapTask, k);
    var next := fs'[name := interkv[k]];
    NextOutputName(jobName, mapTask, k);
    forall w | 0 <= w < k + 1
      ensures ReduceName(jobName, mapTask, w) in fs && next[ReduceName(jobName, mapTask, w)] == interkv[w]
    {
      if w < k {
        assert ReduceName(jobName, mapTask, w) in OutputNames(jobName, mapTask, k);
      }
    }
  }

  /**
   * storeInto as written. Because exists() is inverted, the merge branch runs
   * when the file is missing, and ReadFile then fails: ErrorClient calls
   * log.Fatal, so the process stops with the buckets before it stored. When the
   * file is present, the branch is skipped and os.Create overwrites it.
   * written counts the buckets stored before the run stopped or finished.
   */
  method StoreIntoAsWritten(interkv: seq<Bucket>, jobName: string, mapTask: int, fs: Store)
    returns (fs': Store, written: nat, ok: bool)
    ensures written <= |interkv|
    ensures ok <==> written == |interkv|
    ensures !ok ==> ReduceName(jobName, mapTask, written) !in fs
    ensures OverwrotePrefix(fs, fs', interkv, jobName, mapTask, written)
  {
    fs', written := fs, 0;
    while written < |interkv|
      invariant written <= |interkv|
      invariant OverwrotePrefix(fs, fs', interkv, jobName, mapTask, written)
    {
      var filename := ReduceName(jobName, mapTask, written);
      if ExistsAsWritten(fs', filename) {
        return fs', written, false;
      }
      OverwriteStep(fs, fs', interkv, jobName, mapTask, written);
      fs' := fs'[filename := interkv[written]];
      written := written + 1;
    }
    ok := true;
  }

  /**
   * The first run of a map task, on a store that has none of its files, stops
   * at bucket 0 and leaves the store as it was.
   */
  method FirstRunAsWritten(interkv: seq<Bucket>, jobName: string, mapTask: int, fs: Store)
    returns (fs': Store, ok: bool)
    requires |interkv| > 0
    requires forall w :: 0 <= w < |interkv| ==> ReduceName(jobName, mapTask, w) !in fs
    ensures !ok && fs' == fs
  {
    assert ReduceName(jobName, mapTask, 0) !in fs;
    var written;
    fs', written, ok := StoreIntoAsWritten(interkv, jobName, mapTask, fs);
    assert written == 0;
    assert OutputNames(jobName, mapTask, 0) == {};
    assert fs' == fs;
  }

  /** The earlier content of a file, if the file exists. */
  function Prior(fs: Store, name: string): Option<Bucket> {
    if name in fs then Some(fs[name]) else None
  }

  /** What storeInto writes for one bucket: the bucket, merged with the file's earlier content if there is one. */
  function Stored(bucket: Bucket, prior: Option<Bucket>): Bucket {
    match prior
    case None => bucket
    case Some(earlier) => Merge(bucket, earlier)
  }

  /**
   * The stored content holds the keys of both sides; a key on both sides lists
   * the new values, then the earlier ones; a key on one side keeps its list;
   * and no value is lost or invented.
   */
  lemma StoredSpec(bucket: Bucket, prior: Option<Bucket>)
    ensures prior.None? ==> Stored(bucket, prior) == bucket
    ensures prior.Some? ==>
      var s, earlier := Stored(bucket, prior), prior.value;
      && s.Keys == bucket.Keys + earlier.Keys
      && (forall k :: k in bucket && k in earlier ==> s[k] == bucket[k] + earlier[k])
      && (forall k :: k in bucket && k !in earlier ==> s[k] == bucket[k])
      && (forall k :: k !in bucket && k in earlier ==> s[k] == earlier[k])
      && Size(s) == Size(bucket) + Size(earlier)
  {
    if prior.Some? {
      MergeSize(bucket, prior.value);
    }
  }

  /**
   * After storeInto has handled buckets [0, k): their files exist and hold
   * Stored(...); every other file is as it was.
   */
  ghost predicate StoredPrefix(fs: Store, fs': Store, interkv: seq<Bucket>, jobName: string, mapTask: int, k: nat)
    requires k <= |interkv|
  {
    && fs'.Keys == fs.Keys + OutputNames(jobName, mapTask, k)
    && (forall w :: 0 <= w < k ==>
          fs'[ReduceName(jobName, mapTask, w)] == Stored(interkv[w], Prior(fs, ReduceName(jobName, mapTask, w))))
    && (forall name :: name in fs && name !in OutputNames(jobName, mapTask, k) ==> fs'[name] == fs[name])
  }

  lemma StoreStep(fs: Store, fs': Store, interkv: seq<Bucket>, jobName: string, mapTask: int, k: nat)
    requires k < |interkv|
    requires StoredPrefix(fs, fs', interkv, jobName, mapTask, k)
    ensures var name := ReduceName(jobName, mapTask, k);
      && (name in fs' <==> name in fs)
      && (name in fs ==> fs'[name] == fs[name])
      && StoredPrefix(fs, fs'[name := Stored(interkv[k], Prior(fs, name))], interkv, jobName, mapTask, k + 1)
  {
    var name := ReduceName(jobName, mapTask, k);
    var next := fs'[name := Stored(interkv[k], Prior(fs, name))];
    NextOutputName(jobName, mapTask, k);
    assert next.Keys == fs.Keys + OutputNames(jobName, mapTask, k + 1);
    forall w | 0 <= w < k + 1
      ensures next[ReduceName(jobName, mapTask, w)] == Stored(interkv[w], Prior(fs, ReduceName(jobName, mapTask, w)))
    {
      if w < k {
        assert ReduceName(jobName, mapTask, w) in OutputNames(jobName, mapTask, k);
      }
    }
  }

  /**
   * storeInto with exists() as intended: bucket w goes to
   * reduceName(jobName, mapTask, w); when that file is already there its
   * content is merged in behind the new values, otherwise the bucket is
   * written as it is. No other file changes.
   */
  method StoreInto(interkv: seq<Bucket>, jobName: string, mapTask: int, fs: Store) returns (fs': Store)
    ensures StoredPrefix(fs, fs', interkv, jobName, mapTask, |interkv|)
  {
    fs' := fs;
    var which := 0;
    while which < |interkv|
      invariant which <= |interkv|
      invariant StoredPrefix(fs, fs', interkv, jobName, mapTask, which)
    {
      var filename := ReduceName(jobName, mapTask, which);
      StoreStep(fs, fs', interkv, jobName, mapTask, which);
      var kv := interkv[which];
      if Exists(fs', filename) {
        var tmp := fs'[filename];
        kv := MergeInto(kv, tmp);
      }
      fs' := fs'[filename := kv];
      which := which + 1;
    }
  }

  /**
   * On a store without this task's files, the store adds exactly the task's
   * files, each holding its bucket as it is, and keeps every other file.
   */
  lemma FirstRunStores(interkv: seq<Bucket>, jobName: string, mapTask: int, fs: Store, fs': Store)
    requires forall w :: 0 <= w < |interkv| ==> ReduceName(jobName, mapTask, w) !in fs
    requires StoredPrefix(fs, fs', interkv, jobName, mapTask, |interkv|)
    ensures fs'.Keys == fs.Keys + OutputNames(jobName, mapTask, |interkv|)
    ensures fs.Keys !! OutputNames(jobName, mapTask, |interkv|)
    ensures forall w :: 0 <= w < |interkv| ==> fs'[ReduceName(jobName, mapTask, w)] == interkv[w]
    ensures forall name :: name in fs ==> fs'[name] == fs[name]
  {
  }

  /**
   * With exists() corrected, a retried map task that emits the same buckets
   * again lists every value twice: the store merges into the earlier
   * attempt's files instead of replacing them.
   */
  lemma RetryDuplicates(interkv: seq<Bucket>, jobName: string, mapTask: int, fs: Store, first: Store, second: Store)
    requires forall w :: 0 <= w < |interkv| ==> ReduceName(jobName, mapTask, w) !in fs
    requires StoredPrefix(fs, first, interkv, jobName, mapTask, |interkv|)
    requires StoredPrefix(first, second, interkv, jobName, mapTask, |interkv|)
    ensures forall w :: 0 <= w < |interkv| ==>
      var b, s := interkv[w], second[ReduceName(jobName, mapTask, w)];
      && s.Keys == b.Keys
      && (forall k :: k in b ==> s[k] == b[k] + b[k])
      && Size(s) == 2 * Size(b)
  {
    FirstRunStores(interkv, jobName, mapTask, fs, first);
    forall w | 0 <= w < |interkv|
      ensures var b, s := interkv[w], second[ReduceName(jobName, mapTask, w)];
        && s.Keys == b.Keys
        && (forall k :: k in b ==> s[k] == b[k] + b[k])
        && Size(s) == 2 * Size(b)
    {
      var name := ReduceName(jobName, mapTask, w);
      assert name in OutputNames(jobName, mapTask, |interkv|);
      assert Prior(first, name) == Some(interkv[w]);
      MergeSelfDuplicates(interkv[w]);
    }
  }

  /**
   * doMap with exists() corrected: partition the map output, then store the
   * buckets with StoreInto. A panic stops the task before any file is written.
   */
  method DoMap(jobName: string, mapTask: int, mapOut: seq<KeyValue>, nReduce: int, fs: Store)
    returns (r: Result<Store, Panic>)
    ensures nReduce < 0 ==> r == Err(NegativeSliceLength)
    ensures nReduce == 0 && |mapOut| > 0 ==> r == Err(IntegerDivideByZero)
    ensures r.Ok? <==> nReduce > 0 || (nReduce == 0 && |mapOut| == 0)
    ensures r.Ok? ==> StoredPrefix(fs, r.value, Partitioned(mapOut, nReduce), jobName, mapTask, nReduce)
  {
    var parts := Partition(mapOut, nReduce);
    if parts.Err? {
      return Err(parts.error);
    }
    var fs' := StoreInto(parts.value, jobName, mapTask, fs);
    r := Ok(fs');
  }

  /**
   * How doMap as written stops early: a run-time panic in the partition loop,
   * or log.Fatal on the file of bucket `bucket`, with the store as the run
   * left it.
   */
  datatype Halt = Panicked(panic: Panic) | Fatal(bucket: nat, left: Store)

  /**
   * doMap as written: partition, then storeInto with exists() inverted. It
   * finishes exactly when every one of the task's files already exists (a
   * retry), and each file then holds its new bucket alone; otherwise it stops
   * at the first missing file, having overwritten those before it.
   */
  method DoMapAsWritten(jobName: string, mapTask: int, mapOut: seq<KeyValue>, nReduce: int, fs: Store)
    returns (r: Result<Store, Halt>)
    ensures nReduce < 0 ==> r == Err(Panicked(NegativeSliceLength))
    ensures nReduce == 0 && |mapOut| > 0 ==> r == Err(Panicked(IntegerDivideByZero))
    ensures r.Err? ==> (r.error.Panicked? <==> nReduce < 0 || (nReduce == 0 && |mapOut| > 0))
    ensures r.Ok? <==>
      && (nReduce > 0 || (nReduce == 0 && |mapOut| == 0))
      && (forall w :: 0 <= w < nReduce ==> ReduceName(jobName, mapTask, w) in fs)
    ensures r.Ok? ==> OverwrotePrefix(fs, r.value, Partitioned(mapOut, nReduce), jobName, mapTask, nReduce)
    ensures r.Err? && r.error.Fatal? ==>
      && 0 <= r.error.bucket < nReduce
      && ReduceName(jobName, mapTask, r.error.bucket) !in fs
      && OverwrotePrefix(fs, r.error.left, Partitioned(mapOut, nReduce), jobName, mapTask, r.error.bucket)
  {
    var parts := Partition(mapOut, nReduce);
    if parts.Err? {
      return Err(Panicked(parts.error));
    }
    var fs', written, ok := StoreIntoAsWritten(parts.value, jobName, mapTask, fs);
    if ok {
      r := Ok(fs');
    } else {
      r := Err(Fatal(written, fs'));
    }
  }
}
