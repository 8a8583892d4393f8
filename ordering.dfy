/**
 * The build order of `Index.create`: `order_source` reads the whole source
 * into buckets keyed by score, dropping derivable file names on the way,
 * and `gen_ordered` emits the buckets by descending score, each bucket in
 * the order its entries arrived.
 */
module Ordering {
  import opened Wrappers
  import opened Sorting
  import opened Filenames
  import opened Records

  /** `ordered_source`: score to the entries with that score, in arrival order. */
  type Buckets = map<int, seq<Entry>>

  /** The entries of `es` with score `score`, in their order in `es`. */
  function Filter(es: seq<Entry>, score: int): (r: seq<Entry>)
    ensures |r| <= |es|
    ensures forall i :: 0 <= i < |r| ==> r[i].score == score
  {
    if |es| == 0 then []
    else Filter(es[..|es| - 1], score) + (if es[|es| - 1].score == score then [es[|es| - 1]] else [])
  }

  /** `ordered_source[page_score].append(value)` on a `defaultdict(list)`. */
  function Push(b: Buckets, e: Entry): Buckets
  {
    b[e.score := (if e.score in b then b[e.score] else []) + [e]]
  }

  /** The buckets after every entry of `es`, in order, was pushed. */
  function Bucketize(es: seq<Entry>): Buckets
  {
    if |es| == 0 then map[] else Push(Bucketize(es[..|es| - 1]), es[|es| - 1])
  }

  /** Every title of the source is non-empty, so `to_filename` succeeds on each. */
  predicate AllTitled(source: seq<Entry>)
  {
    forall i :: 0 <= i < |source| ==> |source[i].data.title| > 0
  }

  /** The source with each record compacted as `order_source` does. */
  function Compacted(shard: Shard, source: seq<Entry>): (r: seq<Entry>)
    requires AllTitled(source)
    ensures |r| == |source|
    ensures forall i :: 0 <= i < |source| ==>
      Compact(shard, source[i].data).Success? && r[i] == source[i].(data := Compact(shard, source[i].data).value)
  {
    seq(|source|, i requires 0 <= i < |source| => source[i].(data := Compact(shard, source[i].data).value))
  }

  /**
   * `order_source`: the buckets of the compacted source and `quant`, the
   * last index `enumerate` reached (0 for an empty source). An empty title
   * makes `to_filename` raise `ValueError`.
   */
  method OrderSource(shard: Shard, source: seq<Entry>) returns (r: Result<(Buckets, nat)>)
    ensures r.Failure? <==> !AllTitled(source)
    ensures r.Failure? ==> r.error == InvalidTitle
    ensures r.Success? ==> r.value.0 == Bucketize(Compacted(shard, source))
    ensures r.Success? ==> r.value.1 == if |source| == 0 then 0 else |source| - 1
  {
    var orderedSource: Buckets := map[];
    var quant := 0;
    var i := 0;
    while i < |source|
      invariant 0 <= i <= |source|
      invariant AllTitled(source[..i])
      invariant orderedSource == Bucketize(Compacted(shard, source[..i]))
      invariant quant == if i == 0 then 0 else i - 1
    {
      quant := i;
      var entry := source[i];
      var data := entry.data;
      var expected := ToFilename(shard, data.title);
      if expected.Failure? {
        ToFilenameSpec(shard, data.title);
        assert !AllTitled(source) by { assert source[i] == entry; }
        return Failure(expected.error);
      }
      if data.filename == Some(expected.value) {
        data := data.(filename := None);
      }
      var value := entry.(data := data);
      CompactedSnoc(shard, source, i);
      assert value == source[i].(data := Compact(shard, source[i].data).value);
      BucketizeSnoc(Compacted(shard, source[..i]), value);
      orderedSource := Push(orderedSource, value);
      i := i + 1;
    }
    assert source[..i] == source;
    r := Success((orderedSource, quant));
  }

  /** One more titled entry extends the compacted prefix by its compacted record. */
  lemma CompactedSnoc(shard: Shard, source: seq<Entry>, i: nat)
    requires i < |source| && AllTitled(source[..i]) && |source[i].data.title| > 0
    ensures AllTitled(source[..i + 1])
    ensures Compacted(shard, source[..i + 1]) == Compacted(shard, source[..i]) + [source[i].(data := Compact(shard, source[i].data).value)]
  {
    assert source[..i + 1] == source[..i] + [source[i]];
  }

  lemma BucketizeSnoc(es: seq<Entry>, e: Entry)
    ensures Bucketize(es + [e]) == Push(Bucketize(es), e)
  {
    assert (es + [e])[..|es|] == es;
  }

  /** The entries of the buckets `ks`, bucket after bucket. */
  function Concat(ks: seq<int>, b: Buckets): seq<Entry>
    requires forall i :: 0 <= i < |ks| ==> ks[i] in b
  {
    if |ks| == 0 then [] else b[ks[0]] + Concat(ks[1..], b)
  }

  /** `gen_ordered`: the buckets by descending score. */
  function GenOrdered(b: Buckets): seq<Entry>
  {
    Concat(Descending(b.Keys), b)
  }

  // ---------------------------------------------------------------------
  // Filter
  // ---------------------------------------------------------------------

  lemma {:induction false} FilterAppend(a: seq<Entry>, c: seq<Entry>, score: int)
    ensures Filter(a + c, score) == Filter(a, score) + Filter(c, score)
    decreases |c|
  {
    if |c| == 0 {
      assert a + c == a;
    } else {
      var c' := c[..|c| - 1];
      assert (a + c)[..|a + c| - 1] == a + c';
      FilterAppend(a, c', score);
    }
  }

  /** Within a bucket, every entry has the bucket's score. */
  lemma {:induction false} FilterUniform(xs: seq<Entry>, k: int, score: int)
    requires forall i :: 0 <= i < |xs| ==> xs[i].score == k
    ensures Filter(xs, score) == if k == score then xs else []
    decreases |xs|
  {
    if |xs| > 0 {
      FilterUniform(xs[..|xs| - 1], k, score);
      assert xs == xs[..|xs| - 1] + [xs[|xs| - 1]];
    }
  }

  lemma {:induction false} FilterCount(es: seq<Entry>, score: int, e: Entry)
    ensures multiset(Filter(es, score))[e] == if e.score == score then multiset(es)[e] else 0
    decreases |es|
  {
    if |es| > 0 {
      FilterCount(es[..|es| - 1], score, e);
      assert es == es[..|es| - 1] + [es[|es| - 1]];
    }
  }

  /** A score that no entry has filters to nothing. */
  lemma {:induction false} FilterAbsent(es: seq<Entry>, score: int)
    requires forall i :: 0 <= i < |es| ==> es[i].score != score
    ensures Filter(es, score) == []
    decreases |es|
  {
    if |es| > 0 {
      FilterAbsent(es[..|es| - 1], score);
    }
  }

  /** Bucket `s` exists exactly when some entry has score `s`, and holds those entries in order. */
  lemma {:induction false} BucketizeAt(es: seq<Entry>, s: int)
    ensures s in Bucketize(es) <==> exists i :: 0 <= i < |es| && es[i].score == s
    ensures s in Bucketize(es) ==> Bucketize(es)[s] == Filter(es, s)
    decreases |es|
  {
    if |es| > 0 {
      var init, last := es[..|es| - 1], es[|es| - 1];
      BucketizeAt(init, s);
      if s !in Bucketize(init) {
        FilterAbsent(init, s);
      }
      if s != last.score && s in Bucketize(es) {
        var i :| 0 <= i < |init| && init[i].score == s;
        assert es[i].score == s;
      }
      if exists i :: 0 <= i < |es| && es[i].score == s {
        var i :| 0 <= i < |es| && es[i].score == s;
        if i < |init| {
          assert init[i].score == s;
        }
      }
    }
  }

  /** Every entry of bucket `k` has score `k`. */
  lemma BucketizeUniform(es: seq<Entry>, k: int)
    requires k in Bucketize(es)
    ensures forall i :: 0 <= i < |Bucketize(es)[k]| ==> Bucketize(es)[k][i].score == k
  {
    BucketizeAt(es, k);
  }

  // ---------------------------------------------------------------------
  // Concat over distinct, uniform buckets
  // ---------------------------------------------------------------------

  /** Each bucket holds only entries of its own score. */
  predicate Uniform(b: Buckets)
  {
    forall k, i :: k in b && 0 <= i < |b[k]| ==> b[k][i].score == k
  }

  lemma {:induction false} ConcatCount(ks: seq<int>, b: Buckets, e: Entry)
    requires forall i :: 0 <= i < |ks| ==> ks[i] in b
    requires forall i, j :: 0 <= i < j < |ks| ==> ks[i] != ks[j]
    requires Uniform(b)
    ensures multiset(Concat(ks, b))[e] == if e.score in ks then multiset(b[e.score])[e] else 0
  {
    if |ks| > 0 {
      var k := ks[0];
      ConcatCount(ks[1..], b, e);
      assert k !in ks[1..];
      assert e.score in ks <==> e.score == k || e.score in ks[1..];
    }
  }

  lemma {:induction false} ConcatFilter(ks: seq<int>, b: Buckets, score: int)
    requires forall i :: 0 <= i < |ks| ==> ks[i] in b
    requires forall i, j :: 0 <= i < j < |ks| ==> ks[i] != ks[j]
    requires Uniform(b)
    ensures Filter(Concat(ks, b), score) == if score in ks then b[score] else []
  {
    if |ks| > 0 {
      var k := ks[0];
      ConcatFilter(ks[1..], b, score);
      FilterAppend(b[k], Concat(ks[1..], b), score);
      FilterUniform(b[k], k, score);
      assert k !in ks[1..];
      assert score in ks <==> score == k || score in ks[1..];
    }
  }

  lemma {:induction false} ConcatScoreIn(ks: seq<int>, b: Buckets, i: nat)
    requires forall i :: 0 <= i < |ks| ==> ks[i] in b
    requires Uniform(b) && i < |Concat(ks, b)|
    ensures Concat(ks, b)[i].score in ks
  {
    var k := ks[0];
    if i >= |b[k]| {
      ConcatScoreIn(ks[1..], b, i - |b[k]|);
    }
  }

  /** Scores never increase from one entry to a later one. */
  predicate NonIncreasing(es: seq<Entry>)
  {
    forall i, j :: 0 <= i < j < |es| ==> es[i].score >= es[j].score
  }

  lemma {:induction false} ConcatNonIncreasing(ks: seq<int>, b: Buckets)
    requires forall i :: 0 <= i < |ks| ==> ks[i] in b
    requires forall i, j :: 0 <= i < j < |ks| ==> ks[i] > ks[j]
    requires Uniform(b)
    ensures NonIncreasing(Concat(ks, b))
  {
    if |ks| > 0 {
      var k := ks[0];
      var head, rest := b[k], Concat(ks[1..], b);
      ConcatNonIncreasing(ks[1..], b);
      forall j | 0 <= j < |rest| ensures rest[j].score < k {
        ConcatScoreIn(ks[1..], b, j);
      }
      var all := head + rest;
      forall x, y | 0 <= x < y < |all| ensures all[x].score >= all[y].score {
        if y < |head| {
          assert all[x] == head[x] && all[y] == head[y];
        } else if x >= |head| {
          assert all[x] == rest[x - |head|] && all[y] == rest[y - |head|];
        } else {
          assert all[x] == head[x] && all[y] == rest[y - |head|];
        }
      }
    }
  }

  // ---------------------------------------------------------------------
  // gen_ordered(order_source(source))
  // ---------------------------------------------------------------------

  lemma BucketsUniform(es: seq<Entry>)
    ensures Uniform(Bucketize(es))
  {
    forall k, i | k in Bucketize(es) && 0 <= i < |Bucketize(es)[k]| ensures Bucketize(es)[k][i].score == k {
      BucketizeUniform(es, k);
    }
  }

  /** What `gen_ordered` emits is a permutation of the entries. */
  lemma OrderedPermutation(es: seq<Entry>)
    ensures multiset(GenOrdered(Bucketize(es))) == multiset(es)
  {
    var b := Bucketize(es);
    var ks := Descending(b.Keys);
    BucketsUniform(es);
    forall e ensures multiset(GenOrdered(b))[e] == multiset(es)[e] {
      ConcatCount(ks, b, e);
      BucketizeAt(es, e.score);
      if e.score in b {
        FilterCount(es, e.score, e);
      }
    }
  }

  /** Scores come out in non-increasing order. */
  lemma OrderedScores(es: seq<Entry>)
    ensures NonIncreasing(GenOrdered(Bucketize(es)))
  {
    BucketsUniform(es);
    ConcatNonIncreasing(Descending(Bucketize(es).Keys), Bucketize(es));
  }

  /** Entries with equal scores keep their relative order: the order is stable. */
  lemma OrderedStable(es: seq<Entry>, score: int)
    ensures Filter(GenOrdered(Bucketize(es)), score) == Filter(es, score)
  {
    var b := Bucketize(es);
    BucketsUniform(es);
    ConcatFilter(Descending(b.Keys), b, score);
    BucketizeAt(es, score);
    if score !in b {
      FilterAbsent(es, score);
    }
  }
}
