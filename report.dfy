/**
 * The two ends of docgen's run around the custom docs (src/index.js): the glob
 * patterns built from the source directories (lines 12-13) and the summary
 * counts reported once the custom docs are resolved (lines 68-69).
 */
module Report {
  import opened Wrappers
  import opened Manifest
  import opened Resolver

  // Lines 12-13: every source directory contributes the pattern of its own
  // scripts and then the pattern of every script below it, in the order the
  // directories are listed.
  method SourceGlobs(sources: seq<string>) returns (files: seq<string>)
    ensures |files| == 2 * |sources|
    ensures forall i :: 0 <= i < |sources| ==>
              files[2 * i] == sources[i] + "/*.js" && files[2 * i + 1] == sources[i] + "/**/*.js"
  {
    files := [];
    var i := 0;
    while i < |sources|
      invariant 0 <= i <= |sources|
      invariant |files| == 2 * i
      invariant forall m :: 0 <= m < i ==>
                  files[2 * m] == sources[m] + "/*.js" && files[2 * m + 1] == sources[m] + "/**/*.js"
    {
      var dir := sources[i];
      files := files + [dir + "/*.js", dir + "/**/*.js"];
      i := i + 1;
    }
  }

  // ----- Sums over the keys of a mapping

  /** The sum of `f` over a finite set of keys, in no particular order. */
  ghost function SumOver(keys: set<string>, f: string -> nat): nat
    decreases |keys|
  {
    if keys == {} then 0 else var k :| k in keys; f(k) + SumOver(keys - {k}, f)
  }

  /** Any key may be taken out first: the sum does not depend on the order of the keys. */
  lemma {:induction false} SumOverRemove(keys: set<string>, f: string -> nat, k: string)
    requires k in keys
    ensures SumOver(keys, f) == f(k) + SumOver(keys - {k}, f)
    decreases |keys|
  {
    var k' :| k' in keys && SumOver(keys, f) == f(k') + SumOver(keys - {k'}, f);
    if k' != k {
      SumOverRemove(keys - {k'}, f, k);
      SumOverRemove(keys - {k}, f, k');
      assert keys - {k'} - {k} == keys - {k} - {k'};
    }
  }

  /** A sum of pointwise sums is the sum of the two sums. */
  lemma {:induction false} SumOverAdd(keys: set<string>, f: string -> nat, g: string -> nat, h: string -> nat)
    requires forall k :: k in keys ==> h(k) == f(k) + g(k)
    ensures SumOver(keys, h) == SumOver(keys, f) + SumOver(keys, g)
    decreases |keys|
  {
    if keys != {} {
      var k :| k in keys;
      SumOverRemove(keys, f, k);
      SumOverRemove(keys, g, k);
      SumOverRemove(keys, h, k);
      SumOverAdd(keys - {k}, f, g, h);
    }
  }

  /** A function that is zero on every key sums to zero. */
  lemma {:induction false} SumOverZero(keys: set<string>, f: string -> nat)
    requires forall k :: k in keys ==> f(k) == 0
    ensures SumOver(keys, f) == 0
    decreases |keys|
  {
    if keys != {} {
      var k :| k in keys;
      SumOverRemove(keys, f, k);
      SumOverZero(keys - {k}, f);
    }
  }

  /** A function that is one on the key `x` and zero on the others sums to one. */
  lemma SumOverPoint(keys: set<string>, f: string -> nat, x: string)
    requires x in keys && f(x) == 1
    requires forall k :: k in keys && k != x ==> f(k) == 0
    ensures SumOver(keys, f) == 1
  {
    SumOverRemove(keys, f, x);
    SumOverZero(keys - {x}, f);
  }

  // ----- The summary of lines 68-69

  /** `fileCount` and `categoryCount`. */
  datatype Counts = Counts(files: nat, categories: nat)

  /** The list length of one key of `custom`, the summand of line 68's reduce. */
  function LengthAt(custom: Custom): string -> nat
  {
    k => if k in custom then |custom[k]| else 0
  }

  /** Line 68: the sum of the lengths of all lists. */
  ghost function FileCount(custom: Custom): nat
  {
    SumOver(custom.Keys, LengthAt(custom))
  }

  /**
   * Lines 68-69 as written: `Object.keys(custom)` throws a TypeError when no
   * definitions file is configured, because `custom` is then `null`.
   */
  ghost function SummaryAsWritten(custom: Option<Custom>): (r: Result<Counts, Error>)
    ensures r.Failure? <==> custom.None?
    ensures r.Failure? ==> r.error == NullCustomDocs
    ensures r.Success? ==> r.value.categories == |custom.value.Keys|
  {
    match custom
    case None => Failure(NullCustomDocs)
    case Some(m) => Success(Counts(FileCount(m), |m.Keys|))
  }

  /** Lines 68-69 as intended: absent custom docs count as an empty mapping. */
  ghost function Summary(custom: Option<Custom>): (c: Counts)
    ensures custom.Some? ==> SummaryAsWritten(custom) == Success(c)
  {
    match custom
    case None => Counts(0, 0)
    case Some(m) => Counts(FileCount(m), |m.Keys|)
  }

  /** The TypeError: a run without a definitions file fails at line 68 and never reaches the output. */
  lemma SummaryAsWrittenRejectsAbsent()
    ensures SummaryAsWritten(None) == Failure(NullCustomDocs)
  {
  }

  /** As intended, a run without a definitions file reports what an empty mapping reports. */
  lemma SummaryOfAbsent()
    ensures Summary(None) == Summary(Some(map[])) == Counts(0, 0)
  {
    assert FileCount(map[]) == 0;
  }

  /** A mapping with all lists empty holds no files, however many categories it has. */
  lemma SummaryOfEmptyLists(custom: Custom)
    requires forall k :: k in custom ==> custom[k] == []
    ensures Summary(Some(custom)) == Counts(0, |custom.Keys|)
  {
    SumOverZero(custom.Keys, LengthAt(custom));
  }

  /** The length of category `k`'s list once the reads `done` have settled. */
  function BucketLength(done: seq<Pending>, fs: Files): string -> nat
  {
    k => |Bucket(k, done, fs)|
  }

  /** How many records the read `p` lands in category `k`. */
  function LandingLength(p: Pending, fs: Files): string -> nat
  {
    k => |Landing(k, fs)(p)|
  }

  /** A successful read lands one record in its own category and none elsewhere. */
  lemma LandingSize(k: string, p: Pending, fs: Files)
    requires p.fullPath in fs
    ensures LandingLength(p, fs)(k) == if k == p.catID then 1 else 0
  {
    assert LandingLength(p, fs)(k) == |Landing(k, fs)(p)|;
  }

  /** One more settled read adds what it lands to each list's length. */
  lemma BucketLengthStep(k: string, done: seq<Pending>, fs: Files)
    requires done != []
    ensures BucketLength(done, fs)(k)
            == BucketLength(done[..|done| - 1], fs)(k) + LandingLength(done[|done| - 1], fs)(k)
  {
    BucketStep(k, done, |done| - 1, fs);
    assert done[..|done|] == done;
  }

  /** Sums of functions that agree on the keys agree. */
  lemma SumOverSame(keys: set<string>, f: string -> nat, g: string -> nat)
    requires forall k :: k in keys ==> f(k) == g(k)
    ensures SumOver(keys, f) == SumOver(keys, g)
  {
    var zero := (k: string) => 0;
    SumOverZero(keys, zero);
    SumOverAdd(keys, f, zero, g);
  }

  /**
   * Summing the lists of every key: each successful read of `done` lands in
   * exactly one list, so the lists of the keys of `keys` hold `|done|` records.
   */
  lemma {:induction false} BucketsTotal(keys: set<string>, done: seq<Pending>, fs: Files)
    requires forall p :: p in done ==> p.catID in keys && p.fullPath in fs
    ensures SumOver(keys, BucketLength(done, fs)) == |done|
  {
    if done == [] {
      SumOverZero(keys, BucketLength(done, fs));
    } else {
      var pre := done[..|done| - 1];
      var last := done[|done| - 1];
      assert forall p :: p in pre ==> p in done;
      BucketsTotal(keys, pre, fs);
      forall k | k in keys
        ensures BucketLength(done, fs)(k) == BucketLength(pre, fs)(k) + LandingLength(last, fs)(k)
      {
        BucketLengthStep(k, done, fs);
      }
      forall k | k in keys && k != last.catID ensures LandingLength(last, fs)(k) == 0 {
        LandingSize(k, last, fs);
      }
      LandingSize(last.catID, last, fs);
      SumOverPoint(keys, LandingLength(last, fs), last.catID);
      SumOverAdd(keys, BucketLength(pre, fs), LandingLength(last, fs), BucketLength(done, fs));
    }
  }

  /**
   * Lines 68-69 after a successful resolution: `fileCount` is the number of
   * file descriptors in the manifest and `categoryCount` the number of distinct
   * category keys, whatever the order the reads settled in.
   */
  lemma ResolvedCounts(defs: seq<CategoryDesc>, customDir: string, fs: Files, order: seq<nat>)
    requires IsPermutation(order, |ScheduledReads(defs, customDir)|)
    requires Resolved(defs, customDir, fs, order).Success?
    ensures Summary(Some(Resolved(defs, customDir, fs, order).value)) == Counts(TotalFiles(defs), |CategoryIds(defs)|)
  {
    var pending := ScheduledReads(defs, customDir);
    var done := Permute(pending, order);
    var m := Resolved(defs, customDir, fs, order).value;
    ScheduledReadsShape(defs, customDir);
    ResolvedAllOrNothing(defs, customDir, fs, order);
    ResolvedContents(defs, customDir, fs, order);
    PermuteIsPermutation(pending, order);
    assert |done| == |pending| by {
      assert |multiset(done)| == |multiset(pending)|;
    }
    assert forall p :: p in done ==> p in pending by {
      forall p | p in done ensures p in pending {
        assert p in multiset(done);
      }
    }
    BucketsTotal(m.Keys, done, fs);
    SumOverSame(m.Keys, LengthAt(m), BucketLength(done, fs));
  }

  /** No two categories of the manifest derive the same key. */
  predicate DistinctIds(defs: seq<CategoryDesc>)
  {
    forall i, j :: 0 <= i < j < |defs| ==> CategoryId(defs[i]) != CategoryId(defs[j])
  }

  /** A category repeating an earlier key makes the keys not distinct. */
  lemma DistinctIdsRepeat(defs: seq<CategoryDesc>)
    requires defs != [] && CategoryId(defs[|defs| - 1]) in CategoryIds(defs[..|defs| - 1])
    ensures !DistinctIds(defs)
  {
    var n := |defs| - 1;
    var pre := defs[..n];
    var i :| 0 <= i < |pre| && CategoryId(pre[i]) == CategoryId(defs[n]);
    assert pre[i] == defs[i];
  }

  /** A category with a new key keeps distinct keys distinct. */
  lemma DistinctIdsFresh(defs: seq<CategoryDesc>)
    requires defs != [] && CategoryId(defs[|defs| - 1]) !in CategoryIds(defs[..|defs| - 1])
    requires DistinctIds(defs[..|defs| - 1])
    ensures DistinctIds(defs)
  {
    var n := |defs| - 1;
    var pre := defs[..n];
    forall i, j | 0 <= i < j < |defs| ensures CategoryId(defs[i]) != CategoryId(defs[j]) {
      if j < n {
        assert defs[i] == pre[i] && defs[j] == pre[j];
      } else {
        FreshPair(defs, i);
      }
    }
  }

  /** A category whose key is new differs in key from every earlier one. */
  lemma FreshPair(defs: seq<CategoryDesc>, i: nat)
    requires i < |defs| - 1 && CategoryId(defs[|defs| - 1]) !in CategoryIds(defs[..|defs| - 1])
    ensures CategoryId(defs[i]) != CategoryId(defs[|defs| - 1])
  {
    var pre := defs[..|defs| - 1];
    assert defs[i] == pre[i];
    assert CategoryId(pre[i]) in CategoryIds(pre) by {
      assert 0 <= i < |pre| && CategoryId(pre[i]) == CategoryId(pre[i]);
    }
  }

  /** Distinct keys stay distinct without the last category. */
  lemma DistinctIdsPrefix(defs: seq<CategoryDesc>)
    requires defs != [] && DistinctIds(defs)
    ensures DistinctIds(defs[..|defs| - 1])
  {
    var pre := defs[..|defs| - 1];
    forall i, j | 0 <= i < j < |pre| ensures CategoryId(pre[i]) != CategoryId(pre[j]) {
      assert defs[i] == pre[i] && defs[j] == pre[j];
    }
  }

  /**
   * `categoryCount` never exceeds the number of categories in the manifest, and
   * equals it exactly when no two categories derive the same key.
   */
  lemma {:induction false} CategoryCountBound(defs: seq<CategoryDesc>)
    ensures |CategoryIds(defs)| <= |defs|
    ensures |CategoryIds(defs)| == |defs| <==> DistinctIds(defs)
  {
    if defs != [] {
      var n := |defs| - 1;
      var pre := defs[..n];
      CategoryCountBound(pre);
      CategoryIdsSnoc(defs);
      if CategoryId(defs[n]) in CategoryIds(pre) {
        DistinctIdsRepeat(defs);
      } else {
        if DistinctIds(pre) {
          DistinctIdsFresh(defs);
        }
        if DistinctIds(defs) {
          DistinctIdsPrefix(defs);
        }
      }
    }
  }
}
