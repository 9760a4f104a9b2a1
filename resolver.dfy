/**
 * Resolving docgen's custom docs (src/index.js, lines 17-60). A synchronous
 * pass over the manifest creates every category key with an empty list and
 * launches one read per file descriptor; the reads then settle in an order the
 * environment chooses, each appending its record to its category's list, and
 * the first read to fail rejects the whole resolution.
 *
 * The completion order is an explicit parameter: a permutation of the indices
 * of the launched reads.
 */
module Resolver {
  import opened Wrappers
  import opened NodePath
  import opened Manifest

  /** The `custom` object: category key to the records loaded into it. */
  type Custom = map<string, seq<LoadedFile>>

  /** What `fs.readFile` can see: the text of every readable path. */
  type Files = map<string, string>

  /** One element of `filePromises`: the read of `fullPath` for `file`, in category `catID`. */
  datatype Pending = Pending(catID: string, file: FileDesc, fullPath: string)

  /** The keys assigned at line 41, one per descriptor, duplicates collapsing. */
  function CategoryIds(defs: seq<CategoryDesc>): set<string>
  {
    set i | 0 <= i < |defs| :: CategoryId(defs[i])
  }

  /** The keys of a manifest are those of all its categories but the last, and the key of the last. */
  lemma CategoryIdsSnoc(defs: seq<CategoryDesc>)
    requires defs != []
    ensures CategoryIds(defs) == CategoryIds(defs[..|defs| - 1]) + {CategoryId(defs[|defs| - 1])}
  {
    var pre := defs[..|defs| - 1];
    forall k | k in CategoryIds(defs) ensures k in CategoryIds(pre) + {CategoryId(defs[|defs| - 1])} {
      var i :| 0 <= i < |defs| && CategoryId(defs[i]) == k;
      if i < |pre| {
        assert pre[i] == defs[i];
      }
    }
    forall k | k in CategoryIds(pre) ensures k in CategoryIds(defs) {
      var i :| 0 <= i < |pre| && CategoryId(pre[i]) == k;
      assert pre[i] == defs[i];
    }
  }

  /** The `custom` object when the loop of lines 37-57 has finished: every key maps to `[]`. */
  function EmptyCategories(defs: seq<CategoryDesc>): Custom
  {
    map k | k in CategoryIds(defs) :: []
  }

  /** The reads the inner loop (lines 44-56) launches for one category. */
  function ReadsOf(customDir: string, c: CategoryDesc): seq<Pending>
  {
    seq(|c.files|, j requires 0 <= j < |c.files| =>
      Pending(CategoryId(c), c.files[j], Join(CategoryDir(customDir, c), c.files[j].path)))
  }

  /** All reads launched by lines 37-57, in launch order. */
  function ScheduledReads(defs: seq<CategoryDesc>, customDir: string): seq<Pending>
  {
    if defs == [] then []
    else ScheduledReads(defs[..|defs| - 1], customDir) + ReadsOf(customDir, defs[|defs| - 1])
  }

  /** The paths of a sequence of reads. */
  function ReadPaths(launched: seq<Pending>): seq<string>
  {
    seq(|launched|, i requires 0 <= i < |launched| => launched[i].fullPath)
  }

  /** The number of file descriptors in the manifest. */
  function TotalFiles(defs: seq<CategoryDesc>): nat
  {
    if defs == [] then 0 else TotalFiles(defs[..|defs| - 1]) + |defs[|defs| - 1].files|
  }

  /** One read per file descriptor is launched, and each one belongs to a key that exists. */
  lemma {:induction false} ScheduledReadsShape(defs: seq<CategoryDesc>, customDir: string)
    ensures |ScheduledReads(defs, customDir)| == TotalFiles(defs)
    ensures forall p :: p in ScheduledReads(defs, customDir) ==> p.catID in CategoryIds(defs)
  {
    if defs != [] {
      var pre := defs[..|defs| - 1];
      ScheduledReadsShape(pre, customDir);
      CategoryIdsSnoc(defs);
      forall p | p in ScheduledReads(defs, customDir)
        ensures p.catID in CategoryIds(defs)
      {
        if p !in ScheduledReads(pre, customDir) {
          assert p in ReadsOf(customDir, defs[|defs| - 1]);
        }
      }
    }
  }

  /** File `j` of category `i` is read from the category's directory, under the category's key. */
  lemma {:induction false} ScheduledReadOf(defs: seq<CategoryDesc>, customDir: string, i: nat, j: nat)
    requires i < |defs| && j < |defs[i].files|
    ensures Pending(CategoryId(defs[i]), defs[i].files[j], Join(CategoryDir(customDir, defs[i]), defs[i].files[j].path))
            in ScheduledReads(defs, customDir)
  {
    var pre := defs[..|defs| - 1];
    if i == |defs| - 1 {
      assert ReadsOf(customDir, defs[i])[j] in ReadsOf(customDir, defs[i]);
    } else {
      assert pre[i] == defs[i];
      ScheduledReadOf(pre, customDir, i, j);
    }
  }

  // ----- Completion orders

  /** `[0, 1, ..., n - 1]`. */
  function Iota(n: nat): (s: seq<nat>)
    ensures |s| == n && forall i :: 0 <= i < n ==> s[i] == i
  {
    seq(n, i requires 0 <= i < n => i)
  }

  /**
   * `order` lists each of the indices `0 .. n - 1` exactly once: the order in
   * which `n` launched reads settle. (The bound on each element follows from the
   * multiset equation; it is spelled out so that indexing with it is checked.)
   */
  predicate IsPermutation(order: seq<nat>, n: nat)
  {
    (forall j :: 0 <= j < |order| ==> order[j] < n) && multiset(order) == multiset(Iota(n))
  }

  /** The reads of `xs` in the order `order` settles them. */
  function Permute<T>(xs: seq<T>, order: seq<nat>): (ys: seq<T>)
    requires forall j :: 0 <= j < |order| ==> order[j] < |xs|
    ensures |ys| == |order|
  {
    seq(|order|, j requires 0 <= j < |order| => xs[order[j]])
  }

  lemma PermuteAppend<T>(xs: seq<T>, a: seq<nat>, b: seq<nat>)
    requires forall j :: 0 <= j < |a| ==> a[j] < |xs|
    requires forall j :: 0 <= j < |b| ==> b[j] < |xs|
    ensures Permute(xs, a + b) == Permute(xs, a) + Permute(xs, b)
  {
    var ab := a + b;
    assert forall j :: 0 <= j < |ab| ==> ab[j] < |xs|;
    assert forall j :: 0 <= j < |ab| ==> Permute(xs, ab)[j] == (Permute(xs, a) + Permute(xs, b))[j];
  }

  lemma MultisetCancel<T>(a: multiset<T>, b: multiset<T>, x: T)
    requires a + multiset{x} == b + multiset{x}
    ensures a == b
  {
    assert a == (a + multiset{x}) - multiset{x};
    assert b == (b + multiset{x}) - multiset{x};
  }

  lemma MultisetRemoveAt<T>(b: seq<T>, m: nat)
    requires m < |b|
    ensures multiset(b) == multiset(b[..m] + b[m + 1..]) + multiset{b[m]}
  {
    assert b == b[..m] + [b[m]] + b[m + 1..];
  }

  /** Orders that list the same indices, with the same multiplicities, list the same elements. */
  lemma {:induction false} PermuteRespectsMultiset<T>(xs: seq<T>, o1: seq<nat>, o2: seq<nat>)
    requires forall j :: 0 <= j < |o1| ==> o1[j] < |xs|
    requires forall j :: 0 <= j < |o2| ==> o2[j] < |xs|
    requires multiset(o1) == multiset(o2)
    ensures multiset(Permute(xs, o1)) == multiset(Permute(xs, o2))
    decreases |o1|
  {
    if |o1| == 0 {
      assert |o2| == |multiset(o2)| == 0;
    } else {
      var n := |o1| - 1;
      var x := o1[n];
      var o1' := o1[..n];
      assert o1 == o1' + [x];
      assert x in multiset(o2);
      var m :| 0 <= m < |o2| && o2[m] == x;
      var o2' := o2[..m] + o2[m + 1..];
      MultisetRemoveAt(o2, m);
      MultisetCancel(multiset(o1'), multiset(o2'), x);
      forall j | 0 <= j < |o2'| ensures o2'[j] < |xs| {
        if j < m { assert o2'[j] == o2[j]; } else { assert o2'[j] == o2[j + 1]; }
      }
      PermuteRespectsMultiset(xs, o1', o2');
      PermuteAppend(xs, o1', [x]);
      PermuteRemoveAt(xs, o2, m);
      assert Permute(xs, [x]) == [xs[x]];
    }
  }

  /** Taking one index out of an order takes its element out of the permuted elements. */
  lemma PermuteRemoveAt<T>(xs: seq<T>, o: seq<nat>, m: nat)
    requires forall j :: 0 <= j < |o| ==> o[j] < |xs|
    requires m < |o|
    ensures multiset(Permute(xs, o)) == multiset(Permute(xs, o[..m] + o[m + 1..])) + multiset{xs[o[m]]}
  {
    assert o == o[..m] + [o[m]] + o[m + 1..];
    PermuteAppend(xs, o[..m] + [o[m]], o[m + 1..]);
    PermuteAppend(xs, o[..m], [o[m]]);
    PermuteAppend(xs, o[..m], o[m + 1..]);
  }

  /** Settling in any permutation delivers every launched read exactly once. */
  lemma PermuteIsPermutation<T>(xs: seq<T>, order: seq<nat>)
    requires IsPermutation(order, |xs|)
    ensures multiset(Permute(xs, order)) == multiset(xs)
  {
    var id := Iota(|xs|);
    PermuteRespectsMultiset(xs, order, id);
    assert Permute(xs, id) == xs;
  }

  // ----- Settling the reads (lines 45-55 and 59)

  /** `xs.flatMap(f)`, built from the left as the settling loop builds it. */
  function FlatMap<T, U>(f: T -> seq<U>, xs: seq<T>): seq<U>
  {
    if xs == [] then [] else FlatMap(f, xs[..|xs| - 1]) + f(xs[|xs| - 1])
  }

  lemma {:induction false} FlatMapAppend<T, U>(f: T -> seq<U>, a: seq<T>, b: seq<T>)
    ensures FlatMap(f, a + b) == FlatMap(f, a) + FlatMap(f, b)
    decreases |b|
  {
    if b == [] {
      assert a + b == a;
    } else {
      assert (a + b)[..|a + b| - 1] == a + b[..|b| - 1];
      FlatMapAppend(f, a, b[..|b| - 1]);
    }
  }

  /** Reordering the input of a flat map only reorders its output. */
  lemma {:induction false} FlatMapRespectsMultiset<T, U>(f: T -> seq<U>, a: seq<T>, b: seq<T>)
    requires multiset(a) == multiset(b)
    ensures multiset(FlatMap(f, a)) == multiset(FlatMap(f, b))
    decreases |a|
  {
    if |a| == 0 {
      assert |b| == |multiset(b)| == 0;
    } else {
      var n := |a| - 1;
      var x := a[n];
      var a' := a[..n];
      assert a == a' + [x];
      assert x in multiset(b);
      var m :| 0 <= m < |b| && b[m] == x;
      var b' := b[..m] + b[m + 1..];
      MultisetRemoveAt(b, m);
      MultisetCancel(multiset(a'), multiset(b'), x);
      FlatMapRespectsMultiset(f, a', b');
      assert b == b[..m] + [x] + b[m + 1..];
      FlatMapAppend(f, a', [x]);
      FlatMapAppend(f, b[..m] + [x], b[m + 1..]);
      FlatMapAppend(f, b[..m], [x]);
      FlatMapAppend(f, b[..m], b[m + 1..]);
    }
  }

  lemma {:induction false} FlatMapMembers<T, U>(f: T -> seq<U>, xs: seq<T>, y: U)
    ensures y in FlatMap(f, xs) <==> exists x :: x in xs && y in f(x)
  {
    if xs != [] {
      var pre := xs[..|xs| - 1];
      FlatMapMembers(f, pre, y);
      assert xs == pre + [xs[|xs| - 1]];
    }
  }

  /** What one settled read appends to the list of category `k`. */
  function Landing(k: string, fs: Files): Pending -> seq<LoadedFile>
  {
    (p: Pending) => if p.catID == k && p.fullPath in fs then [Record(p.file, fs[p.fullPath])] else []
  }

  /** The records that category `k` receives from the settled reads `done`, in settling order. */
  function Bucket(k: string, done: seq<Pending>, fs: Files): seq<LoadedFile>
  {
    FlatMap(Landing(k, fs), done)
  }

  /** A category's records, as a multiset, do not depend on the order the reads settle in. */
  lemma BucketRespectsMultiset(k: string, a: seq<Pending>, b: seq<Pending>, fs: Files)
    requires multiset(a) == multiset(b)
    ensures multiset(Bucket(k, a, fs)) == multiset(Bucket(k, b, fs))
  {
    FlatMapRespectsMultiset(Landing(k, fs), a, b);
  }

  /** Category `k` holds exactly the records of the successful reads that belong to it. */
  lemma BucketMembers(k: string, done: seq<Pending>, fs: Files, x: LoadedFile)
    ensures x in Bucket(k, done, fs)
        <==> exists p :: p in done && p.catID == k && p.fullPath in fs && x == Record(p.file, fs[p.fullPath])
  {
    FlatMapMembers(Landing(k, fs), done, x);
  }

  /** The index of the first read, in settling order, that fails; the one `Promise.all` rejects with. */
  function FirstMissing(done: seq<Pending>, fs: Files): (r: Option<nat>)
    ensures r.None? <==> forall i :: 0 <= i < |done| ==> done[i].fullPath in fs
    ensures r.Some? ==> r.value < |done| && done[r.value].fullPath !in fs
                        && forall i :: 0 <= i < r.value ==> done[i].fullPath in fs
  {
    if done == [] then None
    else if done[0].fullPath !in fs then Some(0)
    else match FirstMissing(done[1..], fs)
         case None => None
         case Some(i) => Some(i + 1)
  }

  /** The outcome once the reads have settled in the order `done`, starting from `custom`. */
  function Settled(custom: Custom, done: seq<Pending>, fs: Files): Result<Custom, Error>
  {
    match FirstMissing(done, fs)
    case Some(i) => Failure(ReadFailed(done[i].fullPath))
    case None => Success(map k | k in custom :: custom[k] + Bucket(k, done, fs))
  }

  /**
   * The resolved custom docs for the manifest `defs` when the reads settle in
   * `order`: either a map over exactly the derived category keys, or the
   * failure of a read whose path is missing.
   */
  function Resolved(defs: seq<CategoryDesc>, customDir: string, fs: Files, order: seq<nat>): (r: Result<Custom, Error>)
    requires IsPermutation(order, |ScheduledReads(defs, customDir)|)
    ensures r.Success? ==> r.value.Keys == CategoryIds(defs)
    ensures r.Failure? ==> r.error.ReadFailed? && r.error.path !in fs
  {
    Settled(EmptyCategories(defs), Permute(ScheduledReads(defs, customDir), order), fs)
  }

  /**
   * All or nothing, whatever the order: the resolution succeeds exactly when
   * every launched read can succeed, and otherwise fails with a path that
   * cannot be read.
   */
  lemma ResolvedAllOrNothing(defs: seq<CategoryDesc>, customDir: string, fs: Files, order: seq<nat>)
    requires IsPermutation(order, |ScheduledReads(defs, customDir)|)
    ensures Resolved(defs, customDir, fs, order).Success?
        <==> forall p :: p in ScheduledReads(defs, customDir) ==> p.fullPath in fs
    ensures Resolved(defs, customDir, fs, order).Failure? ==>
              exists p :: p in ScheduledReads(defs, customDir) && p.fullPath !in fs
                          && Resolved(defs, customDir, fs, order).error == ReadFailed(p.fullPath)
  {
    var pending := ScheduledReads(defs, customDir);
    var done := Permute(pending, order);
    PermuteIsPermutation(pending, order);
    assert forall p :: p in done <==> p in pending by {
      forall p ensures p in done <==> p in pending {
        assert p in done <==> p in multiset(done);
      }
    }
  }

  /**
   * On success the keys are exactly the derived category keys, present even
   * when a category has no files, and each category holds, in some order,
   * exactly the records of the files declared under its key.
   */
  lemma ResolvedContents(defs: seq<CategoryDesc>, customDir: string, fs: Files, order: seq<nat>)
    requires IsPermutation(order, |ScheduledReads(defs, customDir)|)
    requires Resolved(defs, customDir, fs, order).Success?
    ensures Resolved(defs, customDir, fs, order).value.Keys == CategoryIds(defs)
    ensures forall k :: k in CategoryIds(defs) ==>
              multiset(Resolved(defs, customDir, fs, order).value[k])
              == multiset(Bucket(k, ScheduledReads(defs, customDir), fs))
  {
    var pending := ScheduledReads(defs, customDir);
    var done := Permute(pending, order);
    PermuteIsPermutation(pending, order);
    forall k | k in CategoryIds(defs)
      ensures multiset(Resolved(defs, customDir, fs, order).value[k]) == multiset(Bucket(k, pending, fs))
    {
      BucketRespectsMultiset(k, done, pending, fs);
    }
  }

  /** Two completion orders agree on success, on the keys and on every category's records up to order. */
  lemma ResolvedOrderIndependent(defs: seq<CategoryDesc>, customDir: string, fs: Files, o1: seq<nat>, o2: seq<nat>)
    requires IsPermutation(o1, |ScheduledReads(defs, customDir)|)
    requires IsPermutation(o2, |ScheduledReads(defs, customDir)|)
    ensures Resolved(defs, customDir, fs, o1).Success? == Resolved(defs, customDir, fs, o2).Success?
    ensures Resolved(defs, customDir, fs, o1).Success? ==>
              var r1, r2 := Resolved(defs, customDir, fs, o1).value, Resolved(defs, customDir, fs, o2).value;
              r1.Keys == r2.Keys && forall k :: k in r1 ==> multiset(r1[k]) == multiset(r2[k])
  {
    ResolvedAllOrNothing(defs, customDir, fs, o1);
    ResolvedAllOrNothing(defs, customDir, fs, o2);
    if Resolved(defs, customDir, fs, o1).Success? {
      ResolvedContents(defs, customDir, fs, o1);
      ResolvedContents(defs, customDir, fs, o2);
    }
  }

  /** Settling in launch order is a completion order, and it leaves the reads as launched. */
  lemma PermuteInLaunchOrder<T>(xs: seq<T>)
    ensures IsPermutation(Iota(|xs|), |xs|)
    ensures Permute(xs, Iota(|xs|)) == xs
  {
  }

  /** When the reads happen to settle in launch order, each category lists its files in declaration order. */
  lemma ResolvedInLaunchOrder(defs: seq<CategoryDesc>, customDir: string, fs: Files)
    requires forall p :: p in ScheduledReads(defs, customDir) ==> p.fullPath in fs
    ensures IsPermutation(Iota(|ScheduledReads(defs, customDir)|), |ScheduledReads(defs, customDir)|)
    ensures Resolved(defs, customDir, fs, Iota(|ScheduledReads(defs, customDir)|))
            == Success(map k | k in CategoryIds(defs) :: Bucket(k, ScheduledReads(defs, customDir), fs))
  {
    var pending := ScheduledReads(defs, customDir);
    var empty := EmptyCategories(defs);
    PermuteInLaunchOrder(pending);
    assert FirstMissing(pending, fs).None?;
    SettledFrom(empty, CategoryIds(defs), pending, fs);
  }

  /** Settling into lists that all start empty leaves each category exactly its bucket. */
  lemma SettledFrom(empty: Custom, keys: set<string>, done: seq<Pending>, fs: Files)
    requires empty == map k | k in keys :: []
    requires FirstMissing(done, fs).None?
    ensures Settled(empty, done, fs) == Success(map k | k in keys :: Bucket(k, done, fs))
  {
    var m1 := map k | k in empty :: empty[k] + Bucket(k, done, fs);
    var m2 := map k | k in keys :: Bucket(k, done, fs);
    assert m1.Keys == m2.Keys;
    forall k | k in m1 ensures m1[k] == m2[k] {
      assert empty[k] == [];
    }
    assert m1 == m2;
  }

  /**
   * Every file descriptor lands in its category's list, also when several
   * descriptors share a key: the resets of line 41 all happen before any read settles.
   */
  lemma FileLands(defs: seq<CategoryDesc>, customDir: string, fs: Files, order: seq<nat>, i: nat, j: nat)
    requires IsPermutation(order, |ScheduledReads(defs, customDir)|)
    requires Resolved(defs, customDir, fs, order).Success?
    requires i < |defs| && j < |defs[i].files|
    ensures var path := Join(CategoryDir(customDir, defs[i]), defs[i].files[j].path);
            path in fs
            && Record(defs[i].files[j], fs[path]) in Resolved(defs, customDir, fs, order).value[CategoryId(defs[i])]
  {
    var pending := ScheduledReads(defs, customDir);
    var path := Join(CategoryDir(customDir, defs[i]), defs[i].files[j].path);
    var p := Pending(CategoryId(defs[i]), defs[i].files[j], path);
    ScheduledReadOf(defs, customDir, i, j);
    ResolvedAllOrNothing(defs, customDir, fs, order);
    var done := Permute(pending, order);
    PermuteIsPermutation(pending, order);
    assert p in multiset(done);
    BucketMembers(CategoryId(defs[i]), done, fs, Record(p.file, fs[path]));
  }

  /** The "Guides" manifest launches one read, of `docs/guides/intro.md`, under the key "guides". */
  lemma GuidesSchedule(c: CategoryDesc)
    requires c == CategoryDesc(None, None, "Guides", [FileDesc("intro.md", None, None, None)])
    ensures ScheduledReads([c], "docs") == [Pending("guides", c.files[0], "docs/guides/intro.md")]
    ensures CategoryIds([c]) == {"guides"}
  {
    GuidesScenario("docs", "");
    assert Join(Join("docs", "guides"), "intro.md") == "docs/guides/intro.md";
    assert [c][..0] == [];
  }

  /**
   * The manifest `[{name: "Guides", files: [{path: "intro.md"}]}]` beside a
   * readable `docs/guides/intro.md` resolves to the single key "guides" holding
   * the one record of that file.
   */
  lemma GuidesResolves(content: string)
    ensures var defs := [CategoryDesc(None, None, "Guides", [FileDesc("intro.md", None, None, None)])];
            IsPermutation([0], |ScheduledReads(defs, "docs")|)
            && Resolved(defs, "docs", map["docs/guides/intro.md" := content], [0])
               == Success(map["guides" := [LoadedFile("intro", None, "md", content)]])
  {
    var c := CategoryDesc(None, None, "Guides", [FileDesc("intro.md", None, None, None)]);
    var defs := [c];
    var fs := map["docs/guides/intro.md" := content];
    var p := Pending("guides", c.files[0], "docs/guides/intro.md");
    GuidesSchedule(c);
    assert Iota(1) == [0];
    ResolvedInLaunchOrder(defs, "docs", fs);
    GuidesBucket(c, p, fs, content);
    var m1 := map k | k in CategoryIds(defs) :: Bucket(k, ScheduledReads(defs, "docs"), fs);
    assert m1 == map["guides" := [LoadedFile("intro", None, "md", content)]];
  }

  /** The one read lands the record of `intro.md` in "guides". */
  lemma GuidesBucket(c: CategoryDesc, p: Pending, fs: Files, content: string)
    requires c == CategoryDesc(None, None, "Guides", [FileDesc("intro.md", None, None, None)])
    requires p == Pending("guides", c.files[0], "docs/guides/intro.md")
    requires fs == map["docs/guides/intro.md" := content]
    ensures Bucket("guides", [p], fs) == [LoadedFile("intro", None, "md", content)]
  {
    GuidesScenario("docs", content);
    assert [p][..0] == [];
    assert Landing("guides", fs)(p) == [Record(p.file, content)];
    assert Bucket("guides", [p], fs) == FlatMap(Landing("guides", fs), []) + Landing("guides", fs)(p);
  }

  // ----- The imperative code

  /** What one more iteration of the outer loop adds to the keys and to the launched reads. */
  lemma ScheduleStep(defs: seq<CategoryDesc>, customDir: string, i: nat)
    requires i < |defs|
    ensures EmptyCategories(defs[..i + 1]) == EmptyCategories(defs[..i])[CategoryId(defs[i]) := []]
    ensures ScheduledReads(defs[..i + 1], customDir) == ScheduledReads(defs[..i], customDir) + ReadsOf(customDir, defs[i])
  {
    assert defs[..i + 1][..i] == defs[..i];
    CategoryIdsSnoc(defs[..i + 1]);
  }

  /**
   * The synchronous loop of lines 37-57: assigns `custom[catID] = []` for every
   * category and pushes one read per file descriptor onto `filePromises`.
   */
  method Schedule(defs: seq<CategoryDesc>, customDir: string) returns (custom: Custom, filePromises: seq<Pending>)
    ensures custom == EmptyCategories(defs)
    ensures filePromises == ScheduledReads(defs, customDir)
  {
    custom := map[];
    filePromises := [];
    var i := 0;
    while i < |defs|
      invariant 0 <= i <= |defs|
      invariant custom == EmptyCategories(defs[..i])
      invariant filePromises == ScheduledReads(defs[..i], customDir)
    {
      var category := defs[i];
      var catID := CategoryId(category);
      var dir := CategoryDir(customDir, category);
      custom := custom[catID := []];
      ghost var launched := ReadsOf(customDir, category);
      ghost var before := filePromises;
      var j := 0;
      while j < |category.files|
        invariant 0 <= j <= |category.files|
        invariant filePromises == before + launched[..j]
      {
        var file := category.files[j];
        assert launched[..j + 1] == launched[..j] + [Pending(catID, file, Join(dir, file.path))];
        filePromises := filePromises + [Pending(catID, file, Join(dir, file.path))];
        j := j + 1;
      }
      assert launched[..j] == launched;
      ScheduleStep(defs, customDir, i);
      i := i + 1;
    }
    assert defs[..i] == defs;
  }

  /** One more settled read extends a category's list by what that read lands. */
  lemma BucketStep(k: string, done: seq<Pending>, j: nat, fs: Files)
    requires j < |done|
    ensures Bucket(k, done[..j + 1], fs) == Bucket(k, done[..j], fs) + Landing(k, fs)(done[j])
  {
    assert done[..j + 1][..j] == done[..j];
  }

  /** `acc` is `custom` with the records of the settled reads `done` appended, key by key. */
  predicate Landed(custom: Custom, acc: Custom, done: seq<Pending>, fs: Files)
  {
    acc.Keys == custom.Keys && forall k :: k in acc ==> acc[k] == custom[k] + Bucket(k, done, fs)
  }

  /** The list of one key after the read `done[j]` lands. */
  lemma LandKey(k: string, custom: Custom, acc: Custom, done: seq<Pending>, j: nat, p: Pending, record: LoadedFile, fs: Files)
    requires j < |done| && done[j] == p && p.fullPath in fs && k in acc && p.catID in acc
    requires record == Record(p.file, fs[p.fullPath])
    requires k in custom && acc[k] == custom[k] + Bucket(k, done[..j], fs)
    ensures acc[p.catID := acc[p.catID] + [record]][k] == custom[k] + Bucket(k, done[..j + 1], fs)
  {
    BucketStep(k, done, j, fs);
    if k == p.catID {
      assert Landing(k, fs)(p) == [record];
    } else {
      assert Landing(k, fs)(p) == [];
    }
  }

  /** Appending the record of the settled read `done[j]` keeps every list equal to its bucket. */
  lemma LandStep(custom: Custom, acc: Custom, done: seq<Pending>, j: nat, p: Pending, record: LoadedFile, fs: Files)
    requires j < |done| && done[j] == p && p.fullPath in fs && p.catID in acc
    requires record == Record(p.file, fs[p.fullPath])
    requires Landed(custom, acc, done[..j], fs)
    ensures Landed(custom, acc[p.catID := acc[p.catID] + [record]], done[..j + 1], fs)
  {
    var next := acc[p.catID := acc[p.catID] + [record]];
    assert next.Keys == custom.Keys;
    forall k | k in next
      ensures next[k] == custom[k] + Bucket(k, done[..j + 1], fs)
    {
      LandKey(k, custom, acc, done, j, p, record, fs);
    }
  }

  /** Every read of `done` finds its file. */
  predicate AllReadable(done: seq<Pending>, fs: Files)
  {
    forall i :: 0 <= i < |done| ==> done[i].fullPath in fs
  }

  /** One successful iteration of the settling loop keeps both of its invariants. */
  lemma SettleStep(custom: Custom, acc: Custom, done: seq<Pending>, j: nat, p: Pending, record: LoadedFile, fs: Files)
    requires j < |done| && done[j] == p && p.fullPath in fs && p.catID in acc
    requires record == Record(p.file, fs[p.fullPath])
    requires AllReadable(done[..j], fs) && Landed(custom, acc, done[..j], fs)
    ensures AllReadable(done[..j + 1], fs)
    ensures Landed(custom, acc[p.catID := acc[p.catID] + [record]], done[..j + 1], fs)
  {
    ReadableStep(done, j, fs);
    LandStep(custom, acc, done, j, p, record, fs);
  }

  /** One more successful read keeps every settled read readable. */
  lemma ReadableStep(done: seq<Pending>, j: nat, fs: Files)
    requires j < |done| && done[j].fullPath in fs && AllReadable(done[..j], fs)
    ensures AllReadable(done[..j + 1], fs)
  {
    var pre, next := done[..j], done[..j + 1];
    assert forall i :: 0 <= i < j ==> next[i] == pre[i];
    assert next[j] == done[j];
  }

  /** The first read to fail decides the outcome. */
  lemma SettledFailsAt(custom: Custom, done: seq<Pending>, fs: Files, j: nat)
    requires j < |done| && done[j].fullPath !in fs
    requires AllReadable(done[..j], fs)
    ensures Settled(custom, done, fs) == Failure(ReadFailed(done[j].fullPath))
  {
    assert forall i :: 0 <= i < j ==> done[..j][i] == done[i];
    assert FirstMissing(done, fs).Some?;
  }

  /** When no read fails, the loop's lists are the settled mapping. */
  lemma SettledSucceeds(custom: Custom, done: seq<Pending>, fs: Files, acc: Custom)
    requires AllReadable(done, fs)
    requires Landed(custom, acc, done, fs)
    ensures Settled(custom, done, fs) == Success(acc)
  {
    var m := map k | k in custom :: custom[k] + Bucket(k, done, fs);
    assert m == acc;
  }

  /**
   * `Promise.all(filePromises).then(() => custom)` (lines 45-55, 59), with the
   * reads settling in `order`: each success appends its record to its
   * category's list, and the first failure rejects the whole result.
   */
  method Settle(custom: Custom, filePromises: seq<Pending>, fs: Files, order: seq<nat>) returns (r: Result<Custom, Error>)
    requires IsPermutation(order, |filePromises|)
    requires forall p :: p in filePromises ==> p.catID in custom
    ensures r == Settled(custom, Permute(filePromises, order), fs)
  {
    ghost var done := Permute(filePromises, order);
    var acc := custom;
    var j := 0;
    assert done[..0] == [];
    assert Landed(custom, acc, done[..0], fs);
    while j < |order|
      invariant 0 <= j <= |order|
      invariant AllReadable(done[..j], fs)
      invariant Landed(custom, acc, done[..j], fs)
    {
      var p := filePromises[order[j]];
      assert p == done[j];
      if p.fullPath !in fs {
        SettledFailsAt(custom, done, fs, j);
        return Failure(ReadFailed(p.fullPath));
      }
      var record := Record(p.file, fs[p.fullPath]);
      SettleStep(custom, acc, done, j, p, record, fs);
      acc := acc[p.catID := acc[p.catID] + [record]];
      j := j + 1;
    }
    assert done[..j] == done;
    SettledSucceeds(custom, done, fs, acc);
    return Success(acc);
  }

  /** How many reads the fan-out launches for a definitions file, 0 when it stops before the fan-out. */
  function FanOutSize(defPath: string, customDir: string, parse: (Format, string) -> Option<seq<CategoryDesc>>, fs: Files): nat
  {
    match DefinitionsFormat(defPath)
    case Failure(_) => 0
    case Success(format) =>
      if defPath !in fs then 0
      else match parse(format, fs[defPath])
           case None => 0
           case Some(defs) => |ScheduledReads(defs, customDir)|
  }

  /**
   * Lines 17-60 when a definitions file `defPath` is configured: classify it,
   * read and parse it, schedule and settle the reads. `requested` lists the paths
   * handed to `fs.readFile`, in launch order. An unknown extension fails before
   * anything is read; after the fan-out every read has been launched, whatever fails.
   */
  method LoadCustomDocs(defPath: string, customDir: string, parse: (Format, string) -> Option<seq<CategoryDesc>>,
                        fs: Files, order: seq<nat>)
    returns (r: Result<Custom, Error>, requested: seq<string>)
    requires IsPermutation(order, FanOutSize(defPath, customDir, parse, fs))
    ensures DefinitionsFormat(defPath).Failure? ==> r == Failure(UnknownDefinitionsType) && requested == []
    ensures DefinitionsFormat(defPath).Success? && defPath !in fs ==>
              r == Failure(ReadFailed(defPath)) && requested == [defPath]
    ensures DefinitionsFormat(defPath).Success? && defPath in fs ==>
              match parse(DefinitionsFormat(defPath).value, fs[defPath])
              case None => r == Failure(ParseFailed) && requested == [defPath]
              case Some(defs) =>
                r == Resolved(defs, customDir, fs, order)
                && requested == [defPath] + ReadPaths(ScheduledReads(defs, customDir))
  {
    var format := DefinitionsFormat(defPath);
    if format.Failure? {
      return Failure(UnknownDefinitionsType), [];
    }
    requested := [defPath];
    if defPath !in fs {
      return Failure(ReadFailed(defPath)), requested;
    }
    var definitions := parse(format.value, fs[defPath]);
    if definitions.None? {
      return Failure(ParseFailed), requested;
    }
    var custom, filePromises := Schedule(definitions.value, customDir);
    requested := requested + ReadPaths(filePromises);
    ScheduledReadsShape(definitions.value, customDir);
    r := Settle(custom, filePromises, fs, order);
  }
}
