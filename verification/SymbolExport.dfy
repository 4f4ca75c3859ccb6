/** The striped symbol export of scripts/clangd_symbols.py: the merged index does
    not depend on the number of workers. */
module SymbolExport {
  import opened StableSort

  datatype Symbol = Symbol(file: string, line: int, qualified: string, rest: string)

  datatype Using = Using(file: string, line: int, scope: string, target: string)

  datatype Resolved = Resolved(using: Using, resolved: string)

  /** What one file contributes; `listed` says that clangd returned a symbol tree. */
  datatype FileExport = FileExport(listed: bool, namespaces: set<string>, symbols: seq<Symbol>, usings: seq<Using>)

  /** The namespace set stands for its sorted list. */
  datatype Index = Index(files: seq<string>, namespaces: set<string>, symbols: seq<Symbol>, usings: seq<Resolved>)

  /** Exporting a file labels everything with that file. */
  ghost predicate Labels(outline: string -> FileExport) {
    forall rel ::
      && (forall s :: s in outline(rel).symbols ==> s.file == rel)
      && (forall u :: u in outline(rel).usings ==> u.file == rel)
  }

  function FileKey(): string -> Key { f => Key(f, 0, "") }
  function SymbolKey(): Symbol -> Key { (s: Symbol) => Key(s.file, s.line, s.qualified) }
  function UsingKey(): Resolved -> Key { (r: Resolved) => Key(r.using.file, r.using.line, "") }

  // ---- concatenating per-file lists ----------------------------------------------------

  /** The items of the files in `order`, one file after the other. */
  function Gather<T>(order: seq<string>, items: string -> seq<T>): seq<T> {
    if order == [] then [] else Gather(order[..|order| - 1], items) + items(order[|order| - 1])
  }

  lemma {:induction false} GatherConcat<T>(a: seq<string>, b: seq<string>, items: string -> seq<T>)
    ensures Gather(a + b, items) == Gather(a, items) + Gather(b, items)
  {
    if b == [] {
      assert a + b == a;
    } else {
      GatherConcat(a, b[..|b| - 1], items);
      assert (a + b)[..|a + b| - 1] == a + b[..|b| - 1];
    }
  }

  /** Every item's key carries the file it came from. */
  ghost predicate KeyedByFile<T(!new)>(items: string -> seq<T>, key: T -> Key) {
    forall f, x :: x in items(f) ==> key(x).file == f
  }

  lemma {:induction false} OtherFile<T(!new)>(xs: seq<T>, key: T -> Key, k: Key)
    requires forall x :: x in xs ==> key(x).file != k.file
    ensures WithKey(xs, key, k) == []
  {
    if xs != [] {
      OtherFile(xs[1..], key, k);
    }
  }

  /** In an order that lists each file at most once, the items with a given key are
      those of that key's file, in that file's order. */
  lemma {:induction false} GatherByKey<T(!new)>(order: seq<string>, items: string -> seq<T>, key: T -> Key, k: Key)
    requires KeyedByFile(items, key) && multiset(order)[k.file] <= 1
    ensures WithKey(Gather(order, items), key, k)
            == if k.file in multiset(order) then WithKey(items(k.file), key, k) else []
  {
    if order != [] {
      var front, f := order[..|order| - 1], order[|order| - 1];
      assert order == front + [f];
      GatherByKey(front, items, key, k);
      WithKeyConcat(Gather(front, items), items(f), key, k);
      if f != k.file {
        OtherFile(items(f), key, k);
      }
    }
  }

  /** Any two orders of the same files give lists that agree key by key. */
  lemma OrdersAgree<T(!new)>(a: seq<string>, b: seq<string>, items: string -> seq<T>, key: T -> Key)
    requires KeyedByFile(items, key) && multiset(a) == multiset(b) && forall f :: multiset(a)[f] <= 1
    ensures SameByKey(Gather(a, items), Gather(b, items), key)
  {
    forall k
      ensures WithKey(Gather(a, items), key, k) == WithKey(Gather(b, items), key, k)
    {
      GatherByKey(a, items, key, k);
      GatherByKey(b, items, key, k);
    }
  }

  // ---- striping ---------------------------------------------------------------------------

  /** `files[i::jobs]`, restricted to the first `n` files. */
  function Stripe(files: seq<string>, n: nat, i: nat, jobs: nat): seq<string>
    requires n <= |files| && jobs > 0
  {
    if n == 0 then []
    else Stripe(files, n - 1, i, jobs) + (if (n - 1) % jobs == i then [files[n - 1]] else [])
  }

  /** The first `j` stripes, one after the other. */
  function Stripes(files: seq<string>, n: nat, jobs: nat, j: nat): seq<string>
    requires n <= |files| && jobs > 0
  {
    if j == 0 then [] else Stripes(files, n, jobs, j - 1) + Stripe(files, n, j - 1, jobs)
  }

  lemma StripeStep(files: seq<string>, n: nat, i: nat, jobs: nat)
    requires n < |files| && jobs > 0
    ensures Stripe(files, n + 1, i, jobs) == Stripe(files, n, i, jobs) + (if n % jobs == i then [files[n]] else [])
  {
  }

  lemma {:induction false} StripesGrow(files: seq<string>, n: nat, jobs: nat, j: nat)
    requires n < |files| && jobs > 0
    ensures multiset(Stripes(files, n + 1, jobs, j))
            == multiset(Stripes(files, n, jobs, j)) + (if n % jobs < j then multiset{files[n]} else multiset{})
  {
    hide Stripe;
    if j > 0 {
      StripesGrow(files, n, jobs, j - 1);
      StripeStep(files, n, j - 1, jobs);
      var r, f := n % jobs, files[n];
      var a, b := Stripes(files, n, jobs, j - 1), Stripe(files, n, j - 1, jobs);
      var a2, b2 := Stripes(files, n + 1, jobs, j - 1), Stripe(files, n + 1, j - 1, jobs);
      MultisetGrow(a, b, a2, b2, f, r < j - 1, r == j - 1);
    }
  }

  lemma MultisetGrow(a: seq<string>, b: seq<string>, a2: seq<string>, b2: seq<string>, f: string, p: bool, q: bool)
    requires !(p && q)
    requires multiset(a2) == multiset(a) + (if p then multiset{f} else multiset{})
    requires b2 == b + (if q then [f] else [])
    ensures multiset(a2 + b2) == multiset(a + b) + (if p || q then multiset{f} else multiset{})
  {
  }

  /** Striping puts every file in exactly one chunk. */
  lemma {:induction false} StripesPartition(files: seq<string>, n: nat, jobs: nat)
    requires n <= |files| && jobs > 0
    ensures multiset(Stripes(files, n, jobs, jobs)) == multiset(files[..n])
  {
    hide Stripe, Stripes;
    if n == 0 {
      NoStripes(files, jobs, jobs);
    } else {
      StripesPartition(files, n - 1, jobs);
      StripesGrow(files, n - 1, jobs, jobs);
      PrefixMultiset(files, n);
    }
  }

  lemma PrefixMultiset(files: seq<string>, n: nat)
    requires 0 < n <= |files|
    ensures multiset(files[..n]) == multiset(files[..n - 1]) + multiset{files[n - 1]}
  {
    assert files[..n] == files[..n - 1] + [files[n - 1]];
  }

  lemma {:induction false} NoStripes(files: seq<string>, jobs: nat, j: nat)
    requires jobs > 0
    ensures Stripes(files, 0, jobs, j) == []
  {
    if j > 0 {
      NoStripes(files, jobs, j - 1);
    }
  }

  // ---- the index ------------------------------------------------------------------------------

  function ListedIn(outline: string -> FileExport): string -> seq<string> {
    f => if outline(f).listed then [f] else []
  }

  function SymbolsIn(outline: string -> FileExport): string -> seq<Symbol> {
    f => if outline(f).listed then outline(f).symbols else []
  }

  function UsingsIn(outline: string -> FileExport): string -> seq<Using> {
    f => if outline(f).listed then outline(f).usings else []
  }

  function NamespacesIn(order: seq<string>, outline: string -> FileExport): set<string> {
    set f, ns | f in order && outline(f).listed && ns in outline(f).namespaces :: ns
  }

  function ResolveAll(us: seq<Using>, resolve: (string, string, set<string>) -> string, nss: set<string>)
    : seq<Resolved>
  {
    seq(|us|, i requires 0 <= i < |us| => Resolved(us[i], resolve(us[i].scope, us[i].target, nss)))
  }

  /** The index built from the files in the given order by one worker. */
  function IndexOf(order: seq<string>, outline: string -> FileExport,
                   resolve: (string, string, set<string>) -> string): Index
  {
    var nss := NamespacesIn(order, outline);
    Index(
      Sort(Gather(order, ListedIn(outline)), FileKey()),
      nss,
      Sort(Gather(order, SymbolsIn(outline)), SymbolKey()),
      Sort(ResolveAll(Gather(order, UsingsIn(outline)), resolve, nss), UsingKey()))
  }

  function ResolvedIn(outline: string -> FileExport, resolve: (string, string, set<string>) -> string,
                      nss: set<string>): string -> seq<Resolved>
  {
    f => ResolveAll(UsingsIn(outline)(f), resolve, nss)
  }

  /** Resolving after concatenating is concatenating the resolved lists. */
  lemma {:induction false} ResolveGather(order: seq<string>, outline: string -> FileExport,
                                         resolve: (string, string, set<string>) -> string, nss: set<string>)
    ensures ResolveAll(Gather(order, UsingsIn(outline)), resolve, nss)
            == Gather(order, ResolvedIn(outline, resolve, nss))
  {
    if order != [] {
      ResolveGather(order[..|order| - 1], outline, resolve, nss);
    }
  }

  /** The index depends only on which files there are, not on their order. */
  lemma IndexOrderFree(a: seq<string>, b: seq<string>, outline: string -> FileExport,
                       resolve: (string, string, set<string>) -> string)
    requires Labels(outline) && multiset(a) == multiset(b) && forall f :: multiset(a)[f] <= 1
    ensures IndexOf(a, outline, resolve) == IndexOf(b, outline, resolve)
  {
    assert NamespacesIn(a, outline) == NamespacesIn(b, outline) by {
      assert forall f :: f in a <==> f in multiset(a);
      assert forall f :: f in b <==> f in multiset(b);
    }
    var nss := NamespacesIn(a, outline);
    hide Gather, Sort, WithKey, SameByKey, NamespacesIn, ResolveAll;
    KeyedLists(outline, resolve, nss);
    OrdersAgree(a, b, ListedIn(outline), FileKey());
    OrdersAgree(a, b, SymbolsIn(outline), SymbolKey());
    OrdersAgree(a, b, ResolvedIn(outline, resolve, nss), UsingKey());
    ResolveGather(a, outline, resolve, nss);
    ResolveGather(b, outline, resolve, nss);
    SortAgrees(Gather(a, ListedIn(outline)), Gather(b, ListedIn(outline)), FileKey());
    SortAgrees(Gather(a, SymbolsIn(outline)), Gather(b, SymbolsIn(outline)), SymbolKey());
    SortAgrees(Gather(a, ResolvedIn(outline, resolve, nss)), Gather(b, ResolvedIn(outline, resolve, nss)), UsingKey());
  }

  lemma KeyedLists(outline: string -> FileExport, resolve: (string, string, set<string>) -> string, nss: set<string>)
    requires Labels(outline)
    ensures KeyedByFile(ListedIn(outline), FileKey())
    ensures KeyedByFile(SymbolsIn(outline), SymbolKey())
    ensures KeyedByFile(ResolvedIn(outline, resolve, nss), UsingKey())
  {
    forall f, r | r in ResolvedIn(outline, resolve, nss)(f)
      ensures UsingKey()(r).file == f
    {
      var us := UsingsIn(outline)(f);
      assert ResolvedIn(outline, resolve, nss)(f) == ResolveAll(us, resolve, nss);
      var i :| 0 <= i < |us| && ResolveAll(us, resolve, nss)[i] == r;
      assert us[i] in outline(f).usings;
    }
  }

  // ---- the export itself -----------------------------------------------------------------------

  /** One worker's partial result. */
  datatype Partial = Partial(files: seq<string>, namespaces: set<string>, symbols: seq<Symbol>, usings: seq<Using>)

  method ExportChunk(files: seq<string>, outline: string -> FileExport) returns (part: Partial)
    ensures part == Partial(Gather(files, ListedIn(outline)), NamespacesIn(files, outline),
                            Gather(files, SymbolsIn(outline)), Gather(files, UsingsIn(outline)))
  {
    part := Partial([], {}, [], []);
    for i := 0 to |files|
      invariant part == Partial(Gather(files[..i], ListedIn(outline)), NamespacesIn(files[..i], outline),
                                Gather(files[..i], SymbolsIn(outline)), Gather(files[..i], UsingsIn(outline)))
    {
      var rel := files[i];
      assert files[..i + 1][..i] == files[..i];
      assert files[..i + 1] == files[..i] + [rel];
      var e := outline(rel);
      if !e.listed {
        assert part.files + [] == part.files && part.symbols + [] == part.symbols && part.usings + [] == part.usings;
        continue;
      }
      part := Partial(part.files + [rel], part.namespaces + e.namespaces, part.symbols + e.symbols,
                      part.usings + e.usings);
    }
    assert files[..|files|] == files;
  }

  function EffectiveJobs(jobs: int, count: nat): (j: nat)
    ensures 1 <= j && (count > 0 ==> j <= count)
  {
    var asked := if jobs == 0 then 1 else jobs;
    var most := if count == 0 then 1 else count;
    var capped := if asked < most then asked else most;
    if capped < 1 then 1 else capped
  }

  // ---- the file list: sorted(set(...)) ----------------------------------------------------

  function Slashed(path: string): string {
    seq(|path|, i requires 0 <= i < |path| => if path[i] == '\\' then '/' else path[i])
  }

  /** The paths with forward slashes, each once. */
  function Unique(paths: seq<string>): seq<string> {
    if paths == [] then []
    else
      var front := Unique(paths[..|paths| - 1]);
      var f := Slashed(paths[|paths| - 1]);
      if f in front then front else front + [f]
  }

  lemma {:induction false} UniqueOnce(paths: seq<string>)
    ensures forall f :: multiset(Unique(paths))[f] <= 1
  {
    if paths != [] {
      UniqueOnce(paths[..|paths| - 1]);
    }
  }

  lemma {:induction false} InsertMultiset(x: string, ys: seq<string>, key: string -> Key)
    ensures multiset(Insert(x, ys, key)) == multiset(ys) + multiset{x}
  {
    hide KeyLe;
    if !(ys == [] || KeyLe(key(x), key(ys[0]))) {
      InsertMultiset(x, ys[1..], key);
      assert ys == [ys[0]] + ys[1..];
    }
  }

  lemma {:induction false} SortMultiset(xs: seq<string>, key: string -> Key)
    ensures multiset(Sort(xs, key)) == multiset(xs)
  {
    if xs != [] {
      SortMultiset(xs[1..], key);
      InsertMultiset(xs[0], Sort(xs[1..], key), key);
      assert xs == [xs[0]] + xs[1..];
    }
  }

  function FileList(paths: seq<string>): seq<string> {
    Sort(Unique(paths), FileKey())
  }

  lemma FilesOnce(paths: seq<string>)
    ensures forall f :: multiset(FileList(paths))[f] <= 1
  {
    UniqueOnce(paths);
    SortMultiset(Unique(paths), FileKey());
  }

  // ---- what an index is -----------------------------------------------------------------------

  /** The items with a property, in order. */
  function Filter<T>(xs: seq<T>, p: T -> bool): seq<T> {
    if xs == [] then [] else (if p(xs[0]) then [xs[0]] else []) + Filter(xs[1..], p)
  }

  predicate SlashPath(p: string, f: string) {
    |f| == |p| && forall i :: 0 <= i < |p| ==> f[i] == if p[i] == '\\' then '/' else p[i]
  }

  /** The distinct listed paths with forward slashes, ascending. */
  ghost predicate FilesRight(paths: seq<string>, outline: string -> FileExport, files: seq<string>) {
    && (forall f :: f in files <==> outline(f).listed && exists p :: p in paths && SlashPath(p, f))
    && (forall i, j :: 0 <= i < j < |files| ==> StrLe(files[i], files[j]) && files[i] != files[j])
  }

  ghost predicate NamespacesRight(outline: string -> FileExport, files: seq<string>, nss: set<string>) {
    forall ns :: ns in nss <==> exists f :: f in files && ns in outline(f).namespaces
  }

  predicate SymbolLe(a: Symbol, b: Symbol) {
    if a.file != b.file then StrLe(a.file, b.file)
    else if a.line != b.line then a.line < b.line
    else StrLe(a.qualified, b.qualified)
  }

  predicate UsingLe(a: Using, b: Using) {
    if a.file != b.file then StrLe(a.file, b.file) else a.line <= b.line
  }

  function SymbolAt(file: string, line: int, qualified: string): Symbol -> bool {
    (s: Symbol) => s.file == file && s.line == line && s.qualified == qualified
  }

  function UsingAt(file: string, line: int): Using -> bool {
    (u: Using) => u.file == file && u.line == line
  }

  /** The symbols of the listed files, ascending by file, line and name, and otherwise in
      the order of their file. */
  ghost predicate SymbolsRight(outline: string -> FileExport, files: seq<string>, symbols: seq<Symbol>) {
    && (forall i, j :: 0 <= i < j < |symbols| ==> SymbolLe(symbols[i], symbols[j]))
    && (forall f, line, q ::
          Filter(symbols, SymbolAt(f, line, q))
          == if f in files then Filter(outline(f).symbols, SymbolAt(f, line, q)) else [])
  }

  function Directives(us: seq<Resolved>): seq<Using> {
    seq(|us|, i requires 0 <= i < |us| => us[i].using)
  }

  /** The directives of the listed files, ascending by file and line, and otherwise in the
      order of their file, each resolved in its scope among all namespaces. */
  ghost predicate UsingsRight(outline: string -> FileExport, resolve: (string, string, set<string>) -> string,
                              files: seq<string>, nss: set<string>, usings: seq<Resolved>)
  {
    && (forall r :: r in usings ==> r.resolved == resolve(r.using.scope, r.using.target, nss))
    && (forall i, j :: 0 <= i < j < |usings| ==> UsingLe(usings[i].using, usings[j].using))
    && (forall f, line ::
          Filter(Directives(usings), UsingAt(f, line))
          == if f in files then Filter(outline(f).usings, UsingAt(f, line)) else [])
  }

  ghost predicate IsIndex(paths: seq<string>, outline: string -> FileExport,
                          resolve: (string, string, set<string>) -> string, index: Index)
  {
    && FilesRight(paths, outline, index.files)
    && NamespacesRight(outline, index.files, index.namespaces)
    && SymbolsRight(outline, index.files, index.symbols)
    && UsingsRight(outline, resolve, index.files, index.namespaces, index.usings)
  }

  lemma {:induction false} FilterCount<T>(xs: seq<T>, p: T -> bool, x: T)
    ensures multiset(Filter(xs, p))[x] == if p(x) then multiset(xs)[x] else 0
  {
    if xs != [] {
      FilterCount(xs[1..], p, x);
      assert xs == [xs[0]] + xs[1..];
    }
  }

  /** No symbol and no directive of a listed file is lost, and none is invented. */
  lemma IndexCounts(paths: seq<string>, outline: string -> FileExport,
                    resolve: (string, string, set<string>) -> string, index: Index, s: Symbol, u: Using)
    requires Labels(outline) && IsIndex(paths, outline, resolve, index)
    ensures multiset(index.symbols)[s]
            == if s.file in index.files then multiset(outline(s.file).symbols)[s] else 0
    ensures multiset(Directives(index.usings))[u]
            == if u.file in index.files then multiset(outline(u.file).usings)[u] else 0
  {
    var p, q := SymbolAt(s.file, s.line, s.qualified), UsingAt(u.file, u.line);
    FilterCount(index.symbols, p, s);
    FilterCount(outline(s.file).symbols, p, s);
    FilterCount(Directives(index.usings), q, u);
    FilterCount(outline(u.file).usings, q, u);
    hide Filter;
  }

  // ---- the index built is one -----------------------------------------------------------------

  lemma {:induction false} WithKeyIsFilter<T(!new)>(xs: seq<T>, key: T -> Key, k: Key, p: T -> bool)
    requires forall x :: p(x) <==> key(x) == k
    ensures WithKey(xs, key, k) == Filter(xs, p)
  {
    if xs != [] {
      WithKeyIsFilter(xs[1..], key, k, p);
    }
  }

  lemma {:induction false} UniqueHolds(paths: seq<string>, f: string)
    ensures f in Unique(paths) <==> exists p :: p in paths && SlashPath(p, f)
  {
    if paths != [] {
      var k := |paths| - 1;
      UniqueHolds(paths[..k], f);
      assert paths == paths[..k] + [paths[k]];
      assert SlashPath(paths[k], f) <==> f == Slashed(paths[k]);
    }
  }

  lemma OrderHolds(paths: seq<string>, f: string)
    ensures f in FileList(paths) <==> exists p :: p in paths && SlashPath(p, f)
  {
    UniqueHolds(paths, f);
    SortMultiset(Unique(paths), FileKey());
    hide Sort, Unique;
    assert f in FileList(paths) <==> f in multiset(FileList(paths));
    assert f in Unique(paths) <==> f in multiset(Unique(paths));
  }

  /** Sorting what was gathered in an order without repetition keeps, for every key, the
      items of that key's file in their order. */
  lemma GatheredByKey<T(!new)>(order: seq<string>, items: string -> seq<T>, key: T -> Key, k: Key, p: T -> bool)
    requires KeyedByFile(items, key) && multiset(order)[k.file] <= 1 && forall x :: p(x) <==> key(x) == k
    ensures Filter(Sort(Gather(order, items), key), p)
            == if k.file in order then Filter(items(k.file), p) else []
  {
    var xs := Gather(order, items);
    SortIsStable(xs, key);
    GatherByKey(order, items, key, k);
    WithKeyIsFilter(Sort(xs, key), key, k, p);
    WithKeyIsFilter(items(k.file), key, k, p);
    hide Sort, WithKey, Filter, Gather;
    assert k.file in order <==> k.file in multiset(order);
    assert WithKey(xs, key, k) == WithKey(Sort(xs, key), key, k);
  }

  lemma FilesAreRight(paths: seq<string>, outline: string -> FileExport)
    ensures FilesRight(paths, outline, Sort(Gather(FileList(paths), ListedIn(outline)), FileKey()))
  {
    var order := FileList(paths);
    var xs := Gather(order, ListedIn(outline));
    var files := Sort(xs, FileKey());
    FilesOnce(paths);
    hide FileList, Gather, Sort, StrLe;
    forall f
      ensures multiset(files)[f] == if f in order && outline(f).listed then 1 else 0
    {
      FileCounted(order, outline, f);
    }
    forall f
      ensures f in files <==> outline(f).listed && exists p :: p in paths && SlashPath(p, f)
    {
      OrderHolds(paths, f);
      assert f in files <==> f in multiset(files);
    }
    SortIsStable(xs, FileKey());
    forall i, j | 0 <= i < j < |files|
      ensures StrLe(files[i], files[j]) && files[i] != files[j]
    {
      assert KeyLe(FileKey()(files[i]), FileKey()(files[j]));
      StrTotal(files[i], files[i]);
      if files[i] == files[j] {
        TwiceCounted(files, i, j);
      }
    }
  }

  lemma TwiceCounted(xs: seq<string>, i: nat, j: nat)
    requires i < j < |xs| && xs[i] == xs[j]
    ensures multiset(xs)[xs[i]] >= 2
  {
    var a, b := xs[..j], xs[j..];
    assert xs == a + b;
    assert a[i] in multiset(a) && b[0] in multiset(b);
  }

  lemma FileCounted(order: seq<string>, outline: string -> FileExport, f: string)
    requires multiset(order)[f] <= 1
    ensures multiset(Sort(Gather(order, ListedIn(outline)), FileKey()))[f]
            == if f in order && outline(f).listed then 1 else 0
  {
    var items := ListedIn(outline);
    var p: string -> bool := g => g == f;
    GatheredByKey(order, items, FileKey(), Key(f, 0, ""), p);
    FilterCount(Sort(Gather(order, items), FileKey()), p, f);
    FilterCount(items(f), p, f);
  }

  lemma NamespacesAreRight(order: seq<string>, outline: string -> FileExport, files: seq<string>)
    requires forall f :: f in files <==> f in order && outline(f).listed
    ensures NamespacesRight(outline, files, NamespacesIn(order, outline))
  {
  }

  lemma SymbolsAreRight(order: seq<string>, outline: string -> FileExport, files: seq<string>)
    requires Labels(outline) && forall f :: f in files <==> f in order && outline(f).listed
    requires forall f :: multiset(order)[f] <= 1
    ensures SymbolsRight(outline, files, Sort(Gather(order, SymbolsIn(outline)), SymbolKey()))
  {
    var items := SymbolsIn(outline);
    var xs := Gather(order, items);
    var ys := Sort(xs, SymbolKey());
    KeyedLists(outline, (a, b, c) => "", {});
    SortIsStable(xs, SymbolKey());
    hide Gather, Sort, Filter, StrLe, WithKey;
    forall i, j | 0 <= i < j < |ys|
      ensures SymbolLe(ys[i], ys[j])
    {
      assert KeyLe(SymbolKey()(ys[i]), SymbolKey()(ys[j]));
    }
    forall f, line, q
      ensures Filter(ys, SymbolAt(f, line, q))
              == if f in files then Filter(outline(f).symbols, SymbolAt(f, line, q)) else []
    {
      GatheredByKey(order, items, SymbolKey(), Key(f, line, q), SymbolAt(f, line, q));
      assert Filter([], SymbolAt(f, line, q)) == [] by { FilterNone(SymbolAt(f, line, q)); }
    }
  }

  lemma FilterNone<T>(p: T -> bool)
    ensures Filter([], p) == []
  {
  }

  /** Resolving keeps the directives, also under a filter. */
  lemma {:induction false} ResolvedFilter(us: seq<Using>, resolve: (string, string, set<string>) -> string,
                                          nss: set<string>, p: Using -> bool)
    ensures Directives(Filter(ResolveAll(us, resolve, nss), (r: Resolved) => p(r.using))) == Filter(us, p)
  {
    var rs := ResolveAll(us, resolve, nss);
    var q := (r: Resolved) => p(r.using);
    if us != [] {
      ResolvedFilter(us[1..], resolve, nss, p);
      assert rs[1..] == ResolveAll(us[1..], resolve, nss);
      assert rs[0].using == us[0];
    }
  }

  lemma {:induction false} DirectivesFilter(rs: seq<Resolved>, p: Using -> bool)
    ensures Filter(Directives(rs), p) == Directives(Filter(rs, (r: Resolved) => p(r.using)))
  {
    if rs != [] {
      DirectivesFilter(rs[1..], p);
      assert Directives(rs)[1..] == Directives(rs[1..]);
    }
  }

  lemma UsingsAreRight(order: seq<string>, outline: string -> FileExport,
                       resolve: (string, string, set<string>) -> string, files: seq<string>, nss: set<string>)
    requires Labels(outline) && forall f :: f in files <==> f in order && outline(f).listed
    requires forall f :: multiset(order)[f] <= 1
    ensures UsingsRight(outline, resolve, files, nss,
                        Sort(ResolveAll(Gather(order, UsingsIn(outline)), resolve, nss), UsingKey()))
  {
    var items := ResolvedIn(outline, resolve, nss);
    var xs := Gather(order, items);
    var ys := Sort(xs, UsingKey());
    ResolveGather(order, outline, resolve, nss);
    KeyedLists(outline, resolve, nss);
    SortIsStable(xs, UsingKey());
    hide Gather, Sort, Filter, StrLe, WithKey, Directives;
    UsingsResolved(order, outline, resolve, nss);
    forall i, j | 0 <= i < j < |ys|
      ensures UsingLe(ys[i].using, ys[j].using)
    {
      assert KeyLe(UsingKey()(ys[i]), UsingKey()(ys[j]));
    }
    forall f, line
      ensures Filter(Directives(ys), UsingAt(f, line))
              == if f in files then Filter(outline(f).usings, UsingAt(f, line)) else []
    {
      UsingsOf(order, outline, resolve, nss, f, line);
    }
  }

  lemma UsingsOf(order: seq<string>, outline: string -> FileExport,
                 resolve: (string, string, set<string>) -> string, nss: set<string>, f: string, line: int)
    requires Labels(outline) && multiset(order)[f] <= 1
    ensures var ys := Sort(Gather(order, ResolvedIn(outline, resolve, nss)), UsingKey());
            Filter(Directives(ys), UsingAt(f, line))
            == if f in order && outline(f).listed then Filter(outline(f).usings, UsingAt(f, line)) else []
  {
    var items := ResolvedIn(outline, resolve, nss);
    var ys := Sort(Gather(order, items), UsingKey());
    var p := UsingAt(f, line);
    var q := (r: Resolved) => p(r.using);
    KeyedLists(outline, resolve, nss);
    DirectivesFilter(ys, p);
    GatheredByKey(order, items, UsingKey(), Key(f, line, ""), q);
    ResolvedFilter(UsingsIn(outline)(f), resolve, nss, p);
    FilterNone(p);
  }

  /** Whatever is in the sorted list was in the list. */
  lemma SortedMember<T(!new)>(xs: seq<T>, key: T -> Key, x: T)
    requires x in Sort(xs, key)
    ensures x in xs
  {
    var k := key(x);
    SortIsStable(xs, key);
    assert WithKey(xs, key, k) == WithKey(Sort(xs, key), key, k);
    hide Sort, KeyLe;
    MemberHasKey(Sort(xs, key), key, x);
    var i :| 0 <= i < |WithKey(xs, key, k)| && WithKey(xs, key, k)[i] == x;
    WithKeyMember(xs, key, k, i);
  }

  lemma {:induction false} MemberHasKey<T(!new)>(xs: seq<T>, key: T -> Key, x: T)
    requires x in xs
    ensures x in WithKey(xs, key, key(x))
  {
    if xs[0] != x {
      MemberHasKey(xs[1..], key, x);
    }
  }

  lemma UsingsResolved(order: seq<string>, outline: string -> FileExport,
                       resolve: (string, string, set<string>) -> string, nss: set<string>)
    ensures var ys := Sort(ResolveAll(Gather(order, UsingsIn(outline)), resolve, nss), UsingKey());
            forall r :: r in ys ==> r.resolved == resolve(r.using.scope, r.using.target, nss)
  {
    var us := Gather(order, UsingsIn(outline));
    var xs := ResolveAll(us, resolve, nss);
    var ys := Sort(xs, UsingKey());
    forall r | r in ys
      ensures r.resolved == resolve(r.using.scope, r.using.target, nss)
    {
      SortedMember(xs, UsingKey(), r);
    }
  }

  /** The index of a single worker is the index of the paths. */
  lemma IndexIsRight(paths: seq<string>, outline: string -> FileExport,
                     resolve: (string, string, set<string>) -> string)
    requires Labels(outline)
    ensures IsIndex(paths, outline, resolve, IndexOf(FileList(paths), outline, resolve))
  {
    var order := FileList(paths);
    var index := IndexOf(order, outline, resolve);
    FilesOnce(paths);
    FilesAreRight(paths, outline);
    forall f
      ensures f in index.files <==> f in order && outline(f).listed
    {
      OrderHolds(paths, f);
    }
    hide FileList, Gather, Sort, ResolveAll, FilesRight, SymbolsRight, UsingsRight, NamespacesIn;
    NamespacesAreRight(order, outline, index.files);
    SymbolsAreRight(order, outline, index.files);
    UsingsAreRight(order, outline, resolve, index.files, index.namespaces);
  }

  /** Export through any number of workers: the index is the one a single worker gives, and
      that is the index of the paths. */
  method ExportSymbols(paths: seq<string>, outline: string -> FileExport,
                       resolve: (string, string, set<string>) -> string, jobs: int)
    returns (index: Index)
    requires Labels(outline)
    ensures index == IndexOf(FileList(paths), outline, resolve)
    ensures IsIndex(paths, outline, resolve, index)
  {
    FilesOnce(paths);
    IndexIsRight(paths, outline, resolve);
    var files := FileList(paths);
    hide FileList, IsIndex;
    var workers := EffectiveJobs(jobs, |files|);
    var all := Partial([], {}, [], []);
    ghost var order: seq<string> := [];
    hide NamespacesIn;
    assert all == Partial(Gather(order, ListedIn(outline)), NamespacesIn(order, outline),
                          Gather(order, SymbolsIn(outline)), Gather(order, UsingsIn(outline)));
    for w := 0 to workers
      invariant order == Stripes(files, |files|, workers, w)
      invariant all == Partial(Gather(order, ListedIn(outline)), NamespacesIn(order, outline),
                               Gather(order, SymbolsIn(outline)), Gather(order, UsingsIn(outline)))
    {
      hide Gather, Stripe;
      var chunk := Stripe(files, |files|, w, workers);
      var part := ExportChunk(chunk, outline);
      GatherConcat(order, chunk, ListedIn(outline));
      GatherConcat(order, chunk, SymbolsIn(outline));
      GatherConcat(order, chunk, UsingsIn(outline));
      all := Partial(all.files + part.files, all.namespaces + part.namespaces,
                     all.symbols + part.symbols, all.usings + part.usings);
      order := order + chunk;
    }
    StripesPartition(files, |files|, workers);
    assert files[..|files|] == files;
    IndexOrderFree(order, files, outline, resolve);
    index := Index(
      Sort(all.files, FileKey()),
      all.namespaces,
      Sort(all.symbols, SymbolKey()),
      Sort(ResolveAll(all.usings, resolve, all.namespaces), UsingKey()));
  }
}
