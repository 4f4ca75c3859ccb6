/** The cached closure of using-directives (`visible` in `aggregate_clangd`,
    scripts/detect_unity_build.py). */
module Visibility {

  datatype Directive = Directive(file: string, line: int, scope: string, target: string)

  /** Position of the last slash, or -1. */
  function LastSlash(s: string): (k: int)
    ensures -1 <= k < |s|
    ensures k >= 0 ==> s[k] == '/'
    ensures forall j :: k < j < |s| ==> s[j] != '/'
  {
    if s == "" then -1
    else if s[|s| - 1] == '/' then |s| - 1
    else LastSlash(s[..|s| - 1])
  }

  /** `rel.rsplit("/", 1)[0]`, or nothing for a bare file name. */
  function DirOf(rel: string): string {
    if LastSlash(rel) < 0 then "" else rel[..LastSlash(rel)]
  }

  /** The directory is what comes before the last slash; a bare file name has none. */
  lemma DirOfExactly(rel: string)
    ensures (forall i :: 0 <= i < |rel| ==> rel[i] != '/') ==> DirOf(rel) == ""
    ensures (exists i :: 0 <= i < |rel| && rel[i] == '/') ==>
              exists name: string :: rel == DirOf(rel) + "/" + name && forall i :: 0 <= i < |name| ==> name[i] != '/'
  {
    var k := LastSlash(rel);
    if k >= 0 {
      var name := rel[k + 1..];
      assert rel == DirOf(rel) + "/" + name;
    }
  }

  /** `path` leads from `from` to `to` through applicable directives. */
  ghost predicate Leads(ds: seq<Directive>, dirs: set<string>, from: string, path: seq<Directive>, to: string) {
    if path == [] then from == to
    else
      var last := path[|path| - 1];
      && last in ds && DirOf(last.file) in dirs && last.target == to
      && Leads(ds, dirs, from, path[..|path| - 1], last.scope)
  }

  ghost predicate Reaches(ds: seq<Directive>, dirs: set<string>, from: string, to: string) {
    exists path :: Leads(ds, dirs, from, path, to)
  }

  lemma ReachesSelf(ds: seq<Directive>, dirs: set<string>, from: string)
    ensures Reaches(ds, dirs, from, from)
  {
    assert Leads(ds, dirs, from, [], from);
  }

  lemma ReachesNext(ds: seq<Directive>, dirs: set<string>, from: string, d: Directive)
    requires Reaches(ds, dirs, from, d.scope) && d in ds && DirOf(d.file) in dirs
    ensures Reaches(ds, dirs, from, d.target)
  {
    var path :| Leads(ds, dirs, from, path, d.scope);
    assert (path + [d])[..|path|] == path;
    assert Leads(ds, dirs, from, path + [d], d.target);
  }

  /** No applicable directive leads out of `s`. */
  ghost predicate Closed(ds: seq<Directive>, dirs: set<string>, s: set<string>) {
    forall d :: d in ds && d.scope in s && DirOf(d.file) in dirs ==> d.target in s
  }

  /** A closed set that holds the start holds everything reachable from it. */
  lemma {:induction false} ClosedHoldsAll(ds: seq<Directive>, dirs: set<string>, s: set<string>, from: string,
                                          path: seq<Directive>, to: string)
    requires Closed(ds, dirs, s) && from in s && Leads(ds, dirs, from, path, to)
    ensures to in s
    decreases |path|
  {
    if path != [] {
      var last := path[|path| - 1];
      ClosedHoldsAll(ds, dirs, s, from, path[..|path| - 1], last.scope);
    }
  }

  /** `seen` is exactly what is reachable from `from`. */
  ghost predicate IsClosure(ds: seq<Directive>, dirs: set<string>, from: string, seen: set<string>) {
    forall to :: to in seen <==> Reaches(ds, dirs, from, to)
  }

  lemma ClosureReached(ds: seq<Directive>, dirs: set<string>, from: string, seen: set<string>)
    requires from in seen && Closed(ds, dirs, seen)
    requires forall to :: to in seen ==> Reaches(ds, dirs, from, to)
    ensures IsClosure(ds, dirs, from, seen)
  {
    forall to | Reaches(ds, dirs, from, to)
      ensures to in seen
    {
      var path :| Leads(ds, dirs, from, path, to);
      ClosedHoldsAll(ds, dirs, seen, from, path, to);
    }
  }

  /** Two exact answers are the same set. */
  lemma ClosureUnique(ds: seq<Directive>, dirs: set<string>, from: string, a: set<string>, b: set<string>)
    requires IsClosure(ds, dirs, from, a) && IsClosure(ds, dirs, from, b)
    ensures a == b
  {
    forall to
      ensures to in a <==> to in b
    {
      assert to in a <==> Reaches(ds, dirs, from, to);
    }
  }

  /** The directives of one scope, in order. */
  function InScope(ds: seq<Directive>, scope: string): (r: seq<Directive>)
    ensures forall d :: d in r <==> d in ds && d.scope == scope
  {
    if ds == [] then []
    else if ds[|ds| - 1].scope == scope then InScope(ds[..|ds| - 1], scope) + [ds[|ds| - 1]]
    else InScope(ds[..|ds| - 1], scope)
  }

  function Targets(ds: seq<Directive>): set<string> {
    set d | d in ds :: d.target
  }

  /** Everything but the scopes still on the stack has been expanded. */
  ghost predicate Expanded(ds: seq<Directive>, dirs: set<string>, seen: set<string>, stack: seq<string>) {
    forall d :: d in ds && d.scope in seen && DirOf(d.file) in dirs && d.scope !in stack ==> d.target in seen
  }

  /** Expand one popped scope: see and push the new targets of its directives. */
  method Expand(ds: seq<Directive>, dirs: set<string>, from: string, cur: string, local: seq<Directive>,
                seen0: set<string>, stack0: seq<string>)
    returns (seen: set<string>, stack: seq<string>)
    requires local == InScope(ds, cur) && cur in seen0
    requires forall to :: to in seen0 ==> Reaches(ds, dirs, from, to)
    requires forall x :: x in stack0 ==> x in seen0
    requires Expanded(ds, dirs, seen0, [cur] + stack0)
    requires seen0 <= Targets(ds) + {from}
    ensures forall to :: to in seen ==> Reaches(ds, dirs, from, to)
    ensures forall x :: x in stack ==> x in seen
    ensures Expanded(ds, dirs, seen, stack)
    ensures seen0 <= seen <= Targets(ds) + {from}
    ensures seen == seen0 ==> stack == stack0
  {
    hide Reaches, Targets, DirOf;
    seen, stack := seen0, stack0;
    for k := 0 to |local|
      invariant forall to :: to in seen ==> Reaches(ds, dirs, from, to)
      invariant forall x :: x in stack ==> x in seen
      invariant seen0 <= seen <= Targets(ds) + {from}
      invariant seen == seen0 ==> stack == stack0
      invariant forall x :: x in stack0 || (x in seen && x !in seen0) ==> x in stack
      invariant forall j :: 0 <= j < k && DirOf(local[j].file) in dirs ==> local[j].target in seen
    {
      var d := local[k];
      assert d in local;
      if DirOf(d.file) !in dirs {
        continue;
      }
      if d.target !in seen {
        ReachesNext(ds, dirs, from, d);
        TargetOf(ds, d);
        seen := seen + {d.target};
        stack := stack + [d.target];
      }
    }
    forall d | d in ds && d.scope in seen && DirOf(d.file) in dirs && d.scope !in stack
      ensures d.target in seen
    {
      if d.scope == cur {
        assert d in local;
      } else {
        assert d.scope !in [cur] + stack0;
      }
    }
  }

  lemma TargetOf(ds: seq<Directive>, d: Directive)
    requires d in ds
    ensures d.target in Targets(ds)
  {
  }

  /** The directives of one comparison, indexed by scope, with the cache of answers. */
  class Visible {
    const directives: seq<Directive>
    var byScope: map<string, seq<Directive>>
    var cache: map<(string, set<string>), set<string>>

    ghost predicate Valid()
      reads this
    {
      && (forall scope :: scope in byScope ==> byScope[scope] == InScope(directives, scope))
      && (forall scope :: scope !in byScope ==> InScope(directives, scope) == [])
      && (forall key :: key in cache ==> IsClosure(directives, key.1, key.0, cache[key]))
    }

    constructor (directives: seq<Directive>)
      ensures Valid() && this.directives == directives && cache == map[]
    {
      this.directives := directives;
      var index: map<string, seq<Directive>> := map[];
      for k := 0 to |directives|
        invariant forall scope :: scope in index ==> index[scope] == InScope(directives[..k], scope)
        invariant forall scope :: scope !in index ==> InScope(directives[..k], scope) == []
      {
        var d := directives[k];
        assert directives[..k + 1][..k] == directives[..k];
        var before := if d.scope in index then index[d.scope] else [];
        index := index[d.scope := before + [d]];
      }
      assert directives[..|directives|] == directives;
      byScope := index;
      cache := map[];
    }

    /** Exactly the namespaces reachable from `scope`, cached or not; the cache only
        ever holds exact answers. */
    method Query(scope: string, dirs: set<string>) returns (seen: set<string>)
      requires Valid()
      modifies this`cache
      ensures Valid() && IsClosure(directives, dirs, scope, seen)
      ensures cache == old(cache)[(scope, dirs) := seen]
    {
      hide IsClosure, Reaches, Closed, InScope, Targets, Expanded;
      var key := (scope, dirs);
      if key in cache {
        seen := cache[key];
        assert cache == cache[key := seen];
        return;
      }
      seen := {scope};
      var stack := [scope];
      ghost var universe := Targets(directives) + {scope};
      ReachesSelf(directives, dirs, scope);
      StartExpanded(directives, dirs, scope);
      while stack != []
        invariant Valid() && cache == old(cache)
        invariant scope in seen && seen <= universe
        invariant forall to :: to in seen ==> Reaches(directives, dirs, scope, to)
        invariant forall x :: x in stack ==> x in seen
        invariant Expanded(directives, dirs, seen, stack)
        decreases universe - seen, |stack|
      {
        var cur := stack[|stack| - 1];
        var rest := stack[..|stack| - 1];
        Popped(directives, dirs, seen, stack);
        var local := if cur in byScope then byScope[cur] else [];
        var more, left := Expand(directives, dirs, scope, cur, local, seen, rest);
        seen, stack := more, left;
      }
      AllExpanded(directives, dirs, seen);
      ClosureReached(directives, dirs, scope, seen);
      cache := cache[key := seen];
    }
  }

  lemma StartExpanded(ds: seq<Directive>, dirs: set<string>, scope: string)
    ensures Expanded(ds, dirs, {scope}, [scope])
  {
  }

  lemma Popped(ds: seq<Directive>, dirs: set<string>, seen: set<string>, stack: seq<string>)
    requires stack != [] && Expanded(ds, dirs, seen, stack)
    ensures Expanded(ds, dirs, seen, [stack[|stack| - 1]] + stack[..|stack| - 1])
  {
    var s2 := [stack[|stack| - 1]] + stack[..|stack| - 1];
    assert forall x :: x in stack ==> x in s2;
  }

  lemma AllExpanded(ds: seq<Directive>, dirs: set<string>, seen: set<string>)
    requires Expanded(ds, dirs, seen, [])
    ensures Closed(ds, dirs, seen)
  {
  }
}
