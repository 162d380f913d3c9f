/** Dependency-ordered compilation of MIB files (conpot/protocols/snmp/build_pysnmp_mib_wrapper.py). */
module MibCompiler {
  import opened Bytes
  import opened Common

  type Mib = string

  /** The dependency map, and the MIBs a file was found for. */
  datatype Catalog = Catalog(deps: map<Mib, seq<Mib>>, files: set<Mib>)

  /** Every MIB with a file has an entry, and so has every MIB another one imports. */
  predicate Closed(c: Catalog) {
    && c.files <= c.deps.Keys
    && forall m :: m in c.deps ==> forall d :: d in c.deps[m] ==> d in c.deps
  }

  /** `compile_mib`, with the recursion depth it may use; None is a recursion that is too deep. The
      result is the list of compiled MIBs. */
  function Compile(c: Catalog, depth: nat, done: seq<Mib>, m: Mib): Option<seq<Mib>>
    requires Closed(c) && m in c.deps
    decreases depth, 0
  {
    if depth == 0 then None
    else
      match CompileAll(c, depth - 1, done, c.deps[m])
      case None => None
      case Some(before) => Some(before + [m])
  }

  /** The loop over the dependencies. */
  function CompileAll(c: Catalog, depth: nat, done: seq<Mib>, ds: seq<Mib>): Option<seq<Mib>>
    requires Closed(c) && forall d :: d in ds ==> d in c.deps
    decreases depth, 1 + |ds|
  {
    if ds == [] then Some(done)
    else if ds[0] !in done && ds[0] in c.files then
      match Compile(c, depth, done, ds[0])
      case None => None
      case Some(more) => CompileAll(c, depth, more, ds[1..])
    else CompileAll(c, depth, done, ds[1..])
  }

  /** Every MIB comes after all of its available dependencies. */
  ghost predicate Ordered(c: Catalog, done: seq<Mib>)
    requires Closed(c)
  {
    && (forall m :: m in done ==> m in c.files)
    && forall i, d :: 0 <= i < |done| && d in c.deps[done[i]] && d in c.files ==> d in done[..i]
  }

  /** A walk through available MIBs along dependencies. */
  ghost predicate Walk(c: Catalog, a: Mib, p: seq<Mib>, b: Mib)
    requires Closed(c)
  {
    && p != [] && p[0] == a && p[|p| - 1] == b
    && (forall i :: 0 <= i < |p| ==> p[i] in c.files)
    && forall i :: 0 <= i < |p| - 1 ==> p[i + 1] in c.deps[p[i]]
  }

  ghost predicate Reaches(c: Catalog, a: Mib, b: Mib)
    requires Closed(c)
  {
    exists p :: Walk(c, a, p, b)
  }

  ghost predicate OnCycle(c: Catalog, x: Mib)
    requires Closed(c)
  {
    exists p :: Walk(c, x, p, x) && |p| > 1
  }

  /** No cycle of available MIBs can be reached from `m`. */
  ghost predicate Acyclic(c: Catalog, m: Mib)
    requires Closed(c)
  {
    forall x :: Reaches(c, m, x) ==> !OnCycle(c, x)
  }

  lemma JoinWalks(c: Catalog, a: Mib, p: seq<Mib>, b: Mib, q: seq<Mib>, z: Mib)
    requires Closed(c) && Walk(c, a, p, b) && Walk(c, b, q, z)
    ensures Walk(c, a, p + q[1..], z)
  {
    var w := p + q[1..];
    forall i | 0 <= i < |w| - 1 ensures w[i + 1] in c.deps[w[i]] {
      if i >= |p| - 1 {
        assert w[i] == q[i - (|p| - 1)] && w[i + 1] == q[i - (|p| - 1) + 1];
      }
    }
  }

  lemma StepWalk(c: Catalog, m: Mib, d: Mib)
    requires Closed(c) && m in c.files && d in c.files && d in c.deps[m]
    ensures Walk(c, m, [m, d], d) && Walk(c, m, [m], m) && Reaches(c, m, d) && Reaches(c, m, m)
  {
    assert Walk(c, m, [m, d], d) && Walk(c, m, [m], m);
  }

  lemma ReachesOn(c: Catalog, a: Mib, b: Mib, z: Mib)
    requires Closed(c) && Reaches(c, a, b) && Reaches(c, b, z)
    ensures Reaches(c, a, z)
  {
    var p :| Walk(c, a, p, b);
    var q :| Walk(c, b, q, z);
    JoinWalks(c, a, p, b, q, z);
  }

  // ----- order and exactness of what is compiled

  /** A successful compilation only appends, keeps the order, and appends `m` last. */
  lemma {:induction false} CompileOrders(c: Catalog, depth: nat, done: seq<Mib>, m: Mib)
    requires Closed(c) && m in c.files && Ordered(c, done)
    ensures var r := Compile(c, depth, done, m);
      r.Some? ==>
        && done <= r.value && Ordered(c, r.value) && |r.value| > |done| && r.value[|r.value| - 1] == m
        && forall x :: x in r.value[|done|..] ==> Reaches(c, m, x)
    decreases depth, 0
  {
    var r := Compile(c, depth, done, m);
    if r.Some? {
      CompileAllOrders(c, depth - 1, done, c.deps[m]);
      var before := CompileAll(c, depth - 1, done, c.deps[m]).value;
      assert r.value[|done|..] == before[|done|..] + [m];
      assert Walk(c, m, [m], m);
      forall x | x in before[|done|..] ensures Reaches(c, m, x) {
        var d :| d in c.deps[m] && Reaches(c, d, x);
        StepWalk(c, m, d);
        ReachesOn(c, m, d, x);
      }
      forall i, d | 0 <= i < |r.value| && d in c.deps[r.value[i]] && d in c.files ensures d in r.value[..i] {
        if i < |before| {
          assert r.value[..i] == before[..i];
        } else {
          assert r.value[..i] == before;
        }
      }
    }
  }

  lemma {:induction false} CompileAllOrders(c: Catalog, depth: nat, done: seq<Mib>, ds: seq<Mib>)
    requires Closed(c) && Ordered(c, done) && forall d :: d in ds ==> d in c.deps
    ensures var r := CompileAll(c, depth, done, ds);
      r.Some? ==>
        && done <= r.value && Ordered(c, r.value)
        && (forall d :: d in ds && d in c.files ==> d in r.value)
        && forall x :: x in r.value[|done|..] ==> exists d :: d in ds && Reaches(c, d, x)
    decreases depth, 1 + |ds|
  {
    var r := CompileAll(c, depth, done, ds);
    if ds != [] && r.Some? {
      var d, others := ds[0], ds[1..];
      if d !in done && d in c.files {
        var more := Compile(c, depth, done, d).value;
        CompileOrders(c, depth, done, d);
        CompileAllOrders(c, depth, more, others);
        assert r.value[|done|..] == more[|done|..] + r.value[|more|..];
        assert more[|more| - 1] in more;
      } else {
        CompileAllOrders(c, depth, done, others);
      }
    }
  }

  function FirstIndex(s: seq<Mib>, x: Mib): (i: nat)
    requires x in s
    ensures i < |s| && s[i] == x && forall k :: 0 <= k < i ==> s[k] != x
  {
    if s[0] == x then 0 else 1 + FirstIndex(s[1..], x)
  }

  /** Along a walk the positions in an ordered list go down. */
  lemma {:induction false} WalkDescends(c: Catalog, done: seq<Mib>, a: Mib, p: seq<Mib>, b: Mib)
    requires Closed(c) && Ordered(c, done) && Walk(c, a, p, b) && a in done
    ensures b in done && FirstIndex(done, b) + |p| - 1 <= FirstIndex(done, a)
    decreases |p|
  {
    if |p| > 1 {
      var i := FirstIndex(done, a);
      assert p[1] in done[..i];
      var j :| 0 <= j < i && done[..i][j] == p[1];
      assert done[j] == p[1];
      assert Walk(c, p[1], p[1..], b);
      WalkDescends(c, done, p[1], p[1..], b);
    }
  }

  /** The compiled MIBs are the ones compiled before plus exactly those reachable from `m`. */
  lemma CompileIsExact(c: Catalog, depth: nat, done: seq<Mib>, m: Mib)
    requires Closed(c) && m in c.files && Ordered(c, done) && Compile(c, depth, done, m).Some?
    ensures var r := Compile(c, depth, done, m).value;
      forall x :: x in r <==> x in done || Reaches(c, m, x)
  {
    var r := Compile(c, depth, done, m).value;
    CompileOrders(c, depth, done, m);
    assert r == done + r[|done|..];
    forall x | Reaches(c, m, x) ensures x in r {
      var p :| Walk(c, m, p, x);
      assert r[|r| - 1] in r;
      WalkDescends(c, r, m, p, x);
    }
  }

  /** An ordered list holds no MIB that is on a cycle. */
  lemma OrderedHasNoCycle(c: Catalog, done: seq<Mib>, x: Mib)
    requires Closed(c) && Ordered(c, done) && x in done
    ensures !OnCycle(c, x)
  {
    if OnCycle(c, x) {
      var p :| Walk(c, x, p, x) && |p| > 1;
      WalkDescends(c, done, x, p, x);
    }
  }

  // ----- no duplicates

  lemma {:induction false} CompileKeepsDistinct(c: Catalog, depth: nat, done: seq<Mib>, m: Mib)
    requires Closed(c) && m in c.files && Ordered(c, done) && Distinct(done) && m !in done
    ensures var r := Compile(c, depth, done, m); r.Some? ==> Distinct(r.value)
    decreases depth, 0
  {
    var r := Compile(c, depth, done, m);
    if r.Some? {
      CompileAllKeepsDistinct(c, depth - 1, done, c.deps[m]);
      var before := CompileAll(c, depth - 1, done, c.deps[m]).value;
      CompileAllOrders(c, depth - 1, done, c.deps[m]);
      if m in before {
        // m was compiled inside its own compilation, so m reaches itself through a dependency
        CompileAllReturns(c, depth - 1, done, c.deps[m], m);
        OrderedHasNoCycle(c, before, m);
        assert false;
      }
    }
  }

  lemma {:induction false} CompileAllKeepsDistinct(c: Catalog, depth: nat, done: seq<Mib>, ds: seq<Mib>)
    requires Closed(c) && Ordered(c, done) && Distinct(done) && forall d :: d in ds ==> d in c.deps
    ensures var r := CompileAll(c, depth, done, ds); r.Some? ==> Distinct(r.value)
    decreases depth, 1 + |ds|
  {
    var r := CompileAll(c, depth, done, ds);
    if ds != [] && r.Some? {
      var d, others := ds[0], ds[1..];
      if d !in done && d in c.files {
        CompileOrders(c, depth, done, d);
        CompileKeepsDistinct(c, depth, done, d);
        CompileAllKeepsDistinct(c, depth, Compile(c, depth, done, d).value, others);
      } else {
        CompileAllKeepsDistinct(c, depth, done, others);
      }
    }
  }

  /** If `m` itself turns up while its dependencies are compiled, it is on a cycle. */
  lemma {:induction false} CompileAllReturns(c: Catalog, depth: nat, done: seq<Mib>, ds: seq<Mib>, m: Mib)
    requires Closed(c) && m in c.files && Ordered(c, done) && m !in done
    requires forall d :: d in ds ==> d in c.deps[m]
    requires var r := CompileAll(c, depth, done, ds); r.Some? && m in r.value
    ensures OnCycle(c, m)
    decreases |ds|
  {
    var d, others := ds[0], ds[1..];
    if d !in done && d in c.files {
      var more := Compile(c, depth, done, d).value;
      CompileOrders(c, depth, done, d);
      if m in more {
        assert more == done + more[|done|..];
        var p :| Walk(c, d, p, m);
        StepWalk(c, m, d);
        JoinWalks(c, m, [m, d], d, p, m);
      } else {
        CompileAllReturns(c, depth, more, others, m);
      }
    } else {
      CompileAllReturns(c, depth, done, others, m);
    }
  }

  /** Compiling adds no duplicate if and only if the MIB was not compiled already: the caller, not
      `compile_mib`, has to check. */
  lemma NoDuplicates(c: Catalog, depth: nat, done: seq<Mib>, m: Mib)
    requires Closed(c) && m in c.files && Ordered(c, done) && Distinct(done)
    requires Compile(c, depth, done, m).Some?
    ensures Distinct(Compile(c, depth, done, m).value) <==> m !in done
  {
    var r := Compile(c, depth, done, m).value;
    if m in done {
      CompileOrders(c, depth, done, m);
      assert r[FirstIndex(done, m)] == r[|r| - 1];
    } else {
      CompileKeepsDistinct(c, depth, done, m);
    }
  }

  // ----- termination

  lemma AcyclicStep(c: Catalog, m: Mib, d: Mib)
    requires Closed(c) && m in c.files && d in c.files && d in c.deps[m] && Acyclic(c, m)
    ensures Acyclic(c, d)
  {
    forall x | Reaches(c, d, x) ensures !OnCycle(c, x) {
      StepWalk(c, m, d);
      ReachesOn(c, m, d, x);
    }
  }

  /** The MIBs being compiled when `m` is: each leads to `m`, so without cycles none is met again. */
  ghost predicate Above(c: Catalog, open: set<Mib>, m: Mib)
    requires Closed(c)
  {
    && open <= c.files && m !in open
    && forall v :: v in open ==> exists p :: Walk(c, v, p, m) && |p| > 1
  }

  lemma AboveStep(c: Catalog, open: set<Mib>, m: Mib, d: Mib)
    requires Closed(c) && m in c.files && d in c.files && d in c.deps[m] && Acyclic(c, m) && Above(c, open, m)
    ensures Above(c, open + {m}, d)
  {
    StepWalk(c, m, d);
    assert |[m, d]| > 1;
    forall v | v in open + {m} ensures exists p :: Walk(c, v, p, d) && |p| > 1 {
      if v != m {
        var p :| Walk(c, v, p, m) && |p| > 1;
        JoinWalks(c, v, p, m, [m, d], d);
        assert |p + [m, d][1..]| > 1;
      }
    }
    if d in open + {m} {
      assert false;
    }
  }

  lemma OneFewer(files: set<Mib>, open: set<Mib>, m: Mib)
    requires m in files && m !in open
    ensures |files - open| == |files - (open + {m})| + 1
  {
    assert files - open == (files - (open + {m})) + {m};
  }

  lemma {:induction false} AcyclicTerminates(c: Catalog, open: set<Mib>, depth: nat, done: seq<Mib>, m: Mib)
    requires Closed(c) && m in c.files && Acyclic(c, m) && Above(c, open, m)
    requires depth == |c.files - open|
    ensures Compile(c, depth, done, m).Some?
    decreases depth, 0
  {
    OneFewer(c.files, open, m);
    AcyclicAllTerminates(c, open, depth - 1, done, c.deps[m], m);
  }

  lemma {:induction false} AcyclicAllTerminates(c: Catalog, open: set<Mib>, depth: nat, done: seq<Mib>, ds: seq<Mib>,
                                                m: Mib)
    requires Closed(c) && m in c.files && Acyclic(c, m) && Above(c, open, m)
    requires depth == |c.files - (open + {m})|
    requires forall d :: d in ds ==> d in c.deps[m]
    ensures CompileAll(c, depth, done, ds).Some?
    decreases depth, 1 + |ds|
  {
    if ds != [] {
      var d, others := ds[0], ds[1..];
      if d !in done && d in c.files {
        AcyclicStep(c, m, d);
        AboveStep(c, open, m, d);
        AcyclicTerminates(c, open + {m}, depth, done, d);
        AcyclicAllTerminates(c, open, depth, Compile(c, depth, done, d).value, others, m);
      } else {
        AcyclicAllTerminates(c, open, depth, done, others, m);
      }
    }
  }

  /** Compilation ends, at no greater depth than there are files, if and only if no cycle of available
      MIBs can be reached from the one to compile. */
  lemma TerminatesIffAcyclic(c: Catalog, done: seq<Mib>, m: Mib)
    requires Closed(c) && m in c.files && Ordered(c, done)
    ensures Compile(c, |c.files|, done, m).Some? <==> Acyclic(c, m)
    ensures (exists depth :: Compile(c, depth, done, m).Some?) <==> Acyclic(c, m)
  {
    if Acyclic(c, m) {
      assert c.files - {} == c.files;
      AcyclicTerminates(c, {}, |c.files|, done, m);
    }
    if depth :| Compile(c, depth, done, m).Some? {
      var r := Compile(c, depth, done, m).value;
      CompileOrders(c, depth, done, m);
      CompileIsExact(c, depth, done, m);
      forall x | Reaches(c, m, x) ensures !OnCycle(c, x) {
        OrderedHasNoCycle(c, r, x);
      }
    }
  }

  /** Two MIBs that import each other: no depth is enough. */
  lemma MutualImportsDoNotEnd(depth: nat)
    ensures var c := Catalog(map["A" := ["B"], "B" := ["A"]], {"A", "B"});
      Closed(c) && Ordered(c, []) && OnCycle(c, "A") && Compile(c, depth, [], "A") == None
  {
    var c := Catalog(map["A" := ["B"], "B" := ["A"]], {"A", "B"});
    var p := ["A", "B", "A"];
    assert Walk(c, "A", p, "A") && |p| > 1;
    assert Walk(c, "A", ["A"], "A");
    assert Reaches(c, "A", "A");
    TerminatesIffAcyclic(c, [], "A");
  }

  /** What compiling `m` brings in: the MIBs reachable from it or, if no file was found for it, from its
      dependencies. */
  ghost predicate Brings(c: Catalog, m: Mib, x: Mib)
    requires Closed(c)
  {
    if m in c.files then Reaches(c, m, x) else m in c.deps && exists d :: d in c.deps[m] && Reaches(c, d, x)
  }

  ghost predicate Compilable(c: Catalog, m: Mib)
    requires Closed(c)
  {
    forall x :: Brings(c, m, x) ==> !OnCycle(c, x)
  }

  lemma {:induction false} DependenciesTerminate(c: Catalog, done: seq<Mib>, ds: seq<Mib>)
    requires Closed(c) && forall d :: d in ds ==> d in c.deps && (d in c.files ==> Acyclic(c, d))
    ensures CompileAll(c, |c.files|, done, ds).Some?
    decreases |ds|
  {
    if ds != [] {
      if ds[0] !in done && ds[0] in c.files {
        assert c.files - {} == c.files;
        AcyclicTerminates(c, {}, |c.files|, done, ds[0]);
        DependenciesTerminate(c, Compile(c, |c.files|, done, ds[0]).value, ds[1..]);
      } else {
        DependenciesTerminate(c, done, ds[1..]);
      }
    }
  }

  /** The same for the dependencies of a MIB that has no file itself. */
  lemma MissingTerminatesIffAcyclic(c: Catalog, done: seq<Mib>, m: Mib)
    requires Closed(c) && m in c.deps && m !in c.files && Ordered(c, done)
    ensures CompileAll(c, |c.files|, done, c.deps[m]).Some? <==> Compilable(c, m)
    ensures (exists depth :: CompileAll(c, depth, done, c.deps[m]).Some?) <==> Compilable(c, m)
  {
    if Compilable(c, m) {
      forall d, x | d in c.deps[m] && Reaches(c, d, x) ensures !OnCycle(c, x) {
        assert Brings(c, m, x);
      }
      DependenciesTerminate(c, done, c.deps[m]);
    }
    if depth :| CompileAll(c, depth, done, c.deps[m]).Some? {
      MissingIsExact(c, depth, done, m);
      var r := CompileAll(c, depth, done, c.deps[m]).value;
      forall x | Brings(c, m, x) ensures !OnCycle(c, x) {
        OrderedHasNoCycle(c, r, x);
      }
    }
  }

  lemma MissingIsExact(c: Catalog, depth: nat, done: seq<Mib>, m: Mib)
    requires Closed(c) && m in c.deps && m !in c.files && Ordered(c, done)
    requires CompileAll(c, depth, done, c.deps[m]).Some?
    ensures var r := CompileAll(c, depth, done, c.deps[m]).value;
      && done <= r && Ordered(c, r)
      && forall x :: x in r <==> x in done || Brings(c, m, x)
  {
    var r := CompileAll(c, depth, done, c.deps[m]).value;
    CompileAllOrders(c, depth, done, c.deps[m]);
    assert r == done + r[|done|..];
    forall d, x | d in c.deps[m] && Reaches(c, d, x) ensures x in r {
      var p :| Walk(c, d, p, x);
      assert p[0] == d;
      WalkDescends(c, r, d, p, x);
    }
  }

  // ----- the module's globals

  /** `mib_dependency_map`, `file_map` and `compiled_mibs`. Running the external compiler is taken to
      succeed. */
  class MibStore {
    var deps: map<Mib, seq<Mib>>
    var files: set<Mib>
    var compiled: seq<Mib>

    function State(): Catalog
      reads this
    {
      Catalog(deps, files)
    }

    constructor ()
      ensures State() == Catalog(map[], {}) && compiled == [] && Closed(State())
    {
      deps, files, compiled := map[], {}, [];
    }

    /** `generate_dependencies`, given the names its regular expressions extract. */
    method GenerateDependencies(name: Mib, imports: seq<Mib>)
      requires Closed(State())
      modifies this`deps
      ensures Closed(State())
      ensures forall m :: m in deps <==> m in old(deps) || m == name || m in imports
      ensures deps[name] == (if name in old(deps) then old(deps)[name] else []) + imports
      ensures forall m :: m in deps && m != name ==> deps[m] == (if m in old(deps) then old(deps)[m] else [])
    {
      if name !in deps {
        deps := deps[name := []];
      }
      ghost var base := deps[name];
      for i := 0 to |imports|
        invariant name in deps && deps[name] == base + imports[..i]
        invariant forall m :: m in deps <==> m in old(deps) || m == name || m in imports[..i]
        invariant forall m :: m in deps && m != name ==> deps[m] == (if m in old(deps) then old(deps)[m] else [])
        invariant Closed(State())
      {
        var dependency := imports[i];
        assert imports[..i + 1] == imports[..i] + [dependency];
        if dependency !in deps {
          deps := deps[dependency := []];
        }
        deps := deps[name := deps[name] + [dependency]];
      }
      assert imports[..|imports|] == imports;
    }

    /** The part of `find_mibs` that files a MIB it has read. */
    method AddFile(name: Mib, imports: seq<Mib>)
      requires Closed(State())
      modifies this`deps, this`files
      ensures Closed(State()) && files == old(files) + {name} && name in deps
    {
      GenerateDependencies(name, imports);
      files := files + {name};
    }

    /** `compile_mib` of a MIB that has a file; `depth` bounds the recursion and is chosen by CompileMib. */
    method CompileWithin(name: Mib, ghost depth: nat)
      requires Closed(State()) && name in files
      requires Compile(State(), depth, compiled, name).Some?
      modifies this`compiled
      ensures Some(compiled) == Compile(State(), depth, old(compiled), name)
      decreases depth, 0
    {
      ResolveDependencies(name, depth - 1);
      compiled := compiled + [name];
    }

    /** The loop of `compile_mib`. */
    method ResolveDependencies(name: Mib, ghost depth: nat)
      requires Closed(State()) && name in deps
      requires CompileAll(State(), depth, compiled, deps[name]).Some?
      modifies this`compiled
      ensures Some(compiled) == CompileAll(State(), depth, old(compiled), deps[name])
      decreases depth, 1
    {
      ghost var c, expected := State(), CompileAll(State(), depth, compiled, deps[name]);
      var dependencies := deps[name];
      for i := 0 to |dependencies|
        invariant CompileAll(c, depth, compiled, dependencies[i..]) == expected
      {
        var dependency := dependencies[i];
        assert dependencies[i..][1..] == dependencies[i + 1..];
        if dependency !in compiled && dependency in files {
          CompileWithin(dependency, depth);
        }
      }
    }

    /** `compile_mib` when no cycle is in the way. False is a KeyError: of the dependency map for an
        unknown name, of the file map, after the dependencies are compiled, for one without a file. */
    method CompileMib(name: Mib) returns (ok: bool)
      requires Closed(State()) && Ordered(State(), compiled) && Compilable(State(), name)
      modifies this`compiled
      ensures ok <==> name in files
      ensures old(compiled) <= compiled && Ordered(State(), compiled)
      ensures forall x :: x in compiled <==> x in old(compiled) || Brings(State(), name, x)
      ensures Distinct(old(compiled)) ==> (Distinct(compiled) <==> name !in old(compiled))
    {
      if name !in deps {
        return false;
      }
      if name !in files {
        MissingTerminatesIffAcyclic(State(), compiled, name);
        MissingIsExact(State(), |files|, compiled, name);
        if Distinct(compiled) {
          CompileAllKeepsDistinct(State(), |files|, compiled, deps[name]);
        }
        ResolveDependencies(name, |files|);
        return false;
      }
      assert Acyclic(State(), name) by {
        forall x | Reaches(State(), name, x) ensures !OnCycle(State(), x) {
          assert Brings(State(), name, x);
        }
      }
      TerminatesIffAcyclic(State(), compiled, name);
      CompileOrders(State(), |files|, compiled, name);
      CompileIsExact(State(), |files|, compiled, name);
      if Distinct(compiled) {
        NoDuplicates(State(), |files|, compiled, name);
      }
      CompileWithin(name, |files|);
      return true;
    }
  }
}
