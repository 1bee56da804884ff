/** Version requirements of components on each other: the search that reports which
    requirements are not met, over component graphs that may have cycles. */
module Versions {
  import Configuration

  type Component = nat

  datatype Version = Version(major: int, minor: int, patch: int)

  /** A requirement of a component: on the version of another one, or of another kind. */
  datatype Requirement =
    | VersionRequirement(name: string, optional: bool, component: Component, required: seq<int>)
    | OtherRequirement(name: string, optional: bool)

  /** The components there are. Only configurable ones have requirements. */
  datatype Graph = Graph(components: set<Component>, version: Component -> Version,
                         configurable: Component -> bool, requirements: Component -> seq<Requirement>)

  ghost predicate Closed(g: Graph) {
    forall c, r :: c in g.components && r in g.requirements(c) && r.VersionRequirement? ==> r.component in g.components
  }

  /** `matches_required`: the same major version, and at least the minor one. */
  predicate MatchesRequired(required: seq<int>, v: Version) {
    && (|required| > 0 ==> v.major == required[0])
    && (|required| > 1 ==> v.minor >= required[1])
  }

  // ---- what a required version means ----

  /** A later release that keeps what users of `v` rely on: a patch, or the next minor version. */
  predicate KeepsWorking(v: Version, w: Version) {
    w.major == v.major && (w.minor == v.minor || w.minor == v.minor + 1)
  }

  /** `n` such releases lead from `v` to `w`. */
  ghost predicate Upgrades(v: Version, w: Version, n: nat)
    decreases n
  {
    if n == 0 then v == w else exists u :: KeepsWorking(v, u) && Upgrades(u, w, n - 1)
  }

  ghost predicate UpgradesTo(v: Version, w: Version) {
    exists n :: Upgrades(v, w, n)
  }

  /** Some version with the required numbers leads to `v`; numbers that are not given are free, and
      numbers after the first two are not looked at. */
  ghost predicate Compatible(required: seq<int>, v: Version) {
    exists w :: StartsWith(required, w) && UpgradesTo(w, v)
  }

  predicate StartsWith(required: seq<int>, w: Version) {
    (|required| > 0 ==> w.major == required[0]) && (|required| > 1 ==> w.minor == required[1])
  }

  lemma {:induction false} UpgradesRise(v: Version, w: Version, n: nat)
    requires Upgrades(v, w, n)
    ensures w.major == v.major && v.minor <= w.minor
    decreases n
  {
    if n > 0 {
      var u :| KeepsWorking(v, u) && Upgrades(u, w, n - 1);
      UpgradesRise(u, w, n - 1);
    }
  }

  lemma {:induction false} RisesByUpgrades(v: Version, w: Version, n: nat)
    requires w.major == v.major && w.minor == v.minor + n
    ensures Upgrades(v, w, n + 1)
    decreases n
  {
    if n == 0 {
      assert KeepsWorking(v, w) && Upgrades(w, w, 0);
    } else {
      var u := Version(v.major, v.minor + 1, v.patch);
      RisesByUpgrades(u, w, n - 1);
      assert KeepsWorking(v, u);
    }
  }

  /** A version matches exactly if releases that keep users working lead to it from a version with
      the required numbers. */
  lemma {:induction false} MatchesIffCompatible(required: seq<int>, v: Version)
    ensures MatchesRequired(required, v) <==> Compatible(required, v)
  {
    if MatchesRequired(required, v) {
      var minor := if |required| > 1 then required[1] else v.minor;
      var w := Version(v.major, minor, v.patch);
      RisesByUpgrades(w, v, v.minor - minor);
      assert StartsWith(required, w) && UpgradesTo(w, v);
    }
    if Compatible(required, v) {
      var w :| StartsWith(required, w) && UpgradesTo(w, v);
      var n :| Upgrades(w, v, n);
      UpgradesRise(w, v, n);
    }
  }

  predicate Met(g: Graph, r: Requirement)
    requires r.VersionRequirement?
  {
    MatchesRequired(r.required, g.version(r.component))
  }

  predicate Counts(r: Requirement) {
    !r.optional && r.VersionRequirement?
  }

  /** `path_join` of two parts: empty parts are dropped. */
  function PathJoin(a: string, b: string): string {
    if a == "" then b else if b == "" then a else a + "." + b
  }

  /** A joined path is read back by the configuration: its first part, and the rest. */
  lemma {:induction false} JoinedPathSplits(a: string, b: string)
    requires a != "" && '.' !in a
    ensures b != "" ==>
              var path := PathJoin(a, b);
              '.' in path && Configuration.Head(path, '.') == a && Configuration.Tail(path, '.') == b
    ensures PathJoin("", b) == b && PathJoin(a, "") == a
  {
    if b != "" { Configuration.JoinParts(a, '.', b); }
  }

  /** What a search gives: the unmet requirements by configuration path, and the
      configuration entries it sets for requirements found to be met. */
  datatype Finding = Finding(unmet: map<string, Requirement>, marked: seq<string>)

  /** `unsatisfied` with the components on the path to `r` as accumulator. */
  function Unsatisfied(g: Graph, r: Requirement, path: string, accumulator: set<Component>): Finding
    requires Closed(g) && r.VersionRequirement? && r.component in g.components
    decreases |g.components - accumulator|, 0, 0
  {
    var here := PathJoin(path, r.name);
    if !Met(g, r) then Finding(map[here := r], [])
    else if r.component in accumulator || !g.configurable(r.component) then Finding(map[], [PathJoin(here, r.name)])
    else
      var rs := g.requirements(r.component);
      Smaller(g, accumulator, r.component);
      var f := AllUnsatisfied(g, r.component, rs, |rs|, here, accumulator + {r.component});
      if f.unmet != map[] then Finding(f.unmet[here := r], f.marked)
      else Finding(map[], f.marked + [PathJoin(here, r.name)])
  }

  /** The loop over the first `n` requirements of `c`, each with its own copy of the accumulator. */
  function AllUnsatisfied(g: Graph, c: Component, rs: seq<Requirement>, n: nat, path: string,
                          accumulator: set<Component>): Finding
    requires Closed(g) && c in g.components && rs == g.requirements(c) && n <= |rs|
    decreases |g.components - accumulator|, 1, n
  {
    if n == 0 then Finding(map[], [])
    else
      var f, r := AllUnsatisfied(g, c, rs, n - 1, path, accumulator), rs[n - 1];
      if !Counts(r) then f
      else
        var more := Unsatisfied(g, r, path, accumulator);
        Finding(f.unmet + more.unmet, f.marked + more.marked)
  }

  lemma {:induction false} Smaller(g: Graph, accumulator: set<Component>, c: Component)
    requires c in g.components && c !in accumulator
    ensures |g.components - (accumulator + {c})| < |g.components - accumulator|
  {
    assert g.components - (accumulator + {c}) == g.components - accumulator - {c};
  }

  /** The recursive search with its loop. No accumulator is given at the root. */
  method FindUnsatisfied(g: Graph, r: Requirement, path: string, given: set<Component>) returns (f: Finding)
    requires Closed(g) && r.VersionRequirement? && r.component in g.components
    ensures f == Unsatisfied(g, r, path, given)
    decreases |g.components - given|
  {
    var here := PathJoin(path, r.name);
    if !Met(g, r) {
      return Finding(map[here := r], []);
    }
    var recurse, accumulator := true, given;
    if r.component in accumulator {
      recurse := false;
    } else {
      accumulator := accumulator + {r.component};
    }
    var marked: seq<string> := [];
    if g.configurable(r.component) && recurse {
      Smaller(g, given, r.component);
      var rs := g.requirements(r.component);
      var unmet: map<string, Requirement> := map[];
      for i := 0 to |rs|
        invariant Finding(unmet, marked) == AllUnsatisfied(g, r.component, rs, i, here, accumulator)
      {
        if !rs[i].optional && rs[i].VersionRequirement? {
          assert rs[i] in rs;
          var more := FindUnsatisfied(g, rs[i], here, accumulator);
          unmet, marked := unmet + more.unmet, marked + more.marked;
        }
      }
      if unmet != map[] {
        return Finding(unmet[here := r], marked);
      }
    }
    return Finding(map[], marked + [PathJoin(here, r.name)]);
  }

  // ---- which requirements the search is about ----

  /** `r` is a requirement that counts for the component that `q` is about. */
  predicate Step(g: Graph, q: Requirement, r: Requirement)
    requires q.VersionRequirement?
  {
    && g.configurable(q.component) && r in g.requirements(q.component)
    && r.VersionRequirement? && !r.optional
  }

  /** A chain of requirements, each of the component the one before it is about. */
  ghost predicate Chain(g: Graph, rs: seq<Requirement>) {
    && rs != [] && (forall i :: 0 <= i < |rs| ==> rs[i].VersionRequirement?)
    && (forall i, j :: 0 <= i && j == i + 1 && j < |rs| ==> Step(g, rs[i], rs[j]))
  }

  /** `rs` is a chain from `root` to `r`. */
  ghost predicate Leads(g: Graph, rs: seq<Requirement>, root: Requirement, r: Requirement) {
    Chain(g, rs) && rs[0] == root && rs[|rs| - 1] == r
  }

  /** Every version requirement that counts and can be reached from `root` asks for a version that
      leads to the one there is. */
  ghost predicate AllMet(g: Graph, root: Requirement) {
    forall rs, r :: Leads(g, rs, root, r) ==> Compatible(r.required, g.version(r.component))
  }

  /** The components before the end of a chain are different from each other and from `acc`. */
  ghost predicate Simple(rs: seq<Requirement>, acc: set<Component>) {
    && (forall i :: 0 <= i < |rs| ==> rs[i].VersionRequirement?)
    && (forall i :: 0 <= i < |rs| - 1 ==> rs[i].component !in acc)
    && (forall i, j :: 0 <= i < j < |rs| - 1 ==> rs[i].component != rs[j].component)
  }

  /** A chain the search follows to its end: all before the end are met. */
  ghost predicate Followed(g: Graph, rs: seq<Requirement>, r: Requirement, acc: set<Component>) {
    Chain(g, rs) && rs[0] == r && Simple(rs, acc) && forall i :: 0 <= i < |rs| - 1 ==> Met(g, rs[i])
  }

  /** A chain the search follows to a requirement that is not met. */
  ghost predicate Fails(g: Graph, rs: seq<Requirement>, r: Requirement, acc: set<Component>) {
    Followed(g, rs, r, acc) && !Met(g, rs[|rs| - 1])
  }

  /** The configuration path of the end of a chain. */
  function PathOf(path: string, rs: seq<Requirement>): string
    decreases |rs|
  {
    if rs == [] then path else PathOf(PathJoin(path, rs[0].name), rs[1..])
  }

  lemma {:induction false} FollowedFurther(g: Graph, q: Requirement, rs: seq<Requirement>, r: Requirement,
                                           acc: set<Component>)
    requires q.VersionRequirement? && Met(g, q) && q.component !in acc && rs != [] && rs[0] == r
    ensures ([q] + rs)[1..] == rs
    ensures Followed(g, [q] + rs, q, acc) <==> Step(g, q, r) && Followed(g, rs, r, acc + {q.component})
  {
    assert ([q] + rs)[1..] == rs && ([q] + rs)[0] == q;
    ChainFurther(g, q, rs);
    SimpleFurther(q, rs, acc);
    if Chain(g, rs) { MetFurther(g, q, rs); }
  }

  lemma {:induction false} ChainFurther(g: Graph, q: Requirement, rs: seq<Requirement>)
    requires q.VersionRequirement? && rs != []
    ensures Chain(g, [q] + rs) <==> Step(g, q, rs[0]) && Chain(g, rs)
  {
    var all := [q] + rs;
    if Chain(g, all) {
      assert Step(g, all[0], all[1]);
      assert forall i :: 0 <= i < |rs| ==> rs[i] == all[i + 1];
      forall i, j | 0 <= i && j == i + 1 && j < |rs| ensures Step(g, rs[i], rs[j]) {
        assert Step(g, all[i + 1], all[j + 1]);
      }
    }
    if Step(g, q, rs[0]) && Chain(g, rs) {
      forall i, j | 0 <= i && j == i + 1 && j < |all| ensures Step(g, all[i], all[j]) {
        if i > 0 { assert all[i] == rs[i - 1] && all[j] == rs[j - 1]; }
      }
    }
  }

  lemma {:induction false} SimpleFurther(q: Requirement, rs: seq<Requirement>, acc: set<Component>)
    requires q.VersionRequirement? && rs != [] && q.component !in acc
    ensures Simple([q] + rs, acc) <==> Simple(rs, acc + {q.component})
  {
    var all := [q] + rs;
    if Simple(all, acc) {
      assert forall i :: 0 <= i < |rs| ==> rs[i] == all[i + 1];
      forall i | 0 <= i < |rs| - 1 ensures rs[i].component !in acc + {q.component} {
        assert all[0].component != all[i + 1].component;
      }
    }
    if Simple(rs, acc + {q.component}) {
      assert forall i :: 0 < i < |all| ==> all[i] == rs[i - 1];
    }
  }

  lemma {:induction false} MetFurther(g: Graph, q: Requirement, rs: seq<Requirement>)
    requires q.VersionRequirement? && Met(g, q) && rs != [] && forall i :: 0 <= i < |rs| ==> rs[i].VersionRequirement?
    ensures (forall i :: 0 <= i < |[q] + rs| - 1 ==> Met(g, ([q] + rs)[i]))
            <==> (forall i :: 0 <= i < |rs| - 1 ==> Met(g, rs[i]))
  {
    var all := [q] + rs;
    assert forall i :: 0 <= i < |rs| ==> rs[i] == all[i + 1];
    assert forall i :: 0 < i < |all| ==> all[i] == rs[i - 1];
  }

  lemma {:induction false} FailsFurther(g: Graph, q: Requirement, rs: seq<Requirement>, r: Requirement,
                                        acc: set<Component>)
    requires q.VersionRequirement? && Met(g, q) && q.component !in acc && rs != [] && rs[0] == r
    ensures Fails(g, [q] + rs, q, acc) <==> Step(g, q, r) && Fails(g, rs, r, acc + {q.component})
  {
    FollowedFurther(g, q, rs, r, acc);
  }

  /** Behind a requirement that is met, chains that fail go on with one of the component's. */
  lemma {:induction false} RestFails(g: Graph, q: Requirement, rs: seq<Requirement>, acc: set<Component>)
    requires Fails(g, rs, q, acc) && Met(g, q)
    ensures |rs| > 1 && q.component !in acc && Step(g, q, rs[1]) && Fails(g, rs[1..], rs[1], acc + {q.component})
  {
    assert rs == [q] + rs[1..];
    FailsFurther(g, q, rs[1..], rs[1], acc);
  }

  // ---- what is reported ----

  /** `q` is reported under `key`: it lies on a chain from `r` that fails, and `key` is the path of
      the chain up to it. */
  ghost predicate Reported(g: Graph, r: Requirement, path: string, acc: set<Component>, key: string, q: Requirement) {
    exists rs, n ::
      Fails(g, rs, r, acc) && 1 <= n <= |rs| && rs[n - 1] == q && PathOf(path, rs[..n]) == key
  }

  /** One of the requirements `rs` of a component reports `q` under `key`. */
  ghost predicate ReportedByOne(g: Graph, rs: seq<Requirement>, path: string, acc: set<Component>, key: string,
                                q: Requirement)
  {
    exists r :: r in rs && Counts(r) && Reported(g, r, path, acc, key, q)
  }

  lemma {:induction false} ReportedFurther(g: Graph, q: Requirement, r: Requirement, path: string, acc: set<Component>,
                                           key: string, p: Requirement)
    requires q.VersionRequirement? && Met(g, q) && q.component !in acc && Step(g, q, r)
    requires Reported(g, r, PathJoin(path, q.name), acc + {q.component}, key, p)
    ensures Reported(g, q, path, acc, key, p) && Reported(g, q, path, acc, PathJoin(path, q.name), q)
  {
    var rs, n :| Fails(g, rs, r, acc + {q.component}) && 1 <= n <= |rs| && rs[n - 1] == p
      && PathOf(PathJoin(path, q.name), rs[..n]) == key;
    var all := [q] + rs;
    FailsFurther(g, q, rs, r, acc);
    assert all[..n + 1][1..] == rs[..n] && all[n] == p;
    assert all[..1][1..] == [] && PathOf(path, all[..1]) == PathJoin(path, q.name);
  }

  /** What the search reports lies on a chain that fails, under the path of the chain. */
  lemma {:induction false} ReportedIsUnmet(g: Graph, r: Requirement, path: string, acc: set<Component>,
                                           unmet: map<string, Requirement>, k: string)
    requires Closed(g) && r.VersionRequirement? && r.component in g.components
    requires unmet == Unsatisfied(g, r, path, acc).unmet && k in unmet
    ensures Reported(g, r, path, acc, k, unmet[k])
    decreases |g.components - acc|, 0, 0
  {
    var here := PathJoin(path, r.name);
    if !Met(g, r) {
      assert Fails(g, [r], r, acc) && [r][..1][1..] == [] && PathOf(path, [r][..1]) == here;
    } else if r.component !in acc && g.configurable(r.component) {
      var rs := g.requirements(r.component);
      Smaller(g, acc, r.component);
      var f := AllUnsatisfied(g, r.component, rs, |rs|, here, acc + {r.component});
      var k' := if k in f.unmet then k else var j :| j in f.unmet; j;
      AllReportedAreUnmet(g, r.component, rs, |rs|, here, acc + {r.component}, f.unmet, k');
      var q :| q in rs && Counts(q) && Reported(g, q, here, acc + {r.component}, k', f.unmet[k']);
      ReportedFurther(g, r, q, path, acc, k', f.unmet[k']);
    }
  }

  lemma {:induction false} AllReportedAreUnmet(g: Graph, c: Component, rs: seq<Requirement>, n: nat, path: string,
                                               acc: set<Component>, unmet: map<string, Requirement>, k: string)
    requires Closed(g) && c in g.components && rs == g.requirements(c) && n <= |rs|
    requires unmet == AllUnsatisfied(g, c, rs, n, path, acc).unmet && k in unmet
    ensures ReportedByOne(g, rs, path, acc, k, unmet[k])
    decreases |g.components - acc|, 1, n
  {
    var r, before := rs[n - 1], AllUnsatisfied(g, c, rs, n - 1, path, acc).unmet;
    if Counts(r) && k in Unsatisfied(g, r, path, acc).unmet {
      assert r in rs;
      ReportedIsUnmet(g, r, path, acc, Unsatisfied(g, r, path, acc).unmet, k);
    } else {
      AllReportedAreUnmet(g, c, rs, n - 1, path, acc, before, k);
    }
  }

  /** Along a chain that fails the search reports every requirement. */
  lemma {:induction false} ChainIsSearched(g: Graph, rs: seq<Requirement>, r: Requirement, path: string,
                                           acc: set<Component>, n: nat)
    requires Closed(g) && Fails(g, rs, r, acc) && r.component in g.components && 1 <= n <= |rs|
    ensures PathOf(path, rs[..n]) in Unsatisfied(g, r, path, acc).unmet
    decreases |rs|
  {
    var here := PathJoin(path, r.name);
    assert rs[..n][1..] == rs[1..][..n - 1];
    assert |rs| > 1 ==> Met(g, rs[0]);
    if Met(g, r) {
      RestFails(g, r, rs, acc);
      var m := if n > 1 then n - 1 else 1;
      ChainIsSearched(g, rs[1..], rs[1], here, acc + {r.component}, m);
      ChildIsReported(g, r.component, g.requirements(r.component), |g.requirements(r.component)|, here,
          acc + {r.component}, rs[1], PathOf(here, rs[1..][..m]));
    }
  }

  lemma {:induction false} ChildIsReported(g: Graph, c: Component, rs: seq<Requirement>, n: nat, path: string,
                                           acc: set<Component>, r: Requirement, key: string)
    requires Closed(g) && c in g.components && rs == g.requirements(c) && n <= |rs| && r in rs[..n] && Counts(r)
    requires r.component in g.components && key in Unsatisfied(g, r, path, acc).unmet
    ensures key in AllUnsatisfied(g, c, rs, n, path, acc).unmet
  {
    assert rs[..n] == rs[..n - 1] + [rs[n - 1]];
    if r in rs[..n - 1] { ChildIsReported(g, c, rs, n - 1, path, acc, r, key); }
  }

  // ---- what is marked as met ----

  /** Some chain that fails goes on from `rs`. */
  ghost predicate FailsBehind(g: Graph, rs: seq<Requirement>, r: Requirement, acc: set<Component>) {
    exists ss :: rs < ss && Fails(g, ss, r, acc)
  }

  /** The entry `key` belongs to the end of a chain that the search follows, where it is met and
      nothing fails behind it. */
  ghost predicate Marked(g: Graph, r: Requirement, path: string, acc: set<Component>, key: string) {
    exists rs :: MarkedBy(g, rs, r, path, acc, key)
  }

  ghost predicate MarkedBy(g: Graph, rs: seq<Requirement>, r: Requirement, path: string, acc: set<Component>,
                           key: string)
  {
    Followed(g, rs, r, acc) && var q := rs[|rs| - 1];
    Met(g, q) && !FailsBehind(g, rs, r, acc) && key == PathJoin(PathOf(path, rs), q.name)
  }

  ghost predicate MarkedByOne(g: Graph, rs: seq<Requirement>, path: string, acc: set<Component>, key: string) {
    exists r :: r in rs && Counts(r) && Marked(g, r, path, acc, key)
  }

  lemma {:induction false} FailsBehindFurther(g: Graph, q: Requirement, rs: seq<Requirement>, r: Requirement,
                                              acc: set<Component>)
    requires q.VersionRequirement? && Met(g, q) && q.component !in acc && Step(g, q, r) && rs != [] && rs[0] == r
    ensures FailsBehind(g, [q] + rs, q, acc) <==> FailsBehind(g, rs, r, acc + {q.component})
  {
    if FailsBehind(g, [q] + rs, q, acc) {
      var ss :| [q] + rs < ss && Fails(g, ss, q, acc);
      assert ss == [q] + ss[1..] && rs <= ss[1..];
      FailsFurther(g, q, ss[1..], r, acc);
    }
    if FailsBehind(g, rs, r, acc + {q.component}) {
      var ss :| rs < ss && Fails(g, ss, r, acc + {q.component});
      FailsFurther(g, q, ss, r, acc);
      assert [q] + rs < [q] + ss;
    }
  }

  lemma {:induction false} MarkedFurther(g: Graph, q: Requirement, rs: seq<Requirement>, r: Requirement, path: string,
                                         acc: set<Component>, key: string)
    requires q.VersionRequirement? && Met(g, q) && q.component !in acc && Step(g, q, r) && rs != [] && rs[0] == r
    ensures MarkedBy(g, [q] + rs, q, path, acc, key)
            <==> MarkedBy(g, rs, r, PathJoin(path, q.name), acc + {q.component}, key)
  {
    FollowedFurther(g, q, rs, r, acc);
    FailsBehindFurther(g, q, rs, r, acc);
    assert PathOf(path, [q] + rs) == PathOf(PathJoin(path, q.name), rs);
  }

  /** Nothing fails behind a requirement that is met exactly if the search from it reports nothing. */
  lemma {:induction false} NothingBehind(g: Graph, r: Requirement, path: string, acc: set<Component>,
                                         unmet: map<string, Requirement>)
    requires Closed(g) && r.VersionRequirement? && r.component in g.components && Met(g, r)
    requires unmet == Unsatisfied(g, r, path, acc).unmet
    ensures FailsBehind(g, [r], r, acc) <==> unmet != map[]
    ensures Followed(g, [r], r, acc) && PathOf(path, [r]) == PathJoin(path, r.name)
  {
    assert [r][1..] == [];
    if FailsBehind(g, [r], r, acc) {
      var ss :| [r] < ss && Fails(g, ss, r, acc);
      ChainIsSearched(g, ss, r, path, acc, 1);
    }
    if unmet != map[] {
      var k :| k in unmet;
      ReportedIsUnmet(g, r, path, acc, unmet, k);
      var ss, n :| Fails(g, ss, r, acc) && 1 <= n <= |ss| && ss[n - 1] == unmet[k] && PathOf(path, ss[..n]) == k;
      assert [r] < ss;
    }
  }

  /** What the search marks as met is met, with everything behind it. */
  lemma {:induction false} MarkedIsMet(g: Graph, r: Requirement, path: string, acc: set<Component>, key: string)
    requires Closed(g) && r.VersionRequirement? && r.component in g.components
    requires key in Unsatisfied(g, r, path, acc).marked
    ensures Marked(g, r, path, acc, key)
    decreases |g.components - acc|, 0, 0
  {
    var here := PathJoin(path, r.name);
    NothingBehind(g, r, path, acc, Unsatisfied(g, r, path, acc).unmet);
    if r.component in acc || !g.configurable(r.component) {
      assert MarkedBy(g, [r], r, path, acc, key);
    } else {
      var rs := g.requirements(r.component);
      Smaller(g, acc, r.component);
      var f := AllUnsatisfied(g, r.component, rs, |rs|, here, acc + {r.component});
      if key in f.marked {
        AllMarkedAreMet(g, r.component, rs, |rs|, here, acc + {r.component}, key);
        var q :| q in rs && Counts(q) && Marked(g, q, here, acc + {r.component}, key);
        var ss :| MarkedBy(g, ss, q, here, acc + {r.component}, key);
        MarkedFurther(g, r, ss, q, path, acc, key);
      } else {
        assert MarkedBy(g, [r], r, path, acc, key);
      }
    }
  }

  lemma {:induction false} AllMarkedAreMet(g: Graph, c: Component, rs: seq<Requirement>, n: nat, path: string,
                                           acc: set<Component>, key: string)
    requires Closed(g) && c in g.components && rs == g.requirements(c) && n <= |rs|
    requires key in AllUnsatisfied(g, c, rs, n, path, acc).marked
    ensures MarkedByOne(g, rs, path, acc, key)
    decreases |g.components - acc|, 1, n
  {
    var r := rs[n - 1];
    if Counts(r) && key in Unsatisfied(g, r, path, acc).marked {
      assert r in rs;
      MarkedIsMet(g, r, path, acc, key);
    } else {
      AllMarkedAreMet(g, c, rs, n - 1, path, acc, key);
    }
  }

  /** Every end of a chain that is met, with nothing failing behind it, is marked. */
  lemma {:induction false} MetIsMarked(g: Graph, rs: seq<Requirement>, r: Requirement, path: string,
                                       acc: set<Component>, key: string)
    requires Closed(g) && r.VersionRequirement? && r.component in g.components && MarkedBy(g, rs, r, path, acc, key)
    ensures key in Unsatisfied(g, r, path, acc).marked
    decreases |rs|
  {
    var here := PathJoin(path, r.name);
    if |rs| == 1 {
      assert rs == [r];
      NothingBehind(g, r, path, acc, Unsatisfied(g, r, path, acc).unmet);
    } else {
      var q, rest := rs[1], rs[1..];
      assert rs == [r] + rest && Step(g, rs[0], rs[1]);
      MarkedFurther(g, r, rest, q, path, acc, key);
      MetIsMarked(g, rest, q, here, acc + {r.component}, key);
      ChildIsMarked(g, r.component, g.requirements(r.component), |g.requirements(r.component)|, here,
          acc + {r.component}, q, key);
    }
  }

  lemma {:induction false} ChildIsMarked(g: Graph, c: Component, rs: seq<Requirement>, n: nat, path: string,
                                         acc: set<Component>, r: Requirement, key: string)
    requires Closed(g) && c in g.components && rs == g.requirements(c) && n <= |rs| && r in rs[..n] && Counts(r)
    requires r.component in g.components && key in Unsatisfied(g, r, path, acc).marked
    ensures key in AllUnsatisfied(g, c, rs, n, path, acc).marked
  {
    assert rs[..n] == rs[..n - 1] + [rs[n - 1]];
    if r in rs[..n - 1] { ChildIsMarked(g, c, rs, n - 1, path, acc, r, key); }
  }

  // ---- nothing is missed ----

  /** A chain that goes through a component twice can leave out the detour. */
  lemma {:induction false} SimpleChain(g: Graph, rs: seq<Requirement>, root: Requirement, r: Requirement)
    returns (ss: seq<Requirement>)
    requires Leads(g, rs, root, r)
    ensures Leads(g, ss, root, r) && Simple(ss, {})
    decreases |rs|
  {
    if i, j :| 0 <= i < j < |rs| - 1 && rs[i].component == rs[j].component {
      var shorter := rs[..i + 1] + rs[j + 1..];
      forall k, l | 0 <= k && l == k + 1 && l < |shorter| ensures Step(g, shorter[k], shorter[l]) {
        if k < i {
          assert shorter[k] == rs[k] && shorter[l] == rs[l];
        } else {
          var m := k + (j - i);
          assert shorter[l] == rs[m + 1] && Step(g, rs[m], rs[m + 1]);
          assert k == i ==> m == j;
        }
      }
      ss := SimpleChain(g, shorter, root, r);
    } else {
      ss := rs;
    }
  }

  /** A simple chain up to its first requirement that is not met. */
  lemma {:induction false} FirstUnmet(g: Graph, rs: seq<Requirement>, root: Requirement, acc: set<Component>)
    returns (ss: seq<Requirement>)
    requires Chain(g, rs) && rs[0] == root && Simple(rs, acc) && !Met(g, rs[|rs| - 1])
    ensures Fails(g, ss, root, acc)
    decreases |rs|
  {
    if i :| 0 <= i < |rs| - 1 && !Met(g, rs[i]) {
      ss := FirstUnmet(g, rs[..i + 1], root, acc);
    } else {
      ss := rs;
    }
  }

  /** The search from a root reports nothing exactly when every version requirement that
      counts and can be reached is met, although each path has its own accumulator and
      stops at the components on it. */
  lemma {:induction false} NothingUnsatisfiedIffAllMet(g: Graph, root: Requirement, path: string)
    requires Closed(g) && root.VersionRequirement? && root.component in g.components
    ensures Unsatisfied(g, root, path, {}).unmet == map[] <==> AllMet(g, root)
    ensures Unsatisfied(g, root, path, {}).unmet == map[]
              || PathJoin(path, root.name) in Unsatisfied(g, root, path, {}).unmet
  {
    var unmet := Unsatisfied(g, root, path, {}).unmet;
    if unmet != map[] {
      var k :| k in unmet;
      ReportedIsUnmet(g, root, path, {}, unmet, k);
      var rs, n :| Fails(g, rs, root, {}) && 1 <= n <= |rs| && rs[n - 1] == unmet[k] && PathOf(path, rs[..n]) == k;
      var bad := rs[|rs| - 1];
      assert Leads(g, rs, root, bad);
      MatchesIffCompatible(bad.required, g.version(bad.component));
      ChainIsSearched(g, rs, root, path, {}, 1);
      assert rs[..1][1..] == [];
    } else {
      forall rs, r | Leads(g, rs, root, r) ensures Compatible(r.required, g.version(r.component)) {
        MatchesIffCompatible(r.required, g.version(r.component));
        if !Met(g, r) {
          var ss := SimpleChain(g, rs, root, r);
          var fs := FirstUnmet(g, ss, root, {});
          ChainIsSearched(g, fs, root, path, {}, 1);
        }
      }
    }
  }
}
