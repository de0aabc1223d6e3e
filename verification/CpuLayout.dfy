/**
 Reserving physical CPU cores for the benchmark and reading the reservation back:
 the selection script writes a layout, the benchmark takes each role's CPUs from it.
 */
module CpuLayout {
  import opened Wrappers

  datatype CoreInfo = CoreInfo(coreId: string, cpus: seq<nat>, skipped: bool, node: Option<int>)

  /** A core has at least one CPU; the first one is its primary. */
  type Core = c: CoreInfo | c.cpus != [] witness CoreInfo("", [0], false, None)

  /** What the kernel reports: the CPU directories in numeric order, the CPUs online, the
      sibling list of each CPU where there is one, its NUMA node and its core id. */
  datatype Topology = Topology(present: seq<nat>, online: set<nat>, siblings: map<nat, seq<nat>>,
                               node: map<nat, int>, coreId: map<nat, string>)

  // ----- thread siblings -----

  ghost predicate Ascending(s: seq<nat>) {
    forall i, j :: 0 <= i < j < |s| ==> s[i] < s[j]
  }

  function InsertOnce(s: seq<nat>, x: nat): (r: seq<nat>)
    requires Ascending(s)
    ensures Ascending(r) && forall y :: y in r <==> y in s || y == x
  {
    if s == [] then [x]
    else
      var a, z := s[..|s| - 1], s[|s| - 1];
      assert forall y :: y in s <==> y in a || y == z;
      if z < x then s + [x]
      else if z == x then s
      else
        var r := InsertOnce(a, x);
        assert forall i :: 0 <= i < |r| ==> r[i] < z by {
          forall i | 0 <= i < |r| ensures r[i] < z { assert r[i] in r; }
        }
        r + [z]
  }

  /** `sorted(set(list))`. */
  function SortedSet(s: seq<nat>): (r: seq<nat>)
    ensures Ascending(r) && forall y :: y in r <==> y in s
  {
    if s == [] then []
    else
      assert s == s[..|s| - 1] + [s[|s| - 1]];
      InsertOnce(SortedSet(s[..|s| - 1]), s[|s| - 1])
  }

  function Online(s: seq<nat>, online: set<nat>): (r: seq<nat>)
    requires Ascending(s)
    ensures Ascending(r) && forall y :: y in r <==> y in s && y in online
  {
    if s == [] then []
    else
      var a, z := s[..|s| - 1], s[|s| - 1];
      assert s == a + [z];
      var r := Online(a, online);
      assert forall i :: 0 <= i < |r| ==> r[i] < z by {
        forall i | 0 <= i < |r| ensures r[i] < z { assert r[i] in a; }
      }
      if z in online then r + [z] else r
  }

  /** The CPUs that share a core with `cpu`, in order; `cpu` alone without information. */
  function Group(t: Topology, cpu: nat): (g: seq<nat>)
    ensures Ascending(g) && g != []
  {
    if cpu !in t.siblings || t.siblings[cpu] == [] then [cpu]
    else
      var g := Online(SortedSet(t.siblings[cpu]), t.online);
      if g == [] then [cpu] else g
  }

  // ----- collecting the cores -----

  /** The machine as the collector sees it: CPUs in numeric order and their groups. */
  datatype Machine = Machine(cpus: seq<nat>, online: set<nat>, group: nat -> seq<nat>,
                             node: map<nat, int>, coreId: map<nat, string>)

  function MachineOf(t: Topology): Machine {
    Machine(t.present, t.online, (c: nat) => Group(t, c), t.node, t.coreId)
  }

  /** A CPU that exists and is online. */
  ghost predicate Usable(m: Machine, c: nat) {
    c in m.cpus && c in m.online
  }

  /** The groups partition the usable CPUs, and each lists its CPUs in order. */
  ghost predicate Partition(m: Machine) {
    && Ascending(m.cpus)
    && (forall c :: Usable(m, c) ==> c in m.group(c) && Ascending(m.group(c)))
    && (forall c, d :: Usable(m, c) && d in m.group(c) ==> Usable(m, d) && m.group(d) == m.group(c))
  }

  predicate Touches(g: seq<nat>, skip: set<nat>) {
    exists c :: c in g && c in skip
  }

  function Decimal(n: nat): string {
    (if n < 10 then "" else Decimal(n / 10)) + ['0' + (n % 10) as char]
  }

  /** The core of a CPU; a missing core id is replaced by the CPU number. */
  function CoreAt(m: Machine, cpu: nat, skip: set<nat>): Core
    requires m.group(cpu) != []
  {
    CoreInfo(if cpu in m.coreId then m.coreId[cpu] else Decimal(cpu), m.group(cpu), Touches(m.group(cpu), skip),
         if cpu in m.node then Some(m.node[cpu]) else None)
  }

  /** The cores found among the first `k` CPUs, and the groups already met. */
  function Collect(m: Machine, skip: set<nat>, k: nat): (r: (seq<Core>, seq<seq<nat>>))
    requires k <= |m.cpus|
  {
    if k == 0 then ([], []) else CollectCpu(m, skip, m.cpus[k - 1], Collect(m, skip, k - 1))
  }

  function CollectCpu(m: Machine, skip: set<nat>, cpu: nat, r: (seq<Core>, seq<seq<nat>>)): (seq<Core>, seq<seq<nat>>) {
    var g := m.group(cpu);
    if cpu !in m.online || g == [] || g in r.1 then r
    else if 0 in g then (r.0, r.1 + [g])
    else (r.0 + [CoreAt(m, cpu, skip)], r.1 + [g])
  }

  /** A whole core: the group of its first CPU, which is usable, and not the core of CPU 0. */
  ghost predicate WholeCore(m: Machine, skip: set<nat>, c: Core) {
    && Usable(m, c.cpus[0]) && 0 !in c.cpus
    && m.group(c.cpus[0]) == c.cpus
    && (c.skipped <==> exists x :: x in c.cpus && x in skip)
    && c.node == (if c.cpus[0] in m.node then Some(m.node[c.cpus[0]]) else None)
    && c.coreId == (if c.cpus[0] in m.coreId then m.coreId[c.cpus[0]] else Decimal(c.cpus[0]))
  }

  ghost predicate WholeCores(m: Machine, skip: set<nat>, cores: seq<Core>) {
    forall i :: 0 <= i < |cores| ==> WholeCore(m, skip, cores[i])
  }

  ghost predicate ByPrimary(cores: seq<Core>) {
    forall i, j :: 0 <= i < j < |cores| ==> cores[i].cpus[0] < cores[j].cpus[0]
  }

  /** A group met for the first time starts with the CPU that led to it. */
  lemma FirstOfGroup(m: Machine, k: nat, seen: seq<seq<nat>>)
    requires Partition(m) && k < |m.cpus| && m.cpus[k] in m.online && m.group(m.cpus[k]) !in seen
    requires forall i :: 0 <= i < k && m.cpus[i] in m.online ==> m.group(m.cpus[i]) in seen
    ensures Usable(m, m.cpus[k]) && m.group(m.cpus[k]) != [] && m.group(m.cpus[k])[0] == m.cpus[k]
  {
    var c := m.cpus[k];
    assert Usable(m, c);
    var g := m.group(c);
    var first := g[0];
    assert first in g;
    assert Usable(m, first) && m.group(first) == g;
    var i :| 0 <= i < |m.cpus| && m.cpus[i] == first;
    assert i >= k;
    var j :| 0 <= j < |g| && g[j] == c;
  }

  /** The primaries are among the first `k` CPUs. */
  ghost predicate Within(cores: seq<Core>, cpus: seq<nat>) {
    forall i :: 0 <= i < |cores| ==> cores[i].cpus[0] in cpus
  }

  /** The groups of the first `k` CPUs have been met. */
  ghost predicate Met(m: Machine, k: nat, seen: seq<seq<nat>>)
    requires k <= |m.cpus|
  {
    forall i :: 0 <= i < k && m.cpus[i] in m.online ==> m.group(m.cpus[i]) in seen
  }

  ghost predicate HasCore(cores: seq<Core>, g: seq<nat>) {
    exists i :: 0 <= i < |cores| && cores[i].cpus == g
  }

  /** Every group met, except that of CPU 0, has its core. */
  ghost predicate AllFound(cores: seq<Core>, seen: seq<seq<nat>>) {
    forall j :: 0 <= j < |seen| ==> 0 in seen[j] || HasCore(cores, seen[j])
  }

  lemma AddByPrimary(cores: seq<Core>, cpus: seq<nat>, c: Core)
    requires ByPrimary(cores) && Within(cores, cpus) && forall x :: x in cpus ==> x < c.cpus[0]
    ensures ByPrimary(cores + [c])
  {
  }

  lemma AddFound(cores: seq<Core>, seen: seq<seq<nat>>, c: Core)
    requires AllFound(cores, seen)
    ensures AllFound(cores + [c], seen + [c.cpus])
  {
    var more := cores + [c];
    assert more[|cores|] == c;
    forall j | 0 <= j < |seen| ensures 0 in seen[j] || HasCore(more, seen[j]) {
      if HasCore(cores, seen[j]) {
        var i :| 0 <= i < |cores| && cores[i].cpus == seen[j];
        assert more[i] == cores[i];
      }
    }
  }

  ghost predicate Collected(m: Machine, skip: set<nat>, k: nat, r: (seq<Core>, seq<seq<nat>>))
    requires k <= |m.cpus|
  {
    match r
    case (cores, seen) =>
      && WholeCores(m, skip, cores) && ByPrimary(cores) && Within(cores, m.cpus[..k])
      && Met(m, k, seen) && AllFound(cores, seen)
  }

  lemma WithinGrows(cores: seq<Core>, m: Machine, k: nat)
    requires k < |m.cpus| && Within(cores, m.cpus[..k])
    ensures Within(cores, m.cpus[..k + 1])
  {
    assert m.cpus[..k + 1] == m.cpus[..k] + [m.cpus[k]];
  }

  lemma MetGrows(m: Machine, k: nat, seen: seq<seq<nat>>, more: seq<seq<nat>>)
    requires k < |m.cpus| && Met(m, k, seen) && seen <= more
    requires m.cpus[k] in m.online ==> m.group(m.cpus[k]) in more
    ensures Met(m, k + 1, more)
  {
  }

  lemma CollectCore(m: Machine, skip: set<nat>, k: nat, cores: seq<Core>, seen: seq<seq<nat>>, c: Core)
    requires Ascending(m.cpus) && k < |m.cpus| && Collected(m, skip, k, (cores, seen))
    requires WholeCore(m, skip, c) && c.cpus[0] == m.cpus[k]
    ensures Collected(m, skip, k + 1, (cores + [c], seen + [c.cpus]))
  {
    assert m.cpus[..k + 1] == m.cpus[..k] + [m.cpus[k]];
    AddByPrimary(cores, m.cpus[..k], c);
    AddFound(cores, seen, c);
    MetGrows(m, k, seen, seen + [c.cpus]);
  }

  lemma CollectZero(m: Machine, skip: set<nat>, k: nat, cores: seq<Core>, seen: seq<seq<nat>>)
    requires k < |m.cpus| && Collected(m, skip, k, (cores, seen)) && 0 in m.group(m.cpus[k])
    ensures Collected(m, skip, k + 1, (cores, seen + [m.group(m.cpus[k])]))
  {
    WithinGrows(cores, m, k);
    MetGrows(m, k, seen, seen + [m.group(m.cpus[k])]);
  }

  lemma CollectSkip(m: Machine, skip: set<nat>, k: nat, cores: seq<Core>, seen: seq<seq<nat>>)
    requires k < |m.cpus| && Collected(m, skip, k, (cores, seen))
    requires m.cpus[k] !in m.online || m.group(m.cpus[k]) in seen
    ensures Collected(m, skip, k + 1, (cores, seen))
  {
    WithinGrows(cores, m, k);
    MetGrows(m, k, seen, seen);
  }

  lemma CollectStep(m: Machine, skip: set<nat>, k: nat, r: (seq<Core>, seq<seq<nat>>))
    requires Partition(m) && 0 < k <= |m.cpus| && Collected(m, skip, k - 1, r)
    ensures Collected(m, skip, k, CollectCpu(m, skip, m.cpus[k - 1], r))
  {
    var cpu := m.cpus[k - 1];
    assert Usable(m, cpu) ==> m.group(cpu) != [];
    if cpu !in m.online || m.group(cpu) in r.1 {
      CollectSkip(m, skip, k - 1, r.0, r.1);
    } else {
      FirstOfGroup(m, k - 1, r.1);
      if 0 in m.group(cpu) {
        CollectZero(m, skip, k - 1, r.0, r.1);
      } else {
        CollectCore(m, skip, k - 1, r.0, r.1, CoreAt(m, cpu, skip));
      }
    }
  }

  lemma {:induction false} CollectInv(m: Machine, skip: set<nat>, k: nat)
    requires Partition(m) && k <= |m.cpus|
    ensures Collected(m, skip, k, Collect(m, skip, k))
  {
    if k > 0 {
      CollectInv(m, skip, k - 1);
      CollectStep(m, skip, k, Collect(m, skip, k - 1));
    }
  }

  function InsertCore(s: seq<Core>, c: Core): seq<Core>
  {
    if s == [] || s[|s| - 1].cpus[0] <= c.cpus[0] then s + [c]
    else InsertCore(s[..|s| - 1], c) + [s[|s| - 1]]
  }

  /** The stable sort by first CPU. */
  function SortCores(s: seq<Core>): seq<Core>
  {
    if s == [] then [] else InsertCore(SortCores(s[..|s| - 1]), s[|s| - 1])
  }

  lemma {:induction false} AlreadySorted(s: seq<Core>)
    requires ByPrimary(s)
    ensures SortCores(s) == s
    decreases |s|
  {
    if s != [] {
      var a, z := s[..|s| - 1], s[|s| - 1];
      AlreadySorted(a);
      assert s == a + [z];
      assert a == [] || a[|a| - 1].cpus[0] < z.cpus[0];
    }
  }

  function Cores(m: Machine, skip: set<nat>): seq<Core> {
    SortCores(Collect(m, skip, |m.cpus|).0)
  }

  method CollectCores(m: Machine, skip: set<nat>) returns (cores: seq<Core>)
    ensures cores == Cores(m, skip)
  {
    cores := [];
    var seen: seq<seq<nat>> := [];
    for k := 0 to |m.cpus|
      invariant (cores, seen) == Collect(m, skip, k)
    {
      var cpu := m.cpus[k];
      if cpu !in m.online {
        continue;
      }
      var g := m.group(cpu);
      if g == [] || g in seen {
        continue;
      }
      seen := seen + [g];
      if 0 in g {
        continue;
      }
      cores := cores + [CoreAt(m, cpu, skip)];
    }
    cores := SortCores(cores);
  }

  /** On a machine whose groups partition the CPUs the collected cores are whole, sorted by
      first CPU, pairwise disjoint, without the core of CPU 0, and none is missing. */
  lemma CollectedCores(m: Machine, skip: set<nat>)
    requires Partition(m)
    ensures WholeCores(m, skip, Cores(m, skip)) && ByPrimary(Cores(m, skip))
    ensures forall c :: Usable(m, c) && 0 !in m.group(c) ==> HasCore(Cores(m, skip), m.group(c))
  {
    var n := |m.cpus|;
    CollectInv(m, skip, n);
    AlreadySorted(Collect(m, skip, n).0);
    forall c | Usable(m, c) && 0 !in m.group(c) ensures HasCore(Cores(m, skip), m.group(c)) {
      var i :| 0 <= i < n && m.cpus[i] == c;
      assert m.group(m.cpus[i]) in Collect(m, skip, n).1;
    }
  }

  ghost predicate Disjoint(a: Core, b: Core) {
    forall x :: x in a.cpus ==> x !in b.cpus
  }

  /** Two whole cores with different first CPUs share no CPU. */
  lemma WholeCoresDisjoint(m: Machine, skip: set<nat>, a: Core, b: Core)
    requires Partition(m) && WholeCore(m, skip, a) && WholeCore(m, skip, b) && a.cpus[0] != b.cpus[0]
    ensures Disjoint(a, b)
  {
    forall x | x in a.cpus ensures x !in b.cpus {
      assert m.group(x) == m.group(a.cpus[0]) == a.cpus;
    }
  }

  // ----- the order of preference -----

  predicate Preferred(c: Core, prefer: Option<int>) {
    prefer.Some? && c.node == prefer
  }

  /** The tests that split the cores. */
  datatype Test = OnNode(prefer: Option<int>, yes: bool) | SkippedIs(flag: bool)

  predicate Holds(p: Test, c: Core) {
    match p
    case OnNode(prefer, yes) => Preferred(c, prefer) == yes
    case SkippedIs(flag) => c.skipped == flag
  }

  function Filter(s: seq<Core>, p: Test): seq<Core> {
    if s == [] then [] else Filter(s[..|s| - 1], p) + (if Holds(p, s[|s| - 1]) then [s[|s| - 1]] else [])
  }

  lemma {:induction false} FilterMembers(s: seq<Core>, p: Test)
    ensures forall i :: 0 <= i < |Filter(s, p)| ==> Filter(s, p)[i] in s && Holds(p, Filter(s, p)[i])
    decreases |s|
  {
    if s != [] {
      FilterMembers(s[..|s| - 1], p);
      assert s == s[..|s| - 1] + [s[|s| - 1]];
    }
  }

  /** Cores on the preferred node first; without a preference the order stays. */
  function ByNuma(cores: seq<Core>, prefer: Option<int>): seq<Core> {
    if prefer.None? then cores
    else Filter(cores, OnNode(prefer, true)) + Filter(cores, OnNode(prefer, false))
  }

  method OrderByNuma(cores: seq<Core>, prefer: Option<int>) returns (r: seq<Core>)
    ensures r == ByNuma(cores, prefer)
  {
    if prefer.None? {
      return cores;
    }
    var preferred, remainder := [], [];
    for i := 0 to |cores|
      invariant preferred == Filter(cores[..i], OnNode(prefer, true))
      invariant remainder == Filter(cores[..i], OnNode(prefer, false))
    {
      assert cores[..i + 1][..i] == cores[..i];
      if cores[i].node == prefer {
        preferred := preferred + [cores[i]];
      } else {
        remainder := remainder + [cores[i]];
      }
    }
    assert cores[..|cores|] == cores;
    r := preferred + remainder;
  }

  function Ordered(cores: seq<Core>, prefer: Option<int>): seq<Core> {
    ByNuma(Filter(cores, SkippedIs(false)), prefer) + ByNuma(Filter(cores, SkippedIs(true)), prefer)
  }

  /** Non-skipped cores come first, then cores on the preferred node, then low CPU numbers. */
  predicate Before(a: Core, b: Core, prefer: Option<int>) {
    if a.skipped != b.skipped then b.skipped
    else if Preferred(a, prefer) != Preferred(b, prefer) then Preferred(a, prefer)
    else a.cpus[0] < b.cpus[0]
  }

  ghost predicate InOrder(s: seq<Core>, prefer: Option<int>) {
    forall i, j :: 0 <= i < j < |s| ==> Before(s[i], s[j], prefer)
  }

  lemma {:induction false} FilterByPrimary(s: seq<Core>, p: Test)
    requires ByPrimary(s)
    ensures ByPrimary(Filter(s, p))
    decreases |s|
  {
    if s != [] {
      var a, z := s[..|s| - 1], s[|s| - 1];
      FilterByPrimary(a, p);
      FilterMembers(a, p);
      var f := Filter(a, p);
      forall i | 0 <= i < |f| ensures f[i].cpus[0] < z.cpus[0] {
        assert f[i] in a;
      }
    }
  }

  function Negate(p: Test): Test {
    match p
    case OnNode(prefer, yes) => OnNode(prefer, !yes)
    case SkippedIs(flag) => SkippedIs(!flag)
  }

  /** A core that passes the test occurs in the filtered list as often as before, others not at all. */
  lemma {:induction false} FilterCount(s: seq<Core>, p: Test, c: Core)
    ensures multiset(Filter(s, p))[c] == if Holds(p, c) then multiset(s)[c] else 0
    decreases |s|
  {
    if s != [] {
      var a, z := s[..|s| - 1], s[|s| - 1];
      FilterCount(a, p, c);
      assert s == a + [z];
    }
  }

  lemma FilterSplits(s: seq<Core>, p: Test)
    ensures multiset(Filter(s, p)) + multiset(Filter(s, Negate(p))) == multiset(s)
  {
    var yes, no := multiset(Filter(s, p)), multiset(Filter(s, Negate(p)));
    forall c: Core ensures (yes + no)[c] == multiset(s)[c] {
      FilterCount(s, p, c);
      FilterCount(s, Negate(p), c);
    }
  }

  lemma InOrderAppend(a: seq<Core>, b: seq<Core>, prefer: Option<int>)
    requires InOrder(a, prefer) && InOrder(b, prefer)
    requires forall i, j :: 0 <= i < |a| && 0 <= j < |b| ==> Before(a[i], b[j], prefer)
    ensures InOrder(a + b, prefer)
  {
  }

  lemma ByNumaInOrder(s: seq<Core>, prefer: Option<int>)
    requires ByPrimary(s) && forall i, j :: 0 <= i < j < |s| ==> s[i].skipped == s[j].skipped
    ensures InOrder(ByNuma(s, prefer), prefer)
    ensures multiset(ByNuma(s, prefer)) == multiset(s)
  {
    if prefer.Some? {
      var yes, no := OnNode(prefer, true), OnNode(prefer, false);
      FilterByPrimary(s, yes);
      FilterByPrimary(s, no);
      FilterSplits(s, yes);
      FilterMembers(s, yes);
      FilterMembers(s, no);
      var a, b := Filter(s, yes), Filter(s, no);
      SameSkip(s, a);
      SameSkip(s, b);
      forall i, j | 0 <= i < |a| && 0 <= j < |b| ensures Before(a[i], b[j], prefer) {
        assert a[i] in s && b[j] in s;
        assert a[i].skipped == b[j].skipped;
      }
      InOrderAppend(a, b, prefer);
    }
  }

  lemma SameSkip(s: seq<Core>, a: seq<Core>)
    requires forall i, j :: 0 <= i < j < |s| ==> s[i].skipped == s[j].skipped
    requires forall i :: 0 <= i < |a| ==> a[i] in s
    ensures forall i, j :: 0 <= i < j < |a| ==> a[i].skipped == a[j].skipped
  {
  }

  /** The order of the cores: a permutation, strictly by preference. */
  lemma OrderedByPreference(cores: seq<Core>, prefer: Option<int>)
    requires ByPrimary(cores)
    ensures InOrder(Ordered(cores, prefer), prefer) && multiset(Ordered(cores, prefer)) == multiset(cores)
  {
    var use, spare := SkippedIs(false), SkippedIs(true);
    FilterByPrimary(cores, use);
    FilterByPrimary(cores, spare);
    FilterSplits(cores, use);
    FilterMembers(cores, use);
    FilterMembers(cores, spare);
    var a, b := Filter(cores, use), Filter(cores, spare);
    ByNumaInOrder(a, prefer);
    ByNumaInOrder(b, prefer);
    var x, y := ByNuma(a, prefer), ByNuma(b, prefer);
    forall i, j | 0 <= i < |x| && 0 <= j < |y| ensures Before(x[i], y[j], prefer) {
      assert x[i] in multiset(a) && y[j] in multiset(b);
    }
    InOrderAppend(x, y, prefer);
  }

  // ----- the layout -----

  /** The CPUs of one role; `reserved` is written only for a core with siblings. */
  datatype Role = Role(coreId: string, cpu: nat, siblings: seq<nat>, node: Option<int>, reserved: seq<nat>)

  datatype Layout = Layout(pairs: seq<Core>, cpuset: seq<nat>, roles: map<string, Role>)

  datatype Selection = Selected(layout: Layout) | BadCount | TooFew(found: nat)

  /** The first occurrence of every element. */
  function Dedup(s: seq<nat>): (r: seq<nat>)
    ensures forall x :: x in r <==> x in s
  {
    if s == [] then []
    else
      assert s == s[..|s| - 1] + [s[|s| - 1]];
      var r := Dedup(s[..|s| - 1]);
      if s[|s| - 1] in r then r else r + [s[|s| - 1]]
  }

  function AllCpus(pairs: seq<Core>): seq<nat> {
    if pairs == [] then [] else AllCpus(pairs[..|pairs| - 1]) + pairs[|pairs| - 1].cpus
  }

  function WholeRole(c: Core): Role {
    Role(c.coreId, c.cpus[0], c.cpus[1..], c.node, if |c.cpus| > 1 then c.cpus else [])
  }

  function Others(cpus: seq<nat>, c: nat): (r: seq<nat>)
    ensures forall x :: x in r <==> x in cpus && x != c
  {
    if cpus == [] then []
    else
      assert cpus == cpus[..|cpus| - 1] + [cpus[|cpus| - 1]];
      Others(cpus[..|cpus| - 1], c) + (if cpus[|cpus| - 1] == c then [] else [cpus[|cpus| - 1]])
  }

  /** With a single core the client gets the server's core, starting at another thread if there is one. */
  function SharedRole(c: Core): Role {
    var alt := if |c.cpus| > 1 then c.cpus[1] else c.cpus[0];
    Role(c.coreId, alt, Others(c.cpus, alt), c.node, [])
  }

  function AssignRoles(pairs: seq<Core>): map<string, Role> {
    if pairs == [] then map[]
    else map["server" := WholeRole(pairs[0]),
             "client" := if |pairs| >= 2 then WholeRole(pairs[1]) else SharedRole(pairs[0])]
  }

  function LayoutOf(pairs: seq<Core>): Layout {
    Layout(pairs, Dedup(AllCpus(pairs)), AssignRoles(pairs))
  }

  method LayoutFromPairs(pairs: seq<Core>) returns (r: Layout)
    ensures r == LayoutOf(pairs)
  {
    var cpuset: seq<nat> := [];
    for i := 0 to |pairs|
      invariant cpuset == Dedup(AllCpus(pairs[..i]))
    {
      assert pairs[..i + 1][..i] == pairs[..i];
      cpuset := AddCpus(cpuset, pairs[i].cpus, AllCpus(pairs[..i]));
    }
    assert pairs[..|pairs|] == pairs;
    r := Layout(pairs, cpuset, AssignRoles(pairs));
  }

  /** The inner loop: the CPUs of one core that are not in the set yet. */
  method AddCpus(cpuset0: seq<nat>, cpus: seq<nat>, ghost before: seq<nat>) returns (cpuset: seq<nat>)
    requires cpuset0 == Dedup(before)
    ensures cpuset == Dedup(before + cpus)
  {
    cpuset := cpuset0;
    assert before + cpus[..0] == before;
    for j := 0 to |cpus|
      invariant cpuset == Dedup(before + cpus[..j])
    {
      assert before + cpus[..j + 1] == before + cpus[..j] + [cpus[j]];
      DedupAppend(before + cpus[..j], cpus[j]);
      if cpus[j] !in cpuset {
        cpuset := cpuset + [cpus[j]];
      }
    }
    assert cpus[..|cpus|] == cpus;
  }

  /** The first `count` cores in the order of preference. */
  function Best(m: Machine, skip: set<nat>, prefer: Option<int>, count: int): seq<Core> {
    var o := Ordered(Cores(m, skip), prefer);
    if 0 <= count <= |o| then o[..count] else o
  }

  method SelectPairs(m: Machine, count: int, skip: set<nat>, prefer: Option<int>) returns (r: Selection)
    ensures r.BadCount? <==> count <= 0
    ensures r.TooFew? <==> count > 0 && |Cores(m, skip)| < count
    ensures r.Selected? ==> r.layout == LayoutOf(Best(m, skip, prefer, count))
  {
    if count <= 0 {
      return BadCount;
    }
    var cores := CollectCores(m, skip);
    var use, spare := Filter(cores, SkippedIs(false)), Filter(cores, SkippedIs(true));
    var preferred := OrderByNuma(use, prefer);
    var deferred := OrderByNuma(spare, prefer);
    var ordered := preferred + deferred;
    OrderedPermutes(cores, prefer);
    if |ordered| < count {
      return TooFew(|ordered|);
    }
    var layout := LayoutFromPairs(ordered[..count]);
    r := Selected(layout);
  }

  lemma ByNumaPermutes(s: seq<Core>, prefer: Option<int>)
    ensures multiset(ByNuma(s, prefer)) == multiset(s)
  {
    if prefer.Some? { FilterSplits(s, OnNode(prefer, true)); }
  }

  lemma OrderedPermutes(cores: seq<Core>, prefer: Option<int>)
    ensures |Ordered(cores, prefer)| == |cores|
  {
    var o := Ordered(cores, prefer);
    FilterSplits(cores, SkippedIs(false));
    ByNumaPermutes(Filter(cores, SkippedIs(false)), prefer);
    ByNumaPermutes(Filter(cores, SkippedIs(true)), prefer);
    assert multiset(o) == multiset(cores);
    assert |o| == |multiset(o)| == |multiset(cores)| == |cores|;
  }

  // ----- reading the layout (_role_cpu_ids) -----

  /** The CPUs of a role as the benchmark reads them: the reserved list if there is one,
      else the CPU and its siblings, without repetitions. */
  function RoleCpus(roles: map<string, Role>, name: string): seq<nat> {
    if name !in roles then []
    else
      var r := roles[name];
      Dedup(if r.reserved != [] then r.reserved else [r.cpu] + r.siblings)
  }

  method RoleCpuIds(roles: map<string, Role>, name: string) returns (ordered: seq<nat>)
    ensures ordered == RoleCpus(roles, name)
  {
    if name !in roles {
      return [];
    }
    var info := roles[name];
    var cpus := info.reserved;
    if cpus == [] {
      cpus := [info.cpu] + info.siblings;
    }
    var seen: set<nat> := {};
    ordered := [];
    for i := 0 to |cpus|
      invariant ordered == Dedup(cpus[..i])
      invariant forall x :: x in seen <==> x in ordered
    {
      assert cpus[..i + 1] == cpus[..i] + [cpus[i]];
      DedupAppend(cpus[..i], cpus[i]);
      if cpus[i] !in seen {
        seen := seen + {cpus[i]};
        ordered := ordered + [cpus[i]];
      }
    }
    assert cpus[..|cpus|] == cpus;
  }

  lemma DedupAppend(s: seq<nat>, x: nat)
    ensures Dedup(s + [x]) == if x in Dedup(s) then Dedup(s) else Dedup(s) + [x]
  {
    assert (s + [x])[..|s|] == s;
  }

  lemma {:induction false} DedupAscending(s: seq<nat>)
    requires Ascending(s)
    ensures Dedup(s) == s
    decreases |s|
  {
    if s != [] {
      DedupAscending(s[..|s| - 1]);
      assert s == s[..|s| - 1] + [s[|s| - 1]];
    }
  }

  ghost predicate NoRepeats(s: seq<nat>) {
    forall i, j :: 0 <= i < j < |s| ==> s[i] != s[j]
  }

  lemma {:induction false} DedupNoRepeats(s: seq<nat>)
    ensures NoRepeats(Dedup(s))
    decreases |s|
  {
    if s != [] { DedupNoRepeats(s[..|s| - 1]); }
  }

  lemma WholeRoleReadsBack(c: Core, roles: map<string, Role>, name: string)
    requires Ascending(c.cpus) && name in roles && roles[name] == WholeRole(c)
    ensures RoleCpus(roles, name) == c.cpus
  {
    DedupAscending(c.cpus);
    if |c.cpus| == 1 { assert [c.cpus[0]] + c.cpus[1..] == c.cpus; }
  }

  lemma {:induction false} CpusetCovers(pairs: seq<Core>, k: nat, x: nat)
    requires k < |pairs| && x in pairs[k].cpus
    ensures x in AllCpus(pairs)
    decreases |pairs|
  {
    if k < |pairs| - 1 { CpusetCovers(pairs[..|pairs| - 1], k, x); }
  }

  /** Cores that are whole and strictly ordered have different first CPUs. */
  lemma DifferentPrimaries(m: Machine, skip: set<nat>, a: Core, b: Core, prefer: Option<int>)
    requires WholeCore(m, skip, a) && WholeCore(m, skip, b) && Before(a, b, prefer)
    ensures a.cpus[0] != b.cpus[0]
  {
  }

  lemma OrderedWhole(m: Machine, skip: set<nat>, prefer: Option<int>)
    requires Partition(m)
    ensures var o := Ordered(Cores(m, skip), prefer);
      WholeCores(m, skip, o) && InOrder(o, prefer) && multiset(o) == multiset(Cores(m, skip))
  {
    var cores := Cores(m, skip);
    CollectedCores(m, skip);
    OrderedByPreference(cores, prefer);
    var o := Ordered(cores, prefer);
    forall i | 0 <= i < |o| ensures WholeCore(m, skip, o[i]) {
      assert o[i] in multiset(cores);
    }
  }

  ghost predicate AllDisjoint(s: seq<Core>) {
    forall i, j :: 0 <= i < j < |s| ==> Disjoint(s[i], s[j])
  }

  /** The ordered cores of any machine whose groups partition its CPUs: whole cores without
      CPU 0, strictly by preference, pairwise disjoint, and none of them lost. */
  lemma SelectedCores(m: Machine, skip: set<nat>, prefer: Option<int>)
    requires Partition(m)
    ensures var o := Ordered(Cores(m, skip), prefer);
      && WholeCores(m, skip, o) && InOrder(o, prefer) && AllDisjoint(o)
      && multiset(o) == multiset(Cores(m, skip))
  {
    OrderedWhole(m, skip, prefer);
    var o := Ordered(Cores(m, skip), prefer);
    forall i, j | 0 <= i < j < |o| ensures Disjoint(o[i], o[j]) {
      DifferentPrimaries(m, skip, o[i], o[j], prefer);
      WholeCoresDisjoint(m, skip, o[i], o[j]);
    }
  }

  /** With at least two cores the benchmark reads back a whole core for the server and
      another, disjoint one for the client, both inside the cpuset, which has no repetitions;
      with a single core both roles get all of that core. */
  lemma RolesReadBack(m: Machine, skip: set<nat>, prefer: Option<int>, count: nat)
    requires Partition(m) && 1 <= count <= |Cores(m, skip)|
    ensures var pairs := Best(m, skip, prefer, count);
      var l := LayoutOf(pairs);
      var server, client := RoleCpus(l.roles, "server"), RoleCpus(l.roles, "client");
      && |pairs| == count
      && NoRepeats(l.cpuset)
      && server == pairs[0].cpus
      && (forall x :: x in server || x in client ==> x in l.cpuset)
      && (count >= 2 ==> client == pairs[1].cpus && Disjoint(pairs[0], pairs[1]))
      && (count == 1 ==> forall x :: x in client <==> x in server)
  {
    OrderedPermutes(Cores(m, skip), prefer);
    SelectedCores(m, skip, prefer);
    var pairs := Best(m, skip, prefer, count);
    assert forall i :: 0 <= i < |pairs| ==> pairs[i] == Ordered(Cores(m, skip), prefer)[i];
    assert forall i :: 0 <= i < |pairs| ==> WholeCore(m, skip, pairs[i]) && Ascending(pairs[i].cpus);
    PairsReadBack(pairs);
  }

  lemma PairsReadBack(pairs: seq<Core>)
    requires pairs != [] && forall i :: 0 <= i < |pairs| ==> Ascending(pairs[i].cpus)
    ensures var l := LayoutOf(pairs);
      var server, client := RoleCpus(l.roles, "server"), RoleCpus(l.roles, "client");
      && NoRepeats(l.cpuset)
      && server == pairs[0].cpus
      && (forall x :: x in server || x in client ==> x in l.cpuset)
      && (|pairs| >= 2 ==> client == pairs[1].cpus)
      && (|pairs| == 1 ==> forall x :: x in client <==> x in server)
  {
    var l := LayoutOf(pairs);
    DedupNoRepeats(AllCpus(pairs));
    WholeRoleReadsBack(pairs[0], l.roles, "server");
    if |pairs| >= 2 { WholeRoleReadsBack(pairs[1], l.roles, "client"); }
    forall x | x in pairs[0].cpus || (|pairs| >= 2 && x in pairs[1].cpus) ensures x in l.cpuset {
      if x in pairs[0].cpus { CpusetCovers(pairs, 0, x); } else { CpusetCovers(pairs, 1, x); }
    }
  }

  // ----- from the kernel's sibling lists -----

  /** Every usable CPU is in its own sibling list, and the usable CPUs on the list have
      lists with the same members. Offline CPUs may still be listed. */
  ghost predicate KernelPartition(t: Topology) {
    && Ascending(t.present)
    && (forall c :: ListsItself(t, c))
    && (forall c, d :: ListsAgree(t, c, d))
  }

  ghost predicate ListsItself(t: Topology, c: nat) {
    c in t.present && c in t.online ==> c in t.siblings && c in t.siblings[c]
  }

  ghost predicate ListsAgree(t: Topology, c: nat, d: nat) {
    c in t.present && c in t.online && c in t.siblings && d in t.siblings[c] && d in t.online ==>
      && d in t.present && d in t.siblings
      && forall x :: x in t.siblings[d] <==> x in t.siblings[c]
  }

  lemma AllButLast(a: seq<nat>, z: nat)
    requires Ascending(a) && a != []
    ensures z in a[..|a| - 1] <==> z in a && z != a[|a| - 1]
  {
    assert a == a[..|a| - 1] + [a[|a| - 1]];
  }

  lemma {:induction false} AscendingUnique(a: seq<nat>, b: seq<nat>)
    requires Ascending(a) && Ascending(b) && forall x :: x in a <==> x in b
    ensures a == b
    decreases |a|
  {
    assert b != [] ==> b[0] in b;
    if a != [] {
      var x := a[|a| - 1];
      assert x in a && b != [];
      var y := b[|b| - 1];
      assert y in b;
      assert x == y;
      var a', b' := a[..|a| - 1], b[..|b| - 1];
      forall z: nat ensures z in a' <==> z in b' {
        AllButLast(a, z);
        AllButLast(b, z);
      }
      AscendingUnique(a', b');
      assert a == a' + [x] && b == b' + [y];
    }
  }

  lemma GroupMembers(t: Topology, c: nat)
    requires ListsItself(t, c) && c in t.present && c in t.online
    ensures c in t.siblings
    ensures forall x :: x in Group(t, c) <==> x in t.siblings[c] && x in t.online
  {
    assert c in Online(SortedSet(t.siblings[c]), t.online);
  }

  lemma SameGroup(t: Topology, c: nat, d: nat)
    requires KernelPartition(t) && c in t.present && c in t.online && d in Group(t, c)
    ensures d in t.present && d in t.online && Group(t, d) == Group(t, c)
  {
    assert ListsItself(t, c) && ListsItself(t, d) && ListsAgree(t, c, d);
    GroupMembers(t, c);
    GroupMembers(t, d);
    AscendingUnique(Group(t, d), Group(t, c));
  }

  ghost predicate GroupsPartition(t: Topology) {
    && Ascending(t.present)
    && (forall c :: c in t.present && c in t.online ==> c in Group(t, c))
    && (forall c, d :: c in t.present && c in t.online && d in Group(t, c) ==>
          d in t.present && d in t.online && Group(t, d) == Group(t, c))
  }

  lemma KernelGroups(t: Topology)
    requires KernelPartition(t)
    ensures GroupsPartition(t)
  {
    forall c, d | c in t.present && c in t.online && d in Group(t, c)
      ensures d in t.present && d in t.online && Group(t, d) == Group(t, c)
    {
      SameGroup(t, c, d);
    }
    forall c | c in t.present && c in t.online ensures c in Group(t, c) { OwnGroup(t, c); }
  }

  lemma OwnGroup(t: Topology, c: nat)
    requires KernelPartition(t) && c in t.present && c in t.online
    ensures c in Group(t, c)
  {
    assert ListsItself(t, c);
    GroupMembers(t, c);
  }

  lemma MachineGroups(t: Topology)
    requires GroupsPartition(t)
    ensures Partition(MachineOf(t))
  {
    var m := MachineOf(t);
    forall c | Usable(m, c) ensures c in m.group(c) && Ascending(m.group(c)) {
      assert m.group(c) == Group(t, c);
    }
    forall c, d | Usable(m, c) && d in m.group(c) ensures Usable(m, d) && m.group(d) == m.group(c) {
      assert m.group(c) == Group(t, c) && m.group(d) == Group(t, d);
    }
  }

  /** Sibling lists that partition the CPUs give groups that do. */
  lemma KernelGroupsPartition(t: Topology)
    requires KernelPartition(t)
    ensures Partition(MachineOf(t))
  {
    KernelGroups(t);
    MachineGroups(t);
  }
}
