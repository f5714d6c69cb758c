/** The graph side of TwinBase: the twins a twin reaches through its
    relationship properties, the relationship edges it reports, and the model
    types a twin graph depends on. */
module TwinGraph {
  import opened Wrappers
  import opened Lists
  import opened TypeSystem

  /** Object identity of a twin instance. */
  type Ref = nat

  /** The value of a relationship property: null, one twin, or a collection of twins. */
  datatype RelValue = NoTarget | One(target: Ref) | Many(targets: seq<Ref>)

  /** A relationship property (GetTwinRelationships) and its value on one instance. */
  datatype RelSlot = RelSlot(member: string, value: RelValue)

  /** A twin instance: its runtime type, its Id and its relationship
      properties in declaration order; `rank` is a measure that decreases
      along every relationship, so the graph has no cycles. */
  datatype TwinNode = TwinNode(typ: TypeId, id: string, rels: seq<RelSlot>, rank: nat)

  type Graph = map<Ref, TwinNode>

  /** BasicRelationship. */
  datatype Edge = Edge(sourceId: string, targetId: string, name: string)

  function SlotTargets(v: RelValue): seq<Ref> {
    match v
    case NoTarget => []
    case One(t) => [t]
    case Many(ts) => ts
  }

  /** The twins a list of relationship properties points at, in order. */
  function Targets(slots: seq<RelSlot>): seq<Ref> {
    if slots == [] then [] else SlotTargets(slots[0].value) + Targets(slots[1..])
  }

  lemma {:induction false} TargetsConcat(a: seq<RelSlot>, b: seq<RelSlot>)
    ensures Targets(a + b) == Targets(a) + Targets(b)
  {
    if a == [] {
      assert a + b == b;
    } else {
      assert (a + b)[0] == a[0] && (a + b)[1..] == a[1..] + b;
      TargetsConcat(a[1..], b);
    }
  }

  /** Every twin in `ts` is in the graph and ranks below `bound`. */
  predicate Below(g: Graph, ts: seq<Ref>, bound: nat) {
    forall t :: t in ts ==> t in g && g[t].rank < bound
  }

  predicate ValidNode(g: Graph, r: Ref)
    requires r in g
  {
    Below(g, Targets(g[r].rels), g[r].rank)
  }

  /** The graph is closed under relationships and acyclic. */
  predicate ValidGraph(g: Graph) {
    forall r :: r in g ==> ValidNode(g, r)
  }

  /** Every twin in `ts` is in the graph. */
  predicate InGraph(g: Graph, ts: seq<Ref>) {
    forall t :: t in ts ==> t in g
  }

  /** The twins `r` refers to are in the graph. */
  predicate TargetsInGraph(g: Graph, r: Ref)
    requires r in g
  {
    InGraph(g, Targets(g[r].rels))
  }

  /** The graph is closed under relationships; it may have cycles. */
  predicate ClosedGraph(g: Graph) {
    forall r :: r in g ==> TargetsInGraph(g, r)
  }

  /** Every twin is of a type the table describes. */
  predicate Typed(tt: TypeTable, g: Graph) {
    forall r :: r in g ==> g[r].typ in tt
  }

  // ---------------------------------------------------------------------
  // TraverseTwin and Flatten

  /** TraverseTwin: each target, then the twins reachable from it (pre-order). */
  function Traverse(g: Graph, r: Ref): seq<Ref>
    requires ValidGraph(g) && r in g
    decreases g[r].rank, 1, 0
  {
    assert ValidNode(g, r);
    TraverseList(g, Targets(g[r].rels), g[r].rank)
  }

  function TraverseList(g: Graph, ts: seq<Ref>, bound: nat): seq<Ref>
    requires ValidGraph(g) && Below(g, ts, bound)
    decreases bound, 0, |ts|
  {
    if ts == [] then [] else [ts[0]] + Traverse(g, ts[0]) + TraverseList(g, ts[1..], bound)
  }

  lemma {:induction false} TraverseListConcat(g: Graph, a: seq<Ref>, b: seq<Ref>, bound: nat)
    requires ValidGraph(g) && Below(g, a, bound) && Below(g, b, bound)
    ensures Below(g, a + b, bound)
    ensures TraverseList(g, a + b, bound) == TraverseList(g, a, bound) + TraverseList(g, b, bound)
  {
    if a == [] {
      assert a + b == b;
    } else {
      assert (a + b)[0] == a[0] && (a + b)[1..] == a[1..] + b;
      TraverseListConcat(g, a[1..], b, bound);
    }
  }

  lemma TraverseListSnoc(g: Graph, a: seq<Ref>, x: Ref, bound: nat)
    requires ValidGraph(g) && Below(g, a, bound) && x in g && g[x].rank < bound
    ensures Below(g, a + [x], bound)
    ensures TraverseList(g, a + [x], bound) == TraverseList(g, a, bound) + [x] + Traverse(g, x)
  {
    TraverseListConcat(g, a, [x], bound);
  }

  lemma SlotsPrefixBelow(g: Graph, slots: seq<RelSlot>, i: nat, bound: nat)
    requires i < |slots| && Below(g, Targets(slots), bound)
    ensures Targets(slots[..i + 1]) == Targets(slots[..i]) + SlotTargets(slots[i].value)
    ensures Below(g, Targets(slots[..i + 1]), bound)
  {
    SplitAt(slots, i);
    TargetsConcat(slots[..i], [slots[i]]);
    TargetsConcat(slots[..i + 1], slots[i + 1..]);
    assert Targets([slots[i]]) == SlotTargets(slots[i].value) + Targets([]);
    BelowPrefix(g, Targets(slots[..i + 1]), Targets(slots[i + 1..]), bound);
  }

  /** The targets of one relationship property lie among those of all of them. */
  lemma SlotInGraph(g: Graph, slots: seq<RelSlot>, i: nat)
    requires i < |slots| && InGraph(g, Targets(slots))
    ensures InGraph(g, SlotTargets(slots[i].value))
  {
    assert slots == slots[..i] + slots[i..];
    TargetsConcat(slots[..i], slots[i..]);
    assert slots[i..] == [slots[i]] + slots[i + 1..];
    TargetsConcat([slots[i]], slots[i + 1..]);
    assert Targets([slots[i]]) == SlotTargets(slots[i].value) + Targets([]);
  }

  lemma BelowPrefix(g: Graph, a: seq<Ref>, b: seq<Ref>, bound: nat)
    requires Below(g, a + b, bound)
    ensures Below(g, a, bound)
  {
    forall t | t in a ensures t in g && g[t].rank < bound {
      assert t in a + b;
    }
  }

  /** TraverseTwin (lines 105-133), on the list it fills. */
  method TraverseTwin(g: Graph, twin: Ref) returns (list: seq<Ref>)
    requires ValidGraph(g) && twin in g
    ensures list == Traverse(g, twin)
    decreases g[twin].rank, 1
  {
    list := [];
    var slots := g[twin].rels;
    var bound := g[twin].rank;
    assert ValidNode(g, twin);
    assert slots[..0] == [];
    for i := 0 to |slots|
      invariant Below(g, Targets(slots[..i]), bound)
      invariant list == TraverseList(g, Targets(slots[..i]), bound)
    {
      SlotsPrefixBelow(g, slots, i, bound);
      var done := Targets(slots[..i]);
      match slots[i].value {
        case Many(ts) =>
          list := TraverseCollection(g, ts, bound, list);
          TraverseListConcat(g, done, ts, bound);
        case One(r) =>
          list := TraverseCollection(g, [r], bound, list);
          TraverseListConcat(g, done, [r], bound);
        case NoTarget =>
          assert done + [] == done;
      }
    }
    assert slots[..|slots|] == slots;
  }

  /** The ForEach over one relationship's targets: each target, then its traversal. */
  method TraverseCollection(g: Graph, ts: seq<Ref>, bound: nat, list0: seq<Ref>) returns (list: seq<Ref>)
    requires ValidGraph(g) && Below(g, ts, bound)
    ensures list == list0 + TraverseList(g, ts, bound)
    decreases bound, 0
  {
    list := list0;
    assert ts[..0] == [];
    for j := 0 to |ts|
      invariant list == list0 + TraverseList(g, ts[..j], bound)
    {
      var r := ts[j];
      list := list + [r];
      var sub := TraverseTwin(g, r);
      list := list + sub;
      TraverseListSnoc(g, ts[..j], r, bound);
      assert ts[..j + 1] == ts[..j] + [r];
    }
    assert ts[..|ts|] == ts;
  }

  /** Every twin the traversal lists ranks below the start, so the start is never revisited. */
  lemma {:induction false} TraverseBelow(g: Graph, r: Ref)
    requires ValidGraph(g) && r in g
    ensures Below(g, Traverse(g, r), g[r].rank)
    decreases g[r].rank, 1, 0
  {
    assert ValidNode(g, r);
    TraverseListBelow(g, Targets(g[r].rels), g[r].rank);
  }

  lemma {:induction false} TraverseListBelow(g: Graph, ts: seq<Ref>, bound: nat)
    requires ValidGraph(g) && Below(g, ts, bound)
    ensures Below(g, TraverseList(g, ts, bound), bound)
    decreases bound, 0, |ts|
  {
    if ts != [] {
      TraverseBelow(g, ts[0]);
      TraverseListBelow(g, ts[1..], bound);
    }
  }

  /** `x` is reached from `r` by following one or more relationships. */
  predicate Reachable(g: Graph, r: Ref, x: Ref)
    requires ValidGraph(g) && r in g
    decreases g[r].rank
  {
    assert ValidNode(g, r);
    exists t :: t in Targets(g[r].rels) && (t == x || Reachable(g, t, x))
  }

  /** The traversal lists exactly the twins reachable from the start. */
  lemma {:induction false} TraverseReachable(g: Graph, r: Ref, x: Ref)
    requires ValidGraph(g) && r in g
    ensures x in Traverse(g, r) <==> Reachable(g, r, x)
    decreases g[r].rank, 1, 0
  {
    assert ValidNode(g, r);
    TraverseListReachable(g, Targets(g[r].rels), g[r].rank, x);
  }

  lemma {:induction false} TraverseListReachable(g: Graph, ts: seq<Ref>, bound: nat, x: Ref)
    requires ValidGraph(g) && Below(g, ts, bound)
    ensures x in TraverseList(g, ts, bound) <==> exists t :: t in ts && (t == x || Reachable(g, t, x))
    decreases bound, 0, |ts|
  {
    if ts != [] {
      TraverseReachable(g, ts[0], x);
      TraverseListReachable(g, ts[1..], bound, x);
      assert forall t :: t in ts <==> t == ts[0] || t in ts[1..];
    }
  }

  /** Flatten (lines 29-34): the twin, then everything its traversal lists, without repeats. */
  function Flatten(g: Graph, root: Ref): seq<Ref>
    requires ValidGraph(g) && root in g
  {
    Distinct([root] + Traverse(g, root))
  }

  /** Flatten puts the root first, lists no twin twice, keeps the order in
      which the traversal first meets each twin, and holds the root and
      exactly the twins reachable from it. */
  lemma FlattenSpec(g: Graph, root: Ref)
    requires ValidGraph(g) && root in g
    ensures |Flatten(g, root)| > 0 && Flatten(g, root)[0] == root
    ensures NoDup(Flatten(g, root))
    ensures FirstSeenOrder(Flatten(g, root), [root] + Traverse(g, root))
    ensures forall x :: x in Flatten(g, root) <==> x == root || Reachable(g, root, x)
  {
    var s := [root] + Traverse(g, root);
    DistinctHead(s);
    DistinctNoDup(s);
    DistinctFirstSeen(s);
    DistinctElems(s);
    forall x ensures x in Flatten(g, root) <==> x == root || Reachable(g, root, x) {
      TraverseReachable(g, root, x);
    }
  }

  /** In an acyclic graph nothing the traversal lists is the root, so Flatten
      is the root followed by the traversal without its repeats. */
  lemma FlattenRootOnce(g: Graph, root: Ref)
    requires ValidGraph(g) && root in g
    ensures Flatten(g, root) == [root] + Distinct(Traverse(g, root))
  {
    TraverseBelow(g, root);
    DistinctCons(root, Traverse(g, root));
  }

  // ---------------------------------------------------------------------
  // Cyclic graphs

  /** TraverseTwin as written (lines 105-133), on any closed graph, given how
      many nested calls the stack can hold: None when the recursion needs more. */
  function TraverseDepth(g: Graph, r: Ref, depth: nat): Option<seq<Ref>>
    requires ClosedGraph(g) && r in g
    decreases depth, 0, 0
  {
    if depth == 0 then None
    else
      assert TargetsInGraph(g, r);
      TraverseListDepth(g, Targets(g[r].rels), depth - 1)
  }

  function TraverseListDepth(g: Graph, ts: seq<Ref>, depth: nat): Option<seq<Ref>>
    requires ClosedGraph(g) && InGraph(g, ts)
    decreases depth, 1, |ts|
  {
    if ts == [] then Some([])
    else
      match TraverseDepth(g, ts[0], depth)
      case None => None
      case Some(sub) =>
        match TraverseListDepth(g, ts[1..], depth)
        case None => None
        case Some(rest) => Some([ts[0]] + sub + rest)
  }

  lemma ValidIsClosed(g: Graph)
    requires ValidGraph(g)
    ensures ClosedGraph(g)
  {
    forall r | r in g ensures TargetsInGraph(g, r) {
      assert ValidNode(g, r);
    }
  }

  /** On an acyclic graph the source's recursion ends once the stack holds
      more calls than the start's rank, with the traversal Traverse defines. */
  lemma {:induction false} DepthAgrees(g: Graph, r: Ref, depth: nat)
    requires ValidGraph(g) && r in g && depth > g[r].rank
    ensures ClosedGraph(g) && TraverseDepth(g, r, depth) == Some(Traverse(g, r))
    decreases g[r].rank, 1, 0
  {
    ValidIsClosed(g);
    assert ValidNode(g, r);
    DepthListAgrees(g, Targets(g[r].rels), g[r].rank, depth - 1);
  }

  lemma {:induction false} DepthListAgrees(g: Graph, ts: seq<Ref>, bound: nat, depth: nat)
    requires ValidGraph(g) && Below(g, ts, bound) && depth >= bound
    ensures ClosedGraph(g) && InGraph(g, ts)
    ensures TraverseListDepth(g, ts, depth) == Some(TraverseList(g, ts, bound))
    decreases bound, 0, |ts|
  {
    ValidIsClosed(g);
    if ts != [] {
      DepthAgrees(g, ts[0], depth);
      DepthListAgrees(g, ts[1..], bound, depth);
    }
  }

  /** `w` follows relationships: each twin refers to the next. */
  predicate IsWalk(g: Graph, w: seq<Ref>) {
    (forall i :: 0 <= i < |w| ==> w[i] in g) &&
    forall i :: 0 < i < |w| ==> w[i] in Targets(g[w[i - 1]].rels)
  }

  /** A walk that ends at a twin it has already passed. */
  predicate Revisits(w: seq<Ref>) {
    |w| > 0 && w[|w| - 1] in w[..|w| - 1]
  }

  /** A call that returns returned for each of its targets, one level deeper. */
  lemma {:induction false} DepthListDescends(g: Graph, ts: seq<Ref>, depth: nat, t: Ref)
    requires ClosedGraph(g) && InGraph(g, ts) && t in ts
    requires TraverseListDepth(g, ts, depth).Some?
    ensures TraverseDepth(g, t, depth).Some?
    decreases |ts|
  {
    if ts[0] != t {
      DepthListDescends(g, ts[1..], depth, t);
    }
  }

  /** Along a walk, a call that returns needs one more level per step. */
  lemma {:induction false} DepthWalkDescends(g: Graph, w: seq<Ref>, i: nat, j: nat, depth: nat)
    requires ClosedGraph(g) && IsWalk(g, w) && i <= j < |w|
    requires TraverseDepth(g, w[i], depth).Some?
    ensures depth > j - i && TraverseDepth(g, w[j], depth - (j - i)).Some?
    decreases j - i
  {
    if i < j {
      DepthWalkDescends(g, w, i, j - 1, depth);
      var d := depth - (j - 1 - i);
      var x := w[j - 1];
      assert TargetsInGraph(g, x);
      DepthListDescends(g, Targets(g[x].rels), d - 1, w[j]);
    }
  }

  /** No stack is deep enough for a twin on a cycle. */
  lemma {:induction false} CycleNeverReturns(g: Graph, w: seq<Ref>, i: nat, depth: nat)
    requires ClosedGraph(g) && IsWalk(g, w) && i < |w| - 1 && w[|w| - 1] == w[i]
    ensures TraverseDepth(g, w[i], depth).None?
    decreases depth
  {
    var k := |w| - 1;
    if TraverseDepth(g, w[i], depth).Some? {
      DepthWalkDescends(g, w, i, k, depth);
      CycleNeverReturns(g, w, i, depth - (k - i));
    }
  }

  /** A walk from the start that revisits a twin: the source's recursion from
      the start never returns. */
  lemma RevisitNeverReturns(g: Graph, w: seq<Ref>, depth: nat)
    requires ClosedGraph(g) && IsWalk(g, w) && Revisits(w)
    ensures TraverseDepth(g, w[0], depth).None?
  {
    var k := |w| - 1;
    var m :| 0 <= m < k && w[m] == w[k];
    CycleNeverReturns(g, w, m, depth);
    if TraverseDepth(g, w[0], depth).Some? {
      DepthWalkDescends(g, w, 0, m, depth);
      CycleNeverReturns(g, w, m, depth - m);
    }
  }

  /** The error a cycle check reports: the twin reached twice along one chain. */
  datatype GraphError = Cycle(twin: Ref)

  /** The twins of the graph not on `path`: the measure of the checked traversal. */
  function Unvisited(g: Graph, path: seq<Ref>): set<Ref> {
    g.Keys - set x | x in path
  }

  lemma UnvisitedShrinks(g: Graph, path: seq<Ref>, t: Ref)
    requires t in g && t !in path
    ensures |Unvisited(g, path + [t])| < |Unvisited(g, path)|
  {
    assert Unvisited(g, path + [t]) == Unvisited(g, path) - {t};
    assert t in Unvisited(g, path);
  }

  /** TraverseTwin with the chain of twins being traversed, `path`: a target
      already on the chain, where the source would recurse without end, is
      reported as a cycle instead. */
  function TraverseChecked(g: Graph, r: Ref, path: seq<Ref>): Result<seq<Ref>, GraphError>
    requires ClosedGraph(g) && r in g
    decreases |Unvisited(g, path)|, 1, 0
  {
    assert TargetsInGraph(g, r);
    TraverseListChecked(g, Targets(g[r].rels), path)
  }

  function TraverseListChecked(g: Graph, ts: seq<Ref>, path: seq<Ref>): Result<seq<Ref>, GraphError>
    requires ClosedGraph(g) && InGraph(g, ts)
    decreases |Unvisited(g, path)|, 0, |ts|
  {
    if ts == [] then Ok([])
    else if ts[0] in path then Err(Cycle(ts[0]))
    else
      UnvisitedShrinks(g, path, ts[0]);
      match TraverseChecked(g, ts[0], path + [ts[0]])
      case Err(e) => Err(e)
      case Ok(sub) =>
        match TraverseListChecked(g, ts[1..], path)
        case Err(e) => Err(e)
        case Ok(rest) => Ok([ts[0]] + sub + rest)
  }

  /** When the check passes, a stack deeper than the unvisited twins lets the
      source's recursion return the same list. */
  lemma {:induction false} CheckedOkReturns(g: Graph, r: Ref, path: seq<Ref>, depth: nat)
    requires ClosedGraph(g) && r in g && TraverseChecked(g, r, path).Ok?
    requires depth > |Unvisited(g, path)|
    ensures TraverseDepth(g, r, depth) == Some(TraverseChecked(g, r, path).value)
    decreases |Unvisited(g, path)|, 1, 0
  {
    assert TargetsInGraph(g, r);
    CheckedListOkReturns(g, Targets(g[r].rels), path, depth - 1);
  }

  lemma {:induction false} CheckedListOkReturns(g: Graph, ts: seq<Ref>, path: seq<Ref>, depth: nat)
    requires ClosedGraph(g) && InGraph(g, ts) && TraverseListChecked(g, ts, path).Ok?
    requires depth >= |Unvisited(g, path)|
    ensures TraverseListDepth(g, ts, depth) == Some(TraverseListChecked(g, ts, path).value)
    decreases |Unvisited(g, path)|, 0, |ts|
  {
    if ts != [] {
      UnvisitedShrinks(g, path, ts[0]);
      CheckedOkReturns(g, ts[0], path + [ts[0]], depth);
      CheckedListOkReturns(g, ts[1..], path, depth);
    }
  }

  /** When the check fails, the chain it followed and the twin it met again
      form a walk that revisits a twin. */
  lemma {:induction false} CheckedErrWalk(g: Graph, r: Ref, path: seq<Ref>) returns (w: seq<Ref>)
    requires ClosedGraph(g) && r in g && TraverseChecked(g, r, path).Err?
    requires IsWalk(g, path) && path != [] && path[|path| - 1] == r
    ensures IsWalk(g, w) && Revisits(w) && w[0] == path[0]
    decreases |Unvisited(g, path)|, 1, 0
  {
    assert TargetsInGraph(g, r);
    w := CheckedListErrWalk(g, Targets(g[r].rels), path);
  }

  lemma {:induction false} CheckedListErrWalk(g: Graph, ts: seq<Ref>, path: seq<Ref>) returns (w: seq<Ref>)
    requires ClosedGraph(g) && InGraph(g, ts) && TraverseListChecked(g, ts, path).Err?
    requires IsWalk(g, path) && path != []
    requires forall t :: t in ts ==> t in Targets(g[path[|path| - 1]].rels)
    ensures IsWalk(g, w) && Revisits(w) && w[0] == path[0]
    decreases |Unvisited(g, path)|, 0, |ts|
  {
    var t := ts[0];
    var p := path + [t];
    assert t in ts;
    WalkSnoc(g, path, t);
    if t in path {
      w := p;
      assert p[..|p| - 1] == path;
    } else {
      UnvisitedShrinks(g, path, t);
      if TraverseChecked(g, t, p).Err? {
        w := CheckedErrWalk(g, t, p);
      } else {
        assert TraverseListChecked(g, ts[1..], path).Err?;
        assert forall x :: x in ts[1..] ==> x in ts;
        w := CheckedListErrWalk(g, ts[1..], path);
      }
    }
  }

  lemma WalkSnoc(g: Graph, path: seq<Ref>, t: Ref)
    requires IsWalk(g, path) && path != [] && t in g && t in Targets(g[path[|path| - 1]].rels)
    ensures IsWalk(g, path + [t]) && (path + [t])[0] == path[0]
  {
    var p := path + [t];
    forall i | 0 < i < |p| ensures p[i] in Targets(g[p[i - 1]].rels) {
      if i < |path| {
        assert p[i] == path[i] && p[i - 1] == path[i - 1];
      }
    }
  }

  /** The source's recursion from the root returns, for a deep enough
      stack, exactly when the checked traversal meets no twin twice along one
      chain; it then returns the checked traversal's list. */
  lemma AsWrittenReturns(g: Graph, root: Ref)
    requires ClosedGraph(g) && root in g
    ensures TraverseChecked(g, root, [root]).Err? <==> forall depth :: TraverseDepth(g, root, depth).None?
    ensures TraverseChecked(g, root, [root]).Ok? ==>
              TraverseDepth(g, root, |g|) == Some(TraverseChecked(g, root, [root]).value)
  {
    if TraverseChecked(g, root, [root]).Err? {
      var w := CheckedErrWalk(g, root, [root]);
      forall depth ensures TraverseDepth(g, root, depth).None? {
        RevisitNeverReturns(g, w, depth);
      }
    } else {
      UnvisitedShrinks(g, [], root);
      assert [] + [root] == [root];
      assert Unvisited(g, []) == g.Keys;
      CheckedOkReturns(g, root, [root], |g|);
    }
  }

  // ---------------------------------------------------------------------
  // Flatten with a visited list

  /** `s` continues `seen` and stays in the graph. */
  predicate Extends(g: Graph, seen: seq<Ref>, s: seq<Ref>) {
    |seen| <= |s| && s[..|seen|] == seen && InGraph(g, s)
  }

  lemma UnvisitedExtends(g: Graph, seen: seq<Ref>, s: seq<Ref>)
    requires Extends(g, seen, s)
    ensures |Unvisited(g, s)| <= |Unvisited(g, seen)|
  {
    var a := Unvisited(g, seen);
    var b := Unvisited(g, s);
    forall x | x in seen ensures x in s {
      var i :| 0 <= i < |seen| && seen[i] == x;
      assert s[i] == x;
    }
    assert b <= a;
    assert a == b + (a - b);
    assert b * (a - b) == {};
  }

  /** Flatten as evidently intended: the depth-first walk of TraverseTwin
      that leaves out a twin already listed instead of entering it again, so
      it ends on every closed graph. `seen` is the list so far. */
  function Visit(g: Graph, r: Ref, seen: seq<Ref>): (s: seq<Ref>)
    requires ClosedGraph(g) && r in g && InGraph(g, seen)
    ensures Extends(g, seen, s)
    decreases |Unvisited(g, seen)|, 1, 0
  {
    assert TargetsInGraph(g, r);
    VisitList(g, Targets(g[r].rels), seen)
  }

  function VisitList(g: Graph, ts: seq<Ref>, seen: seq<Ref>): (s: seq<Ref>)
    requires ClosedGraph(g) && InGraph(g, ts) && InGraph(g, seen)
    ensures Extends(g, seen, s)
    decreases |Unvisited(g, seen)|, 0, |ts|
  {
    if ts == [] then seen
    else if ts[0] in seen then VisitList(g, ts[1..], seen)
    else
      UnvisitedShrinks(g, seen, ts[0]);
      var s1 := Visit(g, ts[0], seen + [ts[0]]);
      ExtendsEntered(g, seen, ts[0], s1);
      var s := VisitList(g, ts[1..], s1);
      ExtendsTrans(g, seen, s1, s);
      s
  }

  /** What a walk entered from a new twin lists continues the list, with
      fewer twins left unvisited. */
  lemma ExtendsEntered(g: Graph, seen: seq<Ref>, t: Ref, s1: seq<Ref>)
    requires t in g && t !in seen && Extends(g, seen + [t], s1)
    ensures Extends(g, seen, s1) && |Unvisited(g, s1)| < |Unvisited(g, seen)|
  {
    UnvisitedShrinks(g, seen, t);
    assert s1[..|seen|] == (s1[..|seen| + 1])[..|seen|];
    UnvisitedExtends(g, seen + [t], s1);
  }

  lemma ExtendsTrans(g: Graph, a: seq<Ref>, b: seq<Ref>, c: seq<Ref>)
    requires Extends(g, a, b) && Extends(g, b, c)
    ensures Extends(g, a, c)
  {
    assert c[..|a|] == (c[..|b|])[..|a|];
  }

  function FlattenVisited(g: Graph, root: Ref): seq<Ref>
    requires ClosedGraph(g) && root in g
  {
    Visit(g, root, [root])
  }

  /** `x` is `r` or is reached from it by following relationships, in any graph. */
  ghost predicate Leads(g: Graph, r: Ref, x: Ref) {
    exists w :: IsWalk(g, w) && |w| > 0 && w[0] == r && w[|w| - 1] == x
  }

  /** Every target a twin of `y`'s refers to is listed in `s`. */
  predicate TargetsListed(g: Graph, y: Ref, s: seq<Ref>)
    requires y in g
  {
    forall z :: z in Targets(g[y].rels) ==> z in s
  }

  /** The walk lists no twin twice when the list it starts from has none. */
  lemma {:induction false} VisitNoDup(g: Graph, r: Ref, seen: seq<Ref>)
    requires ClosedGraph(g) && r in g && InGraph(g, seen) && NoDup(seen)
    ensures NoDup(Visit(g, r, seen))
    decreases |Unvisited(g, seen)|, 1, 0
  {
    assert TargetsInGraph(g, r);
    VisitListNoDup(g, Targets(g[r].rels), seen);
  }

  lemma {:induction false} VisitListNoDup(g: Graph, ts: seq<Ref>, seen: seq<Ref>)
    requires ClosedGraph(g) && InGraph(g, ts) && InGraph(g, seen) && NoDup(seen)
    ensures NoDup(VisitList(g, ts, seen))
    decreases |Unvisited(g, seen)|, 0, |ts|
  {
    if ts != [] {
      if ts[0] in seen {
        VisitListNoDup(g, ts[1..], seen);
      } else {
        UnvisitedShrinks(g, seen, ts[0]);
        NoDupSnoc(seen, ts[0]);
        var s1 := Visit(g, ts[0], seen + [ts[0]]);
        VisitNoDup(g, ts[0], seen + [ts[0]]);
        assert s1[..|seen|] == (s1[..|seen| + 1])[..|seen|];
        UnvisitedExtends(g, seen + [ts[0]], s1);
        VisitListNoDup(g, ts[1..], s1);
      }
    }
  }

  /** The walk lists every target it was given, and every twin it adds has
      its own targets listed. */
  lemma {:induction false} VisitCovers(g: Graph, r: Ref, seen: seq<Ref>)
    requires ClosedGraph(g) && r in g && InGraph(g, seen)
    ensures TargetsListed(g, r, Visit(g, r, seen))
    ensures forall y :: y in Visit(g, r, seen) && y !in seen ==> TargetsListed(g, y, Visit(g, r, seen))
    decreases |Unvisited(g, seen)|, 1, 0
  {
    assert TargetsInGraph(g, r);
    VisitListCovers(g, Targets(g[r].rels), seen);
  }

  lemma {:induction false} VisitListCovers(g: Graph, ts: seq<Ref>, seen: seq<Ref>)
    requires ClosedGraph(g) && InGraph(g, ts) && InGraph(g, seen)
    ensures forall t :: t in ts ==> t in VisitList(g, ts, seen)
    ensures forall y :: y in VisitList(g, ts, seen) && y !in seen ==> TargetsListed(g, y, VisitList(g, ts, seen))
    decreases |Unvisited(g, seen)|, 0, |ts|
  {
    if ts != [] {
      var s := VisitList(g, ts, seen);
      var t := ts[0];
      if t in seen {
        VisitListCovers(g, ts[1..], seen);
        KeptIn(seen, s, t);
      } else {
        UnvisitedShrinks(g, seen, t);
        var p := seen + [t];
        var s1 := Visit(g, t, p);
        VisitCovers(g, t, p);
        assert s1[..|seen|] == (s1[..|seen| + 1])[..|seen|];
        UnvisitedExtends(g, p, s1);
        VisitListCovers(g, ts[1..], s1);
        assert s == VisitList(g, ts[1..], s1);
        assert t in p && p[|seen|] == t;
        KeptIn(p, s1, t);
        KeptIn(s1, s, t);
        forall y | y in s && y !in seen ensures TargetsListed(g, y, s) {
          if y in s1 {
            if y !in p {
              assert TargetsListed(g, y, s1);
            }
            forall z | z in Targets(g[y].rels) ensures z in s {
              assert z in s1;
              KeptIn(s1, s, z);
            }
          }
        }
      }
    }
  }

  /** A list that continues another keeps its twins. */
  lemma KeptIn(a: seq<Ref>, b: seq<Ref>, x: Ref)
    requires |a| <= |b| && b[..|a|] == a && x in a
    ensures x in b
  {
    var i :| 0 <= i < |a| && a[i] == x;
    assert b[i] == x;
  }

  /** All the twins the walk adds are reached from one of its targets. */
  lemma {:induction false} VisitFrom(g: Graph, r: Ref, seen: seq<Ref>, x: Ref)
    requires ClosedGraph(g) && r in g && InGraph(g, seen)
    requires x in Visit(g, r, seen) && x !in seen
    ensures exists w :: IsWalk(g, w) && |w| > 1 && w[0] == r && w[|w| - 1] == x
    decreases |Unvisited(g, seen)|, 1, 0
  {
    assert TargetsInGraph(g, r);
    var t := VisitListFrom(g, Targets(g[r].rels), seen, x);
    var w :| IsWalk(g, w) && |w| > 0 && w[0] == t && w[|w| - 1] == x;
    WalkCons(g, r, w);
    assert ([r] + w)[|[r] + w| - 1] == x;
  }

  lemma {:induction false} VisitListFrom(g: Graph, ts: seq<Ref>, seen: seq<Ref>, x: Ref) returns (t: Ref)
    requires ClosedGraph(g) && InGraph(g, ts) && InGraph(g, seen)
    requires x in VisitList(g, ts, seen) && x !in seen
    ensures t in ts && Leads(g, t, x)
    decreases |Unvisited(g, seen)|, 0, |ts|
  {
    var t0 := ts[0];
    if t0 in seen {
      t := VisitListFrom(g, ts[1..], seen, x);
    } else {
      UnvisitedShrinks(g, seen, t0);
      var p := seen + [t0];
      var s1 := Visit(g, t0, p);
      assert s1[..|seen|] == (s1[..|seen| + 1])[..|seen|];
      UnvisitedExtends(g, p, s1);
      if x in s1 {
        t := t0;
        if x == t0 {
          var w := [t0];
          assert IsWalk(g, w) && |w| > 0 && w[0] == t0 && w[|w| - 1] == x;
        } else {
          assert x !in p;
          VisitFrom(g, t0, p, x);
        }
      } else {
        t := VisitListFrom(g, ts[1..], s1, x);
      }
    }
  }

  lemma WalkCons(g: Graph, r: Ref, w: seq<Ref>)
    requires IsWalk(g, w) && |w| > 0 && r in g && w[0] in Targets(g[r].rels)
    ensures IsWalk(g, [r] + w) && ([r] + w)[0] == r
  {
    var p := [r] + w;
    forall i | 0 < i < |p| ensures p[i] in Targets(g[p[i - 1]].rels) {
      if i > 1 {
        assert p[i] == w[i - 1] && p[i - 1] == w[i - 2];
      }
    }
  }

  /** A walk that starts in a list closed under targets stays in it. */
  lemma {:induction false} WalkStays(g: Graph, s: seq<Ref>, w: seq<Ref>, i: nat)
    requires IsWalk(g, w) && |w| > 0 && w[0] in s && i < |w|
    requires forall y :: y in s ==> y in g && TargetsListed(g, y, s)
    ensures w[i] in s
  {
    if i > 0 {
      WalkStays(g, s, w, i - 1);
    }
  }

  /** On any closed graph, cyclic or not, the intended Flatten starts with the
      root, lists no twin twice, and lists exactly the twins the root leads to. */
  lemma FlattenVisitedSpec(g: Graph, root: Ref)
    requires ClosedGraph(g) && root in g
    ensures var f := FlattenVisited(g, root);
      |f| > 0 && f[0] == root && NoDup(f) && forall x :: x in f <==> Leads(g, root, x)
  {
    var f := FlattenVisited(g, root);
    assert [root][..1] == [root];
    assert NoDup([root]);
    VisitNoDup(g, root, [root]);
    VisitCovers(g, root, [root]);
    assert f[..1] == [root];
    assert f[0] == f[..1][0] == root;
    forall x ensures x in f <==> Leads(g, root, x) {
      if x in f {
        if x == root {
          assert IsWalk(g, [root]);
        } else {
          VisitFrom(g, root, [root], x);
        }
      }
      if Leads(g, root, x) {
        var w :| IsWalk(g, w) && |w| > 0 && w[0] == root && w[|w| - 1] == x;
        forall y | y in f ensures y in g && TargetsListed(g, y, f) {
          if y == root {
          } else {
            assert y !in [root];
          }
        }
        WalkStays(g, f, w, |w| - 1);
      }
    }
  }

  /** Following relationships twice is following them. */
  lemma {:induction false} ReachableTrans(g: Graph, r: Ref, x: Ref, y: Ref)
    requires ValidGraph(g) && r in g && x in g
    requires Reachable(g, r, x) && Reachable(g, x, y)
    ensures Reachable(g, r, y)
    decreases g[r].rank
  {
    assert ValidNode(g, r);
    var t :| t in Targets(g[r].rels) && (t == x || Reachable(g, t, x));
    if t != x {
      ReachableTrans(g, t, x, y);
    }
  }

  lemma TraverseTrans(g: Graph, t: Ref, x: Ref, y: Ref)
    requires ValidGraph(g) && t in g && x in Traverse(g, t)
    ensures x in g && (y in Traverse(g, x) ==> y in Traverse(g, t))
  {
    TraverseBelow(g, t);
    TraverseReachable(g, t, x);
    TraverseReachable(g, x, y);
    TraverseReachable(g, t, y);
    if y in Traverse(g, x) {
      ReachableTrans(g, t, x, y);
    }
  }

  /** Every twin of `s` that ranks below `bound` has all it reaches in `s`. */
  predicate Settled(g: Graph, s: seq<Ref>, bound: nat)
    requires ValidGraph(g) && InGraph(g, s)
  {
    forall x :: x in s && g[x].rank < bound ==> forall y :: y in Traverse(g, x) ==> y in s
  }

  lemma SettledSnoc(g: Graph, seen: seq<Ref>, t: Ref, bound: nat)
    requires ValidGraph(g) && InGraph(g, seen) && Settled(g, seen, bound) && t in g && g[t].rank < bound
    ensures InGraph(g, seen + [t]) && Settled(g, seen + [t], g[t].rank)
  {
    forall x | x in seen + [t] && g[x].rank < g[t].rank ensures forall y :: y in Traverse(g, x) ==> y in seen + [t] {
      assert x in seen;
    }
  }

  lemma SettledGrow(g: Graph, h: seq<Ref>, t: Ref, bound: nat)
    requires ValidGraph(g) && InGraph(g, h) && t in g && g[t].rank < bound
    requires InGraph(g, Distinct(h)) && Settled(g, Distinct(h), bound)
    ensures var h2 := h + [t] + Traverse(g, t);
      InGraph(g, h2) && InGraph(g, Distinct(h2)) && Settled(g, Distinct(h2), bound)
  {
    var h2 := h + [t] + Traverse(g, t);
    TraverseBelow(g, t);
    DistinctElems(h);
    DistinctElems(h2);
    forall x | x in Distinct(h2) && g[x].rank < bound ensures forall y :: y in Traverse(g, x) ==> y in Distinct(h2) {
      forall y | y in Traverse(g, x) ensures y in h2 {
        if x in h {
          assert y in Distinct(h);
        } else if x != t {
          assert x in Traverse(g, t);
          TraverseTrans(g, t, x, y);
        }
      }
    }
  }

  /** On an acyclic graph, walking with a visited list from a list whose
      settled twins have all they reach listed gives the list followed by
      the source's traversal, without repeats. */
  lemma {:induction false} VisitAgrees(g: Graph, ts: seq<Ref>, bound: nat, h: seq<Ref>)
    requires ValidGraph(g) && ClosedGraph(g) && Below(g, ts, bound) && InGraph(g, h)
    requires InGraph(g, Distinct(h)) && Settled(g, Distinct(h), bound)
    ensures VisitList(g, ts, Distinct(h)) == Distinct(h + TraverseList(g, ts, bound))
    decreases bound, 0, |ts|, 1
  {
    if ts == [] {
      assert h + [] == h;
    } else if ts[0] in Distinct(h) {
      VisitAgreesListed(g, ts, bound, h);
    } else {
      VisitAgreesNew(g, ts, bound, h);
    }
  }

  /** A first target already listed: it and all it reaches are listed. */
  lemma {:induction false} VisitAgreesListed(g: Graph, ts: seq<Ref>, bound: nat, h: seq<Ref>)
    requires ValidGraph(g) && ClosedGraph(g) && Below(g, ts, bound) && InGraph(g, h)
    requires InGraph(g, Distinct(h)) && Settled(g, Distinct(h), bound)
    requires ts != [] && ts[0] in Distinct(h)
    ensures VisitList(g, ts, Distinct(h)) == Distinct(h + TraverseList(g, ts, bound))
    decreases bound, 0, |ts|, 0
  {
    var t, seen := ts[0], Distinct(h);
    ListedAbsorb(g, t, bound, h);
    var h2 := h + [t] + Traverse(g, t);
    assert Below(g, ts[1..], bound);
    VisitAgrees(g, ts[1..], bound, h2);
    ListedStep(g, ts, bound, seen);
    TraverseListStep(g, ts, bound);
    Regroup(h, t, Traverse(g, t), TraverseList(g, ts[1..], bound));
  }

  /** A listed twin of low rank adds nothing: all it reaches is listed. */
  lemma ListedAbsorb(g: Graph, t: Ref, bound: nat, h: seq<Ref>)
    requires ValidGraph(g) && t in g && g[t].rank < bound && InGraph(g, h)
    requires InGraph(g, Distinct(h)) && Settled(g, Distinct(h), bound) && t in Distinct(h)
    ensures var h2 := h + [t] + Traverse(g, t);
      InGraph(g, h2) && Distinct(h2) == Distinct(h)
  {
    DistinctElems(h);
    TraverseBelow(g, t);
    var sub := [t] + Traverse(g, t);
    assert forall y :: y in Traverse(g, t) ==> y in Distinct(h);
    DistinctAbsorbs(h, sub);
    assert h + [t] + Traverse(g, t) == h + sub;
  }

  lemma ListedStep(g: Graph, ts: seq<Ref>, bound: nat, seen: seq<Ref>)
    requires ClosedGraph(g) && InGraph(g, ts) && InGraph(g, seen)
    requires ts != [] && ts[0] in seen
    ensures VisitList(g, ts, seen) == VisitList(g, ts[1..], seen)
  {
  }

  lemma TraverseListStep(g: Graph, ts: seq<Ref>, bound: nat)
    requires ValidGraph(g) && Below(g, ts, bound) && ts != []
    ensures Below(g, ts[1..], bound) && ts[0] in g
    ensures TraverseList(g, ts, bound) == [ts[0]] + Traverse(g, ts[0]) + TraverseList(g, ts[1..], bound)
  {
    assert ts[0] in ts;
  }

  /** A first target not yet listed: it is listed, then all it reaches. */
  lemma {:induction false} VisitAgreesNew(g: Graph, ts: seq<Ref>, bound: nat, h: seq<Ref>)
    requires ValidGraph(g) && ClosedGraph(g) && Below(g, ts, bound) && InGraph(g, h)
    requires InGraph(g, Distinct(h)) && Settled(g, Distinct(h), bound)
    requires ts != [] && ts[0] !in Distinct(h)
    ensures VisitList(g, ts, Distinct(h)) == Distinct(h + TraverseList(g, ts, bound))
    decreases bound, 0, |ts|, 0
  {
    var t, seen := ts[0], Distinct(h);
    assert t in ts;
    VisitEnter(g, t, bound, h);
    var h2 := h + [t] + Traverse(g, t);
    SettledGrow(g, h, t, bound);
    assert Below(g, ts[1..], bound);
    VisitAgrees(g, ts[1..], bound, h2);
    NewStep(g, ts, seen, Distinct(h2));
    TraverseListStep(g, ts, bound);
    Regroup(h, t, Traverse(g, t), TraverseList(g, ts[1..], bound));
  }

  lemma Regroup(h: seq<Ref>, t: Ref, sub: seq<Ref>, rest: seq<Ref>)
    ensures h + [t] + sub + rest == h + ([t] + sub + rest)
  {
  }

  /** Entering a twin not yet listed lists it, then all it reaches. */
  lemma {:induction false} VisitEnter(g: Graph, t: Ref, bound: nat, h: seq<Ref>)
    requires ValidGraph(g) && ClosedGraph(g) && t in g && g[t].rank < bound && InGraph(g, h)
    requires InGraph(g, Distinct(h)) && Settled(g, Distinct(h), bound) && t !in Distinct(h)
    ensures InGraph(g, Distinct(h) + [t])
    ensures Visit(g, t, Distinct(h) + [t]) == Distinct(h + [t] + Traverse(g, t))
    decreases g[t].rank, 1
  {
    DistinctElems(h);
    DistinctSnoc(h, t);
    SettledSnoc(g, Distinct(h), t, bound);
    assert ValidNode(g, t);
    VisitAgrees(g, Targets(g[t].rels), g[t].rank, h + [t]);
  }

  lemma NewStep(g: Graph, ts: seq<Ref>, seen: seq<Ref>, s1: seq<Ref>)
    requires ClosedGraph(g) && InGraph(g, ts) && InGraph(g, seen)
    requires ts != [] && ts[0] !in seen && InGraph(g, seen + [ts[0]])
    requires Visit(g, ts[0], seen + [ts[0]]) == s1
    ensures InGraph(g, s1) && VisitList(g, ts, seen) == VisitList(g, ts[1..], s1)
  {
  }

  /** On an acyclic graph the intended Flatten is Flatten. */
  lemma FlattenVisitedAcyclic(g: Graph, root: Ref)
    requires ValidGraph(g) && root in g
    ensures ClosedGraph(g) && FlattenVisited(g, root) == Flatten(g, root)
  {
    ValidIsClosed(g);
    assert Distinct([root]) == [root] by {
      assert [root][..0] == [];
    }
    assert ValidNode(g, root);
    VisitAgrees(g, Targets(g[root].rels), g[root].rank, [root]);
  }

  /** Two twins that refer to each other, such as a room and its floor. */
  function RoomAndFloor(): Graph {
    map[0 := TwinNode("Room", "room", [RelSlot("Floor", One(1))], 0),
        1 := TwinNode("Floor", "floor", [RelSlot("Rooms", Many([0]))], 0)]
  }

  /** As written, Flatten of the room never returns, whatever the stack
      depth; the intended Flatten lists the room and then its floor. */
  lemma RoomAndFloorNeverReturns(depth: nat)
    ensures ClosedGraph(RoomAndFloor()) && !ValidGraph(RoomAndFloor())
    ensures TraverseDepth(RoomAndFloor(), 0, depth).None?
    ensures FlattenVisited(RoomAndFloor(), 0) == [0, 1]
  {
    var g := RoomAndFloor();
    assert Targets(g[0].rels) == [1];
    assert Targets(g[1].rels) == [0];
    assert ClosedGraph(g);
    assert !ValidNode(g, 0);
    var w := [0, 1, 0];
    assert w[..2] == [0, 1];
    assert IsWalk(g, w) && Revisits(w);
    RevisitNeverReturns(g, w, depth);
    assert [0] + [1] == [0, 1];
    assert VisitList(g, [0], [0, 1]) == [0, 1];
    assert Visit(g, 1, [0, 1]) == [0, 1];
    assert VisitList(g, [1], [0]) == [0, 1];
  }

  // ---------------------------------------------------------------------
  // GetRelationships

  /** A twin's Id. GetRelationships only meets twins in the graph; a
      reference outside it has the empty Id. */
  function IdOf(g: Graph, r: Ref): string {
    if r in g then g[r].id else ""
  }

  /** The edges one relationship property yields. */
  function SlotEdges(sourceId: string, name: string, g: Graph, v: RelValue): (r: seq<Edge>)
    ensures |r| == |SlotTargets(v)|
  {
    var ts := SlotTargets(v);
    seq(|ts|, i requires 0 <= i < |ts| => Edge(sourceId, IdOf(g, ts[i]), name))
  }

  /** An edge per target, in order, from the source twin; none for null. */
  lemma SlotEdgesSpec(sourceId: string, name: string, g: Graph, v: RelValue)
    ensures v.NoTarget? ==> SlotEdges(sourceId, name, g, v) == []
    ensures v.One? ==> SlotEdges(sourceId, name, g, v) == [Edge(sourceId, IdOf(g, v.target), name)]
    ensures forall i :: 0 <= i < |SlotTargets(v)| ==>
              SlotEdges(sourceId, name, g, v)[i] == Edge(sourceId, IdOf(g, SlotTargets(v)[i]), name)
  {
  }

  function EdgesOf(sourceId: string, camel: string -> string, g: Graph, slots: seq<RelSlot>): seq<Edge>
  {
    if slots == [] then []
    else
      SlotEdges(sourceId, camel(slots[0].member), g, slots[0].value) +
      EdgesOf(sourceId, camel, g, slots[1..])
  }

  /** The relationship edges of a twin, one per target, named by the camel-cased property. */
  function Relationships(g: Graph, r: Ref, camel: string -> string): seq<Edge>
    requires r in g && TargetsInGraph(g, r)
  {
    EdgesOf(g[r].id, camel, g, g[r].rels)
  }

  /** One step of EdgesOf, with the tail's precondition. */
  lemma EdgesOfCons(sourceId: string, camel: string -> string, g: Graph, s: seq<RelSlot>)
    requires s != []
    ensures Targets(s) == SlotTargets(s[0].value) + Targets(s[1..])
    ensures EdgesOf(sourceId, camel, g, s) ==
            SlotEdges(sourceId, camel(s[0].member), g, s[0].value) + EdgesOf(sourceId, camel, g, s[1..])
  {
  }

  lemma {:induction false} EdgesOfConcat(sourceId: string, camel: string -> string, g: Graph, a: seq<RelSlot>, b: seq<RelSlot>)
    ensures EdgesOf(sourceId, camel, g, a + b) == EdgesOf(sourceId, camel, g, a) + EdgesOf(sourceId, camel, g, b)
  {
    if a == [] {
      assert a + b == b;
    } else {
      assert (a + b)[0] == a[0] && (a + b)[1..] == a[1..] + b;
      EdgesOfCons(sourceId, camel, g, a);
      EdgesOfCons(sourceId, camel, g, a + b);
      EdgesOfConcat(sourceId, camel, g, a[1..], b);
    }
  }

  /** GetRelationships (lines 81-103), on the list it fills. */
  method GetRelationships(g: Graph, twin: Ref, camel: string -> string) returns (result: seq<Edge>)
    requires twin in g && TargetsInGraph(g, twin)
    ensures result == Relationships(g, twin, camel)
  {
    var node := g[twin];
    var slots := node.rels;
    result := [];
    assert slots[..0] == [];
    for i := 0 to |slots|
      invariant result == EdgesOf(node.id, camel, g, slots[..i])
    {
      SlotInGraph(g, slots, i);
      var name := camel(slots[i].member);
      result := AddSlotEdges(node.id, name, g, slots[i].value, result);
      EdgesOfConcat(node.id, camel, g, slots[..i], [slots[i]]);
      SplitAt(slots, i);
      assert EdgesOf(node.id, camel, g, [slots[i]]) == SlotEdges(node.id, name, g, slots[i].value) + [];
    }
    assert slots[..|slots|] == slots;
  }

  /** Lines 88-100 for one relationship property: an edge per collection
      element, one edge for a single twin, none for null. */
  method AddSlotEdges(sourceId: string, name: string, g: Graph, v: RelValue, result0: seq<Edge>)
    returns (result: seq<Edge>)
    requires InGraph(g, SlotTargets(v))
    ensures result == result0 + SlotEdges(sourceId, name, g, v)
  {
    result := result0;
    match v {
      case Many(ts) =>
        for j := 0 to |ts|
          invariant result == result0 + SlotEdges(sourceId, name, g, Many(ts[..j]))
        {
          assert ts[j] in ts;
          result := result + [Edge(sourceId, g[ts[j]].id, name)];
          assert SlotEdges(sourceId, name, g, Many(ts[..j + 1])) ==
                 SlotEdges(sourceId, name, g, Many(ts[..j])) + [Edge(sourceId, g[ts[j]].id, name)];
        }
        assert ts[..|ts|] == ts;
      case One(t) =>
        result := result + [Edge(sourceId, g[t].id, name)];
      case NoTarget =>
        assert result0 + [] == result0;
    }
  }

  /** The edges and the first level of the traversal agree: edge i starts at
      this twin and ends at the i-th target, in the same order. */
  lemma {:induction false} EdgesFollowTargets(sourceId: string, camel: string -> string, g: Graph, slots: seq<RelSlot>)
    ensures |EdgesOf(sourceId, camel, g, slots)| == |Targets(slots)|
    ensures forall i :: 0 <= i < |Targets(slots)| ==>
              EdgesOf(sourceId, camel, g, slots)[i].sourceId == sourceId &&
              EdgesOf(sourceId, camel, g, slots)[i].targetId == IdOf(g, Targets(slots)[i])
  {
    if slots != [] {
      var head := SlotTargets(slots[0].value);
      assert Targets(slots) == head + Targets(slots[1..]);
      EdgesFollowTargets(sourceId, camel, g, slots[1..]);
      var e := EdgesOf(sourceId, camel, g, slots);
      var h := SlotEdges(sourceId, camel(slots[0].member), g, slots[0].value);
      forall i | 0 <= i < |Targets(slots)|
        ensures e[i].sourceId == sourceId && e[i].targetId == IdOf(g, Targets(slots)[i])
      {
        if i >= |head| {
          assert e[i] == EdgesOf(sourceId, camel, g, slots[1..])[i - |head|];
          assert Targets(slots)[i] == Targets(slots[1..])[i - |head|];
        } else {
          assert e[i] == h[i];
        }
      }
    }
  }

  /** Every edge of a twin starts at its Id and ends at a twin the traversal lists first. */
  lemma RelationshipsSpec(g: Graph, r: Ref, camel: string -> string)
    requires r in g && TargetsInGraph(g, r)
    ensures |Relationships(g, r, camel)| == |Targets(g[r].rels)|
    ensures forall i :: 0 <= i < |Relationships(g, r, camel)| ==>
              Relationships(g, r, camel)[i].sourceId == g[r].id &&
              Relationships(g, r, camel)[i].targetId == g[Targets(g[r].rels)[i]].id
  {
    EdgesFollowTargets(g[r].id, camel, g, g[r].rels);
    assert forall i :: 0 <= i < |Targets(g[r].rels)| ==> Targets(g[r].rels)[i] in g;
  }

  // ---------------------------------------------------------------------
  // GetInheritance

  /** The shared-list overload (lines 70-79): the list after the call, from
      its contents `acc` before it. Adding the list to itself doubles it. */
  function InheritFrom(tt: TypeTable, t: TypeId, acc: seq<TypeId>): seq<TypeId>
    requires ValidTable(tt) && t in tt
    decreases tt[t].depth
  {
    var b := tt[t].base;
    if b.Some? && b.value != TwinBaseType then
      assert ValidType(tt, t);
      var m := InheritFrom(tt, b.value, acc);
      m + m + [b.value]
    else acc
  }

  /** GetInheritance(t) (lines 57-68) fills a fresh list the same way. */
  function Inheritance(tt: TypeTable, t: TypeId): seq<TypeId>
    requires ValidTable(tt) && t in tt
  {
    InheritFrom(tt, t, [])
  }

  method GetInheritanceInto(tt: TypeTable, t: TypeId, types: TypeList) returns (r: TypeList)
    requires ValidTable(tt) && t in tt
    modifies types
    ensures r == types
    ensures types.items == InheritFrom(tt, t, old(types.items))
    decreases tt[t].depth
  {
    var b := tt[t].base;
    if b.Some? && b.value != TwinBaseType {
      assert ValidType(tt, t);
      var same := GetInheritanceInto(tt, b.value, types);
      types.AddRange(same);
      types.Add(b.value);
    }
    return types;
  }

  method GetInheritance(tt: TypeTable, t: TypeId) returns (types: TypeList)
    requires ValidTable(tt) && t in tt
    ensures fresh(types)
    ensures types.items == Inheritance(tt, t)
  {
    types := new TypeList();
    var b := tt[t].base;
    if b.Some? && b.value != TwinBaseType {
      assert ValidType(tt, t);
      var same := GetInheritanceInto(tt, b.value, types);
      types.AddRange(same);
      types.Add(b.value);
    }
  }

  /** The list holds the ancestors strictly below TwinBase and nothing else. */
  lemma {:induction false} InheritanceElems(tt: TypeTable, t: TypeId, x: TypeId)
    requires ValidTable(tt) && t in tt
    ensures x in Inheritance(tt, t) <==> x in AncestorChain(tt, t)
    decreases tt[t].depth
  {
    var b := tt[t].base;
    if b.Some? && b.value != TwinBaseType {
      assert ValidType(tt, t);
      InheritanceElems(tt, b.value, x);
    }
  }

  /** The farthest ancestor comes first and the immediate base last. */
  lemma {:induction false} InheritanceEnds(tt: TypeTable, t: TypeId)
    requires ValidTable(tt) && t in tt
    ensures |Inheritance(tt, t)| > 0 <==> |AncestorChain(tt, t)| > 0
    ensures |AncestorChain(tt, t)| > 0 ==>
              Inheritance(tt, t)[0] == AncestorChain(tt, t)[0] &&
              Inheritance(tt, t)[|Inheritance(tt, t)| - 1] == tt[t].base.value
    decreases tt[t].depth
  {
    var b := tt[t].base;
    if b.Some? && b.value != TwinBaseType {
      assert ValidType(tt, t);
      InheritanceEnds(tt, b.value);
      var c := AncestorChain(tt, b.value);
      if c != [] {
        assert AncestorChain(tt, t)[0] == c[0];
      }
    }
  }

  function Pow2(n: nat): nat {
    if n == 0 then 1 else 2 * Pow2(n - 1)
  }

  /** Each ancestor level doubles the list and adds one: 2^n - 1 entries for n ancestors. */
  lemma {:induction false} InheritanceLength(tt: TypeTable, t: TypeId)
    requires ValidTable(tt) && t in tt
    ensures |Inheritance(tt, t)| == Pow2(|AncestorChain(tt, t)|) - 1
    decreases tt[t].depth
  {
    var b := tt[t].base;
    if b.Some? && b.value != TwinBaseType {
      assert ValidType(tt, t);
      InheritanceLength(tt, b.value);
    }
  }

  /** With its repeats removed the list is exactly the ancestor chain. */
  lemma {:induction false} InheritanceDistinct(tt: TypeTable, t: TypeId)
    requires ValidTable(tt) && t in tt
    ensures Distinct(Inheritance(tt, t)) == AncestorChain(tt, t)
    decreases tt[t].depth
  {
    var b := tt[t].base;
    if b.Some? && b.value != TwinBaseType {
      assert ValidType(tt, t);
      var m := Inheritance(tt, b.value);
      InheritanceDistinct(tt, b.value);
      DistinctAbsorbs(m, m);
      DistinctSnoc(m + m, b.value);
      InheritanceElems(tt, b.value, b.value);
    }
  }

  /** A duplicate appears as soon as there are two ancestors below TwinBase. */
  lemma InheritanceRepeats(tt: TypeTable, t: TypeId)
    requires ValidTable(tt) && t in tt && |AncestorChain(tt, t)| >= 2
    ensures !NoDup(Inheritance(tt, t))
  {
    InheritanceLength(tt, t);
    InheritanceDistinct(tt, t);
    PowBound(|AncestorChain(tt, t)|);
    if NoDup(Inheritance(tt, t)) {
      DistinctOfNoDup(Inheritance(tt, t));
    }
  }

  lemma {:induction false} PowBound(n: nat)
    ensures Pow2(n) >= n + 1
    ensures n >= 2 ==> Pow2(n) >= n + 2
  {
    if n > 0 {
      PowBound(n - 1);
    }
  }

  // ---------------------------------------------------------------------
  // GetDependentTypes

  function TypesOf(g: Graph, rs: seq<Ref>): (r: seq<TypeId>)
    requires forall x :: x in rs ==> x in g
    ensures |r| == |rs| && forall i :: 0 <= i < |rs| ==> r[i] == g[rs[i]].typ
  {
    seq(|rs|, i requires 0 <= i < |rs| => g[rs[i]].typ)
  }

  /** Lines 43-47: for each model type, its inheritance list and then its component types. */
  function DerivedOf(tt: TypeTable, ms: seq<TypeId>): seq<TypeId>
    requires ValidTable(tt) && forall m :: m in ms ==> m in tt
  {
    if ms == [] then []
    else
      var m := ms[|ms| - 1];
      DerivedOf(tt, ms[..|ms| - 1]) + Inheritance(tt, m) + tt[m].modelComponents
  }

  /** The twins of the flattened graph: its root and everything reachable from it. */
  lemma FlattenInGraph(g: Graph, root: Ref)
    requires ValidGraph(g) && root in g
    ensures forall x :: x in Flatten(g, root) ==> x in g
  {
    FlattenSpec(g, root);
    TraverseBelow(g, root);
    forall x | x in Flatten(g, root) ensures x in g {
      TraverseReachable(g, root, x);
    }
  }

  function ModelTypes(tt: TypeTable, g: Graph, root: Ref): (r: seq<TypeId>)
    requires ValidGraph(g) && Typed(tt, g) && root in g
    ensures forall m :: m in r ==> m in tt
  {
    FlattenInGraph(g, root);
    TypesOf(g, Flatten(g, root))
  }

  /** GetDependentTypes (lines 36-55). */
  function DependentTypes(tt: TypeTable, g: Graph, root: Ref): seq<TypeId>
    requires ValidTable(tt) && ValidGraph(g) && Typed(tt, g) && root in g
  {
    var modelTypes := ModelTypes(tt, g, root);
    SortBy(Depth(tt), Distinct(modelTypes + DerivedOf(tt, modelTypes)))
  }

  method GetDependentTypes(tt: TypeTable, g: Graph, root: Ref) returns (types: seq<TypeId>)
    requires ValidTable(tt) && ValidGraph(g) && Typed(tt, g) && root in g
    ensures types == DependentTypes(tt, g, root)
  {
    var modelTypes := ModelTypes(tt, g, root);
    var derived: seq<TypeId> := [];
    for i := 0 to |modelTypes|
      invariant derived == DerivedOf(tt, modelTypes[..i])
    {
      assert modelTypes[..i + 1][..i] == modelTypes[..i];
      var inherited := GetInheritance(tt, modelTypes[i]);
      derived := derived + inherited.items;
      derived := derived + tt[modelTypes[i]].modelComponents;
    }
    assert modelTypes[..|modelTypes|] == modelTypes;
    types := SortBy(Depth(tt), Distinct(modelTypes + derived));
  }

  lemma {:induction false} DerivedOfElems(tt: TypeTable, ms: seq<TypeId>, x: TypeId)
    requires ValidTable(tt) && forall m :: m in ms ==> m in tt
    ensures x in DerivedOf(tt, ms) <==>
            exists m :: m in ms && (x in AncestorChain(tt, m) || x in tt[m].modelComponents)
  {
    if ms != [] {
      var m := ms[|ms| - 1];
      var init := ms[..|ms| - 1];
      DerivedOfElems(tt, init, x);
      InheritanceElems(tt, m, x);
      assert forall y :: y in ms <==> y in init || y == m;
    }
  }

  /** GetDependentTypes lists no type twice and is sorted by derivation depth. */
  lemma DependentTypesSorted(tt: TypeTable, g: Graph, root: Ref)
    requires ValidTable(tt) && ValidGraph(g) && Typed(tt, g) && root in g
    ensures NoDup(DependentTypes(tt, g, root))
    ensures SortedBy(Depth(tt), DependentTypes(tt, g, root))
  {
    var ms := ModelTypes(tt, g, root);
    var d := Distinct(ms + DerivedOf(tt, ms));
    DistinctNoDup(ms + DerivedOf(tt, ms));
    NoDupOfPermutation(d, DependentTypes(tt, g, root));
    SortBySorted(Depth(tt), d);
  }

  /** It holds exactly the flattened twins' types, their ancestors below
      TwinBase and their component types. */
  lemma DependentTypesElems(tt: TypeTable, g: Graph, root: Ref, x: TypeId)
    requires ValidTable(tt) && ValidGraph(g) && Typed(tt, g) && root in g
    ensures x in DependentTypes(tt, g, root) <==>
              x in ModelTypes(tt, g, root) ||
              exists m :: m in ModelTypes(tt, g, root) && (x in AncestorChain(tt, m) || x in tt[m].modelComponents)
  {
    var ms := ModelTypes(tt, g, root);
    var all := ms + DerivedOf(tt, ms);
    var d := Distinct(all);
    var r := DependentTypes(tt, g, root);
    DistinctElems(all);
    assert x in r <==> x in multiset(r);
    assert x in d <==> x in multiset(d);
    DerivedOfElems(tt, ms, x);
  }

  /** No type comes after one of its proper ancestors: the comparer puts ancestors first. */
  lemma DependentTypesAncestorsFirst(tt: TypeTable, g: Graph, root: Ref)
    requires ValidTable(tt) && ValidGraph(g) && Typed(tt, g) && root in g
    ensures forall i, j :: 0 <= i < j < |DependentTypes(tt, g, root)| && DependentTypes(tt, g, root)[i] in tt ==>
              !IsProperAncestor(tt, DependentTypes(tt, g, root)[j], DependentTypes(tt, g, root)[i])
  {
    var r := DependentTypes(tt, g, root);
    DependentTypesSorted(tt, g, root);
    forall i, j | 0 <= i < j < |r| && r[i] in tt ensures !IsProperAncestor(tt, r[j], r[i]) {
      assert Depth(tt)(r[i]) <= Depth(tt)(r[j]);
      if IsProperAncestor(tt, r[j], r[i]) {
        AncestorShallower(tt, r[j], r[i]);
      }
    }
  }
}
