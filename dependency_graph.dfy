/** The dependency sort. A node table keyed by `namespace.name` is filled from the
    surviving types, with stub nodes for referenced names that no type declares; then a
    Kahn-style loop repeatedly emits every node that has no parent left. The node objects
    of the implementation are an arena here: a map from key to node, with parents and
    children recorded as sets of keys (the table holds exactly one node per key). */
module DependencyGraph {
  import opened Schema

  /** A graph node: the type it stands for (None for a stub), the keys of its parents
      (the names it depends on) and of its children (the types depending on it). */
  datatype Node = Node(avroType: Option<NamedType>, parents: set<string>, children: set<string>)

  type Table = map<string, Node>

  /** Some type keyed `k` lists `d` among its dependencies. */
  ghost predicate DependsOn(types: seq<NamedType>, k: string, d: string)
  {
    exists t :: t in types && Key(t) == k && d in t.dependencies
  }

  /** Some type is keyed `k`. */
  ghost predicate Declared(types: seq<NamedType>, k: string)
  {
    exists t :: t in types && Key(t) == k
  }

  /** The keys of the node table: every type's key and every dependency name. */
  function NodeKeys(types: seq<NamedType>): set<string>
  {
    (set t | t in types :: Key(t)) + (set t, d | t in types && d in t.dependencies :: d)
  }

  /** The type attached to key `k`: the last type of `types` keyed `k`, or None when
      no type is (a stub). */
  function Attached(types: seq<NamedType>, k: string): (r: Option<NamedType>)
    ensures r.None? <==> !Declared(types, k)
    ensures r.Some? ==> r.value in types && Key(r.value) == k
  {
    if |types| == 0 then None
    else if Key(types[|types| - 1]) == k then Some(types[|types| - 1])
    else
      var r := Attached(types[..|types| - 1], k);
      assert forall t :: t in types[..|types| - 1] ==> t in types;
      assert forall t :: t in types ==> t in types[..|types| - 1] || t == types[|types| - 1];
      r
  }

  /** `nodes` is the node table of `types`: one node per type key and per dependency
      name, each holding the last type declared under its key, with the dependency edges
      recorded on both ends. */
  ghost predicate Describes(nodes: Table, types: seq<NamedType>)
  {
    && nodes.Keys == NodeKeys(types)
    && (forall k :: k in nodes ==> nodes[k].avroType == Attached(types, k))
    && (forall k, d {:trigger d in nodes[k].parents} :: k in nodes ==> (d in nodes[k].parents <==> DependsOn(types, k, d)))
    && (forall k, c {:trigger c in nodes[k].children} :: k in nodes ==> (c in nodes[k].children <==> DependsOn(types, c, k)))
  }

  /** Fills the node table (the first loop of the sort). */
  method BuildNodeTable(types: seq<NamedType>) returns (nodes: Table)
    ensures Describes(nodes, types)
  {
    nodes := map[];
    var i := 0;
    while i < |types|
      invariant 0 <= i <= |types|
      invariant Describes(nodes, types[..i])
    {
      var t := types[i];
      assert types[..i + 1] == types[..i] + [t];
      var withType := AttachType(nodes, t);
      var linked := AddDependencies(withType, Key(t), t.dependencies);
      TableStep(nodes, withType, linked, types[..i], t);
      nodes := linked;
      i := i + 1;
    }
    assert types[..i] == types;
  }

  /** One pass of the first loop keeps the table describing the types met so far. */
  lemma TableStep(before: Table, withType: Table, after: Table, pre: seq<NamedType>, t: NamedType)
    requires Describes(before, pre)
    requires withType.Keys == before.Keys + {Key(t)}
    requires withType[Key(t)].avroType == Some(t)
    requires forall k :: k in withType && k != Key(t) ==> withType[k] == before[k]
    requires Key(t) in before ==> withType[Key(t)].parents == before[Key(t)].parents && withType[Key(t)].children == before[Key(t)].children
    requires Key(t) !in before ==> withType[Key(t)].parents == {} && withType[Key(t)].children == {}
    requires after.Keys == withType.Keys + set d | d in t.dependencies
    requires forall k :: k in after ==> after[k].avroType == if k in withType then withType[k].avroType else None
    requires forall k, d {:trigger d in after[k].parents} :: k in after ==>
      (d in after[k].parents <==> (k in withType && d in withType[k].parents) || (k == Key(t) && d in t.dependencies))
    requires forall k, c {:trigger c in after[k].children} :: k in after ==>
      (c in after[k].children <==> (k in withType && c in withType[k].children) || (c == Key(t) && k in t.dependencies))
    ensures Describes(after, pre + [t])
  {
    NodeKeysSnoc(pre, t);
    assert after.Keys == NodeKeys(pre + [t]);
    TableStepTypes(before, withType, after, pre, t);
    TableStepParents(before, withType, after, pre, t);
    TableStepChildren(before, withType, after, pre, t);
  }

  lemma TableStepTypes(before: Table, withType: Table, after: Table, pre: seq<NamedType>, t: NamedType)
    requires before.Keys == NodeKeys(pre)
    requires forall k :: k in before ==> before[k].avroType == Attached(pre, k)
    requires withType.Keys == before.Keys + {Key(t)}
    requires withType[Key(t)].avroType == Some(t)
    requires forall k :: k in withType && k != Key(t) ==> withType[k] == before[k]
    requires forall k :: k in after ==> after[k].avroType == if k in withType then withType[k].avroType else None
    ensures forall k :: k in after ==> after[k].avroType == Attached(pre + [t], k)
  {
    forall k | k in after ensures after[k].avroType == Attached(pre + [t], k) {
      AttachedSnoc(pre, t, k);
      if k !in withType {
        assert k !in NodeKeys(pre) && k != Key(t);
        assert !Declared(pre, k);
      }
    }
  }

  lemma TableStepParents(before: Table, withType: Table, after: Table, pre: seq<NamedType>, t: NamedType)
    requires forall k, d {:trigger d in before[k].parents} :: k in before ==> (d in before[k].parents <==> DependsOn(pre, k, d))
    requires before.Keys == NodeKeys(pre)
    requires withType.Keys == before.Keys + {Key(t)}
    requires forall k :: k in withType && k != Key(t) ==> withType[k] == before[k]
    requires Key(t) in before ==> withType[Key(t)].parents == before[Key(t)].parents
    requires Key(t) !in before ==> withType[Key(t)].parents == {}
    requires forall k, d {:trigger d in after[k].parents} :: k in after ==>
      (d in after[k].parents <==> (k in withType && d in withType[k].parents) || (k == Key(t) && d in t.dependencies))
    ensures forall k, d {:trigger d in after[k].parents} :: k in after ==> (d in after[k].parents <==> DependsOn(pre + [t], k, d))
  {
    DependsOnSnoc(pre, t);
    forall k, d | k in after ensures d in after[k].parents <==> DependsOn(pre + [t], k, d) {
      if k in before {
        assert d in before[k].parents <==> DependsOn(pre, k, d);
      }
    }
  }

  lemma TableStepChildren(before: Table, withType: Table, after: Table, pre: seq<NamedType>, t: NamedType)
    requires forall k, c {:trigger c in before[k].children} :: k in before ==> (c in before[k].children <==> DependsOn(pre, c, k))
    requires before.Keys == NodeKeys(pre)
    requires withType.Keys == before.Keys + {Key(t)}
    requires forall k :: k in withType && k != Key(t) ==> withType[k] == before[k]
    requires Key(t) in before ==> withType[Key(t)].children == before[Key(t)].children
    requires Key(t) !in before ==> withType[Key(t)].children == {}
    requires forall k, c {:trigger c in after[k].children} :: k in after ==>
      (c in after[k].children <==> (k in withType && c in withType[k].children) || (c == Key(t) && k in t.dependencies))
    ensures forall k, c {:trigger c in after[k].children} :: k in after ==> (c in after[k].children <==> DependsOn(pre + [t], c, k))
  {
    DependsOnSnoc(pre, t);
    forall k, c | k in after ensures c in after[k].children <==> DependsOn(pre + [t], c, k) {
      if k in before {
        assert c in before[k].children <==> DependsOn(pre, c, k);
      }
    }
  }

  /** Fetches or creates the node keyed by the type's key and attaches the type to it;
      the node's edges are kept. */
  method AttachType(nodes: Table, t: NamedType) returns (r: Table)
    ensures r.Keys == nodes.Keys + {Key(t)}
    ensures r[Key(t)].avroType == Some(t)
    ensures forall k :: k in r && k != Key(t) ==> r[k] == nodes[k]
    ensures Key(t) in nodes ==> r[Key(t)].parents == nodes[Key(t)].parents && r[Key(t)].children == nodes[Key(t)].children
    ensures Key(t) !in nodes ==> r[Key(t)].parents == {} && r[Key(t)].children == {}
  {
    var key := Key(t);
    if key !in nodes {
      r := nodes[key := Node(Some(t), {}, {})];
    } else {
      // the key was stubbed (or declared) before: the type is attached to that node
      r := nodes[key := nodes[key].(avroType := Some(t))];
    }
  }

  /** Records, for each dependency name, that it is a parent of `key` and `key` one of
      its children, creating a stub node for a name not in the table yet. */
  method AddDependencies(nodes: Table, key: string, deps: seq<string>) returns (r: Table)
    requires key in nodes
    ensures r.Keys == nodes.Keys + set d | d in deps
    ensures forall k :: k in r ==> r[k].avroType == if k in nodes then nodes[k].avroType else None
    ensures forall k, d {:trigger d in r[k].parents} :: k in r ==>
      (d in r[k].parents <==> (k in nodes && d in nodes[k].parents) || (k == key && d in deps))
    ensures forall k, c {:trigger c in r[k].children} :: k in r ==>
      (c in r[k].children <==> (k in nodes && c in nodes[k].children) || (c == key && k in deps))
  {
    r := nodes;
    var j := 0;
    while j < |deps|
      invariant 0 <= j <= |deps|
      invariant r.Keys == nodes.Keys + set d | d in deps[..j]
      invariant forall k :: k in r ==> r[k].avroType == if k in nodes then nodes[k].avroType else None
      invariant forall k, d {:trigger d in r[k].parents} :: k in r ==>
        (d in r[k].parents <==> (k in nodes && d in nodes[k].parents) || (k == key && d in deps[..j]))
      invariant forall k, c {:trigger c in r[k].children} :: k in r ==>
        (c in r[k].children <==> (k in nodes && c in nodes[k].children) || (c == key && k in deps[..j]))
    {
      var dep := deps[j];
      assert deps[..j + 1] == deps[..j] + [dep];
      assert forall d :: d in deps[..j + 1] <==> d in deps[..j] || d == dep;
      r := Link(r, key, dep);
      j := j + 1;
    }
    assert deps[..j] == deps;
  }

  /** One dependency edge: `dep` (stubbed when absent) becomes a parent of `key`, and
      `key` a child of `dep`. */
  function Link(nodes: Table, key: string, dep: string): (r: Table)
    requires key in nodes
    ensures r.Keys == nodes.Keys + {dep}
    ensures forall k :: k in r ==> r[k].avroType == if k in nodes then nodes[k].avroType else None
    ensures forall k, d :: k in r ==>
      (d in r[k].parents <==> (k in nodes && d in nodes[k].parents) || (k == key && d == dep))
    ensures forall k, c {:trigger c in r[k].children} :: k in r ==>
      (c in r[k].children <==> (k in nodes && c in nodes[k].children) || (c == key && k == dep))
  {
    var withStub := if dep in nodes then nodes else nodes[dep := Node(None, {}, {})];
    var withParent := withStub[key := withStub[key].(parents := withStub[key].parents + {dep})];
    withParent[dep := withParent[dep].(children := withParent[dep].children + {key})]
  }

  lemma DependsOnSnoc(pre: seq<NamedType>, t: NamedType)
    ensures forall k, d :: DependsOn(pre + [t], k, d) <==> DependsOn(pre, k, d) || (k == Key(t) && d in t.dependencies)
  {
    forall k, d ensures DependsOn(pre + [t], k, d) <==> DependsOn(pre, k, d) || (k == Key(t) && d in t.dependencies) {
      if DependsOn(pre + [t], k, d) {
        var u :| u in pre + [t] && Key(u) == k && d in u.dependencies;
        assert u in pre || u == t;
      }
      if DependsOn(pre, k, d) {
        var u :| u in pre && Key(u) == k && d in u.dependencies;
        assert u in pre + [t];
      }
      if k == Key(t) && d in t.dependencies {
        assert t in pre + [t];
      }
    }
  }

  lemma AttachedSnoc(pre: seq<NamedType>, t: NamedType, k: string)
    ensures Attached(pre + [t], k) == if Key(t) == k then Some(t) else Attached(pre, k)
  {
    assert (pre + [t])[..|pre|] == pre;
  }

  lemma NodeKeysSnoc(pre: seq<NamedType>, t: NamedType)
    ensures NodeKeys(pre + [t]) == NodeKeys(pre) + {Key(t)} + set d | d in t.dependencies
  {
  }

  // ---------------------------------------------------------------------------
  // Acyclicity and progress

  /** Every parent and child key of a node is itself in the table, and the edges are
      recorded on both ends. */
  ghost predicate WellLinked(nodes: Table)
  {
    && (forall k, p {:trigger p in nodes[k].parents} :: k in nodes && p in nodes[k].parents ==> p in nodes && k in nodes[p].children)
    && (forall k, c {:trigger c in nodes[k].children} :: k in nodes && c in nodes[k].children ==> c in nodes && k in nodes[c].parents)
  }

  /** `w` steps from each node of the table to one of its parents. */
  ghost predicate IsParentWalk(nodes: Table, w: seq<string>)
  {
    && |w| >= 1
    && (forall i :: 0 <= i < |w| ==> w[i] in nodes)
    && (forall i :: 0 <= i < |w| - 1 ==> w[i + 1] in nodes[w[i]].parents)
  }

  /** No walk along parent edges comes back to where it started. */
  ghost predicate Acyclic(nodes: Table)
  {
    forall w :: IsParentWalk(nodes, w) && |w| >= 2 ==> w[0] != w[|w| - 1]
  }

  /** `w` steps from each key to one of its dependencies. */
  ghost predicate IsDependencyWalk(types: seq<NamedType>, w: seq<string>)
  {
    && |w| >= 1
    && (forall i :: 0 <= i < |w| - 1 ==> DependsOn(types, w[i], w[i + 1]))
  }

  /** No chain of dependencies leads from a name back to itself (a type depending on
      itself included). */
  ghost predicate NoDependencyCycle(types: seq<NamedType>)
  {
    forall w :: IsDependencyWalk(types, w) && |w| >= 2 ==> w[0] != w[|w| - 1]
  }

  /** A sequence longer than the set its elements come from repeats an element. */
  lemma {:induction false} Pigeonhole(w: seq<string>, s: set<string>) returns (i: nat, j: nat)
    requires forall k :: 0 <= k < |w| ==> w[k] in s
    requires |w| > |s|
    ensures i < j < |w| && w[i] == w[j]
  {
    if w[0] in w[1..] {
      var k :| 0 <= k < |w[1..]| && w[1..][k] == w[0];
      i, j := 0, k + 1;
    } else {
      var rest := s - {w[0]};
      forall k | 0 <= k < |w[1..]| ensures w[1..][k] in rest {
        assert w[1..][k] in w[1..];
      }
      var i', j' := Pigeonhole(w[1..], rest);
      i, j := i' + 1, j' + 1;
    }
  }

  /** A table in which every node of a non-empty set has a parent inside that set
      holds a cycle. */
  lemma FindCycle(nodes: Table, live: set<string>) returns (cycle: seq<string>)
    requires live != {} && live <= nodes.Keys
    requires forall k :: k in live ==> nodes[k].parents * live != {}
    ensures IsParentWalk(nodes, cycle) && |cycle| >= 2 && cycle[0] == cycle[|cycle| - 1]
  {
    var s :| s in live;
    var w := [s];
    while |w| <= |live|
      invariant 1 <= |w| <= |live| + 1
      invariant forall i :: 0 <= i < |w| ==> w[i] in live
      invariant forall i :: 0 <= i < |w| - 1 ==> w[i + 1] in nodes[w[i]].parents
      decreases |live| + 1 - |w|
    {
      var p :| p in nodes[w[|w| - 1]].parents * live;
      w := w + [p];
    }
    var i, j := Pigeonhole(w, live);
    cycle := w[i..j + 1];
  }

  /** Progress: in an acyclic table, any non-empty set of live nodes holds one none of
      whose parents is live, so each pass of the sort emits at least one node. */
  lemma ReadyNodeExists(nodes: Table, live: set<string>)
    requires Acyclic(nodes)
    requires live != {} && live <= nodes.Keys
    ensures exists k :: k in live && nodes[k].parents * live == {}
  {
    if forall k :: k in live ==> nodes[k].parents * live != {} {
      var cycle := FindCycle(nodes, live);
      assert false;
    }
  }

  // ---------------------------------------------------------------------------
  // The ordering loop

  /** For each child of node `k`, removes `k` from that child's parents. */
  method ReleaseChildren(nodes: Table, k: string) returns (r: Table)
    requires k in nodes
    requires forall c :: c in nodes[k].children ==> c in nodes
    ensures r.Keys == nodes.Keys
    ensures forall c :: c in r ==> r[c].avroType == nodes[c].avroType && r[c].children == nodes[c].children
    ensures forall c :: c in r ==> r[c].parents == if c in nodes[k].children then nodes[c].parents - {k} else nodes[c].parents
  {
    r := nodes;
    var pending := nodes[k].children;
    while pending != {}
      invariant pending <= nodes[k].children
      invariant r.Keys == nodes.Keys
      invariant forall c :: c in r ==> r[c].avroType == nodes[c].avroType && r[c].children == nodes[c].children
      invariant forall c :: c in r ==>
        r[c].parents == if c in nodes[k].children - pending then nodes[c].parents - {k} else nodes[c].parents
      decreases pending
    {
      var c :| c in pending;
      pending := pending - {c};
      r := r[c := r[c].(parents := r[c].parents - {k})];
    }
  }

  /** The table `nodes0` once the keys in `done` have been emitted: every node keeps its
      type and children, and only the parents not yet emitted are left to it. */
  ghost function Left(nodes0: Table, done: set<string>): (r: Table)
    ensures r.Keys == nodes0.Keys
  {
    map k | k in nodes0 :: nodes0[k].(parents := nodes0[k].parents - done)
  }

  lemma LeftOfNothing(nodes0: Table)
    ensures Left(nodes0, {}) == nodes0
  {
    forall k | k in nodes0 ensures Left(nodes0, {})[k] == nodes0[k] {
      assert nodes0[k].parents - {} == nodes0[k].parents;
    }
  }

  /** Releasing the children of a node with no parent left is emitting it. */
  lemma ReleaseEmits(nodes0: Table, done: set<string>, released: Table, k: string)
    requires WellLinked(nodes0)
    requires k in nodes0
    requires released.Keys == nodes0.Keys
    requires forall c :: c in released ==> released[c].avroType == nodes0[c].avroType && released[c].children == nodes0[c].children
    requires forall c :: c in released ==>
      released[c].parents == if c in nodes0[k].children then Left(nodes0, done)[c].parents - {k} else Left(nodes0, done)[c].parents
    ensures released == Left(nodes0, done + {k})
  {
    forall c | c in released ensures released[c] == Left(nodes0, done + {k})[c] {
      if c !in nodes0[k].children {
        assert k !in nodes0[c].parents;
      }
    }
  }

  /** `order` holds no key twice. */
  predicate Distinct(order: seq<string>)
  {
    forall i, j :: 0 <= i < j < |order| ==> order[i] != order[j]
  }

  /** The parents of each key of `order` come before it. */
  ghost predicate ParentsFirst(nodes0: Table, order: seq<string>)
    requires forall i :: 0 <= i < |order| ==> order[i] in nodes0
  {
    forall i, j :: 0 <= i < |order| && 0 <= j < |order| && order[j] in nodes0[order[i]].parents ==> j < i
  }

  /** The ordering loop's state: `order` lists the emitted keys, the set `done`, each once
      and each after all its parents, and `sequence` their types. */
  ghost predicate Emitted(nodes0: Table, done: set<string>, order: seq<string>, sequence: seq<Option<NamedType>>)
  {
    && done <= nodes0.Keys
    && |order| == |sequence| == |done|
    && (forall i :: 0 <= i < |order| ==> order[i] in done)
    && Distinct(order)
    && (forall i :: 0 <= i < |order| ==> sequence[i] == nodes0[order[i]].avroType)
    && (forall i :: 0 <= i < |order| ==> nodes0[order[i]].parents <= done)
    && ParentsFirst(nodes0, order)
  }

  /** Emitting a key none of whose parents is left extends the emitted state. */
  lemma EmitStep(nodes0: Table, done: set<string>, order: seq<string>, sequence: seq<Option<NamedType>>, k: string)
    requires Emitted(nodes0, done, order, sequence)
    requires k in nodes0 && k !in done && nodes0[k].parents <= done
    ensures Emitted(nodes0, done + {k}, order + [k], sequence + [nodes0[k].avroType])
  {
  }

  /** The Kahn-style loop (the second half of the sort): while nodes remain, every node
      met in a pass that has no parent left is emitted (its type, None for a stub), its
      children lose it as a parent, and it is removed once the pass ends. `order` is the
      sequence of emitted keys. */
  method OrderNodes(nodes0: Table) returns (sequence: seq<Option<NamedType>>, ghost order: seq<string>)
    requires WellLinked(nodes0)
    requires Acyclic(nodes0)
    ensures |sequence| == |order| == |nodes0|
    ensures Distinct(order) && forall k :: k in nodes0 <==> k in order
    ensures forall i :: 0 <= i < |order| ==> sequence[i] == nodes0[order[i]].avroType
    ensures ParentsFirst(nodes0, order)
  {
    var nodes := nodes0;
    var allNodes := nodes0.Keys;
    sequence := [];
    order := [];
    ghost var done: set<string> := {};
    LeftOfNothing(nodes0);
    while allNodes != {}
      invariant nodes == Left(nodes0, done)
      invariant Emitted(nodes0, done, order, sequence)
      invariant allNodes == nodes0.Keys - done
      decreases |nodes0.Keys - done|
    {
      ReadyNodeExists(nodes0, allNodes);
      var removals;
      ghost var doneBefore := done;
      nodes, removals, sequence, order, done := Pass(nodes0, nodes, allNodes, sequence, order, done);
      Shrinks(nodes0.Keys - doneBefore, removals);
      Remaining(nodes0.Keys, doneBefore, removals);
      allNodes := allNodes - removals;
    }
    Remaining(nodes0.Keys, done, {});
    CoversAll(order, done);
  }

  /** One pass of the ordering loop: each node still in `allNodes`, met in any order,
      is emitted if it has no parent left at the time it is met. At least one node is. */
  method Pass(ghost nodes0: Table, nodes: Table, allNodes: set<string>, sequence: seq<Option<NamedType>>,
              ghost order: seq<string>, ghost done: set<string>)
    returns (nodes': Table, removals: set<string>, sequence': seq<Option<NamedType>>,
             ghost order': seq<string>, ghost done': set<string>)
    requires WellLinked(nodes0)
    requires nodes == Left(nodes0, done) && Emitted(nodes0, done, order, sequence)
    requires allNodes == nodes0.Keys - done
    requires exists k :: k in allNodes && nodes0[k].parents * allNodes == {}
    ensures nodes' == Left(nodes0, done') && Emitted(nodes0, done', order', sequence')
    ensures removals <= allNodes && removals != {} && done' == done + removals
    ensures forall k :: k in allNodes && nodes0[k].parents <= done ==> k in removals
  {
    ghost var ready :| ready in allNodes && nodes0[ready].parents * allNodes == {};
    nodes', sequence', order' := nodes, sequence, order;
    removals := {};
    UnionStep(done, {}, "");
    var toVisit := allNodes;
    while toVisit != {}
      invariant toVisit <= allNodes && removals <= allNodes && toVisit !! removals
      invariant nodes' == Left(nodes0, done + removals)
      invariant Emitted(nodes0, done + removals, order', sequence')
      invariant ready in toVisit || ready in removals
      invariant forall k :: k in allNodes - toVisit && nodes0[k].parents <= done ==> k in removals
      decreases toVisit
    {
      var k :| k in toVisit;
      toVisit := toVisit - {k};
      if nodes'[k].parents == {} {
        nodes', sequence', order' := EmitNode(nodes0, nodes', sequence', order', done + removals, k);
        UnionStep(done, removals, k);
        removals := removals + {k};
      }
    }
    done' := done + removals;
  }

  /** Emits node `k`, which has no parent left: its type is appended to the sequence and
      each of its children loses it as a parent. */
  method EmitNode(ghost nodes0: Table, nodes: Table, sequence: seq<Option<NamedType>>, ghost order: seq<string>,
                  ghost done: set<string>, k: string)
    returns (nodes': Table, sequence': seq<Option<NamedType>>, ghost order': seq<string>)
    requires WellLinked(nodes0)
    requires nodes == Left(nodes0, done) && Emitted(nodes0, done, order, sequence)
    requires k in nodes0 && k !in done && nodes[k].parents == {}
    ensures nodes' == Left(nodes0, done + {k}) && Emitted(nodes0, done + {k}, order', sequence')
    ensures sequence' == sequence + [nodes0[k].avroType]
  {
    var released := ReleaseChildren(nodes, k);
    ReleaseEmits(nodes0, done, released, k);
    assert nodes0[k].parents <= done by {
      assert nodes0[k].parents - done == {};
    }
    EmitStep(nodes0, done, order, sequence, k);
    sequence' := sequence + [nodes[k].avroType];
    nodes' := released;
    order' := order + [k];
  }

  lemma UnionStep(done: set<string>, removals: set<string>, k: string)
    ensures done + removals + {k} == done + (removals + {k})
    ensures done + {} == done
  {
  }

  /** Set bookkeeping of the ordering loop. */
  lemma Remaining(keys: set<string>, done: set<string>, removals: set<string>)
    requires done <= keys
    ensures (keys - done) - removals == keys - (done + removals)
    ensures keys - done == {} ==> done == keys
  {
    if keys - done == {} {
      forall k | k in keys ensures k in done {
        assert k !in keys - done;
      }
    }
  }

  lemma Shrinks(live: set<string>, removed: set<string>)
    requires removed <= live && removed != {}
    ensures |live - removed| < |live|
  {
    assert live == (live - removed) + removed;
  }

  /** A duplicate-free sequence as long as the set its elements come from lists all of it. */
  lemma {:induction false} CoversAll(order: seq<string>, done: set<string>)
    requires Distinct(order) && |order| == |done|
    requires forall i :: 0 <= i < |order| ==> order[i] in done
    ensures forall k :: k in done <==> k in order
  {
    if |order| > 0 {
      var last := order[|order| - 1];
      var init := order[..|order| - 1];
      forall i | 0 <= i < |init| ensures init[i] in done - {last} {
        assert init[i] == order[i];
      }
      CoversAll(init, done - {last});
      assert forall k :: k in order <==> k in init || k == last;
    }
  }

  /** A table built from a type list records every edge on both ends and names no key
      it does not hold. */
  lemma DescribedWellLinked(nodes: Table, types: seq<NamedType>)
    requires Describes(nodes, types)
    ensures WellLinked(nodes)
  {
    forall k, p | k in nodes && p in nodes[k].parents ensures p in nodes && k in nodes[p].children {
      var t :| t in types && Key(t) == k && p in t.dependencies;
      assert p in NodeKeys(types);
    }
    forall k, c | k in nodes && c in nodes[k].children ensures c in nodes && k in nodes[c].parents {
      var t :| t in types && Key(t) == c && k in t.dependencies;
      assert c in NodeKeys(types);
    }
  }

  /** Parent edges of the table are dependencies, so a cycle of the table would be a
      dependency cycle. */
  lemma DescribedAcyclic(nodes: Table, types: seq<NamedType>)
    requires Describes(nodes, types) && NoDependencyCycle(types)
    ensures Acyclic(nodes)
  {
    forall w | IsParentWalk(nodes, w) && |w| >= 2 ensures w[0] != w[|w| - 1] {
      forall i | 0 <= i < |w| - 1 ensures DependsOn(types, w[i], w[i + 1]) {
        assert w[i + 1] in nodes[w[i]].parents;
      }
      assert IsDependencyWalk(types, w);
    }
  }

  /** The dependency sort as a whole. For a type list without dependency cycles (on a
      cycle the ordering loop never ends), the result holds one entry per key of the
      table, in the order `order` of those keys: the type declared under the key, or None
      for a name no type declares. Every key comes after all the names it depends on. */
  method TopologicalSort(types: seq<NamedType>) returns (sequence: seq<Option<NamedType>>, ghost order: seq<string>)
    requires NoDependencyCycle(types)
    ensures |sequence| == |order| == |NodeKeys(types)|
    ensures Distinct(order) && forall k :: k in NodeKeys(types) <==> k in order
    ensures forall i :: 0 <= i < |order| ==> sequence[i] == Attached(types, order[i])
    ensures forall i, j :: 0 <= i < |order| && 0 <= j < |order| && DependsOn(types, order[i], order[j]) ==> j < i
  {
    var nodes := BuildNodeTable(types);
    DescribedWellLinked(nodes, types);
    DescribedAcyclic(nodes, types);
    sequence, order := OrderNodes(nodes);
    SortedTable(nodes, types, sequence, order);
  }

  /** An emission order of the whole table of `types`, restated over `types`. */
  lemma SortedTable(nodes: Table, types: seq<NamedType>, sequence: seq<Option<NamedType>>, order: seq<string>)
    requires Describes(nodes, types)
    requires |sequence| == |order| == |nodes|
    requires Distinct(order) && forall k :: k in nodes <==> k in order
    requires forall i :: 0 <= i < |order| ==> sequence[i] == nodes[order[i]].avroType
    requires ParentsFirst(nodes, order)
    ensures |sequence| == |order| == |NodeKeys(types)|
    ensures Distinct(order) && forall k :: k in NodeKeys(types) <==> k in order
    ensures forall i :: 0 <= i < |order| ==> sequence[i] == Attached(types, order[i])
    ensures forall i, j :: 0 <= i < |order| && 0 <= j < |order| && DependsOn(types, order[i], order[j]) ==> j < i
  {
    assert |nodes| == |nodes.Keys|;
    DependenciesFirst(nodes, types, order);
  }

  /** A parents-first order of the table of `types` puts every name after the names it
      depends on. */
  lemma DependenciesFirst(nodes: Table, types: seq<NamedType>, order: seq<string>)
    requires Describes(nodes, types)
    requires forall i :: 0 <= i < |order| ==> order[i] in nodes
    requires ParentsFirst(nodes, order)
    ensures forall i, j :: 0 <= i < |order| && 0 <= j < |order| && DependsOn(types, order[i], order[j]) ==> j < i
  {
    forall i, j | 0 <= i < |order| && 0 <= j < |order| && DependsOn(types, order[i], order[j]) ensures j < i {
      assert order[j] in nodes[order[i]].parents;
    }
  }

  /** No key on a cycle of parent edges is ever emitted: each would need its parent on
      the cycle emitted before it. So on such a table `allNodes` never empties and the
      ordering loop runs forever, which is why `OrderNodes` requires `Acyclic`. */
  lemma CycleNeverEmitted(nodes0: Table, done: set<string>, order: seq<string>, sequence: seq<Option<NamedType>>,
                          cycle: seq<string>)
    requires Emitted(nodes0, done, order, sequence)
    requires IsParentWalk(nodes0, cycle) && |cycle| >= 2 && cycle[0] == cycle[|cycle| - 1]
    ensures forall i :: 0 <= i < |cycle| ==> cycle[i] !in done
  {
    CoversAll(order, done);
    var p := 0;
    while p < |order|
      invariant 0 <= p <= |order|
      invariant forall j, i :: 0 <= j < p && 0 <= i < |cycle| ==> order[j] != cycle[i]
    {
      forall i | 0 <= i < |cycle| ensures order[p] != cycle[i] {
        if order[p] == cycle[i] {
          EarlierOnCycle(nodes0, done, order, sequence, cycle, p, i);
        }
      }
      p := p + 1;
    }
  }

  /** An emitted key on a cycle has its parent on the cycle emitted earlier. */
  lemma EarlierOnCycle(nodes0: Table, done: set<string>, order: seq<string>, sequence: seq<Option<NamedType>>,
                       cycle: seq<string>, p: nat, i: nat)
    requires Emitted(nodes0, done, order, sequence)
    requires IsParentWalk(nodes0, cycle) && |cycle| >= 2 && cycle[0] == cycle[|cycle| - 1]
    requires p < |order| && i < |cycle| && order[p] == cycle[i]
    ensures exists j, i' :: 0 <= j < p && 0 <= i' < |cycle| && order[j] == cycle[i']
  {
    CoversAll(order, done);
    var i0 := if i < |cycle| - 1 then i else 0;
    var q := cycle[i0 + 1];
    assert q in nodes0[order[p]].parents;
    var j :| 0 <= j < |order| && order[j] == q;
    assert order[j] == cycle[i0 + 1];
  }
}
