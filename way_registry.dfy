/** The way registry (`WayManager.java`), its lazily built name maps and the two build passes. */
module WayRegistry {
  import opened Wrappers
  import opened Nodes
  import opened Ways
  import Tags
  import Strings
  import opened GraphBuild

  class WayManager {
    /** Way id to way; a later way with the same id replaces the earlier one. */
    var idWayMap: map<string, Way>
    /** Every way created, in creation order. */
    var allWays: seq<Way>
    /** Lazily built: the distinct names of named ways. */
    var wayNames: Option<set<string>>
    /** Lazily built: way id to way name, for named ways. */
    var idNameMap: Option<map<string, string>>
    /** Lazily built: way name to the ways of that name. */
    var nameWayMap: Option<map<string, seq<Way>>>
    /** Node id to the ways containing it, filled by `ComputeSharedNodes`. */
    var nodeInWayMap: Index

    /** The index only ever lists ways that were created here. */
    ghost predicate Valid()
      reads this
    {
      forall id, w :: id in nodeInWayMap && w in nodeInWayMap[id] ==> w in allWays
    }

    constructor ()
      ensures Valid()
      ensures idWayMap == map[] && allWays == [] && nodeInWayMap == map[]
      ensures wayNames == None && idNameMap == None && nameWayMap == None
    {
      idWayMap := map[];
      allWays := [];
      wayNames := None;
      idNameMap := None;
      nameWayMap := None;
      nodeInWayMap := map[];
    }

    ghost function WaySet(): set<Way>
      reads this
    {
      set w | w in allWays
    }

    /** The nodes that some way's sequence holds. */
    ghost function NodeSet(): set<Node>
      reads this`allWays, allWays`nodeSeq
    {
      set k, n | 0 <= k < |allWays| && n in allWays[k].nodeSeq :: n
    }

    /** The node sequence of each way, in `allWays` order. */
    ghost function NodeSeqs(): (r: seq<seq<Node>>)
      reads this, allWays
      ensures |r| == |allWays| && forall k :: 0 <= k < |allWays| ==> r[k] == allWays[k].nodeSeq
    {
      seq(|allWays|, k requires 0 <= k < |allWays| reads this, allWays => allWays[k].nodeSeq)
    }

    /** The occurrences in the order the shared-node pass visits them. */
    ghost function Occurrences(): seq<Occurrence>
      reads this, allWays
    {
      Flatten(allWays, NodeSeqs())
    }

    ghost function WayElements(): set<Tags.Element>
      reads this
    {
      set w | w in allWays :: w.element
    }

    /** The ways whose `isDriveable()` currently answers true. */
    ghost function DrivableWays(): set<Way>
      reads this, allWays, WayElements()
    {
      set w | w in allWays && w.Drivable()
    }

    /** Creates a way, registers it under its id and appends it to `allWays`. */
    method NewWay(id: string) returns (w: Way)
      requires Valid()
      modifies this`idWayMap, this`allWays
      ensures Valid() && fresh(w) && fresh(w.element)
      ensures w.id == id && w.nodeSeq == [] && w.sharedNodes == [] && w.driveable
      ensures w.segments == 0 && w.distance == -1.0 && w.element.tagMap == map[]
      ensures idWayMap == old(idWayMap)[id := w] && allWays == old(allWays) + [w]
      ensures GetWay(id) == Some(w)
    {
      w := new Way(id);
      idWayMap := idWayMap[id := w];
      allWays := allWays + [w];
    }

    /** The way registered under `id`, `None` for an unknown id. */
    function GetWay(id: string): (r: Option<Way>)
      reads this
      ensures r.Some? <==> id in idWayMap
      ensures r.Some? ==> r.value == idWayMap[id]
    {
      if id in idWayMap then Some(idWayMap[id]) else None
    }

    function GetAllWays(): seq<Way>
      reads this
    {
      allWays
    }

    function GetAllWayIDs(): set<string>
      reads this
    {
      idWayMap.Keys
    }

    /** The lazily built name set as it stands (`None` until built). */
    function GetNameableWays(): Option<set<string>>
      reads this
    {
      wayNames
    }

    function GetNodeInWayMap(): Index
      reads this
    {
      nodeInWayMap
    }

    /** Id to name for the registered ways that have a `name` tag. */
    ghost function NamedIds(): (m: map<string, string>)
      reads this`idWayMap, set id | id in idWayMap :: idWayMap[id].element
      ensures forall id :: id in m <==> id in idWayMap && idWayMap[id].GetName().Some?
    {
      map id | id in idWayMap && idWayMap[id].GetName().Some? :: idWayMap[id].GetName().value
    }

    /** The names of the registered ways that have one. */
    ghost function WayNameSet(): set<string>
      reads this`idWayMap, set id | id in idWayMap :: idWayMap[id].element
    {
      set w | w in idWayMap.Values && w.GetName().Some? :: w.GetName().value
    }

    /** Builds `idNameMap` on first use; later calls leave it as it is. */
    method IdNameMapInitialized()
      modifies this`idNameMap
      ensures old(idNameMap).Some? ==> idNameMap == old(idNameMap)
      ensures old(idNameMap).None? ==> idNameMap == Some(old(NamedIds()))
    {
      if idNameMap.None? {
        var m: map<string, string> := map[];
        var todo := idWayMap.Keys;
        while todo != {}
          invariant todo <= idWayMap.Keys
          invariant forall id :: id in m <==> id in idWayMap && id !in todo && idWayMap[id].GetName().Some?
          invariant forall id :: id in m ==> m[id] == idWayMap[id].GetName().value
          decreases |todo|
        {
          var id :| id in todo;
          var w := GetWay(id).value;
          var name := w.GetName();
          if name.Some? {
            m := m[id := name.value];
          }
          todo := todo - {id};
        }
        assert m.Keys == NamedIds().Keys;
        assert forall id :: id in m ==> m[id] == NamedIds()[id];
        assert m == NamedIds();
        idNameMap := Some(m);
      }
    }

    /** Builds `wayNames` from the values of `idNameMap` on first use. */
    method WayNamesInitialized()
      modifies this`idNameMap, this`wayNames
      ensures old(wayNames).Some? ==> wayNames == old(wayNames) && idNameMap == old(idNameMap)
      ensures old(wayNames).None? ==> idNameMap.Some? && wayNames == Some(idNameMap.value.Values)
      ensures old(wayNames).None? && old(idNameMap).Some? ==> idNameMap == old(idNameMap)
      ensures old(wayNames).None? && old(idNameMap).None? ==> idNameMap == Some(old(NamedIds()))
    {
      if wayNames.None? {
        IdNameMapInitialized();
        var m := idNameMap.value;
        var names: set<string> := {};
        var todo := m.Keys;
        while todo != {}
          invariant todo <= m.Keys
          invariant idNameMap == Some(m)
          invariant names <= m.Values
          invariant forall id :: id in m && id !in todo ==> m[id] in names
          decreases |todo|
        {
          var id :| id in todo;
          names := names + {m[id]};
          todo := todo - {id};
        }
        forall x | x in m.Values ensures x in names {
          var id :| id in m && m[id] == x;
        }
        assert names == m.Values;
        wayNames := Some(names);
      }
    }

    /** The registered ways whose name is `ref`, each once. */
    method FindByName(ref: string) returns (waySum: seq<Way>)
      ensures forall w :: w in waySum <==> w in idWayMap.Values && w.GetName() == Some(ref)
      ensures forall k, l :: 0 <= k < l < |waySum| ==> waySum[k] != waySum[l]
    {
      waySum := [];
      var todo := idWayMap.Values;
      while todo != {}
        invariant todo <= idWayMap.Values
        invariant forall w :: w in waySum <==> w in idWayMap.Values && w !in todo && w.GetName() == Some(ref)
        invariant forall k, l :: 0 <= k < l < |waySum| ==> waySum[k] != waySum[l]
        decreases |todo|
      {
        var w :| w in todo;
        var name := w.GetName();
        if name == Some(ref) {
          waySum := waySum + [w];
        }
        todo := todo - {w};
      }
    }

    /**
     * `m` lists, under every name it has, only registered ways of that name, each
     * once, and lists every way of `done` that has a name under that name.
     */
    ghost predicate NameIndexOver(m: map<string, seq<Way>>, done: set<Way>)
      reads this`idWayMap, set id | id in idWayMap :: idWayMap[id].element
      reads set w | w in done :: w.element
    {
      && m.Keys <= WayNameSet()
      && (forall w | w in done && w.GetName().Some? :: w.GetName().value in m && w in m[w.GetName().value])
      && (forall name, k :: name in m && 0 <= k < |m[name]| ==>
            m[name][k] in idWayMap.Values && m[name][k].GetName() == Some(name))
      && (forall name, k, l :: name in m && 0 <= k < l < |m[name]| ==> m[name][k] != m[name][l])
    }

    /** Maps every name of a registered way to exactly the ways of that name, each once. */
    ghost predicate NameIndex(m: map<string, seq<Way>>)
      reads this`idWayMap, set id | id in idWayMap :: idWayMap[id].element
    {
      && m.Keys == WayNameSet()
      && NameIndexOver(m, idWayMap.Values)
    }

    /** Filing one more way under its name, with the ways `FindByName` returns for it. */
    lemma NameIndexStep(m: map<string, seq<Way>>, done: set<Way>, w: Way, ways: seq<Way>)
      requires done <= idWayMap.Values && w in idWayMap.Values && w.GetName().Some?
      requires NameIndexOver(m, done)
      requires forall x :: x in ways <==> x in idWayMap.Values && x.GetName() == w.GetName()
      requires forall k, l :: 0 <= k < l < |ways| ==> ways[k] != ways[l]
      ensures NameIndexOver(m[w.GetName().value := ways], done + {w})
    {
      var name := w.GetName().value;
      var m' := m[name := ways];
      assert name in WayNameSet();
      forall x | x in done + {w} && x.GetName().Some?
        ensures x.GetName().value in m' && x in m'[x.GetName().value]
      {
      }
    }

    /** Once every registered way is filed, the keys are exactly the way names. */
    lemma NameIndexComplete(m: map<string, seq<Way>>)
      requires NameIndexOver(m, idWayMap.Values)
      ensures NameIndex(m)
    {
      forall x | x in WayNameSet() ensures x in m {
        var w :| w in idWayMap.Values && w.GetName().Some? && w.GetName().value == x;
      }
    }

    /** Builds `nameWayMap` on first use; later calls do not rebuild it. */
    method NameWayMapInitialized()
      modifies this`nameWayMap, this`idNameMap
      ensures old(nameWayMap).Some? ==> nameWayMap == old(nameWayMap)
      ensures old(nameWayMap).None? ==> nameWayMap.Some? && NameIndex(nameWayMap.value)
      ensures old(idNameMap).Some? ==> idNameMap == old(idNameMap)
      ensures old(nameWayMap).None? && old(idNameMap).None? ==> idNameMap == Some(old(NamedIds()))
      ensures old(nameWayMap).Some? ==> idNameMap == old(idNameMap)
    {
      if nameWayMap.None? {
        var m: map<string, seq<Way>> := map[];
        IdNameMapInitialized();
        ghost var ids := idNameMap;
        var todo := idWayMap.Values;
        while todo != {}
          invariant todo <= idWayMap.Values
          invariant idNameMap == ids
          invariant NameIndexOver(m, idWayMap.Values - todo)
          decreases |todo|
        {
          var w :| w in todo;
          var name := w.GetName();
          if name.Some? {
            var sameNameWays := FindByName(name.value);
            NameIndexStep(m, idWayMap.Values - todo, w, sameNameWays);
            m := m[name.value := sameNameWays];
          }
          todo := todo - {w};
        }
        NameIndexComplete(m);
        assert idNameMap == ids;
        nameWayMap := Some(m);
      }
    }

    /**
     * The ways named `name` (`None` when no way has that name). The name index is
     * built by the first call and reused, unchanged, by every later one.
     */
    method GetByName(name: string) returns (r: Option<seq<Way>>)
      modifies this`nameWayMap, this`idNameMap
      ensures nameWayMap.Some?
      ensures r == if name in nameWayMap.value then Some(nameWayMap.value[name]) else None
      ensures old(nameWayMap).Some? ==> nameWayMap == old(nameWayMap) && idNameMap == old(idNameMap)
      ensures old(nameWayMap).None? ==> (r.Some? <==> name in WayNameSet())
      ensures old(nameWayMap).None? && r.Some? ==>
                forall w :: w in r.value <==> w in idWayMap.Values && w.GetName() == Some(name)
    {
      NameWayMapInitialized();
      var m := nameWayMap.value;
      r := if name in m then Some(m[name]) else None;
    }

    /** `getWayNames`: builds `idNameMap` if needed and returns its keys, the ids of named ways. */
    method GetWayNames() returns (ids: set<string>)
      modifies this`idNameMap
      ensures idNameMap.Some? && ids == idNameMap.value.Keys
      ensures old(idNameMap).Some? ==> idNameMap == old(idNameMap)
      ensures old(idNameMap).None? ==> forall id :: id in ids <==> id in idWayMap && idWayMap[id].GetName().Some?
    {
      IdNameMapInitialized();
      ids := idNameMap.value.Keys;
    }

    /** The names of the named ways of `NamedIds` are those of `WayNameSet`. */
    lemma NamedIdsValues()
      ensures NamedIds().Values == WayNameSet()
    {
      var m := NamedIds();
      forall x | x in m.Values ensures x in WayNameSet() {
        var id :| id in m && m[id] == x;
        assert idWayMap[id] in idWayMap.Values;
      }
      forall x | x in WayNameSet() ensures x in m.Values {
        var w :| w in idWayMap.Values && w.GetName().Some? && w.GetName().value == x;
        var id :| id in idWayMap && idWayMap[id] == w;
        assert m[id] == x;
      }
    }

    /**
     * The distinct way names in ascending order, no name twice. Built from the
     * lazily cached name set; when nothing was cached before, that is the names
     * of the registered ways.
     */
    method GetAlphabeticalOrderedNames() returns (names: seq<string>)
      modifies this`idNameMap, this`wayNames
      ensures wayNames.Some? && Strings.StrictlySorted(names)
      ensures forall x :: x in names <==> x in wayNames.value
      ensures |names| == |wayNames.value|
      ensures old(wayNames).Some? ==> wayNames == old(wayNames)
      ensures old(wayNames).None? && old(idNameMap).None? ==> wayNames == Some(WayNameSet())
    {
      IdNameMapInitialized();
      WayNamesInitialized();
      if old(wayNames).None? && old(idNameMap).None? {
        NamedIdsValues();
      }
      names := Strings.SortNames(wayNames.value);
    }

    /**
     * The loop at the end of a repeat sighting: every drivable way of `wayList`
     * gets `nID` appended once per entry it has in the list. Asking
     * `isDriveable()` may clear a way's flag but never changes its answer.
     */
    method AddToDrivable(wayList: seq<Way>, nID: string)
      modifies (set w | w in wayList)`driveable, (set w | w in wayList)`sharedNodes
      ensures forall w :: w in wayList ==> w.Drivable() == old(w.Drivable())
      ensures forall w :: w in wayList ==>
                w.sharedNodes == old(w.sharedNodes) + (if old(w.Drivable()) then Repeat(nID, multiset(wayList)[w]) else [])
    {
      ghost var seen: seq<Way> := [];
      var t := 0;
      while t < |wayList|
        invariant 0 <= t <= |wayList| && seen == wayList[..t]
        invariant forall w :: w in wayList ==> w.Drivable() == old(w.Drivable())
        invariant forall w :: w in wayList ==>
                    w.sharedNodes == old(w.sharedNodes) + (if old(w.Drivable()) then Repeat(nID, multiset(seen)[w]) else [])
      {
        var w := wayList[t];
        var d := w.IsDriveable();
        if d {
          w.AddSharedNode(nID);
          var count := multiset(seen)[w];
          assert Repeat(nID, count + 1) == Repeat(nID, count) + [nID];
          SeqAssoc(old(w.sharedNodes), Repeat(nID, count), [nID]);
        }
        seen := seen + [w];
        t := t + 1;
      }
      assert seen == wayList;
    }

    /**
     * One visit of the shared-node pass: `node` seen in `way`. A first sighting
     * starts the node's list with `way`; a repeat marks the node shared, extends
     * its list and gives every drivable way of the list the node's id.
     */
    method Sighting(way: Way, node: Node, ghost drivable: set<Way>)
      requires Valid() && way in allWays
      requires forall w :: w in allWays ==> (w.Drivable() <==> w in drivable)
      modifies this`nodeInWayMap, node`isShared, WaySet()`driveable, WaySet()`sharedNodes
      ensures Valid()
      ensures nodeInWayMap == Record(old(nodeInWayMap), Occurrence(way, node))
      ensures node.isShared == (old(node.isShared) || node.id in old(nodeInWayMap))
      ensures forall w :: w in allWays ==> (w.Drivable() <==> w in drivable)
      ensures forall w :: w in allWays ==>
                w.sharedNodes == old(w.sharedNodes) + SightingAdds(old(nodeInWayMap), drivable, Occurrence(way, node), w)
    {
      var nID := node.id;
      if nID !in nodeInWayMap {
        var wayList := [way];
        assert wayList == WaysOf(nodeInWayMap, nID) + [way];
        nodeInWayMap := nodeInWayMap[nID := wayList];
      } else {
        node.SetShared(true);
        var wayList := nodeInWayMap[nID] + [way];
        nodeInWayMap := nodeInWayMap[nID := wayList];
        AddToDrivable(wayList, nID);
      }
    }

    /**
     * The state of the shared-node pass after visiting `occ`, starting from the
     * index `m0`, the shared flags `shared0` and the shared-node lists `lists0`.
     * Along the pass the ways keep their node sequences `seqs`, whose nodes all
     * lie in `nodes`, and their drivable answers `drivable`.
     */
    ghost predicate PassState(m0: Index, drivable: set<Way>, nodes: set<Node>, shared0: map<Node, bool>,
                              lists0: map<Way, seq<string>>, seqs: seq<seq<Node>>, occ: seq<Occurrence>)
      reads this, nodes, allWays, WayElements()
    {
      && Valid()
      && |seqs| == |allWays|
      && (forall k {:trigger allWays[k].nodeSeq} :: 0 <= k < |allWays| ==> allWays[k].nodeSeq == seqs[k])
      && (forall k, n :: 0 <= k < |seqs| && n in seqs[k] ==> n in nodes)
      && (forall w {:trigger w.Drivable()} :: w in allWays ==> (w.Drivable() <==> w in drivable))
      && nodeInWayMap == IndexAfter(m0, occ)
      && nodes <= shared0.Keys
      && (forall n {:trigger n.isShared} :: n in nodes ==> n.isShared == (shared0[n] || FlaggedBy(m0, occ, n)))
      && (forall w {:trigger w.sharedNodes} :: w in allWays ==> w in lists0 && w.sharedNodes == lists0[w] + SharedAdded(m0, drivable, occ, w))
    }

    /** One visit of the pass, as `Sighting` does it, carried over to the pass state. */
    method Visit(way: Way, node: Node, ghost drivable: set<Way>, ghost nodes: set<Node>, ghost m0: Index,
                 ghost shared0: map<Node, bool>, ghost lists0: map<Way, seq<string>>, ghost seqs: seq<seq<Node>>,
                 ghost occ: seq<Occurrence>)
      requires way in allWays && node in nodes
      requires PassState(m0, drivable, nodes, shared0, lists0, seqs, occ)
      modifies this`nodeInWayMap, WaySet()`driveable, WaySet()`sharedNodes, nodes`isShared
      ensures PassState(m0, drivable, nodes, shared0, lists0, seqs, occ + [Occurrence(way, node)])
    {
      ghost var o := Occurrence(way, node);
      assert (occ + [o])[..|occ|] == occ;
      label visit:
      Sighting(way, node, drivable);
      forall n | n in nodes
        ensures n.isShared == (shared0[n] || FlaggedBy(m0, occ + [o], n))
      {
        assert old@visit(n.isShared) == (shared0[n] || FlaggedBy(m0, occ, n));
      }
      forall w | w in allWays
        ensures w.sharedNodes == lists0[w] + SharedAdded(m0, drivable, occ + [o], w)
      {
        SeqAssoc(lists0[w], SharedAdded(m0, drivable, occ, w), SightingAdds(old@visit(nodeInWayMap), drivable, o, w));
      }
    }

    /**
     * The inner loop of `computeSharedNodes` over one way: visits the way's nodes
     * in order, as `Sighting` says, carrying the pass state along.
     */
    method ScanWay(i: nat, ghost drivable: set<Way>, ghost nodes: set<Node>, ghost m0: Index,
                   ghost shared0: map<Node, bool>, ghost lists0: map<Way, seq<string>>, ghost seqs: seq<seq<Node>>)
      requires i < |allWays| == |seqs|
      requires PassState(m0, drivable, nodes, shared0, lists0, seqs, FlattenUpTo(allWays, seqs, i))
      modifies this`nodeInWayMap, WaySet()`driveable, WaySet()`sharedNodes, nodes`isShared
      ensures PassState(m0, drivable, nodes, shared0, lists0, seqs, FlattenUpTo(allWays, seqs, i + 1))
    {
      var way := allWays[i];
      var containedNodes := way.nodeSeq;
      assert containedNodes == seqs[i];
      ghost var before := FlattenUpTo(allWays, seqs, i);
      ghost var occ := before;
      var j := 0;
      while j < |containedNodes|
        invariant 0 <= j <= |containedNodes|
        invariant occ == before + Along(way, containedNodes[..j])
        invariant PassState(m0, drivable, nodes, shared0, lists0, seqs, occ)
      {
        var node := containedNodes[j];
        AlongStep(way, containedNodes, j);
        Visit(way, node, drivable, nodes, m0, shared0, lists0, seqs, occ);
        occ := occ + [Occurrence(way, node)];
        j := j + 1;
      }
      assert containedNodes[..j] == containedNodes;
      assert occ == FlattenUpTo(allWays, seqs, i + 1);
    }

    /** The outer loop of `computeSharedNodes`: scans every way in order. */
    method ScanAll(ghost drivable: set<Way>, ghost nodes: set<Node>, ghost m0: Index,
                   ghost shared0: map<Node, bool>, ghost lists0: map<Way, seq<string>>, ghost seqs: seq<seq<Node>>)
      requires |seqs| == |allWays|
      requires PassState(m0, drivable, nodes, shared0, lists0, seqs, [])
      modifies this`nodeInWayMap, WaySet()`driveable, WaySet()`sharedNodes, nodes`isShared
      ensures PassState(m0, drivable, nodes, shared0, lists0, seqs, FlattenUpTo(allWays, seqs, |allWays|))
    {
      var i := 0;
      while i < |allWays|
        invariant 0 <= i <= |allWays| == |seqs|
        invariant PassState(m0, drivable, nodes, shared0, lists0, seqs, FlattenUpTo(allWays, seqs, i))
      {
        ScanWay(i, drivable, nodes, m0, shared0, lists0, seqs);
        i := i + 1;
      }
    }

    /**
     * `computeSharedNodes`: visits every node of every way in order. The index
     * ends as the index after those visits, a node is marked shared exactly when
     * one of its visits found its id already indexed, and each way's shared-node
     * list grows by what the visits give it. The drivable answers stay as they
     * were; the frame leaves node sequences and every other node field alone.
     */
    method ComputeSharedNodes()
      requires Valid()
      modifies this`nodeInWayMap, WaySet()`driveable, WaySet()`sharedNodes, NodeSet()`isShared
      ensures Valid()
      ensures nodeInWayMap == IndexAfter(old(nodeInWayMap), old(Occurrences()))
      ensures forall w :: w in allWays ==> w.Drivable() == old(w.Drivable())
      ensures forall n :: n in old(NodeSet()) ==>
                n.isShared == (old(n.isShared) || FlaggedBy(old(nodeInWayMap), old(Occurrences()), n))
      ensures forall w :: w in allWays ==>
                w.sharedNodes == old(w.sharedNodes) + SharedAdded(old(nodeInWayMap), old(DrivableWays()), old(Occurrences()), w)
    {
      ghost var m0 := nodeInWayMap;
      ghost var seqs := NodeSeqs();
      ghost var drivable := DrivableWays();
      ghost var nodes := NodeSet();
      ghost var all := Occurrences();
      ghost var shared0: map<Node, bool> := map n | n in nodes :: n.isShared;
      ghost var lists0: map<Way, seq<string>> := map w | w in WaySet() :: w.sharedNodes;
      forall k, n | 0 <= k < |seqs| && n in seqs[k] ensures n in nodes {
        assert n in allWays[k].nodeSeq;
      }
      assert PassState(m0, drivable, nodes, shared0, lists0, seqs, []);
      ScanAll(drivable, nodes, m0, shared0, lists0, seqs);
      FlattenUpToPrefix(allWays, seqs, |allWays|);
      assert allWays[..|allWays|] == allWays && seqs[..|seqs|] == seqs;
      assert FlattenUpTo(allWays, seqs, |allWays|) == all;
      forall n | n in old(NodeSet())
        ensures n.isShared == (old(n.isShared) || FlaggedBy(m0, all, n))
      {
        assert n in nodes && shared0[n] == old(n.isShared);
      }
      forall w | w in allWays
        ensures w.sharedNodes == old(w.sharedNodes) + SharedAdded(m0, drivable, all, w)
      {
        assert w in WaySet() && lists0[w] == old(w.sharedNodes);
      }
    }

    /** The inner loop of `setNeighboringNodes` over one way. */
    method LinkWay(way: Way, ghost nodes: set<Node>)
      requires forall n :: n in way.nodeSeq ==> n in nodes
      modifies nodes`neighbors
      ensures forall n :: n in nodes ==> n.neighbors == old(n.neighbors) + NeighborsAdded(LinksAlong(way.nodeSeq), n)
    {
      var nodeSeq := way.nodeSeq;
      ghost var links: seq<Link> := [];
      var j := 1;
      while j < |nodeSeq|
        invariant 1 <= j
        invariant if |nodeSeq| == 0 then links == [] else j <= |nodeSeq| && links == LinksAlong(nodeSeq[..j])
        invariant forall n :: n in nodes ==> n.neighbors == old(n.neighbors) + NeighborsAdded(links, n)
      {
        var node := nodeSeq[j];
        var prevNode := nodeSeq[j - 1];
        LinksAlongStep(nodeSeq, j);
        NeighborsAddedSnoc(links, Link(prevNode, node));
        label visit:
        node.AddNeighbor(prevNode);
        prevNode.AddNeighbor(node);
        forall n | n in nodes
          ensures n.neighbors == old(n.neighbors) + NeighborsAdded(links + [Link(prevNode, node)], n)
        {
          assert n.neighbors == old@visit(n.neighbors) + LinkAdds(Link(prevNode, node), n);
          SeqAssoc(old(n.neighbors), NeighborsAdded(links, n), LinkAdds(Link(prevNode, node), n));
        }
        links := links + [Link(prevNode, node)];
        j := j + 1;
      }
      if |nodeSeq| > 0 {
        assert nodeSeq[..j] == nodeSeq;
      }
    }

    /**
     * `setNeighboringNodes`: along every way, each node and the one before it add
     * each other as neighbours. Each node's neighbour list grows by exactly what
     * the links of all ways give it; the frame leaves every other field alone.
     */
    method SetNeighboringNodes()
      modifies NodeSet()`neighbors
      ensures forall n :: n in old(NodeSet()) ==>
                n.neighbors == old(n.neighbors) + NeighborsAdded(AllLinks(old(NodeSeqs())), n)
    {
      ghost var seqs := NodeSeqs();
      ghost var nodes := NodeSet();
      ghost var links: seq<Link> := [];
      var i := 0;
      while i < |allWays|
        invariant 0 <= i <= |allWays|
        invariant links == AllLinks(seqs[..i])
        invariant forall n :: n in nodes ==> n.neighbors == old(n.neighbors) + NeighborsAdded(links, n)
      {
        var way := allWays[i];
        forall n | n in way.nodeSeq ensures n in nodes {
          assert n in allWays[i].nodeSeq;
        }
        ghost var along := LinksAlong(seqs[i]);
        label visit:
        LinkWay(way, nodes);
        forall n | n in nodes
          ensures n.neighbors == old(n.neighbors) + NeighborsAdded(links + along, n)
        {
          NeighborsAddedAppend(links, along, n);
          SeqAssoc(old(n.neighbors), NeighborsAdded(links, n), NeighborsAdded(along, n));
        }
        AllLinksStep(seqs, i);
        links := links + along;
        i := i + 1;
      }
      assert seqs[..i] == seqs;
    }
  }
}
