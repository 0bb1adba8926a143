/** The node registry (`NodeManager.java`): nodes by id, named nodes by name, nearest-node search. */
module NodeRegistry {
  import opened Wrappers
  import opened Nodes
  import Strings

  /** `n.getTag("name")`. */
  function NameTag(n: Node): Option<string>
    reads n.element
  {
    n.element.GetTag("name")
  }

  /** The `name` tags of the nodes registered in `nodes`. */
  ghost function NamesOf(nodes: map<string, Node>): set<string>
    reads set id | id in nodes :: nodes[id].element
  {
    set id | id in nodes && NameTag(nodes[id]).Some? :: NameTag(nodes[id]).value
  }

  /** The names that the snapshot `tag` gives the ids of `ids`. */
  ghost function NamesIn(tag: map<string, Option<string>>, ids: set<string>): set<string>
  {
    set id | id in ids && id in tag && tag[id].Some? :: tag[id].value
  }

  lemma NamesInAdd(tag: map<string, Option<string>>, ids: set<string>, id: string)
    requires id in tag
    ensures NamesIn(tag, ids + {id}) == NamesIn(tag, ids) + (if tag[id].Some? then {tag[id].value} else {})
  {
    forall x | x in NamesIn(tag, ids + {id}) ensures x in NamesIn(tag, ids) || tag[id] == Some(x) {
      var k :| k in ids + {id} && k in tag && tag[k].Some? && tag[k].value == x;
    }
  }

  /**
   * `m` is what the name pass has made of the name map `m0` once it has visited
   * the entries `done` of `nodes`: each name met is mapped to a visited node
   * carrying it, and every other entry is the old one.
   */
  ghost predicate Indexed(m: map<string, Node>, m0: map<string, Node>, nodes: map<string, Node>,
                          tag: map<string, Option<string>>, done: set<string>)
  {
    && m.Keys == m0.Keys + NamesIn(tag, done)
    && (forall x :: x in NamesIn(tag, done) ==>
          exists id :: id in done && id in nodes && id in tag && m[x] == nodes[id] && tag[id] == Some(x))
    && (forall x :: x in m && x !in NamesIn(tag, done) ==> x in m0 && m[x] == m0[x])
  }

  lemma IndexedStep(m: map<string, Node>, m0: map<string, Node>, nodes: map<string, Node>,
                    tag: map<string, Option<string>>, done: set<string>, id: string)
    requires id in nodes && id in tag && Indexed(m, m0, nodes, tag, done)
    ensures Indexed(if tag[id].Some? then m[tag[id].value := nodes[id]] else m, m0, nodes, tag, done + {id})
  {
    NamesInAdd(tag, done, id);
    var m' := if tag[id].Some? then m[tag[id].value := nodes[id]] else m;
    forall x | x in NamesIn(tag, done + {id})
      ensures exists k :: k in done + {id} && k in nodes && k in tag && m'[x] == nodes[k] && tag[k] == Some(x)
    {
      if tag[id] == Some(x) {
        assert m'[x] == nodes[id];
      } else {
        var k :| k in done && k in nodes && k in tag && m[x] == nodes[k] && tag[k] == Some(x);
        assert m'[x] == nodes[k];
      }
    }
  }

  /** A snapshot taken of the name tags of `nodes` gives the same names. */
  lemma NamesOfSnapshot(tag: map<string, Option<string>>, nodes: map<string, Node>)
    requires forall id :: id in nodes ==> id in tag && tag[id] == NameTag(nodes[id])
    ensures NamesOf(nodes) == NamesIn(tag, nodes.Keys)
  {
    forall x | x in NamesOf(nodes) ensures x in NamesIn(tag, nodes.Keys) {
      var id :| id in nodes && NameTag(nodes[id]).Some? && NameTag(nodes[id]).value == x;
    }
    forall x | x in NamesIn(tag, nodes.Keys) ensures x in NamesOf(nodes) {
      var id :| id in nodes.Keys && id in tag && tag[id].Some? && tag[id].value == x;
    }
  }

  /** Every node of `nodes` is registered under its own id, so different ids hold different nodes. */
  ghost predicate IdsMatch(nodes: map<string, Node>)
  {
    forall id :: id in nodes ==> nodes[id].id == id
  }

  /** The distance of `n` from the point (`lon`, `lat`). */
  function Dist(n: Node, lon: real, lat: real, metric: Metric): real
  {
    n.DistFromPoint(lon, lat, metric)
  }

  /**
   * `s[k]` is the first node of `s` at the least distance from the point: none is
   * nearer, and every node before it is strictly farther.
   */
  ghost predicate EarliestMinimiser(s: seq<Node>, k: int, lon: real, lat: real, metric: Metric)
  {
    && 0 <= k < |s|
    && (forall j :: 0 <= j < |s| ==> Dist(s[k], lon, lat, metric) <= Dist(s[j], lon, lat, metric))
    && (forall j :: 0 <= j < k ==> Dist(s[k], lon, lat, metric) < Dist(s[j], lon, lat, metric))
  }

  /** A list has at most one earliest minimiser. */
  lemma EarliestMinimiserUnique(s: seq<Node>, k1: int, k2: int, lon: real, lat: real, metric: Metric)
    requires EarliestMinimiser(s, k1, lon, lat, metric) && EarliestMinimiser(s, k2, lon, lat, metric)
    ensures k1 == k2
  {
    assert Dist(s[k1], lon, lat, metric) == Dist(s[k2], lon, lat, metric);
  }

  /** Every non-empty list has an earliest minimiser. */
  lemma {:induction false} EarliestMinimiserExists(s: seq<Node>, lon: real, lat: real, metric: Metric)
    requires s != []
    ensures exists k :: EarliestMinimiser(s, k, lon, lat, metric)
    decreases |s|
  {
    if |s| == 1 {
      assert EarliestMinimiser(s, 0, lon, lat, metric);
    } else {
      var pre := s[..|s| - 1];
      EarliestMinimiserExists(pre, lon, lat, metric);
      var k :| EarliestMinimiser(pre, k, lon, lat, metric);
      var last := |s| - 1;
      if Dist(s[last], lon, lat, metric) < Dist(s[k], lon, lat, metric) {
        assert EarliestMinimiser(s, last, lon, lat, metric);
      } else {
        assert forall j :: 0 <= j < last ==> s[j] == pre[j];
        assert EarliestMinimiser(s, k, lon, lat, metric);
      }
    }
  }

  /** A node at distance zero with none before it is the earliest minimiser: no distance is negative. */
  lemma FirstZeroIsEarliestMinimiser(s: seq<Node>, k: int, lon: real, lat: real, metric: Metric)
    requires 0 <= k < |s| && Dist(s[k], lon, lat, metric) == 0.0
    requires forall j :: 0 <= j < k ==> Dist(s[j], lon, lat, metric) != 0.0
    ensures EarliestMinimiser(s, k, lon, lat, metric)
  {
  }

  /** One more node: it takes over exactly when it is strictly nearer than the current minimiser. */
  lemma EarliestMinimiserSnoc(s: seq<Node>, k: int, n: Node, lon: real, lat: real, metric: Metric)
    requires s == [] || EarliestMinimiser(s, k, lon, lat, metric)
    ensures s == [] ==> EarliestMinimiser(s + [n], 0, lon, lat, metric)
    ensures s != [] && Dist(n, lon, lat, metric) < Dist(s[k], lon, lat, metric) ==>
              EarliestMinimiser(s + [n], |s|, lon, lat, metric)
    ensures s != [] && Dist(s[k], lon, lat, metric) <= Dist(n, lon, lat, metric) ==>
              EarliestMinimiser(s + [n], k, lon, lat, metric)
  {
    assert forall j :: 0 <= j < |s| ==> (s + [n])[j] == s[j];
    assert (s + [n])[|s|] == n;
  }

  /** A map is empty exactly when it has no values. */
  lemma NoValues<K, V>(m: map<K, V>)
    ensures m == map[] <==> m.Values == {}
  {
    if m != map[] {
      var key :| key in m;
      assert m[key] in m.Values;
    }
  }

  class NodeManager {
    /** Node id to node; a later node with the same id replaces the earlier one. */
    var nodeMap: map<string, Node>
    /** Name to a node of that name, filled by `GenImportantNodes`. */
    var nameMap: map<string, Node>
    /** The registered nodes: the values of `nodeMap`. */
    ghost var nodes: set<Node>

    /** Every node is registered under its own id, and `nodes` holds exactly the registered nodes. */
    ghost predicate Valid()
      reads this`nodeMap, this`nodes
    {
      IdsMatch(nodeMap) && nodes == nodeMap.Values
    }

    constructor ()
      ensures Valid() && nodeMap == map[] && nameMap == map[]
    {
      nodeMap := map[];
      nameMap := map[];
      nodes := {};
    }

    /** Creates a node and registers it under its id, replacing any node of that id. */
    method NewNode(id: string, lon: real, lat: real) returns (n: Node)
      requires Valid()
      modifies this`nodeMap, this`nodes
      ensures Valid() && fresh(n) && fresh(n.element)
      ensures n.id == id && n.longitude == lon && n.latitude == lat
      ensures n.name == None && n.neighbors == [] && !n.isShared && n.element.tagMap == map[]
      ensures nodeMap == old(nodeMap)[id := n]
      ensures GetNode(id) == Some(n)
      ensures forall other :: other != id ==> GetNode(other) == old(GetNode(other))
    {
      n := new Node(id, lon, lat);
      nodeMap := nodeMap[id := n];
      nodes := nodeMap.Values;
    }

    /** The node registered under `ref`, `None` (Java `null`) for an unknown id. */
    function GetNode(ref: string): (r: Option<Node>)
      reads this
      ensures r.Some? <==> ref in nodeMap
      ensures r.Some? ==> r.value == nodeMap[ref]
    {
      if ref in nodeMap then Some(nodeMap[ref]) else None
    }

    /** A node found by id answers `equals(id)` with true. */
    lemma RegisteredNodeHasId(ref: string)
      requires Valid() && GetNode(ref).Some?
      ensures GetNode(ref).value.Equals(ref)
    {
    }

    function GetNodeSet(): set<Node>
      reads this
    {
      nodeMap.Values
    }

    function GetNodeIDs(): set<string>
      reads this
    {
      nodeMap.Keys
    }

    function GetNodesWithName(): set<Node>
      reads this
    {
      nameMap.Values
    }

    /**
     * Where the name pass stands once it has visited the entries `done` of
     * `nodes`, against snapshots taken before it: `m0` of the name map, `tag` of
     * the nodes' name tags and `name0` of their names. The name map is as
     * `Indexed` says, the visited nodes carry their tag's name, the others the
     * name they had.
     */
    ghost predicate NamePass(nodes: map<string, Node>, done: set<string>, m0: map<string, Node>,
                             tag: map<string, Option<string>>, name0: map<string, Option<string>>)
      reads this, nodes.Values, set k | k in nodes :: nodes[k].element
    {
      && nodes.Keys <= tag.Keys && nodes.Keys <= name0.Keys
      && Indexed(nameMap, m0, nodes, tag, done)
      && (forall k {:trigger NameTag(nodes[k])} :: k in nodes ==> tag[k] == NameTag(nodes[k]))
      && (forall k {:trigger nodes[k].name} :: k in nodes ==>
            nodes[k].name == (if k in done && tag[k].Some? then tag[k] else name0[k]))
    }

    /** One step of the name pass, at the entry `id` still to visit: names its node after its tag and enters it in the name map. */
    method NameNode(id: string, n: Node, ghost nodes: map<string, Node>, ghost todo: set<string>, ghost m0: map<string, Node>,
                    ghost tag: map<string, Option<string>>, ghost name0: map<string, Option<string>>)
      requires IdsMatch(nodes) && id in todo && todo <= nodes.Keys && n == nodes[id]
      requires NamePass(nodes, nodes.Keys - todo, m0, tag, name0)
      modifies this`nameMap, n`name
      ensures NamePass(nodes, nodes.Keys - (todo - {id}), m0, tag, name0)
    {
      ghost var done := nodes.Keys - todo;
      assert nodes.Keys - (todo - {id}) == done + {id};
      IndexedStep(nameMap, m0, nodes, tag, done, id);
      var name := n.element.GetTag("name");
      assert name == NameTag(nodes[id]) == tag[id];
      if name.Some? {
        n.SetName(name.value);
        nameMap := nameMap[name.value := n];
      }
    }

    /** The loop of the name pass. */
    method NameAll(ghost nodes: map<string, Node>, ghost m0: map<string, Node>,
                   ghost tag: map<string, Option<string>>, ghost name0: map<string, Option<string>>)
      requires Valid() && nodes == nodeMap
      requires NamePass(nodes, {}, m0, tag, name0)
      modifies this`nameMap, nodes.Values`name
      ensures NamePass(nodes, nodes.Keys, m0, tag, name0)
    {
      var todo := nodeMap.Keys;
      assert nodes.Keys - todo == {};
      while todo != {}
        invariant nodeMap == nodes && todo <= nodes.Keys
        invariant NamePass(nodes, nodes.Keys - todo, m0, tag, name0)
        decreases |todo|
      {
        var id :| id in todo;
        var n := nodeMap[id];
        NameNode(id, n, nodes, todo, m0, tag, name0);
        todo := todo - {id};
      }
      assert nodes.Keys - todo == nodes.Keys;
    }

    /**
     * `genImportantNodes`: every node with a `name` tag takes that name and is
     * entered in `nameMap` under it. The visit goes through the map's entries in
     * hash order, which Java leaves unspecified: when several nodes share a name,
     * the map keeps one of them. Nodes without a name tag and names not met keep
     * what they had.
     */
    method GenImportantNodes()
      requires Valid()
      modifies this`nameMap, nodes`name
      ensures nameMap.Keys == old(nameMap).Keys + NamesOf(nodeMap)
      ensures forall x :: x in NamesOf(nodeMap) ==> nameMap[x] in nodeMap.Values && NameTag(nameMap[x]) == Some(x)
      ensures forall x :: x in nameMap && x !in NamesOf(nodeMap) ==> nameMap[x] == old(nameMap)[x]
      ensures forall id :: id in nodeMap ==>
                nodeMap[id].name == (if NameTag(nodeMap[id]).Some? then NameTag(nodeMap[id]) else old(nodeMap[id].name))
    {
      ghost var tag := map id | id in nodeMap :: NameTag(nodeMap[id]);
      ghost var name0 := map id | id in nodeMap :: nodeMap[id].name;
      assert NamesIn(tag, {}) == {};
      assert NamePass(nodeMap, {}, nameMap, tag, name0);
      NameAll(nodeMap, nameMap, tag, name0);
      NamesOfSnapshot(tag, nodeMap);
      forall x | x in NamesOf(nodeMap) ensures nameMap[x] in nodeMap.Values && NameTag(nameMap[x]) == Some(x) {
        var id :| id in nodeMap.Keys && id in nodeMap && id in tag && nameMap[x] == nodeMap[id] && tag[id] == Some(x);
      }
    }

    /**
     * `getByName`: builds the name map only while it is empty, then looks the
     * name up. A non-empty map is reused as it is, and no node is renamed.
     */
    method GetByName(name: string) returns (r: Option<Node>)
      requires Valid()
      modifies this`nameMap, nodes`name
      ensures r.Some? <==> name in nameMap
      ensures r.Some? ==> r.value == nameMap[name]
      ensures old(nameMap) != map[] ==>
                nameMap == old(nameMap) && forall id :: id in nodeMap ==> nodeMap[id].name == old(nodeMap[id].name)
      ensures old(nameMap) == map[] ==> (r.Some? <==> name in NamesOf(nodeMap))
      ensures old(nameMap) == map[] && r.Some? ==>
                r.value in nodeMap.Values && NameTag(r.value) == Some(name) && r.value.name == Some(name)
    {
      if nameMap == map[] {
        GenImportantNodes();
      }
      r := if name in nameMap then Some(nameMap[name]) else None;
    }

    /** The names in `nameMap`, ascending, each once. */
    method GetNodeNames() returns (names: seq<string>)
      ensures Strings.StrictlySorted(names)
      ensures forall x :: x in names <==> x in nameMap
      ensures |names| == |nameMap|
    {
      names := Strings.SortNames(nameMap.Keys);
    }

    /**
     * `closestNode(lon, lat)`: `None` when no node is registered; otherwise a node
     * at the least distance from the point. The strict comparison keeps the first
     * of equally near nodes in visiting order; that order is the map's hash order,
     * which Java leaves unspecified, and comes back here as `order`.
     */
    method ClosestNode(lon: real, lat: real, metric: Metric) returns (r: Option<Node>, ghost order: seq<Node>)
      ensures forall n :: n in order <==> n in nodeMap.Values
      ensures forall i, j :: 0 <= i < j < |order| ==> order[i] != order[j]
      ensures r.None? <==> nodeMap == map[]
      ensures r.Some? ==> r.value in nodeMap.Values
      ensures r.Some? ==> forall n :: n in nodeMap.Values ==> Dist(r.value, lon, lat, metric) <= Dist(n, lon, lat, metric)
      ensures r.Some? ==> exists k :: EarliestMinimiser(order, k, lon, lat, metric) && order[k] == r.value
    {
      r := None;
      var minDist := -1.0;
      order := [];
      ghost var k := 0;
      ghost var all := nodeMap.Values;
      var todo := nodeMap.Values;
      while todo != {}
        invariant todo <= all
        invariant forall n :: n in order <==> n in all && n !in todo
        invariant forall i, j :: 0 <= i < j < |order| ==> order[i] != order[j]
        invariant r.None? <==> order == []
        invariant r.Some? ==> EarliestMinimiser(order, k, lon, lat, metric) && order[k] == r.value
        invariant r.Some? ==> minDist == Dist(r.value, lon, lat, metric)
        decreases |todo|
      {
        var n :| n in todo;
        var dist := n.DistFromPoint(lon, lat, metric);
        EarliestMinimiserSnoc(order, k, n, lon, lat, metric);
        if r.None? || dist < minDist {
          r := Some(n);
          minDist := dist;
          k := |order|;
        }
        order := order + [n];
        todo := todo - {n};
      }
      NoValues(nodeMap);
      if r.Some? {
        assert order[0] in nodeMap.Values;
        forall n | n in nodeMap.Values ensures Dist(r.value, lon, lat, metric) <= Dist(n, lon, lat, metric) {
          var j :| 0 <= j < |order| && order[j] == n;
        }
      } else {
        assert forall n :: n !in all;
        assert all == {};
      }
    }

    /**
     * `closestNode(lon, lat, nodes)`: the first node at distance exactly zero is
     * returned at once; otherwise the first of the nearest nodes; `None` for an
     * empty list. Either way the result is the list's earliest minimiser.
     */
    method ClosestNodeIn(lon: real, lat: real, nodes: seq<Node>, metric: Metric) returns (r: Option<Node>)
      ensures r.None? <==> nodes == []
      ensures r.Some? ==> exists k :: EarliestMinimiser(nodes, k, lon, lat, metric) && nodes[k] == r.value
      ensures r.Some? && (exists k :: 0 <= k < |nodes| && Dist(nodes[k], lon, lat, metric) == 0.0) ==>
                Dist(r.value, lon, lat, metric) == 0.0
    {
      r := None;
      var minDist := -1.0;
      ghost var k := 0;
      var i := 0;
      while i < |nodes|
        invariant 0 <= i <= |nodes|
        invariant forall j :: 0 <= j < i ==> Dist(nodes[j], lon, lat, metric) != 0.0
        invariant r.None? <==> i == 0
        invariant minDist == -1.0 <==> i == 0
        invariant r.Some? ==> EarliestMinimiser(nodes[..i], k, lon, lat, metric) && nodes[k] == r.value
        invariant r.Some? ==> minDist == Dist(r.value, lon, lat, metric)
      {
        var n := nodes[i];
        var dist := n.DistFromPoint(lon, lat, metric);
        if dist == 0.0 {
          FirstZeroIsEarliestMinimiser(nodes, i, lon, lat, metric);
          return Some(n);
        }
        assert nodes[..i + 1] == nodes[..i] + [n];
        EarliestMinimiserSnoc(nodes[..i], k, n, lon, lat, metric);
        if minDist == -1.0 || dist < minDist {
          r := Some(n);
          minDist := dist;
          k := i;
        }
        i := i + 1;
      }
      assert nodes[..i] == nodes;
    }
  }
}
