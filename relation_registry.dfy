/** The relation registry (`RelationManager.java`): relations by id. */
module RelationRegistry {
  import opened Wrappers
  import opened Relations

  class RelationManager {
    /** Relation id to relation; a later relation with the same id replaces the earlier one. */
    var relationMap: map<string, Relation>
    /** Name to relation; declared and created empty, and never written. */
    var relationNameMap: map<string, Relation>
    /** The ids passed to `NewRelation` so far. */
    ghost var registered: set<string>

    /**
     * The registry holds exactly the ids registered so far, each under its own
     * relation, and the name map stays empty.
     */
    ghost predicate Valid()
      reads this`relationMap, this`relationNameMap, this`registered
    {
      && relationMap.Keys == registered
      && (forall id :: id in relationMap ==> relationMap[id].id == id)
      && relationNameMap == map[]
    }

    constructor ()
      ensures Valid() && registered == {}
    {
      relationMap := map[];
      relationNameMap := map[];
      registered := {};
    }

    /** Creates a relation and registers it under its id, replacing any relation of that id. */
    method NewRelation(id: string) returns (r: Relation)
      requires Valid()
      modifies this`relationMap, this`registered
      ensures Valid() && fresh(r) && fresh(r.element)
      ensures r.id == id && r.members == [] && r.element.tagMap == map[]
      ensures registered == old(registered) + {id}
      ensures relationMap == old(relationMap)[id := r]
      ensures GetRelation(id) == Some(r)
      ensures forall other :: other != id ==> GetRelation(other) == old(GetRelation(other))
    {
      r := new Relation(id);
      relationMap := relationMap[id := r];
      registered := registered + {id};
    }

    /** The relation registered under `ref`, `None` (Java `null`) for an id never registered. */
    function GetRelation(ref: string): (r: Option<Relation>)
      requires Valid()
      reads this
      ensures r.Some? <==> ref in registered
      ensures r.Some? ==> r.value.Equals(ref) && r.value == relationMap[ref]
    {
      if ref in relationMap then Some(relationMap[ref]) else None
    }

    /** Every registered relation, each registered under its own id. */
    function GetAllRelations(): (r: set<Relation>)
      requires Valid()
      reads this
      ensures r == set id | id in registered :: GetRelation(id).value
    {
      var ids := relationMap.Keys;
      assert forall x :: x in relationMap.Values ==> exists id :: id in ids && relationMap[id] == x;
      relationMap.Values
    }

    /** Exactly the ids passed to `NewRelation`. */
    function GetAllRelationIDs(): (r: set<string>)
      requires Valid()
      reads this
      ensures r == registered
    {
      relationMap.Keys
    }

    /** The name map is never filled, so there are no nameable relations. */
    function GetNameableRelations(): (r: set<Relation>)
      requires Valid()
      reads this
      ensures r == {}
    {
      relationNameMap.Values
    }

    /** The name map is never filled, so there are no relation names. */
    function GetNameableRelationNames(): (r: set<string>)
      requires Valid()
      reads this
      ensures r == {}
    {
      relationNameMap.Keys
    }
  }
}
