/** Relations (`Relation.java`): ordered groups of member ways. */
module Relations {
  import opened Wrappers
  import Tags
  import opened Ways

  class Relation {
    const id: string
    /** The relation's tags (Java: the inherited `Element` state). */
    const element: Tags.Element
    var members: seq<Way>

    constructor (id: string)
      ensures this.id == id && fresh(element) && element.tagMap == map[]
      ensures members == []
    {
      this.id := id;
      element := new Tags.Element();
      members := [];
    }

    /** Appends a member way, so members keep their insertion order. */
    method AddMember(w: Way)
      modifies this`members
      ensures members == old(members) + [w]
      ensures ContainsWay(w)
    {
      members := members + [w];
    }

    function GetMembers(): seq<Way>
      reads this
    {
      members
    }

    /** The `name` tag, `None` when the relation is unnamed. */
    function GetName(): (r: Option<string>)
      reads element
      ensures r == Tags.Lookup(element.tagMap, "name")
    {
      element.GetTag("name")
    }

    /** Reference membership among the members (`ArrayList.contains` without an `equals` override). */
    predicate ContainsWay(w: Way)
      reads this
    {
      w in members
    }

    /** `equals(String)`: compares the id only. */
    predicate Equals(s: string)
      ensures Equals(s) <==> s == id
    {
      s == id
    }
  }
}
