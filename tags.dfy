/** The tag store shared by nodes, ways and relations (`Element.java`). */
module Tags {
  import opened Wrappers

  /** The value stored under `key`, or `None` (Java `null`) when there is none. */
  function Lookup(m: map<string, string>, key: string): (r: Option<string>)
    ensures r.Some? <==> key in m
    ensures r.Some? ==> r.value == m[key]
  {
    if key in m then Some(m[key]) else None
  }

  /** An element's (key, value) tags; each entity owns exactly one. */
  class Element {
    var tagMap: map<string, string>

    constructor ()
      ensures tagMap == map[]
    {
      tagMap := map[];
    }

    /** Stores one tag; a key given again overwrites its earlier value. */
    method AddTagValues(key: string, value: string)
      modifies this
      ensures tagMap == old(tagMap)[key := value]
      ensures GetTag(key) == Some(value)
      ensures forall k :: k != key ==> GetTag(k) == old(GetTag(k))
    {
      tagMap := tagMap[key := value];
    }

    /** The value of tag `key`; a missing key is the ordinary `None` result, not an error. */
    function GetTag(key: string): Option<string>
      reads this
    {
      Lookup(tagMap, key)
    }
  }
}
