/** Map nodes (`Node.java`): located points that ways pass through. */
module Nodes {
  import opened Wrappers
  import Tags

  /**
   * The distance between two (longitude, latitude) points, left abstract: the
   * formulas themselves are floating-point code that is not modelled. All that is
   * kept is that a distance is never negative and that a point is at distance zero
   * from itself.
   */
  type Metric = f: (real, real, real, real) -> real
    | (forall a, b, c, d :: f(a, b, c, d) >= 0.0) && (forall a, b :: f(a, b, a, b) == 0.0)
    witness (a: real, b: real, c: real, d: real) => 0.0

  class Node {
    const id: string
    const longitude: real
    const latitude: real
    /** The node's tags (Java: the inherited `Element` state). */
    const element: Tags.Element
    /** The display name, set from the `name` tag when the map is finalised. */
    var name: Option<string>
    /** Adjacent nodes, one entry per link, duplicates kept. */
    var neighbors: seq<Node>
    var isShared: bool

    constructor (id: string, longitude: real, latitude: real)
      ensures this.id == id && this.longitude == longitude && this.latitude == latitude
      ensures fresh(element) && element.tagMap == map[]
      ensures name == None && neighbors == [] && !isShared
    {
      this.id := id;
      this.longitude := longitude;
      this.latitude := latitude;
      element := new Tags.Element();
      name := None;
      neighbors := [];
      isShared := false;
    }

    method SetName(n: string)
      modifies this`name
      ensures GetName() == Some(n)
    {
      name := Some(n);
    }

    function GetName(): Option<string>
      reads this
    {
      name
    }

    /** Appends `n` to the neighbour list; a neighbour added twice is listed twice. */
    method AddNeighbor(n: Node)
      modifies this`neighbors
      ensures neighbors == old(neighbors) + [n]
    {
      neighbors := neighbors + [n];
    }

    method SetShared(b: bool)
      modifies this`isShared
      ensures IsShared() == b
    {
      isShared := b;
    }

    function IsShared(): bool
      reads this
    {
      isShared
    }

    /** `equals(String)`: compares the id only (it does not override reference equality). */
    predicate Equals(s: string)
      ensures Equals(s) <==> s == id
    {
      s == id
    }

    /** `distFrom(Node)`: the node-to-node distance under the abstract metric. */
    function DistFrom(other: Node, metric: Metric): (d: real)
      ensures d >= 0.0
      ensures other.longitude == longitude && other.latitude == latitude ==> d == 0.0
    {
      metric(longitude, latitude, other.longitude, other.latitude)
    }

    /** `distFrom(lon, lat)`: exactly zero at the node's own position. */
    function DistFromPoint(lon: real, lat: real, metric: Metric): (d: real)
      ensures d >= 0.0
      ensures d == 0.0 <== lon == longitude && lat == latitude
    {
      if longitude == lon && latitude == lat then 0.0 else metric(longitude, latitude, lon, lat)
    }
  }
}
