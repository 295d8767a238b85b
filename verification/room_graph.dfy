/** The room adjacency graph, discovered at round start from the map's
    door connections. Rooms are keyed by name; the room list keeps the order
    in which rooms were first seen, as a .NET dictionary enumerates keys that
    were only ever added. */
module RoomGraph {
  import opened Common

  datatype Graph = Graph(keys: seq<string>, adj: map<string, seq<string>>)

  const EmptyGraph := Graph([], map[])

  predicate Adjacent(g: Graph, a: string, b: string) {
    a in g.adj && b in g.adj[a]
  }

  /** Room list and dictionary agree, and no neighbour list repeats a room. */
  ghost predicate WellFormed(g: Graph) {
    && NoDups(g.keys)
    && (forall k :: k in g.adj <==> k in g.keys)
    && (forall k :: k in g.adj ==> NoDups(g.adj[k]))
  }

  /** Every edge is recorded in both directions. */
  ghost predicate Valid(g: Graph) {
    && WellFormed(g)
    && (forall a, b :: Adjacent(g, a, b) ==> Adjacent(g, b, a))
  }

  /** Creates an empty neighbour list for a room not seen before. */
  function AddRoom(g: Graph, k: string): (r: Graph)
    requires WellFormed(g)
    ensures WellFormed(r)
    ensures r.adj.Keys == g.adj.Keys + {k}
    ensures forall x, y :: Adjacent(r, x, y) <==> Adjacent(g, x, y)
  {
    if k in g.adj then g else Graph(g.keys + [k], g.adj[k := []])
  }

  /** Appends `b` to `a`'s neighbours unless it is already there. */
  function Link(g: Graph, a: string, b: string): (r: Graph)
    requires WellFormed(g)
    requires a in g.adj
    ensures WellFormed(r)
    ensures r.adj.Keys == g.adj.Keys
    ensures forall x, y :: Adjacent(r, x, y) <==> Adjacent(g, x, y) || (x == a && y == b)
  {
    if b in g.adj[a] then g
    else
      var r := g.(adj := g.adj[a := g.adj[a] + [b]]);
      assert forall k :: k in r.adj ==> NoDups(r.adj[k]) by {
        forall k | k in r.adj
          ensures NoDups(r.adj[k])
        {
          if k == a {
            var s := g.adj[a] + [b];
            forall i, j | 0 <= i < j < |s|
              ensures s[i] != s[j]
            {
              if j == |s| - 1 {
                assert s[i] in g.adj[a];
              }
            }
          }
        }
      }
      r
  }

  /** Connects two rooms both ways, creating either room if new. A room
      connected to itself lists itself once. */
  function AddEdge(g: Graph, a: string, b: string): (r: Graph)
    requires Valid(g)
    ensures Valid(r)
    ensures r.adj.Keys == g.adj.Keys + {a, b}
    ensures forall x, y :: Adjacent(r, x, y) <==>
      Adjacent(g, x, y) || (x == a && y == b) || (x == b && y == a)
  {
    var g1 := AddRoom(AddRoom(g, a), b);
    Link(Link(g1, a, b), b, a)
  }

  /** One door-connection key of the map: two room names, either possibly
      null. */
  type Connection = (Option<string>, Option<string>)

  /** A name that is neither null nor empty. */
  predicate Named(name: Option<string>) {
    name.Some? && |name.value| > 0
  }

  predicate IsEdge(c: Connection, x: string, y: string) {
    && Named(c.0) && Named(c.1)
    && ((c.0.value == x && c.1.value == y) || (c.0.value == y && c.1.value == x))
  }

  predicate HasEndpoint(c: Connection, x: string) {
    Named(c.0) && Named(c.1) && (c.0.value == x || c.1.value == x)
  }

  /** Adds one connection; one with a missing name is skipped. */
  function AddConnection(g: Graph, c: Connection): (r: Graph)
    requires Valid(g)
    ensures Valid(r)
    ensures forall x, y :: Adjacent(r, x, y) <==> Adjacent(g, x, y) || IsEdge(c, x, y)
    ensures forall x :: x in r.adj <==> x in g.adj || HasEndpoint(c, x)
  {
    if Named(c.0) && Named(c.1) then AddEdge(g, c.0.value, c.1.value) else g
  }

  /** Adds every connection in enumeration order. */
  function AddConnections(g: Graph, cs: seq<Connection>): (r: Graph)
    requires Valid(g)
    ensures Valid(r)
    decreases |cs|
  {
    if |cs| == 0 then g else AddConnections(AddConnection(g, cs[0]), cs[1..])
  }

  ghost predicate EdgeIn(cs: seq<Connection>, x: string, y: string) {
    exists k :: 0 <= k < |cs| && IsEdge(cs[k], x, y)
  }

  ghost predicate EndpointIn(cs: seq<Connection>, x: string) {
    exists k :: 0 <= k < |cs| && HasEndpoint(cs[k], x)
  }

  lemma EdgeInCons(cs: seq<Connection>, x: string, y: string)
    requires |cs| > 0
    ensures EdgeIn(cs, x, y) <==> IsEdge(cs[0], x, y) || EdgeIn(cs[1..], x, y)
  {
    if EdgeIn(cs, x, y) {
      var k :| 0 <= k < |cs| && IsEdge(cs[k], x, y);
      if k > 0 {
        assert IsEdge(cs[1..][k - 1], x, y);
      }
    }
    if EdgeIn(cs[1..], x, y) {
      var k :| 0 <= k < |cs| - 1 && IsEdge(cs[1..][k], x, y);
      assert IsEdge(cs[k + 1], x, y);
    }
  }

  lemma EndpointInCons(cs: seq<Connection>, x: string)
    requires |cs| > 0
    ensures EndpointIn(cs, x) <==> HasEndpoint(cs[0], x) || EndpointIn(cs[1..], x)
  {
    if EndpointIn(cs, x) {
      var k :| 0 <= k < |cs| && HasEndpoint(cs[k], x);
      if k > 0 {
        assert HasEndpoint(cs[1..][k - 1], x);
      }
    }
    if EndpointIn(cs[1..], x) {
      var k :| 0 <= k < |cs| - 1 && HasEndpoint(cs[1..][k], x);
      assert HasEndpoint(cs[k + 1], x);
    }
  }

  lemma {:induction false} AddConnectionsEdges(g: Graph, cs: seq<Connection>, x: string, y: string)
    requires Valid(g)
    ensures Adjacent(AddConnections(g, cs), x, y) <==> Adjacent(g, x, y) || EdgeIn(cs, x, y)
    decreases |cs|
  {
    if |cs| > 0 {
      AddConnectionsEdges(AddConnection(g, cs[0]), cs[1..], x, y);
      EdgeInCons(cs, x, y);
    }
  }

  lemma {:induction false} AddConnectionsRooms(g: Graph, cs: seq<Connection>, x: string)
    requires Valid(g)
    ensures x in AddConnections(g, cs).adj <==> x in g.adj || EndpointIn(cs, x)
    decreases |cs|
  {
    if |cs| > 0 {
      AddConnectionsRooms(AddConnection(g, cs[0]), cs[1..], x);
      EndpointInCons(cs, x);
    }
  }

  /** What the scene offers: no room manager, a manager without a
      connection table, or the table's keys in enumeration order. */
  datatype RoomSource = NoRoomManager | NoConnections | Connections(entries: seq<Connection>)

  /** Rebuilds the graph from scratch; a missing manager or table yields the
      empty graph. */
  function Initialize(src: RoomSource): (g: Graph)
    ensures Valid(g)
    ensures !src.Connections? ==> g.keys == [] && g.adj == map[]
  {
    match src
    case Connections(entries) => AddConnections(EmptyGraph, entries)
    case _ => EmptyGraph
  }

  /** The neighbours of a room; an unknown room has none. */
  function GetAdjacentRooms(g: Graph, room: string): (r: seq<string>)
    requires WellFormed(g)
    ensures forall x :: x in r <==> Adjacent(g, room, x)
    ensures NoDups(r)
  {
    if room in g.adj then g.adj[room] else []
  }

  function GetAllRooms(g: Graph): (r: seq<string>)
    requires WellFormed(g)
    ensures NoDups(r)
    ensures forall x :: x in r <==> x in g.adj
  {
    g.keys
  }

  /** Two rooms are neighbours exactly when some usable connection joins
      them, in either direction. */
  lemma InitializeEdges(src: RoomSource, x: string, y: string)
    ensures Adjacent(Initialize(src), x, y) <==>
      src.Connections? && EdgeIn(src.entries, x, y)
  {
    if src.Connections? {
      AddConnectionsEdges(EmptyGraph, src.entries, x, y);
    }
  }

  /** The rooms listed are exactly the endpoints of usable connections. */
  lemma InitializeRooms(src: RoomSource, x: string)
    ensures x in GetAllRooms(Initialize(src)) <==>
      src.Connections? && EndpointIn(src.entries, x)
  {
    if src.Connections? {
      AddConnectionsRooms(EmptyGraph, src.entries, x);
    }
  }

  /** Adjacency is symmetric. */
  lemma AdjacencySymmetric(src: RoomSource, x: string, y: string)
    ensures x in GetAdjacentRooms(Initialize(src), y) <==> y in GetAdjacentRooms(Initialize(src), x)
  {
  }
}
