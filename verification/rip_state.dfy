/** Protocol constants shared by the node and the manager. */
module RipConfig {
  /** The reserved id of the manager. */
  const MANAGER_ID: int := 0
  /** The "no path" sentinel stored in costs and distance-table cells. */
  const INFINITY: int := -1
  /** The largest id a routing node may have. */
  const MAX_NODES: int := 15
}

/** The state of one routing node: the static topology, the runtime link costs, the
    id -> column and neighbour -> row mappings, and the distance table. */
module RipState {
  import opened Wrappers
  import opened JavaText
  import opened Utils
  import opened Unicast
  import opened RipConfig

  predicate StrictlyIncreasing(s: seq<int>) {
    forall i, j :: 0 <= i < j < |s| ==> s[i] < s[j]
  }

  predicate NoDuplicates(s: seq<int>) {
    forall i, j :: 0 <= i < j < |s| ==> s[i] != s[j]
  }

  /** `s` lists every element of `keys` exactly once. */
  ghost predicate Enumerates(s: seq<int>, keys: set<int>) {
    NoDuplicates(s) && forall x :: x in s <==> x in keys
  }

  /** A set with no element is the empty set. */
  lemma EmptyWhenNoElement(s: set<int>)
    ensures (forall x :: x !in s) ==> s == {}
  {
    if forall x :: x !in s {
      var e: set<int> := {};
      assert forall x :: x in s <==> x in e;
      assert s == e;
    }
  }

  lemma {:induction false} SetMinExists(s: set<int>)
    requires s != {}
    ensures exists m :: m in s && forall y :: y in s ==> m <= y
    decreases |s|
  {
    EmptyWhenNoElement(s);
    var x :| x in s;
    var rest := s - {x};
    if rest == {} {
      forall y | y in s ensures x <= y {
        assert y == x || y in rest;
      }
    } else {
      SetMinExists(rest);
      var m :| m in rest && forall y :: y in rest ==> m <= y;
      var least := if x < m then x else m;
      forall y | y in s ensures least <= y {
        assert y == x || y in rest;
      }
      assert least in s;
    }
  }

  function SetMin(s: set<int>): (m: int)
    requires s != {}
    ensures m in s && forall y :: y in s ==> m <= y
  {
    SetMinExists(s);
    var m :| m in s && forall y :: y in s ==> m <= y;
    m
  }

  /** Collections.sort of the key set: ascending, every key exactly once. */
  function SortedIds(s: set<int>): (r: seq<int>)
    ensures StrictlyIncreasing(r) && |r| == |s|
    ensures forall x :: x in r <==> x in s
    decreases |s|
  {
    if s == {} then []
    else
      var m := SetMin(s);
      [m] + SortedIds(s - {m})
  }

  /** The first position of `x` in `s`. */
  function IndexOf(s: seq<int>, x: int): (i: nat)
    requires x in s
    ensures i < |s| && s[i] == x
    ensures forall k :: 0 <= k < i ==> s[k] != x
  {
    if s[0] == x then 0 else 1 + IndexOf(s[1..], x)
  }

  lemma IndexOfDistinct(s: seq<int>, i: nat)
    requires NoDuplicates(s) && i < |s|
    ensures IndexOf(s, s[i]) == i
  {
  }

  lemma {:induction false} EnumerationLength(s: seq<int>, keys: set<int>)
    requires Enumerates(s, keys)
    ensures |s| == |keys|
    decreases |s|
  {
    if |s| > 0 {
      var rest := s[1..];
      assert Enumerates(rest, keys - {s[0]}) by {
        forall x ensures x in rest <==> x in keys - {s[0]} {
          if x in rest {
            var k :| 0 <= k < |rest| && rest[k] == x;
            assert s[k + 1] == x;
          }
          if x in keys - {s[0]} {
            var k :| 0 <= k < |s| && s[k] == x;
            assert rest[k - 1] == x;
          }
        }
      }
      EnumerationLength(rest, keys - {s[0]});
      assert s[0] in s;
      assert keys == (keys - {s[0]}) + {s[0]};
    } else {
      assert forall x :: x !in keys;
      assert keys == {};
    }
  }

  datatype Node = Node(
    id: int,
    topology: Topology,       // fullTopology: read-only after construction
    neighbors: map<int, int>, // runtime link cost of each direct neighbour
    ids: seq<int>,            // indexToNodeId: column c describes participant ids[c]
    order: seq<int>,          // neighbour ids in row order: order[r - 1] owns row r
    table: seq<seq<int>>)     // distanceTable; table[0] is the node's own vector

  /** The shape every node keeps from construction on: ids are `short`s, link costs and cells
      are `int`s, columns follow the sorted ids, rows follow the neighbour order. */
  ghost predicate Valid(n: Node) {
    && n.id in n.topology
    && InShort(n.id)
    && JavaWidths(n.topology)
    && (forall x :: x in n.neighbors ==> InInt(n.neighbors[x]))
    && (forall r, c :: 0 <= r < |n.table| && 0 <= c < |n.table[r]| ==> InInt(n.table[r][c]))
    && StrictlyIncreasing(n.ids)
    && (forall x :: x in n.ids <==> x in n.topology)
    && n.neighbors.Keys == n.topology[n.id].Keys
    && Enumerates(n.order, n.neighbors.Keys)
    && (forall x :: x in n.neighbors ==> x in n.topology)
    && |n.table| == |n.order| + 1
    && (forall r :: 0 <= r < |n.table| ==> |n.table[r]| == |n.ids|)
  }

  /** nodeIdToIndex */
  function Column(n: Node, x: int): (c: nat)
    requires Valid(n) && x in n.topology
    ensures c < |n.ids| && n.ids[c] == x
  {
    IndexOf(n.ids, x)
  }

  /** neighborToRowIndex */
  function RowOf(n: Node, x: int): (r: nat)
    requires Valid(n) && x in n.neighbors
    ensures 1 <= r < |n.table| && n.order[r - 1] == x
  {
    IndexOf(n.order, x) + 1
  }

  /** Columns follow the ascending order of all ids: a bijection onto 0..numNodes-1. */
  lemma ColumnBijection(n: Node)
    requires Valid(n)
    ensures |n.ids| == |n.topology.Keys|
    ensures forall x, y :: x in n.topology && y in n.topology && x < y ==> Column(n, x) < Column(n, y)
    ensures forall c :: 0 <= c < |n.ids| ==> Column(n, n.ids[c]) == c
  {
    assert Enumerates(n.ids, n.topology.Keys);
    EnumerationLength(n.ids, n.topology.Keys);
    forall x, y | x in n.topology && y in n.topology && x < y
      ensures Column(n, x) < Column(n, y)
    {
      var cx, cy := Column(n, x), Column(n, y);
      assert n.ids[cx] < n.ids[cy];
    }
  }

  /** Neighbours own distinct rows 1..k; row 0 is never a neighbour's. */
  lemma RowsDistinct(n: Node)
    requires Valid(n)
    ensures |n.order| == |n.neighbors|
    ensures forall x, y :: x in n.neighbors && y in n.neighbors && x != y ==> RowOf(n, x) != RowOf(n, y)
    ensures forall i :: 0 <= i < |n.order| ==> n.order[i] in n.neighbors && RowOf(n, n.order[i]) == i + 1
  {
    EnumerationLength(n.order, n.neighbors.Keys);
    forall i | 0 <= i < |n.order|
      ensures n.order[i] in n.neighbors && RowOf(n, n.order[i]) == i + 1
    {
      assert n.order[i] in n.order;
      IndexOfDistinct(n.order, i);
    }
    forall x, y | x in n.neighbors && y in n.neighbors && x != y
      ensures RowOf(n, x) != RowOf(n, y)
    {
      assert n.order[RowOf(n, x) - 1] == x && n.order[RowOf(n, y) - 1] == y;
    }
  }

  function Infinities(k: nat): (v: seq<int>)
    ensures |v| == k && forall c :: 0 <= c < k ==> v[c] == INFINITY
  {
    seq(k, _ => INFINITY)
  }

  /** Row 0 as the constructor leaves it: INFINITY, then 0 in the own column, then each
      neighbour's link cost in its column (so a link from the node to itself overwrites the 0). */
  function SeedRow(id: int, nb: map<int, int>, ids: seq<int>): (row: seq<int>)
    requires forall x :: x in nb ==> InInt(nb[x])
    ensures |row| == |ids| && forall c :: 0 <= c < |ids| ==> InInt(row[c])
    ensures forall c :: 0 <= c < |ids| ==>
      row[c] == if ids[c] in nb then nb[ids[c]] else if ids[c] == id then 0 else INFINITY
  {
    seq(|ids|, c requires 0 <= c < |ids| =>
      if ids[c] in nb then nb[ids[c]] else if ids[c] == id then 0 else INFINITY)
  }

  /** Row 0 followed by one all-INFINITY row per neighbour. */
  function SeedTable(row0: seq<int>, k: nat): (table: seq<seq<int>>)
    requires forall c :: 0 <= c < |row0| ==> InInt(row0[c])
    ensures |table| == k + 1 && table[0] == row0
    ensures forall r :: 1 <= r < |table| ==> table[r] == Infinities(|row0|)
    ensures forall r :: 0 <= r < |table| ==> |table[r]| == |row0|
    ensures forall r, c :: 0 <= r < |table| && 0 <= c < |table[r]| ==> InInt(table[r][c])
  {
    var table := [row0] + seq(k, _ => Infinities(|row0|));
    assert forall r :: 1 <= r < |table| ==> table[r] == Infinities(|row0|);
    table
  }

  /** The constructor's state: the sorted ids, the neighbour map of the node, and the table. */
  function Seed(id: int, t: Topology, order: seq<int>): (n: Node)
    requires id in t && InShort(id) && Closed(t) && JavaWidths(t) && Enumerates(order, t[id].Keys)
    ensures Valid(n)
  {
    var ids := SortedIds(t.Keys);
    var nb := t[id];
    var table := SeedTable(SeedRow(id, nb, ids), |order|);
    Node(id, t, nb, ids, order, table)
  }

  /** The initial table has one row per neighbour plus row 0, and numNodes cells per row;
      every neighbour row is all INFINITY. */
  lemma InitialShape(id: int, t: Topology, order: seq<int>)
    requires id in t && InShort(id) && Closed(t) && JavaWidths(t) && Enumerates(order, t[id].Keys)
    ensures var n := Seed(id, t, order);
      && |n.table| == |t[id]| + 1
      && |n.ids| == |t|
      && (forall r, c :: 1 <= r < |n.table| && 0 <= c < |n.ids| ==> n.table[r][c] == INFINITY)
  {
    EnumerationLength(order, t[id].Keys);
    var ids := Seed(id, t, order).ids;
    assert NoDuplicates(ids);
    EnumerationLength(ids, t.Keys);
  }

  /** Row 0 of the initial table: each neighbour's link cost in its column, 0 in the own
      column unless the topology links the node to itself, INFINITY everywhere else. */
  lemma InitialRow(id: int, t: Topology, order: seq<int>)
    requires id in t && InShort(id) && Closed(t) && JavaWidths(t) && Enumerates(order, t[id].Keys)
    ensures var n := Seed(id, t, order);
      forall x :: x in t ==>
        n.table[0][Column(n, x)] == (if x in t[id] then t[id][x] else if x == id then 0 else INFINITY)
  {
    var n := Seed(id, t, order);
    forall x | x in t
      ensures n.table[0][Column(n, x)] == if x in t[id] then t[id][x] else if x == id then 0 else INFINITY
    {
      assert n.ids[Column(n, x)] == x;
    }
  }

  /** No neighbour row of the constructed table holds a route yet. */
  lemma SeedDeadLinksCleared(id: int, t: Topology, order: seq<int>)
    requires id in t && InShort(id) && Closed(t) && JavaWidths(t) && Enumerates(order, t[id].Keys)
    ensures DeadLinksCleared(Seed(id, t, order))
  {
  }

  /** Row 0 holds 0 in the node's own column. */
  ghost predicate SelfZero(n: Node)
    requires Valid(n)
  {
    n.table[0][Column(n, n.id)] == 0
  }

  /** A neighbour whose link is INFINITY has an all-INFINITY row. */
  ghost predicate DeadLinksCleared(n: Node)
    requires Valid(n)
  {
    forall x, c :: x in n.neighbors && n.neighbors[x] == INFINITY && 0 <= c < |n.ids| ==>
      n.table[RowOf(n, x)][c] == INFINITY
  }

  /** The new state after one event, plus the UPDataReq calls it made, in order. */
  datatype Reaction = Reaction(node: Node, out: seq<Request>)
}
