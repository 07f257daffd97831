/** Distance-vector relaxation (recalculateDistanceVector) and propagation of row 0 to the
    neighbours (propagateVectorToNeighbors). */
module DistanceVector {
  import opened Wrappers
  import opened JavaText
  import opened Unicast
  import opened RipConfig
  import opened RipCodec
  import opened RipState

  /** What neighbour `x` offers for column `j`: the link cost plus the distance it advertised,
      added as Java `int`s; nothing when the link is down or the neighbour knows no route. */
  function Offer(n: Node, x: int, j: nat): (o: Option<int>)
    requires Valid(n) && x in n.neighbors && j < |n.ids|
    ensures o.Some? <==> Live(n, x) && n.table[RowOf(n, x)][j] != INFINITY
    ensures o.Some? ==> InInt(o.value)
  {
    var cost := n.neighbors[x];
    var cell := n.table[RowOf(n, x)][j];
    if cost == INFINITY || cell == INFINITY then None else Some(AddInt32(cost, cell))
  }

  /** Every neighbour's offer for column `j`, in iteration order. */
  function Offers(n: Node, j: nat): (os: seq<Option<int>>)
    requires Valid(n) && j < |n.ids|
    ensures |os| == |n.order|
    ensures forall t :: 0 <= t < |os| ==> n.order[t] in n.neighbors && os[t] == Offer(n, n.order[t], j)
  {
    RowsDistinct(n);
    seq(|n.order|, t requires 0 <= t < |n.order| => Offer(n, n.order[t], j))
  }

  /** Position `t` of the offers is read from table row `t + 1`: the link cost to the
      neighbour owning that row plus its cell `j`, or nothing when either is INFINITY. */
  lemma OffersByRow(n: Node, j: nat, t: nat)
    requires Valid(n) && j < |n.ids| && t < |n.order|
    ensures var x := n.order[t];
      && x in n.neighbors
      && Offers(n, j)[t] ==
        if n.neighbors[x] == INFINITY || n.table[t + 1][j] == INFINITY then None
        else Some(AddInt32(n.neighbors[x], n.table[t + 1][j]))
  {
    RowsDistinct(n);
  }

  /** minCost after a run of offers: an offer replaces the running value when that value is
      INFINITY or the offer is strictly smaller. The result is INFINITY or one of the offers. */
  function FoldMin(os: seq<Option<int>>): (m: int)
    ensures m == INFINITY || exists t :: 0 <= t < |os| && os[t] == Some(m)
    decreases |os|
  {
    if |os| == 0 then INFINITY
    else
      var prev := FoldMin(os[..|os| - 1]);
      match os[|os| - 1]
      case None => prev
      case Some(total) => if prev == INFINITY || total < prev then total else prev
  }

  /** When no offer is the sentinel itself, the fold is INFINITY exactly when there is no
      offer, and otherwise the smallest offer. */
  lemma {:induction false} FoldMinIsMinimum(os: seq<Option<int>>)
    requires forall t :: 0 <= t < |os| && os[t].Some? ==> os[t].value != INFINITY
    ensures FoldMin(os) == INFINITY <==> forall t :: 0 <= t < |os| ==> os[t].None?
    ensures forall t :: 0 <= t < |os| && os[t].Some? ==> FoldMin(os) <= os[t].value
    decreases |os|
  {
    if |os| > 0 {
      var init := os[..|os| - 1];
      FoldMinIsMinimum(init);
      assert forall t :: 0 <= t < |init| ==> init[t] == os[t];
    }
  }

  /** The node's own vector as relaxation leaves it: 0 for itself, the folded minimum elsewhere. */
  function RelaxedRow(n: Node): (row: seq<int>)
    requires Valid(n)
    ensures |row| == |n.ids| && row[Column(n, n.id)] == 0
    ensures forall j :: 0 <= j < |row| ==> InInt(row[j])
  {
    seq(|n.ids|, j requires 0 <= j < |n.ids| => if j == Column(n, n.id) then 0 else FoldMin(Offers(n, j)))
  }

  /** Relaxation rewrites row 0 and nothing else. */
  function Relax(n: Node): (m: Node)
    requires Valid(n)
    ensures Valid(m) && SelfZero(m)
    ensures m.table[0] == RelaxedRow(n) && |m.table| == |n.table|
    ensures forall r :: 1 <= r < |n.table| ==> m.table[r] == n.table[r]
    ensures m.id == n.id && m.topology == n.topology && m.neighbors == n.neighbors
    ensures m.ids == n.ids && m.order == n.order
  {
    n.(table := n.table[0 := RelaxedRow(n)])
  }

  // ---------------------------------------------------------------------------
  // Propagation

  /** UPDataReq(x, pdu) for every `x` of `xs`, in order, whose link cost is not INFINITY. */
  function SendToLive(n: Node, xs: seq<int>, pdu: string): (out: seq<Request>)
    requires forall k :: 0 <= k < |xs| ==> xs[k] in n.neighbors
    ensures |out| <= |xs|
    ensures forall k :: 0 <= k < |out| ==>
      out[k].data == pdu && out[k].dest in xs && n.neighbors[out[k].dest] != INFINITY
    decreases |xs|
  {
    if |xs| == 0 then []
    else
      var head := if n.neighbors[xs[0]] != INFINITY then [Request(xs[0], pdu)] else [];
      head + SendToLive(n, xs[1..], pdu)
  }

  /** propagateVectorToNeighbors: "RIPIND <id> <row 0>" to each live neighbour. */
  function Propagate(n: Node): (out: seq<Request>)
    requires Valid(n)
    ensures |out| <= |n.neighbors|
    ensures forall k :: 0 <= k < |out| ==> Live(n, out[k].dest) && out[k].data == IndPdu(n.id, n.table[0])
  {
    RowsDistinct(n);
    SendToLive(n, n.order, IndPdu(n.id, n.table[0]))
  }

  /** The destinations of a run of requests, in order. */
  function Dests(out: seq<Request>): (ds: seq<int>)
    ensures |ds| == |out| && forall k :: 0 <= k < |out| ==> ds[k] == out[k].dest
  {
    seq(|out|, k requires 0 <= k < |out| => out[k].dest)
  }

  /** A neighbour has a live link when its cost is not INFINITY. */
  predicate Live(n: Node, x: int) {
    x in n.neighbors && n.neighbors[x] != INFINITY
  }

  lemma {:induction false} SendToLiveTargets(n: Node, xs: seq<int>, pdu: string)
    requires forall k :: 0 <= k < |xs| ==> xs[k] in n.neighbors
    ensures forall x :: x in Dests(SendToLive(n, xs, pdu)) <==> x in xs && Live(n, x)
    ensures NoDuplicates(xs) ==> NoDuplicates(Dests(SendToLive(n, xs, pdu)))
    decreases |xs|
  {
    if |xs| > 0 {
      var rest := SendToLive(n, xs[1..], pdu);
      SendToLiveTargets(n, xs[1..], pdu);
      var out := SendToLive(n, xs, pdu);
      if n.neighbors[xs[0]] != INFINITY {
        assert Dests(out) == [xs[0]] + Dests(rest);
      } else {
        assert Dests(out) == Dests(rest);
      }
      forall x ensures x in xs <==> x == xs[0] || x in xs[1..] {
        assert xs == [xs[0]] + xs[1..];
      }
      if NoDuplicates(xs) {
        assert NoDuplicates(xs[1..]) by {
          forall i, j | 0 <= i < j < |xs[1..]| ensures xs[1..][i] != xs[1..][j] {
            assert xs[1..][i] == xs[i + 1] && xs[1..][j] == xs[j + 1];
          }
        }
        assert xs[0] !in xs[1..] by {
          forall k | 0 <= k < |xs[1..]| ensures xs[1..][k] != xs[0] {
            assert xs[1..][k] == xs[k + 1];
          }
        }
      }
    }
  }

  /** Propagation sends the advertisement of row 0 to exactly the live neighbours, once each. */
  lemma PropagationTargets(n: Node)
    requires Valid(n)
    ensures forall k :: 0 <= k < |Propagate(n)| ==> Propagate(n)[k].data == IndPdu(n.id, n.table[0])
    ensures forall x :: x in Dests(Propagate(n)) <==> Live(n, x)
    ensures NoDuplicates(Dests(Propagate(n)))
  {
    RowsDistinct(n);
    SendToLiveTargets(n, n.order, IndPdu(n.id, n.table[0]));
  }

  // ---------------------------------------------------------------------------
  // recalculateDistanceVector

  /** Relax, and propagate the new row 0 when it differs from the old one. */
  function Recalculate(n: Node): (r: Reaction)
    requires Valid(n)
    ensures Valid(r.node) && SelfZero(r.node)
  {
    var m := Relax(n);
    Reaction(m, if m.table[0] != n.table[0] then Propagate(m) else [])
  }

  /** Relaxation reports a change exactly when some cell of row 0 moves, and then advertises
      the new row to every live neighbour; otherwise it sends nothing. */
  lemma RecalculateReports(n: Node)
    requires Valid(n)
    ensures var r := Recalculate(n);
      (r.out != [] ==> exists c :: 0 <= c < |n.ids| && RelaxedRow(n)[c] != n.table[0][c]) &&
      ((exists c :: 0 <= c < |n.ids| && RelaxedRow(n)[c] != n.table[0][c]) ==>
        (forall x :: x in Dests(r.out) <==> Live(n, x)) &&
        forall k :: 0 <= k < |r.out| ==> r.out[k].data == IndPdu(n.id, RelaxedRow(n)))
  {
    PropagationTargets(Relax(n));
  }

  /** Links are INFINITY or non-negative, and so is every cell a neighbour advertised. */
  ghost predicate WellFormedCosts(n: Node)
    requires Valid(n)
  {
    && (forall x :: x in n.neighbors ==> n.neighbors[x] >= INFINITY)
    && (forall x, c :: x in n.neighbors && 0 <= c < |n.ids| ==> n.table[RowOf(n, x)][c] >= INFINITY)
  }

  /** With non-negative inputs an offer is never the INFINITY sentinel: the exact sum when it
      fits an `int`, and a value below -1 when it wraps. */
  lemma OfferIsRoute(n: Node, x: int, j: nat)
    requires Valid(n) && WellFormedCosts(n) && x in n.neighbors && j < |n.ids|
    ensures Offer(n, x, j).Some? ==> Offer(n, x, j).value != INFINITY
    ensures Offer(n, x, j).Some? && InInt(n.neighbors[x] + n.table[RowOf(n, x)][j]) ==>
      Offer(n, x, j).value == n.neighbors[x] + n.table[RowOf(n, x)][j]
    ensures Offer(n, x, j).Some? && !InInt(n.neighbors[x] + n.table[RowOf(n, x)][j]) ==>
      Offer(n, x, j).value == n.neighbors[x] + n.table[RowOf(n, x)][j] - 0x1_0000_0000 < -1
  {
  }

  /** Relaxation computes, for every other column, INFINITY exactly when no live neighbour
      offers a route, and otherwise the cheapest offer, which some neighbour makes. */
  lemma RelaxedIsShortest(n: Node, j: nat)
    requires Valid(n) && WellFormedCosts(n) && j < |n.ids| && j != Column(n, n.id)
    ensures RelaxedRow(n)[j] == INFINITY <==> forall x :: x in n.neighbors ==> Offer(n, x, j).None?
    ensures RelaxedRow(n)[j] != INFINITY ==> exists x :: x in n.neighbors && Offer(n, x, j) == Some(RelaxedRow(n)[j])
    ensures forall x :: x in n.neighbors && Offer(n, x, j).Some? ==> RelaxedRow(n)[j] <= Offer(n, x, j).value
  {
    var os := Offers(n, j);
    forall t | 0 <= t < |os| && os[t].Some? ensures os[t].value != INFINITY {
      OfferIsRoute(n, n.order[t], j);
    }
    FoldMinIsMinimum(os);
    assert RelaxedRow(n)[j] == FoldMin(os);
    forall x | x in n.neighbors ensures exists t :: 0 <= t < |os| && os[t] == Offer(n, x, j) {
      assert x in n.order;
      var t :| 0 <= t < |n.order| && n.order[t] == x;
      assert os[t] == Offer(n, x, j);
    }
  }

  /** Relaxation reads only the link costs and the neighbours' rows. */
  lemma RelaxedRowFrame(n: Node, m: Node)
    requires Valid(n) && Valid(m)
    requires m.id == n.id && m.ids == n.ids && m.neighbors == n.neighbors && m.order == n.order
    requires forall r :: 1 <= r < |n.table| ==> m.table[r] == n.table[r]
    ensures RelaxedRow(m) == RelaxedRow(n)
  {
    forall j | 0 <= j < |n.ids| ensures Offers(m, j) == Offers(n, j) {
      forall t | 0 <= t < |n.order| ensures Offers(m, j)[t] == Offers(n, j)[t] {
        OfferFrame(n, m, n.order[t], j);
      }
    }
    assert forall j :: 0 <= j < |n.ids| ==> RelaxedRow(m)[j] == RelaxedRow(n)[j];
  }

  lemma OfferFrame(n: Node, m: Node, x: int, j: nat)
    requires Valid(n) && Valid(m) && x in n.neighbors && j < |n.ids|
    requires m.ids == n.ids && m.neighbors == n.neighbors && m.order == n.order
    requires forall r :: 1 <= r < |n.table| ==> m.table[r] == n.table[r]
    ensures Offer(m, x, j) == Offer(n, x, j)
  {
    assert RowOf(m, x) == RowOf(n, x);
  }

  /** Relaxing twice with no event in between changes nothing and sends nothing. */
  lemma RelaxIdempotent(n: Node)
    requires Valid(n)
    ensures Relax(Relax(n)) == Relax(n)
    ensures Recalculate(Relax(n)) == Reaction(Relax(n), [])
  {
    RelaxedRowFrame(n, Relax(n));
  }

  /** recalculateDistanceVector as written: a pass over the columns, skipping the own column
      (forced to 0), folding the neighbours' offers in iteration order into minCost and
      noting whether any cell of row 0 changed. */
  method RecalculateDistanceVector(n: Node) returns (row: seq<int>, changed: bool)
    requires Valid(n)
    ensures row == RelaxedRow(n)
    ensures changed <==> row != n.table[0]
  {
    var selfIndex := Column(n, n.id);
    row := n.table[0];
    changed := false;
    var j := 0;
    while j < |n.ids|
      invariant 0 <= j <= |n.ids| && |row| == |n.ids|
      invariant forall c :: 0 <= c < j ==> row[c] == RelaxedRow(n)[c]
      invariant forall c :: j <= c < |n.ids| ==> row[c] == n.table[0][c]
      invariant changed <==> exists c :: 0 <= c < j && row[c] != n.table[0][c]
    {
      if j == selfIndex {
        if row[j] != 0 {
          row := row[j := 0];
          changed := true;
        }
      } else {
        var minCost := ColumnMinimum(n, j);
        if row[j] != minCost {
          row := row[j := minCost];
          changed := true;
        }
      }
      j := j + 1;
    }
  }

  /** One more offer folded in: the step the neighbour loop takes. */
  lemma FoldMinStep(os: seq<Option<int>>, i: nat)
    requires i < |os|
    ensures FoldMin(os[..i + 1]) ==
      match os[i]
      case None => FoldMin(os[..i])
      case Some(total) => if FoldMin(os[..i]) == INFINITY || total < FoldMin(os[..i]) then total else FoldMin(os[..i])
  {
    assert os[..i + 1][..i] == os[..i];
  }

  /** The inner loop of recalculateDistanceVector for column `j`. */
  method ColumnMinimum(n: Node, j: nat) returns (minCost: int)
    requires Valid(n) && j < |n.ids|
    ensures minCost == FoldMin(Offers(n, j))
  {
    ghost var os := Offers(n, j);
    minCost := INFINITY;
    var i := 0;
    while i < |n.order|
      invariant 0 <= i <= |n.order|
      invariant minCost == FoldMin(os[..i])
    {
      FoldMinStep(os, i);
      minCost := ConsiderNeighbour(n, j, n.order[i], minCost);
      i := i + 1;
    }
    assert os[..i] == os;
  }

  /** One pass of the neighbour loop: neighbour `x`'s offer replaces minCost when minCost is
      INFINITY or the offer is strictly smaller. */
  method ConsiderNeighbour(n: Node, j: nat, x: int, minCost: int) returns (next: int)
    requires Valid(n) && j < |n.ids| && x in n.neighbors
    ensures Offer(n, x, j).None? ==> next == minCost
    ensures Offer(n, x, j).Some? ==>
      next == if minCost == INFINITY || Offer(n, x, j).value < minCost then Offer(n, x, j).value else minCost
  {
    next := minCost;
    var costToNeighbor := n.neighbors[x];
    if costToNeighbor != INFINITY {
      var costFromNeighbor := n.table[RowOf(n, x)][j];
      if costFromNeighbor != INFINITY {
        var totalCost := AddInt32(costToNeighbor, costFromNeighbor);
        if minCost == INFINITY || totalCost < minCost {
          next := totalCost;
        }
      }
    }
  }
}
