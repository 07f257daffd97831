/** Static configuration: the address list (`id host port` lines) and the link topology
    (`id1 id2 cost` lines), each read from the lines of a file. Reading the file itself is
    not modelled; a file is its sequence of lines. */
module Utils {
  import opened Wrappers
  import opened JavaText

  /** One configured participant (UCSAP): its numeric id and network endpoint. */
  datatype Endpoint = Endpoint(id: int, host: string, port: int)

  /** id -> (neighbour id -> static link cost) */
  type Topology = map<int, map<int, int>>

  predicate IsCommentOrBlank(line: string) {
    IsBlank(line) || StartsWithHash(line)
  }

  // ---------------------------------------------------------------------------
  // Address list

  /** What one address-list line contributes. */
  datatype AddressLine = Ignored | Entry(endpoint: Endpoint) | BadNumber

  function ClassifyAddressLine(line: string): AddressLine {
    if IsCommentOrBlank(line) then Ignored
    else
      var parts := SplitWhitespace(line);
      if |parts| != 3 then Ignored
      else match (ParseShort(parts[0]), ParseInt32(parts[2]))
        case (Some(id), Some(port)) => Entry(Endpoint(id, parts[1], port))
        case _ => BadNumber
  }

  /** Every line is read in turn; a non-numeric id or port aborts the whole load (None). */
  function LoadConfiguration(lines: seq<string>): (r: Option<seq<Endpoint>>)
    ensures r.Some? ==> |r.value| <= |lines|
    ensures r.Some? ==> forall k :: 0 <= k < |r.value| ==> InShort(r.value[k].id) && InInt(r.value[k].port)
    decreases |lines|
  {
    if |lines| == 0 then Some([])
    else match (ClassifyAddressLine(lines[0]), LoadConfiguration(lines[1..]))
      case (BadNumber, _) => None
      case (_, None) => None
      case (Ignored, Some(rest)) => Some(rest)
      case (Entry(e), Some(rest)) => Some([e] + rest)
  }

  /** Loading two files' worth of lines back to back yields the first part's entries
      followed by the second part's: lines are independent and file order is kept. */
  lemma {:induction false} ConfigurationConcat(a: seq<string>, b: seq<string>)
    ensures LoadConfiguration(a + b) ==
      match (LoadConfiguration(a), LoadConfiguration(b))
      case (Some(x), Some(y)) => Some(x + y)
      case _ => None
    decreases |a|
  {
    if |a| == 0 {
      assert a + b == b;
      if LoadConfiguration(b).Some? {
        assert [] + LoadConfiguration(b).value == LoadConfiguration(b).value;
      }
    } else {
      assert (a + b)[0] == a[0];
      assert (a + b)[1..] == a[1..] + b;
      ConfigurationConcat(a[1..], b);
      match (LoadConfiguration(a[1..]), LoadConfiguration(b)) {
        case (Some(x), Some(y)) =>
          match ClassifyAddressLine(a[0]) {
            case Entry(e) => assert [e] + (x + y) == ([e] + x) + y;
            case _ =>
          }
        case _ =>
      }
    }
  }

  /** The result of a single line: nothing for a comment, blank or non-three-field line,
      one endpoint holding the line's fields for a numeric one, failure otherwise. */
  lemma SingleAddressLine(line: string)
    ensures IsCommentOrBlank(line) ==> LoadConfiguration([line]) == Some([])
    ensures !IsCommentOrBlank(line) && |SplitWhitespace(line)| != 3 ==> LoadConfiguration([line]) == Some([])
    ensures var parts := SplitWhitespace(line);
      !IsCommentOrBlank(line) && |parts| == 3 ==>
        (LoadConfiguration([line]).Some? <==> ParseShort(parts[0]).Some? && ParseInt32(parts[2]).Some?) &&
        (LoadConfiguration([line]).Some? ==>
          LoadConfiguration([line]) == Some([Endpoint(ParseShort(parts[0]).value, parts[1], ParseInt32(parts[2]).value)]))
  {
    assert [line][1..] == [];
    assert LoadConfiguration([line][1..]) == Some([]);
    match ClassifyAddressLine(line) {
      case Entry(e) => assert [e] + [] == [e];
      case _ =>
    }
  }

  /** The load fails exactly when some three-field line has a non-numeric id or port. */
  lemma {:induction false} ConfigurationFailsIff(lines: seq<string>)
    ensures LoadConfiguration(lines).None? <==>
      exists k :: 0 <= k < |lines| && ClassifyAddressLine(lines[k]).BadNumber?
    decreases |lines|
  {
    if |lines| > 0 {
      ConfigurationFailsIff(lines[1..]);
      if LoadConfiguration(lines[1..]).None? {
        var k :| 0 <= k < |lines[1..]| && ClassifyAddressLine(lines[1..][k]).BadNumber?;
        assert lines[k + 1] == lines[1..][k];
      }
      if exists k :: 0 <= k < |lines| && ClassifyAddressLine(lines[k]).BadNumber? {
        var k :| 0 <= k < |lines| && ClassifyAddressLine(lines[k]).BadNumber?;
        if k > 0 {
          assert lines[1..][k - 1] == lines[k];
        }
      }
    }
  }

  // ---------------------------------------------------------------------------
  // Topology

  /** What one topology line contributes. */
  datatype TopologyLine = Skip | Link(a: int, b: int, cost: int) | Invalid

  function ClassifyTopologyLine(line: string): TopologyLine {
    if IsCommentOrBlank(line) then Skip
    else
      var parts := SplitWhitespace(line);
      if |parts| != 3 then Invalid
      else match (ParseShort(parts[0]), ParseShort(parts[1]), ParseInt32(parts[2]))
        case (Some(a), Some(b), Some(c)) => Link(a, b, c)
        case _ => Invalid
  }

  /** putIfAbsent for both ends, then the cost in both directions. */
  function AddLink(t: Topology, a: int, b: int, cost: int): (r: Topology)
    ensures r.Keys == t.Keys + {a, b}
    ensures b in r[a] && r[a][b] == cost && a in r[b] && r[b][a] == cost
    ensures forall x, y :: x in t && y in t[x] && !((x == a && y == b) || (x == b && y == a)) ==>
      y in r[x] && r[x][y] == t[x][y]
    ensures forall x, y :: x in r && y in r[x] && !((x == a && y == b) || (x == b && y == a)) ==>
      x in t && y in t[x]
  {
    var t1 := if a in t then t else t[a := map[]];
    var t2 := if b in t1 then t1 else t1[b := map[]];
    var t3 := t2[a := t2[a][b := cost]];
    t3[b := t3[b][a := cost]]
  }

  /** The lines are applied in file order; any malformed line makes the whole result null. */
  function LoadTopology(lines: seq<string>): (r: Option<Topology>)
    ensures |lines| > 0 && ClassifyTopologyLine(lines[|lines| - 1]).Invalid? ==> r.None?
    ensures r.Some? ==> forall x :: x in r.value ==> InShort(x)
    decreases |lines|
  {
    if |lines| == 0 then Some(map[])
    else match (LoadTopology(lines[..|lines| - 1]), ClassifyTopologyLine(lines[|lines| - 1]))
      case (None, _) => None
      case (_, Invalid) => None
      case (Some(t), Skip) => Some(t)
      case (Some(t), Link(a, b, c)) => Some(AddLink(t, a, b, c))
  }

  /** Every link is recorded in both directions with the same cost. */
  ghost predicate Symmetric(t: Topology) {
    forall x, y :: x in t && y in t[x] ==> y in t && x in t[y] && t[y][x] == t[x][y]
  }

  /** Every neighbour is itself a participant. */
  ghost predicate Closed(t: Topology) {
    forall x, y :: x in t && y in t[x] ==> y in t
  }

  /** Ids are Java `short`s and costs Java `int`s, as their parsers guarantee. */
  ghost predicate JavaWidths(t: Topology) {
    && (forall x :: x in t ==> InShort(x))
    && (forall x, y :: x in t && y in t[x] ==> InInt(t[x][y]))
  }

  /** Whether some valid line names `x` as one of its ends. */
  predicate Mentions(lines: seq<string>, x: int) {
    exists k :: 0 <= k < |lines| && ClassifyTopologyLine(lines[k]).Link? &&
      (ClassifyTopologyLine(lines[k]).a == x || ClassifyTopologyLine(lines[k]).b == x)
  }

  predicate Joins(l: TopologyLine, x: int, y: int) {
    l.Link? && ((l.a == x && l.b == y) || (l.a == y && l.b == x))
  }

  /** Reference reading of the file for one pair: the cost on the last line joining x and y. */
  function LastCost(lines: seq<string>, x: int, y: int): Option<int>
    decreases |lines|
  {
    if |lines| == 0 then None
    else
      var l := ClassifyTopologyLine(lines[|lines| - 1]);
      if Joins(l, x, y) then Some(l.cost) else LastCost(lines[..|lines| - 1], x, y)
  }

  /** A loaded topology is symmetric and closed, with `short` ids and `int` costs. */
  lemma {:induction false} TopologySymmetric(lines: seq<string>)
    requires LoadTopology(lines).Some?
    ensures Symmetric(LoadTopology(lines).value)
    ensures Closed(LoadTopology(lines).value)
    ensures JavaWidths(LoadTopology(lines).value)
    decreases |lines|
  {
    if |lines| > 0 {
      TopologySymmetric(lines[..|lines| - 1]);
    }
  }

  /** The participants are exactly the ids named on valid lines. */
  lemma {:induction false} TopologyKeys(lines: seq<string>, x: int)
    requires LoadTopology(lines).Some?
    ensures x in LoadTopology(lines).value <==> Mentions(lines, x)
    decreases |lines|
  {
    if |lines| > 0 {
      var init := lines[..|lines| - 1];
      TopologyKeys(init, x);
      var l := ClassifyTopologyLine(lines[|lines| - 1]);
      if Mentions(init, x) {
        var k :| 0 <= k < |init| && ClassifyTopologyLine(init[k]).Link? &&
          (ClassifyTopologyLine(init[k]).a == x || ClassifyTopologyLine(init[k]).b == x);
        assert lines[k] == init[k];
      }
      if l.Link? && (l.a == x || l.b == x) {
        assert Mentions(lines, x) by {
          var k := |lines| - 1;
          assert ClassifyTopologyLine(lines[k]) == l;
        }
      }
      if Mentions(lines, x) {
        var k :| 0 <= k < |lines| && ClassifyTopologyLine(lines[k]).Link? &&
          (ClassifyTopologyLine(lines[k]).a == x || ClassifyTopologyLine(lines[k]).b == x);
        if k < |lines| - 1 {
          assert init[k] == lines[k];
        }
      }
    }
  }

  /** Each link holds the cost of the last line joining its two ends: a later line for the
      same pair overwrites the earlier cost in both directions, and no other link exists. */
  lemma {:induction false} TopologyLastWins(lines: seq<string>, x: int, y: int)
    requires LoadTopology(lines).Some?
    ensures var t := LoadTopology(lines).value;
      (x in t && y in t[x] <==> LastCost(lines, x, y).Some?) &&
      (x in t && y in t[x] ==> t[x][y] == LastCost(lines, x, y).value)
    decreases |lines|
  {
    if |lines| > 0 {
      TopologyLastWins(lines[..|lines| - 1], x, y);
    }
  }

  /** The load fails exactly when some line that is neither blank nor a comment lacks three
      numeric fields. */
  lemma {:induction false} TopologyFailsIff(lines: seq<string>)
    ensures LoadTopology(lines).None? <==>
      exists k :: 0 <= k < |lines| && ClassifyTopologyLine(lines[k]).Invalid?
    decreases |lines|
  {
    if |lines| > 0 {
      var init := lines[..|lines| - 1];
      TopologyFailsIff(init);
      if LoadTopology(init).None? {
        var k :| 0 <= k < |init| && ClassifyTopologyLine(init[k]).Invalid?;
        assert lines[k] == init[k];
      }
      if exists k :: 0 <= k < |lines| && ClassifyTopologyLine(lines[k]).Invalid? {
        var k :| 0 <= k < |lines| && ClassifyTopologyLine(lines[k]).Invalid?;
        if k < |lines| - 1 {
          assert init[k] == lines[k];
        }
      }
    }
  }
}
