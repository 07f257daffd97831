/** The text forms of the routing PDUs sent by a node and the colon-delimited distance-vector
    codec (formatVector / parseVector). */
module RipCodec {
  import opened Wrappers
  import opened JavaText

  /** String.valueOf of every cell, in order. */
  function Cells(v: seq<int>): (ps: seq<string>)
    ensures |ps| == |v|
    ensures forall k :: 0 <= k < |v| ==> ps[k] == IntStr(v[k])
  {
    seq(|v|, k requires 0 <= k < |v| => IntStr(v[k]))
  }

  /** The cells joined with ':' (the empty vector gives the empty string). */
  function FormatVector(v: seq<int>): (s: string)
    ensures |v| == 0 ==> s == ""
    ensures |v| == 1 ==> s == IntStr(v[0])
  {
    if |v| == 0 then "" else Join(Cells(v), ':')
  }

  /** Every cell is a Java `int`. */
  predicate AllInt(v: seq<int>) {
    forall k :: 0 <= k < |v| ==> InInt(v[k])
  }

  /** Integer.parseInt of every piece; one failure fails the whole vector. */
  function ParseAll(ps: seq<string>): (r: Option<seq<int>>)
    ensures r.Some? ==> |r.value| == |ps| && AllInt(r.value)
    decreases |ps|
  {
    if |ps| == 0 then Some([])
    else match (ParseInt32(ps[0]), ParseAll(ps[1..]))
      case (Some(x), Some(xs)) => Some([x] + xs)
      case _ => None
  }

  /** vectorString.split(":") followed by Integer.parseInt of every piece. */
  function ParseVector(s: string): (r: Option<seq<int>>)
    ensures s == "" ==> r.None?
    ensures ':' !in s ==> r == match ParseInt32(s) case Some(x) => Some([x]) case None => None
    ensures r.Some? ==> AllInt(r.value)
  {
    ParseAllSingle(s);
    ParseAll(Split(s, ':'))
  }

  lemma ParseAllSingle(p: string)
    ensures ParseAll([p]) == match ParseInt32(p) case Some(x) => Some([x]) case None => None
  {
    assert [p][1..] == [];
    if ParseInt32(p).Some? {
      assert [ParseInt32(p).value] + [] == [ParseInt32(p).value];
    }
  }

  lemma {:induction false} ParseAllCells(v: seq<int>)
    requires AllInt(v)
    ensures ParseAll(Cells(v)) == Some(v)
    decreases |v|
  {
    if |v| > 0 {
      assert Cells(v)[1..] == Cells(v[1..]);
      ParseAllCells(v[1..]);
      Int32RoundTrip(v[0]);
      assert [v[0]] + v[1..] == v;
    }
  }

  lemma CellsFreeOf(v: seq<int>)
    ensures FreeOf(Cells(v), ':') && FreeOf(Cells(v), ' ')
    ensures forall k :: 0 <= k < |v| ==> IsAscii(Cells(v)[k]) && Cells(v)[k] != ""
  {
    forall k | 0 <= k < |v|
      ensures ':' !in Cells(v)[k] && ' ' !in Cells(v)[k]
    {
      var s := IntStr(v[k]);
      assert forall m :: 0 <= m < |s| ==> s[m] != ':' && s[m] != ' ';
    }
  }

  /** Parsing a formatted vector gives the vector back, for every vector of Java `int`s with
      at least one cell, including cells holding the INFINITY sentinel -1. */
  lemma VectorRoundTrip(v: seq<int>)
    requires 1 <= |v| && AllInt(v)
    ensures ParseVector(FormatVector(v)) == Some(v)
  {
    CellsFreeOf(v);
    SplitOfJoin(Cells(v), ':');
    ParseAllCells(v);
  }

  /** The empty vector formats to "", which does not parse (Integer.parseInt("") throws). */
  lemma EmptyVectorDoesNotParse()
    ensures ParseVector(FormatVector([])) == None
  {
    assert ':' !in "";
    assert Split("", ':') == [""];
  }

  /** A formatted vector is ASCII, has no space, and is not empty unless the vector is. */
  lemma FormatVectorText(v: seq<int>)
    ensures IsAscii(FormatVector(v)) && ' ' !in FormatVector(v)
    ensures 1 <= |v| ==> FormatVector(v) != ""
  {
    if |v| > 0 {
      CellsFreeOf(v);
      JoinAscii(Cells(v), ':');
      JoinFreeOf(Cells(v), ':', ' ');
      var s := Join(Cells(v), ':');
      assert |Cells(v)| == 1 ==> s == Cells(v)[0];
      assert |Cells(v)| > 1 ==> s[|Cells(v)[0]|] == ':';
    }
  }

  // ---------------------------------------------------------------------------
  // PDU texts

  const IND_TAG: string := "RIPIND"
  const NTF_TAG: string := "RIPNTF"
  const RSP_TAG: string := "RIPRSP"

  /** "RIPIND <id> <vector>" */
  function IndPdu(id: int, v: seq<int>): (s: string)
    ensures SplitOnce(s, ' ')[0] == IND_TAG
  {
    TagsHaveNoSpace();
    SplitOnceJoin([IND_TAG, IntStr(id), FormatVector(v)], ' ');
    Join([IND_TAG, IntStr(id), FormatVector(v)], ' ')
  }

  /** "RIPNTF <a> <b> <cost>" */
  function NtfPdu(a: int, b: int, cost: int): (s: string)
    ensures SplitOnce(s, ' ')[0] == NTF_TAG
  {
    TagsHaveNoSpace();
    SplitOnceJoin([NTF_TAG, IntStr(a), IntStr(b), IntStr(cost)], ' ');
    Join([NTF_TAG, IntStr(a), IntStr(b), IntStr(cost)], ' ')
  }

  function FormattedRows(rows: seq<seq<int>>): (ps: seq<string>)
    ensures |ps| == |rows|
    ensures forall r :: 0 <= r < |rows| ==> ps[r] == FormatVector(rows[r])
  {
    seq(|rows|, r requires 0 <= r < |rows| => FormatVector(rows[r]))
  }

  /** All rows formatted and separated by single spaces. */
  function FormatTable(rows: seq<seq<int>>): string {
    if |rows| == 0 then "" else Join(FormattedRows(rows), ' ')
  }

  /** "RIPRSP <id> <row0> <row1> ..." */
  function RspPdu(id: int, rows: seq<seq<int>>): (s: string)
    ensures SplitOnce(s, ' ')[0] == RSP_TAG
  {
    TagsHaveNoSpace();
    SplitOnceJoin([RSP_TAG, IntStr(id), FormatTable(rows)], ' ');
    Join([RSP_TAG, IntStr(id), FormatTable(rows)], ' ')
  }

  lemma TagsHaveNoSpace()
    ensures ' ' !in IND_TAG && ' ' !in NTF_TAG && ' ' !in RSP_TAG
    ensures IsAscii(IND_TAG) && IsAscii(NTF_TAG) && IsAscii(RSP_TAG)
  {
    assert forall k :: 0 <= k < 6 ==> IND_TAG[k] != ' ' && NTF_TAG[k] != ' ' && RSP_TAG[k] != ' ';
  }

  lemma IntStrHasNoSpace(i: int)
    ensures ' ' !in IntStr(i) && ':' !in IntStr(i)
  {
    var s := IntStr(i);
    assert forall m :: 0 <= m < |s| ==> s[m] != ':' && s[m] != ' ';
  }

  /** A neighbour reading an advertisement: the tag, then the sender and the vector text,
      which parses back to the advertised vector. */
  lemma IndDecodes(id: int, v: seq<int>)
    requires InShort(id) && AllInt(v)
    ensures SplitOnce(IndPdu(id, v), ' ') == [IND_TAG, Join([IntStr(id), FormatVector(v)], ' ')]
    ensures SplitOnce(Join([IntStr(id), FormatVector(v)], ' '), ' ') == [IntStr(id), FormatVector(v)]
    ensures ParseShort(IntStr(id)) == Some(id)
    ensures 1 <= |v| ==> ParseVector(FormatVector(v)) == Some(v)
  {
    TagsHaveNoSpace();
    IntStrHasNoSpace(id);
    var ps := [IND_TAG, IntStr(id), FormatVector(v)];
    SplitOnceJoin(ps, ' ');
    assert ps[1..] == [IntStr(id), FormatVector(v)];
    SplitOnceJoin(ps[1..], ' ');
    assert ps[1..][1..] == [FormatVector(v)];
    ShortRoundTrip(id);
    if 1 <= |v| {
      VectorRoundTrip(v);
    }
  }

  /** The manager reading a link-cost notification recovers the three numbers. */
  lemma NtfDecodes(a: int, b: int, cost: int)
    ensures Split(NtfPdu(a, b, cost), ' ') == [NTF_TAG, IntStr(a), IntStr(b), IntStr(cost)]
    ensures ParseDecimal(IntStr(a)) == Some(a) && ParseDecimal(IntStr(b)) == Some(b) &&
      ParseDecimal(IntStr(cost)) == Some(cost)
  {
    TagsHaveNoSpace();
    IntStrHasNoSpace(a);
    IntStrHasNoSpace(b);
    IntStrHasNoSpace(cost);
    SplitOfJoin([NTF_TAG, IntStr(a), IntStr(b), IntStr(cost)], ' ');
    DecimalRoundTrip(a);
    DecimalRoundTrip(b);
    DecimalRoundTrip(cost);
  }

  lemma {:induction false} JoinNested(a: string, b: string, rs: seq<string>, c: char)
    requires 1 <= |rs|
    ensures Join([a, b, Join(rs, c)], c) == Join([a, b] + rs, c)
  {
    var j := Join(rs, c);
    var ps := [a, b] + rs;
    assert ps[1..] == [b] + rs;
    assert ([b] + rs)[1..] == rs;
    assert Join([b] + rs, c) == b + [c] + j;
    assert Join(ps, c) == a + [c] + (b + [c] + j);
    assert [a, b, j][1..] == [b, j];
    assert [b, j][1..] == [j];
    assert Join([j], c) == j;
    assert Join([b, j], c) == b + [c] + j;
  }

  lemma PrefixedFreeOf(a: string, b: string, fs: seq<string>, c: char)
    requires c !in a && c !in b && FreeOf(fs, c)
    ensures FreeOf([a, b] + fs, c)
  {
    var ps := [a, b] + fs;
    forall k | 0 <= k < |ps| ensures c !in ps[k] {
      if k >= 2 {
        assert ps[k] == fs[k - 2];
      }
    }
  }

  lemma SplitOfPrefixedJoin(a: string, b: string, fs: seq<string>, c: char)
    requires c !in a && c !in b && 1 <= |fs| && FreeOf(fs, c) && fs[|fs| - 1] != ""
    ensures Split(Join([a, b] + fs, c), c) == [a, b] + fs
  {
    PrefixedFreeOf(a, b, fs, c);
    LastOfPrefixed(a, b, fs);
    SplitOfJoin([a, b] + fs, c);
  }

  lemma LastOfPrefixed(a: string, b: string, fs: seq<string>)
    requires 1 <= |fs|
    ensures ([a, b] + fs)[|fs| + 1] == fs[|fs| - 1]
  {
  }

  /** The response splits at spaces into the tag, the id and one field per row. */
  lemma RspFields(id: int, rows: seq<seq<int>>)
    requires 1 <= |rows|
    requires forall r :: 0 <= r < |rows| ==> 1 <= |rows[r]|
    ensures Split(RspPdu(id, rows), ' ') == [RSP_TAG, IntStr(id)] + FormattedRows(rows)
  {
    var fs := FormattedRows(rows);
    JoinNested(RSP_TAG, IntStr(id), fs, ' ');
    TagsHaveNoSpace();
    IntStrHasNoSpace(id);
    forall r | 0 <= r < |rows|
      ensures ' ' !in fs[r] && fs[r] != ""
    {
      FormatVectorText(rows[r]);
    }
    SplitOfPrefixedJoin(RSP_TAG, IntStr(id), fs, ' ');
  }

  /** The manager reading a distance-table response: splitting at spaces gives the tag,
      the node id and one field per row, in table order, each parsing back to its row. */
  lemma RspDecodes(id: int, rows: seq<seq<int>>)
    requires 1 <= |rows|
    requires forall r :: 0 <= r < |rows| ==> 1 <= |rows[r]| && AllInt(rows[r])
    ensures var parts := Split(RspPdu(id, rows), ' ');
      |parts| == |rows| + 2 && parts[0] == RSP_TAG && ParseDecimal(parts[1]) == Some(id) &&
      forall r :: 0 <= r < |rows| ==> ParseVector(parts[r + 2]) == Some(rows[r])
  {
    RspFields(id, rows);
    var parts := Split(RspPdu(id, rows), ' ');
    var fs := FormattedRows(rows);
    assert parts == [RSP_TAG, IntStr(id)] + fs;
    assert parts[1] == IntStr(id);
    DecimalRoundTrip(id);
    RowFieldsParse(rows);
    forall r | 0 <= r < |rows|
      ensures parts[r + 2] == fs[r]
    {
    }
  }

  lemma RowFieldsParse(rows: seq<seq<int>>)
    requires forall r :: 0 <= r < |rows| ==> 1 <= |rows[r]| && AllInt(rows[r])
    ensures forall r :: 0 <= r < |rows| ==> ParseVector(FormattedRows(rows)[r]) == Some(rows[r])
  {
    forall r | 0 <= r < |rows|
      ensures ParseVector(FormattedRows(rows)[r]) == Some(rows[r])
    {
      VectorRoundTrip(rows[r]);
    }
  }

  /** Every PDU a node sends is ASCII, so its character count is its byte count. */
  lemma PdusAreAscii(id: int, a: int, b: int, cost: int, v: seq<int>, rows: seq<seq<int>>)
    ensures IsAscii(IndPdu(id, v)) && IsAscii(NtfPdu(a, b, cost)) && IsAscii(RspPdu(id, rows))
  {
    TagsHaveNoSpace();
    FormatVectorText(v);
    JoinAscii([IND_TAG, IntStr(id), FormatVector(v)], ' ');
    JoinAscii([NTF_TAG, IntStr(a), IntStr(b), IntStr(cost)], ' ');
    if |rows| > 0 {
      var fs := FormattedRows(rows);
      forall r | 0 <= r < |rows| ensures IsAscii(fs[r]) {
        FormatVectorText(rows[r]);
      }
      JoinAscii(fs, ' ');
    }
    JoinAscii([RSP_TAG, IntStr(id), FormatTable(rows)], ' ');
  }
}
