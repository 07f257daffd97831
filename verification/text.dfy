/** The pieces of java.lang.String and java.lang.Integer behaviour the routing code relies on:
    `split` with a one-character delimiter (with and without a limit of 2), `split("\\s+")`,
    `trim().isEmpty()`, `String.valueOf(int)` and `Integer.parseInt` on ASCII text. */
module JavaText {
  import opened Wrappers

  predicate IsDigit(c: char) {
    '0' <= c <= '9'
  }

  predicate AllDigits(s: string) {
    forall k :: 0 <= k < |s| ==> IsDigit(s[k])
  }

  predicate IsAscii(s: string) {
    forall k :: 0 <= k < |s| ==> s[k] as int < 128
  }

  function DigitChar(d: nat): (c: char)
    requires d < 10
    ensures IsDigit(c) && c as int == d + 48
  {
    (d + 48) as char
  }

  function DigitValue(c: char): (d: nat)
    requires IsDigit(c)
    ensures d < 10 && DigitChar(d) == c
  {
    c as int - 48
  }

  /** Decimal text of a natural number, most significant digit first, no leading zeros. */
  function NatStr(n: nat): (s: string)
    ensures 1 <= |s| && AllDigits(s)
    decreases n
  {
    if n < 10 then [DigitChar(n)] else NatStr(n / 10) + [DigitChar(n % 10)]
  }

  /** String.valueOf(int) / "%d": a minus sign for negative values, then the digits. */
  function IntStr(i: int): (s: string)
    ensures 1 <= |s| && IsAscii(s)
    ensures forall k :: 0 <= k < |s| ==> IsDigit(s[k]) || s[k] == '-'
  {
    if i < 0 then "-" + NatStr(-i) else NatStr(i)
  }

  /** Value of a string of decimal digits. */
  function DigitsValue(s: string): nat
    requires AllDigits(s)
    decreases |s|
  {
    if |s| == 0 then 0 else DigitsValue(s[..|s| - 1]) * 10 + DigitValue(s[|s| - 1])
  }

  /** The decimal reading shared by Integer.parseInt and Short.parseShort: an optional '+' or
      '-' followed by at least one ASCII digit; anything else is a NumberFormatException,
      modelled as None. The value is not yet range-checked. */
  function ParseDecimal(s: string): (r: Option<int>)
    ensures r.Some? ==> 1 <= |s| && forall k :: 1 <= k < |s| ==> IsDigit(s[k])
    ensures r.Some? && r.value < 0 ==> s[0] == '-'
  {
    if 1 <= |s| && (s[0] == '-' || s[0] == '+') then
      if 2 <= |s| && AllDigits(s[1..]) then
        var v: int := DigitsValue(s[1..]);
        Some(if s[0] == '-' then -v else v)
      else None
    else if 1 <= |s| && AllDigits(s) then Some(DigitsValue(s))
    else None
  }

  lemma {:induction false} NatStrValue(n: nat)
    ensures DigitsValue(NatStr(n)) == n
    decreases n
  {
    if n >= 10 {
      var s := NatStr(n);
      assert s[..|s| - 1] == NatStr(n / 10);
      NatStrValue(n / 10);
    }
  }

  /** Printing an integer and parsing it back gives the same integer. */
  lemma DecimalRoundTrip(i: int)
    ensures ParseDecimal(IntStr(i)) == Some(i)
  {
    var s := IntStr(i);
    if i < 0 {
      var d := NatStr(-i);
      assert s == "-" + d;
      assert s[0] == '-' && s[1..] == d;
      NatStrValue(-i);
    } else {
      var d := NatStr(i);
      assert IsDigit(d[0]);
      NatStrValue(i);
    }
  }

  const SHORT_MIN: int := -0x8000
  const SHORT_MAX: int := 0x7FFF
  const INT_MIN: int := -0x8000_0000
  const INT_MAX: int := 0x7FFF_FFFF

  /** The values of Java's `short`. */
  predicate InShort(i: int) {
    SHORT_MIN <= i <= SHORT_MAX
  }

  /** The values of Java's `int`. */
  predicate InInt(i: int) {
    INT_MIN <= i <= INT_MAX
  }

  /** Short.parseShort: a decimal reading that also throws when the value is not a `short`. */
  function ParseShort(s: string): (r: Option<int>)
    ensures r.Some? <==> ParseDecimal(s).Some? && InShort(ParseDecimal(s).value)
    ensures r.Some? ==> r.value == ParseDecimal(s).value
  {
    match ParseDecimal(s)
    case Some(v) => if InShort(v) then Some(v) else None
    case None => None
  }

  /** Integer.parseInt: a decimal reading that also throws when the value is not an `int`. */
  function ParseInt32(s: string): (r: Option<int>)
    ensures r.Some? <==> ParseDecimal(s).Some? && InInt(ParseDecimal(s).value)
    ensures r.Some? ==> r.value == ParseDecimal(s).value
  {
    match ParseDecimal(s)
    case Some(v) => if InInt(v) then Some(v) else None
    case None => None
  }

  /** Java `int` addition: the exact sum brought back into range modulo 2^32. */
  function AddInt32(a: int, b: int): (r: int)
    requires InInt(a) && InInt(b)
    ensures InInt(r) && (r - (a + b)) % 0x1_0000_0000 == 0
    ensures InInt(a + b) ==> r == a + b
  {
    var s := a + b;
    if s > INT_MAX then s - 0x1_0000_0000 else if s < INT_MIN then s + 0x1_0000_0000 else s
  }

  /** Printing a `short` and reading it back with Short.parseShort gives the same value. */
  lemma ShortRoundTrip(i: int)
    requires InShort(i)
    ensures ParseShort(IntStr(i)) == Some(i)
  {
    DecimalRoundTrip(i);
  }

  /** Short.parseShort of a printed integer returns it exactly when it is a `short`, and
      throws for every value outside the `short` range. */
  lemma ShortReading(i: int)
    ensures ParseShort(IntStr(i)) == if InShort(i) then Some(i) else None
  {
    DecimalRoundTrip(i);
  }

  /** Integer.parseInt of a printed integer returns it exactly when it is an `int`, and
      throws for every value outside the `int` range. */
  lemma Int32Reading(i: int)
    ensures ParseInt32(IntStr(i)) == if InInt(i) then Some(i) else None
  {
    DecimalRoundTrip(i);
  }

  /** Both parsers throw on the empty string and on a lone sign, and every text that
      Short.parseShort accepts Integer.parseInt reads as the same value. */
  lemma ParsersAgree(s: string)
    ensures ParseShort("") == None && ParseInt32("") == None
    ensures ParseShort("-") == None && ParseInt32("+") == None
    ensures ParseShort(s).Some? ==> ParseInt32(s) == ParseShort(s)
  {
  }

  /** Printing an `int` and reading it back with Integer.parseInt gives the same value. */
  lemma Int32RoundTrip(i: int)
    requires InInt(i)
    ensures ParseInt32(IntStr(i)) == Some(i)
  {
    DecimalRoundTrip(i);
  }

  lemma IntStrInjective(a: int, b: int)
    requires IntStr(a) == IntStr(b)
    ensures a == b
  {
    DecimalRoundTrip(a);
    DecimalRoundTrip(b);
  }

  lemma {:induction false} NatStrLength(n: nat)
    ensures n < 10 ==> |NatStr(n)| == 1
    ensures 10 <= n < 100 ==> |NatStr(n)| == 2
    ensures 100 <= n < 1000 ==> |NatStr(n)| == 3
    ensures 1000 <= n ==> |NatStr(n)| >= 4
    decreases n
  {
    if n >= 10 {
      NatStrLength(n / 10);
    }
  }

  // ---------------------------------------------------------------------------
  // Splitting on one character

  /** Every piece of `s` between occurrences of `c`: one more piece than there are `c`s. */
  function Pieces(s: string, c: char): (r: seq<string>)
    ensures 1 <= |r| && FreeOf(r, c)
    decreases |s|
  {
    if |s| == 0 then [""]
    else
      var rest := Pieces(s[1..], c);
      if s[0] == c then [""] + rest else [[s[0]] + rest[0]] + rest[1..]
  }

  function DropTrailingEmpty(ps: seq<string>): (r: seq<string>)
    ensures |r| <= |ps| && r == ps[..|r|]
    ensures |r| > 0 ==> r[|r| - 1] != ""
    decreases |ps|
  {
    if 0 < |ps| && ps[|ps| - 1] == "" then DropTrailingEmpty(ps[..|ps| - 1]) else ps
  }

  /** `s.split(c)`: the whole string when `c` does not occur, otherwise the pieces with
      trailing empty pieces removed. */
  function Split(s: string, c: char): (r: seq<string>)
    ensures FreeOf(r, c)
    ensures c !in s ==> r == [s]
    ensures c in s ==> |r| == 0 || r[|r| - 1] != ""
  {
    if c !in s then [s] else DropTrailingEmpty(Pieces(s, c))
  }

  function FirstIndex(s: string, c: char): (i: nat)
    requires c in s
    ensures i < |s| && s[i] == c
    ensures forall k :: 0 <= k < i ==> s[k] != c
  {
    if s[0] == c then 0 else FirstIndex(s[1..], c) + 1
  }

  /** `s.split(c, 2)`: the text before the first `c` and everything after it. */
  function SplitOnce(s: string, c: char): (r: seq<string>)
    ensures 1 <= |r| <= 2 && c !in r[0]
    ensures |r| == 2 <==> c in s
    ensures |r| == 1 ==> r[0] == s
    ensures |r| == 2 ==> s == r[0] + [c] + r[1]
  {
    if c !in s then [s] else var i := FirstIndex(s, c); [s[..i], s[i + 1..]]
  }

  /** The pieces glued back with `c` between consecutive ones (Collectors.joining). */
  function Join(ps: seq<string>, c: char): string
    requires 1 <= |ps|
    decreases |ps|
  {
    if |ps| == 1 then ps[0] else ps[0] + [c] + Join(ps[1..], c)
  }

  predicate FreeOf(ps: seq<string>, c: char) {
    forall k :: 0 <= k < |ps| ==> c !in ps[k]
  }

  lemma {:induction false} PiecesOfPrefix(a: string, t: string, c: char)
    requires c !in a
    ensures Pieces(a + t, c) == [a + Pieces(t, c)[0]] + Pieces(t, c)[1..]
    decreases |a|
  {
    if |a| == 0 {
      var p := Pieces(t, c);
      assert a + t == t;
      assert a + p[0] == p[0];
      assert [p[0]] + p[1..] == p;
    } else {
      assert (a + t)[0] == a[0];
      assert (a + t)[1..] == a[1..] + t;
      PiecesOfPrefix(a[1..], t, c);
      assert [a[0]] + (a[1..] + Pieces(t, c)[0]) == a + Pieces(t, c)[0];
    }
  }

  /** Cutting a joined string at every `c` gives back the pieces, when no piece holds `c`. */
  lemma {:induction false} PiecesOfJoin(ps: seq<string>, c: char)
    requires 1 <= |ps| && FreeOf(ps, c)
    ensures Pieces(Join(ps, c), c) == ps
    decreases |ps|
  {
    if |ps| == 1 {
      PiecesOfPrefix(ps[0], "", c);
      assert ps[0] + "" == ps[0];
    } else {
      var j := Join(ps[1..], c);
      assert Join(ps, c) == ps[0] + ([c] + j);
      PiecesOfPrefix(ps[0], [c] + j, c);
      assert ([c] + j)[1..] == j;
      PiecesOfJoin(ps[1..], c);
      assert Pieces([c] + j, c) == [""] + ps[1..];
      assert ps[0] + "" == ps[0];
    }
  }

  lemma {:induction false} JoinFreeOf(ps: seq<string>, c: char, d: char)
    requires 1 <= |ps| && FreeOf(ps, d) && c != d
    ensures d !in Join(ps, c)
    decreases |ps|
  {
    if |ps| > 1 {
      JoinFreeOf(ps[1..], c, d);
    }
  }

  /** `split(c)` undoes `Join` when no piece holds `c` and the last piece is not empty. */
  lemma SplitOfJoin(ps: seq<string>, c: char)
    requires 1 <= |ps| && FreeOf(ps, c) && ps[|ps| - 1] != ""
    ensures Split(Join(ps, c), c) == ps
  {
    PiecesOfJoin(ps, c);
    var s := Join(ps, c);
    if |ps| > 1 {
      assert s[|ps[0]|] == c;
    }
  }

  /** `split(c, 2)` of `a c b` is `[a, b]` when `a` has no `c`. */
  lemma SplitOnceAt(a: string, b: string, c: char)
    requires c !in a
    ensures SplitOnce(a + [c] + b, c) == [a, b]
  {
    var s := a + [c] + b;
    assert s[|a|] == c;
    assert forall k :: 0 <= k < |a| ==> s[k] == a[k];
    assert FirstIndex(s, c) == |a|;
    assert s[..|a|] == a;
    assert s[|a| + 1..] == b;
  }

  /** `split(c, 2)` of a joined string separates the first piece from the rest. */
  lemma SplitOnceJoin(ps: seq<string>, c: char)
    requires 2 <= |ps| && c !in ps[0]
    ensures SplitOnce(Join(ps, c), c) == [ps[0], Join(ps[1..], c)]
  {
    SplitOnceAt(ps[0], Join(ps[1..], c), c);
  }

  lemma {:induction false} JoinAscii(ps: seq<string>, c: char)
    requires 1 <= |ps| && c as int < 128
    requires forall k :: 0 <= k < |ps| ==> IsAscii(ps[k])
    ensures IsAscii(Join(ps, c))
    decreases |ps|
  {
    if |ps| > 1 {
      JoinAscii(ps[1..], c);
    }
  }

  // ---------------------------------------------------------------------------
  // Configuration-file lines

  /** The characters of the regular expression class `\s`. */
  predicate IsJavaSpace(c: char) {
    c == ' ' || c == '\t' || c == '\n' || c == '\r' || c as int == 11 || c as int == 12
  }

  /** `line.trim().isEmpty()`: trim strips every character at or below U+0020. */
  predicate IsBlank(line: string) {
    forall k :: 0 <= k < |line| ==> line[k] as int <= 32
  }

  predicate StartsWithHash(line: string) {
    0 < |line| && line[0] == '#'
  }

  /** The longest prefix of `s` without `\s` characters. */
  function Word(s: string): (w: string)
    ensures |w| <= |s| && w == s[..|w|]
    ensures forall k :: 0 <= k < |w| ==> !IsJavaSpace(w[k])
    ensures 0 < |s| && !IsJavaSpace(s[0]) ==> 1 <= |w|
    decreases |s|
  {
    if |s| == 0 || IsJavaSpace(s[0]) then "" else [s[0]] + Word(s[1..])
  }

  /** A word: at least one character and no `\s` character. */
  predicate IsWord(w: string) {
    1 <= |w| && forall k :: 0 <= k < |w| ==> !IsJavaSpace(w[k])
  }

  /** The maximal runs of non-`\s` characters, left to right. */
  function Tokens(s: string): (ts: seq<string>)
    ensures forall k :: 0 <= k < |ts| ==> IsWord(ts[k])
    decreases |s|
  {
    if |s| == 0 then []
    else if IsJavaSpace(s[0]) then Tokens(s[1..])
    else var w := Word(s); [w] + Tokens(s[|w|..])
  }

  /** `s.split("\\s+")`: a leading empty field when `s` starts with white space, no
      trailing empty fields, and `[s]` for the empty string. */
  function SplitWhitespace(s: string): (r: seq<string>)
    ensures forall k :: 0 <= k < |r| ==> forall m :: 0 <= m < |r[k]| ==> !IsJavaSpace(r[k][m])
    ensures forall k :: 1 <= k < |r| ==> r[k] != ""
    ensures |s| > 0 && !IsJavaSpace(s[0]) ==> |r| >= 1 && r[0] != ""
  {
    if |s| == 0 then [""]
    else if Tokens(s) == [] then []
    else if IsJavaSpace(s[0]) then [""] + Tokens(s)
    else Tokens(s)
  }

  lemma {:induction false} WordOfPrefix(w: string, t: string)
    requires forall k :: 0 <= k < |w| ==> !IsJavaSpace(w[k])
    requires |t| == 0 || IsJavaSpace(t[0])
    ensures Word(w + t) == w
    decreases |w|
  {
    if |w| == 0 {
      assert w + t == t;
    } else {
      assert (w + t)[1..] == w[1..] + t;
      WordOfPrefix(w[1..], t);
      assert [w[0]] + w[1..] == w;
    }
  }

  lemma {:induction false} TokensOfJoin(ws: seq<string>)
    requires 1 <= |ws| && forall k :: 0 <= k < |ws| ==> IsWord(ws[k])
    ensures Tokens(Join(ws, ' ')) == ws
    decreases |ws|
  {
    var w := ws[0];
    if |ws| == 1 {
      WordOfPrefix(w, "");
      assert w + "" == w;
      assert w[|w|..] == "";
    } else {
      var rest := Join(ws[1..], ' ');
      var s := Join(ws, ' ');
      assert s == w + ([' '] + rest);
      WordOfPrefix(w, [' '] + rest);
      assert s[|w|..] == [' '] + rest;
      assert ([' '] + rest)[1..] == rest;
      TokensOfJoin(ws[1..]);
      assert [w] + ws[1..] == ws;
    }
  }

  lemma JoinHead(ps: seq<string>, c: char)
    requires 1 <= |ps|
    ensures |ps[0]| <= |Join(ps, c)| && Join(ps, c)[..|ps[0]|] == ps[0]
  {
    if |ps| > 1 {
      var rest := [c] + Join(ps[1..], c);
      assert Join(ps, c) == ps[0] + rest;
    }
  }

  /** `split("\\s+")` gives back words joined with single spaces. */
  lemma SplitWhitespaceOfJoin(ws: seq<string>)
    requires 1 <= |ws| && forall k :: 0 <= k < |ws| ==> IsWord(ws[k])
    ensures SplitWhitespace(Join(ws, ' ')) == ws
  {
    TokensOfJoin(ws);
    var s := Join(ws, ' ');
    var w := ws[0];
    JoinHead(ws, ' ');
    assert s[0] == w[0];
    assert !IsJavaSpace(s[0]);
    assert Tokens(s) == ws && ws != [];
  }
}
