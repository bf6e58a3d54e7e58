/** The colour handling of js/worker.js: parsing a hex colour, the
    colorDepths cache behind getSVGColor, and the rows setSVGColors makes
    for the palette of an SVG. */
module Colours {
  import opened Options

  /** A colour as hexToRgb returns it. */
  datatype Rgb = Rgb(r: nat, g: nat, b: nat)

  predicate IsHexDigit(c: char) {
    ('0' <= c <= '9') || ('a' <= c <= 'f') || ('A' <= c <= 'F')
  }

  /** The value of a hex digit, in either case. */
  function DigitValue(c: char): (v: nat)
    requires IsHexDigit(c)
    ensures v < 16
  {
    if '0' <= c <= '9' then c as int - '0' as int
    else if 'a' <= c <= 'f' then c as int - 'a' as int + 10
    else c as int - 'A' as int + 10
  }

  /** parseInt of the two hex digits s[k], s[k + 1]. */
  function PairValue(s: string, k: nat): nat
    requires k + 1 < |s| && IsHexDigit(s[k]) && IsHexDigit(s[k + 1])
  {
    16 * DigitValue(s[k]) + DigitValue(s[k + 1])
  }

  /** Six hex digits from position k on, up to the end. */
  predicate SixDigits(s: string, k: nat) {
    |s| == k + 6 && forall i :: k <= i < |s| ==> IsHexDigit(s[i])
  }

  /** What the regular expression of hexToRgb accepts: an optional '#'
      then exactly six hex digits of either case. */
  predicate IsHexColour(s: string) {
    SixDigits(s, 0) || (|s| > 0 && s[0] == '#' && SixDigits(s, 1))
  }

  /** hexToRgb: the three digit pairs as numbers, or null. */
  function HexToRgb(s: string): (c: Option<Rgb>)
    ensures c.Some? <==> IsHexColour(s)
    ensures c.Some? ==> c.value.r < 256 && c.value.g < 256 && c.value.b < 256
  {
    if SixDigits(s, 0) then Some(Rgb(PairValue(s, 0), PairValue(s, 2), PairValue(s, 4)))
    else if |s| > 0 && s[0] == '#' && SixDigits(s, 1) then
      Some(Rgb(PairValue(s, 1), PairValue(s, 3), PairValue(s, 5)))
    else None
  }

  /** Lower-case hex digits for a value below 16. */
  function Digit(v: nat): (c: char)
    requires v < 16
    ensures IsHexDigit(c) && DigitValue(c) == v
  {
    if v < 10 then ('0' as int + v) as char else ('a' as int + v - 10) as char
  }

  /** Two lower-case digits for a byte. */
  function Pair(v: nat): (s: string)
    requires v < 256
    ensures |s| == 2 && IsHexDigit(s[0]) && IsHexDigit(s[1]) && PairValue(s, 0) == v
  {
    [Digit(v / 16), Digit(v % 16)]
  }

  /** The '#rrggbb' spelling of a colour: the inverse of hexToRgb. */
  function FormatHex(c: Rgb): string
    requires c.r < 256 && c.g < 256 && c.b < 256
  {
    "#" + Pair(c.r) + Pair(c.g) + Pair(c.b)
  }

  /** Every colour in range survives the round trip through its spelling. */
  lemma HexRoundTrip(c: Rgb)
    requires c.r < 256 && c.g < 256 && c.b < 256
    ensures HexToRgb(FormatHex(c)) == Some(c)
  {
    var s := FormatHex(c);
    assert s[1..3] == Pair(c.r) && s[3..5] == Pair(c.g) && s[5..7] == Pair(c.b);
    assert !SixDigits(s, 0) by {
      assert |s| == 7;
    }
    assert PairValue(s, 1) == PairValue(Pair(c.r), 0);
    assert PairValue(s, 3) == PairValue(Pair(c.g), 0);
    assert PairValue(s, 5) == PairValue(Pair(c.b), 0);
  }

  /** ASCII lower-casing, as toLowerCase does on hex colours. */
  function LowerChar(c: char): char {
    if 'A' <= c <= 'Z' then (c as int - 'A' as int + 'a' as int) as char else c
  }

  function Lower(s: string): (r: string)
    ensures |r| == |s| && forall i :: 0 <= i < |s| ==> r[i] == LowerChar(s[i])
  {
    seq(|s|, i requires 0 <= i < |s| => LowerChar(s[i]))
  }

  /** Lower-casing twice is lower-casing once. */
  lemma LowerIdempotent(s: string)
    ensures Lower(Lower(s)) == Lower(s)
  {
    assert forall i :: 0 <= i < |s| ==> LowerChar(LowerChar(s[i])) == LowerChar(s[i]);
  }

  /** hexToRgb ignores case: it parses the lower-cased key the same way. */
  lemma HexToRgbIgnoresCase(s: string)
    ensures HexToRgb(Lower(s)) == HexToRgb(s)
  {
    var l := Lower(s);
    forall i | 0 <= i < |s| ensures IsHexDigit(l[i]) <==> IsHexDigit(s[i]) {
    }
    forall i | 0 <= i < |s| && IsHexDigit(s[i]) ensures DigitValue(l[i]) == DigitValue(s[i]) {
    }
  }

  /** The six digits of a hex colour, without its '#'. */
  function Digits(s: string): (d: string)
    requires IsHexColour(s)
    ensures SixDigits(d, 0)
  {
    if SixDigits(s, 0) then s else s[1..]
  }

  /** A parsed colour is spelt by its formatted form with its digits
      lower-cased: the other direction of the round trip. */
  lemma HexToRgbFormats(s: string)
    requires IsHexColour(s)
    ensures FormatHex(HexToRgb(s).value) == "#" + Lower(Digits(s))
  {
    var d := Digits(s);
    var c := HexToRgb(s).value;
    assert c == Rgb(PairValue(d, 0), PairValue(d, 2), PairValue(d, 4));
    PairFormats(d, 0);
    PairFormats(d, 2);
    PairFormats(d, 4);
    LowerSix(d);
  }

  lemma LowerSix(d: string)
    requires |d| == 6
    ensures Lower(d) == [LowerChar(d[0]), LowerChar(d[1])] + [LowerChar(d[2]), LowerChar(d[3])] +
                        [LowerChar(d[4]), LowerChar(d[5])]
  {
  }

  /** Two hex digits come back lower-cased from Pair. */
  lemma PairFormats(d: string, k: nat)
    requires k + 1 < |d| && IsHexDigit(d[k]) && IsHexDigit(d[k + 1])
    ensures Pair(PairValue(d, k)) == [LowerChar(d[k]), LowerChar(d[k + 1])]
  {
    var v := PairValue(d, k);
    assert v / 16 == DigitValue(d[k]) && v % 16 == DigitValue(d[k + 1]);
    DigitLower(d[k]);
    DigitLower(d[k + 1]);
  }

  /** A hex digit lower-cased is the lower-case digit of its value. */
  lemma DigitLower(c: char)
    requires IsHexDigit(c)
    ensures Digit(DigitValue(c)) == LowerChar(c)
  {
  }

  // ---------------------------------------------------------------------
  // getSVGColor

  /** getSVGColor on the cache depths: the result and the new cache. The
      key is the lower-cased colour; a hit is returned as stored; a miss
      stores and returns the depth of the parsed colour. None is the
      exception a miss on a non-hex colour throws. The depth formula is
      the parameter depthOf. The cache holds only the entries stored in
      it, without the keys a plain object inherits. */
  function Lookup(depths: map<string, string>, colour: string, depthOf: Rgb -> string): (string, Option<string>, map<string, string>)
  {
    var key := Lower(colour);
    if key in depths then (key, Some(depths[key]), depths)
    else match HexToRgb(key)
      case None => (key, None, depths)
      case Some(c) => (key, Some(depthOf(c)), depths[key := depthOf(c)])
  }

  /** A hit changes nothing; a miss on a hex colour (in either case) adds
      exactly its lower-cased key; a miss on anything else fails and
      changes nothing. */
  lemma LookupSpec(depths: map<string, string>, colour: string, depthOf: Rgb -> string)
    ensures var (key, v, d) := Lookup(depths, colour, depthOf);
      key == Lower(colour) &&
      (key in depths ==> v == Some(depths[key]) && d == depths) &&
      (key !in depths && IsHexColour(colour) ==>
         v == Some(depthOf(HexToRgb(colour).value)) && d == depths[key := v.value]) &&
      (key !in depths && !IsHexColour(colour) ==> v.None? && d == depths)
  {
    HexToRgbIgnoresCase(colour);
  }

  /** A second call for the same colour returns what the first did and
      leaves the cache as the first left it. */
  lemma LookupRepeat(depths: map<string, string>, colour: string, depthOf: Rgb -> string)
    requires Lookup(depths, colour, depthOf).1.Some?
    ensures var (_, v, d) := Lookup(depths, colour, depthOf);
      Lookup(d, colour, depthOf).1 == v && Lookup(d, colour, depthOf).2 == d
  {
  }

  /** The case of the colour does not matter. */
  lemma LookupIgnoresCase(depths: map<string, string>, colour: string, depthOf: Rgb -> string)
    ensures Lookup(depths, Lower(colour), depthOf) == Lookup(depths, colour, depthOf)
  {
    LowerIdempotent(colour);
  }

  // ---------------------------------------------------------------------
  // setSVGColors

  /** No colour twice. */
  predicate Distinct(s: seq<string>) {
    forall i, j :: 0 <= i < j < |s| ==> s[i] != s[j]
  }

  /** svgColors.filter((x, i, a) => a.indexOf(x) == i): the first
      occurrence of each colour, in order. */
  function Dedup(s: seq<string>): (r: seq<string>)
    ensures forall x :: x in r <==> x in s
    ensures Distinct(r)
  {
    if |s| == 0 then []
    else
      var rest := Dedup(s[..|s| - 1]);
      var last := s[|s| - 1];
      assert forall x :: x in s <==> x in s[..|s| - 1] || x == last;
      if last in s[..|s| - 1] then rest else rest + [last]
  }

  /** The string order of sort: code by code, a prefix first. */
  predicate LexLeq(a: string, b: string) {
    |a| == 0 || (|b| > 0 && (a[0] < b[0] || (a[0] == b[0] && LexLeq(a[1..], b[1..]))))
  }

  lemma {:induction false} LexTotal(a: string, b: string)
    ensures LexLeq(a, b) || LexLeq(b, a)
  {
    if |a| > 0 && |b| > 0 && a[0] == b[0] {
      LexTotal(a[1..], b[1..]);
    }
  }

  predicate Sorted(s: seq<string>) {
    forall i :: 0 <= i < |s| - 1 ==> LexLeq(s[i], s[i + 1])
  }

  function Insert(x: string, s: seq<string>): (r: seq<string>)
    ensures multiset(r) == multiset(s) + multiset{x}
    ensures |r| > 0 && (r[0] == x || (|s| > 0 && r[0] == s[0]))
  {
    if |s| == 0 then [x]
    else if LexLeq(x, s[0]) then [x] + s
    else
      assert s == [s[0]] + s[1..];
      [s[0]] + Insert(x, s[1..])
  }

  lemma {:induction false} InsertSorted(x: string, s: seq<string>)
    requires Sorted(s)
    ensures Sorted(Insert(x, s))
  {
    if |s| > 0 && !LexLeq(x, s[0]) {
      LexTotal(x, s[0]);
      InsertSorted(x, s[1..]);
    }
  }

  /** sort(): an ordered permutation. */
  function Sort(s: seq<string>): (r: seq<string>)
    ensures multiset(r) == multiset(s)
  {
    if |s| == 0 then []
    else
      assert s == [s[0]] + s[1..];
      Insert(s[0], Sort(s[1..]))
  }

  lemma {:induction false} SortSorted(s: seq<string>)
    ensures Sorted(Sort(s))
  {
    if |s| > 0 {
      SortSorted(s[1..]);
      InsertSorted(s[0], Sort(s[1..]));
    }
  }

  lemma {:induction false} InsertDistinct(x: string, s: seq<string>)
    requires Distinct(s) && x !in s
    ensures Distinct(Insert(x, s))
  {
    if |s| > 0 && !LexLeq(x, s[0]) {
      InsertDistinct(x, s[1..]);
      var r := Insert(x, s[1..]);
      assert s[0] !in s[1..];
      assert s[0] !in multiset(r);
    }
  }

  lemma {:induction false} SortDistinct(s: seq<string>)
    requires Distinct(s)
    ensures Distinct(Sort(s))
  {
    if |s| > 0 {
      SortDistinct(s[1..]);
      assert s[0] !in s[1..];
      assert s[0] !in multiset(Sort(s[1..]));
      InsertDistinct(s[0], Sort(s[1..]));
    }
  }

  /** The list setSVGColors walks: each colour of the palette once, in
      sorted order. */
  lemma PaletteList(svgColors: seq<string>)
    ensures var list := Sort(Dedup(svgColors));
      Sorted(list) && Distinct(list) && forall x :: x in list <==> x in svgColors
  {
    var d := Dedup(svgColors);
    var list := Sort(d);
    SortSorted(d);
    SortDistinct(d);
    forall x ensures x in list <==> x in d {
      assert x in list <==> x in multiset(list);
    }
  }

  /** A table row of setSVGColors: its number, the colour and its depth;
      the HTML around them is not kept. */
  datatype Row = Row(index: nat, colour: string, depth: string)

  /** setSVGColors over the first n colours of the list: the rows and the
      cache, or None once a getSVGColor call has thrown. */
  function RowsUpTo(depths: map<string, string>, list: seq<string>, n: nat, depthOf: Rgb -> string)
    : (Option<seq<Row>>, map<string, string>)
    requires n <= |list|
  {
    if n == 0 then (Some([]), depths)
    else
      var (rows, d) := RowsUpTo(depths, list, n - 1, depthOf);
      if rows.None? || list[n - 1] == "" then (rows, d)
      else
        var (_, v, d2) := Lookup(d, list[n - 1], depthOf);
        if v.None? then (None, d2) else (Some(rows.value + [Row(n - 1, list[n - 1], v.value)]), d2)
  }

  /** One more colour of the list: skipped when empty, else looked up. */
  lemma RowsNext(depths: map<string, string>, list: seq<string>, i: nat, depthOf: Rgb -> string, acc: seq<Row>, d: map<string, string>)
    requires i < |list| && RowsUpTo(depths, list, i, depthOf) == (Some(acc), d)
    ensures RowsUpTo(depths, list, i + 1, depthOf) ==
      if list[i] == "" then (Some(acc), d)
      else var (_, v, d2) := Lookup(d, list[i], depthOf);
        if v.None? then (None, d2) else (Some(acc + [Row(i, list[i], v.value)]), d2)
  {
  }

  /** Once a call has thrown, nothing more happens. */
  lemma {:induction false} RowsAfterThrow(depths: map<string, string>, list: seq<string>, i: nat, n: nat, depthOf: Rgb -> string)
    requires i <= n <= |list| && RowsUpTo(depths, list, i, depthOf).0.None?
    ensures RowsUpTo(depths, list, n, depthOf) == RowsUpTo(depths, list, i, depthOf)
    decreases n - i
  {
    if i < n {
      RowsAfterThrow(depths, list, i, n - 1, depthOf);
    }
  }

  /** The non-empty colours of a list. */
  function NonEmpty(list: seq<string>): seq<string> {
    if |list| == 0 then []
    else NonEmpty(list[..|list| - 1]) + (if list[|list| - 1] == "" then [] else [list[|list| - 1]])
  }

  function ColoursOf(rows: seq<Row>): seq<string> {
    if |rows| == 0 then [] else ColoursOf(rows[..|rows| - 1]) + [rows[|rows| - 1].colour]
  }

  /** When no call throws, there is one row per non-empty colour, in list
      order. */
  lemma {:induction false} RowsColours(depths: map<string, string>, list: seq<string>, n: nat, depthOf: Rgb -> string)
    requires n <= |list| && RowsUpTo(depths, list, n, depthOf).0.Some?
    ensures ColoursOf(RowsUpTo(depths, list, n, depthOf).0.value) == NonEmpty(list[..n])
  {
    if n > 0 {
      assert list[..n][..n - 1] == list[..n - 1];
      RowsColours(depths, list, n - 1, depthOf);
      var rows := RowsUpTo(depths, list, n, depthOf).0.value;
      if list[n - 1] != "" {
        assert rows[..|rows| - 1] == RowsUpTo(depths, list, n - 1, depthOf).0.value;
      }
    }
  }

  /** Each row is numbered by the position of its colour in the list, the
      numbers increase, every row's colour is then a key of the cache
      holding the row's depth, and the cache only ever grows. */
  lemma {:induction false} RowsSpec(depths: map<string, string>, list: seq<string>, n: nat, depthOf: Rgb -> string)
    requires n <= |list| && RowsUpTo(depths, list, n, depthOf).0.Some?
    ensures var (rows, d) := RowsUpTo(depths, list, n, depthOf);
      (forall k :: 0 <= k < |rows.value| ==>
        rows.value[k].index < n && list[rows.value[k].index] == rows.value[k].colour &&
        Lower(rows.value[k].colour) in d && d[Lower(rows.value[k].colour)] == rows.value[k].depth) &&
      (forall k, l :: 0 <= k < l < |rows.value| ==> rows.value[k].index < rows.value[l].index) &&
      (forall key :: key in depths ==> key in d && d[key] == depths[key])
  {
    if n > 0 {
      RowsSpec(depths, list, n - 1, depthOf);
      var (rows, d) := RowsUpTo(depths, list, n - 1, depthOf);
      if list[n - 1] != "" {
        LookupGrows(d, list[n - 1], depthOf);
        var (_, v, d2) := Lookup(d, list[n - 1], depthOf);
        var row := Row(n - 1, list[n - 1], v.value);
        assert RowsUpTo(depths, list, n, depthOf) == (Some(rows.value + [row]), d2);
        RowsSnoc(list, n, rows.value, row, d, d2);
      } else {
        assert RowsUpTo(depths, list, n, depthOf) == (rows, d);
      }
    }
  }

  /** The row facts after one more row, numbered n - 1. */
  lemma RowsSnoc(list: seq<string>, n: nat, rows: seq<Row>, row: Row, d: map<string, string>, d2: map<string, string>)
    requires 0 < n <= |list| && row.index == n - 1 && row.colour == list[n - 1]
    requires Lower(row.colour) in d2 && d2[Lower(row.colour)] == row.depth
    requires forall key :: key in d ==> key in d2 && d2[key] == d[key]
    requires forall k :: 0 <= k < |rows| ==>
      rows[k].index < n - 1 && list[rows[k].index] == rows[k].colour &&
      Lower(rows[k].colour) in d && d[Lower(rows[k].colour)] == rows[k].depth
    requires forall k, l :: 0 <= k < l < |rows| ==> rows[k].index < rows[l].index
    ensures var rs := rows + [row];
      (forall k :: 0 <= k < |rs| ==>
        rs[k].index < n && list[rs[k].index] == rs[k].colour &&
        Lower(rs[k].colour) in d2 && d2[Lower(rs[k].colour)] == rs[k].depth) &&
      (forall k, l :: 0 <= k < l < |rs| ==> rs[k].index < rs[l].index)
  {
    var rs := rows + [row];
    assert forall k :: 0 <= k < |rows| ==> rs[k] == rows[k];
  }

  /** A lookup that answers leaves the key in the cache, holding the
      answer, and keeps every entry it had. */
  lemma LookupGrows(depths: map<string, string>, colour: string, depthOf: Rgb -> string)
    ensures var (key, v, d) := Lookup(depths, colour, depthOf);
      (v.Some? ==> Lower(colour) in d && d[Lower(colour)] == v.value) &&
      (forall k :: k in depths ==> k in d && d[k] == depths[k])
  {
  }

  /** setSVGColors never throws on a palette of hex colours and empty
      strings. */
  lemma {:induction false} RowsOfHexPalette(depths: map<string, string>, list: seq<string>, n: nat, depthOf: Rgb -> string)
    requires n <= |list| && forall k :: 0 <= k < |list| ==> list[k] == "" || IsHexColour(list[k])
    ensures RowsUpTo(depths, list, n, depthOf).0.Some?
  {
    if n > 0 {
      RowsOfHexPalette(depths, list, n - 1, depthOf);
      LookupSpec(RowsUpTo(depths, list, n - 1, depthOf).1, list[n - 1], depthOf);
    }
  }

  /** The colorDepths dictionary the worker shares between calls. */
  class ColourDepths {
    var depths: map<string, string>

    constructor (initial: map<string, string>)
      ensures depths == initial
    {
      depths := initial;
    }

    /** getSVGColor. */
    method GetSVGColor(colour: string, depthOf: Rgb -> string) returns (r: Option<string>)
      modifies this`depths
      ensures var (_, v, d) := Lookup(old(depths), colour, depthOf); r == v && depths == d
    {
      var key := Lower(colour);
      if key in depths {
        return Some(depths[key]);
      }
      var rgb := HexToRgb(key);
      if rgb.None? {
        return None;
      }
      var val := depthOf(rgb.value);
      depths := depths[key := val];
      return Some(val);
    }

    /** setSVGColors: the rows for the deduplicated, sorted palette,
        skipping the empty colour; None when a getSVGColor call throws,
        with the cache as that call left it. */
    method SetSVGColors(svgColors: seq<string>, depthOf: Rgb -> string) returns (rows: Option<seq<Row>>)
      modifies this`depths
      ensures (rows, depths) == RowsUpTo(old(depths), Sort(Dedup(svgColors)), |Sort(Dedup(svgColors))|, depthOf)
    {
      var list := Sort(Dedup(svgColors));
      rows := SetRows(list, depthOf);
    }

    /** The loop of setSVGColors over the sorted palette list. */
    method SetRows(list: seq<string>, depthOf: Rgb -> string) returns (rows: Option<seq<Row>>)
      modifies this`depths
      ensures (rows, depths) == RowsUpTo(old(depths), list, |list|, depthOf)
    {
      ghost var d0 := depths;
      var acc: seq<Row> := [];
      var i := 0;
      while i < |list|
        invariant 0 <= i <= |list|
        invariant RowsUpTo(d0, list, i, depthOf) == (Some(acc), depths)
      {
        var next := SetRow(d0, list, i, depthOf, acc);
        if next.None? {
          RowsAfterThrow(d0, list, i + 1, |list|, depthOf);
          return None;
        }
        acc := next.value;
        i := i + 1;
      }
      return Some(acc);
    }

    /** The body of the row loop for colour i: skipped when empty, else
        looked up, with None when the lookup throws. */
    method SetRow(ghost d0: map<string, string>, list: seq<string>, i: nat, depthOf: Rgb -> string, acc: seq<Row>)
      returns (next: Option<seq<Row>>)
      modifies this`depths
      requires i < |list| && RowsUpTo(d0, list, i, depthOf) == (Some(acc), depths)
      ensures RowsUpTo(d0, list, i + 1, depthOf) == (next, depths)
    {
      RowsNext(d0, list, i, depthOf, acc, depths);
      next := Some(acc);
      if list[i] != "" {
        var value := GetSVGColor(list[i], depthOf);
        if value.None? {
          return None;
        }
        next := Some(acc + [Row(i, list[i], value.value)]);
      }
    }
  }
}
