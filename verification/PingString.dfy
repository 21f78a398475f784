// membershipchainservice/blscosiservice.go: the string of the ping distances
// that getHashPings hashes.

module PingString {

  type Row = map<string, real>
  type PingDistances = map<string, Row>

  // The order of sort.Strings.
  predicate Below(a: string, b: string) {
    b != [] && (a == [] || a[0] < b[0] || (a[0] == b[0] && Below(a[1..], b[1..])))
  }

  lemma {:induction false} BelowTotal(a: string, b: string)
    ensures a == b || Below(a, b) || Below(b, a)
    ensures !(Below(a, b) && Below(b, a)) && !Below(a, a)
  {
    if a != [] && b != [] {
      BelowTotal(a[1..], b[1..]);
      assert a == [a[0]] + a[1..] && b == [b[0]] + b[1..];
    }
    if a != [] {
      BelowTotal(a[1..], a[1..]);
    }
  }

  // The first difference decides, and a proper prefix comes first.
  ghost predicate DiffersAt(a: string, b: string, n: nat) {
    && n <= |a| && n < |b| && (n == |a| || a[n] < b[n])
    && forall i :: 0 <= i < n ==> a[i] == b[i]
  }

  lemma {:induction false} BelowIsLexicographic(a: string, b: string)
    ensures Below(a, b) <==> exists n: nat :: DiffersAt(a, b, n)
  {
    if a == [] || b == [] || a[0] != b[0] {
      assert b != [] && Below(a, b) ==> DiffersAt(a, b, 0);
    } else {
      BelowIsLexicographic(a[1..], b[1..]);
      if n: nat :| DiffersAt(a[1..], b[1..], n) {
        assert a == [a[0]] + a[1..] && b == [b[0]] + b[1..];
        assert DiffersAt(a, b, n + 1);
      }
      if n: nat :| DiffersAt(a, b, n) {
        assert DiffersAt(a[1..], b[1..], n - 1);
      }
    }
  }

  lemma {:induction false} BelowTransitive(a: string, b: string, c: string)
    requires Below(a, b) && Below(b, c)
    ensures Below(a, c)
  {
    if a != [] && a[0] == b[0] == c[0] {
      BelowTransitive(a[1..], b[1..], c[1..]);
    }
  }

  ghost predicate Ascending(keys: seq<string>) {
    forall i, j :: 0 <= i < j < |keys| ==> Below(keys[i], keys[j])
  }

  ghost predicate Lists(keys: seq<string>, s: set<string>) {
    Ascending(keys) && forall x :: x in s <==> x in keys
  }

  function Insert(x: string, keys: seq<string>): seq<string> {
    if keys == [] then [x]
    else if Below(x, keys[0]) then [x] + keys
    else [keys[0]] + Insert(x, keys[1..])
  }

  lemma {:induction false} InsertAscends(x: string, keys: seq<string>)
    requires Ascending(keys) && x !in keys
    ensures Ascending(Insert(x, keys)) && forall y :: y in Insert(x, keys) <==> y == x || y in keys
  {
    if keys != [] {
      assert keys == [keys[0]] + keys[1..];
      BelowTotal(x, keys[0]);
      if Below(x, keys[0]) {
        forall j | 0 <= j < |keys|
          ensures Below(x, keys[j])
        {
          if j > 0 {
            BelowTransitive(x, keys[0], keys[j]);
          }
        }
      } else {
        InsertAscends(x, keys[1..]);
        var rest := Insert(x, keys[1..]);
        forall j | 0 <= j < |rest|
          ensures Below(keys[0], rest[j])
        {
          assert rest[j] in rest;
          if rest[j] != x {
            var i :| 0 <= i < |keys[1..]| && keys[1..][i] == rest[j];
          }
        }
      }
    }
  }

  // A set has one ascending listing.
  lemma {:induction false} ListingUnique(keys: seq<string>, keys': seq<string>, s: set<string>)
    requires Lists(keys, s) && Lists(keys', s)
    ensures keys == keys'
    decreases |keys|
  {
    EmptyListing(keys, s);
    EmptyListing(keys', s);
    if keys != [] {
      assert keys[0] in s && keys'[0] in s;
      FirstIsLeast(keys, keys'[0]);
      FirstIsLeast(keys', keys[0]);
      BelowTotal(keys[0], keys'[0]);
      RestLists(keys, s);
      RestLists(keys', s);
      ListingUnique(keys[1..], keys'[1..], s - {keys[0]});
      assert keys == [keys[0]] + keys[1..] && keys' == [keys'[0]] + keys'[1..];
    }
  }

  lemma EmptyListing(keys: seq<string>, s: set<string>)
    requires Lists(keys, s)
    ensures keys == [] <==> s == {}
  {
    assert keys != [] ==> keys[0] in s;
  }

  lemma FirstIsLeast(keys: seq<string>, x: string)
    requires Ascending(keys) && x in keys
    ensures x == keys[0] || Below(keys[0], x)
  {
  }

  lemma RestLists(keys: seq<string>, s: set<string>)
    requires Lists(keys, s) && keys != []
    ensures Lists(keys[1..], s - {keys[0]})
  {
    BelowTotal(keys[0], keys[0]);
    assert keys == [keys[0]] + keys[1..];
    forall x
      ensures x in s - {keys[0]} <==> x in keys[1..]
    {
      if x in keys[1..] {
        var i :| 0 <= i < |keys[1..]| && keys[1..][i] == x;
        assert Below(keys[0], keys[i + 1]);
      }
    }
  }

  // The ascending listing of a set.
  ghost function Listing(s: set<string>): (keys: seq<string>)
    ensures Lists(keys, s)
  {
    if s == {} then []
    else
      var k :| k in s;
      InsertAscends(k, Listing(s - {k}));
      Insert(k, Listing(s - {k}))
  }

  // The keys of a map come in any order; sorted, they are its one listing.
  method SortedKeys(s: set<string>) returns (keys: seq<string>)
    ensures keys == Listing(s)
  {
    keys := [];
    var rest := s;
    while rest != {}
      invariant rest <= s && Lists(keys, s - rest)
      decreases rest
    {
      var k :| k in rest;
      InsertAscends(k, keys);
      keys := Insert(k, keys);
      rest := rest - {k};
    }
    assert s - rest == s;
    ListingUnique(keys, Listing(s), s);
  }

  function Digit(d: nat): char
    requires d < 10
  {
    "0123456789"[d]
  }

  function Digits(n: nat): string {
    if n < 10 then [Digit(n)] else Digits(n / 10) + [Digit(n % 10)]
  }

  // Nearest hundredths, as the verb %.2f prints a number that is not negative.
  function Hundredths(x: real): nat
    requires x >= 0.0
  {
    (x * 100.0 + 0.5).Floor
  }

  // What is printed of a number: whether there is a sign, and the hundredths.
  function Printed(x: real): (bool, nat) {
    (x < 0.0, Hundredths(if x < 0.0 then -x else x))
  }

  function Unsigned(h: nat): string {
    Digits(h / 100) + "." + [Digit(h % 100 / 10), Digit(h % 10)]
  }

  function Format(x: real): string {
    (if Printed(x).0 then "-" else "") + Unsigned(Printed(x).1)
  }

  // A numeral of decimal digits, read.
  function DigitValue(c: char): int {
    c as int - '0' as int
  }

  function NumeralValue(s: string): int {
    if s == [] then 0 else 10 * NumeralValue(s[..|s| - 1]) + DigitValue(s[|s| - 1])
  }

  lemma {:induction false} DigitsRead(n: nat)
    ensures NumeralValue(Digits(n)) == n
  {
    if n >= 10 {
      DigitsRead(n / 10);
      assert Digits(n)[..|Digits(n)| - 1] == Digits(n / 10);
    }
  }

  // A number with two decimals, read: an optional sign, the whole units, a point and
  // two more digits.
  ghost predicate IsDecimal(s: string, negative: bool, whole: string, p: char, q: char) {
    && s == (if negative then "-" else "") + whole + "." + [p, q] && whole != []
    && forall c :: c in whole + [p, q] ==> '0' <= c <= '9'
  }

  function DecimalValue(negative: bool, whole: string, p: char, q: char): real {
    var size := NumeralValue(whole) as real + DigitValue(p) as real / 10.0 + DigitValue(q) as real / 100.0;
    if negative then -size else size
  }

  // The size of x is nearest to h hundredths, and half a hundredth goes up.
  ghost predicate RoundsTo(x: real, h: nat) {
    h as real - 0.5 <= 100.0 * Size(x) < h as real + 0.5
  }

  function Size(x: real): real {
    if x < 0.0 then -x else x
  }

  lemma HundredthsRound(x: real)
    ensures RoundsTo(x, Printed(x).1) && forall h: nat :: RoundsTo(x, h) ==> h == Printed(x).1
  {
    forall h: nat | RoundsTo(x, h)
      ensures h == Printed(x).1
    {
      assert (Size(x) * 100.0 + 0.5).Floor == h;
    }
  }

  lemma UnsignedReads(h: nat) returns (whole: string, p: char, q: char)
    ensures Unsigned(h) == whole + "." + [p, q] && whole != []
    ensures forall c :: c in whole + [p, q] ==> '0' <= c <= '9'
    ensures 100 * NumeralValue(whole) + 10 * DigitValue(p) + DigitValue(q) == h
  {
    whole, p, q := Digits(h / 100), Digit(h % 100 / 10), Digit(h % 10);
    DigitsAreDigits(h / 100);
    DigitsRead(h / 100);
    DigitRead(h % 100 / 10);
    DigitRead(h % 10);
    DigitsSplit(h);
  }

  lemma DigitRead(d: nat)
    requires d < 10
    ensures '0' <= Digit(d) <= '9' && DigitValue(Digit(d)) == d
  {
  }

  lemma DigitsSplit(h: nat)
    ensures 100 * (h / 100) + 10 * (h % 100 / 10) + h % 10 == h
  {
  }

  // What is printed of a number reads as a decimal that is nearest to it.
  lemma FormatReads(x: real) returns (whole: string, p: char, q: char)
    ensures IsDecimal(Format(x), x < 0.0, whole, p, q)
    ensures -0.005 <= DecimalValue(x < 0.0, whole, p, q) - x <= 0.005
    ensures RoundsTo(x, 100 * NumeralValue(whole) + 10 * DigitValue(p) + DigitValue(q))
  {
    var h := Printed(x).1;
    whole, p, q := UnsignedReads(h);
    HundredthsRound(x);
    assert "-" + (whole + "." + [p, q]) == "-" + whole + "." + [p, q];
    assert "" + (whole + "." + [p, q]) == "" + whole + "." + [p, q];
  }

  // No delimiter inside a name, as far as it matters for reading the text.
  ghost predicate CleanRow(row: Row) {
    forall k :: k in row ==> '-' !in k
  }

  ghost predicate CleanPings(m: PingDistances) {
    forall k :: k in m ==> ':' !in k && CleanRow(m[k])
  }

  function RowText(row: Row, keys: seq<string>): string
    requires forall k :: k in keys ==> k in row
  {
    if keys == [] then "]"
    else " " + keys[0] + "-" + Format(row[keys[0]]) + ", " + RowText(row, keys[1..])
  }

  ghost function Text(m: PingDistances, keys: seq<string>): string
    requires forall k :: k in keys ==> k in m
  {
    if keys == [] then "]"
    else keys[0] + ":[" + RowText(m[keys[0]], Listing(m[keys[0]].Keys)) + Text(m, keys[1..])
  }

  // The string that is hashed.
  ghost function Canonical(m: PingDistances): string {
    "map[" + Text(m, Listing(m.Keys))
  }

  // One step of the loop over the keys of a row.
  lemma RowStep(row: Row, keys: seq<string>, i: nat, before: string)
    requires i < |keys| && forall k :: k in keys ==> k in row
    ensures before + RowText(row, keys[i..]) ==
            before + " " + keys[i] + "-" + Format(row[keys[i]]) + ", " + RowText(row, keys[i + 1..])
  {
    assert keys[i..][1..] == keys[i + 1..];
    var cell, rest := Format(row[keys[i]]), RowText(row, keys[i + 1..]);
    assert RowText(row, keys[i..]) == " " + keys[i] + "-" + cell + ", " + rest;
    assert before + (" " + keys[i] + "-" + cell + ", " + rest) == before + " " + keys[i] + "-" + cell + ", " + rest;
  }

  method AppendRow(start: string, row: Row) returns (str: string)
    ensures str == start + RowText(row, Listing(row.Keys))
  {
    str := start;
    var subkeys := SortedKeys(row.Keys);
    assert subkeys[0..] == subkeys;
    for i := 0 to |subkeys|
      invariant str + RowText(row, subkeys[i..]) == start + RowText(row, subkeys)
    {
      var sk := subkeys[i];
      RowStep(row, subkeys, i, str);
      str := str + " " + sk + "-";
      str := str + Format(row[sk]) + ", ";
    }
    str := str + "]";
  }

  // One step of the loop over the rows.
  lemma TextStep(m: PingDistances, keys: seq<string>, i: nat, before: string)
    requires i < |keys| && forall k :: k in keys ==> k in m
    ensures before + Text(m, keys[i..]) ==
            before + keys[i] + ":[" + RowText(m[keys[i]], Listing(m[keys[i]].Keys)) + Text(m, keys[i + 1..])
  {
    assert keys[i..][1..] == keys[i + 1..];
    var row, rest := RowText(m[keys[i]], Listing(m[keys[i]].Keys)), Text(m, keys[i + 1..]);
    assert Text(m, keys[i..]) == keys[i] + ":[" + row + rest;
    assert before + (keys[i] + ":[" + row + rest) == before + keys[i] + ":[" + row + rest;
  }

  // For any order in which the keys of the maps come.
  method GetHashPings(pingDistances: PingDistances) returns (str: string)
    ensures str == Canonical(pingDistances)
  {
    str := "map[";
    var keys := SortedKeys(pingDistances.Keys);
    assert keys[0..] == keys;
    for i := 0 to |keys|
      invariant str + Text(pingDistances, keys[i..]) == "map[" + Text(pingDistances, keys)
    {
      var k := keys[i];
      TextStep(pingDistances, keys, i, str);
      str := str + k + ":[";
      str := AppendRow(str, pingDistances[k]);
    }
    str := str + "]";
  }

  // Two texts that end a clean name with the same delimiter have the same name.
  lemma SplitAt(a: string, b: string, c: char, x: string, y: string)
    requires c !in a && c !in b && a + [c] + x == b + [c] + y
    ensures a == b && x == y
  {
    var s := a + [c] + x;
    assert s[|a|] == c && s[|b|] == c;
    assert |a| == |b|;
    assert a == s[..|a|] && b == s[..|b|];
    assert x == s[|a| + 1..] && y == s[|b| + 1..];
  }

  lemma {:induction false} DigitsAreDigits(n: nat)
    ensures |Digits(n)| >= 1 && (n >= 10 ==> |Digits(n)| >= 2)
    ensures forall c :: c in Digits(n) ==> '0' <= c <= '9'
  {
    assert forall d: nat :: d < 10 ==> '0' <= Digit(d) <= '9';
    if n >= 10 {
      DigitsAreDigits(n / 10);
    }
  }

  lemma {:induction false} DigitsInjective(n: nat, n': nat)
    requires Digits(n) == Digits(n')
    ensures n == n'
  {
    DigitsAreDigits(n);
    DigitsAreDigits(n');
    var s := Digits(n);
    var last := s[|s| - 1];
    assert last == Digit(n % 10) && last == Digit(n' % 10);
    DigitInjective(n % 10, n' % 10);
    if n >= 10 {
      assert s[..|s| - 1] == Digits(n / 10) && s[..|s| - 1] == Digits(n' / 10);
      DigitsInjective(n / 10, n' / 10);
    }
  }

  lemma DigitInjective(d: nat, e: nat)
    requires d < 10 && e < 10 && Digit(d) == Digit(e)
    ensures d == e
  {
  }

  // Two decimals after a point, read back.
  lemma CentsReadBack(a: string, b: string, p: char, q: char, p': char, q': char)
    requires a + "." + [p, q] == b + "." + [p', q']
    ensures a == b && p == p' && q == q'
  {
    var s := a + "." + [p, q];
    assert |a| == |b| && a == s[..|a|] && b == s[..|b|];
    assert s[|a| + 1] == p && s[|b| + 1] == p';
    assert s[|a| + 2] == q && s[|b| + 2] == q';
  }

  lemma DigitsDetermine(h: nat, k: nat)
    requires h / 100 == k / 100 && h % 100 / 10 == k % 100 / 10 && h % 10 == k % 10
    ensures h == k
  {
  }

  lemma NoComma(x: real)
    ensures ',' !in Format(x)
  {
    DigitsAreDigits(Printed(x).1 / 100);
  }

  lemma UnsignedInjective(h: nat, k: nat)
    requires Unsigned(h) == Unsigned(k)
    ensures h == k
  {
    CentsReadBack(Digits(h / 100), Digits(k / 100), Digit(h % 100 / 10), Digit(h % 10), Digit(k % 100 / 10),
            Digit(k % 10));
    DigitInjective(h % 100 / 10, k % 100 / 10);
    DigitInjective(h % 10, k % 10);
    DigitsInjective(h / 100, k / 100);
    DigitsDetermine(h, k);
  }

  lemma SignShows(x: real)
    ensures Format(x) != [] && (Format(x)[0] == '-' <==> x < 0.0)
    ensures Unsigned(Printed(x).1) == if x < 0.0 then Format(x)[1..] else Format(x)
  {
    var whole, number := Digits(Printed(x).1 / 100), Unsigned(Printed(x).1);
    DigitsAreDigits(Printed(x).1 / 100);
    assert whole[0] in whole && number[0] == whole[0];
    if x < 0.0 {
      assert ("-" + number)[1..] == number;
    } else {
      assert "" + number == number;
    }
  }

  // A printed number determines its sign and its hundredths.
  lemma FormatInjective(x: real, y: real)
    ensures Format(x) == Format(y) <==> Printed(x) == Printed(y)
  {
    if Format(x) == Format(y) {
      SignShows(x);
      SignShows(y);
      UnsignedInjective(Printed(x).1, Printed(y).1);
    }
  }

  ghost predicate SameRow(row: Row, row': Row) {
    row.Keys == row'.Keys && forall k :: k in row ==> Printed(row[k]) == Printed(row'[k])
  }

  // The same names, and distances that print the same to two decimals.
  ghost predicate SamePings(m: PingDistances, m': PingDistances) {
    m.Keys == m'.Keys && forall k :: k in m ==> SameRow(m[k], m'[k])
  }

  ghost predicate Agree(row: Row, row': Row, keys: seq<string>) {
    forall k :: k in keys ==> k in row && k in row' && Printed(row[k]) == Printed(row'[k])
  }

  lemma {:induction false} AgreeingRows(row: Row, row': Row, keys: seq<string>)
    requires Agree(row, row', keys)
    ensures RowText(row, keys) == RowText(row', keys)
  {
    if keys != [] {
      FormatInjective(row[keys[0]], row'[keys[0]]);
      assert forall k :: k in keys[1..] ==> k in keys;
      AgreeingRows(row, row', keys[1..]);
    }
  }

  // A cell of a row, with what follows it.
  function Cell(k: string, v: string, rest: string): string {
    [' '] + (k + ['-'] + (v + [','] + ([' '] + rest)))
  }

  lemma RowBegins(row: Row, keys: seq<string>, x: string)
    requires forall k :: k in keys ==> k in row
    ensures RowText(row, keys) + x ==
            if keys == [] then [']'] + x
            else Cell(keys[0], Format(row[keys[0]]), RowText(row, keys[1..]) + x)
  {
    if keys != [] {
      var k, v, rest := keys[0], Format(row[keys[0]]), RowText(row, keys[1..]);
      CellIs(k, v, rest, x);
    }
  }

  lemma CellIs(k: string, v: string, rest: string, x: string)
    ensures " " + k + "-" + v + ", " + rest + x == Cell(k, v, rest + x)
  {
    var tail := v + ", " + rest + x;
    assert tail == v + [','] + ([' '] + (rest + x));
    assert " " + k + "-" + v + ", " + rest + x == " " + k + "-" + tail;
    assert " " + k + "-" + tail == [' '] + (k + ['-'] + tail);
  }

  lemma CellReadsBack(k: string, v: string, rest: string, k': string, v': string, rest': string)
    requires '-' !in k && '-' !in k' && ',' !in v && ',' !in v'
    requires Cell(k, v, rest) == Cell(k', v', rest')
    ensures k == k' && v == v' && rest == rest'
  {
    var tail, tail' := v + [','] + ([' '] + rest), v' + [','] + ([' '] + rest');
    assert Cell(k, v, rest)[1..] == k + ['-'] + tail;
    assert Cell(k', v', rest')[1..] == k' + ['-'] + tail';
    SplitAt(k, k', '-', tail, tail');
    SplitAt(v, v', ',', [' '] + rest, [' '] + rest');
    assert ([' '] + rest)[1..] == rest && ([' '] + rest')[1..] == rest';
  }

  // A row can be read back from its text, whatever follows it.
  lemma {:induction false} RowReadsBack(row: Row, keys: seq<string>, row': Row, keys': seq<string>, x: string,
          y: string)
    requires CleanRow(row) && CleanRow(row')
    requires (forall k :: k in keys ==> k in row) && (forall k :: k in keys' ==> k in row')
    requires RowText(row, keys) + x == RowText(row', keys') + y
    ensures keys == keys' && Agree(row, row', keys) && x == y
    decreases |keys|
  {
    RowBegins(row, keys, x);
    RowBegins(row', keys', y);
    if keys == [] || keys' == [] {
      var s := RowText(row, keys) + x;
      assert (s[0] == ']' <==> keys == []) && (s[0] == ']' <==> keys' == []);
      assert ([']'] + x)[1..] == x && ([']'] + y)[1..] == y;
    } else {
      RowCellsAgree(row, keys, row', keys', x, y);
      RowReadsBack(row, keys[1..], row', keys'[1..], x, y);
      assert keys == [keys[0]] + keys[1..] && keys' == [keys'[0]] + keys'[1..];
    }
  }

  lemma RowCellsAgree(row: Row, keys: seq<string>, row': Row, keys': seq<string>, x: string, y: string)
    requires CleanRow(row) && CleanRow(row') && keys != [] && keys' != []
    requires (forall k :: k in keys ==> k in row) && (forall k :: k in keys' ==> k in row')
    requires RowText(row, keys) + x == RowText(row', keys') + y
    ensures keys[0] == keys'[0] && Printed(row[keys[0]]) == Printed(row'[keys'[0]])
    ensures RowText(row, keys[1..]) + x == RowText(row', keys'[1..]) + y
  {
    var k, k' := keys[0], keys'[0];
    RowBegins(row, keys, x);
    RowBegins(row', keys', y);
    NoComma(row[k]);
    NoComma(row'[k']);
    CellReadsBack(k, Format(row[k]), RowText(row, keys[1..]) + x, k', Format(row'[k']), RowText(row', keys'[1..]) + y);
    FormatInjective(row[k], row'[k']);
  }

  ghost predicate AgreeAll(m: PingDistances, m': PingDistances, keys: seq<string>) {
    forall k :: k in keys ==> k in m && k in m' && SameRow(m[k], m'[k])
  }

  lemma SameRowSameText(row: Row, row': Row)
    requires SameRow(row, row')
    ensures RowText(row, Listing(row.Keys)) == RowText(row', Listing(row'.Keys))
  {
    AgreeingRows(row, row', Listing(row.Keys));
  }

  lemma {:induction false} AgreeingTexts(m: PingDistances, m': PingDistances, keys: seq<string>)
    requires AgreeAll(m, m', keys)
    ensures Text(m, keys) == Text(m', keys)
  {
    if keys != [] {
      assert keys[0] in keys;
      SameRowSameText(m[keys[0]], m'[keys[0]]);
      assert forall k :: k in keys[1..] ==> k in keys;
      AgreeingTexts(m, m', keys[1..]);
    }
  }

  // The first row of a text, read back.
  lemma TextRowsAgree(m: PingDistances, keys: seq<string>, m': PingDistances, keys': seq<string>)
    requires CleanPings(m) && CleanPings(m') && keys != [] && keys' != []
    requires (forall k :: k in keys ==> k in m) && (forall k :: k in keys' ==> k in m')
    requires Text(m, keys) == Text(m', keys')
    ensures keys[0] == keys'[0] && SameRow(m[keys[0]], m'[keys'[0]])
    ensures Text(m, keys[1..]) == Text(m', keys'[1..])
  {
    var k, k' := keys[0], keys'[0];
    var row, row' := m[k], m'[k'];
    var sks, sks' := Listing(row.Keys), Listing(row'.Keys);
    var rest, rest' := Text(m, keys[1..]), Text(m', keys'[1..]);
    var tail, tail' := RowText(row, sks) + rest, RowText(row', sks') + rest';
    RowOpens(k, RowText(row, sks), rest);
    RowOpens(k', RowText(row', sks'), rest');
    SplitAt(k, k', ':', ['['] + tail, ['['] + tail');
    assert (['['] + tail)[1..] == tail && (['['] + tail')[1..] == tail';
    RowReadsBack(row, sks, row', sks', rest, rest');
    assert forall x :: x in row.Keys <==> x in sks;
    assert forall x :: x in row'.Keys <==> x in sks';
  }

  lemma RowOpens(k: string, body: string, rest: string)
    ensures k + ":[" + body + rest == k + [':'] + (['['] + (body + rest))
  {
  }

  lemma {:induction false} TextReadsBack(m: PingDistances, keys: seq<string>, m': PingDistances, keys': seq<string>)
    requires CleanPings(m) && CleanPings(m')
    requires (forall k :: k in keys ==> k in m) && (forall k :: k in keys' ==> k in m')
    requires Text(m, keys) == Text(m', keys')
    ensures keys == keys' && AgreeAll(m, m', keys)
    decreases |keys|
  {
    NotAnEnd(m, keys);
    NotAnEnd(m', keys');
    if keys != [] && keys' != [] {
      TextRowsAgree(m, keys, m', keys');
      TextReadsBack(m, keys[1..], m', keys'[1..]);
      assert keys == [keys[0]] + keys[1..] && keys' == [keys'[0]] + keys'[1..];
    }
  }

  // A text with rows left is longer than the closing bracket.
  lemma NotAnEnd(m: PingDistances, keys: seq<string>)
    requires forall k :: k in keys ==> k in m
    ensures |Text(m, keys)| == 1 <==> keys == []
  {
    if keys != [] {
      assert |keys[0] + ":["| >= 2;
    }
  }

  lemma SameStringOnly(m: PingDistances, m': PingDistances)
    requires CleanPings(m) && CleanPings(m') && Canonical(m) == Canonical(m')
    ensures SamePings(m, m')
  {
    var keys, keys' := Listing(m.Keys), Listing(m'.Keys);
    assert Text(m, keys) == Canonical(m)[4..] && Text(m', keys') == Canonical(m')[4..];
    TextReadsBack(m, keys, m', keys');
    assert forall x :: x in m.Keys <==> x in keys;
    assert forall x :: x in m'.Keys <==> x in keys';
  }

  // Two nested maps give the same string exactly when they have the same names
  // and all their distances print the same to two decimals.
  lemma SameStringSamePings(m: PingDistances, m': PingDistances)
    requires CleanPings(m) && CleanPings(m')
    ensures Canonical(m) == Canonical(m') <==> SamePings(m, m')
  {
    if SamePings(m, m') {
      AgreeingTexts(m, m', Listing(m.Keys));
    }
    if Canonical(m) == Canonical(m') {
      SameStringOnly(m, m');
    }
  }

  // The same sign, and the same nearest hundredth.
  ghost predicate RoundAlike(x: real, y: real) {
    (x < 0.0 <==> y < 0.0) && exists h: nat :: RoundsTo(x, h) && RoundsTo(y, h)
  }

  lemma PrintedAlike(x: real, y: real)
    ensures Printed(x) == Printed(y) <==> RoundAlike(x, y)
    ensures RoundAlike(x, y) ==> -0.01 < x - y < 0.01
  {
    HundredthsRound(x);
    HundredthsRound(y);
  }

  ghost predicate Alike(m: PingDistances, m': PingDistances) {
    && m.Keys == m'.Keys
    && forall k :: k in m ==> m[k].Keys == m'[k].Keys && forall j :: j in m[k] ==> RoundAlike(m[k][j], m'[k][j])
  }

  // In terms of the numbers: two maps give the same string exactly when they have
  // the same names and every two entries have the same sign and nearest hundredth.
  lemma SameStringAlike(m: PingDistances, m': PingDistances)
    requires CleanPings(m) && CleanPings(m')
    ensures Canonical(m) == Canonical(m') <==> Alike(m, m')
  {
    SameStringSamePings(m, m');
    forall k, j | k in m && k in m' && j in m[k] && j in m'[k]
      ensures Printed(m[k][j]) == Printed(m'[k][j]) <==> RoundAlike(m[k][j], m'[k][j])
    {
      PrintedAlike(m[k][j], m'[k][j]);
    }
  }

  // So entries a hundredth or more apart always give different strings.
  lemma SameStringNear(m: PingDistances, m': PingDistances, k: string, j: string)
    requires CleanPings(m) && CleanPings(m') && Canonical(m) == Canonical(m') && k in m && j in m[k]
    ensures k in m' && j in m'[k] && -0.01 < m[k][j] - m'[k][j] < 0.01
  {
    SameStringAlike(m, m');
    PrintedAlike(m[k][j], m'[k][j]);
  }

  // The string of a single distance, to the letter.
  lemma SingleEntry(m: PingDistances, k: string, j: string, x: real)
    requires m == map[k := map[j := x]]
    ensures Canonical(m) == "map[" + (k + ":[" + (" " + j + "-" + Format(x) + ", " + "]") + "]")
  {
    assert m.Keys == {k} && m[k].Keys == {j};
    ListingOfOne(k);
    ListingOfOne(j);
    assert [k][1..] == [] && [j][1..] == [];
    var row := m[k];
    assert RowText(row, []) == "]" && Text(m, []) == "]";
    assert RowText(row, [j]) == " " + j + "-" + Format(x) + ", " + "]";
    assert Text(m, [k]) == k + ":[" + RowText(row, [j]) + "]";
  }

  lemma OneCell(row: Row, k: string, keys: seq<string>)
    requires k in row && forall x :: x in keys ==> x in row
    ensures RowText(row, [k] + keys) == Cell(k, Format(row[k]), RowText(row, keys))
  {
    assert ([k] + keys)[1..] == keys;
    CellIs(k, Format(row[k]), RowText(row, keys), "");
    assert RowText(row, keys) + "" == RowText(row, keys);
    var s := " " + k + "-" + Format(row[k]) + ", " + RowText(row, keys);
    assert s + "" == s;
  }

  // Why the names in a row must be free of '-': two entries print like the single
  // entry whose name spells out the first of them ...
  lemma DashesCollide(a: string, b: string, x: real, y: real)
    requires Below(a, b)
    ensures var name := a + ['-'] + (Format(x) + [',', ' ', ' '] + b);
            var row: Row := map[a := x, b := y];
            var row': Row := map[name := y];
            && Lists([a, b], row.Keys) && Lists([name], row'.Keys) && |row| != |row'|
            && RowText(row, [a, b]) == RowText(row', [name])
  {
    var name := a + ['-'] + (Format(x) + [',', ' ', ' '] + b);
    var row: Row := map[a := x, b := y];
    var row': Row := map[name := y];
    BelowTotal(a, b);
    assert row.Keys == {a, b} && row'.Keys == {name};
    assert [a] + [b] == [a, b] && [b] + [] == [b] && [name] + [] == [name];
    OneCell(row, b, []);
    OneCell(row, a, [b]);
    OneCell(row', name, []);
    Regrouped(a, Format(x), b, Format(y));
  }

  // ... and why the names of rows must be free of ':': two rows without entries
  // print like one whose name spells out the first.
  lemma ColonsCollide(a: string, b: string, m: PingDistances, m': PingDistances)
    requires Below(a, b)
    requires m == map[a := map[], b := map[]] && m' == map[a + ":[]" + b := map[]]
    ensures m.Keys == {a, b} && m'.Keys == {a + ":[]" + b} && Canonical(m) == Canonical(m')
  {
    assert m.Keys == {a, b} && m'.Keys == {a + ":[]" + b};
    ListingOfTwo(a, b);
    ListingOfOne(a + ":[]" + b);
    RowsCollide(a, b, m, m');
  }

  lemma ListingOfTwo(a: string, b: string)
    requires Below(a, b)
    ensures Listing({a, b}) == [a, b]
  {
    BelowTotal(a, b);
    ListingUnique(Listing({a, b}), [a, b], {a, b});
  }

  lemma ListingOfOne(a: string)
    ensures Listing({a}) == [a]
  {
    ListingUnique(Listing({a}), [a], {a});
  }

  lemma RowsCollide(a: string, b: string, m: PingDistances, m': PingDistances)
    requires a in m && b in m && m[a] == map[] && m[b] == map[]
    requires a + ":[]" + b in m' && m'[a + ":[]" + b] == map[]
    ensures Text(m, [a, b]) == Text(m', [a + ":[]" + b])
  {
    var name := a + ":[]" + b;
    assert [a] + [b] == [a, b] && [b] + [] == [b] && [name] + [] == [name];
    EmptyRow(m, a, [b]);
    EmptyRow(m, b, []);
    EmptyRow(m', name, []);
    assert a + ":[]" + (b + ":[]" + "]") == name + ":[]" + "]";
  }

  lemma EmptyRow(m: PingDistances, k: string, keys: seq<string>)
    requires k in m && m[k] == map[] && forall x :: x in keys ==> x in m
    ensures Text(m, [k] + keys) == k + ":[]" + Text(m, keys)
  {
    assert ([k] + keys)[1..] == keys && Listing({}) == [];
    assert k + ":[" + "]" == k + ":[]";
  }

  lemma Regrouped(a: string, v: string, b: string, w: string)
    ensures Cell(a, v, Cell(b, w, "]")) == Cell(a + ['-'] + (v + [',', ' ', ' '] + b), w, "]")
  {
    var tail := ['-'] + (w + [','] + ([' '] + "]"));
    assert Cell(b, w, "]") == [' '] + (b + tail);
    assert Cell(a, v, Cell(b, w, "]")) == [' '] + (a + ['-'] + (v + [',', ' ', ' '] + (b + tail)));
    assert Cell(a + ['-'] + (v + [',', ' ', ' '] + b), w, "]") ==
      [' '] + (a + ['-'] + (v + [',', ' ', ' '] + b) + tail);
  }
}
