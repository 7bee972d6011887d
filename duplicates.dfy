/** `duplicados(df, column)`: the rows whose value in `column` is shared
    with at least one other row (`df.duplicated(column, keep=False)`),
    ordered by that column (`sort_values(by=column)`), or a fixed message
    when there are none. */
module Duplicates {
  import opened PyValues

  const NoDuplicatesMessage: string := "No se encontraron duplicados"

  /** What `duplicados` returns: the message string or a DataFrame. */
  datatype Outcome = Message(text: string) | Rows(table: Table)

  type Row = seq<Value>

  /** The cell of `row` in column `j` (every row of a well-formed table has one). */
  function KeyOf(row: Row, j: nat): Value {
    if j < |row| then row[j] else NoneVal
  }

  /** The key as `duplicated` groups rows: every missing value is the same
      key, and numbers are grouped by their value, as Python's `==` and
      `hash` treat them. */
  function GroupKey(row: Row, j: nat): Value {
    var v := KeyOf(row, j);
    if IsNull(v) then NoneVal
    else if IsNumber(v) then FloatVal(NumberValue(v))
    else v
  }

  /** Two keys fall in the same group of `duplicated`: both are missing, or
      both are numbers of equal value, or they are the same other value. */
  predicate SameKey(a: Value, b: Value) {
    || (IsNull(a) && IsNull(b))
    || (IsNumber(a) && IsNumber(b) && NumberValue(a) == NumberValue(b))
    || (!IsNull(a) && !IsNumber(a) && a == b)
  }

  /** Rows share a group key exactly when their keys are Python-equal (with
      missing values equal to each other). */
  lemma GroupKeySame(x: Row, y: Row, j: nat)
    ensures GroupKey(x, j) == GroupKey(y, j) <==> SameKey(KeyOf(x, j), KeyOf(y, j))
  {
  }

  // ---------------------------------------------------------------------
  // Counting rows per key
  // ---------------------------------------------------------------------

  /** The number of rows of `rows` whose group key is `k`. */
  function CountKey(rows: seq<Row>, j: nat, k: Value): nat {
    if rows == [] then 0
    else (if GroupKey(rows[0], j) == k then 1 else 0) + CountKey(rows[1..], j, k)
  }

  /** Some row of `rows` has group key `k`. */
  predicate Occurs(rows: seq<Row>, j: nat, k: Value) {
    exists m :: 0 <= m < |rows| && GroupKey(rows[m], j) == k
  }

  /** Row `i` shares its key with some other row of `rows`. */
  predicate HasTwin(rows: seq<Row>, j: nat, i: nat)
    requires i < |rows|
  {
    exists m :: 0 <= m < |rows| && m != i && GroupKey(rows[m], j) == GroupKey(rows[i], j)
  }

  /** No two rows of `rows` share a key. */
  predicate DistinctKeys(rows: seq<Row>, j: nat) {
    forall a, b :: 0 <= a < b < |rows| ==> GroupKey(rows[a], j) != GroupKey(rows[b], j)
  }

  lemma {:induction false} CountAppend(x: seq<Row>, y: seq<Row>, j: nat, k: Value)
    ensures CountKey(x + y, j, k) == CountKey(x, j, k) + CountKey(y, j, k)
  {
    if x == [] {
      assert x + y == y;
    } else {
      assert (x + y)[1..] == x[1..] + y;
      CountAppend(x[1..], y, j, k);
    }
  }

  lemma {:induction false} CountPositive(rows: seq<Row>, j: nat, k: Value)
    ensures CountKey(rows, j, k) > 0 <==> Occurs(rows, j, k)
  {
    if rows != [] {
      CountPositive(rows[1..], j, k);
      if Occurs(rows[1..], j, k) {
        var m :| 0 <= m < |rows[1..]| && GroupKey(rows[1..][m], j) == k;
        assert GroupKey(rows[m + 1], j) == k;
      }
      if Occurs(rows, j, k) && GroupKey(rows[0], j) != k {
        var m :| 0 <= m < |rows| && GroupKey(rows[m], j) == k;
        assert GroupKey(rows[1..][m - 1], j) == k;
      }
    }
  }

  /** Taking row `i` out of `rows` lowers the count of its key by one. */
  lemma CountWithout(rows: seq<Row>, j: nat, i: nat, k: Value)
    requires i < |rows|
    ensures CountKey(rows, j, k)
      == CountKey(rows[..i] + rows[i + 1..], j, k) + (if GroupKey(rows[i], j) == k then 1 else 0)
  {
    assert rows == rows[..i] + ([rows[i]] + rows[i + 1..]);
    CountAppend(rows[..i], [rows[i]] + rows[i + 1..], j, k);
    CountAppend([rows[i]], rows[i + 1..], j, k);
    CountAppend(rows[..i], rows[i + 1..], j, k);
  }

  /** A row's key is counted at least twice exactly when another row shares it:
      the count-based mask is `keep=False`. */
  lemma CountTwin(rows: seq<Row>, j: nat, i: nat)
    requires i < |rows|
    ensures CountKey(rows, j, GroupKey(rows[i], j)) >= 2 <==> HasTwin(rows, j, i)
  {
    var k := GroupKey(rows[i], j);
    var rest := rows[..i] + rows[i + 1..];
    CountWithout(rows, j, i, k);
    CountPositive(rest, j, k);
    assert forall m :: 0 <= m < i ==> rest[m] == rows[m];
    assert forall m :: i <= m < |rest| ==> rest[m] == rows[m + 1];
    if Occurs(rest, j, k) {
      var m :| 0 <= m < |rest| && GroupKey(rest[m], j) == k;
      var w := if m < i then m else m + 1;
      assert w != i && GroupKey(rows[w], j) == k;
    }
    if HasTwin(rows, j, i) {
      var w :| 0 <= w < |rows| && w != i && GroupKey(rows[w], j) == k;
      var m := if w < i then w else w - 1;
      assert GroupKey(rest[m], j) == k;
    }
  }

  /** Taking row `i` out of `y` takes one copy of it out of the multiset of rows. */
  lemma MultisetWithout(y: seq<Row>, i: nat)
    requires i < |y|
    ensures multiset(y) == multiset(y[..i] + y[i + 1..]) + multiset{y[i]}
  {
    assert y == y[..i] + [y[i]] + y[i + 1..];
    assert multiset(y[..i] + y[i + 1..]) == multiset(y[..i]) + multiset(y[i + 1..]);
  }

  /** Rows that are a permutation of each other have the same count for every key. */
  lemma {:induction false} CountPermutation(x: seq<Row>, y: seq<Row>, j: nat, k: Value)
    requires multiset(x) == multiset(y)
    ensures CountKey(x, j, k) == CountKey(y, j, k)
    decreases |x|
  {
    if x != [] {
      assert x[0] in multiset(y);
      var i :| 0 <= i < |y| && y[i] == x[0];
      var rest := y[..i] + y[i + 1..];
      MultisetWithout(y, i);
      assert x == [x[0]] + x[1..];
      assert multiset(x) == multiset(x[1..]) + multiset{x[0]};
      assert multiset(x[1..]) == multiset(rest) by {
        forall z ensures multiset(x[1..])[z] == multiset(rest)[z] {
          assert multiset(x)[z] == multiset(y)[z];
        }
      }
      CountPermutation(x[1..], rest, j, k);
      CountWithout(y, j, i, k);
    } else {
      assert y == [];
    }
  }

  // ---------------------------------------------------------------------
  // df.duplicated(column, keep=False) and df[mask]
  // ---------------------------------------------------------------------

  /** `df.duplicated(column, keep=False)`: row `i` is marked exactly when
      another row has the same key. */
  function DuplicatedMask(rows: seq<Row>, j: nat): (mask: seq<bool>)
    ensures |mask| == |rows|
    ensures forall i :: 0 <= i < |rows| ==> (mask[i] <==> HasTwin(rows, j, i))
  {
    forall i | 0 <= i < |rows|
      ensures CountKey(rows, j, GroupKey(rows[i], j)) >= 2 <==> HasTwin(rows, j, i)
    {
      CountTwin(rows, j, i);
    }
    seq(|rows|, i requires 0 <= i < |rows| => CountKey(rows, j, GroupKey(rows[i], j)) >= 2)
  }

  /** `df[mask]`: the rows whose mark is set, in their original order. */
  function Select(rows: seq<Row>, mask: seq<bool>): seq<Row>
    requires |mask| == |rows|
  {
    if rows == [] then []
    else (if mask[0] then [rows[0]] else []) + Select(rows[1..], mask[1..])
  }

  /** The rows of `rows` that `duplicated` keeps. */
  function Kept(rows: seq<Row>, j: nat): seq<Row> {
    Select(rows, DuplicatedMask(rows, j))
  }

  /** A row of `all` is kept when its key is counted at least twice in `all`. */
  predicate Repeated(all: seq<Row>, j: nat, row: Row) {
    CountKey(all, j, GroupKey(row, j)) >= 2
  }

  lemma {:induction false} SelectMultiset(all: seq<Row>, s: seq<Row>, mask: seq<bool>, j: nat)
    requires |mask| == |s|
    requires forall i :: 0 <= i < |s| ==> mask[i] == Repeated(all, j, s[i])
    ensures forall x :: multiset(Select(s, mask))[x] == if Repeated(all, j, x) then multiset(s)[x] else 0
  {
    if s != [] {
      SelectMultiset(all, s[1..], mask[1..], j);
      assert s == [s[0]] + s[1..];
    }
  }

  lemma {:induction false} SelectCount(all: seq<Row>, s: seq<Row>, mask: seq<bool>, j: nat, k: Value)
    requires |mask| == |s|
    requires forall i :: 0 <= i < |s| ==> mask[i] == Repeated(all, j, s[i])
    ensures CountKey(Select(s, mask), j, k) == if CountKey(all, j, k) >= 2 then CountKey(s, j, k) else 0
  {
    if s != [] {
      SelectCount(all, s[1..], mask[1..], j, k);
      CountAppend(if mask[0] then [s[0]] else [], Select(s[1..], mask[1..]), j, k);
    }
  }

  lemma {:induction false} SelectEmpty(s: seq<Row>, mask: seq<bool>)
    requires |mask| == |s|
    ensures Select(s, mask) == [] <==> forall i :: 0 <= i < |s| ==> !mask[i]
  {
    if s != [] {
      SelectEmpty(s[1..], mask[1..]);
      assert forall i :: 1 <= i < |s| ==> mask[i] == mask[1..][i - 1];
    }
  }

  lemma MaskIsRepeated(rows: seq<Row>, j: nat)
    ensures forall i :: 0 <= i < |rows| ==> DuplicatedMask(rows, j)[i] == Repeated(rows, j, rows[i])
  {
  }

  /** `df[df.duplicated(column, False)]` holds every row whose key occurs at
      least twice, as often as it occurs in the table, and nothing else. */
  lemma KeptRows(rows: seq<Row>, j: nat)
    ensures forall x :: multiset(Kept(rows, j))[x] == if Repeated(rows, j, x) then multiset(rows)[x] else 0
    ensures forall k :: CountKey(Kept(rows, j), j, k) == if CountKey(rows, j, k) >= 2 then CountKey(rows, j, k) else 0
  {
    MaskIsRepeated(rows, j);
    SelectMultiset(rows, rows, DuplicatedMask(rows, j), j);
    forall k ensures CountKey(Kept(rows, j), j, k) == if CountKey(rows, j, k) >= 2 then CountKey(rows, j, k) else 0 {
      SelectCount(rows, rows, DuplicatedMask(rows, j), j, k);
    }
  }

  /** Nothing is kept exactly when no two rows share a key. */
  lemma KeptEmpty(rows: seq<Row>, j: nat)
    ensures Kept(rows, j) == [] <==> DistinctKeys(rows, j)
  {
    var mask := DuplicatedMask(rows, j);
    SelectEmpty(rows, mask);
    if Kept(rows, j) == [] {
      forall a, b | 0 <= a < b < |rows|
        ensures GroupKey(rows[a], j) != GroupKey(rows[b], j)
      {
        assert !mask[a];
      }
    } else {
      var i :| 0 <= i < |rows| && mask[i];
      var m :| 0 <= m < |rows| && m != i && GroupKey(rows[m], j) == GroupKey(rows[i], j);
      if m < i {
        assert !DistinctKeys(rows, j) by { assert GroupKey(rows[m], j) == GroupKey(rows[i], j); }
      } else {
        assert !DistinctKeys(rows, j) by { assert GroupKey(rows[i], j) == GroupKey(rows[m], j); }
      }
    }
  }

  // ---------------------------------------------------------------------
  // The order sort_values uses
  // ---------------------------------------------------------------------

  /** Kinds of values Python can order among themselves. */
  predicate Orderable(v: Value) {
    IsNumber(v) || v.StrVal? || v.DateTimeVal? || v.TimeVal?
  }

  /** Python can compare the two: both numbers (of any of the three numeric
      types), both strings, both datetimes or both times. */
  predicate SameKind(a: Value, b: Value) {
    || (IsNumber(a) && IsNumber(b))
    || (a.StrVal? && b.StrVal?)
    || (a.DateTimeVal? && b.DateTimeVal?)
    || (a.TimeVal? && b.TimeVal?)
  }

  /** `sort_values` can place the two keys relative to each other: one of
      them is missing, or both are of the same orderable kind. */
  predicate Comparable(a: Value, b: Value) {
    IsNull(a) || IsNull(b) || (Orderable(a) && SameKind(a, b))
  }

  /** Every two rows can be ordered by column `j`; otherwise the sort
      raises TypeError. */
  predicate KeysComparable(rows: seq<Row>, j: nat) {
    forall x, y :: x in rows && y in rows ==> Comparable(KeyOf(x, j), KeyOf(y, j))
  }

  /** Python's ordering of sequences: element by element, a proper prefix first. */
  function LexLe(a: seq<int>, b: seq<int>): bool {
    if a == [] then true
    else if b == [] then false
    else if a[0] != b[0] then a[0] < b[0]
    else LexLe(a[1..], b[1..])
  }

  /** A string as its code points, which is how Python compares strings. */
  function Codes(s: string): seq<int> {
    seq(|s|, i requires 0 <= i < |s| => s[i] as int)
  }

  function DateTimeFields(d: DateTime): seq<int> {
    [d.year, d.month, d.day, d.hour, d.minute, d.second, d.microsecond]
  }

  function TimeFields(t: TimeOfDay): seq<int> {
    [t.hour, t.minute, t.second, t.microsecond]
  }

  /** `a <= b` for two present values of the same kind. */
  predicate ValueLe(a: Value, b: Value) {
    if IsNumber(a) && IsNumber(b) then NumberValue(a) <= NumberValue(b)
    else match (a, b)
    case (StrVal(x), StrVal(y)) => LexLe(Codes(x), Codes(y))
    case (DateTimeVal(x), DateTimeVal(y)) => LexLe(DateTimeFields(x), DateTimeFields(y))
    case (TimeVal(x), TimeVal(y)) => LexLe(TimeFields(x), TimeFields(y))
    case _ => false
  }

  /** The ascending order of `sort_values` with `na_position="last"`. */
  predicate KeyLe(a: Value, b: Value) {
    IsNull(b) || (!IsNull(a) && ValueLe(a, b))
  }

  lemma {:induction false} LexTotal(a: seq<int>, b: seq<int>)
    ensures LexLe(a, b) || LexLe(b, a)
  {
    if a != [] && b != [] && a[0] == b[0] {
      LexTotal(a[1..], b[1..]);
    }
  }

  lemma {:induction false} LexTransitive(a: seq<int>, b: seq<int>, c: seq<int>)
    requires LexLe(a, b) && LexLe(b, c)
    ensures LexLe(a, c)
  {
    if a != [] && b != [] && c != [] && a[0] == b[0] && b[0] == c[0] {
      LexTransitive(a[1..], b[1..], c[1..]);
    }
  }

  lemma KeyLeTotal(a: Value, b: Value)
    requires Comparable(a, b)
    ensures KeyLe(a, b) || KeyLe(b, a)
  {
    match (a, b)
    case (StrVal(x), StrVal(y)) => LexTotal(Codes(x), Codes(y));
    case (DateTimeVal(x), DateTimeVal(y)) => LexTotal(DateTimeFields(x), DateTimeFields(y));
    case (TimeVal(x), TimeVal(y)) => LexTotal(TimeFields(x), TimeFields(y));
    case _ =>
  }

  lemma KeyLeTransitive(a: Value, b: Value, c: Value)
    requires KeyLe(a, b) && KeyLe(b, c)
    ensures KeyLe(a, c)
  {
    if !IsNull(c) {
      match (a, b, c)
      case (StrVal(x), StrVal(y), StrVal(z)) => LexTransitive(Codes(x), Codes(y), Codes(z));
      case (DateTimeVal(x), DateTimeVal(y), DateTimeVal(z)) =>
        LexTransitive(DateTimeFields(x), DateTimeFields(y), DateTimeFields(z));
      case (TimeVal(x), TimeVal(y), TimeVal(z)) => LexTransitive(TimeFields(x), TimeFields(y), TimeFields(z));
      case _ =>
    }
  }

  // ---------------------------------------------------------------------
  // sort_values(by=column)
  // ---------------------------------------------------------------------

  /** Ascending by column `j`, missing keys last. */
  predicate SortedByKey(rows: seq<Row>, j: nat) {
    forall a, b :: 0 <= a < b < |rows| ==> KeyLe(KeyOf(rows[a], j), KeyOf(rows[b], j))
  }

  /** A row whose key comes before every key of a sorted list may head it. */
  lemma SortedCons(h: Row, t: seq<Row>, j: nat)
    requires SortedByKey(t, j)
    requires forall y :: y in t ==> KeyLe(KeyOf(h, j), KeyOf(y, j))
    ensures SortedByKey([h] + t, j)
  {
    var r := [h] + t;
    forall a, b | 0 <= a < b < |r| ensures KeyLe(KeyOf(r[a], j), KeyOf(r[b], j)) {
      assert r[b] == t[b - 1];
      if a > 0 {
        assert r[a] == t[a - 1];
      } else {
        assert t[b - 1] in t;
      }
    }
  }

  function Insert(x: Row, s: seq<Row>, j: nat): (r: seq<Row>)
    requires SortedByKey(s, j)
    requires forall y :: y in s ==> Comparable(KeyOf(x, j), KeyOf(y, j))
    ensures multiset(r) == multiset(s) + multiset{x}
    ensures SortedByKey(r, j)
  {
    if s == [] then [x]
    else if KeyLe(KeyOf(x, j), KeyOf(s[0], j)) then
      forall y | y in s ensures KeyLe(KeyOf(x, j), KeyOf(y, j)) {
        var b :| 0 <= b < |s| && s[b] == y;
        if b > 0 { KeyLeTransitive(KeyOf(x, j), KeyOf(s[0], j), KeyOf(s[b], j)); }
      }
      SortedCons(x, s, j);
      [x] + s
    else
      KeyLeTotal(KeyOf(x, j), KeyOf(s[0], j));
      assert s == [s[0]] + s[1..];
      var t := Insert(x, s[1..], j);
      forall y | y in t ensures KeyLe(KeyOf(s[0], j), KeyOf(y, j)) {
        assert y in multiset(t);
      }
      SortedCons(s[0], t, j);
      [s[0]] + t
  }

  /** `sort_values(by=column)`: one of the orderings of `rows` that is
      ascending by column `j` with missing keys last. Pandas' default
      quicksort is not stable, so no order among equal keys is promised. */
  function SortByKey(rows: seq<Row>, j: nat): (r: seq<Row>)
    requires KeysComparable(rows, j)
    ensures multiset(r) == multiset(rows)
    ensures SortedByKey(r, j)
  {
    if rows == [] then []
    else
      var rest := rows[1..];
      assert rows == [rows[0]] + rest;
      assert forall y :: y in rest ==> y in rows;
      var t := SortByKey(rest, j);
      forall y | y in t ensures Comparable(KeyOf(rows[0], j), KeyOf(y, j)) {
        assert y in multiset(t);
        assert y in rest;
      }
      var r := Insert(rows[0], t, j);
      assert multiset(r) == multiset(rest) + multiset{rows[0]};
      r
  }

  // ---------------------------------------------------------------------
  // duplicados
  // ---------------------------------------------------------------------

  /** The kept rows of `df` for `column` can be sorted (the source raises
      TypeError when they cannot). */
  predicate Sortable(df: Table, column: string)
    requires column in df.columns
  {
    KeysComparable(Kept(df.rows, IndexOf(df.columns, column)), IndexOf(df.columns, column))
  }

  /** `duplicados(df, column)`. A missing column raises KeyError in the
      source; here it is excluded by the precondition. */
  function Duplicados(df: Table, column: string): (r: Outcome)
    requires WellFormed(df) && column in df.columns
    requires Sortable(df, column)
    ensures var j := IndexOf(df.columns, column);
      && (r.Message? <==> DistinctKeys(df.rows, j))
      && (r.Message? ==> r.text == NoDuplicatesMessage)
      && (r.Rows? ==>
            && r.table.columns == df.columns
            && r.table.rows != []
            && SortedByKey(r.table.rows, j)
            && multiset(r.table.rows) == multiset(Kept(df.rows, j)))
  {
    var j := IndexOf(df.columns, column);
    var rowsDuplicated := Kept(df.rows, j);
    KeptEmpty(df.rows, j);
    if rowsDuplicated == [] then Message(NoDuplicatesMessage)
    else Rows(Table(df.columns, SortByKey(rowsDuplicated, j)))
  }

  /** Every row of a table result shares its key with another row of the
      result, and every input row whose key is shared is in the result as
      often as in the input: exactly the rows `keep=False` marks. */
  lemma DuplicadosRows(df: Table, column: string)
    requires WellFormed(df) && column in df.columns
    requires Sortable(df, column)
    requires Duplicados(df, column).Rows?
    ensures var j := IndexOf(df.columns, column);
      var out := Duplicados(df, column).table.rows;
      && (forall a :: 0 <= a < |out| ==> HasTwin(out, j, a))
      && (forall i :: 0 <= i < |df.rows| ==>
            (HasTwin(df.rows, j, i) <==> multiset(out)[df.rows[i]] == multiset(df.rows)[df.rows[i]]))
      && |out| >= 2
  {
    var j := IndexOf(df.columns, column);
    var out := Duplicados(df, column).table.rows;
    var kept := Kept(df.rows, j);
    KeptRows(df.rows, j);
    forall a | 0 <= a < |out| ensures HasTwin(out, j, a) {
      var k := GroupKey(out[a], j);
      assert out[a] in multiset(kept);
      assert Repeated(df.rows, j, out[a]);
      CountPermutation(out, kept, j, k);
      CountTwin(out, j, a);
    }
    forall i | 0 <= i < |df.rows|
      ensures HasTwin(df.rows, j, i) <==> multiset(out)[df.rows[i]] == multiset(df.rows)[df.rows[i]]
    {
      CountTwin(df.rows, j, i);
      assert df.rows[i] in multiset(df.rows);
    }
    assert HasTwin(out, j, 0);
  }

  /** The rows of the worked case below carry keys 1, 2 and 1 in column 0,
      and the first and last are the ones `keep=False` marks. */
  lemma ExampleKept(r1: Row, r2: Row, r3: Row)
    requires |r1| > 0 && |r2| > 0 && |r3| > 0
    requires r1[0] == IntVal(1) && r2[0] == IntVal(2) && r3[0] == IntVal(1)
    ensures Kept([r1, r2, r3], 0) == [r1, r3]
  {
    var rows := [r1, r2, r3];
    assert GroupKey(r1, 0) == FloatVal(1.0) && GroupKey(r2, 0) == FloatVal(2.0) && GroupKey(r3, 0) == FloatVal(1.0);
    assert HasTwin(rows, 0, 0) by { assert GroupKey(rows[2], 0) == GroupKey(rows[0], 0); }
    assert HasTwin(rows, 0, 2) by { assert GroupKey(rows[0], 0) == GroupKey(rows[2], 0); }
    assert !HasTwin(rows, 0, 1);
    var mask := DuplicatedMask(rows, 0);
    assert mask == [true, false, true];
    assert rows[1..] == [r2, r3] && rows[1..][1..] == [r3];
    assert mask[1..] == [false, true] && mask[1..][1..] == [true];
    assert Select([r3], [true]) == [r3];
    assert Select([r2, r3], [false, true]) == [r3];
  }

  /** Two rows whose key is the integer 1 can be ordered by it. */
  lemma ExampleSortable(r1: Row, r3: Row)
    requires |r1| > 0 && |r3| > 0 && r1[0] == IntVal(1) && r3[0] == IntVal(1)
    ensures KeysComparable([r1, r3], 0)
  {
    forall x, y | x in [r1, r3] && y in [r1, r3] ensures Comparable(KeyOf(x, 0), KeyOf(y, 0)) {
      assert KeyOf(x, 0) == IntVal(1) && KeyOf(y, 0) == IntVal(1);
    }
  }

  /** Worked case: rows `(1, "a")`, `(2, "b")`, `(1, "c")` keyed by `id`: both
      rows with id 1 are returned, the row with id 2 is not. */
  lemma DuplicadosExample()
    ensures var df := Table(["id", "v"], [[IntVal(1), StrVal("a")], [IntVal(2), StrVal("b")], [IntVal(1), StrVal("c")]]);
      && WellFormed(df) && Sortable(df, "id")
      && Duplicados(df, "id").Rows?
      && multiset(Duplicados(df, "id").table.rows) == multiset{[IntVal(1), StrVal("a")], [IntVal(1), StrVal("c")]}
  {
    var r1, r2, r3 := [IntVal(1), StrVal("a")], [IntVal(2), StrVal("b")], [IntVal(1), StrVal("c")];
    var df := Table(["id", "v"], [r1, r2, r3]);
    assert IndexOf(df.columns, "id") == 0;
    ExampleKept(r1, r2, r3);
    assert WellFormed(df);
    ExampleSortable(r1, r3);
    assert !DistinctKeys(df.rows, 0) by {
      assert GroupKey(df.rows[0], 0) == GroupKey(df.rows[2], 0);
    }
    assert multiset([r1, r3]) == multiset{r1, r3};
  }

  /** Worked case: the keys `1` and `True` are equal in Python, so
      `duplicated(keep=False)` marks both rows and both are returned. */
  lemma DuplicadosNumericExample()
    ensures var df := Table(["k"], [[IntVal(1)], [BoolVal(true)]]);
      && WellFormed(df) && Sortable(df, "k")
      && Duplicados(df, "k").Rows?
      && multiset(Duplicados(df, "k").table.rows) == multiset{[IntVal(1)], [BoolVal(true)]}
  {
    var r1, r2 := [IntVal(1)], [BoolVal(true)];
    var rows := [r1, r2];
    var df := Table(["k"], rows);
    assert IndexOf(df.columns, "k") == 0;
    assert GroupKey(r1, 0) == FloatVal(1.0) && GroupKey(r2, 0) == FloatVal(1.0);
    assert HasTwin(rows, 0, 0) by { assert GroupKey(rows[1], 0) == GroupKey(rows[0], 0); }
    assert HasTwin(rows, 0, 1) by { assert GroupKey(rows[0], 0) == GroupKey(rows[1], 0); }
    var mask := DuplicatedMask(rows, 0);
    assert mask == [true, true];
    assert rows[1..] == [r2] && mask[1..] == [true];
    assert Select([r2], [true]) == [r2];
    assert Kept(rows, 0) == rows;
    assert WellFormed(df);
    assert KeysComparable(rows, 0) by {
      forall x, y | x in rows && y in rows ensures Comparable(KeyOf(x, 0), KeyOf(y, 0)) {
        assert IsNumber(KeyOf(x, 0)) && IsNumber(KeyOf(y, 0));
      }
    }
    assert !DistinctKeys(df.rows, 0) by {
      assert GroupKey(df.rows[0], 0) == GroupKey(df.rows[1], 0);
    }
  }

  /** Worked case: two different values of a type outside the modelled set
      (say two distinct dates) are two keys, so nothing is duplicated and
      the message is returned. */
  lemma DuplicadosDistinctObjectsExample()
    ensures var df := Table(["k"], [[Other("date", 1)], [Other("date", 2)]]);
      && WellFormed(df) && Sortable(df, "k")
      && Duplicados(df, "k") == Message(NoDuplicatesMessage)
  {
    var r1, r2 := [Other("date", 1)], [Other("date", 2)];
    var rows := [r1, r2];
    var df := Table(["k"], rows);
    assert IndexOf(df.columns, "k") == 0;
    assert GroupKey(r1, 0) == Other("date", 1) && GroupKey(r2, 0) == Other("date", 2);
    assert DistinctKeys(rows, 0);
    KeptEmpty(rows, 0);
    assert WellFormed(df);
  }
}
