/** Python and pandas values as the helpers in Jupyter/functions.py see them:
    a cell is a tagged value, a table is a list of equally long rows under
    distinct column names. */
module PyValues {

  datatype Option<+T> = None | Some(value: T)

  /** A naive datetime.datetime (no time zone). */
  datatype DateTime = DateTime(year: int, month: int, day: int,
                               hour: int, minute: int, second: int, microsecond: int)

  /** Gregorian leap years, as the `calendar` module counts them. */
  predicate IsLeapYear(y: int) {
    y % 4 == 0 && (y % 100 != 0 || y % 400 == 0)
  }

  function DaysInMonth(y: int, m: int): int
    requires 1 <= m <= 12
  {
    if m == 2 then (if IsLeapYear(y) then 29 else 28)
    else if m == 4 || m == 6 || m == 9 || m == 11 then 30
    else 31
  }

  /** The fields the `datetime` constructor accepts: years 1 to 9999, a real
      calendar day, and clock fields in range. */
  predicate ValidDateTime(d: DateTime) {
    && 1 <= d.year <= 9999
    && 1 <= d.month <= 12
    && 1 <= d.day <= DaysInMonth(d.year, d.month)
    && 0 <= d.hour <= 23 && 0 <= d.minute <= 59 && 0 <= d.second <= 59
    && 0 <= d.microsecond <= 999_999
  }

  /** A naive datetime.time. */
  datatype TimeOfDay = TimeOfDay(hour: int, minute: int, second: int, microsecond: int)

  /** The ranges datetime.time and datetime.datetime enforce on construction. */
  predicate ValidTimeOfDay(t: TimeOfDay) {
    0 <= t.hour <= 23 && 0 <= t.minute <= 59 && 0 <= t.second <= 59 && 0 <= t.microsecond <= 999_999
  }

  /** The runtime type of a value, as `type(v)` reports it. */
  datatype TypeTag =
    | IntType
    | FloatType
    | StrType
    | BoolType
    | DateTimeType
    | TimeType
    | NoneType
    | OtherType(name: string)

  /** One cell of a table, or any Python value handed to a helper.
      The missing markers modelled are `NaN` (a float) and `NoneVal`
      (Python's None). A value of any other type is `Other(typeName, object)`:
      `object` stands for the value itself, so two such values of one type
      are equal in Python exactly when their objects are. Equality across
      types, as in `Decimal(1) == 1`, is not modelled. */
  datatype Value =
    | IntVal(i: int)
    | FloatVal(x: real)
    | NaN
    | StrVal(s: string)
    | BoolVal(b: bool)
    | DateTimeVal(dt: DateTime)
    | TimeVal(t: TimeOfDay)
    | NoneVal
    | Other(typeName: string, object: int)

  function TypeOf(v: Value): TypeTag {
    match v
    case IntVal(_) => IntType
    case FloatVal(_) => FloatType
    case NaN => FloatType
    case StrVal(_) => StrType
    case BoolVal(_) => BoolType
    case DateTimeVal(_) => DateTimeType
    case TimeVal(_) => TimeType
    case NoneVal => NoneType
    case Other(n, _) => OtherType(n)
  }

  /** pandas' isnull: NaN and None are missing, everything else is present. */
  predicate IsNull(v: Value) {
    v.NaN? || v.NoneVal?
  }

  /** Python's numbers: `bool` is a subclass of `int`, and an `int`, a `float`
      and a `bool` compare and hash by their numeric value (`1 == 1.0 == True`). */
  predicate IsNumber(v: Value) {
    v.IntVal? || v.FloatVal? || v.BoolVal?
  }

  function NumberValue(v: Value): real
    requires IsNumber(v)
  {
    match v
    case IntVal(i) => i as real
    case FloatVal(x) => x
    case BoolVal(b) => if b then 1.0 else 0.0
  }

  /** A DataFrame: column labels and the rows, one cell per column. */
  datatype Table = Table(columns: seq<string>, rows: seq<seq<Value>>)

  predicate WellFormed(t: Table) {
    && (forall i, k :: 0 <= i < k < |t.columns| ==> t.columns[i] != t.columns[k])
    && (forall r :: 0 <= r < |t.rows| ==> |t.rows[r]| == |t.columns|)
  }

  /** The cells of column `j`, top to bottom (`df[columna]`). */
  function Column(t: Table, j: nat): (col: seq<Value>)
    requires WellFormed(t) && j < |t.columns|
    ensures |col| == |t.rows|
    ensures forall r :: 0 <= r < |t.rows| ==> col[r] == t.rows[r][j]
  {
    seq(|t.rows|, r requires 0 <= r < |t.rows| => t.rows[r][j])
  }

  /** The position of the first occurrence of `x` in `s`: the lookup of a
      column label behind `df[column]`, and the first appearance of a value. */
  function IndexOf<T(==)>(s: seq<T>, x: T): (j: nat)
    requires x in s
    ensures j < |s| && s[j] == x
    ensures forall k :: 0 <= k < j ==> s[k] != x
  {
    if s[0] == x then 0 else 1 + IndexOf(s[1..], x)
  }
}
