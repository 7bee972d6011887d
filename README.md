# Data-cleaning helpers of Jupyter/functions.py, modelled in Dafny

The notebook helpers in `Jupyter/functions.py` clean and profile pandas
DataFrames. This project models three of them:

- `tipo_dato(df)` builds a summary with one row per column. Each row holds
  the column's name, the runtime types found in it (in order of first
  appearance), its null count, and the percentages of present and missing
  cells.
- `duplicados(df, column)` returns the rows whose value in `column` is
  shared with at least one other row. The rows are ordered by that column.
  When no value repeats, it returns the message
  `"No se encontraron duplicados"`.
- `time(x)` turns a text `H:M:S` into a `datetime.time`, or into `None`
  when the text does not parse. It turns a `datetime` into its time of
  day. Any other value is returned unchanged.

Modules:

- `PyValues` (`pyvalues.dfy`): the Python and pandas values the helpers
  see. A cell is a tagged `Value`. The missing markers the model knows are `NaN` and
  `None`. A `Table` is a list of column labels plus rows of cells.
- `ColumnProfile` (`column_profile.dfy`): `tipo_dato`. Its loop is a
  method with the five accumulating lists. It is proved against
  `ColumnProfileOf`, the function giving the summary of one column,
  whose properties are the lemmas `ColumnProfileTypes`,
  `ColumnProfileCounts` and `PercentFacts`.
- `Duplicates` (`duplicates.dfy`): `duplicated(column, keep=False)`, the
  emptiness test and `sort_values(by=column)`.
- `TimeCoercion` (`time_coercion.dfy`): `time` and the part of
  `datetime.strptime(x, "%H:%M:%S")` it relies on.

On these points the model follows what the code does:

- **Field width.** `%H`, `%M` and `%S` each accept one or two digits,
  so `"9:5:7"` parses.
- **Sort order.** `sort_values` uses an unstable sort by default, so no
  order is promised among rows with equal keys.
- **Numeric keys.** `duplicated` groups keys by Python's equality, under
  which `1`, `1.0` and `True` are one key. Ints, floats and bools are
  also ordered against each other by value when the rows are sorted.
- **Message text.** The docstring of `duplicados`
  (Jupyter/functions.py:53) gives the message as
  `"No se encontrar duplicados"`. The code returns
  `"No se encontraron duplicados"` (Jupyter/functions.py:61), and the
  model returns that text.

One point is a policy of the model rather than something the code fixes:

- **Missing keys.** The model groups every missing key, `NaN` or `None`,
  as one key, so two rows whose key is missing are duplicates of each
  other. For a float column, where only `NaN` occurs, pandas does the
  same. In an object column that holds both markers, whether pandas
  counts `None` and `NaN` as one key depends on its version.

## Model

| member | source | states |
|---|---|---|
| PyValues.TypeOf | Jupyter/functions.py:30 | `type(v)` for each kind of value; `NaN` is a float. What it gives a column is stated by `ColumnProfile.ColumnProfileTypes` |
| PyValues.IndexOf | Jupyter/functions.py:58 | a label (or any element) is found at its first position in the list |
| ColumnProfile.TipoDato | Jupyter/functions.py:25-38 | the five lists the loop fills give one summary row per column, in column order; row `i` is `ColumnProfileOf` of column `i` under its own name, the profile described by the three lemmas below: the types by `ColumnProfileTypes`, the counts by `ColumnProfileCounts`, and the percentages by `PercentFacts`, applied to the counts that `ColumnProfileCounts` gives (so the two percentages sum to 100 and `nulo%` is 100 × nulls / rows) |
| ColumnProfile.ColumnProfileOf | Jupyter/functions.py:28-33 | one pass of the loop: the column's name, `apply(type).unique()`, `isnull().sum()` and the two percentages. Its properties are stated by `ColumnProfileTypes`, `ColumnProfileCounts` and `PercentFacts` |
| ColumnProfile.ColumnProfileTypes | Jupyter/functions.py:29-30 | a column's summary carries its name; its type list contains every cell's runtime type and only types some cell has, each once, ordered by where each type first appears in the column |
| ColumnProfile.ColumnProfileCounts | Jupyter/functions.py:28-33 | a column's null count is its number of missing cells, and this plus `count()` is the row count; its two percentages are those of `count()` out of the rows |
| ColumnProfile.PercentFacts | Jupyter/functions.py:28-32 | `no_nulo%`, computed as `count()` over the rows times 100, is 100 × present / rows; `nulo%`, computed as 100 minus it, is 100 × missing / rows; both lie in [0, 100] and they sum to 100 |
| ColumnProfile.Unique | Jupyter/functions.py:30 | `unique()` keeps exactly the elements of its input, each once, ordered by first appearance |
| ColumnProfile.NullCount | Jupyter/functions.py:33 | `isnull().sum()`, the number of missing cells (`NaN` or `None`). Its properties are stated by `CountsPartition`, `NullCountZero` and `NullCountAll` |
| ColumnProfile.NonNullCount | Jupyter/functions.py:28 | `count()`, the number of present cells (neither `NaN` nor `None`). Its properties are stated by `CountsPartition` and `ColumnProfileCounts` |
| ColumnProfile.CountsPartition | Jupyter/functions.py:28-33 | every cell is counted by exactly one of `count()` and `isnull().sum()` |
| ColumnProfile.NullCountZero | Jupyter/functions.py:33 | the null count is zero exactly when no cell is missing |
| ColumnProfile.NullCountAll | Jupyter/functions.py:33 | the null count equals the row count exactly when every cell is missing |
| ColumnProfile.UniqueOfRepeated | Jupyter/functions.py:30 | a column of a single type lists that type alone |
| ColumnProfile.ProfileExampleFloat | Jupyter/functions.py:27-33 | the float column `[1, 2, NaN, 4]` has types `[float]`, 1 null, 75 % present and 25 % missing |
| ColumnProfile.ProfileExampleText | Jupyter/functions.py:27-33 | the text column `["x", "x", "y", "y"]` has types `[str]`, no nulls, 100 % present and 0 % missing |
| Duplicates.GroupKeySame | Jupyter/functions.py:58 | two rows fall in the same `duplicated` group exactly when both keys are missing, or both are numbers (int, float or bool) of equal value, or both are the same other value (the same type and the same object, which is Python's `==` within one type for the values the model does not name) |
| Duplicates.CountAppend | Jupyter/functions.py:58 | the number of rows with a given key adds up over concatenation |
| Duplicates.CountPositive | Jupyter/functions.py:58 | a key's count is positive exactly when some row has that key |
| Duplicates.CountWithout | Jupyter/functions.py:58 | removing one row lowers its own key's count by one and leaves every other key's count unchanged |
| Duplicates.CountTwin | Jupyter/functions.py:58 | a row's key occurs at least twice exactly when another row shares that key |
| Duplicates.CountPermutation | Jupyter/functions.py:58-63 | reordering rows changes no key's count |
| Duplicates.DuplicatedMask | Jupyter/functions.py:58 | `duplicated(column, keep=False)` marks a row exactly when another row shares its key, with all missing values as one key and Python-equal numbers (`1`, `1.0`, `True`) as one key |
| Duplicates.Select | Jupyter/functions.py:58 | `df[mask]`, the rows whose mark is true, in order. Its properties are stated by `SelectMultiset`, `SelectCount` and `SelectEmpty` |
| Duplicates.SelectMultiset | Jupyter/functions.py:58 | boolean indexing keeps each marked row as often as it occurs and drops the rest |
| Duplicates.SelectCount | Jupyter/functions.py:58 | after selecting the repeated rows, a key's count is its original count if that was at least two, and zero otherwise |
| Duplicates.SelectEmpty | Jupyter/functions.py:58-60 | the selection is empty exactly when no row is marked |
| Duplicates.KeptRows | Jupyter/functions.py:58 | `df[df.duplicated(column, False)]` holds every row whose key repeats, as often as in `df`, and no other row; per key, the count is kept if at least two and is zero otherwise |
| Duplicates.KeptEmpty | Jupyter/functions.py:58-61 | the selection is empty exactly when no two rows share a key |
| Duplicates.LexTotal | Jupyter/functions.py:63 | Python's sequence order is total |
| Duplicates.LexTransitive | Jupyter/functions.py:63 | Python's sequence order is transitive |
| Duplicates.KeyLeTotal | Jupyter/functions.py:63 | any two comparable keys are ordered one way or the other, with missing values last; ints, floats and bools compare with each other by value |
| Duplicates.KeyLeTransitive | Jupyter/functions.py:63 | the key order with missing values last is transitive |
| Duplicates.Insert | Jupyter/functions.py:63 | inserting a row into rows sorted by key keeps them sorted and adds exactly that row |
| Duplicates.SortByKey | Jupyter/functions.py:63 | `sort_values(by=column)` returns a permutation of its rows, ascending by key with missing keys last |
| Duplicates.Duplicados | Jupyter/functions.py:58-63 | the message is returned exactly when no two rows share a key (keys compared as `duplicated` groups them), and its text is `"No se encontraron duplicados"`; otherwise the result has the same columns and is nonempty, sorted by key, and a permutation of the rows whose key repeats |
| Duplicates.DuplicadosRows | Jupyter/functions.py:58-63 | in a table result, every row shares its key with another row of the result; an input row is there as often as in the input exactly when its key is shared; the result has at least two rows |
| Duplicates.DuplicadosExample | Jupyter/functions.py:58-63 | with ids 1, 2, 1, the two rows with id 1 are returned and the row with id 2 is not |
| Duplicates.DuplicadosDistinctObjectsExample | Jupyter/functions.py:58-61 | with two different values of a type the model does not name (two distinct dates, say), no row is duplicated and the message is returned |
| Duplicates.DuplicadosNumericExample | Jupyter/functions.py:58-63 | with keys `1` and `True`, which Python holds equal, both rows are returned |
| TimeCoercion.MatchSecond | Jupyter/functions.py:82 | the `%S` group matches one or two leading digits worth at most 61 |
| TimeCoercion.MatchColonSecond | Jupyter/functions.py:82 | `:` followed by a `%S` group is a prefix of the text |
| TimeCoercion.MinuteThen | Jupyter/functions.py:82 | a minute group of the given length, followed by `:` and a second group, is a prefix of the text |
| TimeCoercion.MatchMinute | Jupyter/functions.py:82 | the `%M:%S` part matches a minute of at most 59 and a second of at most 61, separated by a colon, at the start of the text |
| TimeCoercion.HourThen | Jupyter/functions.py:82 | an hour group of the given length, followed by `:` and the rest of the pattern, is a prefix of the text |
| TimeCoercion.MatchHms | Jupyter/functions.py:82 | a match of `%H:%M:%S` consists of three one- or two-digit fields within the pattern's ranges, joined by colons, at the start of the text |
| TimeCoercion.MatchHmsAccepts | Jupyter/functions.py:82 | the pattern matches `h:m:s` with fields in range, and its groups are exactly `h`, `m` and `s` |
| TimeCoercion.SecondAccepts | Jupyter/functions.py:82 | a text that is a one- or two-digit number up to 59 is matched whole as the `%S` group |
| TimeCoercion.MinuteAccepts | Jupyter/functions.py:82 | `m:s` with a minute and a second up to 59 is matched whole with those groups |
| TimeCoercion.Strptime | Jupyter/functions.py:82-84 | `datetime.strptime(x, "%H:%M:%S").time()`, with `None` for the ValueError. Its properties are stated by `StrptimeAccepts` and `StrptimeSound` |
| TimeCoercion.StrptimeAccepts | Jupyter/functions.py:80-84 | `h:m:s`, with an hour up to 23 and a minute and second up to 59, each of one or two digits, parses to exactly that time with microsecond 0 |
| TimeCoercion.StrptimeSound | Jupyter/functions.py:80-84 | a text that parses is `h:m:s` with such fields, and parses to the time they spell |
| TimeCoercion.Time | Jupyter/functions.py:80-87 | a string becomes a valid time with microsecond 0 or `None`; a datetime becomes its time of day, microseconds included; any other value is returned unchanged |
| TimeCoercion.TimeOnStrings | Jupyter/functions.py:80-84 | a string becomes a time exactly when it is `h:m:s` with valid one- or two-digit fields, and then it is the time those fields spell |
| TimeCoercion.TimeOfValidDateTime | Jupyter/functions.py:85-86 | a datetime the `datetime` constructor accepts gives a valid time of day with the same hour, minute, second and microsecond |
| TimeCoercion.TimeIdempotent | Jupyter/functions.py:80-87 | applying `time` to its own result changes nothing |
| TimeCoercion.TimeExamplePadded | Jupyter/functions.py:80-82 | `"13:45:00"` gives 13:45:00 |
| TimeCoercion.TimeExampleOneDigit | Jupyter/functions.py:80-82 | `"9:5:7"` gives 09:05:07 |
| TimeCoercion.TimeExampleShort | Jupyter/functions.py:80-84 | `"13:45"` gives `None` |
| TimeCoercion.TimeExampleHour | Jupyter/functions.py:80-84 | `"25:00:00"` gives `None` |
| TimeCoercion.TimeExampleLeapSecond | Jupyter/functions.py:80-84 | `"12:30:60"` gives `None`: the pattern admits second 60, but the datetime constructor refuses it |
| TimeCoercion.TimeExampleTrailing | Jupyter/functions.py:80-84 | `"12:30:00 "` gives `None`, because text remains after the match |
| TimeCoercion.TimeExamplePassThrough | Jupyter/functions.py:87 | the integer 42 is returned unchanged |

## Left out

- `cohen(g1, g2)` (Jupyter/functions.py:90-109) is not part of this model. It is floating-point statistics (means, variances, square roots).
- ColumnProfile.ColumnProfileOf: `round(…, 2)` on the two percentages is not modelled, because it is floating-point rounding. The exact rational percentages are stated instead.
- ColumnProfile.TipoDato: a table with no rows but with columns is excluded by the precondition. The source divides by `len(df) == 0` there and gets NaN percentages, which exact arithmetic cannot express.
- ColumnProfile.TipoDato: the summary is a sequence of rows rather than a DataFrame. Its index labels and the numpy array that holds each type list are not modelled.
- PyValues.WellFormed: column labels are assumed distinct. With repeated labels, `df[columna]` returns a DataFrame and the source behaves differently.
- PyValues.TypeOf: runtime types are a fixed set of tags plus one tag for any other named type. A value of such a type is only its type name and an abstract object identity, whose equality stands for Python's `==` within that type. numpy scalar types, pandas `NaT` and `Timestamp`, and subclass relations are not distinguished.
- Duplicates.Duplicados: a column label not in the table is excluded by the precondition. The source raises KeyError there.
- Duplicates.Duplicados: keys of kinds Python cannot order against each other are excluded by the precondition `Sortable`. This covers a mix of text and numbers and a mix of datetimes or times with other kinds, where the source raises TypeError when it sorts. It also covers repeated keys of a type the model does not name (two equal dates, say): the source may sort those, but the model cannot compare such values. Distinct keys of such a type are not excluded, since nothing is then sorted. Ints, floats and bools, mixed in any way, are not excluded: they group and sort by numeric value, as in the source.
- Duplicates.DuplicatedMask: `NaN` and `None` keys are always one key. pandas may keep them apart in an object column that holds both, depending on its version; that case is not modelled. Values of an unnamed type that Python holds equal to a number or to a value of another type (`Decimal(1) == 1`, `Fraction(1, 2) == 0.5`, `1+0j == 1`) are separate keys in the model, where pandas marks them as duplicates.
- Duplicates.GroupKeySame: equality across types is stated only among ints, floats and bools. An unnamed-type value that Python holds equal to a number or to another type's value (`Decimal(1) == 1`) is a different key in the model.
- Duplicates.Duplicados: the pandas index is not modelled. The result holds the row values only, so the original row labels that `sort_values` keeps, which tell identical rows apart, are not part of the result. Unnamed-type keys that Python holds equal to a number or to another type's value are separate keys, so for `[Decimal(1)], [1]` the model returns the message where the source returns both rows.
- ColumnProfile.NullCount: only `NaN` and `None` are missing cells. pandas' `isnull()` also counts `pd.NA` and `NaT`, which the model can only write as present `Other` cells, so a nullable column with such gaps cannot be given both its null count and its type list.
- ColumnProfile.NonNullCount: `count()` also leaves out `pd.NA` and `NaT`; the model counts such cells as present, for the reason given for `NullCount`.
- Duplicates.SortByKey: no order is stated among rows with equal keys, because the default quicksort of `sort_values` is not stable. The result is specified up to that order.
- Duplicates.KeyLe: every float is compared as an exact rational. Infinities and signed zeros are not modelled.
- TimeCoercion.IsDigit: `\d` in the strptime pattern also matches non-ASCII Unicode digits. The model accepts ASCII digits only.
- TimeCoercion.Strptime: the compiled pattern is case-insensitive and time-zone free; neither matters for `%H:%M:%S`, so neither is modelled. Locale handling is not modelled.
- TimeCoercion.Time: a pandas `Timestamp` is treated as a naive `datetime`. Its nanoseconds and time zone are not modelled.
