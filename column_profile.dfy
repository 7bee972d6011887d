/** `tipo_dato(df)`: one summary row per column of a table, with the runtime
    types seen in the column, its null count and the percentages of present
    and missing values. */
module ColumnProfile {
  import opened PyValues

  /** One row of the summary table; the source's keys are given beside each field. */
  datatype ProfileRow = ProfileRow(
    name: string,            // nombre_campo
    types: seq<TypeTag>,     // tipo_dato
    nulls: nat,              // nulo
    nonNullPercent: real,    // no_nulo%
    nullPercent: real)       // nulo%

  /** `Series.apply(type)`: the runtime type of every cell. */
  function Tags(vs: seq<Value>): (tags: seq<TypeTag>)
    ensures |tags| == |vs|
    ensures forall i :: 0 <= i < |vs| ==> tags[i] == TypeOf(vs[i])
  {
    seq(|vs|, i requires 0 <= i < |vs| => TypeOf(vs[i]))
  }

  lemma FirstIndexInPrefix(s: seq<TypeTag>, n: nat, x: TypeTag)
    requires n <= |s| && x in s[..n]
    ensures x in s && IndexOf(s, x) == IndexOf(s[..n], x)
  {
    assert forall m :: 0 <= m < n ==> s[..n][m] == s[m];
  }

  /** `Series.unique()`: the distinct elements in order of first appearance. */
  function Unique(s: seq<TypeTag>): (u: seq<TypeTag>)
    ensures forall x :: x in u <==> x in s
    ensures forall a, b :: 0 <= a < b < |u| ==> u[a] != u[b]
    ensures forall a, b :: 0 <= a < b < |u| ==> IndexOf(s, u[a]) < IndexOf(s, u[b])
  {
    if s == [] then []
    else
      var n := |s| - 1;
      var p := s[..n];
      assert s == p + [s[n]];
      var u := Unique(p);
      FirstIndicesInPrefix(s, n, u);
      if s[n] in u then u
      else
        assert IndexOf(s, s[n]) == n;
        u + [s[n]]
  }

  lemma FirstIndicesInPrefix(s: seq<TypeTag>, n: nat, u: seq<TypeTag>)
    requires n <= |s| && forall x :: x in u ==> x in s[..n]
    ensures forall a :: 0 <= a < |u| ==> u[a] in s && IndexOf(s, u[a]) == IndexOf(s[..n], u[a]) < n
  {
    forall a | 0 <= a < |u|
      ensures u[a] in s && IndexOf(s, u[a]) == IndexOf(s[..n], u[a]) < n
    {
      FirstIndexInPrefix(s, n, u[a]);
    }
  }

  /** Some cell of the column has runtime type `tag`. */
  predicate Observed(vs: seq<Value>, tag: TypeTag) {
    exists i :: 0 <= i < |vs| && TypeOf(vs[i]) == tag
  }

  /** `Series.isnull().sum()`. */
  function NullCount(vs: seq<Value>): nat {
    if vs == [] then 0 else (if IsNull(vs[0]) then 1 else 0) + NullCount(vs[1..])
  }

  /** `Series.count()`: the number of cells that are not missing. */
  function NonNullCount(vs: seq<Value>): nat {
    if vs == [] then 0 else (if IsNull(vs[0]) then 0 else 1) + NonNullCount(vs[1..])
  }

  /** Every cell is counted by exactly one of `count()` and `isnull().sum()`. */
  lemma {:induction false} CountsPartition(vs: seq<Value>)
    ensures NonNullCount(vs) + NullCount(vs) == |vs|
  {
    if vs != [] {
      CountsPartition(vs[1..]);
    }
  }

  /** No cell is missing exactly when the null count is zero. */
  lemma {:induction false} NullCountZero(vs: seq<Value>)
    ensures NullCount(vs) == 0 <==> forall i :: 0 <= i < |vs| ==> !IsNull(vs[i])
  {
    if vs != [] {
      NullCountZero(vs[1..]);
      assert forall i :: 1 <= i < |vs| ==> vs[i] == vs[1..][i - 1];
    }
  }

  /** Every cell is missing exactly when the null count is the row count. */
  lemma {:induction false} NullCountAll(vs: seq<Value>)
    ensures NullCount(vs) == |vs| <==> forall i :: 0 <= i < |vs| ==> IsNull(vs[i])
  {
    if vs != [] {
      NullCountAll(vs[1..]);
      assert forall i :: 1 <= i < |vs| ==> vs[i] == vs[1..][i - 1];
      CountsPartition(vs[1..]);
    }
  }

  /** The summary of one column of `|vs|` rows, as one pass of the loop in
      `tipo_dato` computes it; the percentages are exact, before `round(…, 2)`. */
  function ColumnProfileOf(name: string, vs: seq<Value>): ProfileRow
    requires |vs| > 0
  {
    var pct := Percentages(NonNullCount(vs), |vs|);
    ProfileRow(name, Unique(Tags(vs)), NullCount(vs), pct.0, pct.1)
  }

  /** The types a column's summary lists: every cell's type, nothing that
      no cell has, each once, in order of first appearance (as `unique()`). */
  lemma ColumnProfileTypes(name: string, vs: seq<Value>)
    requires |vs| > 0
    ensures var r := ColumnProfileOf(name, vs);
      && r.name == name
      && (forall i :: 0 <= i < |vs| ==> TypeOf(vs[i]) in r.types)
      && (forall k :: 0 <= k < |r.types| ==> Observed(vs, r.types[k]))
      && (forall a, b :: 0 <= a < b < |r.types| ==> r.types[a] != r.types[b])
      && (forall k :: 0 <= k < |r.types| ==> r.types[k] in Tags(vs))
      && (forall a, b :: 0 <= a < b < |r.types| ==>
            IndexOf(Tags(vs), r.types[a]) < IndexOf(Tags(vs), r.types[b]))
  {
    TagsCovered(vs, Unique(Tags(vs)));
  }

  /** The counts a column's summary gives: the number of missing cells,
      which with `count()` makes up the rows, and the two percentages. */
  lemma ColumnProfileCounts(name: string, vs: seq<Value>)
    requires |vs| > 0
    ensures var r := ColumnProfileOf(name, vs);
      && r.nulls == NullCount(vs) && NonNullCount(vs) + r.nulls == |vs|
      && (r.nonNullPercent, r.nullPercent) == Percentages(NonNullCount(vs), |vs|)
  {
    CountsPartition(vs);
  }

  /** `no_nulos_porc`: `count()` over `len(df)`, times 100. */
  function NonNullPercent(present: nat, n: nat): real
    requires 0 < n
  {
    (present as real / n as real) * 100.0
  }

  /** `no_nulo%` and `nulo%` for `present` non-missing cells out of `n`:
      the first as the source computes it, the second as 100 minus it. */
  function Percentages(present: nat, n: nat): (real, real)
    requires 0 < n
  {
    (NonNullPercent(present, n), 100.0 - NonNullPercent(present, n))
  }

  lemma TagsCovered(vs: seq<Value>, u: seq<TypeTag>)
    requires forall x :: x in u ==> x in Tags(vs)
    ensures forall k :: 0 <= k < |u| ==> Observed(vs, u[k])
  {
    forall k | 0 <= k < |u|
      ensures Observed(vs, u[k])
    {
      assert u[k] in u;
      assert u[k] in Tags(vs);
      var i :| 0 <= i < |vs| && Tags(vs)[i] == u[k];
      assert TypeOf(vs[i]) == u[k];
    }
  }

  lemma DivSum(a: real, b: real, c: real)
    requires c > 0.0
    ensures a / c + b / c == (a + b) / c
  {
  }

  lemma DivSelf(c: real)
    requires c > 0.0
    ensures c / c == 1.0
  {
  }

  lemma ScaleDiv(k: real, a: real, c: real)
    requires c > 0.0
    ensures (k * a) / c == k * (a / c)
  {
  }

  lemma DivBounds(a: real, c: real)
    requires c > 0.0 && 0.0 <= a <= c
    ensures 0.0 <= a / c <= 1.0
  {
  }

  /** `no_nulo%` is 100 × present / n and `nulo%` is 100 × missing / n; both
      lie between 0 and 100 and they add up to 100. */
  lemma PercentFacts(present: nat, missing: nat, n: nat)
    requires n > 0 && present + missing == n
    ensures var pct := Percentages(present, n);
      && pct.0 == 100.0 * (present as real) / (n as real)
      && pct.1 == 100.0 * (missing as real) / (n as real)
      && 0.0 <= pct.0 <= 100.0 && 0.0 <= pct.1 <= 100.0
      && pct.0 + pct.1 == 100.0
  {
    var big, a, b := n as real, present as real, missing as real;
    DivSum(a, b, big);
    DivSelf(big);
    ScaleDiv(100.0, a, big);
    ScaleDiv(100.0, b, big);
    DivBounds(a, big);
  }

  /** One pass of the loop of `tipo_dato` over a column of `n` cells computes its profile. */
  lemma ProfileOfPass(name: string, vs: seq<Value>, n: nat)
    requires |vs| == n > 0
    ensures var p := NonNullPercent(NonNullCount(vs), n);
      ColumnProfileOf(name, vs) == ProfileRow(name, Unique(Tags(vs)), NullCount(vs), p, 100.0 - p)
  {
  }

  /** `tipo_dato(df)`: the loop over `df.columns` fills the five lists of
      `titulos`, one entry per column, and the summary table is built from them. */
  method TipoDato(df: Table) returns (info: seq<ProfileRow>)
    requires WellFormed(df)
    requires |df.rows| > 0 || |df.columns| == 0
    ensures |info| == |df.columns|
    ensures forall i :: 0 <= i < |df.columns| ==>
      info[i] == ColumnProfileOf(df.columns[i], Column(df, i))
  {
    var nombreCampo: seq<string> := [];
    var tipoDato: seq<seq<TypeTag>> := [];
    var nulo: seq<nat> := [];
    var noNuloPct: seq<real> := [];
    var nuloPct: seq<real> := [];
    for c := 0 to |df.columns|
      invariant |nombreCampo| == |tipoDato| == |nulo| == |noNuloPct| == |nuloPct| == c
      invariant forall i :: 0 <= i < c ==>
        ProfileRow(nombreCampo[i], tipoDato[i], nulo[i], noNuloPct[i], nuloPct[i])
          == ColumnProfileOf(df.columns[i], Column(df, i))
    {
      var columna := Column(df, c);
      var noNulosPorc := NonNullPercent(NonNullCount(columna), |df.rows|);
      ProfileOfPass(df.columns[c], columna, |df.rows|);
      nombreCampo := nombreCampo + [df.columns[c]];
      tipoDato := tipoDato + [Unique(Tags(columna))];
      noNuloPct := noNuloPct + [noNulosPorc];
      nuloPct := nuloPct + [100.0 - noNulosPorc];
      nulo := nulo + [NullCount(columna)];
    }
    info := seq(|nombreCampo|, i requires 0 <= i < |nombreCampo| =>
      ProfileRow(nombreCampo[i], tipoDato[i], nulo[i], noNuloPct[i], nuloPct[i]));
  }

  lemma UniqueOfRepeated(tag: TypeTag, n: nat)
    requires n > 0
    ensures Unique(seq(n, _ => tag)) == [tag]
  {
    if n > 1 {
      assert seq(n, _ => tag)[..n - 1] == seq(n - 1, _ => tag);
      UniqueOfRepeated(tag, n - 1);
    }
  }

  /** Worked case: the float column `[1, 2, NaN, 4]`. */
  lemma ProfileExampleFloat()
    ensures var a := ColumnProfileOf("A", [FloatVal(1.0), FloatVal(2.0), NaN, FloatVal(4.0)]);
      a.types == [FloatType] && a.nulls == 1 && a.nonNullPercent == 75.0 && a.nullPercent == 25.0
  {
    var vs := [FloatVal(1.0), FloatVal(2.0), NaN, FloatVal(4.0)];
    assert Tags(vs) == seq(4, _ => FloatType);
    UniqueOfRepeated(FloatType, 4);
    assert NullCount(vs) == 1 by {
      assert vs[1..][1..][1..] == [FloatVal(4.0)];
    }
    assert NonNullCount(vs) == 3;
    assert Percentages(3, 4) == (75.0, 25.0);
  }

  /** Worked case: the text column `["x", "x", "y", "y"]`. */
  lemma ProfileExampleText()
    ensures var b := ColumnProfileOf("B", [StrVal("x"), StrVal("x"), StrVal("y"), StrVal("y")]);
      b.types == [StrType] && b.nulls == 0 && b.nonNullPercent == 100.0 && b.nullPercent == 0.0
  {
    var vs := [StrVal("x"), StrVal("x"), StrVal("y"), StrVal("y")];
    assert Tags(vs) == seq(4, _ => StrType);
    UniqueOfRepeated(StrType, 4);
    assert NullCount(vs) == 0 by {
      assert vs[1..][1..][1..] == [StrVal("y")];
    }
    assert NonNullCount(vs) == 4;
    assert Percentages(4, 4) == (100.0, 0.0);
  }
}
