/** The reporting stages of an analysis: per-group proportions, the long-form ("melted")
    table, its re-ordering by group and the relabelling of its index column. */
module Proportions {
  import opened Tables

  // ---------------------------------------------------------------------------
  // Proportions (`get_proportions_df`)

  /** `group_df[column].values.sum() / group_df.shape[0]`, kept as an exact fraction;
      a size of 0 is numpy's 0/0. */
  datatype Ratio = Ratio(trues: nat, size: nat)

  /** `_df[_df[code] == group]`: the rows of one group, in order. */
  function GroupRows(rows: seq<Row>, code: string, g: Cell): (r: seq<Row>)
    requires HasColumn(rows, code)
    ensures |r| <= |rows|
    ensures forall x :: x in r ==> x in rows && x[code] == g
    ensures r == [] <==> forall x :: x in rows ==> x[code] != g
  {
    if rows == [] then []
    else
      assert rows[0] in rows;
      assert forall x :: x in rows <==> x == rows[0] || x in rows[1..];
      (if rows[0][code] == g then [rows[0]] else []) + GroupRows(rows[1..], code, g)
  }

  /** A group keeps every row with the group value, as often as it occurs, and no other row. */
  lemma {:induction false} GroupRowsCounts(rows: seq<Row>, code: string, g: Cell, x: Row)
    requires HasColumn(rows, code)
    ensures multiset(GroupRows(rows, code, g))[x] ==
            if x in rows && x[code] == g then multiset(rows)[x] else 0
  {
    if rows != [] {
      assert rows == [rows[0]] + rows[1..];
      assert rows[0] in rows;
      GroupRowsCounts(rows[1..], code, g, x);
    }
  }

  /** The sum of a boolean column: the number of its True cells. */
  function CountTrue(rows: seq<Row>, col: string): nat
    requires HasColumn(rows, col)
  {
    if rows == [] then 0
    else
      assert rows[0] in rows;
      (if rows[0][col] == Bool(true) then 1 else 0) + CountTrue(rows[1..], col)
  }

  /** The sum of a column counts exactly the rows whose cell is True. */
  lemma {:induction false} CountTrueRows(rows: seq<Row>, col: string)
    requires HasColumn(rows, col)
    ensures CountTrue(rows, col) == |GroupRows(rows, col, Bool(true))|
  {
    if rows != [] {
      CountTrueRows(rows[1..], col);
    }
  }

  /** One group's proportion for one output column. */
  function Proportion(rows: seq<Row>, code: string, g: Cell, col: string): (p: Ratio)
    requires HasColumn(rows, code) && HasColumn(rows, col)
    ensures p.trues <= p.size <= |rows|
    ensures p.size == 0 <==> forall x :: x in rows ==> x[code] != g
  {
    var grp := GroupRows(rows, code, g);
    CountTrueRows(grp, col);
    CountTrueBound(grp, col);
    Ratio(CountTrue(grp, col), |grp|)
  }

  /** A proportion is the number of the group's rows whose cell is True over the number of
      the group's rows; `GroupRowsCounts` says which rows those are. */
  lemma ProportionValue(rows: seq<Row>, code: string, g: Cell, col: string)
    requires HasColumn(rows, code) && HasColumn(rows, col)
    ensures Proportion(rows, code, g, col).size == |GroupRows(rows, code, g)|
    ensures Proportion(rows, code, g, col).trues == |GroupRows(GroupRows(rows, code, g), col, Bool(true))|
  {
    CountTrueRows(GroupRows(rows, code, g), col);
  }

  lemma {:induction false} CountTrueBound(rows: seq<Row>, col: string)
    requires HasColumn(rows, col)
    ensures CountTrue(rows, col) <= |rows|
  {
    if rows != [] {
      CountTrueBound(rows[1..], col);
    }
  }

  ghost predicate ColumnsPresent(rows: seq<Row>, cols: seq<string>) {
    forall c :: c in cols ==> HasColumn(rows, c)
  }

  /** The list `proportions` for one group: one entry per output column, in order. */
  function GroupProportions(rows: seq<Row>, code: string, g: Cell, cols: seq<string>): (ps: seq<Ratio>)
    requires HasColumn(rows, code) && ColumnsPresent(rows, cols)
    ensures |ps| == |cols|
  {
    seq(|cols|, k requires 0 <= k < |cols| => Proportion(rows, code, g, cols[k]))
  }

  /** `set(_df[code])`, enumerated in order of first occurrence. */
  function ObservedValues(rows: seq<Row>, code: string): (vs: seq<Cell>)
    requires HasColumn(rows, code)
    ensures Distinct(vs)
    ensures forall v :: v in vs <==> exists x :: x in rows && x[code] == v
    ensures vs == [] <==> rows == []
    decreases |rows|
  {
    if rows == [] then []
    else
      var n := |rows| - 1;
      assert forall x :: x in rows <==> x in rows[..n] || x == rows[n] by {
        assert rows == rows[..n] + [rows[n]];
      }
      var prev := ObservedValues(rows[..n], code);
      if rows[n][code] in prev then prev else prev + [rows[n][code]]
  }

  /** Every default group has at least one row, so none of its proportions divides by 0. */
  lemma DefaultGroupsNonEmpty(rows: seq<Row>, code: string, cols: seq<string>)
    requires HasColumn(rows, code) && ColumnsPresent(rows, cols)
    ensures forall g :: g in ObservedValues(rows, code) ==> GroupRows(rows, code, g) != []
    ensures forall g, k :: g in ObservedValues(rows, code) && 0 <= k < |cols| ==>
              GroupProportions(rows, code, g, cols)[k].size > 0
  {
  }

  /** A caller-supplied group that matches no row divides 0 by 0 in every column. */
  lemma EmptyGroupProportions(rows: seq<Row>, code: string, g: Cell, cols: seq<string>)
    requires HasColumn(rows, code) && ColumnsPresent(rows, cols)
    requires g !in ObservedValues(rows, code)
    ensures forall k :: 0 <= k < |cols| ==> GroupProportions(rows, code, g, cols)[k] == Ratio(0, 0)
  {
  }

  /** The dictionary `results` without its `'index'` entry: each group's proportion list,
      built by `results.update({group: proportions})` for the groups in turn. */
  function Results(rows: seq<Row>, code: string, groups: seq<Cell>, cols: seq<string>): seq<(Cell, seq<Ratio>)>
    requires HasColumn(rows, code) && ColumnsPresent(rows, cols)
    decreases |groups|
  {
    if groups == [] then []
    else
      var n := |groups| - 1;
      Update(Results(rows, code, groups[..n], cols), groups[n], GroupProportions(rows, code, groups[n], cols))
  }

  lemma {:induction false} ResultsKeys(rows: seq<Row>, code: string, groups: seq<Cell>, cols: seq<string>)
    requires HasColumn(rows, code) && ColumnsPresent(rows, cols)
    ensures Distinct(Keys(Results(rows, code, groups, cols)))
    ensures forall g :: g in Keys(Results(rows, code, groups, cols)) <==> g in groups
    ensures Distinct(groups) ==> Keys(Results(rows, code, groups, cols)) == groups
    ensures Keys(Results(rows, code, groups, cols)) == Dedup(groups)
    decreases |groups|
  {
    if groups != [] {
      var n := |groups| - 1;
      var init, g := groups[..n], groups[n];
      assert groups == init + [g];
      ResultsKeys(rows, code, init, cols);
      var prev := Results(rows, code, init, cols);
      UpdateKeys(prev, g, GroupProportions(rows, code, g, cols));
      UpdateKeyOrder(prev, g, GroupProportions(rows, code, g, cols));
      if Distinct(groups) {
        DistinctSnoc(init, g);
      }
    }
  }

  lemma DistinctSnoc<T>(s: seq<T>, x: T)
    requires Distinct(s + [x])
    ensures Distinct(s) && x !in s
  {
    var t := s + [x];
    forall i, j | 0 <= i < j < |s| ensures s[i] != s[j] {
      assert t[i] == s[i] && t[j] == s[j];
    }
    forall i | 0 <= i < |s| ensures s[i] != x {
      assert t[i] == s[i] && t[|s|] == x;
    }
  }

  lemma {:induction false} ResultsLookup(rows: seq<Row>, code: string, groups: seq<Cell>, cols: seq<string>)
    requires HasColumn(rows, code) && ColumnsPresent(rows, cols)
    ensures forall g :: g in groups ==>
              Lookup(Results(rows, code, groups, cols), g) == Some(GroupProportions(rows, code, g, cols))
    decreases |groups|
  {
    if groups != [] {
      var n := |groups| - 1;
      assert groups == groups[..n] + [groups[n]];
      ResultsLookup(rows, code, groups[..n], cols);
      forall g | g in groups
        ensures Lookup(Results(rows, code, groups, cols), g) == Some(GroupProportions(rows, code, g, cols))
      {
        UpdateLookup(Results(rows, code, groups[..n], cols), groups[n], GroupProportions(rows, code, groups[n], cols), g);
      }
    }
  }

  /** `results` has one entry per distinct group, in order of first mention; each group maps
      to its own proportion list, which is as long as the output column list. */
  lemma ResultsSpec(rows: seq<Row>, code: string, groups: seq<Cell>, cols: seq<string>)
    requires HasColumn(rows, code) && ColumnsPresent(rows, cols)
    ensures Distinct(Keys(Results(rows, code, groups, cols)))
    ensures forall g :: g in Keys(Results(rows, code, groups, cols)) <==> g in groups
    ensures Distinct(groups) ==> Keys(Results(rows, code, groups, cols)) == groups
    ensures Keys(Results(rows, code, groups, cols)) == Dedup(groups)
    ensures forall g :: g in groups ==>
              Lookup(Results(rows, code, groups, cols), g) == Some(GroupProportions(rows, code, g, cols))
    ensures forall i :: 0 <= i < |Results(rows, code, groups, cols)| ==>
              Results(rows, code, groups, cols)[i].1 == GroupProportions(rows, code, Results(rows, code, groups, cols)[i].0, cols)
  {
    ResultsKeys(rows, code, groups, cols);
    ResultsLookup(rows, code, groups, cols);
    var r := Results(rows, code, groups, cols);
    forall i | 0 <= i < |r| ensures r[i].1 == GroupProportions(rows, code, r[i].0, cols) {
      assert r[i].0 == Keys(r)[i];
      LookupItem(r, i);
    }
  }

  // ---------------------------------------------------------------------------
  // The long-form table (`pd.melt(pd.DataFrame(results), id_vars=['index'])`)

  /** The data frame `pd.DataFrame(results)`: the `'index'` column, then one column per group. */
  datatype Wide = Wide(index: seq<string>, results: seq<(Cell, seq<Ratio>)>)

  /** Every group column is as long as the `'index'` column, as `pd.DataFrame` demands. */
  ghost predicate Rectangular(w: Wide) {
    forall i :: 0 <= i < |w.results| ==> |w.results[i].1| == |w.index|
  }

  /** One row of the melted table: an output column, a group and its proportion. */
  datatype MeltRow = MeltRow(index: string, variable: Cell, value: Ratio)

  /** The melted rows of one group column, in the order of the `'index'` column. */
  function MeltColumn(index: seq<string>, entry: (Cell, seq<Ratio>)): seq<MeltRow>
    requires |entry.1| == |index|
  {
    seq(|index|, c requires 0 <= c < |index| => MeltRow(index[c], entry.0, entry.1[c]))
  }

  /** `pd.melt`: the group columns one after the other. */
  function Melt(w: Wide): seq<MeltRow>
    requires Rectangular(w)
    decreases |w.results|
  {
    if w.results == [] then []
    else MeltColumn(w.index, w.results[0]) + Melt(Wide(w.index, w.results[1..]))
  }

  lemma {:induction false} MeltLength(w: Wide)
    requires Rectangular(w)
    ensures |Melt(w)| == Scaled(|w.index|, |w.results|)
    decreases |w.results|
  {
    if w.results != [] {
      MeltLength(Wide(w.index, w.results[1..]));
    }
  }

  /** The melted table is group-major: the row of group `g` and output column `c` sits at
      position `g * |index| + c` (the product written `Scaled(|index|, g)`, see
      `ScaledIsProduct`) and carries exactly that cell of the wide table. */
  lemma {:induction false} MeltAt(w: Wide, g: nat, c: nat)
    requires Rectangular(w) && g < |w.results| && c < |w.index|
    ensures Scaled(|w.index|, g) + c < |Melt(w)|
    ensures Melt(w)[Scaled(|w.index|, g) + c] == MeltRow(w.index[c], w.results[g].0, w.results[g].1[c])
    decreases g
  {
    var n := |w.index|;
    var w' := Wide(w.index, w.results[1..]);
    var b := MeltColumn(w.index, w.results[0]);
    assert Melt(w) == b + Melt(w');
    if g > 0 {
      MeltAt(w', g - 1, c);
      assert Scaled(n, g) + c == n + (Scaled(n, g - 1) + c);
      assert w'.results[g - 1] == w.results[g];
    } else {
      assert Scaled(n, g) == 0;
    }
  }

  /** The melted table has `|groups| * |output columns|` rows. */
  lemma MeltSize(w: Wide)
    requires Rectangular(w)
    ensures |Melt(w)| == |w.results| * |w.index|
  {
    MeltLength(w);
    ScaledIsProduct(|w.index|, |w.results|);
  }

  /** Reads a wide table back from its melted rows, given the `'index'` column. */
  function Unmelt(index: seq<string>, m: seq<MeltRow>): (w: Wide)
    requires |index| > 0
    decreases |m|
  {
    if |m| < |index| then Wide(index, [])
    else
      var rest := Unmelt(index, m[|index|..]);
      Wide(index, [(m[0].variable, seq(|index|, c requires 0 <= c < |index| => m[c].value))] + rest.results)
  }

  /** Melting loses nothing: the wide table is recovered from its melted rows (for a
      non-empty `'index'` column). */
  lemma {:induction false} MeltRoundTrip(w: Wide)
    requires Rectangular(w) && |w.index| > 0
    ensures Unmelt(w.index, Melt(w)) == w
    decreases |w.results|
  {
    if w.results != [] {
      var n := |w.index|;
      var w' := Wide(w.index, w.results[1..]);
      var b := MeltColumn(w.index, w.results[0]);
      var m := Melt(w);
      assert m == b + Melt(w');
      assert m[n..] == Melt(w');
      MeltRoundTrip(w');
      assert seq(n, c requires 0 <= c < n => m[c].value) == w.results[0].1;
      assert w.results == [w.results[0]] + w.results[1..];
    }
  }

  // ---------------------------------------------------------------------------
  // Sorting by group (`sort_proportions_melted_df`)

  /** `_df[_df['variable'] == item]`: the melted rows of one group, in order. */
  function Select(m: seq<MeltRow>, item: string): (r: seq<MeltRow>)
    ensures forall x :: x in r ==> x in m && x.variable == Str(item)
  {
    if m == [] then []
    else (if m[0].variable == Str(item) then [m[0]] else []) + Select(m[1..], item)
  }

  /** `pd.concat(df_list)` of a non-empty list: the frames one after the other. */
  function Concat(frames: seq<seq<MeltRow>>): seq<MeltRow>
    decreases |frames|
  {
    if frames == [] then []
    else Concat(frames[..|frames| - 1]) + frames[|frames| - 1]
  }

  /** The blocks `Select(m, item)` for the entries of `order` in turn, concatenated. */
  function Sorted(m: seq<MeltRow>, order: seq<string>): seq<MeltRow>
    decreases |order|
  {
    if order == [] then []
    else Sorted(m, order[..|order| - 1]) + Select(m, order[|order| - 1])
  }

  lemma ConcatSnoc(frames: seq<seq<MeltRow>>, f: seq<MeltRow>)
    ensures Concat(frames + [f]) == Concat(frames) + f
  {
    assert (frames + [f])[..|frames|] == frames;
  }

  lemma SortedSnoc(m: seq<MeltRow>, order: seq<string>, i: nat)
    requires i < |order|
    ensures Sorted(m, order[..i + 1]) == Sorted(m, order[..i]) + Select(m, order[i])
  {
    assert order[..i + 1][..i] == order[..i];
    assert order[..i + 1][i] == order[i];
  }

  /** How many entries of `order` name the group `v`. */
  function Hits(order: seq<string>, v: Cell): nat
    decreases |order|
  {
    if order == [] then 0
    else Hits(order[..|order| - 1], v) + (if Str(order[|order| - 1]) == v then 1 else 0)
  }

  lemma {:induction false} HitsZero(order: seq<string>, v: Cell)
    ensures Hits(order, v) == 0 <==> forall k :: 0 <= k < |order| ==> Str(order[k]) != v
    decreases |order|
  {
    if order != [] {
      var n := |order| - 1;
      HitsZero(order[..n], v);
      assert forall k :: 0 <= k < n ==> order[..n][k] == order[k];
    }
  }

  lemma {:induction false} HitsOne(order: seq<string>, v: Cell)
    requires Distinct(order) && exists k :: 0 <= k < |order| && Str(order[k]) == v
    ensures Hits(order, v) == 1
    decreases |order|
  {
    var n := |order| - 1;
    assert forall k :: 0 <= k < n ==> order[..n][k] == order[k];
    if Str(order[n]) == v {
      assert forall k :: 0 <= k < n ==> order[k] != order[n];
      HitsZero(order[..n], v);
    } else {
      HitsOne(order[..n], v);
    }
  }

  /** `c` added `k` times. */
  function Scaled(c: nat, k: nat): nat {
    if k == 0 then 0 else Scaled(c, k - 1) + c
  }

  lemma {:induction false} ScaledIsProduct(c: nat, k: nat)
    ensures Scaled(c, k) == c * k
  {
    if k > 0 {
      ScaledIsProduct(c, k - 1);
      assert c * k == c * (k - 1) + c;
    }
  }

  /** How often `x` occurs in `s`. */
  function Count(s: seq<MeltRow>, x: MeltRow): nat {
    if s == [] then 0 else (if s[0] == x then 1 else 0) + Count(s[1..], x)
  }

  lemma {:induction false} CountAppend(a: seq<MeltRow>, b: seq<MeltRow>, x: MeltRow)
    ensures Count(a + b, x) == Count(a, x) + Count(b, x)
  {
    if a != [] {
      assert (a + b)[1..] == a[1..] + b;
      CountAppend(a[1..], b, x);
    } else {
      assert a + b == b;
    }
  }

  lemma {:induction false} CountIsMultiplicity(s: seq<MeltRow>, x: MeltRow)
    ensures Count(s, x) == multiset(s)[x]
  {
    if s != [] {
      CountIsMultiplicity(s[1..], x);
      assert s == [s[0]] + s[1..];
    }
  }

  /** A group's block holds each of its rows as often as the melted table does. */
  lemma {:induction false} SelectCopies(m: seq<MeltRow>, item: string, x: MeltRow)
    ensures Count(Select(m, item), x) == if x.variable == Str(item) then Count(m, x) else 0
  {
    if m != [] {
      SelectCopies(m[1..], item, x);
      var head := if m[0].variable == Str(item) then [m[0]] else [];
      CountAppend(head, Select(m[1..], item), x);
    }
  }

  /** The sorted table holds each row once per entry of `order` naming its group. */
  lemma {:induction false} SortCopies(m: seq<MeltRow>, order: seq<string>, x: MeltRow)
    ensures Count(Sorted(m, order), x) == Scaled(Count(m, x), Hits(order, x.variable))
    decreases |order|
  {
    if order != [] {
      var n := |order| - 1;
      SortCopies(m, order[..n], x);
      SelectCopies(m, order[n], x);
      CountAppend(Sorted(m, order[..n]), Select(m, order[n]), x);
    }
  }

  /** Every melted row appears in the sorted table once per entry of `order` naming its
      group: rows of unlisted groups are dropped and a repeated entry repeats its block. */
  lemma SortCounts(m: seq<MeltRow>, order: seq<string>, x: MeltRow)
    ensures multiset(Sorted(m, order))[x] == multiset(m)[x] * Hits(order, x.variable)
  {
    SortCopies(m, order, x);
    CountIsMultiplicity(m, x);
    CountIsMultiplicity(Sorted(m, order), x);
    ScaledIsProduct(multiset(m)[x], Hits(order, x.variable));
  }

  /** Rows whose group `order` does not name are not in the sorted table. */
  lemma SortDropsUnlisted(m: seq<MeltRow>, order: seq<string>, x: MeltRow)
    requires forall k :: 0 <= k < |order| ==> Str(order[k]) != x.variable
    ensures x !in Sorted(m, order)
  {
    SortCounts(m, order, x);
    HitsZero(order, x.variable);
  }

  /** With distinct entries naming every group of the table, sorting is a permutation. */
  lemma SortPermutes(m: seq<MeltRow>, order: seq<string>)
    requires Distinct(order)
    requires forall x :: x in m ==> exists k :: 0 <= k < |order| && Str(order[k]) == x.variable
    ensures multiset(Sorted(m, order)) == multiset(m)
  {
    forall x ensures multiset(Sorted(m, order))[x] == multiset(m)[x] {
      SortCounts(m, order, x);
      if x in m {
        HitsOne(order, x.variable);
      }
    }
  }

  /** Each block keeps the group's rows in their melted order: the block of the group of
      `m[i]` starts with `m[i]` when it is the group's first row. */
  lemma {:induction false} SelectFirst(m: seq<MeltRow>, item: string, i: nat)
    requires i < |m| && m[i].variable == Str(item)
    requires forall j :: 0 <= j < i ==> m[j].variable != Str(item)
    ensures Select(m, item) == [m[i]] + Select(m[i + 1..], item)
  {
    if i > 0 {
      SelectFirst(m[1..], item, i - 1);
      assert m[1..][i..] == m[i + 1..];
    }
  }

  // ---------------------------------------------------------------------------
  // Relabelling (`convert_qs_to_questions`)

  /** One melted row whose `index` is replaced by the first answer of that question. */
  function RelabelRow(x: MeltRow, questions: seq<(string, seq<string>)>): Result<MeltRow> {
    match Lookup(questions, x.index)
    case None => Err(KeyError(x.index))
    case Some(answers) => if answers == [] then Err(IndexError) else Ok(x.(index := answers[0]))
  }

  /** `[job['questions'][q][0] for q in melted['index']]` applied to the `index` column:
      the first row that fails decides the error. */
  function Relabel(m: seq<MeltRow>, questions: seq<(string, seq<string>)>): Result<seq<MeltRow>>
    decreases |m|
  {
    if m == [] then Ok([])
    else
      var n := |m| - 1;
      match Relabel(m[..n], questions)
      case Err(e) => Err(e)
      case Ok(prev) =>
        match RelabelRow(m[n], questions)
        case Err(e) => Err(e)
        case Ok(x) => Ok(prev + [x])
  }

  /** Relabelling succeeds exactly when every index is a question with at least one answer;
      it then swaps each index for that first answer and keeps the group and value; otherwise it
      fails with the error of the first row that cannot be relabelled. */
  lemma {:induction false} RelabelSpec(m: seq<MeltRow>, questions: seq<(string, seq<string>)>)
    ensures Relabel(m, questions).Ok? <==> forall i :: 0 <= i < |m| ==> RelabelRow(m[i], questions).Ok?
    ensures Relabel(m, questions).Ok? ==>
              var r := Relabel(m, questions).value;
              |r| == |m| &&
              forall i :: 0 <= i < |m| ==>
                m[i].index in Keys(questions) &&
                var answers := Lookup(questions, m[i].index).value;
                answers != [] && r[i] == MeltRow(answers[0], m[i].variable, m[i].value)
    ensures Relabel(m, questions).Err? ==>
              exists i :: 0 <= i < |m| && RelabelRow(m[i], questions) == Err(Relabel(m, questions).error)
                          && forall j :: 0 <= j < i ==> RelabelRow(m[j], questions).Ok?
    decreases |m|
  {
    if m != [] {
      var n := |m| - 1;
      RelabelSpec(m[..n], questions);
      assert forall i :: 0 <= i < n ==> m[..n][i] == m[i];
    }
  }

  /** Once a row cannot be relabelled, the later rows are not looked at. */
  lemma {:induction false} RelabelPrefixError(m: seq<MeltRow>, questions: seq<(string, seq<string>)>, k: nat)
    requires k <= |m| && Relabel(m[..k], questions).Err?
    ensures Relabel(m, questions) == Relabel(m[..k], questions)
    decreases |m| - k
  {
    if k < |m| {
      var n := |m| - 1;
      assert m[..n][..k] == m[..k];
      RelabelPrefixError(m[..n], questions, k);
    } else {
      assert m[..k] == m;
    }
  }
}
