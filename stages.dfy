/** The table-to-table stages of an analysis: row filtering, answer binarization
    (plain and split mode) and aggregation. Each stage is a function of the working
    table; the methods of `Analyses.Analysis` run them step by step. */
module Stages {
  import opened Tables
  import opened Jobs

  // ---------------------------------------------------------------------------
  // Row filter (`filter_self`)

  /** A filter with its category already resolved: column code and allowed raw values. */
  type Filter = (string, seq<string>)

  /** `df[code].isin(values)` for one row. */
  predicate Admits(r: Row, f: Filter)
    requires f.0 in r
  {
    r[f.0].Str? && r[f.0].s in f.1
  }

  /** The job's filters with each category name replaced by its column code. */
  function ResolvedFilters(filters: seq<(string, seq<string>)>, categories: seq<(string, string)>): seq<Filter>
    requires forall i :: 0 <= i < |filters| ==> Lookup(categories, filters[i].0).Some?
  {
    seq(|filters|, i requires 0 <= i < |filters| => (Lookup(categories, filters[i].0).value, filters[i].1))
  }

  ghost predicate Applicable(rows: seq<Row>, fs: seq<Filter>) {
    forall f :: f in fs ==> HasColumn(rows, f.0)
  }

  /** `df[df[code].isin(values)]`: the rows one filter admits. */
  function KeepRows(rows: seq<Row>, f: Filter): (r: seq<Row>)
    requires HasColumn(rows, f.0)
    ensures forall x :: x in r ==> x in rows
  {
    if rows == [] then []
    else (if Admits(rows[0], f) then [rows[0]] else []) + KeepRows(rows[1..], f)
  }

  /** The filters applied one after the other, as the loop of `filter_self` does. */
  function ApplyFilters(rows: seq<Row>, fs: seq<Filter>): (r: seq<Row>)
    requires Applicable(rows, fs)
    ensures forall x :: x in r ==> x in rows
    decreases |fs|
  {
    if fs == [] then rows
    else
      var init := ApplyFilters(rows, fs[..|fs| - 1]);
      KeepRows(init, fs[|fs| - 1])
  }

  /** A row passes every filter. */
  predicate AdmitsAll(r: Row, fs: seq<Filter>)
    requires forall f :: f in fs ==> f.0 in r
  {
    forall f :: f in fs ==> Admits(r, f)
  }

  /** Reference definition: one pass over the rows keeping those that pass every filter. */
  function KeepAll(rows: seq<Row>, fs: seq<Filter>): (r: seq<Row>)
    requires Applicable(rows, fs)
    ensures forall x :: x in r ==> x in rows
  {
    if rows == [] then []
    else (if AdmitsAll(rows[0], fs) then [rows[0]] else []) + KeepAll(rows[1..], fs)
  }

  lemma {:induction false} KeepRowsAfterKeepAll(rows: seq<Row>, fs: seq<Filter>, f: Filter)
    requires Applicable(rows, fs + [f])
    ensures Applicable(rows, fs)
    ensures KeepRows(KeepAll(rows, fs), f) == KeepAll(rows, fs + [f])
  {
    assert forall g :: g in fs ==> g in fs + [f];
    if rows != [] {
      var x, rest := rows[0], rows[1..];
      assert x in rows;
      assert forall y :: y in rest ==> y in rows;
      KeepRowsAfterKeepAll(rest, fs, f);
      assert AdmitsAll(x, fs + [f]) == (AdmitsAll(x, fs) && Admits(x, f)) by {
        assert forall g :: g in fs + [f] <==> g in fs || g == f;
      }
      if AdmitsAll(x, fs) {
        var k := KeepAll(rows, fs);
        assert k == [x] + KeepAll(rest, fs);
        assert k[0] == x && k[1..] == KeepAll(rest, fs);
        assert KeepRows(k, f) == (if Admits(x, f) then [x] else []) + KeepRows(KeepAll(rest, fs), f);
      } else {
        assert KeepAll(rows, fs) == KeepAll(rest, fs);
      }
    }
  }

  /** Applying the filters in turn keeps exactly the rows that pass all of them, in their
      original order. */
  lemma {:induction false} FilterExact(rows: seq<Row>, fs: seq<Filter>)
    requires Applicable(rows, fs)
    ensures ApplyFilters(rows, fs) == KeepAll(rows, fs)
    decreases |fs|
  {
    if fs == [] {
      KeepAllNoFilters(rows);
    } else {
      var init, last := fs[..|fs| - 1], fs[|fs| - 1];
      assert fs == init + [last];
      FilterExact(rows, init);
      KeepRowsAfterKeepAll(rows, init, last);
    }
  }

  lemma {:induction false} KeepAllNoFilters(rows: seq<Row>)
    ensures KeepAll(rows, []) == rows
  {
    if rows != [] {
      KeepAllNoFilters(rows[1..]);
      assert rows == [rows[0]] + rows[1..];
    }
  }

  /** The rows kept, with their multiplicities: each admitted row as often as in the input,
      every other row not at all. */
  lemma {:induction false} KeepAllCounts(rows: seq<Row>, fs: seq<Filter>, x: Row)
    requires Applicable(rows, fs) && x in rows
    ensures multiset(KeepAll(rows, fs))[x] == if AdmitsAll(x, fs) then multiset(rows)[x] else 0
  {
    if rows != [] {
      assert rows == [rows[0]] + rows[1..];
      if x in rows[1..] {
        KeepAllCounts(rows[1..], fs, x);
      } else {
        assert x == rows[0];
        assert multiset(KeepAll(rows[1..], fs))[x] == 0;
      }
    }
  }

  lemma {:induction false} KeepAllTwice(rows: seq<Row>, fs: seq<Filter>)
    requires Applicable(rows, fs)
    ensures KeepAll(KeepAll(rows, fs), fs) == KeepAll(rows, fs)
  {
    if rows != [] {
      var x, rest := rows[0], rows[1..];
      assert forall y :: y in rest ==> y in rows;
      KeepAllTwice(rest, fs);
      var k := KeepAll(rows, fs);
      if AdmitsAll(x, fs) {
        assert k == [x] + KeepAll(rest, fs);
        assert k[0] == x && k[1..] == KeepAll(rest, fs);
      } else {
        assert k == KeepAll(rest, fs);
      }
    }
  }

  /** Filtering an already filtered table with the same filters changes nothing. */
  lemma FilterIdempotent(rows: seq<Row>, fs: seq<Filter>)
    requires Applicable(rows, fs)
    ensures Applicable(ApplyFilters(rows, fs), fs)
    ensures ApplyFilters(ApplyFilters(rows, fs), fs) == ApplyFilters(rows, fs)
  {
    FilterExact(rows, fs);
    FilterExact(ApplyFilters(rows, fs), fs);
    KeepAllTwice(rows, fs);
  }

  lemma {:induction false} KeepAllSameFilters(rows: seq<Row>, fs: seq<Filter>, gs: seq<Filter>)
    requires Applicable(rows, fs) && Applicable(rows, gs)
    requires forall f :: f in fs <==> f in gs
    ensures KeepAll(rows, fs) == KeepAll(rows, gs)
  {
    if rows != [] {
      KeepAllSameFilters(rows[1..], fs, gs);
    }
  }

  /** The order (and repetition) of the filters does not affect the result. */
  lemma FilterOrderIrrelevant(rows: seq<Row>, fs: seq<Filter>, gs: seq<Filter>)
    requires Applicable(rows, fs) && Applicable(rows, gs)
    requires forall f :: f in fs <==> f in gs
    ensures ApplyFilters(rows, fs) == ApplyFilters(rows, gs)
  {
    FilterExact(rows, fs);
    FilterExact(rows, gs);
    KeepAllSameFilters(rows, fs, gs);
  }


  // ---------------------------------------------------------------------------
  // Plain-mode binarization (`collect_answers` without `split_question`)

  /** `df[q].apply(lambda cell: str(cell) in answers)`: list membership. */
  function MembershipColumn(t: Table, q: string, answers: seq<string>): seq<Cell>
    requires HasColumn(t.rows, q)
  {
    seq(|t.rows|, i requires 0 <= i < |t.rows| =>
      assert t.rows[i] in t.rows; Bool(Show(t.rows[i][q]) in answers))
  }

  /** `df[q] = df[q].apply(lambda cell: str(cell) in answers)`. */
  function Binarize(t: Table, q: string, answers: seq<string>): (r: Table)
    requires WellFormed(t) && q in t.columns
    ensures r.columns == t.columns && |r.rows| == |t.rows| && WellFormed(r)
  {
    SetColumn(t, q, MembershipColumn(t, q, answers))
  }

  ghost predicate QuestionsPresent(t: Table, qs: seq<(string, seq<string>)>) {
    forall q :: q in Keys(qs) ==> q in t.columns
  }

  /** The loop over `job['questions'].items()`. */
  function BinarizeAll(t: Table, qs: seq<(string, seq<string>)>): (r: Table)
    requires WellFormed(t) && QuestionsPresent(t, qs)
    ensures r.columns == t.columns && |r.rows| == |t.rows| && WellFormed(r)
    decreases |qs|
  {
    if qs == [] then t
    else
      var n := |qs| - 1;
      assert Keys(qs[..n]) == Keys(qs)[..n];
      assert qs[n].0 == Keys(qs)[n];
      Binarize(BinarizeAll(t, qs[..n]), qs[n].0, qs[n].1)
  }

  /** Reference definition of one row after plain binarization: a question's cell becomes
      whether its string form is one of the question's answers; other cells are kept. */
  function PlainRow(row: Row, qs: seq<(string, seq<string>)>): Row {
    map k | k in row :: match Lookup(qs, k)
                        case Some(answers) => Bool(Show(row[k]) in answers)
                        case None => row[k]
  }

  lemma PlainRowStep(row: Row, init: seq<(string, seq<string>)>, q: string, answers: seq<string>)
    requires q in row && q !in Keys(init)
    ensures q in PlainRow(row, init) && PlainRow(row, init)[q] == row[q]
    ensures PlainRow(row, init)[q := Bool(Show(row[q]) in answers)] == PlainRow(row, init + [(q, answers)])
  {
    var a := PlainRow(row, init)[q := Bool(Show(row[q]) in answers)];
    var b := PlainRow(row, init + [(q, answers)]);
    forall k | k in row ensures a[k] == b[k] {
      LookupSnoc(init, q, answers, k);
    }
    assert a.Keys == b.Keys;
  }

  /** Distinct keys of a dictionary: the last key is not among the earlier ones. */
  lemma LastKeyIsNew<V>(d: seq<(string, V)>)
    requires Distinct(Keys(d)) && d != []
    ensures Keys(d[..|d| - 1]) == Keys(d)[..|d| - 1] && Distinct(Keys(d[..|d| - 1]))
    ensures d[|d| - 1].0 !in Keys(d[..|d| - 1])
  {
    var n := |d| - 1;
    assert Keys(d[..n]) == Keys(d)[..n];
    assert d[n].0 == Keys(d)[n];
    forall j | 0 <= j < n ensures Keys(d[..n])[j] != d[n].0 {
      assert Keys(d)[j] != Keys(d)[n];
    }
  }

  /** After plain binarization each question column holds True exactly when the cell's
      string form is a member of that question's answer list; other columns are unchanged. */
  lemma {:induction false} PlainCollectSpec(t: Table, qs: seq<(string, seq<string>)>)
    requires WellFormed(t) && QuestionsPresent(t, qs) && Distinct(Keys(qs))
    ensures forall i :: 0 <= i < |t.rows| ==> BinarizeAll(t, qs).rows[i] == PlainRow(t.rows[i], qs)
    decreases |qs|
  {
    if qs != [] {
      var n := |qs| - 1;
      var init, q, answers := qs[..n], qs[n].0, qs[n].1;
      assert qs == init + [(q, answers)];
      LastKeyIsNew(qs);
      assert Keys(qs)[n] == q;
      assert q in t.columns;
      PlainCollectSpec(t, init);
      var prev := BinarizeAll(t, init);
      forall i | 0 <= i < |t.rows|
        ensures BinarizeAll(t, qs).rows[i] == PlainRow(t.rows[i], qs)
      {
        assert t.rows[i] in t.rows;
        PlainRowStep(t.rows[i], init, q, answers);
      }
    }
  }

  /** Every question column is boolean after plain binarization. */
  lemma {:induction false} PlainCollectBool(t: Table, qs: seq<(string, seq<string>)>)
    requires WellFormed(t) && QuestionsPresent(t, qs)
    ensures forall q :: q in Keys(qs) ==> BoolColumn(BinarizeAll(t, qs), q)
    decreases |qs|
  {
    if qs != [] {
      var n := |qs| - 1;
      var init := qs[..n];
      assert Keys(init) == Keys(qs)[..n];
      assert qs[n].0 == Keys(qs)[n];
      PlainCollectBool(t, init);
      var prev := BinarizeAll(t, init);
      var v := MembershipColumn(prev, qs[n].0, qs[n].1);
      forall q | q in Keys(qs) ensures BoolColumn(BinarizeAll(t, qs), q) {
        assert q in Keys(init) || q == qs[n].0;
        SetColumnKeepsBool(prev, qs[n].0, v, q);
      }
    }
  }

  // ---------------------------------------------------------------------------
  // Split-mode binarization (`collect_answers` with `split_question`)

  /** `df[sq].apply(lambda cell: str(cell) in answer)`: a SUBSTRING test, since `answer` is
      a string. */
  function SubstringColumn(t: Table, sq: string, answer: string): seq<Cell>
    requires HasColumn(t.rows, sq)
  {
    seq(|t.rows|, i requires 0 <= i < |t.rows| =>
      assert t.rows[i] in t.rows; Bool(IsSubstring(Show(t.rows[i][sq]), answer)))
  }

  /** `df[answer] = df[sq].apply(lambda cell: str(cell) in answer)`. */
  function SplitColumn(t: Table, sq: string, answer: string): (r: Table)
    requires WellFormed(t) && sq in t.columns
    ensures forall k :: k in r.columns <==> k in t.columns || k == answer
    ensures |r.rows| == |t.rows| && WellFormed(r)
  {
    SetColumn(t, answer, SubstringColumn(t, sq, answer))
  }

  /** The loop over `job['questions'][sq]`. */
  function SplitAll(t: Table, sq: string, answers: seq<string>): (r: Table)
    requires WellFormed(t) && sq in t.columns
    ensures forall k :: k in r.columns <==> k in t.columns || k in answers
    ensures |r.rows| == |t.rows| && WellFormed(r)
    decreases |answers|
  {
    if answers == [] then t
    else
      var n := |answers| - 1;
      assert answers == answers[..n] + [answers[n]];
      SplitColumn(SplitAll(t, sq, answers[..n]), sq, answers[n])
  }

  /** Reference definition of one row after split binarization: one boolean per answer value,
      true when the split cell's string form occurs in that value; other cells are kept. */
  function SplitRow(row: Row, sq: string, answers: seq<string>): Row
    requires sq in row
  {
    var ks := row.Keys + (set a | a in answers);
    map k | k in ks ::
      if k in answers then Bool(IsSubstring(Show(row[sq]), k)) else row[k]
  }

  lemma SplitRowStep(row: Row, sq: string, init: seq<string>, a: string)
    requires sq in row && sq !in init && sq != a
    ensures sq in SplitRow(row, sq, init) && SplitRow(row, sq, init)[sq] == row[sq]
    ensures SplitRow(row, sq, init)[a := Bool(IsSubstring(Show(row[sq]), a))] == SplitRow(row, sq, init + [a])
  {
    var x := SplitRow(row, sq, init)[a := Bool(IsSubstring(Show(row[sq]), a))];
    var y := SplitRow(row, sq, init + [a]);
    assert forall k :: k in init + [a] <==> k in init || k == a;
    forall k | k in x ensures k in y && x[k] == y[k] {
    }
    assert x.Keys == y.Keys;
  }

  /** When the split question is not itself one of the answer values, every answer column
      holds the substring test against the split column, which stays as it was, like every
      other column. */
  lemma {:induction false} SplitCollectSpec(t: Table, sq: string, answers: seq<string>)
    requires WellFormed(t) && sq in t.columns && sq !in answers
    ensures forall i :: 0 <= i < |t.rows| ==>
              (sq in t.rows[i] && SplitAll(t, sq, answers).rows[i] == SplitRow(t.rows[i], sq, answers))
    decreases |answers|
  {
    assert forall i :: 0 <= i < |t.rows| ==> t.rows[i] in t.rows;
    if answers != [] {
      var n := |answers| - 1;
      var init, a := answers[..n], answers[n];
      assert answers == init + [a];
      SplitCollectSpec(t, sq, init);
      forall i | 0 <= i < |t.rows|
        ensures SplitAll(t, sq, answers).rows[i] == SplitRow(t.rows[i], sq, answers)
      {
        SplitRowStep(t.rows[i], sq, init, a);
      }
    }
  }

  /** A split cell exactly equal to an answer value marks that answer True. */
  lemma SplitExactMatch(t: Table, sq: string, answers: seq<string>, i: int, a: string)
    requires WellFormed(t) && sq in t.columns && sq !in answers
    requires 0 <= i < |t.rows| && a in answers
    requires sq in t.rows[i] && Show(t.rows[i][sq]) == a
    ensures SplitAll(t, sq, answers).rows[i][a] == Bool(true)
  {
    SplitCollectSpec(t, sq, answers);
    assert a[..|a|] == a;
    assert IsSubstring(a, a);
  }

  /** Every answer column is boolean after split binarization. */
  lemma {:induction false} SplitCollectBool(t: Table, sq: string, answers: seq<string>)
    requires WellFormed(t) && sq in t.columns
    ensures forall a :: a in answers ==> BoolColumn(SplitAll(t, sq, answers), a)
    decreases |answers|
  {
    if answers != [] {
      var n := |answers| - 1;
      var init := answers[..n];
      assert answers == init + [answers[n]];
      SplitCollectBool(t, sq, init);
      var prev := SplitAll(t, sq, init);
      var v := SubstringColumn(prev, sq, answers[n]);
      forall a | a in answers ensures BoolColumn(SplitAll(t, sq, answers), a) {
        SetColumnKeepsBool(prev, answers[n], v, a);
      }
    }
  }

  /** The substring test is looser than equality: an empty cell matches every answer value,
      and a cell "9" matches the answer value "99". */
  lemma SubstringQuirk(answer: string)
    ensures IsSubstring("", answer)
    ensures IsSubstring("9", "99") && "9" != "99"
  {
  }

  /** `collect_answers` on the working table; in split mode, looking up the split question
      among the job's questions can fail. */
  function Collected(job: Job, t: Table): Result<Table>
    requires WellFormed(t) && QuestionsPresent(t, job.questions)
  {
    match job.splitQuestion
    case Some(sq) =>
      (match Lookup(job.questions, sq)
       case None => Err(KeyError(sq))
       case Some(answers) => Ok(SplitAll(t, sq, answers)))
    case None => Ok(BinarizeAll(t, job.questions))
  }

  // ---------------------------------------------------------------------------
  // Aggregation (`aggregate_answers`)

  /** `DataFrame(df[members]).any(axis=1)` for one row: some member cell is truthy. */
  function AnyTruthy(r: Row, members: seq<string>): bool
    requires forall m :: m in members ==> m in r
  {
    members != [] && (Truthy(r[members[0]]) || AnyTruthy(r, members[1..]))
  }

  /** The row-wise OR is true exactly when some member cell is truthy (never for no members). */
  lemma {:induction false} AnyTruthyIff(r: Row, members: seq<string>)
    requires forall m :: m in members ==> m in r
    ensures AnyTruthy(r, members) <==> exists m :: m in members && Truthy(r[m])
  {
    if members != [] {
      AnyTruthyIff(r, members[1..]);
      assert forall m :: m in members <==> m == members[0] || m in members[1..];
    }
  }

  lemma {:induction false} AnyTruthySameCells(r: Row, r': Row, members: seq<string>)
    requires forall m :: m in members ==> m in r && m in r' && r[m] == r'[m]
    ensures AnyTruthy(r, members) == AnyTruthy(r', members)
  {
    if members != [] {
      AnyTruthySameCells(r, r', members[1..]);
    }
  }

  ghost predicate MembersPresent(t: Table, members: seq<string>) {
    forall m :: m in members ==> m in t.columns
  }

  /** `DataFrame(df[members]).any(axis=1)`. */
  function AnyColumn(t: Table, members: seq<string>): seq<Cell>
    requires WellFormed(t) && MembersPresent(t, members)
  {
    seq(|t.rows|, i requires 0 <= i < |t.rows| =>
      assert t.rows[i] in t.rows; Bool(AnyTruthy(t.rows[i], members)))
  }

  /** The loop over `job['aggregation'].items()`, writing into the working table in place:
      a member column that is missing stops it with a KeyError, leaving the aggregations
      already written in the table. */
  function Aggregate(t: Table, aggs: seq<(string, seq<string>)>): (r: (Table, Option<Error>))
    requires WellFormed(t)
    ensures WellFormed(r.0) && |r.0.rows| == |t.rows|
    ensures forall k :: k in r.0.columns ==> k in t.columns || k in Keys(aggs)
    ensures forall k :: k in t.columns ==> k in r.0.columns
    decreases |aggs|
  {
    if aggs == [] then (t, None)
    else
      var n := |aggs| - 1;
      assert Keys(aggs[..n]) == Keys(aggs)[..n];
      assert aggs[n].0 == Keys(aggs)[n];
      var (prev, e) := Aggregate(t, aggs[..n]);
      if e.Some? then (prev, e)
      else
        match FirstMissing(aggs[n].1, prev.columns)
        case Some(m) => (prev, Some(KeyError(m)))
        case None => (SetColumn(prev, aggs[n].0, AnyColumn(prev, aggs[n].1)), None)
  }

  ghost predicate AllMembersPresent(t: Table, aggs: seq<(string, seq<string>)>) {
    forall j :: 0 <= j < |aggs| ==> MembersPresent(t, aggs[j].1)
  }

  /** Aggregation fails only on a member column that is missing from the table, and cannot
      fail when every member column is present. */
  lemma {:induction false} AggregateErrors(t: Table, aggs: seq<(string, seq<string>)>)
    requires WellFormed(t)
    ensures AllMembersPresent(t, aggs) ==> Aggregate(t, aggs).1.None?
    ensures Aggregate(t, aggs).1.Some? ==>
              var e := Aggregate(t, aggs).1.value;
              e.KeyError? && e.key !in t.columns && exists j :: 0 <= j < |aggs| && e.key in aggs[j].1
    decreases |aggs|
  {
    if aggs != [] {
      var n := |aggs| - 1;
      var init := aggs[..n];
      assert forall j :: 0 <= j < n ==> init[j] == aggs[j];
      AggregateErrors(t, init);
      var (prev, e) := Aggregate(t, init);
      if e.None? {
        match FirstMissing(aggs[n].1, prev.columns)
        case Some(m) =>
          assert m !in t.columns;
        case None =>
      }
    }
  }

  /** Reference definition of one row after aggregation: each aggregation name holds the OR
      of its member cells; every other cell is kept. */
  function AggregatedRow(row: Row, aggs: seq<(string, seq<string>)>): Row
    requires forall j, m :: 0 <= j < |aggs| && m in aggs[j].1 ==> m in row
  {
    var ks := row.Keys + (set name | name in Keys(aggs));
    map k | k in ks ::
      match Lookup(aggs, k)
      case Some(members) =>
        assert (k, members) in aggs;
        Bool(AnyTruthy(row, members))
      case None => row[k]
  }

  /** No aggregation reads a column that an earlier aggregation has overwritten. A name
      may be one of its own members: its members are read before it is written. */
  ghost predicate NamesNotMembers(aggs: seq<(string, seq<string>)>) {
    forall j, k :: 0 <= j < k < |aggs| ==> aggs[j].0 !in aggs[k].1
  }

  /** A member column that is not itself an aggregation name keeps its cell. */
  lemma AggregatedRowKeeps(row: Row, aggs: seq<(string, seq<string>)>, k: string)
    requires forall j, m :: 0 <= j < |aggs| && m in aggs[j].1 ==> m in row
    requires k in row && k !in Keys(aggs)
    ensures k in AggregatedRow(row, aggs) && AggregatedRow(row, aggs)[k] == row[k]
  {
    assert Lookup(aggs, k).None?;
  }

  lemma AggregatedRowStep(row: Row, init: seq<(string, seq<string>)>, name: string, members: seq<string>)
    requires forall j, m :: 0 <= j < |init| && m in init[j].1 ==> m in row
    requires forall m :: m in members ==> m in row
    requires name !in Keys(init)
    ensures AggregatedRow(row, init)[name := Bool(AnyTruthy(row, members))] ==
            AggregatedRow(row, init + [(name, members)])
  {
    var d := init + [(name, members)];
    assert forall j :: 0 <= j < |init| ==> d[j] == init[j];
    assert Keys(d) == Keys(init) + [name];
    var x := AggregatedRow(row, init)[name := Bool(AnyTruthy(row, members))];
    var y := AggregatedRow(row, d);
    forall k | k in x ensures k in y && x[k] == y[k] {
      LookupSnoc(init, name, members, k);
    }
    assert x.Keys == y.Keys;
  }

  /** With distinct names, present members and no name reused as a member of a later
      aggregation, aggregation succeeds and sets each named column to the row-wise OR of
      its original member columns (False for an empty member list), leaving every other
      column unchanged. */
  lemma {:induction false} AggregateSpec(t: Table, aggs: seq<(string, seq<string>)>)
    requires WellFormed(t) && Distinct(Keys(aggs)) && NamesNotMembers(aggs)
    requires AllMembersPresent(t, aggs)
    ensures Aggregate(t, aggs).1 == None
    ensures forall i :: 0 <= i < |t.rows| ==>
              (forall j, m :: 0 <= j < |aggs| && m in aggs[j].1 ==> m in t.rows[i]) &&
              Aggregate(t, aggs).0.rows[i] == AggregatedRow(t.rows[i], aggs)
    decreases |aggs|
  {
    assert forall i :: 0 <= i < |t.rows| ==> t.rows[i] in t.rows;
    AggregateErrors(t, aggs);
    if aggs != [] {
      var n := |aggs| - 1;
      var init, name, members := aggs[..n], aggs[n].0, aggs[n].1;
      assert aggs == init + [(name, members)];
      assert forall j :: 0 <= j < n ==> init[j] == aggs[j];
      LastKeyIsNew(aggs);
      AggregateSpec(t, init);
      var prev := Aggregate(t, init).0;
      assert forall m :: m in members ==> m !in Keys(init);
      forall i | 0 <= i < |t.rows|
        ensures Aggregate(t, aggs).0.rows[i] == AggregatedRow(t.rows[i], aggs)
      {
        var row := t.rows[i];
        AggregatedRowStep(row, init, name, members);
        forall m | m in members ensures m in prev.rows[i] && prev.rows[i][m] == row[m] {
          AggregatedRowKeeps(row, init, m);
        }
        AnyTruthySameCells(prev.rows[i], row, members);
      }
    }
  }

  /** After an aggregation that did not fail, every aggregation name is a boolean column. */
  lemma {:induction false} AggregateBool(t: Table, aggs: seq<(string, seq<string>)>)
    requires WellFormed(t) && Aggregate(t, aggs).1.None?
    ensures forall name :: name in Keys(aggs) ==> BoolColumn(Aggregate(t, aggs).0, name)
    decreases |aggs|
  {
    if aggs != [] {
      var n := |aggs| - 1;
      var init := aggs[..n];
      assert Keys(init) == Keys(aggs)[..n];
      assert aggs[n].0 == Keys(aggs)[n];
      var (prev, e) := Aggregate(t, init);
      AggregateBool(t, init);
      assert FirstMissing(aggs[n].1, prev.columns).None?;
      var v := AnyColumn(prev, aggs[n].1);
      forall name | name in Keys(aggs) ensures BoolColumn(Aggregate(t, aggs).0, name) {
        assert name in Keys(init) || name == aggs[n].0;
        SetColumnKeepsBool(prev, aggs[n].0, v, name);
      }
    }
  }

  /** Once an aggregation step has failed, the later items are not looked at. */
  lemma {:induction false} AggregatePrefixError(t: Table, aggs: seq<(string, seq<string>)>, k: nat)
    requires WellFormed(t) && k <= |aggs| && Aggregate(t, aggs[..k]).1.Some?
    ensures Aggregate(t, aggs) == Aggregate(t, aggs[..k])
    decreases |aggs| - k
  {
    if k < |aggs| {
      var n := |aggs| - 1;
      assert aggs[..n][..k] == aggs[..k];
      AggregatePrefixError(t, aggs[..n], k);
    } else {
      assert aggs[..k] == aggs;
    }
  }

  /** The working table after `collect_answers` and `aggregate_answers`, or the exception
      one of them raises. */
  function Answered(job: Job, t: Table): Result<Table>
    requires WellFormed(t) && QuestionsPresent(t, job.questions)
  {
    match Collected(job, t)
    case Err(e) => Err(e)
    case Ok(c) =>
      if job.aggregation.None? then Ok(c)
      else
        var (a, e) := Aggregate(c, job.aggregation.value);
        if e.Some? then Err(e.value) else Ok(a)
  }

  /** Every output column of a job is a boolean column of the answered table, so summing it
      counts its True cells. */
  lemma OutputColumnsBool(job: Job, t: Table)
    requires WellFormed(t) && QuestionsPresent(t, job.questions)
    requires Answered(job, t).Ok? && OutputColumns(job).Ok?
    ensures forall c :: c in OutputColumns(job).value ==> BoolColumn(Answered(job, t).value, c)
  {
    var c := Collected(job, t).value;
    if job.aggregation.Some? {
      AggregateBool(c, job.aggregation.value);
    } else if job.splitQuestion.Some? {
      var sq := job.splitQuestion.value;
      assert sq in Keys(job.questions);
      SplitCollectBool(t, sq, Lookup(job.questions, sq).value);
    } else {
      PlainCollectBool(t, job.questions);
    }
  }
}
