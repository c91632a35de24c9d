/** The `Analysis` object: it holds the job, the resolved categories and the working
    data frames, and runs the stages on them one method at a time. */
module Analyses {
  import opened Tables
  import opened Jobs
  import opened Stages
  import opened Proportions

  /** Whether a stage ran to the end or raised an exception. */
  datatype Outcome = Pass | Fail(error: Error)

  /** `self.df_metadata`: the output columns and the groups of the last proportions table. */
  datatype DfMetadata = DfMetadata(categories: seq<string>, groups: seq<Cell>)

  /** Every category and filter name of the job has a resolved column code. */
  ghost predicate Resolved(job: Job, categories: seq<(string, string)>) {
    forall n :: n in CategoryNames(job) ==> n in Keys(categories)
  }

  /** The filters of the job with their categories resolved to column codes. */
  function JobFilters(job: Job, categories: seq<(string, string)>): (fs: seq<Filter>)
    requires Resolved(job, categories)
    ensures |fs| == |job.filters|
    ensures forall f :: f in fs ==> f.0 in Values(categories)
  {
    assert forall i :: 0 <= i < |job.filters| ==> Keys(job.filters)[i] == job.filters[i].0;
    var fs := ResolvedFilters(job.filters, categories);
    assert forall f :: f in fs ==> f.0 in Values(categories) by {
      forall f | f in fs ensures f.0 in Values(categories) {
        var i :| 0 <= i < |fs| && fs[i] == f;
        LookupValue(categories, job.filters[i].0);
      }
    }
    fs
  }

  /** The filter columns are among the projected columns, so every row has them. */
  lemma FiltersApplicable(job: Job, categories: seq<(string, string)>, t: Table)
    requires Resolved(job, categories) && WellFormed(t)
    requires forall c :: c in ProjectedColumns(categories, job) ==> c in t.columns
    ensures Applicable(t.rows, JobFilters(job, categories))
    ensures forall f :: f in JobFilters(job, categories) ==> f.0 in t.columns
  {
  }

  /** The grouping category name: `group_by`, or `job['categories'][0]` when it is falsy. */
  function GroupingName(job: Job, groupBy: string): Result<string> {
    if groupBy != "" then Ok(groupBy)
    else if job.categories == [] then Err(IndexError)
    else Ok(job.categories[0])
  }

  /** The exception `get_proportions_df` raises, if any, taking its statements in order:
      the default grouping name, the default groups, the output columns, then inside the
      loop over groups the grouping code and the output columns of the table. */
  function ProportionsError(job: Job, categories: seq<(string, string)>, t: Table,
                            groups: seq<Cell>, groupBy: string): Option<Error>
  {
    match GroupingName(job, groupBy)
    case Err(e) => Some(e)
    case Ok(grouping) =>
      if groups == [] && grouping !in Keys(categories) then Some(KeyError(grouping))
      else
        match OutputColumns(job)
        case Err(e) => Some(e)
        case Ok(cols) =>
          if groups == [] && t.rows == [] then None
          else if grouping !in Keys(categories) then Some(KeyError(grouping))
          else
            match FirstMissing(cols, t.columns)
            case Some(c) => Some(KeyError(c))
            case None => None
  }

  class Analysis {
    const job: Job
    /** `self.categories`: name to column code, for the categories and the filter names. */
    const categories: seq<(string, string)>
    /** `self.columns`: the projected columns. */
    const columns: seq<string>
    /** `self.dataframes['df']`: the working table. */
    var df: Table
    /** `self.dataframes['proportions']`, absent until computed. */
    var proportions: Option<Wide>
    /** `self.dataframes['proportions_melted']`, absent until computed. */
    var melted: Option<seq<MeltRow>>
    var dfMetadata: Option<DfMetadata>

    ghost predicate Valid()
      reads this
    {
      && WellFormed(df)
      && Resolved(job, categories)
      && columns == ProjectedColumns(categories, job)
      && (forall c :: c in columns ==> c in df.columns)
      && (forall n :: n in Keys(categories) ==> Lookup(categories, n).value in df.columns)
    }

    /** The attributes `__init__` sets before running the stages, from the resolved
        categories and the projected table. */
    constructor (job: Job, categories: seq<(string, string)>, df: Table)
      requires WellFormed(df) && Resolved(job, categories)
      requires forall c :: c in ProjectedColumns(categories, job) ==> c in df.columns
      ensures Valid()
      ensures this.job == job && this.categories == categories && this.df == df
      ensures columns == ProjectedColumns(categories, job)
      ensures proportions == None && melted == None && dfMetadata == None
    {
      this.job := job;
      this.categories := categories;
      this.columns := ProjectedColumns(categories, job);
      this.df := df;
      this.proportions := None;
      this.melted := None;
      this.dfMetadata := None;
      new;
      forall n | n in Keys(categories) ensures Lookup(categories, n).value in df.columns {
        LookupValue(categories, n);
      }
    }

    /** `filter_self`: keeps exactly the rows that every filter admits, in their order. */
    method FilterSelf()
      requires Valid()
      modifies this
      ensures Valid()
      ensures df == Table(old(df).columns, KeepAll(old(df).rows, JobFilters(job, categories)))
      ensures proportions == old(proportions) && melted == old(melted) && dfMetadata == old(dfMetadata)
    {
      var fs := JobFilters(job, categories);
      FiltersApplicable(job, categories, df);
      var rows := df.rows;
      for i := 0 to |fs|
        invariant Applicable(df.rows, fs[..i])
        invariant rows == ApplyFilters(df.rows, fs[..i])
      {
        assert fs[..i + 1][..i] == fs[..i];
        assert fs[i] in fs;
        rows := KeepRows(rows, fs[i]);
      }
      assert fs[..|fs|] == fs;
      FilterExact(df.rows, fs);
      df := Table(df.columns, rows);
    }

    /** `collect_answers`: binarizes the answer columns in plain or split mode; in split
        mode a split question without an answer list raises a KeyError. */
    method CollectAnswers() returns (outcome: Outcome)
      requires Valid()
      modifies this
      ensures Valid()
      ensures QuestionsPresent(old(df), job.questions)
      ensures match Collected(job, old(df))
              case Err(e) => outcome == Fail(e) && df == old(df)
              case Ok(t) => outcome == Pass && df == t
      ensures proportions == old(proportions) && melted == old(melted) && dfMetadata == old(dfMetadata)
    {
      var t := df;
      match job.splitQuestion {
      case Some(sq) =>
        var found := Lookup(job.questions, sq);
        if found.None? {
          return Fail(KeyError(sq));
        }
        var answers := found.value;
        for i := 0 to |answers|
          invariant t == SplitAll(df, sq, answers[..i])
        {
          assert answers[..i + 1][..i] == answers[..i];
          t := SplitColumn(t, sq, answers[i]);
        }
        assert answers[..|answers|] == answers;
      case None =>
        var qs := job.questions;
        for i := 0 to |qs|
          invariant Keys(qs[..i]) == Keys(qs)[..i]
          invariant t == BinarizeAll(df, qs[..i])
        {
          assert qs[..i + 1][..i] == qs[..i];
          assert Keys(qs[..i + 1]) == Keys(qs)[..i + 1];
          assert qs[i].0 == Keys(qs)[i];
          t := Binarize(t, qs[i].0, qs[i].1);
        }
        assert qs[..|qs|] == qs;
      }
      df := t;
      return Pass;
    }

    /** `aggregate_answers`: writes each aggregation column into the working table in turn;
        a missing member column raises a KeyError and leaves the columns already written. */
    method AggregateAnswers() returns (outcome: Outcome)
      requires Valid()
      modifies this
      ensures Valid()
      ensures job.aggregation.None? ==> outcome == Pass && df == old(df)
      ensures job.aggregation.Some? ==>
                var (t, e) := Aggregate(old(df), job.aggregation.value);
                df == t && outcome == (if e.Some? then Fail(e.value) else Pass)
      ensures proportions == old(proportions) && melted == old(melted) && dfMetadata == old(dfMetadata)
    {
      if job.aggregation.None? {
        return Pass;
      }
      var aggs := job.aggregation.value;
      var t := df;
      for i := 0 to |aggs|
        invariant Aggregate(df, aggs[..i]) == (t, None)
        invariant forall c :: c in df.columns ==> c in t.columns
      {
        assert aggs[..i + 1][..i] == aggs[..i];
        var name, members := aggs[i].0, aggs[i].1;
        match FirstMissing(members, t.columns)
        case Some(m) =>
          AggregatePrefixError(df, aggs, i + 1);
          df := t;
          return Fail(KeyError(m));
        case None =>
          t := SetColumn(t, name, AnyColumn(t, members));
      }
      assert aggs[..|aggs|] == aggs;
      df := t;
      return Pass;
    }

    /** The inner loop of `get_proportions_df`: one group's proportion for every output
        column in turn, raising a KeyError at the first output column the table lacks. */
    method GroupProportionsOf(code: string, g: Cell, cols: seq<string>) returns (r: Result<seq<Ratio>>)
      requires Valid() && code in df.columns
      ensures match FirstMissing(cols, df.columns)
              case Some(c) => r == Err(KeyError(c))
              case None => ColumnsPresent(df.rows, cols) && r == Ok(GroupProportions(df.rows, code, g, cols))
    {
      var grp := GroupRows(df.rows, code, g);
      var props: seq<Ratio> := [];
      for j := 0 to |cols|
        invariant forall k :: 0 <= k < j ==> cols[k] in df.columns
        invariant |props| == j
        invariant forall k :: 0 <= k < j ==> props[k] == Proportion(df.rows, code, g, cols[k])
      {
        if cols[j] !in df.columns {
          FirstMissingAt(cols, df.columns, j);
          return Err(KeyError(cols[j]));
        }
        assert HasColumn(grp, cols[j]);
        props := props + [Ratio(CountTrue(grp, cols[j]), |grp|)];
      }
      assert props == GroupProportions(df.rows, code, g, cols);
      return Ok(props);
    }

    /** The statements of `get_proportions_df` before its loop: the grouping name, the
        groups (the observed values of the grouping column when none are given) and the
        output columns, or the exception one of them raises. */
    method ProportionsInputs(groups: seq<Cell>, groupBy: string) returns (r: Result<(string, seq<Cell>, seq<string>)>)
      requires Valid()
      ensures match GroupingName(job, groupBy)
              case Err(e) => r == Err(e)
              case Ok(grouping) =>
                if groups == [] && grouping !in Keys(categories) then r == Err(KeyError(grouping))
                else
                  match OutputColumns(job)
                  case Err(e) => r == Err(e)
                  case Ok(cols) =>
                    && r.Ok? && r.value.0 == grouping && r.value.2 == cols
                    && (groups != [] ==> r.value.1 == groups)
                    && (groups == [] ==>
                          var code := Lookup(categories, grouping).value;
                          HasColumn(df.rows, code) && r.value.1 == ObservedValues(df.rows, code))
    {
      var grouping := groupBy;
      if grouping == "" {
        if job.categories == [] {
          return Err(IndexError);
        }
        grouping := job.categories[0];
      }
      var gs := groups;
      if gs == [] {
        var found := Lookup(categories, grouping);
        if found.None? {
          return Err(KeyError(grouping));
        }
        gs := ObservedValues(df.rows, found.value);
      }
      var output := OutputColumns(job);
      if output.Err? {
        return Err(output.error);
      }
      return Ok((grouping, gs, output.value));
    }

    /** The loop over groups of `get_proportions_df`: looks up the grouping code and
        builds `results` group by group; with no groups it raises nothing. */
    method GroupResults(grouping: string, gs: seq<Cell>, cols: seq<string>) returns (r: Result<seq<(Cell, seq<Ratio>)>>)
      requires Valid()
      ensures gs == [] ==> r == Ok([])
      ensures gs != [] && grouping !in Keys(categories) ==> r == Err(KeyError(grouping))
      ensures gs != [] && grouping in Keys(categories) ==>
                match FirstMissing(cols, df.columns)
                case Some(c) => r == Err(KeyError(c))
                case None =>
                  var code := Lookup(categories, grouping).value;
                  HasColumn(df.rows, code) && ColumnsPresent(df.rows, cols) &&
                  r == Ok(Results(df.rows, code, gs, cols))
    {
      var results: seq<(Cell, seq<Ratio>)> := [];
      for i := 0 to |gs|
        invariant i > 0 ==> grouping in Keys(categories) && FirstMissing(cols, df.columns).None?
        invariant i > 0 ==> var code := Lookup(categories, grouping).value;
                            HasColumn(df.rows, code) && ColumnsPresent(df.rows, cols) &&
                            results == Results(df.rows, code, gs[..i], cols)
        invariant i == 0 ==> results == []
      {
        var found := Lookup(categories, grouping);
        if found.None? {
          return Err(KeyError(grouping));
        }
        var code := found.value;
        var props := GroupProportionsOf(code, gs[i], cols);
        if props.Err? {
          return Err(props.error);
        }
        assert gs[..i + 1][..i] == gs[..i];
        results := Update(results, gs[i], props.value);
      }
      assert gs[..|gs|] == gs;
      return Ok(results);
    }

    /** `get_proportions_df(groups, group_by)`, an empty `groups` or `groupBy` standing for
        the falsy defaults: for every group, the share of its rows that answer yes in each
        output column, as a wide table and melted; it raises exactly the exception
        `ProportionsError` names and then changes nothing. */
    method GetProportionsDf(groups: seq<Cell>, groupBy: string) returns (outcome: Outcome)
      requires Valid()
      modifies this
      ensures Valid() && df == old(df)
      ensures ProportionsError(job, categories, df, groups, groupBy).Some? ==>
                outcome == Fail(ProportionsError(job, categories, df, groups, groupBy).value) &&
                proportions == old(proportions) && melted == old(melted) && dfMetadata == old(dfMetadata)
      ensures ProportionsError(job, categories, df, groups, groupBy).None? ==>
                && outcome == Pass
                && var grouping := GroupingName(job, groupBy).value;
                && grouping in Keys(categories)
                && var code := Lookup(categories, grouping).value;
                && var cols := OutputColumns(job).value;
                && HasColumn(df.rows, code) && ColumnsPresent(df.rows, cols)
                && dfMetadata.Some? && dfMetadata.value.categories == cols
                && var gs := dfMetadata.value.groups;
                && (groups != [] ==> gs == groups)
                && (groups == [] ==> Distinct(gs) && forall v :: v in gs <==> exists x :: x in df.rows && x[code] == v)
                && proportions == Some(Wide(cols, Results(df.rows, code, gs, cols)))
                && Rectangular(proportions.value)
                && melted == Some(Melt(proportions.value))
    {
      var inputs := ProportionsInputs(groups, groupBy);
      if inputs.Err? {
        return Fail(inputs.error);
      }
      var (grouping, gs, cols) := inputs.value;
      assert grouping == GroupingName(job, groupBy).value && cols == OutputColumns(job).value;
      assert gs == [] <==> groups == [] && df.rows == [];
      var results := GroupResults(grouping, gs, cols);
      if results.Err? {
        return Fail(results.error);
      }
      assert grouping in Keys(categories);
      var code := Lookup(categories, grouping).value;
      assert HasColumn(df.rows, code) && ColumnsPresent(df.rows, cols);
      assert results.value == Results(df.rows, code, gs, cols);
      ResultsSpec(df.rows, code, gs, cols);
      var w := Wide(cols, results.value);
      assert groups == [] ==> gs == ObservedValues(df.rows, code);
      ghost var observed := groups == [] ==>
        Distinct(gs) && forall v :: v in gs <==> exists x :: x in df.rows && x[code] == v;
      assert observed;
      dfMetadata := Some(DfMetadata(cols, gs));
      proportions := Some(w);
      melted := Some(Melt(w));
      assert df == old(df);
      return Pass;
    }

    /** `sort_proportions_melted_df(sort_order)`: the job's own sort order wins over the
        argument; the melted table becomes the blocks of its groups in that order; there
        must be a melted table, and an empty order leaves nothing to concatenate. */
    method SortProportionsMelted(sortOrder: seq<string>) returns (outcome: Outcome)
      requires Valid()
      modifies this
      ensures Valid()
      ensures var order := if job.sortOrder.Some? then job.sortOrder.value else sortOrder;
              match old(melted)
              case None => outcome == Fail(KeyError("proportions_melted")) && melted == old(melted)
              case Some(m) =>
                if order == [] then outcome == Fail(NoObjectsToConcatenate) && melted == old(melted)
                else outcome == Pass && melted == Some(Sorted(m, order))
      ensures df == old(df) && proportions == old(proportions) && dfMetadata == old(dfMetadata)
    {
      var order := sortOrder;
      if job.sortOrder.Some? {
        order := job.sortOrder.value;
      }
      if melted.None? {
        return Fail(KeyError("proportions_melted"));
      }
      var dfList := SortedFrames(melted.value, order);
      if dfList == [] {
        return Fail(NoObjectsToConcatenate);
      }
      melted := Some(Concat(dfList));
      return Pass;
    }

    /** `convert_qs_to_questions`: relabels the index column of the melted table with each
        question's first answer; on an exception nothing changes. */
    method ConvertQsToQuestions() returns (outcome: Outcome)
      requires Valid()
      modifies this
      ensures Valid()
      ensures match old(melted)
              case None => outcome == Fail(KeyError("proportions_melted")) && melted == old(melted)
              case Some(m) =>
                match Relabel(m, job.questions)
                case Err(e) => outcome == Fail(e) && melted == old(melted)
                case Ok(r) => outcome == Pass && melted == Some(r)
      ensures df == old(df) && proportions == old(proportions) && dfMetadata == old(dfMetadata)
    {
      if melted.None? {
        return Fail(KeyError("proportions_melted"));
      }
      var m := melted.value;
      var relabelled: seq<MeltRow> := [];
      for i := 0 to |m|
        invariant Relabel(m[..i], job.questions) == Ok(relabelled)
      {
        assert m[..i + 1][..i] == m[..i];
        match RelabelRow(m[i], job.questions)
        case Err(e) =>
          RelabelPrefixError(m, job.questions, i + 1);
          return Fail(e);
        case Ok(x) =>
          relabelled := relabelled + [x];
      }
      assert m[..|m|] == m;
      melted := Some(relabelled);
      return Pass;
    }
  }

  /** The loop of `sort_proportions_melted_df` building `df_list`: one frame per entry of
      `order`, holding that group's melted rows; concatenated they are `Sorted(m, order)`. */
  method SortedFrames(m: seq<MeltRow>, order: seq<string>) returns (dfList: seq<seq<MeltRow>>)
    ensures |dfList| == |order|
    ensures forall k :: 0 <= k < |order| ==> dfList[k] == Select(m, order[k])
    ensures Concat(dfList) == Sorted(m, order)
  {
    dfList := [];
    for i := 0 to |order|
      invariant |dfList| == i
      invariant forall k :: 0 <= k < i ==> dfList[k] == Select(m, order[k])
      invariant Concat(dfList) == Sorted(m, order[..i])
    {
      ConcatSnoc(dfList, Select(m, order[i]));
      SortedSnoc(m, order, i);
      dfList := dfList + [Select(m, order[i])];
    }
    assert order[..|order|] == order;
  }

  /** The resolved categories and the working table after the table stages of `__init__`
      (resolution, projection, filtering, collection and aggregation), or the exception one
      of them raises. */
  function Prepared(job: Job, table: Table, metadata: map<string, string>): Result<(seq<(string, string)>, Table)>
    requires WellFormed(table)
  {
    match Resolve(CategoryNames(job), metadata)
    case Err(e) => Err(e)
    case Ok(cats) =>
      ResolveSpec(CategoryNames(job), metadata);
      match Project(table, ProjectedColumns(cats, job))
      case Err(e) => Err(e)
      case Ok(p) =>
        FiltersApplicable(job, cats, p);
        var fs := JobFilters(job, cats);
        var f := Table(p.columns, KeepAll(p.rows, fs));
        assert WellFormed(f);
        match Answered(job, f)
        case Err(e) => Err(e)
        case Ok(a) => Ok((cats, a))
  }

  /** `Analysis(job, df, metadata)`: builds the analysis and runs its stages, `get_proportions_df`
      with the default groups and grouping, and `sort_proportions_melted_df` when the job
      has a sort order. It fails with the first exception a stage raises; otherwise the
      object holds the prepared table, the proportions over the observed groups, and
      their melted (and, when asked, sorted) form. */
  method Run(job: Job, table: Table, metadata: map<string, string>) returns (r: Result<Analysis>)
    requires WellFormed(table)
    ensures Prepared(job, table, metadata).Err? ==> r == Err(Prepared(job, table, metadata).error)
    ensures Prepared(job, table, metadata).Ok? ==>
              var (cats, t) := Prepared(job, table, metadata).value;
              match ProportionsError(job, cats, t, [], "")
              case Some(e) => r == Err(e)
              case None =>
                if job.sortOrder == Some([]) then r == Err(NoObjectsToConcatenate)
                else
                  && r.Ok? && fresh(r.value) && r.value.Valid()
                  && r.value.job == job && r.value.categories == cats && r.value.df == t
                  && var code := Lookup(cats, job.categories[0]).value;
                  && var cols := OutputColumns(job).value;
                  && HasColumn(t.rows, code) && ColumnsPresent(t.rows, cols)
                  && r.value.dfMetadata.Some?
                  && var gs := r.value.dfMetadata.value.groups;
                  && Distinct(gs) && (forall v :: v in gs <==> exists x :: x in t.rows && x[code] == v)
                  && r.value.proportions == Some(Wide(cols, Results(t.rows, code, gs, cols)))
                  && Rectangular(r.value.proportions.value)
                  && var m := Melt(r.value.proportions.value);
                  && r.value.melted == Some(if job.sortOrder.Some? then Sorted(m, job.sortOrder.value) else m)
  {
    var resolved := Resolve(CategoryNames(job), metadata);
    if resolved.Err? {
      return Err(resolved.error);
    }
    var cats := resolved.value;
    ResolveSpec(CategoryNames(job), metadata);
    var projected := Project(table, ProjectedColumns(cats, job));
    if projected.Err? {
      return Err(projected.error);
    }
    var a := new Analysis(job, cats, projected.value);
    a.FilterSelf();
    var outcome := a.CollectAnswers();
    if outcome.Fail? {
      return Err(outcome.error);
    }
    outcome := a.AggregateAnswers();
    if outcome.Fail? {
      return Err(outcome.error);
    }
    outcome := a.GetProportionsDf([], "");
    if outcome.Fail? {
      return Err(outcome.error);
    }
    if job.sortOrder.Some? {
      outcome := a.SortProportionsMelted([]);
      if outcome.Fail? {
        return Err(outcome.error);
      }
    }
    return Ok(a);
  }
}
