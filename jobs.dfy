/** A job description, the resolution of its category names to column codes,
    the projection of the respondent table, and the choice of output columns. */
module Jobs {
  import opened Tables

  /** One analysis job. Dictionaries are lists of items in declaration order;
      the optional keys of the job are `Option`s. */
  datatype Job = Job(
    categories: seq<string>,                           // `categories[0]` is the grouping dimension
    filters: seq<(string, seq<string>)>,               // category name -> allowed raw values
    questions: seq<(string, seq<string>)>,             // question code -> answers counted as yes
    splitQuestion: Option<string>,
    aggregation: Option<seq<(string, seq<string>)>>,   // composite name -> member columns
    sortOrder: Option<seq<string>>)

  /** The names whose codes are resolved: `job['categories'] + list(job['filters'].keys())`. */
  function CategoryNames(job: Job): seq<string> {
    job.categories + Keys(job.filters)
  }

  /** The dictionary comprehension `{key: metadata['categories'][key] for key in names}`:
      keys in order of first occurrence, failing at the first unknown name. */
  function Resolve(names: seq<string>, metadata: map<string, string>): Result<seq<(string, string)>>
  {
    if names == [] then Ok([])
    else
      var last := names[|names| - 1];
      match Resolve(names[..|names| - 1], metadata)
      case Err(e) => Err(e)
      case Ok(d) =>
        if last !in metadata then Err(KeyError(last))
        else if last in Keys(d) then Ok(d)
        else Ok(d + [(last, metadata[last])])
  }

  /** Resolution fails exactly when some name is unknown. */
  lemma {:induction false} ResolveFails(names: seq<string>, metadata: map<string, string>)
    ensures Resolve(names, metadata).Err? <==> exists n :: n in names && n !in metadata
  {
    if names != [] {
      var init, last := names[..|names| - 1], names[|names| - 1];
      assert names == init + [last];
      assert forall n :: n in names <==> n in init || n == last;
      ResolveFails(init, metadata);
    }
  }

  /** A failing resolution reports the first unknown name. */
  lemma {:induction false} ResolveFirstUnknown(names: seq<string>, metadata: map<string, string>)
    requires Resolve(names, metadata).Err?
    ensures exists i :: 0 <= i < |names| && names[i] !in metadata
                        && Resolve(names, metadata).error == KeyError(names[i])
                        && forall j :: 0 <= j < i ==> names[j] in metadata
  {
    var init, last := names[..|names| - 1], names[|names| - 1];
    assert forall j :: 0 <= j < |init| ==> names[j] == init[j];
    if Resolve(init, metadata).Err? {
      ResolveFirstUnknown(init, metadata);
      var i :| 0 <= i < |init| && init[i] !in metadata && Resolve(init, metadata).error == KeyError(init[i])
               && forall j :: 0 <= j < i ==> init[j] in metadata;
      assert names[i] !in metadata;
    } else {
      ResolveFails(init, metadata);
      assert forall j :: 0 <= j < |init| ==> init[j] in init;
      assert names[|init|] == last;
    }
  }

  /** A successful resolution gives one code per distinct name, in order of first
      occurrence, each the name's entry in `metadata`. */
  lemma {:induction false} ResolveCodes(names: seq<string>, metadata: map<string, string>)
    ensures Resolve(names, metadata).Ok? ==>
              var d := Resolve(names, metadata).value;
              && Keys(d) == Dedup(names)
              && Distinct(Keys(d))
              && (forall n :: n in Keys(d) <==> n in names)
              && (forall p :: p in d ==> p.0 in metadata && p.1 == metadata[p.0])
              && (forall n :: n in names ==> n in metadata && Lookup(d, n) == Some(metadata[n]))
  {
    if names != [] {
      var init, last := names[..|names| - 1], names[|names| - 1];
      assert names == init + [last];
      ResolveCodes(init, metadata);
      match Resolve(init, metadata)
      case Err(e) =>
      case Ok(d) =>
        if last in metadata && last !in Keys(d) {
          var d' := d + [(last, metadata[last])];
          assert Keys(d') == Keys(d) + [last];
          forall n | n in names ensures n in metadata && Lookup(d', n) == Some(metadata[n]) {
            LookupSnoc(d, last, metadata[last], n);
          }
        }
    }
  }

  /** Resolution fails exactly when some name is unknown, and then on the first such name;
      otherwise it yields one code per distinct name, in order of first occurrence, each
      the name's entry in `metadata`. */
  lemma ResolveSpec(names: seq<string>, metadata: map<string, string>)
    ensures Resolve(names, metadata).Err? <==> exists n :: n in names && n !in metadata
    ensures Resolve(names, metadata).Err? ==>
              exists i :: 0 <= i < |names| && names[i] !in metadata
                          && Resolve(names, metadata).error == KeyError(names[i])
                          && forall j :: 0 <= j < i ==> names[j] in metadata
    ensures Resolve(names, metadata).Ok? ==>
              var d := Resolve(names, metadata).value;
              && Keys(d) == Dedup(names)
              && Distinct(Keys(d))
              && (forall n :: n in Keys(d) <==> n in names)
              && (forall p :: p in d ==> p.0 in metadata && p.1 == metadata[p.0])
              && (forall n :: n in names ==> n in metadata && Lookup(d, n) == Some(metadata[n]))
  {
    ResolveFails(names, metadata);
    if Resolve(names, metadata).Err? {
      ResolveFirstUnknown(names, metadata);
    }
    ResolveCodes(names, metadata);
  }

  /** `list(self.categories.values()) + list(job['questions'].keys())`. */
  function ProjectedColumns(categories: seq<(string, string)>, job: Job): seq<string> {
    Values(categories) + Keys(job.questions)
  }

  /** A row narrowed to the given columns. */
  function Restrict(r: Row, cols: seq<string>): Row {
    map c | c in cols && c in r :: r[c]
  }

  /** `df[cols]`: fails with a KeyError when a column is missing; otherwise keeps every row,
      narrowed to exactly those columns, with their cells unchanged. */
  function Project(t: Table, cols: seq<string>): (r: Result<Table>)
    requires WellFormed(t)
    ensures r.Err? <==> exists c :: c in cols && c !in t.columns
    ensures r.Err? ==> r.error.KeyError? && r.error.key in cols && r.error.key !in t.columns
    ensures r.Ok? ==> r.value.columns == cols && |r.value.rows| == |t.rows| && WellFormed(r.value)
    ensures r.Ok? ==> forall i :: 0 <= i < |t.rows| ==>
              (forall c :: c in r.value.rows[i] <==> c in cols) &&
              (forall c :: c in cols ==> r.value.rows[i][c] == t.rows[i][c])
  {
    match FirstMissing(cols, t.columns)
    case Some(c) => Err(KeyError(c))
    case None =>
      var rows := seq(|t.rows|, i requires 0 <= i < |t.rows| => Restrict(t.rows[i], cols));
      assert forall i :: 0 <= i < |t.rows| ==> t.rows[i] in t.rows;
      assert WellFormed(Table(cols, rows)) by {
        forall c, x | c in cols && x in rows ensures c in x {
          var i :| 0 <= i < |rows| && rows[i] == x;
        }
      }
      Ok(Table(cols, rows))
  }

  /** The output columns: the aggregation names when the job aggregates, else the split
      question's answer values, else the question codes, each in declaration order. */
  function OutputColumns(job: Job): Result<seq<string>> {
    if job.aggregation.Some? then Ok(Keys(job.aggregation.value))
    else if job.splitQuestion.Some? then
      match Lookup(job.questions, job.splitQuestion.value)
      case None => Err(KeyError(job.splitQuestion.value))
      case Some(answers) => Ok(answers)
    else Ok(Keys(job.questions))
  }
}
