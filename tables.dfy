/** Cells, rows and tables, the dictionaries of a job, and the per-cell
    predicates the pipeline compares answers with. */
module Tables {

  datatype Option<T> = None | Some(value: T)

  /** The exceptions the analysis pipeline can raise. */
  datatype Error =
    | KeyError(key: string)    // a missing dictionary key or data-frame column (the first, for a list)
    | IndexError               // `job['categories'][0]` on an empty list
    | NoObjectsToConcatenate   // `pd.concat` of an empty list

  datatype Result<T> = Ok(value: T) | Err(error: Error)

  /** A data-frame cell: the `str(cell)` form of a raw answer, or a boolean indicator. */
  datatype Cell = Str(s: string) | Bool(b: bool)

  /** Python's `str(cell)`. */
  function Show(c: Cell): string {
    match c
    case Str(s) => s
    case Bool(b) => if b then "True" else "False"
  }

  /** Python truthiness of a cell, as `DataFrame.any` reads it. */
  function Truthy(c: Cell): bool {
    match c
    case Str(s) => s != ""
    case Bool(b) => b
  }

  type Row = map<string, Cell>

  /** A data frame: its column labels in order and its rows. */
  datatype Table = Table(columns: seq<string>, rows: seq<Row>)

  ghost predicate HasColumn(rows: seq<Row>, c: string) {
    forall r :: r in rows ==> c in r
  }

  /** Every listed column has a cell in every row. */
  ghost predicate WellFormed(t: Table) {
    forall c :: c in t.columns ==> HasColumn(t.rows, c)
  }

  /** Column `c` holds a boolean in every row. */
  ghost predicate BoolColumn(t: Table, c: string) {
    c in t.columns && forall r: Row :: r in t.rows ==> c in r && r[c].Bool?
  }

  /** `df[c] = v`: overwrite column `c`, or append it when it is new. */
  function SetColumn(t: Table, c: string, v: seq<Cell>): (r: Table)
    requires |v| == |t.rows|
    ensures |r.rows| == |t.rows|
    ensures forall i :: 0 <= i < |t.rows| ==> r.rows[i] == t.rows[i][c := v[i]]
    ensures forall k :: k in r.columns <==> k in t.columns || k == c
    ensures c in t.columns ==> r.columns == t.columns
    ensures c !in t.columns ==> r.columns == t.columns + [c]
    ensures WellFormed(t) ==> WellFormed(r)
  {
    var rows := seq(|t.rows|, i requires 0 <= i < |t.rows| => t.rows[i][c := v[i]]);
    var r := Table(if c in t.columns then t.columns else t.columns + [c], rows);
    assert WellFormed(t) ==> WellFormed(r) by {
      if WellFormed(t) {
        forall k, x | k in r.columns && x in r.rows ensures k in x {
          var i :| 0 <= i < |rows| && rows[i] == x;
          assert t.rows[i] in t.rows;
        }
      }
    }
    r
  }

  /** A column written with booleans is boolean; other boolean columns stay boolean. */
  lemma SetColumnKeepsBool(t: Table, c: string, v: seq<Cell>, k: string)
    requires |v| == |t.rows|
    requires if k == c then forall i :: 0 <= i < |v| ==> v[i].Bool? else BoolColumn(t, k)
    ensures BoolColumn(SetColumn(t, c, v), k)
  {
    var r := SetColumn(t, c, v);
    forall x: Row | x in r.rows ensures k in x && x[k].Bool? {
      var i :| 0 <= i < |r.rows| && r.rows[i] == x;
      assert t.rows[i] in t.rows;
      if k == c {
        assert x[k] == v[i];
      }
    }
  }

  predicate Distinct<T(==)>(s: seq<T>) {
    forall i, j :: 0 <= i < j < |s| ==> s[i] != s[j]
  }

  /** The elements of `s`, each once, in order of first occurrence. */
  function Dedup<T(==)>(s: seq<T>): seq<T> {
    if s == [] then []
    else
      var d := Dedup(s[..|s| - 1]);
      if s[|s| - 1] in d then d else d + [s[|s| - 1]]
  }

  // A Python dictionary is modelled as the list of its items in insertion order.

  function Keys<K, V>(d: seq<(K, V)>): seq<K> {
    seq(|d|, i requires 0 <= i < |d| => d[i].0)
  }

  function Values<K, V>(d: seq<(K, V)>): seq<V> {
    seq(|d|, i requires 0 <= i < |d| => d[i].1)
  }

  /** `d[k]`: the value of the first item with key `k`, or None for a KeyError. */
  function Lookup<K(==), V>(d: seq<(K, V)>, k: K): (r: Option<V>)
    ensures r.Some? <==> k in Keys(d)
    ensures r.Some? ==> (k, r.value) in d
  {
    if d == [] then None
    else if d[0].0 == k then assert Keys(d)[0] == k; Some(d[0].1)
    else
      assert Keys(d) == [d[0].0] + Keys(d[1..]);
      Lookup(d[1..], k)
  }

  /** In a dictionary with distinct keys, every item is what its key looks up. */
  lemma {:induction false} LookupItem<K, V>(d: seq<(K, V)>, i: nat)
    requires Distinct(Keys(d)) && i < |d|
    ensures Lookup(d, d[i].0) == Some(d[i].1)
  {
    if i > 0 {
      assert d[0].0 == Keys(d)[0] != Keys(d)[i] == d[i].0;
      assert Keys(d[1..]) == Keys(d)[1..];
      LookupItem(d[1..], i - 1);
    }
  }

  /** Looking up in a dictionary after an item was appended at the end. */
  lemma {:induction false} LookupSnoc<K, V>(d: seq<(K, V)>, key: K, v: V, k: K)
    ensures Lookup(d + [(key, v)], k) ==
            if k in Keys(d) then Lookup(d, k) else if k == key then Some(v) else None
  {
    if d != [] {
      assert (d + [(key, v)])[1..] == d[1..] + [(key, v)];
      assert Keys(d) == [d[0].0] + Keys(d[1..]);
      LookupSnoc(d[1..], key, v, k);
    }
  }

  /** A key's value is one of the dictionary's values. */
  lemma LookupValue<K, V>(d: seq<(K, V)>, k: K)
    requires k in Keys(d)
    ensures Lookup(d, k).value in Values(d)
  {
    var i :| 0 <= i < |d| && d[i] == (k, Lookup(d, k).value);
    assert Values(d)[i] == d[i].1;
  }

  /** `d.update({k: v})`: the value of an existing key is replaced in place, a new key is
      appended at the end. */
  function Update<K(==), V>(d: seq<(K, V)>, k: K, v: V): seq<(K, V)> {
    if d == [] then [(k, v)]
    else if d[0].0 == k then [(k, v)] + d[1..]
    else [d[0]] + Update(d[1..], k, v)
  }

  /** Updating keeps the key order of a dictionary and appends a key that is new. */
  lemma {:induction false} UpdateKeyOrder<K, V>(d: seq<(K, V)>, k: K, v: V)
    ensures Keys(Update(d, k, v)) == if k in Keys(d) then Keys(d) else Keys(d) + [k]
  {
    if d != [] {
      assert d == [d[0]] + d[1..];
      KeysCons(d[0], d[1..]);
      if d[0].0 == k {
        KeysCons((k, v), d[1..]);
      } else {
        var rest := Update(d[1..], k, v);
        UpdateKeyOrder(d[1..], k, v);
        KeysCons(d[0], rest);
        assert k in Keys(d) <==> k in Keys(d[1..]);
      }
    }
  }

  /** The keys of a dictionary with one more item in front. */
  lemma KeysCons<K, V>(x: (K, V), d: seq<(K, V)>)
    ensures Keys([x] + d) == [x.0] + Keys(d)
  {
  }

  /** After updating, the updated key looks up the new value and every other key looks up
      what it did before. */
  lemma {:induction false} UpdateLookup<K, V>(d: seq<(K, V)>, k: K, v: V, j: K)
    ensures Lookup(Update(d, k, v), j) == if j == k then Some(v) else Lookup(d, j)
  {
    if d != [] && d[0].0 != k {
      var r := Update(d, k, v);
      assert r[0] == d[0] && r[1..] == Update(d[1..], k, v);
      UpdateLookup(d[1..], k, v, j);
    } else if d != [] {
      assert Update(d, k, v)[1..] == d[1..];
    }
  }

  /** Updating keeps the keys of a dictionary distinct and adds at most the updated key. */
  lemma UpdateKeys<K, V>(d: seq<(K, V)>, k: K, v: V)
    requires Distinct(Keys(d))
    ensures Distinct(Keys(Update(d, k, v)))
    ensures forall j :: j in Keys(Update(d, k, v)) <==> j in Keys(d) || j == k
  {
    UpdateKeyOrder(d, k, v);
    if k !in Keys(d) {
      var ks := Keys(d) + [k];
      forall i, j | 0 <= i < j < |ks| ensures ks[i] != ks[j] {
        assert ks[i] == Keys(d)[i];
        if j < |ks| - 1 {
          assert ks[j] == Keys(d)[j];
        }
      }
    }
  }

  /** The first of `want` that is not in `have`: what `df[want]` reports as missing. */
  function FirstMissing(want: seq<string>, have: seq<string>): (r: Option<string>)
    ensures r.None? <==> forall c :: c in want ==> c in have
    ensures r.Some? ==> r.value in want && r.value !in have
    ensures r.Some? ==> exists i :: 0 <= i < |want| && want[i] == r.value
                                    && forall j :: 0 <= j < i ==> want[j] in have
  {
    if want == [] then None
    else if want[0] !in have then Some(want[0])
    else
      var rest := FirstMissing(want[1..], have);
      assert rest.Some? ==> exists i :: 0 < i < |want| && want[i] == rest.value
                                    && forall j :: 0 <= j < i ==> want[j] in have by {
        if rest.Some? {
          var i :| 0 <= i < |want[1..]| && want[1..][i] == rest.value
                   && forall j :: 0 <= j < i ==> want[1..][j] in have;
          assert want[i + 1] == rest.value;
          assert forall j :: 0 < j < i + 1 ==> want[j] == want[1..][j - 1];
        }
      }
      rest
  }

  /** The first missing entry is the one before which every entry is present. */
  lemma {:induction false} FirstMissingAt(want: seq<string>, have: seq<string>, j: nat)
    requires j < |want| && want[j] !in have
    requires forall k :: 0 <= k < j ==> want[k] in have
    ensures FirstMissing(want, have) == Some(want[j])
  {
    if j > 0 {
      FirstMissingAt(want[1..], have, j - 1);
    }
  }

  /** Python's `p in s` on two strings: `p` occurs in `s` as a contiguous piece. */
  function IsSubstring(p: string, s: string): bool
    decreases |s|
  {
    if |p| > |s| then false
    else if s[..|p|] == p then true
    else IsSubstring(p, s[1..])
  }

  /** `p` occurs in `s` starting at position `i`. */
  ghost predicate OccursAt(p: string, s: string, i: int) {
    0 <= i <= |s| - |p| && s[i..i + |p|] == p
  }

  /** An occurrence in `s[1..]` is an occurrence in `s` one position later. */
  lemma OccursShift(p: string, s: string, i: int)
    requires |s| > 0 && i >= 0
    ensures OccursAt(p, s[1..], i) <==> OccursAt(p, s, i + 1)
  {
    if i <= |s| - 1 - |p| {
      assert s[1..][i..i + |p|] == s[i + 1..i + 1 + |p|];
    }
  }

  /** The recursive test agrees with the positional definition of a substring. */
  lemma {:induction false} IsSubstringIff(p: string, s: string)
    ensures IsSubstring(p, s) <==> exists i :: OccursAt(p, s, i)
    decreases |s|
  {
    if |p| > |s| {
    } else if s[..|p|] == p {
      assert OccursAt(p, s, 0);
    } else {
      IsSubstringIff(p, s[1..]);
      if IsSubstring(p, s[1..]) {
        var i :| OccursAt(p, s[1..], i);
        OccursShift(p, s, i);
      } else {
        forall i | OccursAt(p, s, i) ensures false {
          if i > 0 {
            OccursShift(p, s, i - 1);
          }
        }
      }
    }
  }
}
