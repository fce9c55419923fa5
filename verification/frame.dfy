/**
  The attribute table of `to_geojson` and its filtering loop
  (`for key in filters: df = df.loc[df[key] == filters[key]]`).
 */
module Frame {
  import opened Wrappers

  /** A cell of the attribute table. */
  datatype Value = Int(i: int) | Str(s: string)

  /** One record: column name to cell. */
  type Row = map<string, Value>

  /** A data frame: its column names and its records, in order. */
  datatype Table = Table(columns: set<string>, rows: seq<Row>)

  /** Every record has a cell in every column and nowhere else. */
  predicate WellFormed(t: Table) {
    forall r :: r in t.rows ==> r.Keys == t.columns
  }

  /** `KeyError`: a column that the frame does not have; `ValueError`: the frame
      to color has no records, so `np.fill_diagonal` gets a one-dimensional
      array; `Uncolorable`: the solver found no coloring, so there is no map to
      iterate over. */
  datatype FrameError = KeyError(column: string) | ValueError | Uncolorable

  /** One entry `key: value` of the `filters` dict. */
  type Filter = (string, Value)

  predicate Matches(r: Row, f: Filter) {
    f.0 in r && r[f.0] == f.1
  }

  /** `r` satisfies every filter of `fs`. */
  predicate MatchesAll(r: Row, fs: seq<Filter>) {
    forall f :: f in fs ==> Matches(r, f)
  }

  /** The records of `rows` satisfying every filter of `fs`, in their original order. */
  function Keep(rows: seq<Row>, fs: seq<Filter>): (r: seq<Row>)
    ensures |r| <= |rows|
    ensures forall x {:trigger x in r} :: x in r <==> x in rows && MatchesAll(x, fs)
  {
    if |rows| == 0 then []
    else (if MatchesAll(rows[0], fs) then [rows[0]] else []) + Keep(rows[1..], fs)
  }

  /** The first record is kept or dropped on its own; the rest are filtered alike. */
  lemma KeepCons(x: Row, rest: seq<Row>, fs: seq<Filter>)
    ensures Keep([x] + rest, fs) == (if MatchesAll(x, fs) then [x] else []) + Keep(rest, fs)
  {
    assert ([x] + rest)[0] == x && ([x] + rest)[1..] == rest;
  }

  /** Filtering works record by record and keeps the order: the records kept from
      `a + b` are those kept from `a` followed by those kept from `b`. */
  lemma {:induction false} KeepAppend(a: seq<Row>, b: seq<Row>, fs: seq<Filter>)
    ensures Keep(a + b, fs) == Keep(a, fs) + Keep(b, fs)
  {
    if |a| == 0 {
      assert a + b == b;
    } else {
      KeepAppend(a[1..], b, fs);
      assert a == [a[0]] + a[1..];
      assert a + b == [a[0]] + (a[1..] + b);
      var head := if MatchesAll(a[0], fs) then [a[0]] else [];
      KeepCons(a[0], a[1..], fs);
      KeepCons(a[0], a[1..] + b, fs);
      assert head + Keep(a[1..], fs) + Keep(b, fs) == head + (Keep(a[1..], fs) + Keep(b, fs));
    }
  }

  /** A single record is kept exactly when it matches every filter. */
  lemma KeepOne(x: Row, fs: seq<Filter>)
    ensures Keep([x], fs) == if MatchesAll(x, fs) then [x] else []
  {
    assert [x][1..] == [];
  }

  /** Filtering drops records but never duplicates one, and keeps every copy of
      a matching record. */
  lemma {:induction false} KeepCounts(rows: seq<Row>, fs: seq<Filter>)
    ensures multiset(Keep(rows, fs)) <= multiset(rows)
    ensures forall x :: MatchesAll(x, fs) ==> multiset(Keep(rows, fs))[x] == multiset(rows)[x]
  {
    if |rows| > 0 {
      KeepCounts(rows[1..], fs);
      assert rows == [rows[0]] + rows[1..];
    }
  }

  /** The filtering loop: one `df.loc[df[key] == value]` per filter, in dict order;
      a key that is not a column raises `KeyError`. */
  function ApplyFilters(t: Table, fs: seq<Filter>): Result<Table, FrameError>
    decreases |fs|
  {
    if |fs| == 0 then Success(t)
    else if fs[0].0 !in t.columns then Failure(KeyError(fs[0].0))
    else ApplyFilters(Table(t.columns, Keep(t.rows, [fs[0]])), fs[1..])
  }

  /** Filtering by `f` and then by `fs` is filtering by all of them at once. */
  lemma {:induction false} KeepThenKeep(rows: seq<Row>, f: Filter, fs: seq<Filter>)
    ensures Keep(Keep(rows, [f]), fs) == Keep(rows, [f] + fs)
  {
    if |rows| > 0 {
      KeepThenKeep(rows[1..], f, fs);
      assert MatchesAll(rows[0], [f] + fs) <==> Matches(rows[0], f) && MatchesAll(rows[0], fs) by {
        assert forall g :: g in [f] + fs <==> g == f || g in fs;
      }
      if Matches(rows[0], f) {
        assert Keep(rows, [f]) == [rows[0]] + Keep(rows[1..], [f]);
        assert Keep(rows, [f])[1..] == Keep(rows[1..], [f]);
      } else {
        assert Keep(rows, [f]) == Keep(rows[1..], [f]);
      }
    }
  }

  /** The loop keeps exactly the records matching every filter, in their original
      order, and fails exactly when some filter key is not a column. */
  lemma {:induction false} FiltersKeepMatching(t: Table, fs: seq<Filter>)
    ensures ApplyFilters(t, fs).Success? <==> forall f :: f in fs ==> f.0 in t.columns
    ensures ApplyFilters(t, fs).Success? ==> ApplyFilters(t, fs).value == Table(t.columns, Keep(t.rows, fs))
    ensures ApplyFilters(t, fs).Failure? ==>
      ApplyFilters(t, fs).error.KeyError? && ApplyFilters(t, fs).error.column !in t.columns
    decreases |fs|
  {
    if |fs| == 0 {
      assert forall r :: MatchesAll(r, fs);
      KeepAllRows(t.rows, fs);
    } else if fs[0].0 in t.columns {
      var t' := Table(t.columns, Keep(t.rows, [fs[0]]));
      FiltersKeepMatching(t', fs[1..]);
      KeepThenKeep(t.rows, fs[0], fs[1..]);
      assert [fs[0]] + fs[1..] == fs;
      assert forall f :: f in fs <==> f == fs[0] || f in fs[1..];
    }
  }

  /** With no filter that rejects anything, every record is kept. */
  lemma {:induction false} KeepAllRows(rows: seq<Row>, fs: seq<Filter>)
    requires forall r :: r in rows ==> MatchesAll(r, fs)
    ensures Keep(rows, fs) == rows
  {
    if |rows| > 0 {
      KeepAllRows(rows[1..], fs);
      assert rows[0] in rows;
    }
  }

  /** Two filter lists with the same entries keep the same records. */
  lemma {:induction false} KeepSameFilters(rows: seq<Row>, fs: seq<Filter>, gs: seq<Filter>)
    requires forall f :: f in fs <==> f in gs
    ensures Keep(rows, fs) == Keep(rows, gs)
  {
    if |rows| > 0 {
      KeepSameFilters(rows[1..], fs, gs);
      assert MatchesAll(rows[0], fs) == MatchesAll(rows[0], gs);
    }
  }

  /** The order in which the filters are applied does not matter. */
  lemma FilterOrderIrrelevant(t: Table, fs: seq<Filter>, gs: seq<Filter>)
    requires multiset(fs) == multiset(gs)
    ensures ApplyFilters(t, fs).Success? <==> ApplyFilters(t, gs).Success?
    ensures ApplyFilters(t, fs).Success? ==> ApplyFilters(t, fs) == ApplyFilters(t, gs)
  {
    assert forall f :: f in fs <==> f in gs by {
      forall f
        ensures f in fs <==> f in gs
      {
        assert f in fs <==> f in multiset(fs);
        assert f in gs <==> f in multiset(gs);
      }
    }
    FiltersKeepMatching(t, fs);
    FiltersKeepMatching(t, gs);
    KeepSameFilters(t.rows, fs, gs);
  }

  /** Filtering a well-formed frame gives a well-formed frame. */
  lemma FiltersKeepWellFormed(t: Table, fs: seq<Filter>)
    requires WellFormed(t)
    requires ApplyFilters(t, fs).Success?
    ensures WellFormed(ApplyFilters(t, fs).value)
  {
    FiltersKeepMatching(t, fs);
  }
}
