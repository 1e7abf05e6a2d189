// The index setup of the SQLite analytics database: an index is created
// for each of a fixed list of (table, column) pairs, but only where the
// table really has that column, and never twice.

module SetupIndexes {
  /** One row of `PRAGMA table_info(t)`: the column's position, its name
      (`row[1]`) and its declared type. */
  datatype ColumnInfo = ColumnInfo(cid: nat, name: string, declType: string)

  /** The tables of the database with their columns. A table that does not
      exist has no entry, and `PRAGMA table_info` on it lists no rows. */
  type Schema = map<string, seq<ColumnInfo>>

  /** An index, on one column of one table. */
  datatype Index = Index(table: string, column: string)

  /** One planned index: the table, the column, and the suffix of the index
      name. */
  datatype Planned = Planned(table: string, column: string, suffix: string)

  /** `any(row[1] == column for row in rows)`. */
  function AnyNamed(rows: seq<ColumnInfo>, column: string): (b: bool)
    ensures b <==> exists i :: 0 <= i < |rows| && rows[i].name == column
  {
    if rows == [] then false
    else rows[0].name == column || AnyNamed(rows[1..], column)
  }

  /** `has_col`: the table lists a column of that name. A missing table has
      no rows, so it has no column. */
  function HasCol(schema: Schema, table: string, column: string): (b: bool)
    ensures b <==> table in schema && exists i :: 0 <= i < |schema[table]| && schema[table][i].name == column
  {
    AnyNamed(TableInfo(schema, table), column)
  }

  /** The rows `PRAGMA table_info` gives for a table: none when it does not
      exist. */
  function TableInfo(schema: Schema, table: string): seq<ColumnInfo>
  {
    if table in schema then schema[table] else []
  }

  function IndexName(table: string, suffix: string): string
  {
    "idx_" + table + "_" + suffix
  }

  /** What `safe_index` leaves behind: `CREATE INDEX IF NOT EXISTS` runs only
      when the column exists, and does nothing when an index of that name
      already exists. */
  function AddIndex(indexes: map<string, Index>, schema: Schema, p: Planned): map<string, Index>
  {
    var name := IndexName(p.table, p.suffix);
    if HasCol(schema, p.table, p.column) && name !in indexes then indexes[name := Index(p.table, p.column)]
    else indexes
  }

  /** The indexes after `safe_index` has run on every entry of a plan, in
      order. */
  function AfterPlan(indexes: map<string, Index>, schema: Schema, plan: seq<Planned>): map<string, Index>
  {
    if plan == [] then indexes
    else AddIndex(AfterPlan(indexes, schema, plan[..|plan| - 1]), schema, plan[|plan| - 1])
  }

  /** The four INSEE indicator tables, each indexed on `code`. */
  const InseeTables: seq<string> := ["unemployment", "income", "population", "poverty"]

  /** The eight planned indexes of `create_indexes`, in the order it
      creates them. */
  const IndexPlan: seq<Planned> :=
    [Planned("transactions", "date_mutation", "date"), Planned("transactions", "commune", "commune"),
     Planned("unemployment", "code", "code"), Planned("income", "code", "code"),
     Planned("population", "code", "code"), Planned("poverty", "code", "code"),
     Planned("spark_dept_analysis", "dept", "dept"), Planned("region_analysis", "code_region", "code_region")]

  /** The middle of the plan is one `code` index per INSEE table. */
  lemma InseeEntries(k: nat)
    requires k < |InseeTables|
    ensures IndexPlan[2 + k] == Planned(InseeTables[k], "code", "code")
  {
  }

  /** One more entry of a plan. */
  lemma AfterPlanStep(indexes: map<string, Index>, schema: Schema, plan: seq<Planned>, k: nat)
    requires k < |plan|
    ensures AfterPlan(indexes, schema, plan[..k + 1]) == AddIndex(AfterPlan(indexes, schema, plan[..k]), schema, plan[k])
  {
    assert plan[..k + 1][..k] == plan[..k];
  }

  class Database {
    var schema: Schema
    var indexes: map<string, Index>

    /** `safe_index`. */
    method SafeIndex(table: string, column: string, suffix: string)
      modifies this
      ensures schema == old(schema)
      ensures indexes == AddIndex(old(indexes), schema, Planned(table, column, suffix))
    {
      if HasCol(schema, table, column) {
        var name := IndexName(table, suffix);
        if name !in indexes {
          indexes := indexes[name := Index(table, column)];
        }
      }
    }

    /** `create_indexes`: two indexes on the transactions, one on `code` for
        each INSEE table, then the two aggregate tables. */
    method CreateIndexes()
      modifies this
      ensures schema == old(schema)
      ensures indexes == AfterPlan(old(indexes), schema, IndexPlan)
    {
      ghost var start := indexes;
      assert IndexPlan[..0] == [];
      SafeIndex("transactions", "date_mutation", "date");
      AfterPlanStep(start, schema, IndexPlan, 0);
      SafeIndex("transactions", "commune", "commune");
      AfterPlanStep(start, schema, IndexPlan, 1);
      for k := 0 to |InseeTables|
        invariant schema == old(schema)
        invariant indexes == AfterPlan(start, schema, IndexPlan[..2 + k])
      {
        SafeIndex(InseeTables[k], "code", "code");
        InseeEntries(k);
        AfterPlanStep(start, schema, IndexPlan, 2 + k);
      }
      SafeIndex("spark_dept_analysis", "dept", "dept");
      AfterPlanStep(start, schema, IndexPlan, 6);
      SafeIndex("region_analysis", "code_region", "code_region");
      AfterPlanStep(start, schema, IndexPlan, 7);
      assert IndexPlan[..8] == IndexPlan;
    }
  }

  // ---------------------------------------------------------------------
  // Properties

  /** `safe_index` creates its index exactly when the column exists (or the
      name was already taken), and never touches another name. */
  lemma AddIndexSpec(indexes: map<string, Index>, schema: Schema, p: Planned)
    ensures var r := AddIndex(indexes, schema, p);
            var name := IndexName(p.table, p.suffix);
            && (name in r <==> name in indexes || HasCol(schema, p.table, p.column))
            && (name !in indexes && HasCol(schema, p.table, p.column) ==> r[name] == Index(p.table, p.column))
            && (!HasCol(schema, p.table, p.column) ==> r == indexes)
            && (forall k :: k in indexes ==> k in r && r[k] == indexes[k])
            && (forall k :: k in r && k != name ==> k in indexes)
  {
  }

  /** Running a plan only adds indexes: every existing index stays as it
      was, and every new one is a planned index on a column that exists,
      under its planned name. */
  lemma {:induction false} AfterPlanOnlyAdds(indexes: map<string, Index>, schema: Schema, plan: seq<Planned>)
    ensures var r := AfterPlan(indexes, schema, plan);
            && (forall k :: k in indexes ==> k in r && r[k] == indexes[k])
            && (forall k :: k in r && k !in indexes ==>
                  exists j :: 0 <= j < |plan| && k == IndexName(plan[j].table, plan[j].suffix)
                              && r[k] == Index(plan[j].table, plan[j].column)
                              && HasCol(schema, plan[j].table, plan[j].column))
  {
    if plan != [] {
      var init := plan[..|plan| - 1];
      var last := plan[|plan| - 1];
      AfterPlanOnlyAdds(indexes, schema, init);
      var m := AfterPlan(indexes, schema, init);
      var r := AddIndex(m, schema, last);
      forall k | k in r && k !in indexes
        ensures exists j :: 0 <= j < |plan| && k == IndexName(plan[j].table, plan[j].suffix)
                            && r[k] == Index(plan[j].table, plan[j].column)
                            && HasCol(schema, plan[j].table, plan[j].column)
      {
        if k in m {
          var j :| 0 <= j < |init| && k == IndexName(init[j].table, init[j].suffix)
                   && m[k] == Index(init[j].table, init[j].column)
                   && HasCol(schema, init[j].table, init[j].column);
          assert plan[j] == init[j];
        } else {
          assert plan[|plan| - 1] == last;
        }
      }
    }
  }

  /** After a plan has run, every planned index whose column exists is
      present. */
  lemma {:induction false} AfterPlanCovers(indexes: map<string, Index>, schema: Schema, plan: seq<Planned>)
    ensures forall j :: 0 <= j < |plan| && HasCol(schema, plan[j].table, plan[j].column) ==>
              IndexName(plan[j].table, plan[j].suffix) in AfterPlan(indexes, schema, plan)
  {
    if plan != [] {
      var init := plan[..|plan| - 1];
      AfterPlanCovers(indexes, schema, init);
      forall j | 0 <= j < |plan| - 1
        ensures plan[j] == init[j]
      {
      }
    }
  }

  /** A plan whose indexes are all present already changes nothing. */
  lemma {:induction false} AfterPlanNoop(indexes: map<string, Index>, schema: Schema, plan: seq<Planned>)
    requires forall j :: 0 <= j < |plan| && HasCol(schema, plan[j].table, plan[j].column) ==>
               IndexName(plan[j].table, plan[j].suffix) in indexes
    ensures AfterPlan(indexes, schema, plan) == indexes
  {
    if plan != [] {
      var init := plan[..|plan| - 1];
      forall j | 0 <= j < |init| && HasCol(schema, init[j].table, init[j].column)
        ensures IndexName(init[j].table, init[j].suffix) in indexes
      {
        assert init[j] == plan[j];
      }
      AfterPlanNoop(indexes, schema, init);
    }
  }

  /** Because of `IF NOT EXISTS`, running the plan a second time leaves the
      indexes the first run produced. */
  lemma AfterPlanIdempotent(indexes: map<string, Index>, schema: Schema, plan: seq<Planned>)
    ensures AfterPlan(AfterPlan(indexes, schema, plan), schema, plan) == AfterPlan(indexes, schema, plan)
  {
    AfterPlanCovers(indexes, schema, plan);
    AfterPlanNoop(AfterPlan(indexes, schema, plan), schema, plan);
  }

  /** The eight planned index names are all different. */
  lemma IndexPlanNamesDistinct()
    ensures |IndexPlan| == 8
    ensures forall i, j :: 0 <= i < j < |IndexPlan| ==>
              IndexName(IndexPlan[i].table, IndexPlan[i].suffix) != IndexName(IndexPlan[j].table, IndexPlan[j].suffix)
  {
    forall i, j | 0 <= i < j < |IndexPlan|
      ensures IndexName(IndexPlan[i].table, IndexPlan[i].suffix) != IndexName(IndexPlan[j].table, IndexPlan[j].suffix)
    {
      var a := IndexName(IndexPlan[i].table, IndexPlan[i].suffix);
      var b := IndexName(IndexPlan[j].table, IndexPlan[j].suffix);
      assert a[4] != b[4] || a[5] != b[5] || |a| != |b| || a[|a| - 1] != b[|b| - 1];
    }
  }

  /** On a database without indexes, `create_indexes` gives each planned
      index whose column exists its own table and column, under its own
      name, and nothing else. */
  lemma CreateIndexesFresh(schema: Schema)
    ensures var r := AfterPlan(map[], schema, IndexPlan);
            && (forall j :: 0 <= j < |IndexPlan| && HasCol(schema, IndexPlan[j].table, IndexPlan[j].column) ==>
                  var name := IndexName(IndexPlan[j].table, IndexPlan[j].suffix);
                  name in r && r[name] == Index(IndexPlan[j].table, IndexPlan[j].column))
            && (forall k :: k in r ==> exists j :: 0 <= j < |IndexPlan| && k == IndexName(IndexPlan[j].table, IndexPlan[j].suffix)
                                                  && HasCol(schema, IndexPlan[j].table, IndexPlan[j].column))
  {
    var r := AfterPlan(map[], schema, IndexPlan);
    AfterPlanCovers(map[], schema, IndexPlan);
    AfterPlanOnlyAdds(map[], schema, IndexPlan);
    IndexPlanNamesDistinct();
    forall j | 0 <= j < |IndexPlan| && HasCol(schema, IndexPlan[j].table, IndexPlan[j].column)
      ensures var name := IndexName(IndexPlan[j].table, IndexPlan[j].suffix);
              r[name] == Index(IndexPlan[j].table, IndexPlan[j].column)
    {
      var name := IndexName(IndexPlan[j].table, IndexPlan[j].suffix);
      var j' :| 0 <= j' < |IndexPlan| && name == IndexName(IndexPlan[j'].table, IndexPlan[j'].suffix)
                && r[name] == Index(IndexPlan[j'].table, IndexPlan[j'].column)
                && HasCol(schema, IndexPlan[j'].table, IndexPlan[j'].column);
      assert j' == j;
    }
  }
}
