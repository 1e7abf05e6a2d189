// The full copy of the SQLite database into MongoDB: every user table,
// in name order, becomes a collection of one document per row, written in
// batches of 5000 after the old collection has been dropped.

module SqliteToMongoAllTables {

  // ---------------------------------------------------------------------
  // The SQLite side

  /** A value of an SQLite column. */
  datatype SqlValue = SqlNull | SqlInteger(i: int) | SqlReal(r: real) | SqlText(t: string) | SqlBlob(b: seq<bv8>)

  /** An entry of `sqlite_master` (its `type` and `name`), together with
      what `SELECT * FROM name` returns: the column names of the cursor's
      description and the rows. */
  datatype SchemaEntry = SchemaEntry(kind: string, name: string, columns: seq<string>, rows: seq<seq<SqlValue>>)

  /** A document: a row as a dictionary from column name to value. */
  type Doc = map<string, SqlValue>

  function AsciiLower(c: char): char
  {
    if 'A' <= c <= 'Z' then (c as int + 32) as char else c
  }

  /** One character of a `LIKE` pattern against one character of the text:
      `_` matches anything, letters match regardless of ASCII case. */
  predicate CharLike(c: char, p: char)
  {
    p == '_' || AsciiLower(c) == AsciiLower(p)
  }

  /** SQLite's `LIKE` without an `ESCAPE` clause: `%` matches any run of
      characters, `_` exactly one, and every other character itself, with
      ASCII letters compared without regard to case. */
  predicate Like(s: string, pattern: string)
    decreases |s| + |pattern|
  {
    if pattern == [] then s == []
    else if pattern[0] == '%' then Like(s, pattern[1..]) || (s != [] && Like(s[1..], pattern))
    else s != [] && CharLike(s[0], pattern[0]) && Like(s[1..], pattern[1..])
  }

  /** `%` alone matches every text. */
  lemma {:induction false} LikeAnything(s: string)
    ensures Like(s, "%")
  {
    if s != [] {
      LikeAnything(s[1..]);
    }
  }

  /** A pattern made of a fixed part followed by `%` matches exactly the
      texts that start with a match of the fixed part. */
  lemma {:induction false} LikePrefix(s: string, q: string)
    requires forall i :: 0 <= i < |q| ==> q[i] != '%'
    ensures Like(s, q + "%") <==> |s| >= |q| && forall i :: 0 <= i < |q| ==> CharLike(s[i], q[i])
  {
    if q == [] {
      assert q + "%" == "%";
      LikeAnything(s);
    } else {
      assert (q + "%")[0] == q[0] && (q + "%")[1..] == q[1..] + "%";
      if s != [] {
        LikePrefix(s[1..], q[1..]);
        assert forall i :: 1 <= i < |q| && i < |s| ==> s[i] == s[1..][i - 1] && q[i] == q[1..][i - 1];
      }
    }
  }

  /** SQLite's internal tables: names `LIKE 'sqlite_%'`. */
  predicate IsInternal(name: string)
  {
    Like(name, "sqlite_%")
  }

  /** Because `_` is a wildcard, a name is taken for internal exactly when it
      has at least seven characters and its first six spell "sqlite" in any
      case: "sqlite_stat1", but also "SQLiteX". */
  lemma InternalIff(name: string)
    ensures IsInternal(name) <==> |name| >= 7 && forall i :: 0 <= i < 6 ==> AsciiLower(name[i]) == "sqlite"[i]
  {
    var q := "sqlite_";
    forall i | 0 <= i < |q|
      ensures q[i] != '%'
      ensures i < 6 ==> q[i] == "sqlite"[i] && AsciiLower(q[i]) == q[i]
    {
      assert i == 0 || i == 1 || i == 2 || i == 3 || i == 4 || i == 5 || i == 6;
    }
    LikePrefix(name, q);
    assert q + "%" == "sqlite_%";
  }

  // ---------------------------------------------------------------------
  // `fetch_table_names`

  /** The order of `ORDER BY name`: character codes compared one by one, a
      proper prefix first. */
  predicate LexLeq(a: string, b: string)
  {
    a == [] || (b != [] && (a[0] < b[0] || (a[0] == b[0] && LexLeq(a[1..], b[1..]))))
  }

  lemma {:induction false} LexLeqTotal(a: string, b: string)
    ensures LexLeq(a, b) || LexLeq(b, a)
  {
    if a != [] && b != [] && a[0] == b[0] {
      LexLeqTotal(a[1..], b[1..]);
    }
  }

  lemma {:induction false} LexLeqTransitive(a: string, b: string, c: string)
    requires LexLeq(a, b) && LexLeq(b, c)
    ensures LexLeq(a, c)
  {
    if a != [] && a[0] == b[0] && b[0] == c[0] {
      LexLeqTransitive(a[1..], b[1..], c[1..]);
    }
  }

  lemma {:induction false} LexLeqAntisymmetric(a: string, b: string)
    requires LexLeq(a, b) && LexLeq(b, a)
    ensures a == b
  {
    if a != [] {
      LexLeqAntisymmetric(a[1..], b[1..]);
      assert a == [a[0]] + a[1..] && b == [b[0]] + b[1..];
    }
  }

  predicate Ascending(s: seq<SchemaEntry>)
  {
    forall i :: 0 < i < |s| ==> LexLeq(s[i - 1].name, s[i].name)
  }

  /** `WHERE type='table' AND name NOT LIKE 'sqlite_%'`. */
  function UserTables(master: seq<SchemaEntry>): (r: seq<SchemaEntry>)
    ensures forall i :: 0 <= i < |r| ==> r[i].kind == "table" && !IsInternal(r[i].name)
  {
    if master == [] then []
    else (if master[0].kind == "table" && !IsInternal(master[0].name) then [master[0]] else [])
         + UserTables(master[1..])
  }

  /** One entry placed into an ascending sequence. */
  function Insert(e: SchemaEntry, s: seq<SchemaEntry>): seq<SchemaEntry>
  {
    if s == [] then [e]
    else if LexLeq(e.name, s[0].name) then [e] + s
    else [s[0]] + Insert(e, s[1..])
  }

  function SortByName(s: seq<SchemaEntry>): seq<SchemaEntry>
  {
    if s == [] then [] else Insert(s[0], SortByName(s[1..]))
  }

  lemma {:induction false} InsertPermutes(e: SchemaEntry, s: seq<SchemaEntry>)
    ensures multiset(Insert(e, s)) == multiset(s) + multiset{e}
  {
    if s != [] && !LexLeq(e.name, s[0].name) {
      InsertPermutes(e, s[1..]);
      assert s == [s[0]] + s[1..];
    }
  }

  lemma {:induction false} SortPermutes(s: seq<SchemaEntry>)
    ensures multiset(SortByName(s)) == multiset(s)
  {
    if s != [] {
      SortPermutes(s[1..]);
      InsertPermutes(s[0], SortByName(s[1..]));
      assert s == [s[0]] + s[1..];
    }
  }

  /** The tables `fetch_table_names` reads, in its order. */
  function FetchTables(master: seq<SchemaEntry>): seq<SchemaEntry>
  {
    SortByName(UserTables(master))
  }

  /** `fetch_table_names`. */
  function FetchTableNames(master: seq<SchemaEntry>): (names: seq<string>)
    ensures |names| == |FetchTables(master)|
  {
    var t := FetchTables(master);
    seq(|t|, i requires 0 <= i < |t| => t[i].name)
  }

  lemma {:induction false} InsertAscending(e: SchemaEntry, s: seq<SchemaEntry>)
    requires Ascending(s)
    ensures Ascending(Insert(e, s))
    ensures s != [] ==> Insert(e, s)[0] == e || Insert(e, s)[0] == s[0]
  {
    if s != [] && !LexLeq(e.name, s[0].name) {
      InsertAscending(e, s[1..]);
      LexLeqTotal(e.name, s[0].name);
      var r := Insert(e, s);
      forall i | 0 < i < |r|
        ensures LexLeq(r[i - 1].name, r[i].name)
      {
        if i > 1 {
          assert r[i - 1] == Insert(e, s[1..])[i - 2] && r[i] == Insert(e, s[1..])[i - 1];
        }
      }
    }
  }

  lemma {:induction false} SortAscending(s: seq<SchemaEntry>)
    ensures Ascending(SortByName(s))
  {
    if s != [] {
      SortAscending(s[1..]);
      InsertAscending(s[0], SortByName(s[1..]));
    }
  }

  lemma {:induction false} UserTablesMember(master: seq<SchemaEntry>, e: SchemaEntry)
    ensures e in UserTables(master) <==> e in master && e.kind == "table" && !IsInternal(e.name)
  {
    if master != [] {
      UserTablesMember(master[1..], e);
      assert e in master <==> e == master[0] || e in master[1..];
    }
  }

  /** `fetch_table_names` lists, in ascending order, the names of exactly
      the entries of type `table` whose name is not `LIKE 'sqlite_%'`, each
      as often as it occurs. */
  lemma FetchTableNamesSpec(master: seq<SchemaEntry>)
    ensures var names := FetchTableNames(master);
            && (forall i :: 0 < i < |names| ==> LexLeq(names[i - 1], names[i]))
            && (forall name :: name in names <==>
                  exists e :: e in master && e.kind == "table" && e.name == name && !IsInternal(name))
    ensures multiset(FetchTables(master)) == multiset(UserTables(master))
  {
    SortAscending(UserTables(master));
    SortPermutes(UserTables(master));
    forall name
      ensures name in FetchTableNames(master) <==>
              exists e :: e in master && e.kind == "table" && e.name == name && !IsInternal(name)
    {
      FetchedNameMember(master, name);
    }
  }

  /** A name is fetched exactly when some user table carries it. */
  lemma FetchedNameMember(master: seq<SchemaEntry>, name: string)
    ensures name in FetchTableNames(master) <==>
            exists e :: e in master && e.kind == "table" && e.name == name && !IsInternal(name)
  {
    var t := FetchTables(master);
    var names := FetchTableNames(master);
    SortPermutes(UserTables(master));
    if name in names {
      var i :| 0 <= i < |names| && names[i] == name;
      assert t[i] in multiset(UserTables(master));
      UserTablesMember(master, t[i]);
    }
    if e :| e in master && e.kind == "table" && e.name == name && !IsInternal(name) {
      UserTablesMember(master, e);
      assert e in multiset(t);
      var i :| 0 <= i < |t| && t[i] == e;
      assert names[i] == name;
    }
  }

  // ---------------------------------------------------------------------
  // `table_rows_generator`

  function Min(a: nat, b: nat): nat
  {
    if a <= b then a else b
  }

  /** `dict(zip(columns, row))`: pairs up to the shorter of the two, a later
      column overriding an earlier one of the same name. */
  function RowDict(columns: seq<string>, row: seq<SqlValue>): Doc
    decreases |columns|
  {
    var n := Min(|columns|, |row|);
    if n == 0 then map[]
    else RowDict(columns[..n - 1], row[..n - 1])[columns[n - 1] := row[n - 1]]
  }

  /** The keys of the document are the columns that have a value. */
  lemma {:induction false} RowDictKeys(columns: seq<string>, row: seq<SqlValue>)
    ensures forall k :: k in RowDict(columns, row) <==> exists i :: 0 <= i < Min(|columns|, |row|) && columns[i] == k
    decreases |columns|
  {
    var n := Min(|columns|, |row|);
    if n > 0 {
      RowDictKeys(columns[..n - 1], row[..n - 1]);
      assert forall i :: 0 <= i < n - 1 ==> columns[..n - 1][i] == columns[i];
    }
  }

  /** Each column is mapped to the value at its own position in the row,
      unless a later column of the same name overrides it. */
  lemma {:induction false} RowDictPositional(columns: seq<string>, row: seq<SqlValue>, i: nat)
    requires i < Min(|columns|, |row|)
    requires forall j :: i < j < Min(|columns|, |row|) ==> columns[j] != columns[i]
    ensures columns[i] in RowDict(columns, row) && RowDict(columns, row)[columns[i]] == row[i]
    decreases |columns|
  {
    var n := Min(|columns|, |row|);
    if i < n - 1 {
      RowDictPositional(columns[..n - 1], row[..n - 1], i);
    }
  }

  /** With distinct column names and a full row, the document maps every
      column to its value, and has no other key. */
  lemma RowDictOfTable(columns: seq<string>, row: seq<SqlValue>)
    requires |columns| == |row|
    requires forall i, j :: 0 <= i < j < |columns| ==> columns[i] != columns[j]
    ensures var d := RowDict(columns, row);
            && (forall i :: 0 <= i < |columns| ==> columns[i] in d && d[columns[i]] == row[i])
            && (forall k :: k in d ==> k in columns)
  {
    RowDictKeys(columns, row);
    forall i | 0 <= i < |columns|
      ensures columns[i] in RowDict(columns, row) && RowDict(columns, row)[columns[i]] == row[i]
    {
      RowDictPositional(columns, row, i);
    }
  }

  /** The documents the generator yields for a table, in row order. */
  function TableDocs(e: SchemaEntry): (docs: seq<Doc>)
    ensures |docs| == |e.rows|
  {
    seq(|e.rows|, i requires 0 <= i < |e.rows| => RowDict(e.columns, e.rows[i]))
  }

  // ---------------------------------------------------------------------
  // Batches

  const BatchSize: nat := 5000

  /** Consecutive slices of `n` elements, the last one shorter when `n` does
      not divide the length. */
  function Chunks<T>(xs: seq<T>, n: nat): seq<seq<T>>
    requires n > 0
    decreases |xs|
  {
    if xs == [] then []
    else var k := Min(n, |xs|); [xs[..k]] + Chunks(xs[k..], n)
  }

  function Flatten<T>(xss: seq<seq<T>>): seq<T>
  {
    if xss == [] then [] else xss[0] + Flatten(xss[1..])
  }

  /** Concatenating the batches gives back the rows, in order. */
  lemma {:induction false} ChunksFlatten<T>(xs: seq<T>, n: nat)
    requires n > 0
    ensures Flatten(Chunks(xs, n)) == xs
    decreases |xs|
  {
    if xs != [] {
      var k := Min(n, |xs|);
      ChunksFlatten(xs[k..], n);
      assert xs == xs[..k] + xs[k..];
    }
  }

  /** Every batch has between one and `n` elements, and every batch but the
      last has exactly `n`. */
  lemma {:induction false} ChunksSizes<T>(xs: seq<T>, n: nat)
    requires n > 0
    ensures var c := Chunks(xs, n);
            && (forall i :: 0 <= i < |c| ==> 0 < |c[i]| <= n)
            && (forall i :: 0 <= i < |c| - 1 ==> |c[i]| == n)
    decreases |xs|
  {
    if xs != [] {
      var k := Min(n, |xs|);
      ChunksSizes(xs[k..], n);
      var c := Chunks(xs, n);
      assert forall i :: 1 <= i < |c| ==> c[i] == Chunks(xs[k..], n)[i - 1];
    }
  }

  /** Rows that fill `m` whole batches are batched on their own. */
  lemma {:induction false} ChunksAppend<T>(xs: seq<T>, ys: seq<T>, n: nat, m: nat)
    requires n > 0 && |xs| == m * n
    ensures Chunks(xs + ys, n) == Chunks(xs, n) + Chunks(ys, n)
    decreases m
  {
    if m == 0 {
      assert xs + ys == ys;
    } else {
      var zs := xs + ys;
      assert Min(n, |zs|) == n && Min(n, |xs|) == n;
      assert zs[..n] == xs[..n] && zs[n..] == xs[n..] + ys;
      assert |xs[n..]| == (m - 1) * n;
      ChunksAppend(xs[n..], ys, n, m - 1);
    }
  }

  lemma OneChunk<T>(xs: seq<T>, n: nat)
    requires 0 < |xs| <= n
    ensures Chunks(xs, n) == [xs]
  {
    assert Min(n, |xs|) == |xs|;
    assert xs[..|xs|] == xs && xs[|xs|..] == [];
  }

  // ---------------------------------------------------------------------
  // The MongoDB side

  /** A call `main` makes on a collection. */
  datatype Call = Drop(collection: string) | InsertMany(collection: string, docs: seq<Doc>)

  function InsertCalls(collection: string, batches: seq<seq<Doc>>): seq<Call>
  {
    seq(|batches|, i requires 0 <= i < |batches| => InsertMany(collection, batches[i]))
  }

  lemma InsertCallsAppend(collection: string, a: seq<seq<Doc>>, b: seq<seq<Doc>>)
    ensures InsertCalls(collection, a + b) == InsertCalls(collection, a) + InsertCalls(collection, b)
  {
  }

  /** The calls made for one table: nothing for an empty table, otherwise a
      drop followed by one `insert_many` per batch. */
  function TableCalls(table: string, docs: seq<Doc>): seq<Call>
  {
    if docs == [] then [] else [Drop(table)] + InsertCalls(table, Chunks(docs, BatchSize))
  }

  /** The collections after one table: an empty table leaves its collection
      alone, any other replaces it by its documents. */
  function AfterTable(collections: map<string, seq<Doc>>, table: string, docs: seq<Doc>): map<string, seq<Doc>>
  {
    if docs == [] then collections else collections[table := docs]
  }

  function AfterTables(collections: map<string, seq<Doc>>, tables: seq<SchemaEntry>): map<string, seq<Doc>>
  {
    if tables == [] then collections
    else var last := tables[|tables| - 1];
         AfterTable(AfterTables(collections, tables[..|tables| - 1]), last.name, TableDocs(last))
  }

  function CallsOf(tables: seq<SchemaEntry>): seq<Call>
  {
    if tables == [] then []
    else var last := tables[|tables| - 1];
         CallsOf(tables[..|tables| - 1]) + TableCalls(last.name, TableDocs(last))
  }

  /** One more table of the list. */
  lemma TablesStep(collections: map<string, seq<Doc>>, tables: seq<SchemaEntry>, k: nat)
    requires k < |tables|
    ensures AfterTables(collections, tables[..k + 1])
            == AfterTable(AfterTables(collections, tables[..k]), tables[k].name, TableDocs(tables[k]))
    ensures CallsOf(tables[..k + 1]) == CallsOf(tables[..k]) + TableCalls(tables[k].name, TableDocs(tables[k]))
  {
    assert tables[..k + 1][..k] == tables[..k];
  }

  lemma Associative<T>(a: seq<T>, b: seq<T>, c: seq<T>)
    ensures (a + b) + c == a + (b + c)
  {
  }

  function Stored(collections: map<string, seq<Doc>>, name: string): seq<Doc>
  {
    if name in collections then collections[name] else []
  }

  /** Inserting a batch into a collection that started absent extends it by
      the batch. */
  lemma StoredGrows(start: map<string, seq<Doc>>, table: string, sent: seq<Doc>, batch: seq<Doc>)
    requires table !in start && batch != []
    ensures var c := AfterTable(start, table, sent);
            c[table := Stored(c, table) + batch] == AfterTable(start, table, sent + batch)
  {
  }

  /** Sending the pending batch: the rows sent so far grow by the batch, and
      their batches by one. */
  lemma FlushStep(table: string, docs: seq<Doc>, inserted: nat, batch: seq<Doc>, full: nat)
    requires inserted == full * BatchSize && 0 < |batch| <= BatchSize
    requires inserted + |batch| <= |docs| && batch == docs[inserted..inserted + |batch|]
    ensures docs[..inserted + |batch|] == docs[..inserted] + batch
    ensures InsertCalls(table, Chunks(docs[..inserted + |batch|], BatchSize))
            == InsertCalls(table, Chunks(docs[..inserted], BatchSize)) + [InsertMany(table, batch)]
  {
    assert docs[..inserted + |batch|] == docs[..inserted] + batch;
    ChunksAppend(docs[..inserted], batch, BatchSize, full);
    OneChunk(batch, BatchSize);
    InsertCallsAppend(table, Chunks(docs[..inserted], BatchSize), [batch]);
  }

  /** Dropping a collection and filling it anew leaves only the new
      documents in it. */
  lemma RefillAfterDrop(collections: map<string, seq<Doc>>, table: string, docs: seq<Doc>)
    ensures (collections - {table})[table := docs] == collections[table := docs]
  {
  }

  class MongoTarget {
    var collections: map<string, seq<Doc>>
    var calls: seq<Call>

    /** `collection.drop()`. */
    method DropCollection(name: string)
      modifies this
      ensures collections == old(collections) - {name}
      ensures calls == old(calls) + [Drop(name)]
    {
      collections := collections - {name};
      calls := calls + [Drop(name)];
    }

    /** `collection.insert_many(docs)`, which refuses an empty list. */
    method InsertManyDocs(name: string, docs: seq<Doc>)
      requires docs != []
      modifies this
      ensures collections == old(collections)[name := Stored(old(collections), name) + docs]
      ensures calls == old(calls) + [InsertMany(name, docs)]
    {
      collections := collections[name := Stored(collections, name) + docs];
      calls := calls + [InsertMany(name, docs)];
    }

    /** The body of `main`'s loop for one table: skip it when it has no
        rows, otherwise drop the collection and insert the rows in batches. */
    method MigrateTable(table: string, docs: seq<Doc>) returns (inserted: nat)
      modifies this
      ensures collections == AfterTable(old(collections), table, docs)
      ensures calls == old(calls) + TableCalls(table, docs)
      ensures inserted == |docs|
    {
      var totalRows := |docs|;
      if totalRows == 0 {
        return 0;
      }
      ghost var calls0 := calls;
      DropCollection(table);
      inserted := InsertInBatches(table, docs);
      Associative(calls0, [Drop(table)], InsertCalls(table, Chunks(docs, BatchSize)));
      RefillAfterDrop(old(collections), table, docs);
    }

    /** The batching loop: rows are gathered into `batch`, which is sent and
        cleared each time it holds `BatchSize` rows; what is left at the end
        is sent as a last, shorter batch. The collection must be absent, as
        after the drop. */
    method InsertInBatches(table: string, docs: seq<Doc>) returns (inserted: nat)
      requires table !in collections
      modifies this
      ensures collections == AfterTable(old(collections), table, docs)
      ensures calls == old(calls) + InsertCalls(table, Chunks(docs, BatchSize))
      ensures inserted == |docs|
    {
      ghost var start := collections;
      ghost var calls0 := calls;
      ghost var full: nat := 0;
      var batch: seq<Doc> := [];
      inserted := 0;
      var i := 0;
      assert docs[..0] == [];
      while i < |docs|
        invariant 0 <= i <= |docs|
        invariant inserted + |batch| == i && inserted == full * BatchSize && |batch| < BatchSize
        invariant batch == docs[inserted..i]
        invariant collections == AfterTable(start, table, docs[..inserted])
        invariant calls == calls0 + InsertCalls(table, Chunks(docs[..inserted], BatchSize))
      {
        batch := batch + [docs[i]];
        i := i + 1;
        if |batch| >= BatchSize {
          InsertManyDocs(table, batch);
          FlushStep(table, docs, inserted, batch, full);
          StoredGrows(start, table, docs[..inserted], batch);
          Associative(calls0, InsertCalls(table, Chunks(docs[..inserted], BatchSize)), [InsertMany(table, batch)]);
          inserted := inserted + |batch|;
          full := full + 1;
          batch := [];
        }
      }
      if batch != [] {
        InsertManyDocs(table, batch);
        assert docs[..inserted + |batch|] == docs;
        FlushStep(table, docs, inserted, batch, full);
        StoredGrows(start, table, docs[..inserted], batch);
        Associative(calls0, InsertCalls(table, Chunks(docs[..inserted], BatchSize)), [InsertMany(table, batch)]);
        inserted := inserted + |batch|;
      } else {
        assert docs[..inserted] == docs;
      }
    }

    /** `main`: the tables `fetch_table_names` lists, nothing at all when
        there are none. */
    method MigrateAll(master: seq<SchemaEntry>)
      modifies this
      ensures collections == AfterTables(old(collections), FetchTables(master))
      ensures calls == old(calls) + CallsOf(FetchTables(master))
    {
      var tables := FetchTables(master);
      if tables == [] {
        return;
      }
      MigrateTables(tables);
    }

    /** `main`'s loop over the tables, in order. */
    method MigrateTables(tables: seq<SchemaEntry>)
      modifies this
      ensures collections == AfterTables(old(collections), tables)
      ensures calls == old(calls) + CallsOf(tables)
    {
      for k := 0 to |tables|
        invariant collections == AfterTables(old(collections), tables[..k])
        invariant calls == old(calls) + CallsOf(tables[..k])
      {
        var _ := MigrateTable(tables[k].name, TableDocs(tables[k]));
        TablesStep(old(collections), tables, k);
        Associative(old(calls), CallsOf(tables[..k]), TableCalls(tables[k].name, TableDocs(tables[k])));
      }
      assert tables[..|tables|] == tables;
    }
  }

  // ---------------------------------------------------------------------
  // What the migration leaves behind

  /** With distinct table names, each table with rows ends up as a
      collection holding its documents, and every other collection is
      left as it was. */
  lemma {:induction false} AfterTablesSpec(collections: map<string, seq<Doc>>, tables: seq<SchemaEntry>)
    requires forall i, j :: 0 <= i < j < |tables| ==> tables[i].name != tables[j].name
    ensures var r := AfterTables(collections, tables);
            && (forall i :: 0 <= i < |tables| && tables[i].rows != [] ==>
                  tables[i].name in r && r[tables[i].name] == TableDocs(tables[i]))
            && (forall k :: (forall i :: 0 <= i < |tables| && tables[i].rows != [] ==> tables[i].name != k) ==>
                  (k in r <==> k in collections) && (k in r ==> r[k] == collections[k]))
  {
    if tables != [] {
      var init := tables[..|tables| - 1];
      AfterTablesSpec(collections, init);
      assert forall i :: 0 <= i < |init| ==> init[i] == tables[i];
    }
  }

  /** Every `insert_many` call receives between one and 5000 documents, and
      the documents a table's calls carry are its rows, in order. */
  lemma TableCallsSpec(table: string, docs: seq<Doc>)
    ensures var calls := TableCalls(table, docs);
            && (docs == [] <==> calls == [])
            && (docs != [] ==> calls[0] == Drop(table))
            && (forall i :: 1 <= i < |calls| ==>
                  calls[i].InsertMany? && calls[i].collection == table && 0 < |calls[i].docs| <= BatchSize)
            && (forall i :: 1 <= i < |calls| - 1 ==> |calls[i].docs| == BatchSize)
    ensures docs != [] ==> Flatten(Chunks(docs, BatchSize)) == docs
  {
    ChunksSizes(docs, BatchSize);
    ChunksFlatten(docs, BatchSize);
  }
}
