/**
 * lib/features/outline/bootstrap.ts: the schema check run before the outline tables are
 * used, and the memoised initialisation that drops an incompatible schema, applies the
 * init schema and makes sure the default book exists.
 *
 * The database is the text each table was created with (what `sqlite_master` reports for
 * it) together with the rows of the three tables (`OutlinePersistence.Tables`). The
 * asynchronous init run is split into its start (`InitOutlineFeature`) and the moment it
 * settles (`Settle`); the steps it completed before an error are a parameter.
 */
module Bootstrap {
  import opened Wrappers
  import opened OutlinePersistence

  const BookTable := "outline_books"
  const NodeTable := "outline_nodes"
  const EdgeTable := "outline_edges"
  const DefaultBookId := "default-book"
  const DefaultBookTitle := "我的笔记"

  // ---------------------------------------------------------------------------
  // Substrings

  /** `s.includes(sub)`. */
  function Includes(s: string, sub: string): bool
    decreases |s|
  {
    if |sub| > |s| then false
    else if s[..|sub|] == sub then true
    else Includes(s[1..], sub)
  }

  /** `sub` occurring at offset `i` makes `s.includes(sub)` true. */
  lemma {:induction false} IncludesAt(s: string, sub: string, i: nat)
    requires i + |sub| <= |s| && s[i..i + |sub|] == sub
    ensures Includes(s, sub)
    decreases i
  {
    if i > 0 && s[..|sub|] != sub {
      assert s[1..][i - 1..i - 1 + |sub|] == s[i..i + |sub|];
      IncludesAt(s[1..], sub, i - 1);
    }
  }

  /** And `s.includes(sub)` means `sub` occurs at some offset. */
  lemma {:induction false} IncludesWitness(s: string, sub: string) returns (i: nat)
    requires Includes(s, sub)
    ensures i + |sub| <= |s| && s[i..i + |sub|] == sub
    decreases |s|
  {
    if s[..|sub|] == sub {
      i := 0;
    } else {
      var j := IncludesWitness(s[1..], sub);
      assert s[1..][j..j + |sub|] == s[j + 1..j + 1 + |sub|];
      i := j + 1;
    }
  }

  /** Every character of an included string occurs in the string. */
  lemma IncludesChars(s: string, sub: string, c: char)
    requires Includes(s, sub) && c in sub
    ensures c in s
  {
    var i := IncludesWitness(s, sub);
    var k :| 0 <= k < |sub| && sub[k] == c;
    assert s[i + k] == s[i..i + |sub|][k];
  }

  /** A statement written as the concatenation of its pieces. */
  function Concat(parts: seq<string>): string {
    if parts == [] then "" else parts[0] + Concat(parts[1..])
  }

  lemma {:induction false} ConcatSplit(parts: seq<string>, i: nat)
    requires i < |parts|
    ensures Concat(parts) == Concat(parts[..i]) + parts[i] + Concat(parts[i + 1..])
    decreases i
  {
    if i > 0 {
      ConcatSplit(parts[1..], i - 1);
      assert parts[1..][..i - 1] == parts[1..i] && parts[1..][i - 1 + 1..] == parts[i + 1..];
      assert parts[..i] == [parts[0]] + parts[1..i];
      assert Concat(parts[..i]) == parts[0] + Concat(parts[1..i]);
    } else {
      assert parts[..0] == [] && parts[1..] == parts[i + 1..];
    }
  }

  /** Each piece of a statement is included in it. */
  lemma PartIncluded(parts: seq<string>, i: nat)
    requires i < |parts|
    ensures Includes(Concat(parts), parts[i])
  {
    ConcatSplit(parts, i);
    var pre := Concat(parts[..i]);
    assert Concat(parts)[|pre|..|pre| + |parts[i]|] == parts[i];
    IncludesAt(Concat(parts), parts[i], |pre|);
  }

  /** A character of a statement comes from one of its pieces. */
  lemma {:induction false} CharOfConcat(parts: seq<string>, c: char)
    requires c in Concat(parts)
    ensures exists p | p in parts :: c in p
  {
    if c !in parts[0] {
      CharOfConcat(parts[1..], c);
      var p :| p in parts[1..] && c in p;
      assert p in parts;
    }
  }

  // ---------------------------------------------------------------------------
  // The schema check

  /** `clauses.every(c => sql.includes(c))`, the `&&` chains of `isSchemaCompatible`. */
  predicate HasAll(sql: string, clauses: seq<string>) {
    forall i | 0 <= i < |clauses| :: Includes(sql, clauses[i])
  }

  function BookForeignKey(): string {
    "FOREIGN KEY (bookId) REFERENCES " + BookTable + "(id) ON DELETE CASCADE"
  }

  function NodeForeignKey(column: string): string {
    "FOREIGN KEY (bookId, " + column + ") REFERENCES " + NodeTable + "(bookId, id) ON DELETE CASCADE"
  }

  function BookClauses(): seq<string> {
    ["title TEXT NOT NULL", "createdAt INTEGER NOT NULL", "updatedAt INTEGER NOT NULL"]
  }

  function NodeClauses(): seq<string> {
    ["bookId TEXT NOT NULL", "UNIQUE (bookId, id)", BookForeignKey()]
  }

  function EdgeClauses(): seq<string> {
    ["bookId TEXT NOT NULL", "PRIMARY KEY (bookId, parentId, position)", "UNIQUE (bookId, childId)",
     BookForeignKey(), NodeForeignKey("parentId"), NodeForeignKey("childId")]
  }

  /** `tableSqlMap.get(name) ?? ""`. */
  function SqlOf(tableSql: map<string, string>, name: string): string {
    if name in tableSql then tableSql[name] else ""
  }

  /** `isSchemaCompatible(tableSqlMap)`. */
  predicate IsSchemaCompatible(tableSql: map<string, string>) {
    || |tableSql| == 0
    || (&& HasAll(SqlOf(tableSql, BookTable), BookClauses())
        && HasAll(SqlOf(tableSql, NodeTable), NodeClauses())
        && HasAll(SqlOf(tableSql, EdgeTable), EdgeClauses()))
  }

  /** A database without the outline tables is compatible: there is nothing to drop. */
  lemma NoTablesCompatible()
    ensures IsSchemaCompatible(map[])
  {
  }

  /** Once any table exists, a missing one reads as `""` and fails the check. */
  lemma MissingTableIncompatible(tableSql: map<string, string>, name: string)
    requires |tableSql| > 0 && name in OutlineTables && name !in tableSql
    ensures !IsSchemaCompatible(tableSql)
  {
    var clauses := if name == BookTable then BookClauses() else if name == NodeTable then NodeClauses() else EdgeClauses();
    assert clauses[0] != "" && !Includes("", clauses[0]);
  }

  // ---------------------------------------------------------------------------
  // The init schema

  const Indent := "        "
  const Close := "\n      );\n    "

  function Head(table: string): seq<string> {
    ["\n      CREATE TABLE IF NOT EXISTS ", table, " (\n"]
  }

  /** The pieces of a column list: each entry indented, separated by `,\n`. */
  function Columns(entries: seq<string>): seq<string>
    decreases |entries|
  {
    if entries == [] then []
    else if |entries| == 1 then [Indent, entries[0]]
    else [Indent, entries[0], ",\n"] + Columns(entries[1..])
  }

  lemma {:induction false} EntryInColumns(entries: seq<string>, i: nat)
    requires i < |entries|
    ensures entries[i] in Columns(entries)
    decreases |entries|
  {
    if i > 0 {
      EntryInColumns(entries[1..], i - 1);
    }
  }

  lemma {:induction false} ColumnsPieces(entries: seq<string>, p: string)
    requires p in Columns(entries)
    ensures p in entries || p == Indent || p == ",\n"
    decreases |entries|
  {
    if |entries| > 1 && p in Columns(entries[1..]) {
      ColumnsPieces(entries[1..], p);
    }
  }

  function CreateTable(table: string, entries: seq<string>): string {
    Concat(Head(table) + Columns(entries) + [Close])
  }

  /** The `CREATE TABLE` statements of `INIT_OUTLINE_STATEMENTS`, by table. */
  function InitSchema(): map<string, string> {
    map[
      BookTable := CreateTable(BookTable, ["id TEXT PRIMARY KEY NOT NULL", "title TEXT NOT NULL",
        "createdAt INTEGER NOT NULL", "updatedAt INTEGER NOT NULL"]),
      NodeTable := CreateTable(NodeTable, AsWrittenNodeColumns()),
      EdgeTable := CreateTable(EdgeTable, ["bookId TEXT NOT NULL", "parentId TEXT NOT NULL",
        "childId TEXT NOT NULL", "position INTEGER NOT NULL",
        "PRIMARY KEY (bookId, parentId, position)", "UNIQUE (bookId, childId)"])
    ]
  }

  function AsWrittenNodeColumns(): seq<string> {
    ["id TEXT PRIMARY KEY NOT NULL", "bookId TEXT NOT NULL", "type TEXT NOT NULL", "text TEXT NOT NULL"]
  }

  /**
   * The init schema with the clauses the check asks for: ids unique per book, and rows
   * tied to their book and nodes.
   */
  function CorrectedSchema(): map<string, string> {
    map[
      BookTable := InitSchema()[BookTable],
      NodeTable := CreateTable(NodeTable, ["id TEXT NOT NULL", "bookId TEXT NOT NULL", "type TEXT NOT NULL",
        "text TEXT NOT NULL", "UNIQUE (bookId, id)", BookForeignKey()]),
      EdgeTable := CreateTable(EdgeTable, ["bookId TEXT NOT NULL", "parentId TEXT NOT NULL",
        "childId TEXT NOT NULL", "position INTEGER NOT NULL",
        "PRIMARY KEY (bookId, parentId, position)", "UNIQUE (bookId, childId)",
        BookForeignKey(), NodeForeignKey("parentId"), NodeForeignKey("childId")])
    ]
  }

  /** A table whose column list holds every clause passes that table's check. */
  lemma ClausesListed(table: string, entries: seq<string>, clauses: seq<string>)
    requires forall i | 0 <= i < |clauses| :: clauses[i] in entries
    ensures HasAll(CreateTable(table, entries), clauses)
  {
    var parts := Head(table) + Columns(entries) + [Close];
    forall i | 0 <= i < |clauses| ensures Includes(Concat(parts), clauses[i]) {
      var e :| 0 <= e < |entries| && entries[e] == clauses[i];
      EntryInColumns(entries, e);
      var k :| 0 <= k < |Columns(entries)| && Columns(entries)[k] == clauses[i];
      assert parts[3 + k] == clauses[i];
      PartIncluded(parts, 3 + k);
    }
  }

  lemma NodeColumnsWithoutQ()
    ensures forall e | e in AsWrittenNodeColumns() :: 'Q' !in e
  {
  }

  lemma FramingWithoutQ(table: string)
    requires 'Q' !in table
    ensures forall p | p in Head(table) + [Indent, ",\n", Close] :: 'Q' !in p
  {
  }

  /** The as-written nodes statement has no `Q`, and `UNIQUE (bookId, id)` has one. */
  lemma AsWrittenNodesLackUnique()
    ensures !Includes(InitSchema()[NodeTable], "UNIQUE (bookId, id)")
  {
    var parts := Head(NodeTable) + Columns(AsWrittenNodeColumns()) + [Close];
    NodePartsWithoutQ();
    assert "UNIQUE (bookId, id)"[3] == 'Q';
    MissingCharNotIncluded(parts, "UNIQUE (bookId, id)", 'Q');
    assert InitSchema()[NodeTable] == Concat(parts);
  }

  lemma NodePartsWithoutQ()
    ensures forall p | p in Head(NodeTable) + Columns(AsWrittenNodeColumns()) + [Close] :: 'Q' !in p
  {
    var parts := Head(NodeTable) + Columns(AsWrittenNodeColumns()) + [Close];
    NodeColumnsWithoutQ();
    FramingWithoutQ(NodeTable);
    forall p | p in parts ensures 'Q' !in p {
      if p in Columns(AsWrittenNodeColumns()) {
        ColumnsPieces(AsWrittenNodeColumns(), p);
      }
    }
  }

  /** A string holding a character that no piece holds is not included in the pieces' concatenation. */
  lemma MissingCharNotIncluded(parts: seq<string>, sub: string, c: char)
    requires c in sub && forall p | p in parts :: c !in p
    ensures !Includes(Concat(parts), sub)
  {
    if c in Concat(parts) {
      CharOfConcat(parts, c);
    }
    if Includes(Concat(parts), sub) {
      IncludesChars(Concat(parts), sub, c);
    }
  }

  /** The tables `INIT_OUTLINE_STATEMENTS` creates never pass `isSchemaCompatible`. */
  lemma InitSchemaIncompatible()
    ensures !IsSchemaCompatible(InitSchema())
  {
    AsWrittenNodesLackUnique();
    assert NodeClauses()[1] == "UNIQUE (bookId, id)";
    assert SqlOf(InitSchema(), NodeTable) == InitSchema()[NodeTable];
    assert |InitSchema()| > 0 by { assert BookTable in InitSchema(); }
  }

  lemma CorrectedBooksPass()
    ensures HasAll(CorrectedSchema()[BookTable], BookClauses())
  {
    ClausesListed(BookTable, ["id TEXT PRIMARY KEY NOT NULL", "title TEXT NOT NULL",
      "createdAt INTEGER NOT NULL", "updatedAt INTEGER NOT NULL"], BookClauses());
  }

  lemma CorrectedNodesPass()
    ensures HasAll(CorrectedSchema()[NodeTable], NodeClauses())
  {
    ClausesListed(NodeTable, ["id TEXT NOT NULL", "bookId TEXT NOT NULL", "type TEXT NOT NULL",
      "text TEXT NOT NULL", "UNIQUE (bookId, id)", BookForeignKey()], NodeClauses());
  }

  lemma CorrectedEdgesPass()
    ensures HasAll(CorrectedSchema()[EdgeTable], EdgeClauses())
  {
    ClausesListed(EdgeTable, ["bookId TEXT NOT NULL", "parentId TEXT NOT NULL",
      "childId TEXT NOT NULL", "position INTEGER NOT NULL",
      "PRIMARY KEY (bookId, parentId, position)", "UNIQUE (bookId, childId)",
      BookForeignKey(), NodeForeignKey("parentId"), NodeForeignKey("childId")], EdgeClauses());
  }

  /** The corrected statements pass the check. */
  lemma CorrectedSchemaCompatible()
    ensures IsSchemaCompatible(CorrectedSchema())
  {
    var s := CorrectedSchema();
    assert SqlOf(s, BookTable) == s[BookTable] && SqlOf(s, NodeTable) == s[NodeTable] && SqlOf(s, EdgeTable) == s[EdgeTable];
    CorrectedBooksPass();
    CorrectedNodesPass();
    CorrectedEdgesPass();
  }

  // ---------------------------------------------------------------------------
  // The init run

  /** The outline database: the text each table was created with, and the tables' rows. */
  datatype Db = Db(tableSql: map<string, string>, rows: Tables)

  /** The three outline tables. */
  const OutlineTables: set<string> := {BookTable, NodeTable, EdgeTable}

  /** The entries of `t` whose names are in `names`. */
  function Restrict(t: map<string, string>, names: set<string>): (m: map<string, string>)
    ensures forall n :: n in m <==> n in t && n in names
    ensures forall n | n in m :: m[n] == t[n]
  {
    map n | n in t && n in names :: t[n]
  }

  /** `CREATE TABLE IF NOT EXISTS` for every statement of `schema`: existing tables keep their text. */
  function CreateMissing(t: map<string, string>, schema: map<string, string>): (m: map<string, string>)
    ensures forall n :: n in m <==> n in t || n in schema
    ensures forall n | n in t :: m[n] == t[n]
    ensures forall n | n in schema && n !in t :: m[n] == schema[n]
  {
    map n | n in t.Keys + schema.Keys :: if n in t then t[n] else schema[n]
  }

  /** Creating into a database that has none of the tables builds them as the schema says. */
  lemma CreateIntoNone(t: map<string, string>, schema: map<string, string>, names: set<string>)
    requires Restrict(t, names) == map[] && schema.Keys == names
    ensures Restrict(CreateMissing(t, schema), names) == schema
  {
    forall n | n in names ensures n !in t {
      assert n !in Restrict(t, names);
    }
  }

  /** Creating over tables built from the schema changes nothing. */
  lemma CreateOverBuilt(t: map<string, string>, schema: map<string, string>, names: set<string>)
    requires Restrict(t, names) == schema
    ensures CreateMissing(t, schema) == t
  {
    forall n | n in schema ensures n in t {
      assert n in Restrict(t, names);
    }
  }

  /** Dropping the tables leaves none of them. */
  lemma DroppedNone(t: map<string, string>, names: set<string>)
    ensures Restrict(t - names, names) == map[]
  {
  }

  /** `getTableSqlMap([books, nodes, edges])`: the creating text of those tables that exist. */
  function TableSqlMap(db: Db): (m: map<string, string>)
    ensures forall n :: n in m <==> n in db.tableSql && n in OutlineTables
    ensures forall n | n in m :: m[n] == db.tableSql[n]
  {
    Restrict(db.tableSql, OutlineTables)
  }

  /** `dropAllTables()`: the three tables go, and their rows with them. */
  function DropAllTables(db: Db): Db {
    Db(db.tableSql - OutlineTables, Tables({}, map[], map[]))
  }

  /** `applyInitSchema()`: `CREATE TABLE IF NOT EXISTS` creates only the missing tables. */
  function ApplyInitSchema(db: Db, schema: map<string, string>): Db {
    Db(CreateMissing(db.tableSql, schema), db.rows)
  }

  /** `ensureDefaultBook()`: insert the default book row unless it exists. */
  function EnsureDefaultBook(db: Db): (r: Db)
    ensures r.tableSql == db.tableSql && r.rows.nodes == db.rows.nodes && r.rows.edges == db.rows.edges
    ensures r.rows.books == db.rows.books + {DefaultBookId}
  {
    db.(rows := Apply(db.rows, InsertBookRowIfNotExists(DefaultBookId, DefaultBookTitle)))
  }

  /** The effect of the first `steps` steps of an init run: check and drop, create, default book. */
  function InitSteps(db: Db, schema: map<string, string>, steps: nat): Db {
    var checked := if IsSchemaCompatible(TableSqlMap(db)) then db else DropAllTables(db);
    var created := ApplyInitSchema(checked, schema);
    if steps == 0 then db
    else if steps == 1 then checked
    else if steps == 2 then created
    else EnsureDefaultBook(created)
  }

  /** A run that completes all its steps. */
  function InitRun(db: Db, schema: map<string, string>): Db {
    InitSteps(db, schema, 3)
  }

  /** A complete run: check and drop, then create, then the default book. */
  lemma InitRunSteps(db: Db, schema: map<string, string>)
    ensures InitRun(db, schema)
      == EnsureDefaultBook(ApplyInitSchema(if IsSchemaCompatible(TableSqlMap(db)) then db else DropAllTables(db), schema))
  {
  }

  /** The three outline tables as a given schema creates them. */
  predicate BuiltFrom(db: Db, schema: map<string, string>) {
    TableSqlMap(db) == schema
  }

  /** On a database without the outline tables a run creates them and the default book. */
  lemma FirstRunCreates(db: Db, schema: map<string, string>)
    requires TableSqlMap(db) == map[] && schema.Keys == OutlineTables
    ensures var r := InitRun(db, schema);
      BuiltFrom(r, schema) && r.rows.books == db.rows.books + {DefaultBookId}
  {
    NoTablesCompatible();
    InitRunSteps(db, schema);
    CreateIntoNone(db.tableSql, schema, OutlineTables);
  }

  /** A run on tables that fail the check drops every row and recreates the tables from the schema. */
  lemma IncompatibleRunDrops(db: Db, schema: map<string, string>)
    requires !IsSchemaCompatible(TableSqlMap(db)) && schema.Keys == OutlineTables
    ensures var r := InitRun(db, schema);
      r.rows == Tables({DefaultBookId}, map[], map[]) && BuiltFrom(r, schema)
  {
    InitRunSteps(db, schema);
    DroppedNone(db.tableSql, OutlineTables);
    CreateIntoNone(db.tableSql - OutlineTables, schema, OutlineTables);
  }

  /** A run on tables that pass the check keeps every row and every table. */
  lemma CompatibleRunKeeps(db: Db, schema: map<string, string>)
    requires IsSchemaCompatible(TableSqlMap(db)) && BuiltFrom(db, schema)
    ensures var r := InitRun(db, schema);
      && r.rows == db.rows.(books := db.rows.books + {DefaultBookId})
      && r.tableSql == db.tableSql
  {
    InitRunSteps(db, schema);
    CreateOverBuilt(db.tableSql, schema, OutlineTables);
  }

  lemma SchemaTables()
    ensures InitSchema().Keys == CorrectedSchema().Keys == OutlineTables
  {
  }

  /**
   * The as-written schema drops everything at every start: whatever rows a database built
   * by `INIT_OUTLINE_STATEMENTS` holds, a run leaves the default book alone, and the tables
   * it recreates fail the check again on the next run.
   */
  lemma InitDropsSavedRows(db: Db)
    requires BuiltFrom(db, InitSchema())
    ensures var r := InitRun(db, InitSchema());
      && r.rows == Tables({DefaultBookId}, map[], map[])
      && BuiltFrom(r, InitSchema())
  {
    InitSchemaIncompatible();
    SchemaTables();
    IncompatibleRunDrops(db, InitSchema());
  }

  /** With the corrected schema a run on its own tables keeps every row and adds only the default book. */
  lemma CorrectedInitKeepsRows(db: Db)
    requires BuiltFrom(db, CorrectedSchema())
    ensures var r := InitRun(db, CorrectedSchema());
      && r.rows == db.rows.(books := db.rows.books + {DefaultBookId})
      && BuiltFrom(r, CorrectedSchema())
  {
    CorrectedSchemaCompatible();
    CompatibleRunKeeps(db, CorrectedSchema());
  }

  // ---------------------------------------------------------------------------
  // `initOutlineFeature`: the memoised run

  /**
   * The module state of bootstrap.ts: `initPromise` holds the number of the run every
   * caller awaits, or nothing. Runs are numbered in the order they start.
   */
  class OutlineInit {
    var db: Db
    const schema: map<string, string>
    var initPromise: Option<nat>
    /** Whether the memoised run is still in flight. */
    var pending: bool
    var started: nat
    /** How each settled run ended: true when it completed. */
    var outcomes: map<nat, bool>

    ghost predicate Valid()
      reads this
    {
      && (initPromise.Some? ==> initPromise.value + 1 == started)
      && (pending <==> initPromise.Some? && initPromise.value !in outcomes)
      && (initPromise.Some? && !pending ==> outcomes[initPromise.value])
      && (forall r | 0 <= r < started :: r in outcomes || initPromise == Some(r))
      && (forall r | r in outcomes :: r < started)
    }

    constructor(db0: Db, schema: map<string, string>)
      ensures this.db == db0 && this.schema == schema
      ensures initPromise == None && !pending && started == 0 && outcomes == map[]
      ensures Valid()
    {
      this.db := db0;
      this.schema := schema;
      initPromise := None;
      pending := false;
      started := 0;
      outcomes := map[];
    }

    /**
     * `initOutlineFeature()`: the run the caller awaits. With a memoised run that is the
     * same run and nothing starts; without one a new run starts and is memoised.
     */
    method InitOutlineFeature() returns (run: nat)
      requires Valid()
      modifies this
      ensures Valid()
      ensures old(initPromise).Some? ==> run == old(initPromise).value && started == old(started) && pending == old(pending)
      ensures old(initPromise).None? ==> run == old(started) && started == old(started) + 1 && pending
      ensures initPromise == Some(run) && db == old(db) && outcomes == old(outcomes)
    {
      if initPromise.None? {
        run := started;
        started := started + 1;
        initPromise := Some(run);
        pending := true;
      } else {
        run := initPromise.value;
      }
    }

    /**
     * The memoised run settles, having completed `steps` of its three steps. A run that
     * completes keeps its memo, so later calls return at once; one that fails clears it,
     * so the next call starts a new run.
     */
    method Settle(steps: nat)
      requires Valid() && pending
      modifies this
      ensures Valid() && !pending && started == old(started)
      ensures db == InitSteps(old(db), schema, steps)
      ensures var run := old(initPromise).value;
        && outcomes == old(outcomes)[run := steps >= 3]
        && initPromise == if steps >= 3 then old(initPromise) else None
    {
      var run := initPromise.value;
      db := InitSteps(db, schema, steps);
      outcomes := outcomes[run := steps >= 3];
      pending := false;
      if steps < 3 {
        initPromise := None;
      }
    }
  }

  /** Two callers during one run await the same run, and a failed run is retried by the next call. */
  method RetryAfterFailure(db0: Db) returns (first: nat, second: nat, retry: nat)
    ensures first == second == 0 && retry == 1
  {
    var init := new OutlineInit(db0, CorrectedSchema());
    first := init.InitOutlineFeature();
    second := init.InitOutlineFeature();
    init.Settle(1);
    retry := init.InitOutlineFeature();
  }
}
