/**
 * The write side of the connector's metadata: the single pending rollback
 * action that `beginCreateTable`/`beginInsert` guard and that the finish
 * methods and `rollback()` clear, the `allowDropTable` permission, the
 * "target table already exists" guard and the column listing.
 *
 * The Phoenix client is not part of this model. It is reduced to a catalog
 * mapping each table name to its columns, which `createTable` adds to and
 * `dropTable` removes from. The rollback action, a lambda in the source, is
 * a value naming what it will do.
 */
module Metadata {
  import opened Common
  import Values

  datatype SchemaTableName = SchemaTableName(schemaName: string, tableName: string)

  datatype ColumnMetadata = ColumnMetadata(name: string, columnType: Values.PrestoType)

  /** `ConnectorTableMetadata`, without its properties. */
  datatype TableMetadata = TableMetadata(table: SchemaTableName, columns: seq<ColumnMetadata>)

  /** `PhoenixTableHandle`. */
  datatype TableHandle = TableHandle(
    connectorId: string,
    schemaTableName: SchemaTableName,
    catalogName: Option<string>,
    schemaName: string,
    tableName: string)

  /** `PhoenixOutputTableHandle`. */
  datatype OutputTableHandle = OutputTableHandle(
    connectorId: string,
    catalogName: Option<string>,
    schemaName: string,
    tableName: string,
    columns: seq<ColumnMetadata>)

  /** `SchemaTablePrefix`: every table, the tables of a schema, or one table. */
  datatype SchemaTablePrefix =
    | AllTables
    | InSchema(schemaName: string)
    | OneTable(schemaName: string, tableName: string)

  /** The compensating action of a pending write: `() -> rollbackCreateTable(handle)`. */
  datatype RollbackAction = DropCreatedTable(handle: OutputTableHandle)

  /** What the metadata calls throw. */
  datatype MetadataError =
    | IllegalState(message: string)
    | IllegalArgument(message: string)
    | PermissionDenied(message: string)
    | TableNotFound(table: SchemaTableName)

  const CannotBegin: string := "Cannot begin a new write while in an existing one"
  const AlreadySet: string := "rollback action is already set"
  const DropDisabled: string := "DROP TABLE is disabled in this catalog"
  const DuplicateKey: string := "Multiple entries with same key"

  /** `SchemaTableName.toString()`. */
  function Display(name: SchemaTableName): string {
    name.schemaName + "." + name.tableName
  }

  function AlreadyExists(name: SchemaTableName): string {
    "Target table already exists: " + Display(name)
  }

  /** The tables the client sees, with their columns. */
  type Catalog = map<SchemaTableName, seq<ColumnMetadata>>

  /** The connector id and catalog name the client puts in its handles, and the drop permission. */
  datatype Config = Config(connectorId: string, catalogName: Option<string>, allowDropTable: bool)

  /**
   * The catalog, the pending action (the `AtomicReference`, None for null)
   * and the log of the actions `rollback()` has run.
   */
  datatype State = State(catalog: Catalog, rollbackAction: Option<RollbackAction>, executed: seq<RollbackAction>)

  predicate Idle(s: State) {
    s.rollbackAction.None?
  }

  // The client, as this model assumes it behaves.

  /** `getTableHandle`: a handle for a table of the catalog, null otherwise. */
  function ClientTableHandle(cfg: Config, catalog: Catalog, name: SchemaTableName): (r: Option<TableHandle>)
    ensures r.Some? <==> name in catalog
    ensures r.Some? ==> r.value.schemaTableName == name
  {
    if name in catalog then Some(TableHandle(cfg.connectorId, name, cfg.catalogName, name.schemaName, name.tableName))
    else None
  }

  /** `getTableMetadata`: the columns of the table, or the TableNotFoundException of `getColumns`. */
  function TableMetadataOf(catalog: Catalog, handle: TableHandle): (r: Result<TableMetadata, MetadataError>)
    ensures r.Ok? <==> handle.schemaTableName in catalog
    ensures r.Ok? ==> r.value == TableMetadata(handle.schemaTableName, catalog[handle.schemaTableName])
    ensures r.Err? ==> r.error == TableNotFound(handle.schemaTableName)
  {
    if handle.schemaTableName in catalog then Ok(TableMetadata(handle.schemaTableName, catalog[handle.schemaTableName]))
    else Err(TableNotFound(handle.schemaTableName))
  }

  /** The handle the client's `createTable` and `beginInsertTable` return for a table. */
  function OutputHandleOf(cfg: Config, meta: TableMetadata): OutputTableHandle {
    OutputTableHandle(cfg.connectorId, cfg.catalogName, meta.table.schemaName, meta.table.tableName, meta.columns)
  }

  /** The client's `createTable`: the table exists afterwards; an existing one keeps its columns. */
  function ClientCreateTable(catalog: Catalog, meta: TableMetadata): (r: Catalog)
    ensures meta.table in r && r.Keys == catalog.Keys + {meta.table}
    ensures forall name :: name in catalog ==> r[name] == catalog[name]
    ensures meta.table !in catalog ==> r[meta.table] == meta.columns
  {
    if meta.table in catalog then catalog else catalog[meta.table := meta.columns]
  }

  /** The client's `dropTable`. */
  function ClientDropTable(catalog: Catalog, handle: TableHandle): (r: Catalog)
    ensures r.Keys == catalog.Keys - {handle.schemaTableName}
    ensures forall name :: name in r ==> r[name] == catalog[name]
  {
    catalog - {handle.schemaTableName}
  }

  // The transitions.

  /** `checkNoRollback`. */
  function CheckNoRollbackSpec(s: State): (r: Result<(), MetadataError>)
  {
    if s.rollbackAction.None? then Ok(()) else Err(IllegalState(CannotBegin))
  }

  /** `setRollback`: compare-and-set from null. */
  function SetRollbackSpec(s: State, action: RollbackAction): (State, Result<(), MetadataError>)
  {
    if s.rollbackAction.None? then (s.(rollbackAction := Some(action)), Ok(()))
    else (s, Err(IllegalState(AlreadySet)))
  }

  /** `clearRollback`. */
  function ClearRollbackSpec(s: State): State {
    s.(rollbackAction := None)
  }

  /** The handle `rollbackCreateTable` drops: the output handle's names, rebuilt into a table handle. */
  function RollbackTableHandle(handle: OutputTableHandle): (r: TableHandle)
  {
    TableHandle(handle.connectorId, SchemaTableName(handle.schemaName, handle.tableName),
                handle.catalogName, handle.schemaName, handle.tableName)
  }

  /** `rollbackCreateTable`. */
  function RollbackCreateTableSpec(s: State, handle: OutputTableHandle): State {
    s.(catalog := ClientDropTable(s.catalog, RollbackTableHandle(handle)))
  }

  /** Running a rollback action. */
  function RunActionSpec(s: State, action: RollbackAction): State {
    match action
    case DropCreatedTable(handle) => RollbackCreateTableSpec(s, handle)
  }

  /** `rollback()`: take and clear the pending action, then run it, if there was one. */
  function RollbackSpec(s: State): State {
    match s.rollbackAction
    case None => s
    case Some(action) =>
      var taken := s.(rollbackAction := None);
      RunActionSpec(taken, action).(executed := s.executed + [action])
  }

  /** `beginCreateTable`: refuse while a write is pending, create the table, register its drop. */
  function BeginCreateTableSpec(cfg: Config, s: State, meta: TableMetadata): (State, Result<OutputTableHandle, MetadataError>)
  {
    match CheckNoRollbackSpec(s)
    case Err(e) => (s, Err(e))
    case Ok(_) =>
      var handle := OutputHandleOf(cfg, meta);
      var created := s.(catalog := ClientCreateTable(s.catalog, meta));
      var (t, r) := SetRollbackSpec(created, DropCreatedTable(handle));
      if r.Err? then (t, Err(r.error)) else (t, Ok(handle))
  }

  /** `finishCreateTable`. */
  function FinishCreateTableSpec(s: State): State {
    ClearRollbackSpec(s)
  }

  /** `beginInsert`: refuse while a write is pending, then ask the client for the table's insert handle. */
  function BeginInsertSpec(cfg: Config, s: State, handle: TableHandle): (State, Result<OutputTableHandle, MetadataError>)
  {
    match CheckNoRollbackSpec(s)
    case Err(e) => (s, Err(e))
    case Ok(_) =>
      match TableMetadataOf(s.catalog, handle)
      case Err(e) => (s, Err(e))
      case Ok(meta) => (s, Ok(OutputHandleOf(cfg, meta)))
  }

  /** `finishInsert`. */
  function FinishInsertSpec(s: State): State {
    ClearRollbackSpec(s)
  }

  /** `createTable`. */
  function CreateTableSpec(s: State, meta: TableMetadata, ignoreExisting: bool): (State, Result<(), MetadataError>)
  {
    if meta.table in s.catalog && !ignoreExisting then (s, Err(IllegalArgument(AlreadyExists(meta.table))))
    else (s.(catalog := ClientCreateTable(s.catalog, meta)), Ok(()))
  }

  /** `dropTable`. */
  function DropTableSpec(cfg: Config, s: State, handle: TableHandle): (State, Result<(), MetadataError>)
  {
    if !cfg.allowDropTable then (s, Err(PermissionDenied(DropDisabled)))
    else (s.(catalog := ClientDropTable(s.catalog, handle)), Ok(()))
  }

  // The column listing.

  /** The tables `listTableColumns` visits: the prefix's table, or what `listTables` returned. */
  function TablesOf(prefix: SchemaTablePrefix, listing: seq<SchemaTableName>): (r: seq<SchemaTableName>)
    ensures prefix.OneTable? ==> r == [SchemaTableName(prefix.schemaName, prefix.tableName)]
    ensures !prefix.OneTable? ==> r == listing
  {
    match prefix
    case OneTable(schemaName, tableName) => [SchemaTableName(schemaName, tableName)]
    case _ => listing
  }

  type Entry = (SchemaTableName, seq<ColumnMetadata>)

  /** What the loop puts into the map builder: each listed table that has a handle, with its columns. */
  function Entries(catalog: Catalog, names: seq<SchemaTableName>): seq<Entry>
  {
    if |names| == 0 then []
    else
      var name := names[|names| - 1];
      Entries(catalog, names[..|names| - 1]) + (if name in catalog then [(name, catalog[name])] else [])
  }

  /** `ImmutableMap.Builder.build()`: the entries as a map, or an IllegalArgumentException on a repeated key. */
  function Build(entries: seq<Entry>): Result<map<SchemaTableName, seq<ColumnMetadata>>, MetadataError>
  {
    if |entries| == 0 then Ok(map[])
    else
      match Build(entries[..|entries| - 1])
      case Err(e) => Err(e)
      case Ok(m) =>
        var (key, value) := entries[|entries| - 1];
        if key in m then Err(IllegalArgument(DuplicateKey)) else Ok(m[key := value])
  }

  /** `listTableColumns`. */
  function ListTableColumnsSpec(s: State, prefix: SchemaTablePrefix, listing: seq<SchemaTableName>)
    : Result<map<SchemaTableName, seq<ColumnMetadata>>, MetadataError>
  {
    Build(Entries(s.catalog, TablesOf(prefix, listing)))
  }

  /** Every visited table that exists is visited once. */
  ghost predicate NoRepeatedTable(catalog: Catalog, names: seq<SchemaTableName>) {
    forall i, j :: 0 <= i < j < |names| && names[i] in catalog ==> names[i] != names[j]
  }

  /**
   * The listing maps exactly the visited tables that exist to their columns,
   * and fails exactly when an existing table is visited twice.
   */
  lemma {:induction false} ListedColumns(catalog: Catalog, names: seq<SchemaTableName>)
    ensures Build(Entries(catalog, names)).Ok? <==> NoRepeatedTable(catalog, names)
    ensures Build(Entries(catalog, names)).Err? ==> Build(Entries(catalog, names)).error == IllegalArgument(DuplicateKey)
    ensures Build(Entries(catalog, names)).Ok? ==>
      forall name :: name in Build(Entries(catalog, names)).value <==> name in names && name in catalog
    ensures Build(Entries(catalog, names)).Ok? ==>
      forall name :: name in Build(Entries(catalog, names)).value ==> Build(Entries(catalog, names)).value[name] == catalog[name]
    decreases |names|
  {
    if |names| > 0 {
      var n := |names|;
      var front, last := names[..n - 1], names[n - 1];
      assert names == front + [last];
      ListedColumns(catalog, front);
      NoRepeatedTableAppend(catalog, front, last);
      var e := Entries(catalog, front);
      if last in catalog {
        var e' := e + [(last, catalog[last])];
        assert Entries(catalog, names) == e';
        assert e'[..|e'| - 1] == e;
      } else {
        assert Entries(catalog, names) == e;
      }
    }
  }

  /** A table appended to the visited list repeats one exactly when it exists and was visited before. */
  lemma NoRepeatedTableAppend(catalog: Catalog, front: seq<SchemaTableName>, last: SchemaTableName)
    ensures NoRepeatedTable(catalog, front + [last]) <==>
      NoRepeatedTable(catalog, front) && (last in catalog ==> last !in front)
  {
    var names := front + [last];
    var n := |names|;
    if NoRepeatedTable(catalog, names) {
      assert NoRepeatedTable(catalog, front) by {
        forall i, j | 0 <= i < j < |front| && front[i] in catalog ensures front[i] != front[j] {
          assert front[i] == names[i] && front[j] == names[j];
        }
      }
      if last in catalog {
        forall i | 0 <= i < |front| ensures front[i] != last {
          assert front[i] == names[i] && names[n - 1] == last;
        }
      }
    }
    if NoRepeatedTable(catalog, front) && (last in catalog ==> last !in front) {
      forall i, j | 0 <= i < j < n && names[i] in catalog ensures names[i] != names[j] {
        if j < n - 1 {
          assert front[i] == names[i] && front[j] == names[j];
        } else {
          assert front[i] == names[i];
        }
      }
    }
  }

  // The write-transaction state machine.

  /** `beginCreateTable` and `beginInsert` fail with an IllegalStateException, changing nothing, while an action is pending. */
  lemma BeginWhilePendingFails(cfg: Config, s: State, meta: TableMetadata, handle: TableHandle)
    requires !Idle(s)
    ensures BeginCreateTableSpec(cfg, s, meta) == (s, Err(IllegalState(CannotBegin)))
    ensures BeginInsertSpec(cfg, s, handle) == (s, Err(IllegalState(CannotBegin)))
  {
  }

  /** `setRollback` installs an action only over null and never overwrites a pending one. */
  lemma SetRollbackRefusesOverwrite(s: State, action: RollbackAction)
    ensures Idle(s) ==> SetRollbackSpec(s, action) == (s.(rollbackAction := Some(action)), Ok(()))
    ensures !Idle(s) ==> SetRollbackSpec(s, action) == (s, Err(IllegalState(AlreadySet)))
  {
  }

  /**
   * From idle, `beginCreateTable` succeeds, the table exists afterwards, and
   * exactly one action is pending: the drop of the returned handle.
   */
  lemma BeginCreateTableRegistersDrop(cfg: Config, s: State, meta: TableMetadata)
    requires Idle(s)
    ensures
      var (t, r) := BeginCreateTableSpec(cfg, s, meta);
      && r.Ok?
      && r.value.schemaName == meta.table.schemaName && r.value.tableName == meta.table.tableName
      && t.rollbackAction == Some(DropCreatedTable(r.value))
      && meta.table in t.catalog
      && t.executed == s.executed
  {
  }

  /** `beginInsert` registers nothing: afterwards `rollback()` runs no action. */
  lemma BeginInsertRegistersNothing(cfg: Config, s: State, handle: TableHandle)
    requires Idle(s)
    ensures
      var (t, r) := BeginInsertSpec(cfg, s, handle);
      && t == s
      && (r.Ok? <==> handle.schemaTableName in s.catalog)
      && RollbackSpec(t) == s
  {
  }

  /** The finish methods clear the pending action without running it; a later `rollback()` is a no-op. */
  lemma FinishDiscardsAction(s: State)
    ensures Idle(FinishCreateTableSpec(s)) && Idle(FinishInsertSpec(s))
    ensures FinishCreateTableSpec(s).catalog == s.catalog && FinishCreateTableSpec(s).executed == s.executed
    ensures FinishInsertSpec(s).catalog == s.catalog && FinishInsertSpec(s).executed == s.executed
    ensures RollbackSpec(FinishCreateTableSpec(s)) == FinishCreateTableSpec(s)
    ensures RollbackSpec(FinishInsertSpec(s)) == FinishInsertSpec(s)
  {
  }

  /** `rollback()` leaves no action pending, runs the pending one once, and a second call does nothing. */
  lemma RollbackRunsAtMostOnce(s: State)
    ensures Idle(RollbackSpec(s))
    ensures Idle(s) ==> RollbackSpec(s) == s
    ensures !Idle(s) ==> RollbackSpec(s).executed == s.executed + [s.rollbackAction.value]
    ensures RollbackSpec(RollbackSpec(s)) == RollbackSpec(s)
  {
  }

  /** The create-table rollback drops the table named by the output handle, with its connector and catalog. */
  lemma RollbackDropsCreatedTable(handle: OutputTableHandle)
    ensures RollbackTableHandle(handle).schemaTableName == SchemaTableName(handle.schemaName, handle.tableName)
    ensures RollbackTableHandle(handle).connectorId == handle.connectorId
    ensures RollbackTableHandle(handle).catalogName == handle.catalogName
    ensures RollbackTableHandle(handle).schemaName == handle.schemaName
    ensures RollbackTableHandle(handle).tableName == handle.tableName
  {
  }

  /** Creating a new table and rolling back restores the catalog and logs the one drop. */
  lemma CreateThenRollbackRestoresCatalog(cfg: Config, s: State, meta: TableMetadata)
    requires Idle(s) && meta.table !in s.catalog
    ensures
      var (t, r) := BeginCreateTableSpec(cfg, s, meta);
      && r.Ok?
      && RollbackSpec(t) == s.(executed := s.executed + [DropCreatedTable(r.value)])
  {
    var (t, r) := BeginCreateTableSpec(cfg, s, meta);
    assert ClientCreateTable(s.catalog, meta) - {meta.table} == s.catalog;
  }

  /** `dropTable` without permission fails and leaves the catalog alone; with it, the table is gone. */
  lemma DropTableGuard(cfg: Config, s: State, handle: TableHandle)
    ensures !cfg.allowDropTable ==> DropTableSpec(cfg, s, handle) == (s, Err(PermissionDenied(DropDisabled)))
    ensures cfg.allowDropTable ==>
      DropTableSpec(cfg, s, handle).1.Ok? && handle.schemaTableName !in DropTableSpec(cfg, s, handle).0.catalog
    ensures DropTableSpec(cfg, s, handle).0.rollbackAction == s.rollbackAction
  {
  }

  /** `createTable` rejects an existing table unless told to ignore it; otherwise the table exists afterwards. */
  lemma CreateTableGuard(s: State, meta: TableMetadata, ignoreExisting: bool)
    ensures CreateTableSpec(s, meta, ignoreExisting).1.Err? <==> meta.table in s.catalog && !ignoreExisting
    ensures CreateTableSpec(s, meta, ignoreExisting).1.Err? ==>
      CreateTableSpec(s, meta, ignoreExisting) == (s, Err(IllegalArgument(AlreadyExists(meta.table))))
    ensures CreateTableSpec(s, meta, ignoreExisting).1.Ok? ==> meta.table in CreateTableSpec(s, meta, ignoreExisting).0.catalog
    ensures CreateTableSpec(s, meta, ignoreExisting).0.rollbackAction == s.rollbackAction
  {
  }

  // Whole sessions.

  /** One call on the metadata. */
  datatype Call =
    | BeginCreateTable(meta: TableMetadata)
    | FinishCreateTable
    | BeginInsert(handle: TableHandle)
    | FinishInsert
    | Rollback
    | CreateTable(meta: TableMetadata, ignoreExisting: bool)
    | DropTable(handle: TableHandle)

  function Step(cfg: Config, s: State, call: Call): State {
    match call
    case BeginCreateTable(meta) => BeginCreateTableSpec(cfg, s, meta).0
    case FinishCreateTable => FinishCreateTableSpec(s)
    case BeginInsert(handle) => BeginInsertSpec(cfg, s, handle).0
    case FinishInsert => FinishInsertSpec(s)
    case Rollback => RollbackSpec(s)
    case CreateTable(meta, ignoreExisting) => CreateTableSpec(s, meta, ignoreExisting).0
    case DropTable(handle) => DropTableSpec(cfg, s, handle).0
  }

  function Run(cfg: Config, s: State, calls: seq<Call>): State
    decreases |calls|
  {
    if |calls| == 0 then s else Run(cfg, Step(cfg, s, calls[0]), calls[1..])
  }

  function CountBegins(calls: seq<Call>): nat {
    if |calls| == 0 then 0
    else (if calls[0].BeginCreateTable? then 1 else 0) + CountBegins(calls[1..])
  }

  function Pending(s: State): nat {
    if s.rollbackAction.Some? then 1 else 0
  }

  /**
   * Over any sequence of calls, the log only grows, and rollbacks run no more
   * actions than `beginCreateTable` registered: no action is run twice.
   */
  lemma {:induction false} RollbacksBoundedByBegins(cfg: Config, s: State, calls: seq<Call>)
    ensures s.executed <= Run(cfg, s, calls).executed
    ensures |Run(cfg, s, calls).executed| + Pending(Run(cfg, s, calls)) <= |s.executed| + Pending(s) + CountBegins(calls)
    decreases |calls|
  {
    if |calls| > 0 {
      var t := Step(cfg, s, calls[0]);
      assert s.executed <= t.executed && |t.executed| + Pending(t) <= |s.executed| + Pending(s) + (if calls[0].BeginCreateTable? then 1 else 0);
      RollbacksBoundedByBegins(cfg, t, calls[1..]);
    }
  }

  /** The metadata object, holding the pending rollback action; the catalog stands for the client's tables. */
  class PhoenixMetadata {
    const cfg: Config
    var catalog: Catalog
    var rollbackAction: Option<RollbackAction>
    ghost var executed: seq<RollbackAction>

    ghost function Snapshot(): State
      reads this
    {
      State(catalog, rollbackAction, executed)
    }

    /** A new metadata object starts idle. */
    constructor(cfg: Config, catalog: Catalog)
      ensures this.cfg == cfg
      ensures Snapshot() == State(catalog, None, [])
    {
      this.cfg := cfg;
      this.catalog := catalog;
      rollbackAction := None;
      executed := [];
    }

    method CheckNoRollback() returns (r: Result<(), MetadataError>)
      ensures r.Ok? <==> Idle(Snapshot())
      ensures r == CheckNoRollbackSpec(Snapshot())
    {
      if rollbackAction.None? {
        r := Ok(());
      } else {
        r := Err(IllegalState(CannotBegin));
      }
    }

    method SetRollback(action: RollbackAction) returns (r: Result<(), MetadataError>)
      modifies this
      ensures (Snapshot(), r) == SetRollbackSpec(old(Snapshot()), action)
    {
      if rollbackAction.None? {
        rollbackAction := Some(action);
        r := Ok(());
      } else {
        r := Err(IllegalState(AlreadySet));
      }
    }

    method ClearRollback()
      modifies this
      ensures Snapshot() == ClearRollbackSpec(old(Snapshot()))
    {
      rollbackAction := None;
    }

    method RollbackCreateTable(handle: OutputTableHandle)
      modifies this
      ensures Snapshot() == RollbackCreateTableSpec(old(Snapshot()), handle)
    {
      catalog := ClientDropTable(catalog, RollbackTableHandle(handle));
    }

    method Rollback()
      modifies this
      ensures Snapshot() == RollbackSpec(old(Snapshot()))
    {
      var action := rollbackAction;
      rollbackAction := None;
      if action.Some? {
        match action.value
        case DropCreatedTable(handle) => RollbackCreateTable(handle);
        executed := executed + [action.value];
      }
    }

    method BeginCreateTable(meta: TableMetadata) returns (r: Result<OutputTableHandle, MetadataError>)
      modifies this
      ensures (Snapshot(), r) == BeginCreateTableSpec(cfg, old(Snapshot()), meta)
    {
      var check := CheckNoRollback();
      if check.Err? {
        return Err(check.error);
      }
      var handle := OutputHandleOf(cfg, meta);
      catalog := ClientCreateTable(catalog, meta);
      var installed := SetRollback(DropCreatedTable(handle));
      if installed.Err? {
        return Err(installed.error);
      }
      r := Ok(handle);
    }

    method FinishCreateTable()
      modifies this
      ensures Snapshot() == FinishCreateTableSpec(old(Snapshot()))
    {
      ClearRollback();
    }

    method BeginInsert(handle: TableHandle) returns (r: Result<OutputTableHandle, MetadataError>)
      ensures r == BeginInsertSpec(cfg, Snapshot(), handle).1
    {
      var check := CheckNoRollback();
      if check.Err? {
        return Err(check.error);
      }
      var meta := TableMetadataOf(catalog, handle);
      if meta.Err? {
        return Err(meta.error);
      }
      r := Ok(OutputHandleOf(cfg, meta.value));
    }

    method FinishInsert()
      modifies this
      ensures Snapshot() == FinishInsertSpec(old(Snapshot()))
    {
      ClearRollback();
    }

    method CreateTable(meta: TableMetadata, ignoreExisting: bool) returns (r: Result<(), MetadataError>)
      modifies this
      ensures (Snapshot(), r) == CreateTableSpec(old(Snapshot()), meta, ignoreExisting)
    {
      var existing := ClientTableHandle(cfg, catalog, meta.table);
      if existing.Some? && !ignoreExisting {
        return Err(IllegalArgument(AlreadyExists(meta.table)));
      }
      catalog := ClientCreateTable(catalog, meta);
      r := Ok(());
    }

    method DropTable(handle: TableHandle) returns (r: Result<(), MetadataError>)
      modifies this
      ensures (Snapshot(), r) == DropTableSpec(cfg, old(Snapshot()), handle)
    {
      if !cfg.allowDropTable {
        return Err(PermissionDenied(DropDisabled));
      }
      catalog := ClientDropTable(catalog, handle);
      r := Ok(());
    }

    /**
     * `listTableColumns`; `listing` is what the client's `getTableNames`
     * returns for the prefix's schema.
     */
    method ListTableColumns(prefix: SchemaTablePrefix, listing: seq<SchemaTableName>)
      returns (r: Result<map<SchemaTableName, seq<ColumnMetadata>>, MetadataError>)
      ensures r == ListTableColumnsSpec(Snapshot(), prefix, listing)
    {
      var tables := TablesOf(prefix, listing);
      var entries: seq<Entry> := [];
      for i := 0 to |tables|
        invariant entries == Entries(catalog, tables[..i])
      {
        assert tables[..i + 1][..i] == tables[..i];
        var handle := ClientTableHandle(cfg, catalog, tables[i]);
        if handle.None? {
          continue;
        }
        var meta := TableMetadataOf(catalog, handle.value);
        if meta.Err? {
          continue;
        }
        entries := entries + [(tables[i], meta.value.columns)];
      }
      assert tables[..|tables|] == tables;
      r := Build(entries);
    }
  }
}
