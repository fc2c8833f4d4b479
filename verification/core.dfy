/**
 `core.py`: `create_table` and `drop_table` as transitions of the metadata
 document, each table entry holding its columns and an inline `data` list.
 */
module Core {
  import opened Wrappers
  import opened Values
  import opened Catalog

  /** A table entry: `{"columns": ..., "data": [...]}`. */
  datatype TableEntry = TableEntry(columns: seq<Column>, data: seq<Record>)

  /** What every entry the operations produce looks like: the ID column first,
      then columns of allowed types. */
  predicate ValidEntry(e: TableEntry) {
    |e.columns| >= 1 && e.columns[0] == IdColumn && TypesAllowed(e.columns)
  }

  ghost predicate WellFormed(m: Metadata<TableEntry>) {
    && NoEmptyTables(m)
    && forall t :: HasTable(m, t) ==> ValidEntry(m.tables.value[t])
  }

  /** `create_table`: None for a name already registered or a column type outside
      {int, str, bool}; otherwise the table is registered with the ID column
      prepended and empty data. */
  function CreateTable(m: Metadata<TableEntry>, name: string, columns: seq<Column>): (r: Option<Metadata<TableEntry>>)
    ensures HasTable(m, name) ==> r.None?
    ensures !TypesAllowed(columns) ==> r.None?
    ensures r.Some? <==> !HasTable(m, name) && TypesAllowed(columns)
    ensures r.Some? ==>
      && HasTable(r.value, name)
      && r.value.tables.value[name].columns == [Column("ID", "int")] + columns
      && r.value.tables.value[name].data == []
    ensures r.Some? ==> SameOtherTables(m, r.value, name)
  {
    if HasTable(m, name) then None
    else if !TypesAllowed(columns) then None
    else Some(Register(m, name, TableEntry([IdColumn] + columns, [])))
  }

  /** `drop_table`: None for an unknown name; otherwise exactly that table is
      removed, and the `"tables"` key too when it was the last one. */
  function DropTable(m: Metadata<TableEntry>, name: string): (r: Option<Metadata<TableEntry>>)
    ensures r.Some? <==> HasTable(m, name)
    ensures r.Some? ==> !HasTable(r.value, name) && SameOtherTables(m, r.value, name)
    ensures r.Some? ==> (r.value.tables.None? <==> m.tables.value.Keys == {name})
  {
    if !HasTable(m, name) then None else Some(Unregister(m, name))
  }

  /** Both operations keep the document well formed. */
  lemma CreatePreservesWellFormed(m: Metadata<TableEntry>, name: string, columns: seq<Column>)
    requires WellFormed(m)
    requires CreateTable(m, name, columns).Some?
    ensures WellFormed(CreateTable(m, name, columns).value)
  {
    var r := CreateTable(m, name, columns).value;
    forall t | HasTable(r, t)
      ensures ValidEntry(r.tables.value[t])
    {
      if t == name {
        var e := r.tables.value[t];
        assert forall k :: 1 <= k < |e.columns| ==> e.columns[k] == columns[k - 1];
      }
    }
  }

  lemma DropPreservesWellFormed(m: Metadata<TableEntry>, name: string)
    requires WellFormed(m)
    requires DropTable(m, name).Some?
    ensures WellFormed(DropTable(m, name).value)
  {
  }

  /** Dropping a freshly created table gives back the original document. */
  lemma CreateThenDrop(m: Metadata<TableEntry>, name: string, columns: seq<Column>)
    requires NoEmptyTables(m)
    requires CreateTable(m, name, columns).Some?
    ensures DropTable(CreateTable(m, name, columns).value, name) == Some(m)
  {
    UnregisterRegister(m, name, TableEntry([IdColumn] + columns, []));
  }

  /** Re-creating a dropped table with its own columns gives back the original
      document, as long as it held no rows. */
  lemma DropThenCreate(m: Metadata<TableEntry>, name: string, columns: seq<Column>)
    requires HasTable(m, name)
    requires m.tables.value[name] == TableEntry([IdColumn] + columns, [])
    requires TypesAllowed(columns)
    ensures var d := DropTable(m, name);
      d.Some? && CreateTable(d.value, name, columns) == Some(m)
  {
    RegisterUnregister(m, name);
  }
}
