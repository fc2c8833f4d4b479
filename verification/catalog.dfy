/**
 The metadata document both versions of `create_table`/`drop_table` work on:
 an optional `"tables"` map from table name to entry, plus the column rules
 they share.
 */
module Catalog {
  import opened Wrappers

  /** A `(name, type)` pair from a column spec. */
  datatype Column = Column(name: string, kind: string)

  /** The three type names a column may declare. */
  const AllowedTypes: set<string> := {"int", "str", "bool"}

  /** The column every table starts with. */
  const IdColumn: Column := Column("ID", "int")

  predicate TypesAllowed(columns: seq<Column>) {
    forall k :: 0 <= k < |columns| ==> columns[k].kind in AllowedTypes
  }

  /** The metadata document: `tables` is None when the `"tables"` key is absent. */
  datatype Metadata<E> = Metadata(tables: Option<map<string, E>>)

  predicate HasTable<E>(m: Metadata<E>, name: string) {
    m.tables.Some? && name in m.tables.value
  }

  /** The source never leaves an empty `"tables"` map behind after a drop. */
  predicate NoEmptyTables<E>(m: Metadata<E>) {
    m.tables != Some(map[])
  }

  /** `a` and `b` register the same tables, with the same entries, apart from `name`. */
  ghost predicate SameOtherTables<E>(a: Metadata<E>, b: Metadata<E>, name: string) {
    && (forall t :: t != name ==> (HasTable(a, t) <==> HasTable(b, t)))
    && (forall t :: t != name && HasTable(a, t) && HasTable(b, t) ==> a.tables.value[t] == b.tables.value[t])
  }

  /** Store `entry` under `name`, creating the `"tables"` key when it is absent. */
  function Register<E>(m: Metadata<E>, name: string, entry: E): (r: Metadata<E>)
    ensures HasTable(r, name) && r.tables.value[name] == entry
    ensures SameOtherTables(m, r, name)
    ensures NoEmptyTables(r)
  {
    Metadata(Some(m.tables.GetOr(map[])[name := entry]))
  }

  /** Delete `name`, and the `"tables"` key with it when no table is left. */
  function Unregister<E>(m: Metadata<E>, name: string): (r: Metadata<E>)
    requires HasTable(m, name)
    ensures !HasTable(r, name)
    ensures SameOtherTables(m, r, name)
    ensures r.tables.None? <==> m.tables.value.Keys == {name}
    ensures NoEmptyTables(r)
  {
    var rest := m.tables.value - {name};
    assert rest.Keys == m.tables.value.Keys - {name};
    if rest == map[] then
      assert rest.Keys == {};
      assert m.tables.value.Keys == {name};
      Metadata(None)
    else
      Metadata(Some(rest))
  }

  /** Registering a new table and then removing it restores the document,
      provided it did not hold an empty `"tables"` map to begin with. */
  lemma UnregisterRegister<E>(m: Metadata<E>, name: string, entry: E)
    requires !HasTable(m, name) && NoEmptyTables(m)
    ensures Unregister(Register(m, name, entry), name) == m
  {
    var r := Register(m, name, entry);
    if m.tables.Some? {
      assert r.tables.value - {name} == m.tables.value;
    } else {
      assert r.tables.value - {name} == map[];
    }
  }

  /** Removing a table and registering its entry again restores the document. */
  lemma RegisterUnregister<E>(m: Metadata<E>, name: string)
    requires HasTable(m, name)
    ensures Register(Unregister(m, name), name, m.tables.value[name]) == m
  {
    var u := Unregister(m, name);
    assert u.tables.GetOr(map[])[name := m.tables.value[name]] == m.tables.value;
  }
}
