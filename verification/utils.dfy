/**
 `utils.py`: the table operations once each table has a backing data file.
 The file system is a map from path to file content, and every I/O call that
 can fail takes a flag saying whether it succeeds.
 */
module Utils {
  import opened Wrappers
  import opened Values
  import opened Catalog

  /** A table entry: `{"columns": ..., "data_file": ...}`. */
  datatype FileEntry = FileEntry(columns: seq<Column>, dataFile: string)

  /** What a data file holds: a list of records, or text that is not valid JSON. */
  datatype FileContent = Rows(records: seq<Record>) | Garbled

  type FileStore = map<string, FileContent>

  /** The metadata a table operation returns (None where the source returns
      None) and the file store afterwards. */
  datatype Effect = Effect(metadata: Option<Metadata<FileEntry>>, files: FileStore)

  /** What `save_table_data` returns and the file store afterwards. */
  datatype Saved = Saved(ok: bool, files: FileStore)

  /** The data file of a table: `data/<name>.json`. */
  function DataFile(name: string): (path: string)
    ensures |path| == |name| + 10
    ensures path[..5] == "data/" && path[|path| - 5..] == ".json"
    ensures path[5..|path| - 5] == name
  {
    "data/" + name + ".json"
  }

  /** Different tables never share a data file. */
  lemma DataFileInjective(a: string, b: string)
    requires DataFile(a) == DataFile(b)
    ensures a == b
  {
  }

  /** Metadata and file store agree: the document is well formed, every entry
      starts with the ID column, names its own data file, and that file exists. */
  ghost predicate Consistent(m: Metadata<FileEntry>, files: FileStore) {
    && NoEmptyTables(m)
    && forall t :: HasTable(m, t) ==>
      var e := m.tables.value[t];
      && |e.columns| >= 1 && e.columns[0] == IdColumn && TypesAllowed(e.columns)
      && e.dataFile == DataFile(t)
      && e.dataFile in files
  }

  /** `create_table`: the name and type checks come first and touch no file;
      then the data file is written with an empty list, and only if that write
      succeeds (`writeOk`) is the table registered. */
  function CreateTable(m: Metadata<FileEntry>, files: FileStore, name: string,
                       columns: seq<Column>, writeOk: bool): (r: Effect)
    ensures HasTable(m, name) || !TypesAllowed(columns) ==> r == Effect(None, files)
    ensures !writeOk ==> r == Effect(None, files)
    ensures r.metadata.Some? <==> !HasTable(m, name) && TypesAllowed(columns) && writeOk
    ensures r.metadata.Some? ==>
      && HasTable(r.metadata.value, name)
      && r.metadata.value.tables.value[name] == FileEntry([Column("ID", "int")] + columns, DataFile(name))
      && SameOtherTables(m, r.metadata.value, name)
      && r.files == files[DataFile(name) := Rows([])]
  {
    if HasTable(m, name) then Effect(None, files)
    else if !TypesAllowed(columns) then Effect(None, files)
    else
      var path := DataFile(name);
      if !writeOk then Effect(None, files)
      else
        var files' := files[path := Rows([])];
        Effect(Some(Register(m, name, FileEntry([IdColumn] + columns, path))), files')
  }

  /** `drop_table`: None for an unknown name. Otherwise the data file is deleted
      when it exists and the deletion succeeds (`deleteOk`), and the table is
      removed from the metadata either way. */
  function DropTable(m: Metadata<FileEntry>, files: FileStore, name: string, deleteOk: bool): (r: Effect)
    ensures !HasTable(m, name) ==> r == Effect(None, files)
    ensures r.metadata.Some? <==> HasTable(m, name)
    ensures r.metadata.Some? ==>
      && !HasTable(r.metadata.value, name)
      && SameOtherTables(m, r.metadata.value, name)
      && (r.metadata.value.tables.None? <==> m.tables.value.Keys == {name})
    ensures r.metadata.Some? ==>
      var path := m.tables.value[name].dataFile;
      r.files == if deleteOk then files - {path} else files
  {
    if !HasTable(m, name) then Effect(None, files)
    else
      var path := m.tables.value[name].dataFile;
      var files' := if path in files && deleteOk then files - {path} else files;
      assert path !in files ==> files - {path} == files;
      Effect(Some(Unregister(m, name)), files')
  }

  /** `load_table_data`: the records in the table's data file, and the empty list
      for an unknown table, a missing file, a failed read (`readOk`) or content
      that does not decode. */
  function LoadTableData(name: string, m: Metadata<FileEntry>, files: FileStore, readOk: bool): (r: seq<Record>)
    ensures !HasTable(m, name) ==> r == []
    ensures HasTable(m, name) && m.tables.value[name].dataFile !in files ==> r == []
    ensures !readOk ==> r == []
    ensures HasTable(m, name) && readOk && m.tables.value[name].dataFile in files ==>
      match files[m.tables.value[name].dataFile]
      case Rows(records) => r == records
      case Garbled => r == []
  {
    if !HasTable(m, name) then []
    else
      var path := m.tables.value[name].dataFile;
      if path !in files || !readOk then []
      else match files[path]
        case Rows(records) => records
        case Garbled => []
  }

  /** `save_table_data`: False and no write for an unknown table; otherwise the
      whole list replaces the data file's content when the write succeeds. */
  function SaveTableData(name: string, data: seq<Record>, m: Metadata<FileEntry>,
                         files: FileStore, writeOk: bool): (r: Saved)
    ensures !HasTable(m, name) ==> r == Saved(false, files)
    ensures r.ok <==> HasTable(m, name) && writeOk
    ensures !r.ok ==> r.files == files
    ensures r.ok ==> r.files == files[m.tables.value[name].dataFile := Rows(data)]
  {
    if !HasTable(m, name) then Saved(false, files)
    else if !writeOk then Saved(false, files)
    else Saved(true, files[m.tables.value[name].dataFile := Rows(data)])
  }

  /** Round trip: what a successful save wrote, a later load reads back. */
  lemma SaveThenLoad(name: string, data: seq<Record>, m: Metadata<FileEntry>, files: FileStore)
    requires SaveTableData(name, data, m, files, true).ok
    ensures LoadTableData(name, m, SaveTableData(name, data, m, files, true).files, true) == data
  {
  }

  /** A newly created table loads as the empty list. */
  lemma CreateThenLoad(m: Metadata<FileEntry>, files: FileStore, name: string, columns: seq<Column>)
    requires CreateTable(m, files, name, columns, true).metadata.Some?
    ensures var r := CreateTable(m, files, name, columns, true);
      LoadTableData(name, r.metadata.value, r.files, true) == []
  {
  }

  /** Saving one table never changes what another table loads, in a consistent store. */
  lemma SaveKeepsOtherTables(name: string, other: string, data: seq<Record>,
                             m: Metadata<FileEntry>, files: FileStore, writeOk: bool, readOk: bool)
    requires Consistent(m, files)
    requires other != name
    ensures LoadTableData(other, m, SaveTableData(name, data, m, files, writeOk).files, readOk)
         == LoadTableData(other, m, files, readOk)
  {
    if HasTable(m, name) && HasTable(m, other) {
      if DataFile(name) == DataFile(other) {
        DataFileInjective(name, other);
      }
    }
  }

  /** Creating a table keeps metadata and files consistent. */
  lemma CreatePreservesConsistent(m: Metadata<FileEntry>, files: FileStore, name: string,
                                  columns: seq<Column>, writeOk: bool)
    requires Consistent(m, files)
    requires CreateTable(m, files, name, columns, writeOk).metadata.Some?
    ensures var r := CreateTable(m, files, name, columns, writeOk);
      Consistent(r.metadata.value, r.files)
  {
    var r := CreateTable(m, files, name, columns, writeOk);
    var m' := r.metadata.value;
    forall t | HasTable(m', t)
      ensures var e := m'.tables.value[t];
        && |e.columns| >= 1 && e.columns[0] == IdColumn && TypesAllowed(e.columns)
        && e.dataFile == DataFile(t) && e.dataFile in r.files
    {
      if t == name {
        var e := m'.tables.value[t];
        assert forall k :: 1 <= k < |e.columns| ==> e.columns[k] == columns[k - 1];
      }
    }
  }

  /** Dropping a table keeps metadata and files consistent, whether or not
      its data file could be deleted. */
  lemma DropPreservesConsistent(m: Metadata<FileEntry>, files: FileStore, name: string, deleteOk: bool)
    requires Consistent(m, files)
    requires HasTable(m, name)
    ensures var r := DropTable(m, files, name, deleteOk);
      Consistent(r.metadata.value, r.files)
  {
    var r := DropTable(m, files, name, deleteOk);
    var m' := r.metadata.value;
    forall t | HasTable(m', t)
      ensures m'.tables.value[t].dataFile in r.files
    {
      if DataFile(t) == DataFile(name) {
        DataFileInjective(t, name);
      }
    }
  }

  /** Saving keeps metadata and files consistent. */
  lemma SavePreservesConsistent(name: string, data: seq<Record>, m: Metadata<FileEntry>,
                                files: FileStore, writeOk: bool)
    requires Consistent(m, files)
    ensures Consistent(m, SaveTableData(name, data, m, files, writeOk).files)
  {
  }

  /** Dropping a freshly created table restores the metadata whether or not
      the data file can be deleted; the file store comes back too when the
      data file did not exist before and its deletion succeeds. */
  lemma CreateThenDrop(m: Metadata<FileEntry>, files: FileStore, name: string, columns: seq<Column>,
                       deleteOk: bool)
    requires NoEmptyTables(m)
    requires CreateTable(m, files, name, columns, true).metadata.Some?
    ensures var c := CreateTable(m, files, name, columns, true);
      var d := DropTable(c.metadata.value, c.files, name, deleteOk);
      && d.metadata == Some(m)
      && (deleteOk && DataFile(name) !in files ==> d.files == files)
  {
    var c := CreateTable(m, files, name, columns, true);
    UnregisterRegister(m, name, FileEntry([IdColumn] + columns, DataFile(name)));
    if DataFile(name) !in files {
      assert c.files - {DataFile(name)} == files;
    }
  }

  /** After a drop the table is unknown, so it loads as the empty list and
      cannot be saved, even when its data file survived. */
  lemma DropThenLoadAndSave(m: Metadata<FileEntry>, files: FileStore, name: string, deleteOk: bool,
                            data: seq<Record>, readOk: bool, writeOk: bool)
    requires HasTable(m, name)
    ensures var d := DropTable(m, files, name, deleteOk);
      && LoadTableData(name, d.metadata.value, d.files, readOk) == []
      && !SaveTableData(name, data, d.metadata.value, d.files, writeOk).ok
  {
  }

  /** What the metadata file holds: a decoded document, or text that is not valid JSON. */
  datatype MetaContent = Document(doc: Metadata<FileEntry>) | Unparsable

  /** The files the metadata document may be read from, by path. */
  type MetaStore = map<string, MetaContent>

  /** `load_metadata`: the stored document, or an empty one (no `"tables"` key)
      for a missing file, content that does not decode, or a failed read. */
  function LoadMetadata(store: MetaStore, path: string, readOk: bool): (m: Metadata<FileEntry>)
    ensures path !in store || !readOk || store[path].Unparsable? ==> m == Metadata(None)
    ensures path in store && readOk && store[path].Document? ==> m == store[path].doc
  {
    if path !in store || !readOk then Metadata(None)
    else match store[path]
      case Document(doc) => doc
      case Unparsable => Metadata(None)
  }

  /** `save_metadata`: the document replaces the file's content when the write
      succeeds; a failure is only reported. */
  function SaveMetadata(store: MetaStore, path: string, m: Metadata<FileEntry>, writeOk: bool): (r: MetaStore)
    ensures writeOk ==> path in r && r[path] == Document(m)
    ensures forall p :: p != path ==> (p in r <==> p in store)
    ensures forall p :: p != path && p in store ==> r[p] == store[p]
    ensures !writeOk ==> r == store
  {
    if writeOk then store[path := Document(m)] else store
  }

  /** Round trip: a document that was saved is what the next load returns. */
  lemma SaveThenLoadMetadata(store: MetaStore, path: string, m: Metadata<FileEntry>)
    ensures LoadMetadata(SaveMetadata(store, path, m, true), path, true) == m
  {
  }
}
