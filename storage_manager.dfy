/**
 * The registry of named tables (src/lib/storage/storage_manager.cpp). The
 * source keeps one process-wide instance; here the registry is an ordinary
 * object, and reset empties its map. Tables are shared by reference between
 * the registry and its callers, as the source's shared pointers are.
 */
module StorageRegistry {
  import opened StorageTypes
  import opened StorageTable

  /** No name occurs twice. */
  predicate NoDuplicates(names: seq<string>) {
    forall i, j :: 0 <= i < j < |names| ==> names[i] != names[j]
  }

  class StorageManager {
    /** Name to table; a map has one entry per key. */
    var tables: map<string, Table>

    /** A new registry holds no table. */
    constructor ()
      ensures tables == map[]
      ensures forall name :: !HasTable(name)
    {
      tables := map[];
    }

    /**
     * Registers table under name unless the name is taken: like a map
     * insert, an existing entry is kept and the new table is discarded.
     */
    method AddTable(name: string, table: Table)
      modifies this
      ensures tables == if name in old(tables) then old(tables) else old(tables)[name := table]
      ensures HasTable(name)
      ensures GetTable(name) == Ok(if name in old(tables) then old(tables)[name] else table)
      ensures forall other :: other != name ==> GetTable(other) == old(GetTable(other))
    {
      if name !in tables {
        tables := tables[name := table];
      }
    }

    /** Removes the entry for name, or fails with TableNotFound leaving the registry as it was. */
    method DropTable(name: string) returns (r: Outcome)
      modifies this
      ensures r.Pass? <==> name in old(tables)
      ensures r.Pass? ==> tables == old(tables) - {name}
      ensures r.Fail? ==> r.error == TableNotFound(name) && tables == old(tables)
      ensures !HasTable(name)
      ensures forall other :: other != name ==> GetTable(other) == old(GetTable(other))
    {
      if name in tables {
        tables := tables - {name};
        r := Pass;
      } else {
        r := Fail(TableNotFound(name));
      }
    }

    /** The table registered under name, or TableNotFound. */
    function GetTable(name: string): (r: Result<Table>)
      reads this
      ensures r.Ok? <==> HasTable(name)
      ensures r.Ok? ==> r.value == tables[name]
      ensures r.Err? ==> r.error == TableNotFound(name)
    {
      if name in tables then Ok(tables[name]) else Err(TableNotFound(name))
    }

    function HasTable(name: string): (b: bool)
      reads this
      ensures b <==> name in tables
    {
      name in tables
    }

    /**
     * The registered names, each once, built by visiting the entries one at
     * a time. The order is left open: the source's map type fixes it, and
     * that type is not part of this model.
     */
    method TableNames() returns (names: seq<string>)
      ensures forall name :: name in names <==> HasTable(name)
      ensures NoDuplicates(names)
      ensures |names| == |tables|
    {
      names := [];
      var rest := tables.Keys;
      while rest != {}
        invariant rest <= tables.Keys
        invariant forall name :: name in names ==> name in tables && name !in rest
        invariant forall name :: name in tables ==> name in names || name in rest
        invariant NoDuplicates(names)
        invariant |names| + |rest| == |tables|
        decreases |rest|
      {
        var name :| name in rest;
        names := names + [name];
        rest := rest - {name};
      }
    }

    /** Empties the registry. */
    method Reset()
      modifies this
      ensures tables == map[]
      ensures forall name :: !HasTable(name)
    {
      tables := map[];
    }
  }
}
