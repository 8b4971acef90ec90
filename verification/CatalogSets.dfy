/** The cache of schemas or tables and its locks (src/storage/clickhouse_catalog_set.cpp). Each method is what one
    thread does between taking and releasing them. */
module CatalogSets {
  import opened Options

  datatype Entry = Entry(id: nat, name: string)

  /** How identifiers are compared without case; left abstract. */
  type Fold = string -> string

  /** The last entry created under each name, and nothing else. */
  ghost predicate Indexes(entries: map<string, Entry>, ordered: seq<Entry>) {
    (forall name :: name in entries <==> exists e :: e in ordered && e.name == name) &&
    (forall name :: name in entries ==> entries[name] == LastNamed(ordered, name))
  }

  function LastNamed(ordered: seq<Entry>, name: string): Entry {
    if ordered == [] then Entry(0, name)
    else if ordered[|ordered| - 1].name == name then ordered[|ordered| - 1]
    else LastNamed(ordered[..|ordered| - 1], name)
  }

  lemma {:induction false} LastNamedIn(ordered: seq<Entry>, name: string)
    requires exists e :: e in ordered && e.name == name
    ensures LastNamed(ordered, name) in ordered && LastNamed(ordered, name).name == name
  {
    var last := ordered[|ordered| - 1];
    if last.name != name {
      var e :| e in ordered && e.name == name;
      assert e in ordered[..|ordered| - 1];
      LastNamedIn(ordered[..|ordered| - 1], name);
    }
  }

  /** What a lookup finds: the last entry of exactly this name, else the first whose name differs only in case. */
  ghost predicate Finds(ordered: seq<Entry>, name: string, fold: Fold, found: Option<Entry>) {
    if exists e :: e in ordered && e.name == name then found == Some(LastNamed(ordered, name))
    else
      match found
      case None => forall e :: e in ordered ==> fold(e.name) != fold(name)
      case Some(entry) =>
        exists k :: 0 <= k < |ordered| && ordered[k] == entry && fold(entry.name) == fold(name) &&
          forall j :: 0 <= j < k ==> fold(ordered[j].name) != fold(name)
  }

  /** Where a lookup can tell two entries apart at all, it finds an entry if and only if one matches. */
  lemma FindsExactly(ordered: seq<Entry>, name: string, fold: Fold, found: Option<Entry>)
    requires Finds(ordered, name, fold, found)
    ensures found.Some? <==> exists e :: e in ordered && fold(e.name) == fold(name)
    ensures found.Some? ==> found.value in ordered && fold(found.value.name) == fold(name)
  {
    if exists e :: e in ordered && e.name == name {
      LastNamedIn(ordered, name);
    }
  }

  class CatalogSet {
    var isLoaded: bool
    var orderedEntries: seq<Entry>
    var entries: map<string, Entry>

    ghost predicate Valid()
      reads this
    {
      Indexes(entries, orderedEntries)
    }

    constructor ()
      ensures Valid() && !isLoaded && orderedEntries == []
    {
      isLoaded := false;
      orderedEntries := [];
      entries := map[];
    }

    method CreateEntry(entry: Entry)
      requires Valid()
      modifies this`orderedEntries, this`entries
      ensures Valid() && orderedEntries == old(orderedEntries) + [entry]
    {
      entries := entries[entry.name := entry];
      orderedEntries := orderedEntries + [entry];
      assert orderedEntries[..|orderedEntries| - 1] == old(orderedEntries);
      assert forall name ::
        LastNamed(orderedEntries, name) == if name == entry.name then entry else LastNamed(old(orderedEntries), name);
      assert forall e :: e in orderedEntries <==> e in old(orderedEntries) || e == entry;
    }

    /** `listed` is what the server lists before it fails (`ok` false) or is done. */
    method TryLoadEntries(listed: seq<Entry>, ok: bool) returns (threw: bool)
      requires Valid() && (!isLoaded ==> orderedEntries == [])
      modifies this
      ensures Valid() && (!isLoaded ==> orderedEntries == [])
      ensures old(isLoaded) ==> !threw && isLoaded && orderedEntries == old(orderedEntries)
      ensures !old(isLoaded) ==>
        threw == !ok && isLoaded == ok && orderedEntries == if ok then listed else []
    {
      if isLoaded {
        return false;
      }
      for i := 0 to |listed|
        invariant Valid() && isLoaded == old(isLoaded) && orderedEntries == listed[..i]
      {
        CreateEntry(listed[i]);
      }
      if !ok {
        entries := map[];
        orderedEntries := [];
        return true;
      }
      isLoaded := true;
      return false;
    }

    method GetEntry(name: string, fold: Fold) returns (found: Option<Entry>)
      requires Valid()
      ensures Finds(orderedEntries, name, fold, found)
    {
      if name in entries {
        return Some(entries[name]);
      }
      for i := 0 to |orderedEntries|
        invariant forall j :: 0 <= j < i ==> fold(orderedEntries[j].name) != fold(name)
      {
        if fold(orderedEntries[i].name) == fold(name) {
          return Some(orderedEntries[i]);
        }
      }
      return None;
    }

    /** Exact names only, and it never loads. */
    method GetEntryOwner(name: string) returns (found: Option<Entry>)
      requires Valid()
      ensures found.Some? <==> exists e :: e in orderedEntries && e.name == name
      ensures found.Some? ==> found.value in orderedEntries && found.value.name == name
    {
      if name !in entries {
        return None;
      }
      LastNamedIn(orderedEntries, name);
      return Some(entries[name]);
    }

    /** Takes every cached entry out; the caller hands `cleared` to the transaction manager. */
    method ClearEntries() returns (cleared: seq<Entry>)
      requires Valid()
      modifies this
      ensures cleared == old(orderedEntries) && orderedEntries == [] && !isLoaded && Valid()
    {
      cleared := orderedEntries;
      orderedEntries := [];
      entries := map[];
      isLoaded := false;
    }
  }
}
