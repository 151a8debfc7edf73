/** The directory (filesys/directory.cc): a fixed table of entries searched from the front. */
module Directories {
  const FileNameMaxLen: nat := 9

  datatype Entry = Entry(inUse: bool, sector: nat, name: string)

  /** What strncpy keeps of a name and what strncmp compares. */
  function Key(name: string): string {
    if |name| <= FileNameMaxLen then name else name[..FileNameMaxLen]
  }

  /** The names are the same up to the length that counts. */
  ghost predicate SameName(a: string, b: string) {
    && (|a| == |b| || (|a| >= FileNameMaxLen && |b| >= FileNameMaxLen))
    && forall i :: 0 <= i < FileNameMaxLen && i < |a| && i < |b| ==> a[i] == b[i]
  }

  /** Nine characters of a name count, and no more. */
  lemma NineCharactersCount(a: string, b: string)
    ensures Key(a) == Key(b) <==> SameName(a, b)
  {
    assert forall i :: 0 <= i < FileNameMaxLen && i < |a| ==> Key(a)[i] == a[i];
    assert forall i :: 0 <= i < FileNameMaxLen && i < |b| ==> Key(b)[i] == b[i];
    if SameName(a, b) { assert Key(a) == Key(b); }
  }

  predicate Names(e: Entry, name: string) {
    e.inUse && e.name == Key(name)
  }

  /** i is the first entry in use with this name, or the size of the table. */
  ghost predicate IsFound(table: seq<Entry>, name: string, i: nat) {
    && i <= |table|
    && (i < |table| ==> Names(table[i], name))
    && forall j :: 0 <= j < i ==> !Names(table[j], name)
  }

  ghost predicate IsFree(table: seq<Entry>, i: nat) {
    && i <= |table|
    && (i < |table| ==> !table[i].inUse)
    && forall j :: 0 <= j < i ==> table[j].inUse
  }

  /** No two files have the same name. */
  predicate Unique(table: seq<Entry>) {
    forall i, j :: 0 <= i < j < |table| && table[i].inUse && table[j].inUse ==> table[i].name != table[j].name
  }

  function Find(table: seq<Entry>, name: string): (i: nat)
    ensures IsFound(table, name, i)
  {
    if table == [] || Names(table[0], name) then 0 else 1 + Find(table[1..], name)
  }

  function FreeSlot(table: seq<Entry>): (i: nat)
    ensures IsFree(table, i)
  {
    if table == [] || !table[0].inUse then 0 else 1 + FreeSlot(table[1..])
  }

  lemma FoundOnce(table: seq<Entry>, name: string, i: nat, j: nat)
    requires IsFound(table, name, i) && IsFound(table, name, j)
    ensures i == j
  {}

  /** Adding a name that is not there and then looking names up. */
  lemma FindAfterAdd(table: seq<Entry>, i: nat, sector: nat, name: string, other: string)
    requires Unique(table) && Find(table, name) == |table| && i < |table| && !table[i].inUse
    ensures var table' := table[i := Entry(true, sector, Key(name))];
            && Unique(table')
            && Find(table', other) == if Key(other) == Key(name) then i else Find(table, other)
  {
    var table' := table[i := Entry(true, sector, Key(name))];
    assert forall j :: 0 <= j < |table| && j != i ==> table'[j] == table[j];
    if Key(other) == Key(name) {
      assert forall j :: 0 <= j < |table| ==> Names(table[j], other) == Names(table[j], name);
      FoundOnce(table', other, Find(table', other), i);
    } else {
      FoundOnce(table', other, Find(table', other), Find(table, other));
    }
  }

  /** Removing a name and then looking names up. */
  lemma FindAfterRemove(table: seq<Entry>, name: string, other: string)
    requires Unique(table) && Find(table, name) < |table|
    ensures var i := Find(table, name);
            var table' := table[i := table[i].(inUse := false)];
            && Unique(table')
            && Find(table', other) == if Key(other) == Key(name) then |table| else Find(table, other)
  {
    var i := Find(table, name);
    var table' := table[i := table[i].(inUse := false)];
    assert forall j :: 0 <= j < |table| && j != i ==> table'[j] == table[j];
    if Key(other) == Key(name) {
      forall j | 0 <= j < |table| ensures !Names(table'[j], other) {
        assert Names(table[i], name);
      }
      FoundOnce(table', other, Find(table', other), |table|);
    } else {
      FoundOnce(table', other, Find(table', other), Find(table, other));
    }
  }

  class Directory {
    const table: array<Entry>

    constructor (size: nat)
      ensures fresh(table) && table.Length == size && forall i :: 0 <= i < size ==> !table[i].inUse
    {
      table := new Entry[size];
      new;
      for i := 0 to size
        invariant forall j :: 0 <= j < i ==> !table[j].inUse
      {
        table[i] := table[i].(inUse := false);
      }
    }

    method FetchFrom(file: seq<Entry>)
      requires |file| == table.Length
      modifies table
      ensures table[..] == file
    {
      forall i | 0 <= i < table.Length { table[i] := file[i]; }
    }

    method FindIndex(name: string) returns (index: int)
      ensures index == (if Find(table[..], name) < table.Length then Find(table[..], name) else -1)
    {
      for i := 0 to table.Length
        invariant forall j :: 0 <= j < i ==> !Names(table[j], name)
      {
        if table[i].inUse && table[i].name == Key(name) { return i; }
      }
      return -1;
    }

    method FindSector(name: string) returns (sector: int)
      ensures var i := Find(table[..], name); sector == if i < table.Length then table[i].sector else -1
    {
      var i := FindIndex(name);
      return if i != -1 then table[i].sector else -1;
    }

    method Add(name: string, newSector: nat) returns (added: bool)
      modifies table
      ensures added <==> Find(old(table[..]), name) == table.Length && FreeSlot(old(table[..])) < table.Length
      ensures added ==> table[..] == old(table[..])[FreeSlot(old(table[..])) := Entry(true, newSector, Key(name))]
      ensures !added ==> table[..] == old(table[..])
    {
      var i := FindIndex(name);
      if i != -1 { return false; }
      for i := 0 to table.Length
        invariant table[..] == old(table[..]) && forall j :: 0 <= j < i ==> table[j].inUse
      {
        if !table[i].inUse {
          table[i] := Entry(true, newSector, Key(name));
          assert FreeSlot(old(table[..])) == i;
          return true;
        }
      }
      return false;
    }

    method Remove(name: string) returns (removed: bool)
      modifies table
      ensures var i := Find(old(table[..]), name);
              && removed == (i < table.Length)
              && table[..] == if removed then old(table[..])[i := old(table[i]).(inUse := false)] else old(table[..])
    {
      var i := FindIndex(name);
      if i == -1 { return false; }
      table[i] := table[i].(inUse := false);
      return true;
    }
  }
}
