/**
 * `PackageBase` itself: the in-memory store whose methods update the entry
 * list and the header in place. Each method is proved to compute what the
 * matching function of `StoreSpec` says.
 */
module PackageBaseStore {
  import opened JavaTypes
  import opened Wrappers
  import opened TextField
  import opened Entries
  import opened Header
  import opened StoreSpec
  import opened StoreProperties

  class PackageBase {
    var metadata: Metadata
    /** The list of entries; the position in the list is the slot. */
    var entries: seq<Entry>

    function State(): (st: Store)
      reads this
    {
      Store(metadata, entries)
    }

    ghost predicate Valid()
      reads this
    {
      ValidStore(State())
    }

    /** A store over a file that does not exist yet: empty header, no entries. */
    constructor ()
      ensures Valid() && State() == EmptyStore()
    {
      metadata := Initial();
      entries := [];
    }

    /** `getEntryById`: the first live entry with this id, or none. */
    method GetEntryById(id: int64) returns (slot: Option<nat>)
      ensures slot == Find(entries, ById(id))
    {
      for i := 0 to |entries|
        invariant FindFrom(entries, ById(id), i) == Find(entries, ById(id))
      {
        if entries[i].wiped {
          continue;
        }
        if entries[i].id == id {
          return Some(i);
        }
      }
      return None;
    }

    /** `getEntryByName`: the first live entry whose name text equals `name`, or none. */
    method GetEntryByName(name: seq<char16>) returns (slot: Option<nat>)
      ensures slot == Find(entries, ByName(name))
    {
      for i := 0 to |entries|
        invariant FindFrom(entries, ByName(name), i) == Find(entries, ByName(name))
      {
        if entries[i].wiped {
          continue;
        }
        var text := CharArrayToString(entries[i].name);
        if text == name {
          return Some(i);
        }
      }
      return None;
    }

    /** `getEntryByPackage`: the first live entry whose package text equals `packageName`, or none. */
    method GetEntryByPackage(packageName: seq<char16>) returns (slot: Option<nat>)
      ensures slot == Find(entries, ByPackage(packageName))
    {
      for i := 0 to |entries|
        invariant FindFrom(entries, ByPackage(packageName), i) == Find(entries, ByPackage(packageName))
      {
        if entries[i].wiped {
          continue;
        }
        var text := CharArrayToString(entries[i].packageName);
        if text == packageName {
          return Some(i);
        }
      }
      return None;
    }

    /** `query`: the slots of the live entries that match, in storage order. */
    method Query(queryString: seq<char16>) returns (matched: seq<nat>)
      requires forall k :: 0 <= k < |entries| ==> WellFormed(entries[k])
      ensures matched == QueryResult(entries, queryString)
    {
      matched := [];
      for i := 0 to |entries|
        invariant matched == QueryResult(entries[..i], queryString)
      {
        assert entries[..i + 1][..i] == entries[..i];
        if entries[i].wiped {
          continue;
        }
        var isMatch := Match(entries[i], queryString);
        if isMatch {
          matched := matched + [i];
        }
      }
      assert entries[..|entries|] == entries;
    }

    /**
     * `updateMinWipedIndex`: scan forward from `minWipedIndex` for a
     * tombstone; when there is none, reset both counters.
     */
    method UpdateMinWipedIndex()
      requires 0 <= metadata.minWipedIndex as int <= |entries| <= INT32_MAX
      modifies this
      ensures entries == old(entries)
      ensures metadata == UpdateMinWiped(old(metadata), entries)
    {
      ghost var start := metadata.minWipedIndex as int;
      var i := metadata.minWipedIndex as int;
      while i < |entries|
        invariant start <= i <= |entries|
        invariant metadata == old(metadata) && entries == old(entries)
        invariant FirstWipedFrom(entries, start) == FirstWipedFrom(entries, i)
      {
        if entries[i].wiped {
          metadata := metadata.(minWipedIndex := i as int32);
          return;
        }
        i := i + 1;
      }
      metadata := metadata.(wipedCounter := 0, minWipedIndex := -1);
    }

    /**
     * `add`: returns the slot of the live entry with this package text, or
     * stores a new entry under the next id, in the lowest tombstoned slot if
     * there is one and at the end otherwise.
     */
    method Add(name: seq<char16>, packageName: seq<char16>) returns (slot: nat)
      requires Valid() && |entries| < INT32_MAX
      modifies this
      ensures (State(), slot) == AddSpec(old(State()), name, packageName)
      ensures Valid()
    {
      var existing := GetEntryByPackage(packageName);
      if existing.Some? {
        return existing.value;
      }
      var entry := NewEntry(metadata.idCounter, name, packageName);
      metadata := metadata.(idCounter := NextId(metadata.idCounter));
      if metadata.minWipedIndex < 0 {
        slot := |entries|;
        entries := entries + [entry];
      } else {
        metadata := metadata.(wipedCounter := metadata.wipedCounter - 1);
        slot := metadata.minWipedIndex as nat;
        entries := entries[slot := entry];
        UpdateMinWipedIndex();
      }
    }

    /**
     * `delete` of the live entry in `slot`: tombstone it, count it, and move
     * `minWipedIndex` down to it when it is the lowest tombstone.
     */
    method Delete(slot: nat)
      requires Valid() && slot < |entries| && !entries[slot].wiped
      modifies this
      ensures State() == DeleteSpec(old(State()), slot)
      ensures Valid()
    {
      entries := entries[slot := entries[slot].(wiped := true)];
      metadata := metadata.(wipedCounter := metadata.wipedCounter + 1);
      var entryIndex := slot;
      if metadata.minWipedIndex == -1 || metadata.minWipedIndex as int > entryIndex {
        metadata := metadata.(minWipedIndex := entryIndex as int32);
      }
    }

    /**
     * `clearTrash`: reset both counters, then remove every tombstone from
     * the list in one forward pass; after a removal the same index is looked
     * at again.
     */
    method ClearTrash()
      requires Valid()
      modifies this
      ensures State() == ClearTrashSpec(old(State()))
      ensures Valid()
    {
      metadata := metadata.(wipedCounter := 0, minWipedIndex := -1);
      var i := 0;
      while i < |entries|
        invariant 0 <= i <= |entries|
        invariant Live(entries) == Live(old(entries))
        invariant forall k :: 0 <= k < i ==> !entries[k].wiped
        invariant metadata == old(metadata).(wipedCounter := 0, minWipedIndex := -1)
        decreases |entries| - i
      {
        if entries[i].wiped {
          LiveRemove(entries, i);
          entries := entries[..i] + entries[i + 1..];
        } else {
          i := i + 1;
        }
      }
      LiveWithoutTombstones(entries);
    }
  }
}
