/**
 * The record store of `PackageBase` as values: the slot sequence with its
 * header, the invariant the header keeps about the tombstones, and what
 * `add`, `delete`, `clearTrash`, the lookups and `query` compute.
 */
module StoreSpec {
  import opened JavaTypes
  import opened Wrappers
  import opened TextField
  import opened Entries
  import opened Header

  /** The in-memory state: the header and the entries, list position = slot. */
  datatype Store = Store(metadata: Metadata, entries: seq<Entry>)

  /** The store a fresh `PackageBase` starts from when no file exists. */
  function EmptyStore(): (st: Store)
    ensures st.entries == [] && ValidStore(st)
  {
    Store(Initial(), [])
  }

  function Flag(e: Entry): (n: nat)
    ensures n <= 1 && (n == 1 <==> e.wiped)
  {
    if e.wiped then 1 else 0
  }

  /** The number of tombstones. */
  function WipedCount(s: seq<Entry>): (n: nat)
    ensures n <= |s|
    ensures n == 0 <==> forall k :: 0 <= k < |s| ==> !s[k].wiped
    ensures n == |s| <==> forall k :: 0 <= k < |s| ==> s[k].wiped
  {
    if s == [] then 0 else Flag(s[0]) + WipedCount(s[1..])
  }

  /**
   * The first tombstone at or after slot `i`, or -1 when there is none: the
   * forward scan of `updateMinWipedIndex`.
   */
  function FirstWipedFrom(s: seq<Entry>, i: nat): (r: int)
    requires i <= |s|
    ensures r == -1 || (i <= r < |s| && s[r].wiped)
    ensures r == -1 ==> forall k :: i <= k < |s| ==> !s[k].wiped
    ensures r != -1 ==> forall k :: i <= k < r ==> !s[k].wiped
    decreases |s| - i
  {
    if i == |s| then -1 else if s[i].wiped then i else FirstWipedFrom(s, i + 1)
  }

  lemma {:induction false} WipedCountUpdate(s: seq<Entry>, i: nat, e: Entry)
    requires i < |s|
    ensures WipedCount(s[i := e]) == WipedCount(s) - Flag(s[i]) + Flag(e)
  {
    if i == 0 {
      assert s[i := e][1..] == s[1..];
    } else {
      assert s[i := e][1..] == s[1..][i - 1 := e];
      WipedCountUpdate(s[1..], i - 1, e);
    }
  }

  lemma {:induction false} WipedCountAppend(s: seq<Entry>, e: Entry)
    ensures WipedCount(s + [e]) == WipedCount(s) + Flag(e)
  {
    if s != [] {
      assert (s + [e])[1..] == s[1..] + [e];
      WipedCountAppend(s[1..], e);
    }
  }

  /** Skipping slots that hold no tombstone does not change the forward scan. */
  lemma {:induction false} FirstWipedSkip(s: seq<Entry>, i: nat, j: nat)
    requires i <= j <= |s|
    requires forall k :: i <= k < j ==> !s[k].wiped
    ensures FirstWipedFrom(s, i) == FirstWipedFrom(s, j)
    decreases j - i
  {
    if i < j {
      FirstWipedSkip(s, i + 1, j);
    }
  }

  /**
   * The store's invariant: every entry has full-size buffers, the slot count
   * fits a Java int, `wipedCounter` counts the tombstones and
   * `minWipedIndex` is the lowest tombstoned slot, or -1 when there is none.
   */
  ghost predicate ValidStore(st: Store)
    ensures ValidStore(st) ==>
      && -1 <= st.metadata.minWipedIndex as int < |st.entries|
      && (st.metadata.wipedCounter == 0 <==> st.metadata.minWipedIndex == -1)
  {
    && (forall k :: 0 <= k < |st.entries| ==> WellFormed(st.entries[k]))
    && |st.entries| <= INT32_MAX
    && st.metadata.wipedCounter as int == WipedCount(st.entries)
    && st.metadata.minWipedIndex as int == FirstWipedFrom(st.entries, 0)
  }

  // ---------------------------------------------------------------------
  // Lookups and query

  /** What a lookup compares: the id, the stored name text or the stored package text. */
  datatype Key = ById(id: int64) | ByName(name: seq<char16>) | ByPackage(packageName: seq<char16>)

  predicate KeyMatches(e: Entry, key: Key) {
    match key
    case ById(id) => e.id == id
    case ByName(name) => NameString(e) == name
    case ByPackage(packageName) => PackageNameString(e) == packageName
  }

  /** A live entry that the key selects. */
  predicate Hit(e: Entry, key: Key) {
    !e.wiped && KeyMatches(e, key)
  }

  /** The first hit at or after slot `i`, scanning in storage order. */
  function FindFrom(s: seq<Entry>, key: Key, i: nat): (r: Option<nat>)
    requires i <= |s|
    ensures r.Some? ==> i <= r.value < |s| && Hit(s[r.value], key)
    ensures r.Some? ==> forall k :: i <= k < r.value ==> !Hit(s[k], key)
    ensures r.None? ==> forall k :: i <= k < |s| ==> !Hit(s[k], key)
    decreases |s| - i
  {
    if i == |s| then None else if Hit(s[i], key) then Some(i) else FindFrom(s, key, i + 1)
  }

  /** `getEntryById`, `getEntryByName`, `getEntryByPackage`: the first hit, or none (`null`). */
  function Find(s: seq<Entry>, key: Key): (r: Option<nat>)
    ensures r.Some? ==> r.value < |s| && Hit(s[r.value], key)
    ensures r.Some? ==> forall k :: 0 <= k < r.value ==> !Hit(s[k], key)
    ensures r.None? <==> forall k :: 0 <= k < |s| ==> !Hit(s[k], key)
  {
    FindFrom(s, key, 0)
  }

  /**
   * What `query` returns: the slots of the live entries the query matches,
   * in storage order.
   */
  function QueryResult(s: seq<Entry>, q: seq<char16>): (r: seq<nat>)
    requires forall k :: 0 <= k < |s| ==> WellFormed(s[k])
    ensures forall k: nat :: k in r <==> k < |s| && !s[k].wiped && Matches(s[k], q)
    ensures forall a, b :: 0 <= a < b < |r| ==> r[a] < r[b]
  {
    if s == [] then []
    else
      var last := |s| - 1;
      var prefix := QueryResult(s[..last], q);
      assert forall a :: 0 <= a < |prefix| ==> prefix[a] < last by {
        forall a | 0 <= a < |prefix| ensures prefix[a] < last {
          assert prefix[a] in prefix;
        }
      }
      prefix + (if !s[last].wiped && Matches(s[last], q) then [last] else [])
  }

  // ---------------------------------------------------------------------
  // add, delete, clearTrash

  /** `updateMinWipedIndex`: rescan forward from `minWipedIndex`; none left resets both counters. */
  function UpdateMinWiped(m: Metadata, s: seq<Entry>): (r: Metadata)
    requires 0 <= m.minWipedIndex as int <= |s| <= INT32_MAX
    ensures r.version == m.version && r.idCounter == m.idCounter
    ensures r.minWipedIndex == -1 <==> forall k :: m.minWipedIndex as int <= k < |s| ==> !s[k].wiped
    ensures r.minWipedIndex == -1 ==> r.wipedCounter == 0
    ensures r.minWipedIndex != -1 ==>
      && m.minWipedIndex <= r.minWipedIndex && (r.minWipedIndex as int) < |s| && s[r.minWipedIndex].wiped
      && (forall k :: m.minWipedIndex as int <= k < r.minWipedIndex as int ==> !s[k].wiped)
      && r.wipedCounter == m.wipedCounter
  {
    var next := FirstWipedFrom(s, m.minWipedIndex as int);
    if next < 0 then m.(wipedCounter := 0, minWipedIndex := -1) else m.(minWipedIndex := next as int32)
  }

  /**
   * `add`: an existing live entry with an equal package text is returned
   * as it is; otherwise a new entry with the next id is appended, or written
   * into the lowest tombstoned slot. The second component is the slot, which
   * holds a live entry; the invariant is kept.
   */
  function AddSpec(st: Store, name: seq<char16>, packageName: seq<char16>): (r: (Store, nat))
    requires ValidStore(st) && |st.entries| < INT32_MAX
    ensures ValidStore(r.0) && r.1 < |r.0.entries| && !r.0.entries[r.1].wiped
  {
    match Find(st.entries, ByPackage(packageName))
    case Some(k) => (st, k)
    case None =>
      var m := st.metadata.(idCounter := NextId(st.metadata.idCounter));
      var e := Created(st.metadata.idCounter, name, packageName);
      if m.minWipedIndex < 0 then
        WipedCountAppend(st.entries, e);
        assert forall k :: 0 <= k < |st.entries + [e]| ==> !(st.entries + [e])[k].wiped;
        (Store(m, st.entries + [e]), |st.entries|)
      else
        var slot := m.minWipedIndex as nat;
        var entries := st.entries[slot := e];
        WipedCountUpdate(st.entries, slot, e);
        FirstWipedSkip(entries, 0, slot);
        (Store(UpdateMinWiped(m.(wipedCounter := m.wipedCounter - 1), entries), entries), slot)
  }

  /**
   * `delete` of the live entry in `slot`: tombstone it, count it, and lower
   * `minWipedIndex` to the slot when there was no tombstone or only later
   * ones; the invariant is kept.
   */
  function DeleteSpec(st: Store, slot: nat): (r: Store)
    requires ValidStore(st) && slot < |st.entries| && !st.entries[slot].wiped
    ensures ValidStore(r)
  {
    var entries := st.entries[slot := st.entries[slot].(wiped := true)];
    WipedCountUpdate(st.entries, slot, st.entries[slot].(wiped := true));
    var least := FirstWipedFrom(st.entries, 0);
    var m := st.metadata.(wipedCounter := st.metadata.wipedCounter + 1);
    if m.minWipedIndex == -1 || m.minWipedIndex as int > slot then
      FirstWipedSkip(entries, 0, slot);
      Store(m.(minWipedIndex := slot as int32), entries)
    else
      FirstWipedSkip(entries, 0, least);
      FirstWipedSkip(st.entries, 0, least);
      Store(m, entries)
  }

  /** The live entries in their storage order. */
  function Live(s: seq<Entry>): (r: seq<Entry>)
    ensures |r| == |s| - WipedCount(s)
    ensures forall k :: 0 <= k < |r| ==> !r[k].wiped
    ensures forall e :: e in r ==> e in s
  {
    if s == [] then [] else (if s[0].wiped then [] else [s[0]]) + Live(s[1..])
  }

  /** `clearTrash`: drop every tombstone and reset both counters; the invariant is kept. */
  function ClearTrashSpec(st: Store): (r: Store)
    requires ValidStore(st)
    ensures ValidStore(r)
  {
    var live := Live(st.entries);
    assert forall k :: 0 <= k < |live| ==> WellFormed(live[k]) by {
      forall k | 0 <= k < |live| ensures WellFormed(live[k]) {
        assert live[k] in st.entries;
      }
    }
    Store(st.metadata.(wipedCounter := 0, minWipedIndex := -1), live)
  }
}
