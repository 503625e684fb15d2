/**
 * What the store promises across calls: `add`, `delete` and `clearTrash`
 * keep the tombstone bookkeeping exact, ids are handed out once and in
 * increasing order, and `add` deduplicates on the stored package text.
 */
module StoreProperties {
  import opened JavaTypes
  import opened Wrappers
  import opened TextField
  import opened Entries
  import opened Header
  import opened StoreSpec

  // ---------------------------------------------------------------------
  // add

  /** A live entry with the same package text makes `add` a no-op that returns its slot. */
  lemma AddExisting(st: Store, name: seq<char16>, packageName: seq<char16>, k: nat)
    requires ValidStore(st) && |st.entries| < INT32_MAX
    requires Find(st.entries, ByPackage(packageName)) == Some(k)
    ensures AddSpec(st, name, packageName) == (st, k)
    ensures !st.entries[k].wiped && PackageNameString(st.entries[k]) == packageName
  {
  }

  /**
   * Without such an entry, `add` consumes exactly one id. The new entry
   * takes the old `idCounter` and is appended when there is no tombstone;
   * otherwise it replaces the lowest tombstone, `wipedCounter` drops by one
   * and `minWipedIndex` moves to the next tombstone at or after that slot.
   */
  lemma AddFresh(st: Store, name: seq<char16>, packageName: seq<char16>)
    requires ValidStore(st) && |st.entries| < INT32_MAX
    requires Find(st.entries, ByPackage(packageName)).None?
    ensures var (st', slot) := AddSpec(st, name, packageName);
      && slot < |st'.entries|
      && st'.entries[slot] == Created(st.metadata.idCounter, name, packageName)
      && st'.metadata.idCounter == NextId(st.metadata.idCounter)
      && st'.metadata.version == st.metadata.version
      && (st.metadata.minWipedIndex < 0 ==>
            slot == |st.entries| && st'.entries == st.entries + [st'.entries[slot]]
            && st'.metadata.wipedCounter == st.metadata.wipedCounter
            && st'.metadata.minWipedIndex == -1)
      && (st.metadata.minWipedIndex >= 0 ==>
            slot == st.metadata.minWipedIndex as int
            && st'.entries == st.entries[slot := st'.entries[slot]]
            && st'.metadata.wipedCounter as int == st.metadata.wipedCounter as int - 1
            && st'.metadata.minWipedIndex as int == FirstWipedFrom(st'.entries, slot))
  {
    if st.metadata.minWipedIndex >= 0 {
      var slot := st.metadata.minWipedIndex as nat;
      var e := Created(st.metadata.idCounter, name, packageName);
      WipedCountUpdate(st.entries, slot, e);
    }
  }

  /**
   * After `add` with zero-free package text that fits its field, looking the
   * package up finds the slot `add` returned.
   */
  lemma AddThenFindPackage(st: Store, name: seq<char16>, packageName: seq<char16>)
    requires ValidStore(st) && |st.entries| < INT32_MAX
    requires NoZero(packageName) && |packageName| <= PACKAGE_CAPACITY
    ensures var (st', slot) := AddSpec(st, name, packageName);
      Find(st'.entries, ByPackage(packageName)) == Some(slot)
  {
    var key := ByPackage(packageName);
    if Find(st.entries, key).None? {
      var (st', slot) := AddSpec(st, name, packageName);
      var e := Created(st.metadata.idCounter, name, packageName);
      CreatedReadsBack(st.metadata.idCounter, name, packageName);
      assert packageName[..Min(|packageName|, PACKAGE_CAPACITY)] == packageName;
      assert Hit(st'.entries[slot], key);
      assert forall k :: 0 <= k < slot ==> st'.entries[k] == st.entries[k];
      FindFirstHit(st'.entries, key, slot);
    }
  }

  /** A hit with no hit before it is what the lookup returns. */
  lemma FindFirstHit(s: seq<Entry>, key: Key, slot: nat)
    requires slot < |s| && Hit(s[slot], key)
    requires forall k :: 0 <= k < slot ==> !Hit(s[k], key)
    ensures Find(s, key) == Some(slot)
  {
  }

  /**
   * Adding the same zero-free, fitting package twice returns the same slot
   * and the second call changes nothing: no second id is consumed.
   */
  lemma AddIdempotent(st: Store, name: seq<char16>, otherName: seq<char16>, packageName: seq<char16>)
    requires ValidStore(st) && |st.entries| < INT32_MAX - 1
    requires NoZero(packageName) && |packageName| <= PACKAGE_CAPACITY
    ensures var (st', slot) := AddSpec(st, name, packageName);
      ValidStore(st') && |st'.entries| < INT32_MAX
      && AddSpec(st', otherName, packageName) == (st', slot)
  {
    AddThenFindPackage(st, name, packageName);
  }

  /**
   * A package text longer than its field is never found: the stored text is
   * cut to 255 chars, so `add` with such a package always makes a new entry.
   */
  lemma LongPackageNeverFound(s: seq<Entry>, packageName: seq<char16>)
    requires forall k :: 0 <= k < |s| ==> WellFormed(s[k])
    requires |packageName| > PACKAGE_CAPACITY
    ensures Find(s, ByPackage(packageName)) == None
  {
  }

  /**
   * So `add` does not deduplicate such a package: adding it twice fills two
   * live slots whose stored package texts are equal.
   */
  lemma AddLongPackageTwice(st: Store, name: seq<char16>, packageName: seq<char16>)
    requires ValidStore(st) && |st.entries| < INT32_MAX - 1
    requires |packageName| > PACKAGE_CAPACITY
    ensures var (st1, k1) := AddSpec(st, name, packageName);
      var (st2, k2) := AddSpec(st1, name, packageName);
      && k1 != k2 && k1 < |st2.entries| && k2 < |st2.entries|
      && !st2.entries[k1].wiped && !st2.entries[k2].wiped
      && PackageNameString(st2.entries[k1]) == PackageNameString(st2.entries[k2])
  {
    var (st1, k1) := AddSpec(st, name, packageName);
    LongPackageNeverFound(st.entries, packageName);
    AddFresh(st, name, packageName);
    LongPackageNeverFound(st1.entries, packageName);
    AddFresh(st1, name, packageName);
    var (st2, k2) := AddSpec(st1, name, packageName);
    assert k2 == |st1.entries| || st1.entries[k2].wiped;
  }

  /** A package identifier holding a zero char is never found either. */
  lemma ZeroPackageNeverFound(s: seq<Entry>, packageName: seq<char16>)
    requires !NoZero(packageName)
    ensures Find(s, ByPackage(packageName)) == None
  {
  }

  /** A zero char ends the stored text: only the chars before it read back. */
  lemma CreatedStopsAtZero(id: int64, name: seq<char16>, p: seq<char16>, rest: seq<char16>)
    requires NoZero(p) && |p| < PACKAGE_CAPACITY
    ensures PackageNameString(Created(id, name, p + [0] + rest)) == p
  {
    var buffer := Created(id, name, p + [0] + rest).packageName;
    assert buffer[..|p|] == p;
    TextOfUnique(buffer, p);
  }

  /**
   * So `add` of `p` followed by a zero and more chars is not deduplicated
   * against `p`: two live slots then hold the same package text.
   */
  lemma AddZeroTerminatedTwice(st: Store, name: seq<char16>, p: seq<char16>, rest: seq<char16>)
    requires ValidStore(st) && |st.entries| < INT32_MAX - 1
    requires NoZero(p) && |p| < PACKAGE_CAPACITY
    ensures var (st1, k1) := AddSpec(st, name, p);
      var (st2, k2) := AddSpec(st1, name, p + [0] + rest);
      && k1 != k2 && k1 < |st2.entries| && k2 < |st2.entries|
      && !st2.entries[k1].wiped && !st2.entries[k2].wiped
      && PackageNameString(st2.entries[k1]) == PackageNameString(st2.entries[k2]) == p
  {
    var q := p + [0] + rest;
    assert q[|p|] == 0;
    var (st1, k1) := AddSpec(st, name, p);
    AddThenFindPackage(st, name, p);
    ZeroPackageNeverFound(st1.entries, q);
    AddFresh(st1, name, q);
    CreatedStopsAtZero(st1.metadata.idCounter, name, p, rest);
    var (st2, k2) := AddSpec(st1, name, q);
    assert k2 == |st1.entries| || st1.entries[k2].wiped;
  }

  // ---------------------------------------------------------------------
  // delete

  /**
   * `delete` of a live entry tombstones that slot only and counts one more
   * tombstone; `minWipedIndex` becomes the slot exactly when it was -1 or
   * above it.
   */
  lemma DeleteTombstonesOneSlot(st: Store, slot: nat)
    requires ValidStore(st) && slot < |st.entries| && !st.entries[slot].wiped
    ensures var st' := DeleteSpec(st, slot);
      && |st'.entries| == |st.entries|
      && st'.entries[slot] == st.entries[slot].(wiped := true)
      && (forall k :: 0 <= k < |st.entries| && k != slot ==> st'.entries[k] == st.entries[k])
      && WipedCount(st'.entries) == WipedCount(st.entries) + 1
      && st'.metadata.idCounter == st.metadata.idCounter
      && (st'.metadata.minWipedIndex as int == slot <==> FirstWipedFrom(st.entries, 0) == -1 || FirstWipedFrom(st.entries, 0) > slot)
  {
    WipedCountUpdate(st.entries, slot, st.entries[slot].(wiped := true));
  }

  /**
   * With no tombstone, deleting slot `i` makes `i` the lowest tombstone with a
   * count of one; the next fresh `add` writes into slot `i` and leaves no
   * tombstone behind.
   */
  lemma DeleteThenAddReuses(st: Store, slot: nat, name: seq<char16>, packageName: seq<char16>)
    requires ValidStore(st) && |st.entries| < INT32_MAX
    requires WipedCount(st.entries) == 0 && slot < |st.entries|
    requires Find(DeleteSpec(st, slot).entries, ByPackage(packageName)).None?
    ensures var st1 := DeleteSpec(st, slot);
      && st1.metadata.minWipedIndex as int == slot && st1.metadata.wipedCounter == 1
      && var (st2, k) := AddSpec(st1, name, packageName);
         && k == slot && |st2.entries| == |st.entries|
         && st2.metadata.minWipedIndex == -1 && st2.metadata.wipedCounter == 0
  {
    DeleteTombstonesOneSlot(st, slot);
    AddFresh(DeleteSpec(st, slot), name, packageName);
  }

  // ---------------------------------------------------------------------
  // clearTrash

  /** Compaction distributes over concatenation: survivors keep their order. */
  lemma {:induction false} LiveConcat(a: seq<Entry>, b: seq<Entry>)
    ensures Live(a + b) == Live(a) + Live(b)
  {
    if a != [] {
      var head := if a[0].wiped then [] else [a[0]];
      assert (a + b)[0] == a[0];
      assert (a + b)[1..] == a[1..] + b;
      LiveConcat(a[1..], b);
      calc {
        Live(a + b);
        head + Live(a[1..] + b);
        head + (Live(a[1..]) + Live(b));
        (head + Live(a[1..])) + Live(b);
        Live(a) + Live(b);
      }
    } else {
      assert a + b == b;
    }
  }

  /** Removing one tombstone does not change the live entries: one step of `clearTrash`. */
  lemma LiveRemove(s: seq<Entry>, i: nat)
    requires i < |s| && s[i].wiped
    ensures Live(s[..i] + s[i + 1..]) == Live(s)
  {
    var before, after := s[..i], s[i + 1..];
    var rest := [s[i]] + after;
    assert s == before + rest;
    LiveConcat(before, rest);
    assert rest[0] == s[i] && rest[1..] == after;
    assert Live(rest) == Live(after);
    LiveConcat(before, after);
  }

  /** Compaction keeps a sequence without tombstones as it is. */
  lemma {:induction false} LiveWithoutTombstones(s: seq<Entry>)
    requires WipedCount(s) == 0
    ensures Live(s) == s
  {
    if s != [] {
      LiveWithoutTombstones(s[1..]);
    }
  }

  /**
   * `clearTrash` leaves exactly the live entries, as many as there were,
   * and no tombstone.
   */
  lemma ClearTrashCompacts(st: Store)
    requires ValidStore(st)
    ensures var st' := ClearTrashSpec(st);
      && |st'.entries| == |st.entries| - st.metadata.wipedCounter as int
      && WipedCount(st'.entries) == 0
      && st'.metadata.minWipedIndex == -1 && st'.metadata.idCounter == st.metadata.idCounter
  {
  }

  /** Every two live entries of `s` differ as `differ` says. */
  ghost predicate LivePairwise(s: seq<Entry>, differ: (Entry, Entry) -> bool) {
    forall i, j :: 0 <= i < j < |s| && !s[i].wiped && !s[j].wiped ==> differ(s[i], s[j])
  }

  lemma {:induction false} LiveKeepsPairwise(s: seq<Entry>, differ: (Entry, Entry) -> bool)
    requires LivePairwise(s, differ)
    ensures LivePairwise(Live(s), differ)
  {
    if s != [] {
      var tail := s[1..];
      assert LivePairwise(tail, differ) by {
        forall i, j | 0 <= i < j < |tail| && !tail[i].wiped && !tail[j].wiped
          ensures differ(tail[i], tail[j])
        {
          assert tail[i] == s[i + 1] && tail[j] == s[j + 1];
        }
      }
      LiveKeepsPairwise(tail, differ);
      if !s[0].wiped {
        var rest := Live(tail);
        forall j | 0 <= j < |rest| ensures differ(s[0], rest[j]) {
          assert rest[j] in tail;
          var t :| 0 <= t < |tail| && tail[t] == rest[j];
          assert s[t + 1] == rest[j];
        }
        var r := Live(s);
        assert r == [s[0]] + rest;
        forall i, j | 0 <= i < j < |r| ensures differ(r[i], r[j]) {
          if i == 0 {
            assert r[j] == rest[j - 1];
          } else {
            assert r[i] == rest[i - 1] && r[j] == rest[j - 1];
          }
        }
      }
    }
  }

  // ---------------------------------------------------------------------
  // query

  /** A query of 355 chars or more finds nothing, whatever the store holds. */
  lemma LongQueryFindsNothing(s: seq<Entry>, q: seq<char16>)
    requires forall k :: 0 <= k < |s| ==> WellFormed(s[k])
    requires |q| >= SPAN
    ensures QueryResult(s, q) == []
  {
  }

  /** The empty query finds every live slot. */
  lemma EmptyQueryFindsAllLive(s: seq<Entry>)
    requires forall k :: 0 <= k < |s| ==> WellFormed(s[k])
    ensures forall k: nat :: k in QueryResult(s, []) <==> k < |s| && !s[k].wiped
  {
    forall k: nat | k < |s| {
      EmptyQueryMatches(s[k]);
    }
  }

  // ---------------------------------------------------------------------
  // Ids

  /**
   * Every id is below `idCounter` and no two entries share one: the ids the
   * store handed out, each once.
   */
  ghost predicate IdsIssued(st: Store) {
    && st.metadata.idCounter >= 0
    && (forall k :: 0 <= k < |st.entries| ==> 0 <= st.entries[k].id < st.metadata.idCounter)
    && (forall i, j :: 0 <= i < j < |st.entries| ==> st.entries[i].id != st.entries[j].id)
  }

  lemma EmptyStoreValid()
    ensures ValidStore(EmptyStore()) && IdsIssued(EmptyStore())
  {
  }

  /** `add` keeps the ids unique while `idCounter` has not reached the largest long. */
  lemma AddKeepsIdsIssued(st: Store, name: seq<char16>, packageName: seq<char16>)
    requires ValidStore(st) && |st.entries| < INT32_MAX && IdsIssued(st)
    requires st.metadata.idCounter as int < INT64_MAX
    ensures IdsIssued(AddSpec(st, name, packageName).0)
    ensures AddSpec(st, name, packageName).0.metadata.idCounter >= st.metadata.idCounter
  {
    if Find(st.entries, ByPackage(packageName)).None? {
      var (st', slot) := AddSpec(st, name, packageName);
      AddFresh(st, name, packageName);
      assert forall k :: 0 <= k < |st'.entries| && k != slot ==> st'.entries[k] == st.entries[k];
    }
  }

  lemma DeleteKeepsIdsIssued(st: Store, slot: nat)
    requires ValidStore(st) && slot < |st.entries| && !st.entries[slot].wiped && IdsIssued(st)
    ensures IdsIssued(DeleteSpec(st, slot))
  {
  }

  lemma ClearTrashKeepsIdsIssued(st: Store)
    requires ValidStore(st) && IdsIssued(st)
    ensures IdsIssued(ClearTrashSpec(st))
  {
    var differ := (a: Entry, b: Entry) => a.id != b.id;
    LiveKeepsPairwise(st.entries, differ);
    var live := Live(st.entries);
    forall k | 0 <= k < |live| ensures 0 <= live[k].id < st.metadata.idCounter {
      assert live[k] in st.entries;
    }
  }

  // ---------------------------------------------------------------------
  // Package uniqueness among live entries

  ghost predicate UniquePackages(s: seq<Entry>) {
    forall i, j :: 0 <= i < j < |s| && !s[i].wiped && !s[j].wiped
      ==> PackageNameString(s[i]) != PackageNameString(s[j])
  }

  /** `add` with zero-free package text that fits its field keeps live packages unique. */
  lemma AddKeepsUniquePackages(st: Store, name: seq<char16>, packageName: seq<char16>)
    requires ValidStore(st) && |st.entries| < INT32_MAX && UniquePackages(st.entries)
    requires NoZero(packageName) && |packageName| <= PACKAGE_CAPACITY
    ensures UniquePackages(AddSpec(st, name, packageName).0.entries)
  {
    var key := ByPackage(packageName);
    if Find(st.entries, key).None? {
      var (st', slot) := AddSpec(st, name, packageName);
      CreatedReadsBack(st.metadata.idCounter, name, packageName);
      assert packageName[..Min(|packageName|, PACKAGE_CAPACITY)] == packageName;
      forall k | 0 <= k < |st'.entries| && k != slot && !st'.entries[k].wiped
        ensures PackageNameString(st'.entries[k]) != packageName
      {
        assert st'.entries[k] == st.entries[k];
        assert !Hit(st.entries[k], key);
      }
    }
  }

  lemma DeleteKeepsUniquePackages(st: Store, slot: nat)
    requires ValidStore(st) && slot < |st.entries| && !st.entries[slot].wiped
    requires UniquePackages(st.entries)
    ensures UniquePackages(DeleteSpec(st, slot).entries)
  {
  }

  lemma ClearTrashKeepsUniquePackages(st: Store)
    requires ValidStore(st) && UniquePackages(st.entries)
    ensures UniquePackages(ClearTrashSpec(st).entries)
  {
    var differ := (a: Entry, b: Entry) => PackageNameString(a) != PackageNameString(b);
    assert LivePairwise(st.entries, differ);
    LiveKeepsPairwise(st.entries, differ);
  }
}
