/**
 * `PackageBase.Entry`: one fixed-width record, its text accessors, its
 * substring matcher and its 719-byte encoding.
 */
module Entries {
  import opened JavaTypes
  import opened Wrappers
  import opened ByteCodec
  import opened TextField

  /** A record as a value; `name` and `packageName` are the whole fixed buffers. */
  datatype Entry = Entry(wiped: bool, id: int64, name: seq<char16>, packageName: seq<char16>)

  predicate WellFormed(e: Entry) {
    |e.name| == NAME_CAPACITY && |e.packageName| == PACKAGE_CAPACITY
  }

  /** `new Entry()`: live, id 0, both buffers zero. */
  function Blank(): (e: Entry)
    ensures WellFormed(e) && !e.wiped && e.id == 0
  {
    Entry(false, 0, seq(NAME_CAPACITY, _ => 0), seq(PACKAGE_CAPACITY, _ => 0))
  }

  /** `setName(String)` and `setPackageName(String)`. */
  function SetName(e: Entry, s: seq<char16>): (r: Entry)
    ensures r.wiped == e.wiped && r.id == e.id && r.packageName == e.packageName
    ensures |r.name| == |e.name|
  {
    e.(name := Copied(e.name, s))
  }

  function SetPackageName(e: Entry, s: seq<char16>): (r: Entry)
    ensures r.wiped == e.wiped && r.id == e.id && r.name == e.name
    ensures |r.packageName| == |e.packageName|
  {
    e.(packageName := Copied(e.packageName, s))
  }

  /** `getNameString()` and `getPackageNameString()`: zero-free prefixes of the buffers. */
  function NameString(e: Entry): (r: seq<char16>)
    ensures |r| <= |e.name| && r == e.name[..|r|] && NoZero(r)
    ensures |r| < |e.name| ==> e.name[|r|] == 0
  {
    TextOf(e.name)
  }

  function PackageNameString(e: Entry): (r: seq<char16>)
    ensures |r| <= |e.packageName| && r == e.packageName[..|r|] && NoZero(r)
    ensures |r| < |e.packageName| ==> e.packageName[|r|] == 0
  {
    TextOf(e.packageName)
  }

  /** The entry `add` builds: a blank entry given an id, a name and a package. */
  function Created(id: int64, name: seq<char16>, packageName: seq<char16>): (e: Entry)
    ensures WellFormed(e) && !e.wiped && e.id == id
  {
    SetPackageName(SetName(Blank().(id := id), name), packageName)
  }

  /** Builds the entry the way `add` does, copying into freshly zeroed buffers. */
  method NewEntry(id: int64, name: seq<char16>, packageName: seq<char16>) returns (e: Entry)
    ensures e == Created(id, name, packageName)
  {
    var nameBuffer := new char16[NAME_CAPACITY](_ => 0);
    var packageBuffer := new char16[PACKAGE_CAPACITY](_ => 0);
    assert nameBuffer[..] == Blank().name;
    assert packageBuffer[..] == Blank().packageName;
    CopyCharArray(name, nameBuffer);
    CopyCharArray(packageName, packageBuffer);
    e := Entry(false, id, nameBuffer[..], packageBuffer[..]);
  }

  /**
   * `setName(s)` then `getNameString()` gives back zero-free `s` cut to 100
   * chars; the entry keeps its other fields and its buffer sizes.
   */
  lemma SetNameThenGet(e: Entry, s: seq<char16>)
    requires WellFormed(e) && NoZero(s)
    ensures var e' := SetName(e, s);
      && WellFormed(e') && e'.wiped == e.wiped && e'.id == e.id && e'.packageName == e.packageName
      && NameString(e') == s[..Min(|s|, NAME_CAPACITY)]
  {
    WriteThenRead(e.name, s);
  }

  /** The same for `setPackageName(s)` and `getPackageNameString()`, cut to 255 chars. */
  lemma SetPackageNameThenGet(e: Entry, s: seq<char16>)
    requires WellFormed(e) && NoZero(s)
    ensures var e' := SetPackageName(e, s);
      && WellFormed(e') && e'.wiped == e.wiped && e'.id == e.id && e'.name == e.name
      && PackageNameString(e') == s[..Min(|s|, PACKAGE_CAPACITY)]
  {
    WriteThenRead(e.packageName, s);
  }

  /** Zero-free text given to `add` reads back cut to the field's capacity. */
  lemma CreatedReadsBack(id: int64, name: seq<char16>, packageName: seq<char16>)
    ensures NoZero(name) ==> NameString(Created(id, name, packageName)) == name[..Min(|name|, NAME_CAPACITY)]
    ensures NoZero(packageName) ==>
      PackageNameString(Created(id, name, packageName)) == packageName[..Min(|packageName|, PACKAGE_CAPACITY)]
  {
    var named := SetName(Blank().(id := id), name);
    if NoZero(name) {
      SetNameThenGet(Blank().(id := id), name);
    }
    if NoZero(packageName) {
      SetPackageNameThenGet(named, packageName);
    }
  }

  // ---------------------------------------------------------------------
  // Substring matching over the 355-char virtual buffer name ++ packageName

  const SPAN: nat := NAME_CAPACITY + PACKAGE_CAPACITY

  /** Char `k` of the virtual buffer. */
  function At(e: Entry, k: nat): (c: char16)
    requires WellFormed(e) && k < SPAN
    ensures c == (e.name + e.packageName)[k]
  {
    if k < NAME_CAPACITY then e.name[k] else e.packageName[k - NAME_CAPACITY]
  }

  /** The query lies in the virtual buffer starting at `i`. */
  predicate WindowMatches(e: Entry, q: seq<char16>, i: nat)
    requires WellFormed(e) && i + |q| <= SPAN
  {
    forall j :: 0 <= j < |q| ==> q[j] == At(e, i + j)
  }

  /**
   * What `match` decides: some start `i` below the exclusive bound
   * `355 - |q|` at which the query lies in the virtual buffer.
   */
  predicate Matches(e: Entry, q: seq<char16>)
    requires WellFormed(e)
    ensures Matches(e, q) ==> |q| < SPAN
  {
    |q| <= SPAN && exists i: nat :: i < SPAN - |q| && WindowMatches(e, q, i)
  }

  /** `Entry.match`: slides the query over the buffer, stopping at the first mismatch. */
  method Match(e: Entry, query: seq<char16>) returns (matched: bool)
    requires WellFormed(e)
    ensures matched == Matches(e, query)
  {
    if |query| > SPAN {
      return false;
    }
    var i := 0;
    while i < SPAN - |query|
      invariant 0 <= i <= SPAN - |query|
      invariant forall i': nat :: i' < i ==> !WindowMatches(e, query, i')
    {
      var windowMatched := true;
      var j := 0;
      while j < |query|
        invariant 0 <= j <= |query| && windowMatched
        invariant forall j' :: 0 <= j' < j ==> query[j'] == At(e, i + j')
      {
        var k := i + j;
        var sourceChar := if k < NAME_CAPACITY then e.name[k] else e.packageName[k - NAME_CAPACITY];
        if sourceChar != query[j] {
          assert sourceChar == At(e, i + j);
          windowMatched := false;
          break;
        }
        j := j + 1;
      }
      if windowMatched {
        assert WindowMatches(e, query, i);
        return true;
      }
      i := i + 1;
    }
    return false;
  }

  /** A query of 355 chars or more never matches. */
  lemma LongQueryNeverMatches(e: Entry, q: seq<char16>)
    requires WellFormed(e) && |q| >= SPAN
    ensures !Matches(e, q)
  {
  }

  /** The empty query matches every entry. */
  lemma EmptyQueryMatches(e: Entry)
    requires WellFormed(e)
    ensures Matches(e, [])
  {
    assert WindowMatches(e, [], 0);
  }

  /** name ++ packageName without its last char: the chars `match` can reach. */
  function Reachable(e: Entry): (r: seq<char16>)
    requires WellFormed(e)
    ensures |r| == SPAN - 1
  {
    (e.name + e.packageName)[..SPAN - 1]
  }

  /** `q` occurs in `s` starting at `i`. */
  predicate OccursAt(s: seq<char16>, q: seq<char16>, i: nat) {
    i + |q| <= |s| && s[i..i + |q|] == q
  }

  /**
   * Because the bound is exclusive, `match` finds the query exactly when it
   * occurs within the first 354 chars of name ++ packageName: an occurrence
   * that ends on the last package char is missed.
   */
  lemma {:induction false} MatchesIffOccursBeforeLastChar(e: Entry, q: seq<char16>)
    requires WellFormed(e)
    ensures Matches(e, q) <==> exists i: nat :: OccursAt(Reachable(e), q, i)
  {
    var head := Reachable(e);
    if Matches(e, q) {
      var i: nat :| i < SPAN - |q| && WindowMatches(e, q, i);
      assert head[i..i + |q|] == q by {
        forall j | 0 <= j < |q| ensures head[i..i + |q|][j] == q[j] {
          assert head[i + j] == At(e, i + j);
        }
      }
      assert OccursAt(head, q, i);
    }
    if exists i: nat :: OccursAt(head, q, i) {
      var i: nat :| OccursAt(head, q, i);
      assert WindowMatches(e, q, i) by {
        forall j | 0 <= j < |q| ensures q[j] == At(e, i + j) {
          assert head[i..i + |q|][j] == head[i + j];
        }
      }
    }
  }

  // ---------------------------------------------------------------------
  // The 719-byte record: flag byte, long id, 100 chars, 255 chars

  const ENTRY_SIZE: nat := 719
  const NAME_OFFSET: nat := 9
  const PACKAGE_OFFSET: nat := NAME_OFFSET + 2 * NAME_CAPACITY

  function FlagByte(wiped: bool): (b: byte)
    ensures b % 2 == 1 <==> wiped
  {
    if wiped then 1 else 0
  }

  /** What `Entry.getBytes` produces. */
  function EncodeEntry(e: Entry): (r: seq<byte>)
    requires WellFormed(e)
    ensures |r| == ENTRY_SIZE
  {
    [FlagByte(e.wiped)] + LongBytes(e.id) + CharsBytes(e.name) + CharsBytes(e.packageName)
  }

  /**
   * What `new Entry(byte[])` yields: the wiped flag is bit 0 of byte 0, then
   * the id and the two char buffers; fewer than 719 bytes underflow.
   */
  function DecodeEntry(b: seq<byte>): (r: Result<Entry, DecodeError>)
    ensures r.Success? <==> |b| >= ENTRY_SIZE
    ensures r.Success? ==> WellFormed(r.value)
  {
    if |b| < ENTRY_SIZE then Failure(BufferUnderflow)
    else Success(Entry(
      b[0] % 2 == 1,
      GetLong(b, 1),
      GetChars(b, NAME_OFFSET, NAME_CAPACITY),
      GetChars(b, PACKAGE_OFFSET, PACKAGE_CAPACITY)))
  }

  /** `Entry.getBytes`, writing field after field into a zeroed 719-byte buffer. */
  method GetBytes(e: Entry) returns (r: seq<byte>)
    requires WellFormed(e)
    ensures r == EncodeEntry(e)
  {
    var buf := new byte[ENTRY_SIZE](_ => 0);
    var pos := Put(buf, 0, [FlagByte(e.wiped)]);
    assert buf[..pos] == [FlagByte(e.wiped)];
    pos := Put(buf, pos, LongBytes(e.id));
    assert buf[..pos] == [FlagByte(e.wiped)] + LongBytes(e.id);
    pos := PutChars(buf, pos, e.name);
    assert buf[..pos] == [FlagByte(e.wiped)] + LongBytes(e.id) + CharsBytes(e.name);
    pos := PutChars(buf, pos, e.packageName);
    assert pos == ENTRY_SIZE;
    r := buf[..];
    assert r == buf[..pos];
  }

  /** `new Entry(byte[])`, reading field after field. */
  method DecodeEntryBytes(b: seq<byte>) returns (r: Result<Entry, DecodeError>)
    ensures r == DecodeEntry(b)
  {
    if |b| < ENTRY_SIZE {
      return Failure(BufferUnderflow);
    }
    var wiped := b[0] % 2 == 1;
    var id := GetLong(b, 1);
    var name := new char16[NAME_CAPACITY](_ => 0);
    var packageName := new char16[PACKAGE_CAPACITY](_ => 0);
    for i := 0 to NAME_CAPACITY
      invariant forall k :: 0 <= k < i ==> name[k] == GetChar(b, NAME_OFFSET + 2 * k)
    {
      name[i] := GetChar(b, NAME_OFFSET + 2 * i);
    }
    for i := 0 to PACKAGE_CAPACITY
      invariant forall k :: 0 <= k < NAME_CAPACITY ==> name[k] == GetChar(b, NAME_OFFSET + 2 * k)
      invariant forall k :: 0 <= k < i ==> packageName[k] == GetChar(b, PACKAGE_OFFSET + 2 * k)
    {
      packageName[i] := GetChar(b, PACKAGE_OFFSET + 2 * i);
    }
    ghost var d := DecodeEntry(b).value;
    assert forall k :: 0 <= k < NAME_CAPACITY ==> name[..][k] == d.name[k];
    assert name[..] == d.name;
    assert forall k :: 0 <= k < PACKAGE_CAPACITY ==> packageName[..][k] == d.packageName[k];
    assert packageName[..] == d.packageName;
    r := Success(Entry(wiped, id, name[..], packageName[..]));
  }

  /** Where `getBytes` puts each field. */
  lemma EncodedLayout(e: Entry)
    requires WellFormed(e)
    ensures var b := EncodeEntry(e);
      && b[0] == FlagByte(e.wiped)
      && b[1..NAME_OFFSET] == LongBytes(e.id)
      && b[NAME_OFFSET..PACKAGE_OFFSET] == CharsBytes(e.name)
      && b[PACKAGE_OFFSET..ENTRY_SIZE] == CharsBytes(e.packageName)
  {
    ConcatParts([FlagByte(e.wiped)], LongBytes(e.id), CharsBytes(e.name), CharsBytes(e.packageName));
  }

  /** Decoding what `getBytes` wrote restores every field. */
  lemma EntryRoundTrip(e: Entry)
    requires WellFormed(e)
    ensures DecodeEntry(EncodeEntry(e)) == Success(e)
  {
    var b := EncodeEntry(e);
    EncodedLayout(e);
    LongRoundTrip(b, 1, e.id);
    CharsReadBack(b, NAME_OFFSET, e.name);
    CharsReadBack(b, PACKAGE_OFFSET, e.packageName);
  }
}
