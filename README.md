# PackageBase in Dafny

A model of `PackageBase`, a small persistent record store that maps a
package (a display name and a package identifier) to a numeric id. The
store keeps an ordered list of fixed-width entries, where the list position
is the storage slot, and a header with the allocation bookkeeping:

- `idCounter`: the next id to hand out;
- `wipedCounter`: the number of tombstoned entries;
- `minWipedIndex`: the lowest tombstoned slot, or -1.

`add` deduplicates on the stored package text. When it makes a new entry,
it reuses the lowest tombstoned slot or appends. `delete` tombstones an
entry. `clearTrash` compacts the list. The three lookups and `query` scan
the list in storage order and skip tombstones. `query` slides the query over
a virtual 355-char buffer: the 100-char name followed by the 255-char
package field. Header and entries have fixed-width big-endian binary forms
of 100 and 719 bytes.

Layout, one module per part of the Java class:

- `java_types.dfy` (`JavaTypes`): `byte`, `char16` (a Java `char`),
  `int32`, `int64`, and the wrap-around of `idCounter++`.
- `wrappers.dfy` (`Wrappers`): `Option` (for `null`) and `Result` (for
  exceptions).
- `byte_codec.dfy` (`ByteCodec`): the `ByteBuffer` puts and gets in
  big-endian two's complement.
- `text_field.dfy` (`TextField`): `copyCharArray` on an array and
  `charArrayToString`, with their zero-terminator rules.
- `entry.dfy` (`Entries`): `Entry` as a value, its accessors, `match`, and
  the 719-byte codec.
- `metadata.dfy` (`Header`): `Metadata`, the magic check, and the 100-byte
  codec.
- `store_spec.dfy` (`StoreSpec`): the store as a value and what
  `add`/`delete`/`clearTrash`/lookups/`query` compute. `ValidStore` is the
  invariant: `wipedCounter` is the number of tombstones, and
  `minWipedIndex` is the lowest tombstoned slot or -1.
- `store_properties.dfy` (`StoreProperties`): lemmas relating the
  operations.
- `package_base.dfy` (`PackageBaseStore`): the class `PackageBase`. Its
  methods update `entries` and `metadata` in place and are proved equal to
  the `StoreSpec` functions.

Entries are identified by slot: the lookups, `query` and `add` return slot
indices where the Java code returns `Entry` references.

Behaviour worth knowing, proved about the model:

- `match` uses the exclusive bound `355 - len`. So it finds a query exactly
  when the query occurs within the first 354 chars of name ++ package
  (`Entries.MatchesIffOccursBeforeLastChar`).
- A query of exactly 355 chars never matches, as well as longer ones.
- Deduplication compares the argument with the stored, truncated text. A
  package identifier longer than 255 chars, or one holding a zero char, is
  never found (`StoreProperties.LongPackageNeverFound`,
  `StoreProperties.ZeroPackageNeverFound`).
- So adding a long identifier twice creates two live entries with the same
  stored package text (`StoreProperties.AddLongPackageTwice`).
- So does adding `p` and then `p` followed by a zero and more chars
  (`StoreProperties.AddZeroTerminatedTwice`).
- Live package texts stay unique only for zero-free identifiers of at most
  255 chars (`StoreProperties.AddKeepsUniquePackages`).
- Ids stay unique and below `idCounter` only while `idCounter` is below the
  largest long. At that point `idCounter++` wraps to the smallest long
  (`JavaTypes.NextId`).

## Model

| member | source | states |
|---|---|---|
| `JavaTypes.NextId` | src/PackageBase.java:28 | `idCounter++` yields one more below the largest long and wraps from the largest to the smallest long |
| `ByteCodec.FromToBytes` | src/PackageBase.java:222-225 | the big-endian bytes of any value that fits the width decode back to that value |
| `ByteCodec.IntRoundTrip` | src/PackageBase.java:208-211 | `getInt` at an offset returns the `int` that `putInt` wrote there, negative values included |
| `ByteCodec.LongRoundTrip` | src/PackageBase.java:248 | `getLong` at an offset returns the `long` that `putLong` wrote there, negative values included |
| `ByteCodec.CharsBytesAt` | src/PackageBase.java:331-337 | char `k` of a run of `putChar`s occupies bytes `2k` and `2k+1`, high byte first |
| `ByteCodec.CharsRoundTrip` | src/PackageBase.java:250-256 | the `k`-th `getChar` over a run of `putChar`s returns the `k`-th char written |
| `ByteCodec.CharsReadBack` | src/PackageBase.java:250-256 | reading `n` chars back from where `n` chars were put gives exactly those chars |
| `ByteCodec.Put` | src/PackageBase.java:328-329 | a relative put writes its bytes at the position, advances it by their count and leaves every other byte unchanged |
| `ByteCodec.PutChars` | src/PackageBase.java:331-337 | putting each char in turn writes the chars' big-endian encoding and leaves the rest of the buffer unchanged |
| `TextField.Copied` | src/PackageBase.java:348-358 | after copying `s` into a buffer, the first `min(\|s\|, cap)` places hold `s`, a zero follows only when `s` is shorter, and later places keep their old chars |
| `TextField.CopyCharArray` | src/PackageBase.java:348-358 | the in-place copy leaves the buffer exactly as `Copied` describes |
| `TextField.TextOf` | src/PackageBase.java:360-374 | the text read from a buffer is a zero-free prefix of it, followed in the buffer by a zero unless it is the whole buffer |
| `TextField.TextOfUnique` | src/PackageBase.java:360-374 | those three properties determine the text read |
| `TextField.CharArrayToString` | src/PackageBase.java:360-374 | the scan that stops at the first zero returns `TextOf` of the buffer |
| `TextField.WriteThenRead` | src/PackageBase.java:348-374 | writing zero-free text into a buffer and reading it back gives the text cut to the buffer's capacity |
| `Entries.Blank` | src/PackageBase.java:236-242 | a new entry is live, has id 0 and full-size zero buffers |
| `Entries.Created` | src/PackageBase.java:27-30 | the entry `add` builds is well-formed, live and carries the given id |
| `Entries.NewEntry` | src/PackageBase.java:27-30 | building the entry by copying into freshly zeroed buffers yields `Created` |
| `Entries.SetName` | src/PackageBase.java:267-273 | `setName` keeps the flag, the id, the package buffer and the name buffer's size |
| `Entries.SetPackageName` | src/PackageBase.java:283-289 | `setPackageName` keeps the flag, the id, the name buffer and the package buffer's size |
| `Entries.NameString` | src/PackageBase.java:279-281 | `getNameString` is the zero-free prefix of the name buffer that ends at its first zero or at its end |
| `Entries.PackageNameString` | src/PackageBase.java:295-297 | `getPackageNameString` is the zero-free prefix of the package buffer that ends at its first zero or at its end |
| `Entries.SetNameThenGet` | src/PackageBase.java:267-281 | `setName(s)` then `getNameString()` gives zero-free `s` cut to 100 chars, and no other field changes |
| `Entries.SetPackageNameThenGet` | src/PackageBase.java:283-297 | `setPackageName(s)` then `getPackageNameString()` gives zero-free `s` cut to 255 chars, and no other field changes |
| `Entries.CreatedReadsBack` | src/PackageBase.java:29-30 | a zero-free name or package given to `add` reads back cut to its field's capacity |
| `Entries.Matches` | src/PackageBase.java:299-323 | what `match` decides: the query lies at some start below `355 - len` of name ++ package; a matching query is shorter than 355 chars |
| `Entries.Match` | src/PackageBase.java:299-323 | the nested scan returns true exactly when some start below `355 - len` has the whole query in the virtual buffer |
| `Entries.LongQueryNeverMatches` | src/PackageBase.java:300-304 | a query of 355 chars or more matches no entry |
| `Entries.EmptyQueryMatches` | src/PackageBase.java:304-319 | the empty query matches every entry |
| `Entries.MatchesIffOccursBeforeLastChar` | src/PackageBase.java:304-308 | an entry matches exactly when the query occurs within the first 354 chars of name ++ package |
| `Entries.EncodeEntry` | src/PackageBase.java:325-340 | the encoding of an entry is 719 bytes |
| `Entries.DecodeEntry` | src/PackageBase.java:244-257 | decoding succeeds exactly on at least 719 bytes and then yields full-size buffers |
| `Entries.GetBytes` | src/PackageBase.java:325-340 | writing flag, id and both buffers into a zeroed 719-byte buffer produces `EncodeEntry` |
| `Entries.DecodeEntryBytes` | src/PackageBase.java:244-257 | reading the fields one after the other produces `DecodeEntry`, underflow included |
| `Entries.EncodedLayout` | src/PackageBase.java:328-337 | byte 0 is the flag, bytes 1-8 the id, bytes 9-208 the name and bytes 209-718 the package |
| `Entries.EntryRoundTrip` | src/PackageBase.java:244-257 | decoding an encoded entry gives back its flag, id, name buffer and package buffer |
| `Header.Initial` | src/PackageBase.java:192-197 | a new header has version 1, id counter 0, no tombstone and minimum index -1 |
| `Header.EncodeMetadata` | src/PackageBase.java:215-228 | the header encodes to 100 bytes whose bytes 26 to 99 are zero |
| `Header.CheckMagic` | src/PackageBase.java:202-206 | the magic check passes exactly when each of `p`, `k`, `b` can be read and matches, and it underflows only on fewer than 6 bytes |
| `Header.DecodeMetadata` | src/PackageBase.java:199-212 | decoding succeeds exactly when the magic check passes and at least 26 bytes are present, and fails with an invalid magic exactly when the magic check does |
| `Header.GetBytes` | src/PackageBase.java:215-228 | writing magic and fields into a zeroed 100-byte buffer produces `EncodeMetadata` |
| `Header.DecodeMetadataBytes` | src/PackageBase.java:199-212 | checking the magic char by char and reading the fields produces `DecodeMetadata`, errors included |
| `Header.MetadataRoundTrip` | src/PackageBase.java:199-228 | decoding an encoded header restores version, id counter, wiped counter and minimum index |
| `Header.BadMagicRejected` | src/PackageBase.java:202-206 | six or more bytes whose first three chars differ from `p`, `k`, `b` are refused as an invalid magic |
| `StoreSpec.WipedCount` | src/PackageBase.java:194 | the tombstone count is at most the slot count, is 0 exactly when no entry is wiped, and is the slot count exactly when all are |
| `StoreSpec.FirstWipedFrom` | src/PackageBase.java:178-184 | the forward scan returns the first tombstoned slot at or after its start, or -1 when there is none |
| `StoreSpec.ValidStore` | src/PackageBase.java:194-195 | in a valid store the minimum index is -1 or a slot, and `wipedCounter` is 0 exactly when the minimum index is -1 |
| `StoreSpec.EmptyStore` | src/PackageBase.java:153-155 | the store created without a file has no entries and satisfies the invariant |
| `StoreSpec.FindFrom` | src/PackageBase.java:58-92 | a lookup returns the first live entry the key selects, in storage order, or none when no live entry is selected |
| `StoreSpec.Find` | src/PackageBase.java:58-92 | a lookup returns the lowest slot holding a live entry the key selects, and none exactly when no live entry is selected |
| `StoreSpec.QueryResult` | src/PackageBase.java:43-56 | `query` returns exactly the slots of live matching entries, in increasing slot order |
| `StoreSpec.UpdateMinWiped` | src/PackageBase.java:178-188 | the rescan keeps version and id counter; the minimum becomes the first tombstone at or after the old minimum with the count kept, or -1 with the count 0 exactly when there is none |
| `StoreSpec.AddSpec` | src/PackageBase.java:20-41 | `add` keeps the store invariant and returns the slot of a live entry |
| `StoreSpec.DeleteSpec` | src/PackageBase.java:94-103 | `delete` of a live entry keeps the store invariant |
| `StoreSpec.Live` | src/PackageBase.java:105-116 | compaction keeps only entries of the list, none wiped, as many as the list had live ones |
| `StoreSpec.ClearTrashSpec` | src/PackageBase.java:105-116 | `clearTrash` keeps the store invariant |
| `StoreProperties.AddExisting` | src/PackageBase.java:20-25 | when a live entry has the package text, `add` returns its slot and changes nothing |
| `StoreProperties.AddFresh` | src/PackageBase.java:27-38 | otherwise the new entry gets the old id counter, the counter is incremented, and the entry is appended when there is no tombstone; else it overwrites the lowest tombstone, the wiped count drops by one and the minimum moves to the next tombstone at or after that slot |
| `StoreProperties.AddThenFindPackage` | src/PackageBase.java:20-38 | after `add` of a zero-free package of at most 255 chars, looking the package up returns the slot `add` returned |
| `StoreProperties.AddIdempotent` | src/PackageBase.java:20-25 | adding the same such package twice returns the same slot, and the second call changes nothing |
| `StoreProperties.LongPackageNeverFound` | src/PackageBase.java:82-92 | a package identifier longer than 255 chars is never found, so `add` never deduplicates it |
| `StoreProperties.ZeroPackageNeverFound` | src/PackageBase.java:82-92 | a package identifier holding a zero char is never found |
| `StoreProperties.AddLongPackageTwice` | src/PackageBase.java:20-38 | adding a package identifier longer than 255 chars twice gives two different live slots with equal stored package texts |
| `StoreProperties.CreatedStopsAtZero` | src/PackageBase.java:29-30 | a package given with a zero char after a zero-free `p` reads back as `p` |
| `StoreProperties.AddZeroTerminatedTwice` | src/PackageBase.java:20-38 | adding `p` then `p` followed by a zero and more chars gives two different live slots whose package texts are both `p` |
| `StoreProperties.DeleteTombstonesOneSlot` | src/PackageBase.java:94-103 | `delete` wipes that slot only, adds one tombstone, keeps the id counter, and moves the minimum to the slot exactly when there was no earlier tombstone |
| `StoreProperties.DeleteThenAddReuses` | src/PackageBase.java:32-38 | with no tombstone, deleting slot `i` gives minimum `i` and count 1; the next fresh `add` writes into slot `i` and leaves minimum -1 and count 0 |
| `StoreProperties.LiveConcat` | src/PackageBase.java:105-116 | compaction of two lists one after the other is the compaction of each, in order |
| `StoreProperties.LiveRemove` | src/PackageBase.java:111-114 | removing one tombstone leaves the live entries unchanged |
| `StoreProperties.LiveWithoutTombstones` | src/PackageBase.java:105-116 | a list without tombstones is its own compaction |
| `StoreProperties.ClearTrashCompacts` | src/PackageBase.java:105-116 | after `clearTrash` the list holds `wipedCounter` fewer entries, none wiped, the minimum is -1 and the id counter is kept |
| `StoreProperties.LongQueryFindsNothing` | src/PackageBase.java:43-56 | a query of 355 chars or more returns no slot, whatever the store holds |
| `StoreProperties.EmptyQueryFindsAllLive` | src/PackageBase.java:43-56 | the empty query returns exactly the live slots |
| `StoreProperties.EmptyStoreValid` | src/PackageBase.java:192-197 | the empty store satisfies the invariant and the id property |
| `StoreProperties.AddKeepsIdsIssued` | src/PackageBase.java:28 | while the id counter is below the largest long, `add` keeps every id below the counter and no two entries sharing one, and never lowers the counter |
| `StoreProperties.DeleteKeepsIdsIssued` | src/PackageBase.java:94-103 | `delete` keeps ids unique and below the counter |
| `StoreProperties.ClearTrashKeepsIdsIssued` | src/PackageBase.java:105-116 | `clearTrash` keeps ids unique and below the counter |
| `StoreProperties.AddKeepsUniquePackages` | src/PackageBase.java:20-38 | `add` of a zero-free package of at most 255 chars keeps the package texts of live entries pairwise different |
| `StoreProperties.DeleteKeepsUniquePackages` | src/PackageBase.java:94-103 | `delete` keeps live package texts pairwise different |
| `StoreProperties.ClearTrashKeepsUniquePackages` | src/PackageBase.java:105-116 | `clearTrash` keeps live package texts pairwise different |
| `PackageBaseStore.PackageBase.constructor` | src/PackageBase.java:153-157 | a store without a file starts with the initial header and no entries, and satisfies the invariant |
| `PackageBaseStore.PackageBase.GetEntryById` | src/PackageBase.java:58-68 | the scan returns the first live slot with that id, or none |
| `PackageBaseStore.PackageBase.GetEntryByName` | src/PackageBase.java:70-80 | the scan returns the first live slot whose name text equals the argument, or none |
| `PackageBaseStore.PackageBase.GetEntryByPackage` | src/PackageBase.java:82-92 | the scan returns the first live slot whose package text equals the argument, or none |
| `PackageBaseStore.PackageBase.Query` | src/PackageBase.java:43-56 | the scan returns `QueryResult` of the entries |
| `PackageBaseStore.PackageBase.UpdateMinWipedIndex` | src/PackageBase.java:178-188 | the forward scan sets the minimum to the next tombstone, or resets both counters when none is left; the entries are unchanged |
| `PackageBaseStore.PackageBase.Add` | src/PackageBase.java:20-41 | the in-place `add` produces the state and slot of `AddSpec` and keeps the invariant |
| `PackageBaseStore.PackageBase.Delete` | src/PackageBase.java:94-103 | the in-place `delete` produces the state of `DeleteSpec` and keeps the invariant |
| `PackageBaseStore.PackageBase.ClearTrash` | src/PackageBase.java:105-116 | the remove-in-place pass produces the state of `ClearTrashSpec` and keeps the invariant |

## Left out

- `load` and `save` (src/PackageBase.java:132-176) are file I/O. They
  catch every `Exception` and print it. The model covers the header and
  entry codecs they call, not the file loop. That loop reuses one 719-byte buffer while
  `read` returns a positive count, so a short trailing chunk is decoded
  together with stale bytes rather than dropped. That stream behaviour is
  not modelled.
- The constructor's call to `load` (src/PackageBase.java:15-18):
  `PackageBase.constructor` starts from the state `load` creates when no
  file exists.
- The `toString` methods only format text for display. src/Main.java is a
  demo driver and is not part of this model.
- Java reference identity. Entries are values addressed by slot, so a
  caller that mutates a returned `Entry` (for example with `setId`) is not
  modelled. Neither are the plain `setId`/`getId`/`getName`/`getPackageName`
  accessors. Only `add` sets an id, through `Entries.Created`.
- `PackageBaseStore.PackageBase.Delete`: requires a valid slot holding a
  live entry. Two cases are not modelled: an entry that is not in the list
  (`indexOf` gives -1), and deleting an entry twice, which counts it twice
  in `wipedCounter`.
- `PackageBaseStore.PackageBase.Add`: requires fewer than 2^31 - 1 entries.
  This is the limit of a Java list, whose size is an `int`.
- Strings are sequences of UTF-16 code units (`char16`). No text encoding
  is modelled.
- The exceptions of `ByteBuffer` reads on short input and the `Error`
  thrown on a bad magic become the `BufferUnderflow` and `InvalidMagic`
  error values.
- `Metadata` is a value that the store replaces field by field, not a
  separate mutable object. The store owns it exclusively, so nothing
  observable differs.
- `load` decodes a short trailing chunk together with stale bytes (see
  above).
- A bad magic throws `java.lang.Error`, which is not an `Exception`. So the
  `catch` in `load` does not stop it, and it escapes the `PackageBase(File)`
  constructor. The model reports it as `InvalidMagic` and does not model
  the escape.
- `load` always hands `Metadata(byte[])` a 100-byte buffer. A shorter file
  is read as if padded with zeros, so it fails the magic check when it
  holds fewer than 6 bytes, and otherwise reads its missing fields as 0.
- `Metadata(byte[])` called on its own underflows on fewer than 26 bytes,
  but only after every magic char it could read has matched
  (`Header.CheckMagic`, `Header.DecodeMetadata`).
