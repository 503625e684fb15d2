/**
 * Big-endian encoding of the Java primitives, in the byte order of a
 * `java.nio.ByteBuffer` (big-endian unless told otherwise): `putChar` and
 * `getChar` use 2 bytes, `putInt`/`getInt` 4, `putLong`/`getLong` 8, the
 * integers in two's complement.
 */
module ByteCodec {
  import opened JavaTypes

  /** Why a buffer cannot be decoded: `BufferUnderflowException` or the bad-magic `Error`. */
  datatype DecodeError = BufferUnderflow | InvalidMagic

  function Pow256(n: nat): (r: nat)
    ensures r >= 1
  {
    if n == 0 then 1 else 256 * Pow256(n - 1)
  }

  /** The `width` bytes of `v`, most significant first. */
  function ToBytes(v: nat, width: nat): (r: seq<byte>)
    requires v < Pow256(width)
    ensures |r| == width
    decreases width
  {
    if width == 0 then [] else ToBytes(v / 256, width - 1) + [(v % 256) as byte]
  }

  /** The unsigned value of big-endian bytes. */
  function FromBytes(b: seq<byte>): (v: nat)
    ensures v < Pow256(|b|)
  {
    if b == [] then 0 else FromBytes(b[..|b| - 1]) * 256 + b[|b| - 1] as nat
  }

  lemma {:induction false} FromToBytes(v: nat, width: nat)
    requires v < Pow256(width)
    ensures FromBytes(ToBytes(v, width)) == v
    decreases width
  {
    if width > 0 {
      var r := ToBytes(v, width);
      assert r[..|r| - 1] == ToBytes(v / 256, width - 1);
      FromToBytes(v / 256, width - 1);
    }
  }

  /** Two's complement reading of a Java int / long as an unsigned number. */
  function Unsigned32(x: int32): (u: nat)
    ensures u < Pow256(4)
  {
    if x < 0 then x as int + 0x1_0000_0000 else x as int
  }

  function Signed32(u: nat): (x: int32)
    requires u < Pow256(4)
  {
    if u < 0x8000_0000 then u as int32 else (u - 0x1_0000_0000) as int32
  }

  function Unsigned64(x: int64): (u: nat)
    ensures u < Pow256(8)
  {
    if x < 0 then x as int + 0x1_0000_0000_0000_0000 else x as int
  }

  function Signed64(u: nat): (x: int64)
    requires u < Pow256(8)
  {
    if u < 0x8000_0000_0000_0000 then u as int64 else (u - 0x1_0000_0000_0000_0000) as int64
  }

  /** `putChar`, `putInt` and `putLong`. */
  function CharBytes(c: char16): (r: seq<byte>)
    ensures |r| == 2
  {
    [(c / 256) as byte, (c % 256) as byte]
  }

  function IntBytes(x: int32): (r: seq<byte>)
    ensures |r| == 4
  {
    ToBytes(Unsigned32(x), 4)
  }

  function LongBytes(x: int64): (r: seq<byte>)
    ensures |r| == 8
  {
    ToBytes(Unsigned64(x), 8)
  }

  /** `getChar`, `getInt` and `getLong` at byte offset `pos`. */
  function GetChar(b: seq<byte>, pos: nat): (c: char16)
    requires pos + 2 <= |b|
  {
    (b[pos] as int * 256 + b[pos + 1] as int) as char16
  }

  function GetInt(b: seq<byte>, pos: nat): (x: int32)
    requires pos + 4 <= |b|
  {
    Signed32(FromBytes(b[pos..pos + 4]))
  }

  function GetLong(b: seq<byte>, pos: nat): (x: int64)
    requires pos + 8 <= |b|
  {
    Signed64(FromBytes(b[pos..pos + 8]))
  }

  /** Reading back what was put at the same offset gives the value put. */
  lemma IntRoundTrip(b: seq<byte>, pos: nat, x: int32)
    requires pos + 4 <= |b| && b[pos..pos + 4] == IntBytes(x)
    ensures GetInt(b, pos) == x
  {
    FromToBytes(Unsigned32(x), 4);
  }

  lemma LongRoundTrip(b: seq<byte>, pos: nat, x: int64)
    requires pos + 8 <= |b| && b[pos..pos + 8] == LongBytes(x)
    ensures GetLong(b, pos) == x
  {
    FromToBytes(Unsigned64(x), 8);
  }

  /** The chars of `s` put one after the other. */
  function CharsBytes(s: seq<char16>): (r: seq<byte>)
    ensures |r| == 2 * |s|
  {
    if s == [] then [] else CharsBytes(s[..|s| - 1]) + CharBytes(s[|s| - 1])
  }

  /** Char `k` of `s` sits at bytes `2k` and `2k+1` of its encoding. */
  lemma {:induction false} CharsBytesAt(s: seq<char16>, k: nat)
    requires k < |s|
    ensures CharsBytes(s)[2 * k] == CharBytes(s[k])[0]
    ensures CharsBytes(s)[2 * k + 1] == CharBytes(s[k])[1]
  {
    if k < |s| - 1 {
      CharsBytesAt(s[..|s| - 1], k);
    }
  }

  /** Consecutive chars at `pos` read back as the chars that were put there. */
  lemma CharsRoundTrip(b: seq<byte>, pos: nat, s: seq<char16>, k: nat)
    requires pos + 2 * |s| <= |b| && b[pos..pos + 2 * |s|] == CharsBytes(s)
    requires k < |s|
    ensures GetChar(b, pos + 2 * k) == s[k]
  {
    CharsBytesAt(s, k);
    assert b[pos + 2 * k] == b[pos..pos + 2 * |s|][2 * k];
    assert b[pos + 2 * k + 1] == b[pos..pos + 2 * |s|][2 * k + 1];
  }

  /** `n` consecutive `getChar` reads starting at `pos`. */
  function GetChars(b: seq<byte>, pos: nat, n: nat): (r: seq<char16>)
    requires pos + 2 * n <= |b|
    ensures |r| == n && forall k :: 0 <= k < n ==> r[k] == GetChar(b, pos + 2 * k)
  {
    seq(n, k requires 0 <= k < n => GetChar(b, pos + 2 * k))
  }

  /** Reading back a run of chars put at `pos` gives the chars put. */
  lemma CharsReadBack(b: seq<byte>, pos: nat, s: seq<char16>)
    requires pos + 2 * |s| <= |b| && b[pos..pos + 2 * |s|] == CharsBytes(s)
    ensures GetChars(b, pos, |s|) == s
  {
    forall k | 0 <= k < |s| ensures GetChars(b, pos, |s|)[k] == s[k] {
      CharsRoundTrip(b, pos, s, k);
    }
  }

  /**
   * A relative bulk put into an allocated buffer at position `pos`: the
   * bytes land there and nothing else changes.
   */
  method Put(buf: array<byte>, pos: nat, bytes: seq<byte>) returns (next: nat)
    requires pos + |bytes| <= buf.Length
    modifies buf
    ensures next == pos + |bytes|
    ensures buf[..next] == old(buf[..pos]) + bytes
    ensures forall k :: next <= k < buf.Length ==> buf[k] == old(buf[k])
  {
    for i := 0 to |bytes|
      invariant buf[..pos + i] == old(buf[..pos]) + bytes[..i]
      invariant forall k :: pos + i <= k < buf.Length ==> buf[k] == old(buf[k])
    {
      buf[pos + i] := bytes[i];
    }
    next := pos + |bytes|;
  }

  /** `putChar` for each char of `s` in turn. */
  method PutChars(buf: array<byte>, pos: nat, s: seq<char16>) returns (next: nat)
    requires pos + 2 * |s| <= buf.Length
    modifies buf
    ensures next == pos + 2 * |s|
    ensures buf[..next] == old(buf[..pos]) + CharsBytes(s)
    ensures forall k :: next <= k < buf.Length ==> buf[k] == old(buf[k])
  {
    next := pos;
    for i := 0 to |s|
      invariant next == pos + 2 * i
      invariant buf[..next] == old(buf[..pos]) + CharsBytes(s[..i])
      invariant forall k :: next <= k < buf.Length ==> buf[k] == old(buf[k])
    {
      next := Put(buf, next, CharBytes(s[i]));
      assert s[..i + 1][..i] == s[..i];
    }
    assert s[..|s|] == s;
  }

  /** The four parts of a concatenation sit at their offsets. */
  lemma ConcatParts(a: seq<byte>, b: seq<byte>, c: seq<byte>, d: seq<byte>)
    ensures var s := a + b + c + d;
      && s[|a|..|a| + |b|] == b
      && s[|a| + |b|..|a| + |b| + |c|] == c
      && s[|a| + |b| + |c|..|s|] == d
  {
  }
}
