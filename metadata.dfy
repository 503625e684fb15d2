/**
 * `PackageBase.Metadata`: the 100-byte file header with the magic chars
 * `p`, `k`, `b` and the allocation bookkeeping.
 */
module Header {
  import opened JavaTypes
  import opened Wrappers
  import opened ByteCodec

  datatype Metadata = Metadata(version: int32, idCounter: int64, wipedCounter: int32, minWipedIndex: int32)

  const MAGIC: seq<char16> := ['p' as int as char16, 'k' as int as char16, 'b' as int as char16]
  const HEADER_SIZE: nat := 100
  /** Magic (6), version (4), idCounter (8), wipedCounter (4), minWipedIndex (4). */
  const PAYLOAD_SIZE: nat := 26

  /** `new Metadata()`: version 1, no ids handed out, no tombstone. */
  function Initial(): (m: Metadata)
    ensures m.version == 1 && m.idCounter == 0 && m.wipedCounter == 0 && m.minWipedIndex == -1
  {
    Metadata(1, 0, 0, -1)
  }

  /** What `Metadata.getBytes` produces: the payload, then zero padding up to 100 bytes. */
  function EncodeMetadata(m: Metadata): (r: seq<byte>)
    ensures |r| == HEADER_SIZE
    ensures forall k :: PAYLOAD_SIZE <= k < HEADER_SIZE ==> r[k] == 0
  {
    CharsBytes(MAGIC) + IntBytes(m.version) + LongBytes(m.idCounter)
      + IntBytes(m.wipedCounter) + IntBytes(m.minWipedIndex)
      + seq(HEADER_SIZE - PAYLOAD_SIZE, _ => 0)
  }

  /** Magic char `i` can be read and equals the expected one. */
  predicate MagicCharOk(b: seq<byte>, i: nat)
    requires i < |MAGIC|
  {
    2 * i + 2 <= |b| && GetChar(b, 2 * i) == MAGIC[i]
  }

  /**
   * The magic check from char `i` on, char by char: reading past the end
   * underflows, a wrong char is an invalid magic.
   */
  function CheckMagic(b: seq<byte>, i: nat): (r: Option<DecodeError>)
    requires i <= |MAGIC|
    ensures r.None? <==> forall k :: i <= k < |MAGIC| ==> MagicCharOk(b, k)
    ensures r == Some(BufferUnderflow) ==> |b| < 2 * |MAGIC|
    decreases |MAGIC| - i
  {
    if i == |MAGIC| then None
    else if |b| < 2 * i + 2 then assert !MagicCharOk(b, i); Some(BufferUnderflow)
    else if GetChar(b, 2 * i) != MAGIC[i] then assert !MagicCharOk(b, i); Some(InvalidMagic)
    else CheckMagic(b, i + 1)
  }

  /** What `new Metadata(byte[])` yields, or the exception it throws. */
  function DecodeMetadata(b: seq<byte>): (r: Result<Metadata, DecodeError>)
    ensures r.Success? <==> CheckMagic(b, 0).None? && |b| >= PAYLOAD_SIZE
    ensures r == Failure(InvalidMagic) <==> CheckMagic(b, 0) == Some(InvalidMagic)
  {
    match CheckMagic(b, 0)
    case Some(err) => Failure(err)
    case None =>
      if |b| < PAYLOAD_SIZE then Failure(BufferUnderflow)
      else Success(Metadata(GetInt(b, 6), GetLong(b, 10), GetInt(b, 18), GetInt(b, 22)))
  }

  /** `Metadata.getBytes`, writing field after field into a zeroed 100-byte buffer. */
  method GetBytes(m: Metadata) returns (r: seq<byte>)
    ensures r == EncodeMetadata(m)
  {
    var buf := new byte[HEADER_SIZE](_ => 0);
    ghost var payload := CharsBytes(MAGIC);
    var pos := PutChars(buf, 0, MAGIC);
    assert buf[..pos] == payload;
    payload := payload + IntBytes(m.version);
    pos := Put(buf, pos, IntBytes(m.version));
    assert buf[..pos] == payload;
    payload := payload + LongBytes(m.idCounter);
    pos := Put(buf, pos, LongBytes(m.idCounter));
    assert buf[..pos] == payload;
    payload := payload + IntBytes(m.wipedCounter);
    pos := Put(buf, pos, IntBytes(m.wipedCounter));
    assert buf[..pos] == payload;
    payload := payload + IntBytes(m.minWipedIndex);
    pos := Put(buf, pos, IntBytes(m.minWipedIndex));
    assert buf[..PAYLOAD_SIZE] == payload;
    assert buf[PAYLOAD_SIZE..] == seq(HEADER_SIZE - PAYLOAD_SIZE, _ => 0);
    r := buf[..];
    assert r == buf[..PAYLOAD_SIZE] + buf[PAYLOAD_SIZE..];
  }

  /** `new Metadata(byte[])`: checks the magic chars one by one, then reads the fields. */
  method DecodeMetadataBytes(b: seq<byte>) returns (r: Result<Metadata, DecodeError>)
    ensures r == DecodeMetadata(b)
  {
    var pos := 0;
    for i := 0 to |MAGIC|
      invariant pos == 2 * i
      invariant CheckMagic(b, 0) == CheckMagic(b, i)
    {
      if |b| < pos + 2 {
        return Failure(BufferUnderflow);
      }
      if GetChar(b, pos) != MAGIC[i] {
        return Failure(InvalidMagic);
      }
      pos := pos + 2;
    }
    if |b| < PAYLOAD_SIZE {
      return Failure(BufferUnderflow);
    }
    r := Success(Metadata(GetInt(b, 6), GetLong(b, 10), GetInt(b, 18), GetInt(b, 22)));
  }

  /** Decoding what `getBytes` wrote restores every field. */
  lemma MetadataRoundTrip(m: Metadata)
    ensures DecodeMetadata(EncodeMetadata(m)) == Success(m)
  {
    var b := EncodeMetadata(m);
    ConcatParts(CharsBytes(MAGIC), IntBytes(m.version), LongBytes(m.idCounter),
      IntBytes(m.wipedCounter) + IntBytes(m.minWipedIndex) + seq(HEADER_SIZE - PAYLOAD_SIZE, _ => 0));
    assert b[..6] == CharsBytes(MAGIC);
    forall k | 0 <= k < |MAGIC| ensures MagicCharOk(b, k) {
      CharsRoundTrip(b, 0, MAGIC, k);
    }
    IntRoundTrip(b, 6, m.version);
    LongRoundTrip(b, 10, m.idCounter);
    ConcatParts(CharsBytes(MAGIC) + IntBytes(m.version) + LongBytes(m.idCounter), IntBytes(m.wipedCounter),
      IntBytes(m.minWipedIndex), seq(HEADER_SIZE - PAYLOAD_SIZE, _ => 0));
    IntRoundTrip(b, 18, m.wipedCounter);
    IntRoundTrip(b, 22, m.minWipedIndex);
  }

  /**
   * A header of at least six bytes whose first three chars are not `p`, `k`,
   * `b` is refused as an invalid magic.
   */
  lemma BadMagicRejected(b: seq<byte>)
    requires |b| >= 2 * |MAGIC|
    requires exists k :: 0 <= k < |MAGIC| && GetChar(b, 2 * k) != MAGIC[k]
    ensures DecodeMetadata(b) == Failure(InvalidMagic)
  {
    assert !MagicCharOk(b, 0) || !MagicCharOk(b, 1) || !MagicCharOk(b, 2);
  }
}
