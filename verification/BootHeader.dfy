/**
  The sixteen-byte OS slot header: magic, version, image length, image CRC,
  CRC of those twelve bytes, and a state word the CRC does not cover.
 */
module BootHeader {
  import opened Bytes
  import opened Crc16

  datatype Option<T> = None | Some(value: T)

  datatype Header = Header(length: u32, imageCrc: u16, state: u16, version: u16)

  const HDR_SIZE := 16
  const VERSION: u16 := 1
  const STATE_LOADED: u16 := 0xFFFF
  const STATE_ACTIVE: u16 := 0x0000

  /** 'S' 'C' 'O' 'S' */
  const MAGIC: seq<byte> := [0x53, 0x43, 0x4F, 0x53]

  function Parse(raw: seq<byte>): (h: Option<Header>)
    requires |raw| >= HDR_SIZE
  {
    if raw[..4] != MAGIC then None
    else if Num16(raw[4..6]) != VERSION then None
    else if Num16(raw[12..14]) != Crc(raw[..12]) then None
    else Some(Header(Num32(raw[6..10]), Num16(raw[10..12]), Num16(raw[14..16]), Num16(raw[4..6])))
  }

  /** The twelve bytes the header CRC covers. */
  ghost function Body(length: u32, imageCrc: u16): (s: seq<byte>)
    ensures |s| == 12
  {
    MAGIC + Be16(VERSION) + Be32(length) + Be16(imageCrc)
  }

  /** Header bytes 0..13: everything but the state word. */
  ghost function Sealed(length: u32, imageCrc: u16): (s: seq<byte>)
    ensures |s| == 14
  {
    Body(length, imageCrc) + Be16(Crc(Body(length, imageCrc)))
  }

  /** What VERIFY programs: the state word is left erased. */
  ghost function Serialised(length: u32, imageCrc: u16): (s: seq<byte>)
    ensures |s| == HDR_SIZE
  {
    Sealed(length, imageCrc) + [ERASED, ERASED]
  }

  /** Magic, version, length and image CRC, in place. */
  method FillBody(raw: array<byte>, length: u32, imageCrc: u16)
    requires raw.Length >= HDR_SIZE
    modifies raw
    ensures raw[..12] == Body(length, imageCrc) && raw[12..] == old(raw[12..])
  {
    hide Be16, Be32, Num16, Num32;
    raw[0], raw[1], raw[2], raw[3] := 0x53, 0x43, 0x4F, 0x53;
    PutU16(raw, 4, VERSION);
    PutU32(raw, 6, length);
    assert raw[..10] == MAGIC + Be16(VERSION) + Be32(length);
    PutU16(raw, 10, imageCrc);
  }

  /** The body and, over it, the header's own CRC. */
  method FillSealed(raw: array<byte>, length: u32, imageCrc: u16)
    requires raw.Length >= HDR_SIZE
    modifies raw
    ensures raw[..14] == Sealed(length, imageCrc)
    ensures raw[HDR_SIZE..] == old(raw[HDR_SIZE..])
  {
    hide Crc, Be16, Num16, Body;
    FillBody(raw, length, imageCrc);
    ghost var tail := raw[12..];
    assert raw[HDR_SIZE..] == tail[4..];
    var crc := Compute(raw, 12);
    PutU16(raw, 12, crc);
    assert raw[..12] == Body(length, imageCrc);
  }

  method Serialise(h: Header, raw: array<byte>)
    requires raw.Length == HDR_SIZE
    modifies raw
    ensures raw[..] == Serialised(h.length, h.imageCrc)
  {
    hide Sealed;
    FillSealed(raw, h.length, h.imageCrc);
    raw[14] := ERASED;
    raw[15] := ERASED;
    assert raw[..14] == Sealed(h.length, h.imageCrc);
  }

  /**
    A header parses exactly when its first fourteen bytes are the sealed form
    of the length and image CRC it reports; the state word is reported as is.
   */
  lemma ParseExactly(raw: seq<byte>, length: u32, imageCrc: u16)
    requires |raw| >= HDR_SIZE
    ensures raw[..14] == Sealed(length, imageCrc) <==>
              Parse(raw) == Some(Header(length, imageCrc, Num16(raw[14..16]), VERSION))
  {
    if raw[..14] == Sealed(length, imageCrc) {
      SealedParses(raw, length, imageCrc);
    } else if Parse(raw) == Some(Header(length, imageCrc, Num16(raw[14..16]), VERSION)) {
      ParsedIsSealed(raw);
    }
  }

  lemma SealedFields(length: u32, imageCrc: u16)
    ensures var s := Sealed(length, imageCrc);
            && s[..4] == MAGIC && s[4..6] == Be16(VERSION)
            && s[6..10] == Be32(length) && s[10..12] == Be16(imageCrc)
            && s[12..14] == Be16(Crc(s[..12]))
  {
    assert Sealed(length, imageCrc)[..12] == Body(length, imageCrc);
  }

  lemma SealedParses(raw: seq<byte>, length: u32, imageCrc: u16)
    requires |raw| >= HDR_SIZE && raw[..14] == Sealed(length, imageCrc)
    ensures Parse(raw) == Some(Header(length, imageCrc, Num16(raw[14..16]), VERSION))
  {
    SealedFields(length, imageCrc);
    var s := raw[..14];
    assert raw[..4] == s[..4] && raw[4..6] == s[4..6] && raw[6..10] == s[6..10];
    assert raw[10..12] == s[10..12] && raw[12..14] == s[12..14] && raw[..12] == s[..12];
  }

  lemma BodyFromFields(raw: seq<byte>)
    requires |raw| == 12 && raw[..4] == MAGIC && Num16(raw[4..6]) == VERSION
    ensures raw == Body(Num32(raw[6..10]), Num16(raw[10..12]))
  {
    Num16Injective(raw[4..6], Be16(VERSION));
    Num32Injective(raw[6..10], Be32(Num32(raw[6..10])));
    Num16Injective(raw[10..12], Be16(Num16(raw[10..12])));
    assert raw == raw[..4] + raw[4..6] + raw[6..10] + raw[10..12];
  }

  lemma ParsedIsSealed(raw: seq<byte>)
    requires |raw| >= HDR_SIZE && Parse(raw).Some?
    ensures raw[..14] == Sealed(Parse(raw).value.length, Parse(raw).value.imageCrc)
  {
    var s := raw[..12];
    assert s[..4] == raw[..4] && s[4..6] == raw[4..6] && s[6..10] == raw[6..10] && s[10..12] == raw[10..12];
    BodyFromFields(s);
    Num16Injective(raw[12..14], Be16(Crc(s)));
    assert raw[..14] == s + raw[12..14];
  }

  /** Damage inside two adjacent bytes of the sealed part is never read as a header. */
  lemma DamagedHeaderIsBlank(raw: seq<byte>, bad: seq<byte>, k: nat)
    requires |raw| >= HDR_SIZE && |bad| >= HDR_SIZE
    requires Parse(raw).Some? && DamagedPair(raw[..14], bad[..14], k)
    ensures Parse(bad) == None
  {
    if Parse(bad).Some? {
      SealedResidue(raw);
      SealedResidue(bad);
      PairDetected(raw[..14], bad[..14], k);
    }
  }

  lemma SealedResidue(raw: seq<byte>)
    requires |raw| >= HDR_SIZE && Parse(raw).Some?
    ensures Crc(raw[..14]) == 0
  {
    assert raw[..14] == raw[..12] + [raw[12], raw[13]];
    assert raw[12..14] == [raw[12], raw[13]];
    Residue(raw[..12], raw[12], raw[13]);
  }
}
