/** Short command APDUs: the four cases of ISO/IEC 7816-4, and the class byte. */
module Apdu {
  import opened Bytes
  import opened StatusWords

  datatype Case = Case1 | Case2 | Case3 | Case4

  /**
    A parsed command. `data` is the data field, which is always the part of the
    input after Lc; `le` is normalised, a wire value of 00 being 256.
   */
  datatype Command = Command(cla: byte, ins: byte, p1: byte, p2: byte,
                             data: seq<byte>, le: nat, lePresent: bool, shape: Case)

  datatype Parsing = Parsed(cmd: Command) | TooShort | BadLength | Extended

  function WireLe(b: byte): nat {
    if b == 0 then 256 else b
  }

  function Parse(buf: seq<byte>): Parsing {
    if |buf| < 4 then TooShort
    else if |buf| == 4 then
      Parsed(Command(buf[0], buf[1], buf[2], buf[3], [], 0, false, Case1))
    else if |buf| == 5 then
      Parsed(Command(buf[0], buf[1], buf[2], buf[3], [], WireLe(buf[4]), true, Case2))
    else if buf[4] == 0 then Extended
    else if |buf| - 5 == buf[4] then
      Parsed(Command(buf[0], buf[1], buf[2], buf[3], buf[5..], 0, false, Case3))
    else if |buf| - 6 == buf[4] then
      Parsed(Command(buf[0], buf[1], buf[2], buf[3], buf[5..|buf| - 1], WireLe(buf[|buf| - 1]), true, Case4))
    else BadLength
  }

  function ParsingSw(p: Parsing): u16 {
    match p
    case Parsed(_) => SW_OK
    case TooShort => SW_WRONG_LENGTH
    case BadLength => SW_WRONG_LENGTH
    case Extended => SW_FUNC_NOT_SUPPORTED
  }

  /** What a short command can be: Lc 1..255 when there is data, Le 1..256 when present. */
  predicate Short(c: Command) {
    && |c.data| <= 255
    && (if c.lePresent then 1 <= c.le <= 256 else c.le == 0)
    && c.shape == (if c.data == [] then if c.lePresent then Case2 else Case1
                   else if c.lePresent then Case4 else Case3)
  }

  function Encode(c: Command): seq<byte>
    requires Short(c)
  {
    [c.cla, c.ins, c.p1, c.p2]
    + (if c.data == [] then [] else [|c.data|] + c.data)
    + (if c.lePresent then [c.le % 256] else [])
  }

  /** Every short command is accepted and read back as itself. */
  lemma ParseOfEncode(c: Command)
    requires Short(c)
    ensures Parse(Encode(c)) == Parsed(c)
  {
    var buf := Encode(c);
    if c.data != [] {
      assert buf[5..5 + |c.data|] == c.data;
      if !c.lePresent {
        assert buf[5..] == c.data;
      }
    }
  }

  /** Whatever is accepted is a short command, and re-encoding it gives back the input. */
  lemma EncodeOfParse(buf: seq<byte>)
    requires Parse(buf).Parsed?
    ensures Short(Parse(buf).cmd) && Encode(Parse(buf).cmd) == buf
  {
    var c := Parse(buf).cmd;
    if |buf| > 5 {
      assert buf == buf[..4] + [buf[4]] + buf[5..];
      if c.shape == Case4 {
        assert buf[5..] == c.data + [buf[|buf| - 1]];
      }
    }
  }

  datatype ClaStatus = ClaOk | ClaInvalid | ClaChannel | ClaSecureMessaging | ClaChaining

  function CheckCla(cla: byte): ClaStatus {
    if cla == 0xFF then ClaInvalid
    else if cla / 0x20 != 0 then ClaInvalid
    else if cla / 0x10 % 2 != 0 then ClaChaining
    else if cla / 4 % 4 != 0 then ClaSecureMessaging
    else if cla % 4 != 0 then ClaChannel
    else ClaOk
  }

  function ClaSw(s: ClaStatus): u16 {
    match s
    case ClaOk => SW_OK
    case ClaChannel => SW_CHANNEL_NOT_SUPPORTED
    case ClaSecureMessaging => SW_SM_NOT_SUPPORTED
    case ClaChaining => SW_CHAINING_NOT_SUPPORTED
    case ClaInvalid => SW_CLA_NOT_SUPPORTED
  }

  /** Class zero is the only one served. */
  lemma OnlyClassZero(cla: byte)
    ensures CheckCla(cla) == ClaOk <==> cla == 0
  {}
}
