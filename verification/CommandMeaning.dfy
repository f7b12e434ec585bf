/**
  The five commands told over the file map alone: for every command, its status
  word, its response data, the selection it leaves and the change it makes. No
  slot table, NVM write or handler occurs here.
 */
module CommandMeaning {
  import opened Bytes
  import opened Apdu
  import opened FsTypes
  import opened FileMap
  import opened FcpExactly
  import opened AbstractCard
  import opened CardMachine
  import T = Tlv

  /** What a command comes to. */
  datatype Told = Told(sw: u16, data: seq<byte>, sel: Selection, change: Change)

  function Refusal(sw: u16, sel: Selection): Told {
    Told(sw, [], sel, Keep)
  }

  const NONE: u16 := 0xFFFF

  predicate Activated(d: Desc) {
    d.lc == 0x05
  }

  predicate Elementary(d: Desc) {
    d.ftype == 0x03
  }

  /** File i lies in this DF and has this identifier. */
  ghost predicate InDf(m: map<nat, File>, df: u16, fid: u16, i: u16) {
    i as nat in m && m[i].desc.parent == df && m[i].desc.fid == fid
  }

  // ------------------------------------------------------------------ SELECT

  /** Where a selection goes, or why it stays. */
  datatype Pick = Go(sel: Selection) | Stay(sw: u16)

  /** A DF becomes the current DF; an EF becomes current together with the DF it lies in. */
  ghost function Place(m: map<nat, File>, i: u16): Selection
    requires i as nat in m
  {
    if Elementary(m[i].desc) then Selection(m[i].desc.parent, i) else Selection(i, NONE)
  }

  ghost function Opened(m: map<nat, File>, i: u16): Pick
    requires i as nat in m
  {
    if Activated(m[i].desc) then Go(Place(m, i)) else Stay(0x6985)
  }

  /** What an identifier means: the MF; else a file of the current DF; else that DF itself; else its parent. */
  ghost predicate Meant(m: map<nat, File>, df: u16, fid: u16, i: u16) {
    && i as nat in m
    && if fid == 0x3F00 then i == 0
       else if exists j: u16 :: InDf(m, df, fid, j) then InDf(m, df, fid, i)
       else
         && m[i].desc.fid == fid
         && if df as nat in m && m[df].desc.fid == fid then i == df
            else df as nat in m && m[df].desc.parent == i
  }

  ghost function ByName(m: map<nat, File>, df: u16, fid: u16): Pick {
    if exists i: u16 :: Meant(m, df, fid, i) then
      var i: u16 :| Meant(m, df, fid, i);
      Opened(m, i)
    else Stay(0x6A82)
  }

  /** A file of the current DF that must be a DF, or must be an EF. */
  ghost function ByType(m: map<nat, File>, df: u16, fid: u16, wantDf: bool): Pick {
    if exists i: u16 :: InDf(m, df, fid, i) then
      var i: u16 :| InDf(m, df, fid, i);
      if !Activated(m[i].desc) then Stay(0x6985)
      else if wantDf == Elementary(m[i].desc) then Stay(0x6981)
      else Go(Place(m, i))
    else Stay(0x6A82)
  }

  ghost function Up(m: map<nat, File>, df: u16): Pick {
    if df as nat in m && m[df].desc.parent as nat in m then Opened(m, m[df].desc.parent) else Stay(0x6A82)
  }

  /** Down a list of identifiers, one file below the other. */
  ghost function Down(m: map<nat, File>, df: u16, fids: seq<u16>): Pick
    requires fids != []
    decreases |fids|
  {
    if exists i: u16 :: InDf(m, df, fids[0], i) then
      var i: u16 :| InDf(m, df, fids[0], i);
      if !Activated(m[i].desc) then Stay(0x6985)
      else if |fids| == 1 then Go(Place(m, i))
      else if Elementary(m[i].desc) then Stay(0x6981)
      else Down(m, i, fids[1..])
    else Stay(0x6A82)
  }

  /** The identifiers of a path, two bytes each. */
  ghost function Components(path: seq<byte>): (fids: seq<u16>)
    requires |path| % 2 == 0
    ensures |fids| == |path| / 2
  {
    seq(|path| / 2, k requires 0 <= k < |path| / 2 => U16(path[2 * k], path[2 * k + 1]))
  }

  /** At most eight components, of which the first may be the starting DF itself. */
  ghost function ByPath(m: map<nat, File>, start: Selection, fids: seq<u16>): Pick
    requires fids != []
  {
    if |fids| > 8 then Stay(0x6A86)
    else if start.df as nat in m && m[start.df].desc.fid == fids[0] then
      if |fids| == 1 then Go(start) else Down(m, start.df, fids[1..])
    else Down(m, start.df, fids)
  }

  ghost function Wanted(m: map<nat, File>, sel: Selection, c: Command): Pick {
    var n := |c.data|;
    if c.p1 == 0x00 then
      if n == 0 then ByName(m, sel.df, 0x3F00)
      else if n == 2 then ByName(m, sel.df, U16(c.data[0], c.data[1]))
      else Stay(0x6A87)
    else if c.p1 == 0x01 || c.p1 == 0x02 then
      if n == 2 then ByType(m, sel.df, U16(c.data[0], c.data[1]), c.p1 == 0x01) else Stay(0x6A87)
    else if c.p1 == 0x03 then
      if n == 0 then Up(m, sel.df) else Stay(0x6A87)
    else if c.p1 == 0x08 || c.p1 == 0x09 then
      if n == 0 then Stay(0x6A87)
      else if n % 2 == 1 then Stay(0x6A80)
      else ByPath(m, if c.p1 == 0x08 then Selection(0, NONE) else sel, Components(c.data))
    else Stay(if c.p1 == 0x04 then 0x6A81 else 0x6A86)
  }

  /** A file's control parameters: type, identifier, size of an EF, life cycle, short identifier of an EF. */
  ghost function Parameters(d: Desc): (s: seq<byte>)
    ensures |s| < 0x80
  {
    T.Encoded(0x82, [if Elementary(d) then 0x01 else 0x38])
    + T.Encoded(0x83, Be16(d.fid))
    + (if Elementary(d) then T.Encoded(0x80, Be16(d.size)) else [])
    + T.Encoded(0x8A, [d.lc])
    + (if Elementary(d) && d.sfi != 0 then T.Encoded(0x88, [8 * d.sfi % 0x100]) else [])
  }

  ghost function SelectTold(m: map<nat, File>, sel: Selection, c: Command, cap: nat): Told {
    if c.p2 >= 0x10 then Refusal(0x6A86, sel)
    else if c.p2 % 4 != 0 then Refusal(0x6A81, sel)
    else match Wanted(m, sel, c)
      case Stay(sw) => Refusal(sw, sel)
      case Go(next) =>
        var i := if next.ef == NONE then next.df else next.ef;
        if c.p2 == 0x08 then Refusal(0x6A81, sel)
        else if c.p2 == 0x0C || !c.lePresent then Told(0x9000, [], next, Keep)
        else if i as nat !in m then Refusal(0x6A82, sel)
        else
          var out := T.Encoded(if c.p2 == 0x04 then 0x62 else 0x6F, Parameters(m[i].desc));
          if c.le < |out| then Refusal(0x6C00 + |out|, sel)
          else if |out| + 2 > cap then Refusal(0x6F00, sel)
          else Told(0x9000, out, next, Keep)
  }

  // ---------------------------------------------------------- READ and UPDATE

  /** The file and offset that P1-P2 name, or why there is none. */
  datatype Where = There(i: u16, off: u16) | Nowhere(sw: u16)

  ghost predicate HasSfi(m: map<nat, File>, df: u16, sfi: byte, i: u16) {
    i as nat in m && m[i].desc.parent == df && Elementary(m[i].desc) && m[i].desc.sfi == sfi
  }

  ghost function ByShort(m: map<nat, File>, df: u16, sfi: byte, off: u16): Where {
    if exists i: u16 :: HasSfi(m, df, sfi, i) then
      var i: u16 :| HasSfi(m, df, sfi, i);
      There(i, off)
    else Nowhere(0x6A82)
  }

  ghost function Addressed(m: map<nat, File>, sel: Selection, p1: byte, p2: byte): Where {
    if p1 < 0x80 then
      if sel.ef == NONE then Nowhere(0x6986) else There(sel.ef, U16(p1, p2))
    else if p1 == 0x80 || p1 > 0x9E then Nowhere(0x6A86)
    else ByShort(m, sel.df, p1 - 0x80, p2)
  }

  ghost function ReadTold(m: map<nat, File>, sel: Selection, c: Command, cap: nat): Told {
    if c.data != [] then Refusal(0x6A87, sel)
    else if !c.lePresent then Refusal(0x6700, sel)
    else match Addressed(m, sel, c.p1, c.p2)
      case Nowhere(sw) => Refusal(sw, sel)
      case There(i, off) =>
        if i as nat !in m then Refusal(0x6A82, sel)
        else if c.le > 256 then Refusal(0x6F00, sel)
        else if !Activated(m[i].desc) then Refusal(0x6985, sel)
        else if off > |m[i].content| then Refusal(0x6B00, sel)
        else
          var whole := off + c.le <= |m[i].content|;
          var out := if whole then m[i].content[off..off + c.le] else m[i].content[off..];
          if out != [] && |out| + 2 > cap then Refusal(0x6F00, sel)
          else Told(if whole then 0x9000 else 0x6282, out, sel, Keep)
  }

  ghost function UpdateTold(m: map<nat, File>, sel: Selection, c: Command): Told {
    if c.data == [] || c.lePresent then Refusal(0x6700, sel)
    else match Addressed(m, sel, c.p1, c.p2)
      case Nowhere(sw) => Refusal(sw, sel)
      case There(i, off) =>
        if i as nat !in m then Refusal(0x6A82, sel)
        else if !Activated(m[i].desc) then Refusal(0x6985, sel)
        else if off + |c.data| > |m[i].content| then Refusal(0x6B00, sel)
        else Told(0x9000, [], sel, Patch(i, off, c.data))
  }

  // -------------------------------------------------------- CREATE and DELETE

  /** The new file: the requested fields, this DF as its parent, an EF at the bump pointer, contents erased. */
  ghost function Fresh(req: Desc, df: u16, top: u32): File {
    File(Desc(req.fid, req.ftype, req.lc, df, req.size, if Elementary(req) then top else 0, 0, 0, req.sfi, 0),
         Fill(req.size, ERASED))
  }

  ghost function CreateTold(m: map<nat, File>, top: u32, size: nat, sel: Selection, c: Command): Told {
    if c.p1 != 0 || c.p2 != 0 then Refusal(0x6A86, sel)
    else if c.data == [] then Refusal(0x6700, sel)
    else match Wish(c.data)
      case Rejected(sw) => Refusal(sw, sel)
      case Request(req) =>
        if req.fid == 0x3F00 || req.fid == 0xFFFF || Taken(m, sel.df, req) then Refusal(0x6A89, sel)
        else if exists i: nat :: IsNextSlot(m, i) then
          var i: nat :| IsNextSlot(m, i);
          if Elementary(req) && top + req.size > size then Refusal(0x6A84, sel)
          else Told(0x9000, [], sel, Add(i, Fresh(req, sel.df, top)))
        else Refusal(0x6A84, sel)
  }

  ghost function DeleteTold(m: map<nat, File>, sel: Selection, c: Command): Told {
    if c.p1 != 0 || c.p2 != 0 then Refusal(0x6A86, sel)
    else if |c.data| != 2 then Refusal(0x6700, sel)
    else
      var fid := U16(c.data[0], c.data[1]);
      if fid == 0x3F00 then Refusal(0x6985, sel)
      else if exists i: u16 :: InDf(m, sel.df, fid, i) then
        var i: u16 :| InDf(m, sel.df, fid, i);
        if HasChild(m, i) then Refusal(0x6985, sel)
        else Told(0x9000, [], Selection(sel.df, if sel.ef == i then NONE else sel.ef), Remove(i))
      else Refusal(0x6A82, sel)
  }

  // ------------------------------------------------------------- any command

  ghost function CommandTold(m: map<nat, File>, top: u32, size: nat, sel: Selection, c: Command, cap: nat): Told {
    if c.ins == 0xA4 then SelectTold(m, sel, c, cap)
    else if c.ins == 0xB0 then ReadTold(m, sel, c, cap)
    else if c.ins == 0xD6 then UpdateTold(m, sel, c)
    else if c.ins == 0xE0 then CreateTold(m, top, size, sel, c)
    else if c.ins == 0xE4 then DeleteTold(m, sel, c)
    else Refusal(0x6D00, sel)
  }

  /** This string is this short command. */
  ghost predicate Spells(cmd: seq<byte>, c: Command) {
    Short(c) && Encode(c) == cmd
  }

  /** Class 00 is served; the other first-interindustry classes are refused for what they ask. */
  function ClassWord(cla: byte): u16 {
    if cla == 0x00 then 0x9000
    else if cla < 0x04 then 0x6881
    else if cla < 0x10 then 0x6882
    else if cla < 0x20 then 0x6884
    else 0x6E00
  }

  ghost function StringTold(m: map<nat, File>, top: u32, size: nat, sel: Selection, cmd: seq<byte>, cap: nat): Told {
    if exists c :: Spells(cmd, c) then
      var c :| Spells(cmd, c);
      if ClassWord(c.cla) == 0x9000 then CommandTold(m, top, size, sel, c, cap) else Refusal(ClassWord(c.cla), sel)
    else Refusal(if |cmd| > 5 && cmd[4] == 0 then 0x6A81 else 0x6700, sel)
  }

  // ---------------------------------------------------------- what it takes

  /** How many NVM writes a change is made of: an EF takes its space before its slot. */
  function Writes(ch: Change): nat {
    match ch
    case Keep => 0
    case Add(_, f) => if Elementary(f.desc) then 2 else 1
    case _ => 1
  }

  /** The bump pointer after the first n of them. */
  function TopOf(top: u32, ch: Change, n: nat): u32 {
    if ch.Add? && Elementary(ch.file.desc) && n > 0 && top + ch.file.desc.size < 0x1_0000_0000
    then top + ch.file.desc.size else top
  }
}
