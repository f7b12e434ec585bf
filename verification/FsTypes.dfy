/** File descriptors, limits and results shared by the physical and logical layers. */
module FsTypes {
  import opened Bytes

  const MAX_FILES := 32
  const DESC_SIZE := 20
  const SB_SIZE := 16
  const MAX_EF_SIZE := 32767
  const MAX_DEPTH := 8

  const FID_MF: u16 := 0x3F00
  const INVALID_INDEX: u16 := 0xFFFF
  const NO_PARENT: u16 := 0xFFFF
  const NO_SFI: byte := 0

  const TYPE_MF: byte := 0x01
  const TYPE_DF: byte := 0x02
  const TYPE_EF: byte := 0x03
  const TYPE_FREE: byte := 0xFF

  const LC_CREATION: byte := 0x01
  const LC_INITIALISED: byte := 0x03
  const LC_ACTIVATED: byte := 0x05
  const LC_DEACTIVATED: byte := 0x04

  datatype Desc = Desc(fid: u16, ftype: byte, lc: byte, parent: u16, size: u16, off: u32,
                       acRead: byte, acUpdate: byte, sfi: byte, flags: byte)
  {
    predicate IsDf() {
      ftype == TYPE_DF || ftype == TYPE_MF
    }

    predicate IsEf() {
      ftype == TYPE_EF
    }

    predicate Usable() {
      lc == LC_ACTIVATED
    }
  }

  datatype Status =
    | Ok | ErrParam | ErrNotFound | ErrCorrupt | ErrNoSpace | ErrExists | ErrNotUsable
    | ErrWrongType | ErrRange | ErrNvm | ErrNotFormatted | ErrVersion

  datatype Result<+T> = Success(value: T) | Failure(error: Status)

  /** What a descriptor slot reads as. */
  datatype Slot = Free | Corrupt | Live(desc: Desc)

  /** The current DF and, unless INVALID_INDEX, the current EF. */
  datatype Selection = Selection(df: u16, ef: u16)
  {
    function Index(): u16 {
      if ef != INVALID_INDEX then ef else df
    }
  }
}
