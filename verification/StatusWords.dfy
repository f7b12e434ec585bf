/** Status words of ISO/IEC 7816-4 that the card answers with. */
module StatusWords {
  import opened Bytes

  const SW_OK: u16 := 0x9000
  const SW_END_OF_FILE: u16 := 0x6282
  const SW_MEMORY_FAILURE: u16 := 0x6581
  const SW_WRONG_LENGTH: u16 := 0x6700
  const SW_CHANNEL_NOT_SUPPORTED: u16 := 0x6881
  const SW_SM_NOT_SUPPORTED: u16 := 0x6882
  const SW_CHAINING_NOT_SUPPORTED: u16 := 0x6884
  const SW_INCOMPATIBLE_FILE: u16 := 0x6981
  const SW_CONDITIONS_NOT_SATISFIED: u16 := 0x6985
  const SW_NO_CURRENT_EF: u16 := 0x6986
  const SW_WRONG_DATA: u16 := 0x6A80
  const SW_FUNC_NOT_SUPPORTED: u16 := 0x6A81
  const SW_FILE_NOT_FOUND: u16 := 0x6A82
  const SW_NOT_ENOUGH_SPACE: u16 := 0x6A84
  const SW_INCORRECT_P1P2: u16 := 0x6A86
  const SW_LC_INCONSISTENT: u16 := 0x6A87
  const SW_FILE_EXISTS: u16 := 0x6A89
  const SW_WRONG_P1P2: u16 := 0x6B00
  const SW_INS_NOT_SUPPORTED: u16 := 0x6D00
  const SW_CLA_NOT_SUPPORTED: u16 := 0x6E00
  const SW_NO_DIAGNOSIS: u16 := 0x6F00

  /** 6Cxx: the length the reader should have asked for. */
  function WrongLe(n: nat): u16 {
    0x6C00 + n % 0x100
  }
}
