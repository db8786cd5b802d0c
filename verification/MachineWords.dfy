/** How many values the C integer types of the repository have (CommonLib/inc/data_type.h). */
module MachineWords {
  const BYTE_VALUES: int := 0x100
  const WORD_VALUES: int := 0x1_0000
  const DWORD_VALUES: int := 0x1_0000_0000
  const QWORD_VALUES: int := 0x1_0000_0000_0000_0000
  const INT64_LIMIT: int := 0x8000_0000_0000_0000
  const MAX_DWORD: int := DWORD_VALUES - 1

  type Byte = b: int | 0 <= b < BYTE_VALUES
  type Word = w: int | 0 <= w < WORD_VALUES
}
