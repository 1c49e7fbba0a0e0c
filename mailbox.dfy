/*
 * The wire layout of the PRUSS shared-RAM mailbox: opcodes, word indices,
 * the byte/word conversions the host performs, and the mailbox contents
 * each host operation leaves behind when it raises the command.
 *
 * The mailbox is a sequence of 32-bit words:
 *   word 0      opcode (0 = idle)
 *   word 1      address
 *   word 2      byte count (READ_FLASH), page size (PROGRAM_FLASH),
 *               returned byte (READ_SIGNATURE)
 *   word 3      byte count (PROGRAM_FLASH)
 *   word 4      unused
 *   word 5..    payload, one byte in the low 8 bits of each word
 */
module Mailbox {

  /** The C integer types the protocol moves around, with their exact ranges. */
  newtype uint8 = x: int | 0 <= x < 0x100
  newtype uint32 = x: int | 0 <= x < 0x1_0000_0000
  newtype uint64 = x: int | 0 <= x < 0x1_0000_0000_0000_0000

  // Opcodes written to word 0.
  const CMD_READ_SIGNATURE: uint32 := 0x12
  const CMD_CHIP_ERASE: uint32 := 0x13
  const CMD_PROGRAM_FLASH: uint32 := 0x14
  const CMD_READ_FLASH: uint32 := 0x15

  // Word indices.
  const OPCODE: nat := 0
  const ADDRESS: nat := 1
  const ARG2: nat := 2
  const ARG3: nat := 3
  const PAYLOAD: nat := 5

  /** Bytes a paged load always copies back, one per payload word. */
  const PAGE_BYTES: nat := 256

  /** memset(shared_ram, 0, 1024) clears 1024 bytes, that is 256 words. */
  const CLEARED_WORDS: nat := 1024 / 4

  /** The smallest mailbox the paged load can address: 5 header words + 256 payload words. */
  const MAILBOX_WORDS: nat := PAYLOAD + PAGE_BYTES

  /** The (uint8_t) / (unsigned char) narrowing of a mailbox word: its low 8 bits. */
  function LowByte(w: uint32): (b: uint8)
    ensures (w as int - b as int) % 0x100 == 0
    ensures w < 0x100 ==> b as uint32 == w
  {
    (w % 0x100) as uint8
  }

  /** Widening a byte into a word and narrowing it back gives the byte. */
  lemma WidenNarrow(b: uint8)
    ensures LowByte(b as uint32) == b
  {
  }

  /** The (unsigned int) cast of an unsigned long address: its low 32 bits. */
  function Truncate32(x: uint64): (r: uint32)
    ensures (x as int - r as int) % 0x1_0000_0000 == 0
    ensures x < 0x1_0000_0000 ==> r as uint64 == x
  {
    (x % 0x1_0000_0000) as uint32
  }

  /** The mailbox after memset(shared_ram, 0, 1024): the first 256 words are
      zero, every later word keeps its value. */
  function Cleared(m: seq<uint32>): (r: seq<uint32>)
    requires CLEARED_WORDS <= |m|
    ensures |r| == |m|
    ensures forall j :: 0 <= j < CLEARED_WORDS ==> r[j] == 0
    ensures forall j :: CLEARED_WORDS <= j < |m| ==> r[j] == m[j]
  {
    seq(CLEARED_WORDS, _ => 0) + m[CLEARED_WORDS..]
  }

  /** The mailbox after the clear and the first n steps of the payload copy
      of paged_write: payload word 5+i holds buffer byte addr+i for i < n;
      the rest is as Cleared leaves it. */
  function Staged(m: seq<uint32>, buf: seq<uint8>, addr: nat, n: nat): (r: seq<uint32>)
    requires CLEARED_WORDS <= |m| && PAYLOAD + n <= |m| && addr + n <= |buf|
    ensures |r| == |m|
    ensures forall j :: PAYLOAD <= j < PAYLOAD + n ==> r[j] == buf[addr + j - PAYLOAD] as uint32
    ensures forall j :: 0 <= j < CLEARED_WORDS && !(PAYLOAD <= j < PAYLOAD + n) ==> r[j] == 0
    ensures forall j :: CLEARED_WORDS <= j < |m| && !(PAYLOAD <= j < PAYLOAD + n) ==> r[j] == m[j]
    decreases n
  {
    if n == 0 then Cleared(m)
    else Staged(m, buf, addr, n - 1)[PAYLOAD + n - 1 := buf[addr + n - 1] as uint32]
  }

  /** The mailbox chip_erase hands to the coprocessor: only word 0 changes. */
  function EraseRequest(m: seq<uint32>): (r: seq<uint32>)
    requires MAILBOX_WORDS <= |m|
    ensures |r| == |m| && r[OPCODE] == CMD_CHIP_ERASE
    ensures forall j :: 0 < j < |m| ==> r[j] == m[j]
  {
    m[OPCODE := CMD_CHIP_ERASE]
  }

  /** The mailbox read_byte hands to the coprocessor for the signature region:
      word 1 holds the address, word 0 the opcode, nothing else changes. */
  function SignatureRequest(m: seq<uint32>, addr: uint32): (r: seq<uint32>)
    requires MAILBOX_WORDS <= |m|
    ensures |r| == |m| && r[OPCODE] == CMD_READ_SIGNATURE && r[ADDRESS] == addr
    ensures forall j :: ADDRESS < j < |m| ==> r[j] == m[j]
  {
    m[ADDRESS := addr][OPCODE := CMD_READ_SIGNATURE]
  }

  /** The mailbox paged_load hands to the coprocessor for the flash region. */
  function LoadRequest(m: seq<uint32>, addr: uint32, n: uint32): (r: seq<uint32>)
    requires MAILBOX_WORDS <= |m|
    ensures |r| == |m|
    ensures r[OPCODE] == CMD_READ_FLASH && r[ADDRESS] == addr && r[ARG2] == n
    ensures forall j :: ARG3 <= j < CLEARED_WORDS ==> r[j] == 0
    ensures forall j :: CLEARED_WORDS <= j < |m| ==> r[j] == m[j]
  {
    Cleared(m)[ADDRESS := addr][ARG2 := n][OPCODE := CMD_READ_FLASH]
  }

  /** The mailbox paged_write hands to the coprocessor for the flash region. */
  function WriteRequest(m: seq<uint32>, buf: seq<uint8>, addr: uint32, pageSize: uint32, n: uint32): (r: seq<uint32>)
    requires MAILBOX_WORDS <= |m| && PAYLOAD + n as nat <= |m| && addr as nat + n as nat <= |buf|
    ensures |r| == |m|
    ensures r[OPCODE] == CMD_PROGRAM_FLASH && r[ADDRESS] == addr && r[ARG2] == pageSize && r[ARG3] == n
    ensures r[4] == 0
    ensures forall j :: PAYLOAD <= j < PAYLOAD + n as nat ==> r[j] == buf[addr as nat + j - PAYLOAD] as uint32
    ensures forall j :: PAYLOAD <= j < CLEARED_WORDS && !(j < PAYLOAD + n as nat) ==> r[j] == 0
    ensures forall j :: CLEARED_WORDS <= j < |m| && !(PAYLOAD <= j < PAYLOAD + n as nat) ==> r[j] == m[j]
  {
    ProgramHeader(Staged(m, buf, addr as nat, n as nat), addr, pageSize, n)
  }

  /** The four header stores of paged_write, opcode last; words from 4 on are kept. */
  function ProgramHeader(s: seq<uint32>, addr: uint32, pageSize: uint32, n: uint32): (r: seq<uint32>)
    requires MAILBOX_WORDS <= |s|
    ensures |r| == |s|
    ensures r[OPCODE] == CMD_PROGRAM_FLASH && r[ADDRESS] == addr && r[ARG2] == pageSize && r[ARG3] == n
    ensures forall j :: ARG3 < j < |s| ==> r[j] == s[j]
  {
    s[ADDRESS := addr][ARG2 := pageSize][ARG3 := n][OPCODE := CMD_PROGRAM_FLASH]
  }

  /** The 256 bytes paged_load takes out of the payload of a mailbox. */
  function Page(m: seq<uint32>): (p: seq<uint8>)
    requires MAILBOX_WORDS <= |m|
    ensures |p| == PAGE_BYTES
    ensures forall i :: 0 <= i < PAGE_BYTES ==> p[i] == LowByte(m[PAYLOAD + i])
  {
    seq(PAGE_BYTES, i requires 0 <= i < PAGE_BYTES => LowByte(m[PAYLOAD + i]))
  }

  /** The caller's buffer after paged_load: bytes addr..addr+255 replaced by
      the page read from the mailbox, every other byte kept. */
  function StorePage(buf: seq<uint8>, addr: nat, m: seq<uint32>): (r: seq<uint8>)
    requires MAILBOX_WORDS <= |m| && addr + PAGE_BYTES <= |buf|
    ensures |r| == |buf|
    ensures forall j :: addr <= j < addr + PAGE_BYTES ==> r[j] == LowByte(m[PAYLOAD + j - addr])
    ensures forall j :: 0 <= j < |buf| && !(addr <= j < addr + PAGE_BYTES) ==> r[j] == buf[j]
  {
    buf[..addr] + Page(m) + buf[addr + PAGE_BYTES..]
  }
}
