# PRUSS programmer: mailbox engine and extended parameters

This project models the core of avrdude's `pruss` programmer back end. That
back end drives an AVR target through the programmable real-time unit (PRU)
coprocessor of a TI AM335x. The host and the coprocessor share a RAM. The
host encodes each request in its first words, which act as a mailbox:

- word 0 holds the opcode;
- words 1 to 3 hold the arguments;
- each payload word from word 5 on carries one byte in its low 8 bits.

Writing a nonzero opcode into word 0 raises the command. The host then blocks
until the coprocessor raises its interrupt, and reads any answer back out of
the same words.

The model has four modules.

- `Mailbox` (`mailbox.dfy`) is the wire layout:
  - the opcodes `0x12`..`0x15` and the word indices;
  - the byte/word narrowing and widening;
  - as pure functions, the mailbox that each operation hands to the
    coprocessor (`EraseRequest`, `SignatureRequest`, `LoadRequest`,
    `WriteRequest`) and the buffer that paged_load leaves behind
    (`StorePage`).
- `Pruss` (`engine.dfy`) is the engine, as the class `Engine`.
  - It owns the shared RAM (an `array<uint32>`).
  - The running coprocessor is a `Coprocessor<T>`: firmware over the
    state `T` of the target it drives. Each wait hands it the mailbox; it
    moves the target to a new state and rewrites the mailbox, both as
    functions of the target's state before and of the mailbox handed over.
  - A ghost log records every clear, every store and every wait, with the
    mailbox as the coprocessor saw it at that wait.
  - Each of the five operations is a method. The four that use the mailbox
    update the RAM in place, and paged_load also writes the caller's
    buffer. Each is proved to leave exactly the logged events, RAM
    contents and buffer contents of the C function. write_byte changes
    nothing and fails.
  - Every operation keeps the invariant `Lockstep`: each opcode store is
    followed at once by exactly one wait, no wait comes without one, and
    no command is left raised.
- `ExtParams` (`extparams.dfy`) covers the programmer's private data.
  - Its constructor sets the defaults that `pruss_setup` sets.
  - It parses the `data=<path>` / `text=<path>` extended parameters, with
    sscanf's `%s` conversion modelled exactly.
  - The parsing loop is a method proved against the specification function
    `ParseAll`. The lemmas about `ParseAll` state the result code, last one
    wins, and that invalid entries are skipped.
- `FlashStub` (`flash_stub.dfy`) is simulated firmware over a target
  flash (a byte sequence):
  - PROGRAM_FLASH stores the payload bytes;
  - CHIP_ERASE sets every byte to 0xFF;
  - READ_FLASH answers with a page.

  Driving an `Engine` session with it, a `PagedWrite` followed by a
  `PagedLoad` of the same address returns the written bytes, and a
  `ChipErase` followed by a `PagedLoad` returns 0xFF bytes.

Some details of the code that the model follows exactly:

- PROGRAM_FLASH carries the page size in word 2 and the byte count in word
  3 (pruss.c:314-315). READ_FLASH carries its byte count in word 2
  (pruss.c:263).
- `%s` skips leading white space. So `data=  x` sets the path to `x`, and
  only a parameter with nothing but white space after its prefix is
  invalid.
- paged_write clears the mailbox and copies the payload before it checks the
  region name. An unsupported region therefore fails with the mailbox
  already overwritten.
- paged_load clears 256 words before the wait. So the round trip cannot be
  shown with a coprocessor that merely leaves the payload alone: it needs a
  target that keeps the bytes between the two calls and serves them back,
  which is what `FlashStub` provides.

## Model

| member | source | states |
|---|---|---|
| Mailbox.WidenNarrow | pruss.c:276 | Narrowing a byte that was widened into a 32-bit word gives the byte back. |
| Mailbox.LowByte | pruss.c:276 | The `(uint8_t)` narrowing of a word (also the `unsigned char` store of pruss.c:234) is congruent to the word modulo 256, and leaves a word below 256 unchanged. |
| Mailbox.Truncate32 | pruss.c:224 | The `(unsigned int)` cast of the `unsigned long` address is congruent to it modulo 2^32, and leaves an address below 2^32 unchanged. |
| Mailbox.Cleared | pruss.c:258 | memset of 1024 bytes zeroes words 0..255 and keeps every later word. |
| Mailbox.Staged | pruss.c:297-307 | After the clear and n copy steps, payload word 5+i holds buffer byte addr+i for every i < n. The other words below 256 are zero, and the words above keep their values. |
| Mailbox.EraseRequest | pruss.c:91 | The chip-erase request differs from the previous mailbox only in word 0, which holds 0x13. |
| Mailbox.SignatureRequest | pruss.c:223-225 | The signature request holds the address in word 1 and 0x12 in word 0. Every other word is unchanged. |
| Mailbox.LoadRequest | pruss.c:258-264 | The flash load request holds 0x15, the address and the byte count in words 0..2. Words 3..255 are zero and later words are kept. |
| Mailbox.WriteRequest | pruss.c:297-316 | The flash write request holds 0x14, the address, the page size and the byte count in words 0..3, with word 4 zero. Payload word 5+i is buffer byte addr+i for i < n. The rest of words 5..255 is zero and later words are kept. |
| Mailbox.ProgramHeader | pruss.c:313-316 | The four header stores of paged_write set words 0..3 and leave every word from 4 on unchanged. |
| Mailbox.Page | pruss.c:275-276 | The 256 bytes read out of a mailbox are the low 8 bits of words 5..260. |
| Mailbox.StorePage | pruss.c:275-276 | After paged_load, buffer bytes addr..addr+255 are the low bytes of payload words 5..260, and every other byte is unchanged. |
| Pruss.LockstepAppend | pruss.c:62-70 | Joining two lock-step logs, where the second does not start with a wait, gives a lock-step log. |
| Pruss.TransactionLockstep | pruss.c:91-92 | Stores, then one nonzero opcode store, then one wait form a lock-step log. |
| Pruss.RaiseLockstep | pruss.c:91-92 | A lock-step log extended by a request, its opcode store and its wait stays lock-step. |
| Pruss.QuietLockstep | pruss.c:258 | A lock-step log extended by clears and stores that raise no command stays lock-step. |
| Pruss.PayloadStores | pruss.c:303-304 | Step k of the payload copy stores buffer byte addr+k into word 5+k. |
| Pruss.WriteStaging | pruss.c:297-307 | The clear and payload copy of paged_write raise no command and wait for nothing. |
| Pruss.AvrMem.constructor | pruss.c:216-223 | The caller's memory region carries the name that the operations compare (`mem->desc`) and the byte buffer they read or write (`mem->buf`). |
| Pruss.Engine.Respond | pruss.c:62-70 | After the wait, word i of the mailbox is what the coprocessor wrote there, given the target's state and the mailbox it was handed. |
| Pruss.Engine.constructor | pruss.c:190-192 | A session starts on a mapped shared RAM of at least 261 words, with a running coprocessor, its target's initial state, an empty log and the invariant holding. |
| Pruss.Engine.Put | pruss.c:91 | A single store changes exactly one word and is logged. |
| Pruss.Engine.ClearSharedRam | pruss.c:258 | The RAM becomes `Cleared` of the old RAM, and one clear is logged. |
| Pruss.Engine.WaitEventFromPru | pruss.c:62-70 | One wait is logged, holding the mailbox as it was. The target moves to the firmware's next state, and the RAM becomes the firmware's response, both computed from the old target state and that mailbox. |
| Pruss.Engine.CopyPageOut | pruss.c:275-279 | The copy loop leaves the buffer equal to `StorePage` of the old buffer and the mailbox. |
| Pruss.Engine.StagePayload | pruss.c:303-307 | The copy loop leaves the mailbox equal to `Staged` and logs the n payload stores in order. |
| Pruss.Engine.RaiseProgramFlash | pruss.c:313-316 | The four header stores are logged in source order, with the opcode last. |
| Pruss.Engine.ChipErase | pruss.c:86-95 | Returns 0. Logs the store of 0x13 to word 0 and then exactly one wait on `EraseRequest`. The target is served that request, and the mailbox becomes the response. The lock-step invariant is kept. |
| Pruss.Engine.ReadByte | pruss.c:216-237 | For "signature": stores the truncated address and then 0x12, waits once on `SignatureRequest`, returns 0 and the low byte of word 2. Any other region returns -1 and leaves the byte, the log, the mailbox and the target unchanged, with no wait. |
| Pruss.Engine.WriteByte | pruss.c:239-246 | Always returns -1, for every region. |
| Pruss.Engine.PagedLoad | pruss.c:248-284 | Always clears first. For "flash": stores the address and byte count, raises 0x15, waits once on `LoadRequest`, and copies 256 bytes into the buffer at addr whatever the byte count. Otherwise returns -1 with only the clear done, and the buffer and the target untouched. |
| Pruss.Engine.PagedWrite | pruss.c:286-325 | Always clears and stages the payload first. For "flash": stores the address, page size and byte count, raises 0x14 and waits once on `WriteRequest`. Otherwise returns -1 with the staged mailbox, the target untouched, no command and no wait. |
| ExtParams.LeadingSpaces | pruss.c:337 | Counts the longest all-white-space prefix: every counted character is white space and the next one is not. |
| ExtParams.IsSpaceRange | pruss.c:337 | The white space that `%s` skips and stops at is the C locale's `isspace`: the space and the characters from horizontal tab to carriage return. |
| ExtParams.HasPrefixCompares | pruss.c:336 | `strncmp(p, prefix, strlen(prefix)) == 0` (also pruss.c:353): p is at least as long as the prefix and equal to it at every position of the prefix. |
| ExtParams.WordLength | pruss.c:337 | Counts the longest prefix without white space: no counted character is white space and the next one is. |
| ExtParams.ScanString | pruss.c:337 | `%s` succeeds iff some character is not white space. On success it returns the maximal non-empty run without white space that follows the leading white space. |
| ExtParams.HasWordScans | pruss.c:337 | `%s` succeeds exactly when the input holds a word, a definition independent of the scanner. |
| ExtParams.SetsScans | pruss.c:336-337 | A parameter with the prefix of a key sets that key's field exactly when sscanf converts a word after the prefix. |
| ExtParams.Assign | pruss.c:337-350 | One parameter with a known prefix either only sets the result to -1 (sscanf converted nothing) or changes only its own field. |
| ExtParams.Step | pruss.c:336-373 | One pass of the loop body keeps the result code or sets it to -1, and changes at most one of the two paths. |
| ExtParams.ParseAll | pruss.c:333-374 | The loop over the whole list, front to back: its result code is the initial one or -1, and once -1 it stays -1. |
| ExtParams.StepResult | pruss.c:336-373 | One loop iteration sets the result to -1 exactly when the parameter is invalid, and keeps it otherwise. |
| ExtParams.StepField | pruss.c:336-368 | One iteration changes a field only when the parameter validly sets it, and then to the scanned path. |
| ExtParams.AllValidSnoc | pruss.c:333 | A list is all valid iff its front is all valid and its last element is valid. |
| ExtParams.ParseAllResult | pruss.c:331-376 | Starting from 0, the parser returns 0 iff every parameter is valid, and -1 otherwise. |
| ExtParams.ParseAllUnset | pruss.c:333-374 | A field that no valid parameter sets keeps its previous value. |
| ExtParams.LastSet | pruss.c:333-374 | The index the field's final value comes from: when present, it is in the list and that parameter sets the field. |
| ExtParams.ParseAllField | pruss.c:333-374 | After the loop, a field holds the path of the last parameter that sets it, or its previous value when none does. |
| ExtParams.LastSetIs | pruss.c:333-374 | A parameter that sets the field and is followed by none that does is the one `LastSet` picks. |
| ExtParams.ParseAllLastWins | pruss.c:333-374 | A field ends up holding the path of the last valid parameter that sets it. Earlier settings are overridden, and later invalid entries are skipped. |
| ExtParams.PrivateData.constructor | pruss.c:135-138 | The default firmware paths are "data.bin" and "text.bin". |
| ExtParams.PrivateData.ParseExtParams | pruss.c:327-377 | The loop with its `continue`s leaves the result code and both paths equal to `ParseAll` of the list, started from 0 and the old paths. |
| FlashStub.WriteThenLoad | pruss.c:248-325 | A fact about the request and response functions: the n <= 256 bytes that `WriteRequest` stages, once programmed into the stub's flash and served by it for a `LoadRequest` of the same address, come back through `StorePage`. This holds whatever the load count and whatever the mailboxes held. |
| FlashStub.WriteThenLoadSession | pruss.c:248-325 | The same round trip over an `Engine` session driven by the stub firmware. `PagedWrite` of n <= 256 bytes from one "flash" buffer, then `PagedLoad` of the same address into another buffer: both return 0, and the second buffer holds the n written bytes at the same addresses. |
| FlashStub.EraseThenLoadSession | pruss.c:86-95 | Over an `Engine` session driven by the stub firmware, `ChipErase` and then `PagedLoad` both return 0. The 256 loaded bytes are 0xFF and the rest of the buffer is kept. |
| FlashStub.WriteRequestExample | pruss.c:297-316 | Writing 0xDE 0xAD 0xBE 0xEF at address 0 with page size 4 raises words 0..8 = 0x14, 0, 4, 4, 0, 0xDE, 0xAD, 0xBE, 0xEF. |

## Left out

- pruss_open and pruss_close are not modelled. They initialise the PRU driver, load the firmware and map the RAM, which is all foreign I/O. The `Engine` constructor stands for a successful open. The firmware paths are hard-coded there, so the parsed `data`/`text` paths are never used.
- The body of the wait is left out. `prussdrv_pru_wait_event` blocks with no timeout. The model treats it as one atomic step in which the coprocessor rewrites the mailbox as a function of what it was handed.
- `volatile` access, memory ordering and the concurrency of the coprocessor are not modelled.
- The real coprocessor firmware is not modelled. The engine is proved for any firmware `Coprocessor<T>` and any target state `T`, and `FlashStub` is one simulated firmware over a flash byte sequence. How the real firmware encodes the AVR serial-programming protocol is not modelled, nor whether it clears word 0 when it is done.
- The verbose `fprintf` diagnostics on stderr are left out, because they do not affect any result.
- pruss_cmd, pruss_program_enable, pruss_initialize, pruss_enable, pruss_disable and pruss_display are dummies that do nothing or return 0, so they are not modelled.
- pruss_initpgm only fills a table of function pointers, so it is not modelled.
- pruss_teardown is not modelled. The out-of-memory `exit(1)` in pruss_setup is not modelled either, because allocation is outside the model.
- The opcodes ENTER_PROGMODE (0x10) and LEAVE_PROGMODE (0x11) are left out, because no modelled function issues them.
- Pruss.Engine.ReadByte: the C out-parameter `*value` is modelled as an input byte `value0` that is returned unchanged on the error path.
- ExtParams.ScanString: strings are modelled without a NUL terminator. sscanf's write into the fixed `PATH_MAX` buffer is assumed not to overflow.
- Pruss.Engine.PagedLoad: the index of `mem->buf[addr + i]` at pruss.c:276 is computed in `unsigned int` and would wrap modulo 2^32 when addr + i passes 2^32 - 1. The model indexes with the unbounded `addr + i`, which its bound on the buffer length keeps below the buffer size.
- Pruss.Engine.PagedWrite: `*(mem->buf + addr + i)` at pruss.c:304 is pointer arithmetic, so no `unsigned int` sum wraps there. Going past the buffer would be undefined behaviour, which the method's `requires` exclude.
- Pruss.Engine.PagedLoad and Pruss.Engine.PagedWrite require the buffer and mailbox indices they touch to be in range. The C code does not check these bounds, and an out-of-range index is undefined behaviour there.
