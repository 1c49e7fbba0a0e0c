/*
 * A simulated target for the mailbox requests, used to show that the
 * host's encoding (paged_write) and decoding (paged_load) fit together.
 * It stands in for the coprocessor firmware: the target's flash memory is
 * a byte sequence, PROGRAM_FLASH stores the payload bytes there,
 * CHIP_ERASE sets every byte to 0xFF, and READ_FLASH answers with a page
 * of it in the payload.
 */
module FlashStub {
  import opened Mailbox
  import opened Pruss

  /** The target's flash after serving a PROGRAM_FLASH request: word 3 bytes,
      taken from the low bytes of the payload, stored from address word 1 on. */
  function Program(flash: seq<uint8>, req: seq<uint32>): (f: seq<uint8>)
    requires MAILBOX_WORDS <= |req| && PAYLOAD + req[ARG3] as nat <= |req|
    requires req[ADDRESS] as nat + req[ARG3] as nat <= |flash|
    ensures |f| == |flash|
    ensures forall j :: req[ADDRESS] as nat <= j < req[ADDRESS] as nat + req[ARG3] as nat ==>
              f[j] == LowByte(req[PAYLOAD + j - req[ADDRESS] as nat])
    ensures forall j :: 0 <= j < |flash| && !(req[ADDRESS] as nat <= j < req[ADDRESS] as nat + req[ARG3] as nat) ==>
              f[j] == flash[j]
  {
    var a, n := req[ADDRESS] as nat, req[ARG3] as nat;
    flash[..a] + seq(n, i requires 0 <= i < n => LowByte(req[PAYLOAD + i])) + flash[a + n..]
  }

  /** The mailbox after serving a READ_FLASH request: the 256 flash bytes from
      address word 1 on, one per payload word; the other words are kept. */
  function Serve(flash: seq<uint8>, req: seq<uint32>): (r: seq<uint32>)
    requires MAILBOX_WORDS <= |req| && req[ADDRESS] as nat + PAGE_BYTES <= |flash|
    ensures |r| == |req|
    ensures forall j :: PAYLOAD <= j < MAILBOX_WORDS ==> r[j] == flash[req[ADDRESS] as nat + j - PAYLOAD] as uint32
    ensures forall j :: 0 <= j < |req| && !(PAYLOAD <= j < MAILBOX_WORDS) ==> r[j] == req[j]
  {
    var a := req[ADDRESS] as nat;
    req[..PAYLOAD] + seq(PAGE_BYTES, i requires 0 <= i < PAGE_BYTES => flash[a + i] as uint32) + req[MAILBOX_WORDS..]
  }

  /** A PROGRAM_FLASH request whose byte range fits the mailbox and the flash. */
  predicate Programs(flash: seq<uint8>, req: seq<uint32>)
  {
    MAILBOX_WORDS <= |req| && req[OPCODE] == CMD_PROGRAM_FLASH &&
    PAYLOAD + req[ARG3] as nat <= |req| && req[ADDRESS] as nat + req[ARG3] as nat <= |flash|
  }

  /** A READ_FLASH request whose page fits the flash. */
  predicate Loads(flash: seq<uint8>, req: seq<uint32>)
  {
    MAILBOX_WORDS <= |req| && req[OPCODE] == CMD_READ_FLASH && req[ADDRESS] as nat + PAGE_BYTES <= |flash|
  }

  /** The flash after the firmware has served a mailbox. */
  function Next(flash: seq<uint8>, req: seq<uint32>): seq<uint8>
  {
    if Programs(flash, req) then Program(flash, req)
    else if |req| > 0 && req[OPCODE] == CMD_CHIP_ERASE then seq(|flash|, _ => 0xFF)
    else flash
  }

  /** Word i of the mailbox after the firmware has served it. */
  function Word(flash: seq<uint8>, req: seq<uint32>, i: int): uint32
  {
    if !(0 <= i < |req|) then 0
    else if Loads(flash, req) then Serve(flash, req)[i]
    else req[i]
  }

  /** The simulated firmware, as the coprocessor an Engine session drives. */
  function Firmware(): Coprocessor<seq<uint8>>
  {
    Coprocessor(Next, Word)
  }

  /** Writing n <= 256 bytes with paged_write and then loading the page at the
      same address with paged_load gives back the written bytes, whatever the
      byte count passed to the load and whatever the mailboxes held before. */
  lemma {:induction false} WriteThenLoad(m0: seq<uint32>, m1: seq<uint32>, flash: seq<uint8>,
                                         buf: seq<uint8>, into: seq<uint8>,
                                         addr: uint32, pageSize: uint32, n: uint32, loadCount: uint32)
    requires MAILBOX_WORDS <= |m0| && MAILBOX_WORDS <= |m1| && n as nat <= PAGE_BYTES
    requires addr as nat + n as nat <= |buf|
    requires addr as nat + PAGE_BYTES <= |flash| && addr as nat + PAGE_BYTES <= |into|
    ensures var written := Program(flash, WriteRequest(m0, buf, addr, pageSize, n));
            var loaded := StorePage(into, addr as nat, Serve(written, LoadRequest(m1, addr, loadCount)));
            forall j :: addr as nat <= j < addr as nat + n as nat ==> loaded[j] == buf[j]
  {
    var a := addr as nat;
    var req := WriteRequest(m0, buf, addr, pageSize, n);
    var written := Program(flash, req);
    var answer := Serve(written, LoadRequest(m1, addr, loadCount));
    var loaded := StorePage(into, a, answer);
    forall j | a <= j < a + n as nat
      ensures loaded[j] == buf[j]
    {
      ByteSurvives(buf, req, written, answer, a, j);
    }
  }

  /** One byte on its way: buffer -> payload word -> flash -> payload word -> buffer. */
  lemma ByteSurvives(buf: seq<uint8>, req: seq<uint32>, written: seq<uint8>, answer: seq<uint32>, a: nat, j: nat)
    requires a <= j < |buf| && j < |written| && PAYLOAD + j - a < |req| && PAYLOAD + j - a < |answer|
    requires req[PAYLOAD + j - a] == buf[j] as uint32
    requires written[j] == LowByte(req[PAYLOAD + j - a])
    requires answer[PAYLOAD + j - a] == written[j] as uint32
    ensures LowByte(answer[PAYLOAD + j - a]) == buf[j]
  {
    WidenNarrow(buf[j]);
    WidenNarrow(written[j]);
  }

  /** The four-byte page 0xDE 0xAD 0xBE 0xEF written at address 0 with page
      size 4 raises PROGRAM_FLASH with this header and payload. */
  lemma WriteRequestExample(m: seq<uint32>)
    requires MAILBOX_WORDS <= |m|
    ensures var r := WriteRequest(m, [0xDE, 0xAD, 0xBE, 0xEF], 0, 4, 4);
            r[..9] == [CMD_PROGRAM_FLASH, 0, 4, 4, 0, 0xDE, 0xAD, 0xBE, 0xEF]
  {
    var r := WriteRequest(m, [0xDE, 0xAD, 0xBE, 0xEF], 0, 4, 4);
    assert r[PAYLOAD] == 0xDE && r[PAYLOAD + 1] == 0xAD && r[PAYLOAD + 2] == 0xBE && r[PAYLOAD + 3] == 0xEF;
  }

  /** A session with the simulated firmware: paged_write of n <= 256 bytes of
      the "flash" buffer `src` at addr, then paged_load of the page at addr
      into another "flash" buffer `dst`. Both succeed, and the n bytes land
      in `dst` at the same addresses, whatever byte count the load passes
      and whatever the mailbox held. */
  method WriteThenLoadSession(e: Engine<seq<uint8>>, src: AvrMem, dst: AvrMem, pageSize: uint32, addr: uint32, n: uint32, loadCount: uint32)
      returns (written: int, loaded: int)
    requires e.Valid() && e.pru == Firmware() && src.desc == "flash" && dst.desc == "flash" && dst.buf != src.buf
    requires n as nat <= PAGE_BYTES && addr as nat + n as nat <= src.buf.Length && addr as nat + PAGE_BYTES <= dst.buf.Length
    requires addr as nat + PAGE_BYTES <= |e.target|
    modifies e`log, e`target, e.sharedRam, dst.buf
    ensures e.Valid() && written == 0 && loaded == 0
    ensures forall j :: addr as nat <= j < addr as nat + n as nat ==> dst.buf[j] == old(src.buf[j])
  {
    ghost var m0, flash0, bytes, into := e.sharedRam[..], e.target, src.buf[..], dst.buf[..];
    written := e.PagedWrite(src, pageSize, addr, n);
    ghost var req := WriteRequest(m0, bytes, addr, pageSize, n);
    assert Programs(flash0, req);
    ghost var m1, flash1 := e.sharedRam[..], e.target;
    assert flash1 == Program(flash0, req);
    loaded := e.PagedLoad(dst, pageSize, addr, loadCount);
    ghost var seen := LoadRequest(m1, addr, loadCount);
    assert Loads(flash1, seen);
    assert e.sharedRam[..] == Serve(flash1, seen);
    WriteThenLoad(m0, m1, flash0, bytes, into, addr, pageSize, n, loadCount);
  }

  /** A session with the simulated firmware: chip_erase, then paged_load of
      the page at addr. Every one of the 256 loaded bytes reads 0xFF, the
      value of erased flash, and the rest of the buffer is kept. */
  method EraseThenLoadSession(e: Engine<seq<uint8>>, mem: AvrMem, pageSize: uint32, addr: uint32, loadCount: uint32)
      returns (erased: int, loaded: int)
    requires e.Valid() && e.pru == Firmware() && mem.desc == "flash"
    requires addr as nat + PAGE_BYTES <= mem.buf.Length && addr as nat + PAGE_BYTES <= |e.target|
    modifies e`log, e`target, e.sharedRam, mem.buf
    ensures e.Valid() && erased == 0 && loaded == 0
    ensures forall j :: addr as nat <= j < addr as nat + PAGE_BYTES ==> mem.buf[j] == 0xFF
    ensures forall j :: 0 <= j < mem.buf.Length && !(addr as nat <= j < addr as nat + PAGE_BYTES) ==> mem.buf[j] == old(mem.buf[j])
  {
    erased := e.ChipErase();
    ghost var m1, flash1 := e.sharedRam[..], e.target;
    assert forall j :: 0 <= j < |flash1| ==> flash1[j] == 0xFF;
    loaded := e.PagedLoad(mem, pageSize, addr, loadCount);
    ghost var seen := LoadRequest(m1, addr, loadCount);
    assert Loads(flash1, seen);
    assert e.sharedRam[..] == Serve(flash1, seen);
    forall j | addr as nat <= j < addr as nat + PAGE_BYTES
      ensures mem.buf[j] == 0xFF
    {
      WidenNarrow(0xFF);
    }
  }
}
