/*
 * The host side of the PRUSS programmer: the operations that encode a
 * request into the shared-RAM mailbox, raise it by writing the opcode into
 * word 0, block once for the coprocessor's interrupt and decode the result
 * out of the same words.
 *
 * A ghost log records every store, every clear and every wait (with the
 * mailbox as the coprocessor saw it), so that the order of the handshake
 * can be stated: an opcode store is always the last write before exactly
 * one wait.
 */
module Pruss {
  import opened Mailbox

  /** One observable step on the mailbox. */
  datatype Event =
    | Zero(words: nat)                  // memset of the first `words` words
    | Store(index: nat, value: uint32)  // shared_ram[index] = value
    | Interrupt(seen: seq<uint32>)      // the wait; `seen` is the mailbox the coprocessor was handed

  /** A store that raises a command: a nonzero value into word 0. */
  predicate IsIssue(e: Event)
  {
    e.Store? && e.index == OPCODE && e.value != 0
  }

  /** The single-outstanding-request discipline: every raised command is
      followed at once by its wait, every wait comes right after a raised
      command, and no command is left raised without its wait. */
  ghost predicate Lockstep(log: seq<Event>)
  {
    (forall k :: 0 <= k < |log| ==> PairedAt(log, k)) &&
    (|log| > 0 ==> !IsIssue(log[|log| - 1]))
  }

  /** Entry k of the log is a wait exactly when entry k - 1 raised a command. */
  ghost predicate PairedAt(log: seq<Event>, k: nat)
    requires k < |log|
  {
    log[k].Interrupt? <==> 0 < k && IsIssue(log[k - 1])
  }

  /** Two lock-step logs joined give a lock-step log, provided the second does
      not open with a wait. */
  lemma {:induction false} LockstepAppend(a: seq<Event>, b: seq<Event>)
    requires Lockstep(a) && Lockstep(b)
    requires b != [] ==> !b[0].Interrupt?
    ensures Lockstep(a + b)
  {
    var ab := a + b;
    forall k | 0 <= k < |ab|
      ensures PairedAt(ab, k)
    {
      if k < |a| {
        assert PairedAt(a, k);
        assert ab[k] == a[k];
        if 0 < k { assert ab[k - 1] == a[k - 1]; }
      } else if k == |a| {
        assert ab[k] == b[0];
        if 0 < k { assert ab[k - 1] == a[|a| - 1]; }
      } else {
        assert PairedAt(b, k - |a|);
        assert ab[k] == b[k - |a|] && ab[k - 1] == b[k - 1 - |a|];
      }
    }
    if b != [] {
      assert ab[|ab| - 1] == b[|b| - 1];
    }
  }

  /** Stores and clears only: no command raised, no wait. */
  predicate Quiet(es: seq<Event>)
  {
    forall k :: 0 <= k < |es| ==> !IsIssue(es[k]) && !es[k].Interrupt?
  }

  /** A request that stores into words and then raises one command is lock-step. */
  lemma {:induction false} TransactionLockstep(request: seq<Event>, op: uint32, seen: seq<uint32>)
    requires Quiet(request) && op != 0
    ensures Lockstep(request + [Store(OPCODE, op), Interrupt(seen)])
  {
    var t := request + [Store(OPCODE, op), Interrupt(seen)];
    assert t[|request|] == Store(OPCODE, op) && t[|request| + 1] == Interrupt(seen);
    forall k | 0 <= k < |t|
      ensures PairedAt(t, k)
    {
      if k < |request| {
        assert t[k] == request[k];
        if 0 < k { assert t[k - 1] == request[k - 1]; }
      } else if k == |request| && 0 < k {
        assert t[k - 1] == request[k - 1];
      }
    }
  }

  /** A lock-step log extended by a request, its command and its wait stays lock-step. */
  lemma RaiseLockstep(log: seq<Event>, request: seq<Event>, op: uint32, seen: seq<uint32>)
    requires Lockstep(log) && Quiet(request) && op != 0
    ensures Lockstep(log + request + [Store(OPCODE, op), Interrupt(seen)])
  {
    TransactionLockstep(request, op, seen);
    LockstepAppend(log, request + [Store(OPCODE, op), Interrupt(seen)]);
    assert log + request + [Store(OPCODE, op), Interrupt(seen)] == log + (request + [Store(OPCODE, op), Interrupt(seen)]);
  }

  /** A lock-step log extended by stores and clears alone stays lock-step. */
  lemma QuietLockstep(log: seq<Event>, request: seq<Event>)
    requires Lockstep(log) && Quiet(request)
    ensures Lockstep(log + request)
  {
    LockstepAppend(log, request);
  }

  /** The stores of the first n iterations of paged_write's payload copy. */
  function PayloadStores(buf: seq<uint8>, addr: nat, n: nat): (es: seq<Event>)
    requires addr + n <= |buf|
    ensures |es| == n
    ensures forall k :: 0 <= k < n ==> es[k] == Store(PAYLOAD + k, buf[addr + k] as uint32)
    decreases n
  {
    if n == 0 then [] else PayloadStores(buf, addr, n - 1) + [Store(PAYLOAD + n - 1, buf[addr + n - 1] as uint32)]
  }

  /** The events of paged_write before the region check: the clear, then the
      payload stores; none of them raises a command. */
  function WriteStaging(buf: seq<uint8>, addr: uint32, n: uint32): (es: seq<Event>)
    requires addr as nat + n as nat <= |buf|
    ensures Quiet(es)
  {
    var es := [Zero(CLEARED_WORDS)] + PayloadStores(buf, addr as nat, n as nat);
    assert forall k :: 0 < k < |es| ==> es[k] == PayloadStores(buf, addr as nat, n as nat)[k - 1];
    es
  }

  /** The caller's memory region (AVRMEM): its name and its byte buffer. */
  class AvrMem {
    const desc: string
    const buf: array<uint8>

    constructor (desc: string, buf: array<uint8>)
      ensures this.desc == desc && this.buf == buf
    {
      this.desc := desc;
      this.buf := buf;
    }
  }

  /** The firmware running on the coprocessor, over the state T of the target
      it drives (its flash, say): serving a mailbox moves the target to
      `next`, and word i of the mailbox afterwards is `word`, both given the
      target's state before and the mailbox the coprocessor was handed. */
  datatype Coprocessor<!T> = Coprocessor(next: (T, seq<uint32>) -> T, word: (T, seq<uint32>, int) -> uint32)

  /** The programmer, owning the mapped shared RAM and the running coprocessor
      together with the target behind it. */
  class Engine<T> {
    const sharedRam: array<uint32>
    const pru: Coprocessor<T>
    var target: T
    ghost var log: seq<Event>

    ghost predicate Valid()
      reads this
    {
      MAILBOX_WORDS <= sharedRam.Length && Lockstep(log)
    }

    /** The mailbox after the coprocessor has served `seen` on target state t. */
    function Respond(t: T, seen: seq<uint32>): (r: seq<uint32>)
      ensures |r| == |seen|
      ensures forall i :: 0 <= i < |seen| ==> r[i] == pru.word(t, seen, i)
    {
      seq(|seen|, i => pru.word(t, seen, i))
    }

    /** A session whose shared RAM has been mapped and whose coprocessor runs. */
    constructor (ram: array<uint32>, pru: Coprocessor<T>, target: T)
      requires MAILBOX_WORDS <= ram.Length
      ensures Valid() && sharedRam == ram && this.pru == pru && this.target == target && log == []
    {
      sharedRam := ram;
      this.pru := pru;
      this.target := target;
      log := [];
    }

    /** shared_ram[index] = value */
    method Put(index: nat, value: uint32)
      requires index < sharedRam.Length
      modifies this`log, sharedRam
      ensures sharedRam[..] == old(sharedRam[..])[index := value]
      ensures log == old(log) + [Store(index, value)]
    {
      sharedRam[index] := value;
      log := log + [Store(index, value)];
    }

    /** memset(shared_ram, 0, 1024) */
    method ClearSharedRam()
      requires CLEARED_WORDS <= sharedRam.Length
      modifies this`log, sharedRam
      ensures sharedRam[..] == Cleared(old(sharedRam[..]))
      ensures log == old(log) + [Zero(CLEARED_WORDS)]
    {
      forall j | 0 <= j < CLEARED_WORDS {
        sharedRam[j] := 0;
      }
      log := log + [Zero(CLEARED_WORDS)];
    }

    /** Block until the coprocessor signals completion; by then it has
        served the mailbox on the target and rewritten the mailbox as it chose. */
    method WaitEventFromPru()
      modifies this`log, this`target, sharedRam
      ensures log == old(log) + [Interrupt(old(sharedRam[..]))]
      ensures sharedRam[..] == Respond(old(target), old(sharedRam[..]))
      ensures target == pru.next(old(target), old(sharedRam[..]))
    {
      var seen := sharedRam[..];
      forall i | 0 <= i < sharedRam.Length {
        sharedRam[i] := pru.word(target, seen, i);
      }
      target := pru.next(target, seen);
      log := log + [Interrupt(seen)];
    }

    /** The copy loop of paged_load: buf[addr + i] = (uint8_t)shared_ram[i + 5]
        for every i < 256. */
    method CopyPageOut(buf: array<uint8>, addr: nat)
      requires MAILBOX_WORDS <= sharedRam.Length && addr + PAGE_BYTES <= buf.Length
      modifies buf
      ensures buf[..] == StorePage(old(buf[..]), addr, sharedRam[..])
    {
      for i := 0 to PAGE_BYTES
        invariant forall j :: addr <= j < addr + i ==> buf[j] == LowByte(sharedRam[PAYLOAD + j - addr])
        invariant forall j :: 0 <= j < buf.Length && !(addr <= j < addr + i) ==> buf[j] == old(buf[j])
      {
        buf[addr + i] := LowByte(sharedRam[i + PAYLOAD]);
      }
      assert buf[..] == StorePage(old(buf[..]), addr, sharedRam[..]);
    }

    /** The copy loop of paged_write: shared_ram[i + 5] = buf[addr + i] for
        every i < n, on the mailbox the clear has just made of `ram0`. */
    method StagePayload(buf: array<uint8>, addr: nat, n: nat, ghost ram0: seq<uint32>)
      requires CLEARED_WORDS <= |ram0| && PAYLOAD + n <= |ram0| && addr + n <= buf.Length
      requires sharedRam[..] == Cleared(ram0)
      modifies this`log, sharedRam
      ensures sharedRam[..] == Staged(ram0, buf[..], addr, n)
      ensures log == old(log) + PayloadStores(buf[..], addr, n)
    {
      ghost var bytes := buf[..];
      for i := 0 to n
        invariant sharedRam.Length == |ram0|
        invariant sharedRam[..] == Staged(ram0, bytes, addr, i)
        invariant log == old(log) + PayloadStores(bytes, addr, i)
      {
        var b := buf[addr + i];
        assert b == bytes[addr + i];
        Put(i + PAYLOAD, b as uint32);
        assert Staged(ram0, bytes, addr, i + 1) == Staged(ram0, bytes, addr, i)[PAYLOAD + i := b as uint32];
        assert PayloadStores(bytes, addr, i + 1) == PayloadStores(bytes, addr, i) + [Store(PAYLOAD + i, b as uint32)];
      }
    }

    /** The header stores of paged_write, the opcode last. */
    method RaiseProgramFlash(addr: uint32, pageSize: uint32, n: uint32)
      requires MAILBOX_WORDS <= sharedRam.Length
      modifies this`log, sharedRam
      ensures sharedRam[..] == ProgramHeader(old(sharedRam[..]), addr, pageSize, n)
      ensures log == old(log) + [Store(ADDRESS, addr), Store(ARG2, pageSize), Store(ARG3, n)]
                              + [Store(OPCODE, CMD_PROGRAM_FLASH)]
    {
      Put(ADDRESS, addr);
      Put(ARG2, pageSize);
      Put(ARG3, n);
      Put(OPCODE, CMD_PROGRAM_FLASH);
    }

    /** pruss_chip_erase: raise CHIP_ERASE, wait once, report success whatever
        the coprocessor answered. */
    method ChipErase() returns (rv: int)
      requires Valid()
      modifies this`log, this`target, sharedRam
      ensures Valid()
      ensures rv == 0
      ensures var seen := EraseRequest(old(sharedRam[..]));
              log == old(log) + [Store(OPCODE, CMD_CHIP_ERASE), Interrupt(seen)] &&
              sharedRam[..] == Respond(old(target), seen) && target == pru.next(old(target), seen)
    {
      ghost var log0 := log;
      Put(OPCODE, CMD_CHIP_ERASE);
      ghost var seen := sharedRam[..];
      WaitEventFromPru();
      RaiseLockstep(log0, [], CMD_CHIP_ERASE, seen);
      assert log == log0 + [] + [Store(OPCODE, CMD_CHIP_ERASE), Interrupt(seen)];
      rv := 0;
    }

    /** pruss_read_byte: only the "signature" region is served; its byte comes
        back in the low 8 bits of word 2 after the wait. Any other region fails
        before the mailbox is touched, leaving the caller's byte as it was. */
    method ReadByte(mem: AvrMem, addr: uint64, value0: uint8) returns (rv: int, value: uint8)
      requires Valid()
      modifies this`log, this`target, sharedRam
      ensures Valid()
      ensures mem.desc == "signature" ==>
                var seen := SignatureRequest(old(sharedRam[..]), Truncate32(addr));
                rv == 0 &&
                log == old(log) + [Store(ADDRESS, Truncate32(addr)), Store(OPCODE, CMD_READ_SIGNATURE), Interrupt(seen)] &&
                sharedRam[..] == Respond(old(target), seen) && target == pru.next(old(target), seen) &&
                value == LowByte(sharedRam[ARG2])
      ensures mem.desc != "signature" ==>
                rv == -1 && value == value0 &&
                log == old(log) && sharedRam[..] == old(sharedRam[..]) && target == old(target)
    {
      if mem.desc == "signature" {
        ghost var log0 := log;
        Put(ADDRESS, Truncate32(addr));
        Put(OPCODE, CMD_READ_SIGNATURE);
        ghost var seen := sharedRam[..];
        WaitEventFromPru();
        RaiseLockstep(log0, [Store(ADDRESS, Truncate32(addr))], CMD_READ_SIGNATURE, seen);
        assert log == log0 + [Store(ADDRESS, Truncate32(addr))] + [Store(OPCODE, CMD_READ_SIGNATURE), Interrupt(seen)];
      } else {
        return -1, value0;
      }
      value := LowByte(sharedRam[ARG2]);
      rv := 0;
    }

    /** pruss_write_byte: single-byte writes are not supported for any region. */
    method WriteByte(mem: AvrMem, addr: uint64, value: uint8) returns (rv: int)
      ensures rv == -1
    {
      rv := -1;
    }

    /** pruss_paged_load: clear the mailbox, and for the "flash" region raise
        READ_FLASH with the address and byte count, wait once, and copy 256
        payload bytes into the buffer at addr whatever n_bytes says. Any other
        region fails after the clear, with no command raised. */
    method PagedLoad(mem: AvrMem, pageSize: uint32, addr: uint32, nBytes: uint32) returns (rv: int)
      requires Valid()
      requires mem.desc == "flash" ==> addr as nat + PAGE_BYTES <= mem.buf.Length
      modifies this`log, this`target, sharedRam, mem.buf
      ensures Valid()
      ensures mem.desc == "flash" ==>
                var seen := LoadRequest(old(sharedRam[..]), addr, nBytes);
                rv == 0 &&
                log == old(log) + [Zero(CLEARED_WORDS), Store(ADDRESS, addr), Store(ARG2, nBytes)]
                                + [Store(OPCODE, CMD_READ_FLASH), Interrupt(seen)] &&
                sharedRam[..] == Respond(old(target), seen) && target == pru.next(old(target), seen) &&
                mem.buf[..] == StorePage(old(mem.buf[..]), addr as nat, sharedRam[..])
      ensures mem.desc != "flash" ==>
                rv == -1 &&
                log == old(log) + [Zero(CLEARED_WORDS)] &&
                sharedRam[..] == Cleared(old(sharedRam[..])) && target == old(target) &&
                mem.buf[..] == old(mem.buf[..])
    {
      ghost var log0 := log;
      ClearSharedRam();
      if mem.desc == "flash" {
        Put(ADDRESS, addr);
        Put(ARG2, nBytes);
        Put(OPCODE, CMD_READ_FLASH);
      } else {
        QuietLockstep(log0, [Zero(CLEARED_WORDS)]);
        return -1;
      }
      ghost var seen := sharedRam[..];
      assert seen == LoadRequest(old(sharedRam[..]), addr, nBytes);
      WaitEventFromPru();
      RaiseLockstep(log0, [Zero(CLEARED_WORDS), Store(ADDRESS, addr), Store(ARG2, nBytes)], CMD_READ_FLASH, seen);
      assert log == log0 + [Zero(CLEARED_WORDS), Store(ADDRESS, addr), Store(ARG2, nBytes)]
                         + [Store(OPCODE, CMD_READ_FLASH), Interrupt(seen)];
      CopyPageOut(mem.buf, addr as nat);
      rv := 0;
    }

    /** pruss_paged_write: clear the mailbox and copy n_bytes buffer bytes into
        the payload; then, for the "flash" region only, store address, page
        size and byte count, raise PROGRAM_FLASH and wait once. Any other
        region fails with the mailbox cleared and staged but no command raised. */
    method PagedWrite(mem: AvrMem, pageSize: uint32, addr: uint32, nBytes: uint32) returns (rv: int)
      requires Valid()
      requires PAYLOAD + nBytes as nat <= sharedRam.Length
      requires addr as nat + nBytes as nat <= mem.buf.Length
      modifies this`log, this`target, sharedRam
      ensures Valid()
      ensures mem.desc == "flash" ==>
                var seen := WriteRequest(old(sharedRam[..]), mem.buf[..], addr, pageSize, nBytes);
                rv == 0 &&
                log == old(log) + WriteStaging(mem.buf[..], addr, nBytes)
                                + [Store(ADDRESS, addr), Store(ARG2, pageSize), Store(ARG3, nBytes)]
                                + [Store(OPCODE, CMD_PROGRAM_FLASH), Interrupt(seen)] &&
                sharedRam[..] == Respond(old(target), seen) && target == pru.next(old(target), seen)
      ensures mem.desc != "flash" ==>
                rv == -1 &&
                log == old(log) + WriteStaging(mem.buf[..], addr, nBytes) && target == old(target) &&
                sharedRam[..] == Staged(old(sharedRam[..]), mem.buf[..], addr as nat, nBytes as nat)
    {
      ghost var log0 := log;
      ghost var ram0 := sharedRam[..];
      ClearSharedRam();
      StagePayload(mem.buf, addr as nat, nBytes as nat, ram0);
      ghost var staging := WriteStaging(mem.buf[..], addr, nBytes);
      assert log == log0 + staging;
      QuietLockstep(log0, staging);
      if mem.desc == "flash" {
        RaiseProgramFlash(addr, pageSize, nBytes);
      } else {
        return -1;
      }
      ghost var seen := sharedRam[..];
      assert seen == WriteRequest(ram0, mem.buf[..], addr, pageSize, nBytes);
      WaitEventFromPru();
      ghost var header := [Store(ADDRESS, addr), Store(ARG2, pageSize), Store(ARG3, nBytes)];
      RaiseLockstep(log0 + staging, header, CMD_PROGRAM_FLASH, seen);
      assert log == log0 + staging + header + [Store(OPCODE, CMD_PROGRAM_FLASH), Interrupt(seen)];
      rv := 0;
    }
  }
}
