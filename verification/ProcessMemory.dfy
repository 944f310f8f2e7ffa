/** Reading the memory of the target process. */
module ProcessMemory {
  import opened Wrappers
  import opened Bytes

  /** The readable bytes of the target. */
  type Memory = map<int, byte>

  datatype Region = Region(base: u64, size: nat, writable: bool)

  predicate CanRead(mem: Memory, addr: int, n: nat) { forall k :: addr <= k < addr + n ==> k in mem }

  /** Reads exactly n bytes, or fails. */
  function ReadInto(mem: Memory, addr: int, n: nat): (r: Option<seq<byte>>)
    ensures r.Some? <==> CanRead(mem, addr, n)
    ensures r.Some? ==> |r.value| == n && forall i :: 0 <= i < n ==> r.value[i] == mem[addr + i]
  {
    if CanRead(mem, addr, n) then Some(seq(n, i requires 0 <= i < n => mem[addr + i])) else None
  }

  /** Bytes of a pointer: 4 for 32-bit targets, 8 for anything else. */
  function PointerWidth(ptrSize: nat): nat { if ptrSize == 4 then 4 else 8 }

  function ReadPtr(mem: Memory, addr: u64, ptrSize: nat): Option<u64> {
    Pow256Values();
    var bytes :- ReadInto(mem, addr, PointerWidth(ptrSize));
    Some(FromLittleEndian(bytes))
  }

  /** The cancel flag another thread may raise at any poll; once raised it stays raised. */
  class Progress {
    const schedule: nat -> bool
    var polls: nat
    var cancelled: bool
    var done: nat
    var matches: nat

    constructor (schedule: nat -> bool)
      ensures this.schedule == schedule && !cancelled
    {
      this.schedule := schedule;
      polls, cancelled, done, matches := 0, false, 0, 0;
    }

    /** Reads the flag. */
    method Poll() returns (b: bool)
      modifies this
      ensures b == cancelled && (old(cancelled) ==> cancelled)
      ensures cancelled ==> old(cancelled) || schedule(old(polls))
    {
      if schedule(polls) {
        cancelled := true;
      }
      polls := polls + 1;
      b := cancelled;
    }
  }
}
