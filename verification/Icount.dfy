/** Deterministic instruction counting (cpus.c, cpu-exec.c, gen-icount.h): a budget of instructions,
    split over a 16-bit counter that generated code counts down and an overflow. */
module Icount {
  import opened Common

  const LOW_MAX: nat := 0xffff
  const CF_COUNT_MASK: nat := 0x7fff

  /** icount_decr.u32 read as a signed int: negative once the interrupt flag is set in its upper half. */
  function Signed(low: nat, high: nat): (r: int)
    requires low <= LOW_MAX && high <= 0xffff
    ensures high == 0 ==> r == low
    ensures high == 0xffff ==> -0x10000 <= r < 0
  {
    var u32 := high * 0x10000 + low;
    if u32 >= 0x8000_0000 then u32 - 0x1_0000_0000 else u32
  }

  function Pow2(n: nat): (r: nat)
    ensures r > 0
  {
    if n == 0 then 1 else 2 * Pow2(n - 1)
  }

  /** The instructions that bring the clock to the deadline, at 2^shift ns each. */
  function InsnsUntil(deadline: nat, shift: nat): nat { (deadline + Pow2(shift) - 1) / Pow2(shift) }

  /** The budget is the least one that reaches the deadline. */
  lemma BudgetIsLeast(deadline: nat, shift: nat)
    ensures InsnsUntil(deadline, shift) * Pow2(shift) >= deadline
    ensures forall n: nat :: n * Pow2(shift) >= deadline ==> n >= InsnsUntil(deadline, shift)
  {
    var p := Pow2(shift);
    var c := InsnsUntil(deadline, shift);
    DivIs(deadline + p - 1, p);
    assert c * p <= deadline + p - 1 < c * p + p;
    forall n: nat | n * p >= deadline
      ensures n >= c
    {
      assert c * p < n * p + p == (n + 1) * p;
      LessFactor(c, n + 1, p);
    }
  }

  lemma DivIs(a: nat, p: nat)
    requires p > 0
    ensures a / p * p <= a < a / p * p + p
  {}

  lemma LessFactor(a: nat, b: nat, p: nat)
    requires a * p < b * p
    ensures a < b
  {
    assert (b - a) * p > 0;
  }

  /** What happens next in the loop of cpu_exec: a block of `length` instructions, of which an
      exception may let only `stop` be executed, and before whose shortened form an interrupt may
      arrive; or an interrupt. */
  datatype Turn = Run(length: nat, stop: Option<nat>, flagged: bool) | Interrupt {
    /** An interrupt may arrive. */
    predicate Raises() { Interrupt? || flagged }
  }

  /** What the blocks execute that have run. */
  function Ran(turns: seq<Turn>, fits: seq<bool>): nat
    requires |fits| <= |turns|
  {
    if fits == [] then 0
    else
      var n := |fits| - 1;
      Ran(turns, fits[..n]) + if fits[n] && turns[n].Run? then Executes(turns[n].length, turns[n].stop) else 0
  }

  /** The number of blocks that did not fit at first. */
  function Refills(turns: seq<Turn>, fits: seq<bool>): nat
    requires |fits| <= |turns|
  {
    if fits == [] then 0
    else
      var n := |fits| - 1;
      Refills(turns, fits[..n]) + if !fits[n] && turns[n].Run? then 1 else 0
  }

  lemma RanNone(turns: seq<Turn>)
    ensures Ran(turns, []) == 0 == Refills(turns, [])
  {}

  lemma RanNext(turns: seq<Turn>, fits: seq<bool>, fit: bool)
    requires |fits| < |turns|
    ensures var n := |fits|;
      && Ran(turns, fits + [fit]) == Ran(turns, fits) + (if fit && turns[n].Run? then Executes(turns[n].length, turns[n].stop) else 0)
      && Refills(turns, fits + [fit]) == Refills(turns, fits) + if !fit && turns[n].Run? then 1 else 0
  {
    assert (fits + [fit])[..|fits|] == fits;
  }

  predicate ValidTurn(t: Turn) {
    t.Run? ==> 0 < t.length <= CF_COUNT_MASK && (t.stop.Some? ==> t.stop.value < t.length)
  }

  function Executes(length: nat, stop: Option<nat>): nat { if stop.Some? then stop.value else length }

  /** How the loop of cpu_exec ended: the budget ran out, the flag was seen, an exception or a
      request from elsewhere ended it. */
  datatype Outcome = Expired | Flagged | Left

  class Cpu {
    var icount: int
    var low: nat
    var high: nat
    var extra: int
    ghost var executed: nat

    ghost predicate Valid()
      reads this
    {
      low <= LOW_MAX && (high == 0 || high == 0xffff) && extra >= 0
    }

    /** The instructions counted so far: what cpu_get_icount takes the time from. */
    function Counted(): int
      reads this
    {
      icount - (low + extra)
    }

    constructor ()
      ensures Valid() && Counted() == 0 == executed && high == 0
    {
      icount, low, high, extra, executed := 0, 0, 0, 0, 0;
    }

    /** cpu_interrupt: whatever its length, the next block finds a negative count, and the
        instructions counted so far are not touched. */
    method RaiseFlag()
      requires Valid()
      modifies this`high
      ensures Valid() && high != 0 && Counted() == old(Counted())
      ensures Signed(low, high) < 0
    {
      high := 0xffff;
    }

    /** After an interrupt no block starts until the flag has been seen. */
    method InterruptStops(length: nat, stop: Option<nat>) returns (expired: bool)
      requires Valid() && 0 < length <= CF_COUNT_MASK && (stop.Some? ==> stop.value < length)
      modifies this`high, this`low, this`executed
      ensures Valid() && expired && executed == old(executed) && Counted() == old(Counted()) && high != 0
    {
      RaiseFlag();
      expired := RunBlock(length, stop);
    }

    /** A block: the code of gen_icount_start before its instructions, and what cpu_restore_state
        gives back if an exception cuts it short. */
    method RunBlock(length: nat, stop: Option<nat>) returns (expired: bool)
      requires Valid() && 0 < length <= CF_COUNT_MASK && (stop.Some? ==> stop.value < length)
      modifies this`low, this`executed
      ensures Valid() && Counted() - executed == old(Counted() - executed)
      ensures expired <==> high != 0 || old(low) < length
      ensures executed == old(executed) + if expired then 0 else Executes(length, stop)
    {
      var count := Signed(low, high) - length;
      if count < 0 {
        return true;
      }
      low := count % 0x10000;
      if stop.Some? {
        low := (low + length) % 0x10000;
        low := low - stop.value;
        executed := executed + stop.value;
      } else {
        executed := executed + length;
      }
      return false;
    }

    /** cpu_exec_nocache: the block again, translated with at most maxCycles instructions. */
    method ExecNocache(maxCycles: nat, length: nat, stop: Option<nat>)
      requires Valid() && 0 < maxCycles && 0 < length <= CF_COUNT_MASK
      requires maxCycles <= low && maxCycles < length && (stop.Some? ==> stop.value < maxCycles)
      modifies this`low, this`executed
      ensures Valid() && Counted() - executed == old(Counted() - executed)
      ensures executed == old(executed) + if high != 0 then 0 else Executes(maxCycles, stop)
    {
      var cycles := maxCycles;
      if cycles > CF_COUNT_MASK {
        assert false;
        cycles := CF_COUNT_MASK;
      }
      var expired := RunBlock(Min(cycles, length), stop);
    }

    /** What cpu_exec does when a block of `length` instructions did not fit: refill the counter and
        go on, or execute what is left and stop. */
    method Expire(length: nat, stop: Option<nat>, interrupted: bool) returns (again: bool)
      requires Valid() && 0 < length <= CF_COUNT_MASK && (high != 0 || low < length)
      requires stop.Some? ==> stop.value < low
      modifies this
      ensures Valid() && icount == old(icount) && Counted() - executed == old(Counted() - executed)
      ensures again <==> old(extra) > 0 && old(high) == 0
      ensures again ==> low >= length || extra == 0
      ensures again ==> executed == old(executed) && low == Min(LOW_MAX, old(low) + old(extra)) && high == 0
      ensures executed == old(executed) + if again || high != 0 then 0 else Executes(old(low), stop)
      ensures !again && high == 0 ==> extra == 0 && (stop.None? ==> low == 0)
      ensures old(high) != 0 ==> high != 0
      ensures high != 0 ==> old(high) != 0 || interrupted
    {
      var insnsLeft := Signed(low, high);
      if extra != 0 && insnsLeft >= 0 {
        extra := extra + insnsLeft;
        if extra > 0xffff {
          insnsLeft := 0xffff;
        } else {
          insnsLeft := extra;
        }
        extra := extra - insnsLeft;
        low := insnsLeft;
        return true;
      }
      if insnsLeft > 0 {
        if interrupted {
          RaiseFlag();
        }
        ExecNocache(insnsLeft, length, stop);
      }
      return false;
    }

    /** The loop of cpu_exec, as far as the counter is concerned. `fits` tells of the turns that it went
        through which block has run; the others are refills, after which the block is tried again. What
        the blocks that ran execute is exactly what is executed, and a last part if the loop ended before
        the turns did. It ends only for a reason: the budget is used up to the last instruction, the flag
        was raised, or an exception. Refills are as few as the budget needs. */
    method CpuExec(turns: seq<Turn>) returns (outcome: Outcome, ghost fits: seq<bool>)
      requires Valid() && forall t :: t in turns ==> ValidTurn(t)
      modifies this
      ensures Valid() && icount == old(icount) && Counted() - executed == old(Counted() - executed)
      ensures executed >= old(executed) && (outcome == Expired ==> low == 0 && extra == 0)
      ensures old(high) != 0 ==> executed == old(executed)
      ensures |fits| <= |turns| && executed >= old(executed) + Ran(turns, fits)
      ensures |fits| == |turns| ==> outcome == Left && executed == old(executed) + Ran(turns, fits)
      ensures |fits| < |turns| ==> turns[|fits|].Run? && executed < old(executed) + Ran(turns, fits) + turns[|fits|].length
      ensures |fits| < |turns| && outcome == Left ==>
        turns[|fits|].stop.Some? && executed == old(executed) + Ran(turns, fits) + turns[|fits|].stop.value
      ensures outcome == Flagged ==> old(high) != 0 || exists i :: 0 <= i <= |fits| < |turns| && turns[i].Raises()
      ensures (Refills(turns, fits) - 1) * 0x8000 < old(extra) || Refills(turns, fits) == 0
    {
      hide Signed;
      hide Ran;
      hide Refills;
      RanNone(turns);
      fits := [];
      for i := 0 to |turns|
        invariant Valid() && icount == old(icount) && Counted() - executed == old(Counted() - executed)
        invariant executed >= old(executed) && (old(high) != 0 ==> high != 0 && executed == old(executed))
        invariant |fits| == i && executed == old(executed) + Ran(turns, fits)
        invariant high != 0 ==> old(high) != 0 || exists k :: 0 <= k < i && turns[k].Raises()
        invariant extra > 0 ==> Refills(turns, fits) * 0x8000 + extra <= old(extra)
        invariant (Refills(turns, fits) - 1) * 0x8000 < old(extra) || Refills(turns, fits) == 0
      {
        var t := turns[i];
        RanNext(turns, fits, true);
        RanNext(turns, fits, false);
        match t {
          case Interrupt =>
            RaiseFlag();
            fits := fits + [false];
          case Run(length, stop, flagged) =>
            assert ValidTurn(t);
            var expired := RunBlock(length, stop);
            if expired {
              var reached := if stop.Some? && stop.value < low then stop else None;
              var again := Expire(length, reached, flagged);
              if !again {
                outcome := if high != 0 then Flagged else if reached.Some? then Left else Expired;
                return outcome, fits;
              }
            }
            fits := fits + [!expired];
        }
      }
      return Left, fits;
    }

    /** qemu_cpu_exec: the counter grows by exactly what was executed, which is never more than the
        budget, and all of it if nothing but the budget ended the slice. */
    method QemuCpuExec(deadline: nat, shift: nat, turns: seq<Turn>) returns (outcome: Outcome, ghost fits: seq<bool>)
      requires Valid() && forall t :: t in turns ==> ValidTurn(t)
      modifies this
      ensures Valid() && low == 0 && high == 0 && extra == 0
      ensures icount == old(Counted()) + (executed - old(executed))
      ensures 0 <= executed - old(executed) <= InsnsUntil(deadline, shift)
      ensures outcome == Expired ==> executed - old(executed) == InsnsUntil(deadline, shift)
      ensures old(high) != 0 ==> executed == old(executed)
      ensures |fits| <= |turns|
      ensures |fits| == |turns| ==> executed == old(executed) + Ran(turns, fits)
      ensures |fits| < |turns| ==>
        outcome == Expired || (outcome == Left && turns[|fits|].Run? && turns[|fits|].stop.Some?)
        || old(high) != 0 || exists i :: 0 <= i <= |fits| && turns[i].Raises()
    {
      icount := icount - (low + extra);
      low := 0;
      extra := 0;
      var count := InsnsUntil(deadline, shift);
      icount := icount + count;
      var decr := if count > 0xffff then 0xffff else count;
      low := decr;
      extra := count - decr;
      outcome, fits := CpuExec(turns);
      icount := icount - (low + extra);
      low, high := 0, 0;
      extra := 0;
    }
  }
}
