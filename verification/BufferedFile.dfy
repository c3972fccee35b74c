/** buffered_file.c: output that is put to a backend as far as it takes it, under a rate limit, and
    buffered otherwise. */
module BufferedFiles {
  import opened Common
  import opened Errno

  /** What the backend answers to n bytes: a pause if it has no answer ready. */
  function Answer(answers: seq<int>, n: nat): (r: int)
    ensures r <= n || r == -EAGAIN
  {
    if answers == [] then -EAGAIN else if answers[0] > n then n else answers[0]
  }

  function Rest(answers: seq<int>): seq<int> {
    if answers == [] then [] else answers[1..]
  }

  /** The backend: `answers` are the results that its put_buffer will give, of which a positive one
      is the number of bytes taken, no more than offered. */
  class Backend {
    var answers: seq<int>
    var accepted: seq<byte>

    method Put(data: seq<byte>) returns (ret: int)
      requires data != []
      modifies this
      ensures ret == Answer(old(answers), |data|) && answers == Rest(old(answers))
      ensures ret <= |data| && accepted == old(accepted) + if ret > 0 then data[..ret] else []
    {
      if answers == [] {
        return -EAGAIN;
      }
      ret := answers[0];
      answers := answers[1..];
      if ret > |data| {
        ret := |data|;
      }
      if ret > 0 {
        accepted := accepted + data[..ret];
      }
    }
  }

  /** How a run of puts ends: with everything put, at the rate limit, at a pause, or on an error. */
  datatype End = Done | Limited | Paused | Failed

  /** What n bytes meet at the backend: how many are left over, and the answers that follow. */
  datatype Outcome = Outcome(left: nat, end: End, rest: seq<int>)

  /** What the backend's answers make of n bytes, of which the rate limit stops the rest once more
      than `room` have been put. */
  function PutRun(answers: seq<int>, n: nat, room: int): (r: Outcome)
    ensures r.left <= n && (r.left == 0 <==> r.end == Done)
    ensures r.left < n <==> n > 0 && room >= 0 && answers != [] && answers[0] > 0
    ensures room >= n ==> r.end != Limited
    ensures r.end == Limited ==> room < n - r.left
    decreases |answers|
  {
    if n == 0 then Outcome(0, Done, answers)
    else if room < 0 then Outcome(n, Limited, answers)
    else
      var ret := Answer(answers, n);
      if ret == -EAGAIN then Outcome(n, Paused, Rest(answers))
      else if ret <= 0 then Outcome(n, Failed, Rest(answers))
      else PutRun(Rest(answers), n - ret, room - ret)
  }

  /** A flush of n bytes, which no limit stops. */
  function FlushRun(answers: seq<int>, n: nat): (r: Outcome)
    ensures r.left <= n && (r.left == 0 <==> r.end == Done) && r.end != Limited
  {
    PutRun(answers, n, n)
  }

  lemma PutStep(answers: seq<int>, n: nat, room: int)
    requires n > 0 && room >= 0
    ensures PutRun(answers, n, room)
         == var ret := Answer(answers, n);
            if ret == -EAGAIN then Outcome(n, Paused, Rest(answers))
            else if ret <= 0 then Outcome(n, Failed, Rest(answers))
            else PutRun(Rest(answers), n - ret, room - ret)
  {}

  lemma PutStops(answers: seq<int>, n: nat, room: int)
    ensures n == 0 ==> PutRun(answers, n, room) == Outcome(0, Done, answers)
    ensures n > 0 && room < 0 ==> PutRun(answers, n, room) == Outcome(n, Limited, answers)
  {}

  /** The bytes that the first k answers take, if there are enough. */
  function Taken(answers: seq<int>, k: nat): int
    requires k <= |answers|
  {
    if k == 0 then 0 else answers[0] + Taken(answers[1..], k - 1)
  }

  /** The answers up to k are counts that leave some of n bytes, and answer k is an error. */
  predicate FailsAt(answers: seq<int>, n: nat, k: nat) {
    && k < |answers| && answers[k] <= 0 && answers[k] != -EAGAIN
    && (forall j :: 0 <= j < k ==> answers[j] > 0) && Taken(answers, k) < n
  }

  /** A flush fails exactly if an error is answered before enough bytes have been taken, and it uses
      the answers up to that one. */
  lemma FailsExactly(answers: seq<int>, n: nat)
    ensures FlushRun(answers, n).end == Failed <==> exists k: nat :: FailsAt(answers, n, k)
    ensures forall k: nat :: FailsAt(answers, n, k) ==>
      FlushRun(answers, n) == Outcome(n - Taken(answers, k), Failed, answers[k + 1..])
  {
    forall k: nat | FailsAt(answers, n, k)
      ensures FlushRun(answers, n) == Outcome(n - Taken(answers, k), Failed, answers[k + 1..])
    {
      FailsAfter(answers, n, n, k);
    }
    if FlushRun(answers, n).end == Failed {
      var k := FailsSomewhere(answers, n, n);
    }
  }

  lemma {:induction false} FailsSomewhere(answers: seq<int>, n: nat, room: int) returns (k: nat)
    requires room >= n && PutRun(answers, n, room).end == Failed
    ensures FailsAt(answers, n, k)
  {
    if answers[0] <= 0 {
      return 0;
    }
    var ret := Answer(answers, n);
    k := FailsSomewhere(answers[1..], n - ret, room - ret);
    assert forall j :: 0 < j <= k ==> answers[j] == answers[1..][j - 1];
    k := k + 1;
  }

  lemma {:induction false} FailsAfter(answers: seq<int>, n: nat, room: int, k: nat)
    requires room >= n && FailsAt(answers, n, k)
    ensures PutRun(answers, n, room) == Outcome(n - Taken(answers, k), Failed, answers[k + 1..])
  {
    TakenGrows(answers, k);
    if k > 0 {
      var tail := answers[1..];
      assert forall j :: 0 <= j < k ==> tail[j] == answers[j + 1];
      TakenGrows(tail, k - 1);
      FailsAfter(tail, n - answers[0], room - answers[0], k - 1);
      hide *;
      TailOf(answers, k);
    }
  }

  lemma TailOf(answers: seq<int>, k: nat)
    requires k < |answers|
    ensures answers[1..][k..] == answers[k + 1..]
  {}

  lemma TakenGrows(answers: seq<int>, k: nat)
    requires k <= |answers| && forall j :: 0 <= j < k ==> answers[j] > 0
    ensures Taken(answers, k) >= 0
  {
    if k > 0 {
      assert forall j :: 0 <= j < k - 1 ==> answers[1..][j] == answers[j + 1];
      TakenGrows(answers[1..], k - 1);
    }
  }

  /** Nothing is lost, and the order is kept, if no new byte overtakes a waiting one. */
  lemma Conserve(accepted: seq<byte>, waiting: seq<byte>, sent: nat, buf: seq<byte>, put: nat)
    requires sent <= |waiting| && put <= |buf| && (put > 0 ==> sent == |waiting|)
    ensures accepted + waiting[..sent] + buf[..put] + (waiting[sent..] + buf[put..]) == accepted + waiting + buf
  {}

  lemma NothingPut(accepted: seq<byte>, waiting: seq<byte>, buf: seq<byte>, sent: nat)
    requires sent <= |waiting|
    ensures accepted + waiting[..0] + buf[..0] == accepted && waiting[sent..] + [] == waiting[sent..] && waiting[0..] == waiting
  {}

  lemma SplitAt(accepted: seq<byte>, waiting: seq<byte>, sent: nat)
    requires sent <= |waiting|
    ensures accepted + waiting[..sent] + waiting[sent..] == accepted + waiting
  {}

  lemma MoreAccepted(accepted: seq<byte>, all: seq<byte>, offset: nat, n: nat)
    requires offset + n <= |all|
    ensures accepted + all[..offset] + all[offset..][..n] == accepted + all[..offset + n]
  {}

  class BufferedFile {
    const backend: Backend
    var hasError: bool
    var freezeOutput: bool
    var bytesXfer: nat
    var xferLimit: nat
    var buffer: array<byte>
    var bufferSize: nat

    ghost predicate Valid()
      reads this
    {
      bufferSize <= buffer.Length
    }

    /** The bytes that wait for the backend. */
    ghost function Pending(): (r: seq<byte>)
      requires Valid()
      reads this, buffer
      ensures |r| == bufferSize
    {
      buffer[..bufferSize]
    }

    constructor (backend: Backend, bytesPerSec: nat)
      ensures Valid() && fresh(buffer) && Pending() == [] && this.backend == backend
      ensures !hasError && !freezeOutput && bytesXfer == 0 && xferLimit == bytesPerSec / 10
    {
      this.backend := backend;
      hasError, freezeOutput, bytesXfer, bufferSize := false, false, 0, 0;
      xferLimit := bytesPerSec / 10;
      buffer := new byte[0];
    }

    /** buffered_append: the buffer grows by the size and 1024 bytes more if there is no room. */
    method Append(buf: seq<byte>)
      requires Valid()
      modifies this`buffer, this`bufferSize, buffer
      ensures Valid() && Pending() == old(Pending()) + buf && (buffer == old(buffer) || fresh(buffer))
    {
      if |buf| > buffer.Length - bufferSize {
        var grown := new byte[buffer.Length + |buf| + 1024];
        forall i | 0 <= i < bufferSize {
          grown[i] := buffer[i];
        }
        assert grown[..bufferSize] == buffer[..bufferSize];
        buffer := grown;
      }
      ghost var kept := buffer[..bufferSize];
      forall i | 0 <= i < |buf| {
        buffer[bufferSize + i] := buf[i];
      }
      bufferSize := bufferSize + |buf|;
      assert buffer[..bufferSize] == kept + buf;
    }

    /** The memmove at the end of buffered_flush. */
    method Discard(offset: nat)
      requires Valid() && offset <= bufferSize
      modifies this`bufferSize, buffer
      ensures Valid() && Pending() == old(Pending())[offset..]
    {
      ghost var kept := buffer[offset..bufferSize];
      forall i | 0 <= i < bufferSize - offset {
        buffer[i] := buffer[offset + i];
      }
      bufferSize := bufferSize - offset;
      assert buffer[..bufferSize] == kept;
    }

    /** Whether the rate limit holds a caller back as long as bytes wait. */
    ghost predicate HoldsWhileWaiting()
      requires Valid()
      reads this, buffer
    {
      hasError || freezeOutput || bytesXfer > xferLimit || Pending() == []
    }

    /** buffered_flush: the first bytes that wait are put to the backend, however far it takes them,
        and no byte is lost or put twice. Unless there was an error, it stops early only if the
        backend asks for a pause. */
    method Flush() returns (ghost sent: nat)
      requires Valid()
      modifies this`hasError, this`freezeOutput, this`bufferSize, buffer, backend
      ensures Valid() && sent <= old(bufferSize)
      ensures backend.accepted == old(backend.accepted) + old(Pending())[..sent] && Pending() == old(Pending())[sent..]
      ensures old(hasError) ==> sent == 0 && hasError && freezeOutput == old(freezeOutput) && backend.answers == old(backend.answers)
      ensures !old(hasError) ==> var run := FlushRun(old(backend.answers), old(bufferSize));
        && sent == old(bufferSize) - run.left && backend.answers == run.rest
        && hasError == (run.end == Failed) && freezeOutput == (old(freezeOutput) || run.end == Paused)
        && run.end != Limited
    {
      hide PutRun;
      sent := 0;
      if hasError {
        return;
      }
      ghost var all, accepted := Pending(), backend.accepted;
      var offset := 0;
      assert accepted + all[..0] == accepted;
      while offset < bufferSize
        invariant Valid() && offset <= bufferSize == old(bufferSize) && buffer == old(buffer) && Pending() == all
        invariant backend.accepted == accepted + all[..offset] && !hasError && freezeOutput == old(freezeOutput)
        invariant PutRun(backend.answers, bufferSize - offset, bufferSize - offset)
               == PutRun(old(backend.answers), old(bufferSize), old(bufferSize))
      {
        PutStep(backend.answers, bufferSize - offset, bufferSize - offset);
        var ret := backend.Put(buffer[offset..bufferSize]);
        assert all[offset..] == buffer[offset..bufferSize];
        if ret == -EAGAIN {
          freezeOutput := true;
          break;
        }
        if ret <= 0 {
          hasError := true;
          break;
        }
        MoreAccepted(accepted, all, offset, ret);
        offset := offset + ret;
      }
      PutStops(backend.answers, bufferSize - offset, bufferSize - offset);
      sent := offset;
      Discard(offset);
    }

    /** The loop of buffered_put_buffer: new data goes to the backend directly, unless the output is
        frozen or the limit has been passed. */
    method PutDirect(buf: seq<byte>) returns (put: nat, failed: bool)
      requires Valid()
      modifies this`hasError, this`freezeOutput, this`bytesXfer, backend
      ensures put <= |buf| && backend.accepted == old(backend.accepted) + buf[..put]
      ensures bytesXfer == old(bytesXfer) + put && hasError == (old(hasError) || failed)
      ensures old(freezeOutput) ==> put == 0 && !failed && freezeOutput && backend.answers == old(backend.answers)
      ensures !old(freezeOutput) ==> var run := PutRun(old(backend.answers), |buf|, xferLimit - old(bytesXfer));
        && put == |buf| - run.left && backend.answers == run.rest
        && failed == (run.end == Failed) && freezeOutput == (run.end == Paused)
        && (run.end == Limited <==> put < |buf| && bytesXfer > xferLimit && !failed && !freezeOutput)
    {
      hide PutRun;
      put, failed := 0, false;
      ghost var accepted := backend.accepted;
      assert accepted + buf[..0] == accepted;
      while !freezeOutput && put < |buf|
        invariant put <= |buf| && backend.accepted == accepted + buf[..put]
        invariant bytesXfer == old(bytesXfer) + put && hasError == old(hasError) && freezeOutput == old(freezeOutput)
        invariant old(freezeOutput) ==> put == 0 && backend.answers == old(backend.answers)
        invariant PutRun(backend.answers, |buf| - put, xferLimit - bytesXfer)
               == PutRun(old(backend.answers), |buf|, xferLimit - old(bytesXfer))
      {
        if bytesXfer > xferLimit {
          break;
        }
        PutStep(backend.answers, |buf| - put, xferLimit - bytesXfer);
        var ret := backend.Put(buf[put..]);
        if ret == -EAGAIN {
          freezeOutput := true;
          break;
        }
        if ret <= 0 {
          hasError := true;
          failed := true;
          break;
        }
        MoreAccepted(accepted, buf, put, ret);
        put := put + ret;
        bytesXfer := bytesXfer + ret;
      }
      PutStops(backend.answers, |buf| - put, xferLimit - bytesXfer);
    }

    /** What a put of n bytes meets after a flush of what waits, if the file has no error: nothing is
        put after a flush that ends in a pause. */
    ghost function DirectRun(n: nat): Outcome
      reads this, backend
    {
      var flush := FlushRun(backend.answers, bufferSize);
      if flush.end == Paused then Outcome(n, Paused, flush.rest) else PutRun(flush.rest, n, xferLimit - bytesXfer)
    }

    /** buffered_put_buffer: `sent` of the waiting bytes and `put` of the new ones reach the backend,
        and the rest waits. New bytes overtake waiting ones exactly if the flush before them fails,
        which the loop after it does not look at, and the backend then takes bytes again. */
    method PutBuffer(buf: seq<byte>, pos: int) returns (ret: int, ready: bool, ghost sent: nat, ghost put: nat)
      requires Valid()
      modifies this`hasError, this`freezeOutput, this`bytesXfer, this`buffer, this`bufferSize, buffer, backend
      ensures Valid() && sent <= old(bufferSize) && put <= |buf| && (buffer == old(buffer) || fresh(buffer))
      ensures backend.accepted == old(backend.accepted) + old(Pending())[..sent] + buf[..put]
      ensures Pending() == old(Pending())[sent..] + if ret >= 0 then buf[put..] else []
      ensures old(hasError) ==> ret == -EINVAL && sent == 0 && put == 0 && hasError
      ensures !old(hasError) ==> var flush := FlushRun(old(backend.answers), old(bufferSize));
        && sent == old(bufferSize) - flush.left && put == |buf| - old(DirectRun(|buf|)).left
        && ret == (if old(DirectRun(|buf|)).end == Failed then -EINVAL else |buf|)
        && hasError == (flush.end == Failed || ret < 0)
        && (put > 0 && sent < old(bufferSize) <==>
              flush.end == Failed && buf != [] && old(bytesXfer) <= xferLimit && flush.rest != [] && flush.rest[0] > 0)
      ensures !hasError ==>
        ret == |buf| && backend.accepted + Pending() == old(backend.accepted + Pending()) + buf
      ensures HoldsWhileWaiting()
      ensures bytesXfer == old(bytesXfer) + put && (put > 0 ==> old(bytesXfer) <= xferLimit)
      ensures ready <==> !old(hasError) && pos == 0 && buf == [] && bytesXfer <= xferLimit
    {
      hide FlushRun;
      hide PutRun;
      sent, put, ready := 0, 0, false;
      ghost var accepted, waiting := backend.accepted, Pending();
      if hasError {
        NothingPut(accepted, waiting, buf, 0);
        return -EINVAL, false, 0, 0;
      }
      freezeOutput := false;
      sent := Flush();
      var offset, failed := PutDirect(buf);
      put := offset;
      if failed {
        ret := -EINVAL;
        NothingPut(accepted, waiting, buf, sent);
      } else {
        Append(buf[offset..]);
        ret := |buf|;
      }
      ready := pos == 0 && |buf| == 0 && bytesXfer <= xferLimit;
      if put == 0 || sent == |waiting| {
        Conserve(accepted, waiting, sent, buf, put);
      }
    }

    /** buffered_rate_limit: whether the caller is to hold back. */
    method RateLimit() returns (hold: bool)
      ensures hold <==> !hasError && (freezeOutput || bytesXfer > xferLimit)
    {
      if hasError {
        return false;
      }
      if freezeOutput {
        return true;
      }
      if bytesXfer > xferLimit {
        return true;
      }
      return false;
    }

    /** The loop of ram_save_live, which asks for the rate limit before each put: unless there is an
        error, no more waits after it than waited before it or than one item holds, and if it stops
        early it is because of a pause or the limit. */
    method Produce(items: seq<seq<byte>>, most: nat) returns (n: nat)
      requires Valid() && HoldsWhileWaiting() && forall i :: 0 <= i < |items| ==> |items[i]| <= most
      modifies this`hasError, this`freezeOutput, this`bytesXfer, this`buffer, this`bufferSize, buffer, backend
      ensures Valid() && HoldsWhileWaiting() && n <= |items|
      ensures !hasError ==> |Pending()| <= if n == 0 then |old(Pending())| else most
      ensures !hasError ==> backend.accepted + Pending() == old(backend.accepted + Pending()) + Joined(items[..n])
      ensures n < |items| ==> !hasError && (freezeOutput || bytesXfer > xferLimit)
    {
      n := 0;
      ghost var all := backend.accepted + Pending();
      assert all + Joined(items[..0]) == all;
      var hold := RateLimit();
      while !hold && n < |items|
        invariant Valid() && HoldsWhileWaiting() && n <= |items| && (buffer == old(buffer) || fresh(buffer))
        invariant hold <==> !hasError && (freezeOutput || bytesXfer > xferLimit)
        invariant !hasError ==> |Pending()| <= if n == 0 then |old(Pending())| else most
        invariant !hasError ==> backend.accepted + Pending() == all + Joined(items[..n])
      {
        ghost var sent, put;
        var ret, ready;
        ret, ready, sent, put := PutBuffer(items[n], 1);
        assert items[..n + 1][..n] == items[..n];
        assert all + Joined(items[..n]) + items[n] == all + (Joined(items[..n]) + items[n]);
        n := n + 1;
        hold := RateLimit();
      }
    }

    /** buffered_set_rate_limit, in bytes a second. */
    method SetRateLimit(newRate: nat) returns (limit: nat)
      modifies this`xferLimit
      ensures limit == xferLimit
      ensures hasError ==> limit == old(xferLimit)
      ensures !hasError ==> 10 * limit <= newRate < 10 * (limit + 1)
    {
      if !hasError {
        xferLimit := newRate / 10;
      }
      return xferLimit;
    }

    /** buffered_close, up to the call of close. Each time the output is frozen the backend is waited
        for; `wakes` are the answers it is ready to give after a wait, and if it never becomes ready
        again the call is still waiting. */
    method Drain(wakes: seq<int>) returns (done: bool)
      requires Valid()
      modifies this`hasError, this`freezeOutput, this`bufferSize, buffer, backend
      ensures Valid() && backend.accepted + Pending() == old(backend.accepted + Pending())
      ensures done ==> hasError || Pending() == []
      ensures old(hasError) ==> done && backend.accepted == old(backend.accepted)
    {
      var n := 0;
      ghost var all := backend.accepted + Pending();
      while !hasError && bufferSize > 0
        invariant old(hasError) ==> hasError && backend.accepted == old(backend.accepted)
        invariant Valid() && n <= |wakes| && backend.accepted + Pending() == all && buffer == old(buffer)
        decreases |wakes| - n, bufferSize, !hasError
      {
        ghost var accepted, waiting := backend.accepted, Pending();
        ghost var sent := Flush();
        SplitAt(accepted, waiting, sent);
        if freezeOutput {
          if n == |wakes| {
            return false;
          }
          backend.answers := [wakes[n]] + backend.answers;
          n := n + 1;
        }
      }
      return true;
    }

    /** buffered_rate_tick: a new interval begins, and what waits is put to the backend, unless the
        output is frozen. After an error the file is closed. */
    method RateTick(wakes: seq<int>) returns (ready: bool)
      requires Valid()
      modifies this`hasError, this`freezeOutput, this`bytesXfer, this`bufferSize, buffer, backend
      ensures Valid() && backend.accepted + Pending() == old(backend.accepted + Pending())
      ensures ready <==> !old(hasError) && !old(freezeOutput)
      ensures ready ==> bytesXfer == 0
      ensures HoldsWhileWaiting()
      ensures !ready ==> bytesXfer == old(bytesXfer) && backend.accepted == old(backend.accepted)
    {
      if hasError {
        var done := Drain(wakes);
        return false;
      }
      if freezeOutput {
        return false;
      }
      bytesXfer := 0;
      ghost var accepted, waiting := backend.accepted, Pending();
      ghost var sent := Flush();
      SplitAt(accepted, waiting, sent);
      return true;
    }

    /** Any sequence of puts, timer ticks and changes of the rate, whatever the backend answers: as
        long as no error is flagged, what it has taken followed by what waits is all that was
        submitted, in order. */
    method Run(ops: seq<Op>)
      requires Valid() && !hasError
      modifies this, buffer, backend
      ensures Valid()
      ensures !hasError ==> backend.accepted + Pending() == old(backend.accepted + Pending()) + Submitted(ops, |ops|)
    {
      ghost var all := backend.accepted + Pending();
      NothingSubmitted(ops, all);
      for i := 0 to |ops|
        invariant Valid() && (buffer == old(buffer) || fresh(buffer))
        invariant !hasError ==> backend.accepted + Pending() == all + Submitted(ops, i)
      {
        if hasError {
          return;
        }
        SubmittedNext(ops, i, all);
        match ops[i] {
          case PutOp(buf, pos) =>
            ghost var sent, put;
            var ret, ready;
            ret, ready, sent, put := PutBuffer(buf, pos);
          case Tick =>
            var ready := RateTick([]);
          case SetRate(rate) =>
            var limit := SetRateLimit(rate);
          case Answers(answers) =>
            backend.answers := answers;
        }
      }
    }
  }

  lemma OvertakingRuns()
    ensures FlushRun([-EAGAIN], 0) == Outcome(0, Done, [-EAGAIN]) && PutRun([-EAGAIN], 1, 1) == Outcome(1, Paused, [])
    ensures FlushRun([0, 1], 1) == Outcome(1, Failed, [1]) && PutRun([1], 1, 1) == Outcome(0, Done, [])
  {
    assert PutRun([], 0, 0) == Outcome(0, Done, []);
  }

  /** The byte 1 has to wait because of a pause. Then the new byte 2 overtakes it, when the backend
      refuses the one and takes the other. */
  method Overtaking() returns (accepted: seq<byte>, pending: seq<byte>)
    ensures accepted == [2] && pending == [1]
  {
    hide PutRun;
    hide FlushRun;
    OvertakingRuns();
    var backend := new Backend;
    backend.answers, backend.accepted := [-EAGAIN], [];
    var f := new BufferedFile(backend, 10);
    ghost var sent, put;
    var ret, ready;
    ret, ready, sent, put := f.PutBuffer([1], 1);
    assert f.Pending() == [1] && backend.accepted == [];
    backend.answers := [0, 1];
    ret, ready, sent, put := f.PutBuffer([2], 1);
    assert [2][..put] == [2] && [2][put..] == [] && [1][sent..] == [1];
    accepted, pending := backend.accepted, f.buffer[..f.bufferSize];
  }

  function Joined(items: seq<seq<byte>>): seq<byte> {
    if items == [] then [] else Joined(items[..|items| - 1]) + items[|items| - 1]
  }

  datatype Op = PutOp(buf: seq<byte>, pos: int) | Tick | SetRate(rate: nat) | Answers(answers: seq<int>)

  /** All bytes that the first n operations submit. */
  function Submitted(ops: seq<Op>, n: nat): seq<byte>
    requires n <= |ops|
  {
    if n == 0 then [] else Submitted(ops, n - 1) + if ops[n - 1].PutOp? then ops[n - 1].buf else []
  }

  lemma NothingSubmitted(ops: seq<Op>, all: seq<byte>)
    ensures all + Submitted(ops, 0) == all
  {}

  lemma SubmittedNext(ops: seq<Op>, n: nat, all: seq<byte>)
    requires n < |ops|
    ensures all + Submitted(ops, n + 1) == all + Submitted(ops, n) + if ops[n].PutOp? then ops[n].buf else []
  {}
}
