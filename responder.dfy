/** The read / dispatch / write loop of `vtpmctrl_create`. The server
    descriptor is modelled by the sequence of results its `read` calls
    return, each paired with the result of the `write` that answers it; the
    4096-byte request buffer keeps its contents from one read to the next,
    and a read overwrites only as many leading bytes as it returns. */
module Responder {
  import opened Tpm12
  import opened Classify

  /** One `read` on the server descriptor and the `write` that follows it.
      `readResult` is what `read` returns (<= 0: end of stream or error),
      `data` the bytes it stored, and `writeResult` what the answering
      `write` returns (< 0: error); it is unused when no answer is written. */
  datatype Exchange = Exchange(readResult: int, data: seq<byte>, writeResult: int)

  /** A `read` never returns more than the buffer holds, and a positive
      result is the number of bytes stored. */
  predicate WellFormed(x: Exchange) {
    x.readResult > 0 ==> x.readResult == |x.data| <= BufferSize
  }

  predicate AllWellFormed(xs: seq<Exchange>) {
    forall i | 0 <= i < |xs| :: WellFormed(xs[i])
  }

  /** Why the loop ended: a read returned <= 0 bytes, a write failed, or a
      request arrived after `started` with the exit option set. */
  datatype StopReason = ReadEnded | WriteFailed | UserRequest

  /** The responses handed to `write`, in order, the final value of
      `started`, and why the loop ended. */
  datatype Outcome = Outcome(written: seq<seq<byte>>, started: bool, reason: StopReason)

  /** The buffer after a read of `data` into it. */
  function Overwrite(buffer: seq<byte>, data: seq<byte>): (b: seq<byte>)
    requires |data| <= |buffer|
    ensures |b| == |buffer| && b[..|data|] == data && b[|data|..] == buffer[|data|..]
    ensures |data| == |buffer| ==> b == data
  {
    assert |data| == |buffer| ==> buffer[|data|..] == [];
    data + buffer[|data|..]
  }

  /** The loop run from flag value `started` and buffer contents `buffer`
      over the exchanges `xs`; once `xs` is used up, `read` reports end of
      stream. */
  function Run(exitOnUser: bool, started: bool, buffer: seq<byte>, xs: seq<Exchange>): (o: Outcome)
    requires |buffer| == BufferSize && AllWellFormed(xs)
    ensures |o.written| <= |xs|
    ensures started ==> o.started
    ensures o.reason == UserRequest ==> exitOnUser && o.started
    decreases |xs|
  {
    if |xs| == 0 || xs[0].readResult <= 0 then
      Outcome([], started, ReadEnded)
    else
      var buf := Overwrite(buffer, xs[0].data);
      match Dispatch(started, exitOnUser, buf)
      case Exit => Outcome([], started, UserRequest)
      case Respond(Reply(response, started')) =>
        if xs[0].writeResult < 0 then
          Outcome([response], started', WriteFailed)
        else
          var rest := Run(exitOnUser, started', buf, xs[1..]);
          Outcome([response] + rest.written, rest.started, rest.reason)
  }

  /** A suffix of a well-formed stream is well formed. */
  lemma SuffixWellFormed(xs: seq<Exchange>, k: nat)
    requires AllWellFormed(xs) && k <= |xs|
    ensures AllWellFormed(xs[k..])
  {
    forall i | 0 <= i < |xs[k..]| ensures WellFormed(xs[k..][i]) {
      assert xs[k..][i] == xs[k + i];
    }
  }

  /** The effect of a `read` on the buffer: the bytes it returns replace the
      buffer's first bytes and the rest is left as it was. */
  method Store(buffer: array<byte>, data: seq<byte>)
    requires |data| <= buffer.Length
    modifies buffer
    ensures buffer[..] == Overwrite(old(buffer[..]), data)
  {
    forall i | 0 <= i < |data| {
      buffer[i] := data[i];
    }
  }

  /** One answered request: how the run continues once a request has been
      read, answered and its answer written successfully. */
  lemma RunAnswered(exitOnUser: bool, started: bool, buffer: seq<byte>, xs: seq<Exchange>)
    requires |buffer| == BufferSize && AllWellFormed(xs)
    requires |xs| > 0 && xs[0].readResult > 0 && xs[0].writeResult >= 0 && !(started && exitOnUser)
    ensures AllWellFormed(xs[1..])
    ensures var buf := Overwrite(buffer, xs[0].data);
            var reply := Select(started, buf);
            var rest := Run(exitOnUser, reply.started, buf, xs[1..]);
            Run(exitOnUser, started, buffer, xs) == Outcome([reply.response] + rest.written, rest.started, rest.reason)
  {
    SuffixWellFormed(xs, 1);
  }

  /** The three ways one iteration can end the run. */
  lemma RunStops(exitOnUser: bool, started: bool, buffer: seq<byte>, xs: seq<Exchange>)
    requires |buffer| == BufferSize && AllWellFormed(xs)
    ensures |xs| == 0 || xs[0].readResult <= 0 ==>
              Run(exitOnUser, started, buffer, xs) == Outcome([], started, ReadEnded)
    ensures |xs| > 0 && xs[0].readResult > 0 && started && exitOnUser ==>
              Run(exitOnUser, started, buffer, xs) == Outcome([], started, UserRequest)
    ensures |xs| > 0 && xs[0].readResult > 0 && !(started && exitOnUser) && xs[0].writeResult < 0 ==>
              var reply := Select(started, Overwrite(buffer, xs[0].data));
              Run(exitOnUser, started, buffer, xs) == Outcome([reply.response], reply.started, WriteFailed)
  {
  }

  /** One pass of the loop body: the `read` that yields exchange `k` (or end
      of stream once the exchanges are used up), the exit rule, the choice of
      the answer and the `write`. `answer` holds the response written, if
      any; `stop` says whether the loop ends here and why. */
  method Turn(buffer: array<byte>, exitOnUser: bool, started: bool, xs: seq<Exchange>, k: nat)
    returns (answer: seq<seq<byte>>, started': bool, stop: bool, reason: StopReason)
    requires buffer.Length == BufferSize && AllWellFormed(xs) && k <= |xs|
    modifies buffer
    ensures stop || k < |xs|
    ensures |answer| <= 1 && (started ==> started')
    ensures AllWellFormed(xs[k..]) && (k < |xs| ==> AllWellFormed(xs[k + 1..]))
    ensures var o := Run(exitOnUser, started, old(buffer[..]), xs[k..]);
            if stop then o.written == answer && o.reason == reason
            else var r := Run(exitOnUser, started', buffer[..], xs[k + 1..]);
                 o.written == answer + r.written && o.reason == r.reason
    ensures k < |xs| && xs[k].readResult > 0 ==> buffer[..] == Overwrite(old(buffer[..]), xs[k].data)
    ensures k == |xs| || xs[k].readResult <= 0 ==> buffer[..] == old(buffer[..])
    ensures !stop ==> answer == [Select(started, buffer[..]).response]
                      && started' == Select(started, buffer[..]).started
  {
    ghost var before := buffer[..];
    SuffixWellFormed(xs, k);
    RunStops(exitOnUser, started, before, xs[k..]);
    var n := if k < |xs| then xs[k].readResult else 0;
    if n <= 0 {
      return [], started, true, ReadEnded;
    }
    SuffixWellFormed(xs, k + 1);
    var data := xs[k].data;
    assert xs[k..][0] == xs[k] && xs[k..][1..] == xs[k + 1..];
    Store(buffer, data);
    if started && exitOnUser {
      return [], started, true, UserRequest;
    }
    var reply := Select(started, buffer[..]);
    answer := [reply.response];
    started' := reply.started;
    if xs[k].writeResult < 0 {
      return answer, started', true, WriteFailed;
    }
    RunAnswered(exitOnUser, started, before, xs[k..]);
    stop, reason := false, ReadEnded;
  }

  lemma AppendAssoc<T>(a: seq<T>, b: seq<T>, c: seq<T>)
    ensures a + (b + c) == (a + b) + c
  {
  }

  /** The loop itself. `garbage` is what the uninitialised stack buffer holds
      before the first read. Every exit returns 0. */
  method Serve(exitOnUser: bool, garbage: seq<byte>, xs: seq<Exchange>)
    returns (status: int, written: seq<seq<byte>>, reason: StopReason)
    requires |garbage| == BufferSize && AllWellFormed(xs)
    ensures status == 0
    ensures var o := Run(exitOnUser, false, garbage, xs);
            written == o.written && reason == o.reason
  {
    ghost var total := Run(exitOnUser, false, garbage, xs);
    var buffer := new byte[BufferSize];
    Store(buffer, garbage);
    var started := false;
    var k := 0;
    written := [];
    assert buffer[..] == garbage && xs[k..] == xs;
    assert written + total.written == total.written;
    while true
      invariant k <= |xs| && buffer.Length == BufferSize && AllWellFormed(xs[k..])
      invariant var r := Run(exitOnUser, started, buffer[..], xs[k..]);
                total.written == written + r.written && total.reason == r.reason
      decreases |xs| - k
    {
      var answer, started', stop, why := Turn(buffer, exitOnUser, started, xs, k);
      if stop {
        return 0, written + answer, why;
      }
      AppendAssoc(written, answer, Run(exitOnUser, started', buffer[..], xs[k + 1..]).written);
      written := written + answer;
      started := started';
      k := k + 1;
    }
  }

  /** Every buffer handed to `write` is one of the three canned responses,
      unmodified. */
  lemma {:induction false} RunWritesCanned(exitOnUser: bool, started: bool, buffer: seq<byte>, xs: seq<Exchange>)
    requires |buffer| == BufferSize && AllWellFormed(xs)
    ensures forall r | r in Run(exitOnUser, started, buffer, xs).written :: r in CannedResponses
    decreases |xs|
  {
    if |xs| > 0 && xs[0].readResult > 0 && xs[0].writeResult >= 0 && !(started && exitOnUser) {
      RunAnswered(exitOnUser, started, buffer, xs);
      var buf := Overwrite(buffer, xs[0].data);
      RunWritesCanned(exitOnUser, Select(started, buf).started, buf, xs[1..]);
    }
  }

  /** `started` ends up true exactly when it was true already or the
      duration query was answered at some point. */
  lemma {:induction false} RunStartedIff(exitOnUser: bool, started: bool, buffer: seq<byte>, xs: seq<Exchange>)
    requires |buffer| == BufferSize && AllWellFormed(xs)
    ensures var o := Run(exitOnUser, started, buffer, xs);
            o.started <==> started || DurationRes in o.written
    decreases |xs|
  {
    if |xs| > 0 && xs[0].readResult > 0 && xs[0].writeResult >= 0 && !(started && exitOnUser) {
      RunAnswered(exitOnUser, started, buffer, xs);
      var buf := Overwrite(buffer, xs[0].data);
      RunStartedIff(exitOnUser, Select(started, buf).started, buf, xs[1..]);
    }
  }

  /** With the exit option set and `started` already true, the loop writes
      nothing: the next request ends it, and so does a failed read. */
  lemma ExitOnceStarted(buffer: seq<byte>, xs: seq<Exchange>)
    requires |buffer| == BufferSize && AllWellFormed(xs)
    ensures var o := Run(true, true, buffer, xs);
            o.written == [] && o.started
            && (o.reason == UserRequest <==> |xs| > 0 && xs[0].readResult > 0)
            && (o.reason == ReadEnded <==> |xs| == 0 || xs[0].readResult <= 0)
  {
  }

  /** With the exit option set, the duration answer is the last response the
      loop ever writes. */
  lemma {:induction false} DurationAnswerIsLast(started: bool, buffer: seq<byte>, xs: seq<Exchange>)
    requires |buffer| == BufferSize && AllWellFormed(xs)
    ensures var o := Run(true, started, buffer, xs);
            forall i | 0 <= i < |o.written| - 1 :: o.written[i] != DurationRes
    decreases |xs|
  {
    if |xs| > 0 && xs[0].readResult > 0 && xs[0].writeResult >= 0 && !started {
      RunAnswered(true, started, buffer, xs);
      var buf := Overwrite(buffer, xs[0].data);
      var reply := Select(started, buf);
      DurationAnswerIsLast(reply.started, buf, xs[1..]);
      var rest := Run(true, reply.started, buf, xs[1..]);
      var o := Run(true, started, buffer, xs);
      if reply.response == DurationRes {
        ExitOnceStarted(buf, xs[1..]);
        assert o.written == [DurationRes];
      } else {
        forall i | 0 <= i < |o.written| - 1 ensures o.written[i] != DurationRes {
          if i > 0 {
            assert o.written[i] == rest.written[i - 1];
          }
        }
      }
    }
  }

  /** Exchange `i` is the first whose write fails: every exchange before it
      read data and wrote its answer successfully. */
  predicate FirstWriteFailure(xs: seq<Exchange>, i: int) {
    0 <= i < |xs| && xs[i].readResult > 0 && xs[i].writeResult < 0
    && forall j | 0 <= j < i :: xs[j].readResult > 0 && xs[j].writeResult >= 0
  }

  /** After an exchange that read data and wrote its answer, the first
      failing write is the first failing write of the remaining exchanges. */
  lemma FirstWriteFailureShift(xs: seq<Exchange>)
    requires |xs| > 0 && xs[0].readResult > 0 && xs[0].writeResult >= 0
    ensures (exists i :: FirstWriteFailure(xs, i)) <==> (exists i :: FirstWriteFailure(xs[1..], i))
  {
    var tail := xs[1..];
    if exists i :: FirstWriteFailure(xs, i) {
      var i :| FirstWriteFailure(xs, i);
      assert FirstWriteFailure(tail, i - 1) by {
        forall j | 0 <= j < i - 1 ensures tail[j].readResult > 0 && tail[j].writeResult >= 0 {
          assert tail[j] == xs[j + 1];
        }
      }
    }
    if exists i :: FirstWriteFailure(tail, i) {
      var i :| FirstWriteFailure(tail, i);
      assert FirstWriteFailure(xs, i + 1) by {
        forall j | 0 <= j < i + 1 ensures xs[j].readResult > 0 && xs[j].writeResult >= 0 {
          if j > 0 { assert xs[j] == tail[j - 1]; }
        }
      }
    }
  }

  /** Without the exit option only a read of <= 0 bytes or a failed write
      ends the loop, and it ends on a write exactly when some write fails
      before any read comes back empty. */
  lemma {:induction false} NoUserExitWithoutOption(started: bool, buffer: seq<byte>, xs: seq<Exchange>)
    requires |buffer| == BufferSize && AllWellFormed(xs)
    ensures Run(false, started, buffer, xs).reason != UserRequest
    ensures Run(false, started, buffer, xs).reason == WriteFailed <==> exists i :: FirstWriteFailure(xs, i)
    decreases |xs|
  {
    if |xs| > 0 && xs[0].readResult > 0 && xs[0].writeResult >= 0 {
      RunAnswered(false, started, buffer, xs);
      var buf := Overwrite(buffer, xs[0].data);
      NoUserExitWithoutOption(Select(started, buf).started, buf, xs[1..]);
      FirstWriteFailureShift(xs);
    } else if |xs| > 0 && xs[0].readResult > 0 {
      RunStops(false, started, buffer, xs);
      assert FirstWriteFailure(xs, 0);
    } else {
      RunStops(false, started, buffer, xs);
      forall i ensures !FirstWriteFailure(xs, i) {
        if 0 < i < |xs| {
          assert xs[0].readResult <= 0;
        }
      }
    }
  }

  /** A request shorter than 22 bytes is compared together with stale bytes
      of the previous request: a truncated duration query that follows a full
      one is answered with the duration values, ... */
  lemma StaleBytesDecideShortRequest(garbage: seq<byte>)
    requires |garbage| == BufferSize
    ensures var xs := [Exchange(22, DurationReq, 26), Exchange(10, DurationReq[..10], 26)];
            AllWellFormed(xs) && Run(false, false, garbage, xs).written == [DurationRes, DurationRes]
  {
    var xs := [Exchange(22, DurationReq, 26), Exchange(10, DurationReq[..10], 26)];
    assert WellFormed(xs[0]) && WellFormed(xs[1]);
    var b1 := Overwrite(garbage, DurationReq);
    assert b1[..PatternSize] == DurationReq;
    SelectSpec(false, b1);
    RunAnswered(false, false, garbage, xs);
    var b2 := Overwrite(b1, DurationReq[..10]);
    assert b2[..PatternSize] == DurationReq;
    SelectSpec(true, b2);
    var rest := xs[1..];
    assert rest == [xs[1]];
    RunAnswered(false, true, b1, rest);
    RunStops(false, true, b2, rest[1..]);
  }

  /** ... while the same truncated query on a zeroed buffer gets the bare
      success header. */
  lemma ShortRequestOnZeroedBuffer()
    ensures var xs := [Exchange(10, DurationReq[..10], 10)];
            AllWellFormed(xs) && Run(false, false, seq(BufferSize, _ => 0), xs).written == [SuccessResp]
  {
    var b := Overwrite(seq(BufferSize, _ => 0), DurationReq[..10]);
    assert b[21] == 0 && DurationReq[21] != 0;
    assert b[..PatternSize] != DurationReq && b[..PatternSize] != TimeoutReq;
  }

  /** A request of at least 22 bytes is classified on its own bytes alone,
      whatever the buffer held before. */
  lemma LongRequestIgnoresStaleBytes(started: bool, b1: seq<byte>, b2: seq<byte>, data: seq<byte>)
    requires |b1| == |b2| == BufferSize && PatternSize <= |data| <= BufferSize
    ensures Select(started, Overwrite(b1, data)) == Select(started, Overwrite(b2, data))
  {
    SelectReadsPrefix(started, Overwrite(b1, data), Overwrite(b2, data));
  }
}
