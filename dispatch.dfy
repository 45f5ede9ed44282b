/** Classification of one request and choice of its canned answer, as done
    inside the service loop of `vtpmctrl_create`: the exit rule checked first,
    then a `switch` on the ordinal, with byte-exact matching of the first 22
    buffer bytes for GetCapability. */
module Classify {
  import opened Tpm12

  /** The chosen answer and the new value of the `started` flag. */
  datatype Reply = Reply(response: seq<byte>, started: bool)

  /** What the loop does with a request it has read. */
  datatype Step = Exit | Respond(reply: Reply)

  /** The `switch` on the ordinal. `buffer` is the whole request buffer, so a
      short request is classified together with whatever older bytes follow it
      in the buffer. Only the first 22 bytes take part in a pattern match. */
  function Select(started: bool, buffer: seq<byte>): (r: Reply)
    requires |buffer| >= PatternSize
    ensures r.response in CannedResponses
    ensures started ==> r.started
  {
    var ordinal := Ordinal(buffer);
    if ordinal == OrdStartup then
      Reply(SuccessResp, started)
    else if ordinal == OrdGetCapability then
      if buffer[..PatternSize] == TimeoutReq then Reply(TimeoutRes, started)
      else if buffer[..PatternSize] == DurationReq then Reply(DurationRes, true)
      else Reply(SuccessResp, started)
    else
      Reply(SuccessResp, started)
  }

  /** The answer characterised by the request bytes alone: the timeout reply
      exactly for the timeout pattern, the duration reply exactly for the
      duration pattern, the success header otherwise (in particular for every
      ordinal but GetCapability), and `started` set exactly by the duration
      pattern. */
  lemma SelectSpec(started: bool, buffer: seq<byte>)
    requires |buffer| >= PatternSize
    ensures var r := Select(started, buffer);
            && (Ordinal(buffer) != OrdGetCapability ==> r == Reply(SuccessResp, started))
            && (r.response == TimeoutRes <==> buffer[..PatternSize] == TimeoutReq)
            && (r.response == DurationRes <==> buffer[..PatternSize] == DurationReq)
            && (r.response == SuccessResp <==> buffer[..PatternSize] != TimeoutReq && buffer[..PatternSize] != DurationReq)
            && (r.started <==> started || buffer[..PatternSize] == DurationReq)
  {
    PatternOrdinal(buffer);
    CannedResponsesDistinct();
  }

  /** A buffer that matches either capability pattern carries the
      GetCapability ordinal, so the pattern test is reached only through the
      GetCapability case of the `switch`. */
  lemma PatternOrdinal(buffer: seq<byte>)
    requires |buffer| >= PatternSize
    ensures buffer[..PatternSize] == TimeoutReq ==> Ordinal(buffer) == OrdGetCapability
    ensures buffer[..PatternSize] == DurationReq ==> Ordinal(buffer) == OrdGetCapability
  {
    if buffer[..PatternSize] == TimeoutReq || buffer[..PatternSize] == DurationReq {
      assert buffer[6..10] == buffer[..PatternSize][6..10] == TimeoutReq[6..10];
      assert Be32(buffer, 6) == Be32(TimeoutReq, 6);
    }
  }

  /** One loop iteration after a successful read: once `started` is true and
      the exit-on-user-request option is set, any request ends the loop
      before it is even classified; otherwise it is answered. */
  function Dispatch(started: bool, exitOnUser: bool, buffer: seq<byte>): (s: Step)
    requires |buffer| >= PatternSize
    ensures s.Exit? <==> started && exitOnUser
    ensures s.Respond? ==> s.reply == Select(started, buffer)
  {
    if started && exitOnUser then Exit else Respond(Select(started, buffer))
  }

  /** A Startup request is answered with the bare success header and leaves
      `started` as it was. */
  lemma StartupAnswered(started: bool, exitOnUser: bool, buffer: seq<byte>)
    requires |buffer| >= PatternSize && Ordinal(buffer) == OrdStartup
    requires !(started && exitOnUser)
    ensures Dispatch(started, exitOnUser, buffer) == Respond(Reply(SuccessResp, started))
  {
    SelectSpec(started, buffer);
  }

  /** Only the first 22 bytes of the buffer decide the answer. */
  lemma SelectReadsPrefix(started: bool, b1: seq<byte>, b2: seq<byte>)
    requires |b1| >= PatternSize && |b2| >= PatternSize
    requires b1[..PatternSize] == b2[..PatternSize]
    ensures Select(started, b1) == Select(started, b2)
  {
    assert b1[6..10] == b1[..PatternSize][6..10];
    assert b2[6..10] == b2[..PatternSize][6..10];
  }
}
