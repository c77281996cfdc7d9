/**
  `transcribeVideoAction(publicId)`: ask the media service to transcribe the
  video, poll the transcription status up to five times with waits of 2, 4, 8
  and 16 seconds in between, and report the subtitled video's URL, a failure,
  or the message of whatever was thrown.
 */
module TranscribeVideo {
  import opened Wrappers
  import opened JsString
  import opened ActionResults

  const MaxAttempts := 5
  const InitialDelay := 2000
  const ExhaustedMessage := "Unable to transcribe video after multiple attempts. Please try again later."
  const FailedMessage := "Video transcription failed. Please try again later."
  const GenericMessage := "An unexpected error occurred. Please try again later."

  /**
    What one `cloudinary.api.resource(publicId)` call gives: the value at
    `info.raw_convert.google_speech.status` (`None` when any step of that path
    is missing), or a thrown value.
   */
  datatype StatusReply = Reply(field: Option<string>) | Raised(thrown: Thrown)

  type StatusSource = nat -> StatusReply

  /** The status `checkVideoTranscriptionStatus` returns for a field: `field || "pending"`. */
  function StatusOrPending(field: Option<string>): (status: string)
    ensures status != ""
    ensures Truthy(field) ==> status == field.value
    ensures !Truthy(field) ==> status == "pending"
  {
    if Truthy(field) then field.value else "pending"
  }

  /** `checkVideoTranscriptionStatus(publicId)`: the status, or the rethrown value. */
  function CheckStatus(reply: StatusReply): (r: Completion<string>)
    ensures r.Threw? <==> reply.Raised?
    ensures r.Threw? ==> r.thrown == reply.thrown
    ensures r.Returned? ==> r.value != "" && (r.value == "pending" || reply.field == Some(r.value))
  {
    match reply
    case Reply(field) => Returned(StatusOrPending(field))
    case Raised(e) => Threw(e)
  }

  predicate IsTerminal(status: string) {
    status == "complete" || status == "failed"
  }

  function Pow2(n: nat): (p: nat)
    ensures p >= 1
  {
    if n == 0 then 1 else 2 * Pow2(n - 1)
  }

  /** `initialDelay * Math.pow(2, attempt - 1)`. */
  function Backoff(attempt: nat): nat
    requires attempt >= 1
  {
    InitialDelay * Pow2(attempt - 1)
  }

  /** What a transcription poll did: the status it returned or what it threw, and its events. */
  datatype StatusRun = StatusRun(outcome: Completion<string>, trace: seq<Event>)

  /** The poll from check `attempt` on, as the source runs it; past the last check it throws. */
  function StatusPollFrom(check: StatusSource, attempt: nat): StatusRun
    requires 1 <= attempt <= MaxAttempts + 1
    decreases MaxAttempts + 1 - attempt
  {
    if attempt > MaxAttempts then StatusRun(Threw(Error(ExhaustedMessage)), [])
    else match CheckStatus(check(attempt))
      case Threw(e) => StatusRun(Threw(e), [StatusChecked(attempt)])
      case Returned(status) =>
        if IsTerminal(status) then StatusRun(Returned(status), [StatusChecked(attempt)])
        else
          var wait := if attempt < MaxAttempts then [Sleep(Backoff(attempt))] else [];
          var rest := StatusPollFrom(check, attempt + 1);
          StatusRun(rest.outcome, [StatusChecked(attempt)] + wait + rest.trace)
  }

  /** `waitForVideoTranscription(publicId)`. */
  function StatusPoll(check: StatusSource): StatusRun {
    StatusPollFrom(check, 1)
  }

  method WaitForVideoTranscription(check: StatusSource) returns (outcome: Completion<string>, ghost trace: seq<Event>)
    ensures StatusRun(outcome, trace) == StatusPoll(check)
  {
    trace := [];
    for attempt := 1 to MaxAttempts + 1
      invariant StatusPoll(check).outcome == StatusPollFrom(check, attempt).outcome
      invariant StatusPoll(check).trace == trace + StatusPollFrom(check, attempt).trace
    {
      ghost var before := trace;
      var status := CheckStatus(check(attempt));
      trace := trace + [StatusChecked(attempt)];
      if status.Threw? || IsTerminal(status.value) {
        return status, trace;
      }
      if attempt < MaxAttempts {
        var delay := Backoff(attempt);
        trace := trace + [Sleep(delay)];
      }
      StatusPollFromContinue(check, attempt, before);
    }
    return Threw(Error(ExhaustedMessage)), trace;
  }

  /** A check that does not answer: the check, its wait unless it was the last, then the poll from the next check. */
  lemma StatusPollFromContinue(check: StatusSource, attempt: nat, done: seq<Event>)
    requires 1 <= attempt <= MaxAttempts && !Answers(check, attempt)
    ensures StatusPollFrom(check, attempt).outcome == StatusPollFrom(check, attempt + 1).outcome
    ensures done + [StatusChecked(attempt)] + (if attempt < MaxAttempts then [Sleep(Backoff(attempt))] else [])
            + StatusPollFrom(check, attempt + 1).trace == done + StatusPollFrom(check, attempt).trace
  {
    var status := CheckStatus(check(attempt));
    assert status.Returned? && !IsTerminal(status.value);
    var wait := if attempt < MaxAttempts then [Sleep(Backoff(attempt))] else [];
    var rest := StatusPollFrom(check, attempt + 1);
    assert StatusPollFrom(check, attempt) == StatusRun(rest.outcome, [StatusChecked(attempt)] + wait + rest.trace);
  }

  // ---- what the poll does, for every sequence of status replies ----

  /** Each wait is twice the one before: 2000, 4000, 8000, 16000 ms after checks 1 to 4. */
  lemma BackoffSchedule(attempt: nat)
    requires attempt >= 1
    ensures Backoff(attempt + 1) == 2 * Backoff(attempt)
    ensures Backoff(1) == 2000 && Backoff(2) == 4000 && Backoff(3) == 8000 && Backoff(4) == 16000
  {
  }

  /** The events of checks `first` .. `stop - 1` when each gives a non-terminal status. */
  function Waits(first: nat, stop: nat): (trace: seq<Event>)
    requires 1 <= first <= stop
    decreases stop - first
  {
    if first == stop then [] else [StatusChecked(first), Sleep(Backoff(first))] + Waits(first + 1, stop)
  }

  lemma {:induction false} WaitsCounts(first: nat, stop: nat)
    requires 1 <= first <= stop
    ensures Checks(Waits(first, stop)) == stop - first
    ensures TotalSleep(Waits(first, stop)) == Backoff(stop) - Backoff(first)
    decreases stop - first
  {
    if first < stop {
      var head: seq<Event> := [StatusChecked(first), Sleep(Backoff(first))];
      WaitsCounts(first + 1, stop);
      CountsAppend(head, Waits(first + 1, stop));
      assert Checks(head) == 1 && TotalSleep(head) == Backoff(first);
    }
  }

  /** The status check `k` answers with: what it threw, or the status read from the reply. */
  predicate Answers(check: StatusSource, k: nat) {
    CheckStatus(check(k)).Threw? || IsTerminal(CheckStatus(check(k)).value)
  }

  /** A check that does not answer, before the last one: the check, its wait, then the poll from the next check. */
  lemma StatusPollFromStep(check: StatusSource, attempt: nat)
    requires 1 <= attempt < MaxAttempts && !Answers(check, attempt)
    ensures StatusPollFrom(check, attempt).outcome == StatusPollFrom(check, attempt + 1).outcome
    ensures StatusPollFrom(check, attempt).trace ==
      [StatusChecked(attempt), Sleep(Backoff(attempt))] + StatusPollFrom(check, attempt + 1).trace
  {
    var status := CheckStatus(check(attempt));
    assert status.Returned? && !IsTerminal(status.value);
    var rest := StatusPollFrom(check, attempt + 1);
    assert StatusPollFrom(check, attempt) == StatusRun(rest.outcome, [StatusChecked(attempt)] + [Sleep(Backoff(attempt))] + rest.trace);
    PairPrefix(StatusChecked(attempt), Sleep(Backoff(attempt)), rest.trace);
  }

  /** Proof step only: two single events in front of a trace are the pair in front of it. */
  lemma PairPrefix(a: Event, b: Event, tail: seq<Event>)
    ensures [a] + [b] + tail == [a, b] + tail
  {
  }

  /** Putting one more check and wait in front of a closed form. */
  lemma WaitsPrepend(first: nat, stop: nat, tail: seq<Event>)
    requires 1 <= first < stop
    ensures [StatusChecked(first), Sleep(Backoff(first))] + (Waits(first + 1, stop) + tail) == Waits(first, stop) + tail
  {
  }

  /**
    The closed form of the poll from check `attempt` on, when check `k` is the
    first at or after `attempt` to throw or to give "complete" or "failed".
   */
  lemma {:induction false} StatusPollFromAnswered(check: StatusSource, attempt: nat, k: nat)
    requires 1 <= attempt <= k <= MaxAttempts && Answers(check, k)
    requires forall j :: attempt <= j < k ==> !Answers(check, j)
    ensures StatusPollFrom(check, attempt) == StatusRun(CheckStatus(check(k)), Waits(attempt, k) + [StatusChecked(k)])
    decreases k - attempt
  {
    if attempt == k {
      assert Waits(attempt, k) == [];
    } else {
      StatusPollFromAnswered(check, attempt + 1, k);
      StatusPollFromStep(check, attempt);
      WaitsPrepend(attempt, k, [StatusChecked(k)]);
    }
  }

  /** The closed form of the poll from check `attempt` on, when no check from there on answers. */
  lemma {:induction false} StatusPollFromExhausted(check: StatusSource, attempt: nat)
    requires 1 <= attempt <= MaxAttempts
    requires forall j :: attempt <= j <= MaxAttempts ==> !Answers(check, j)
    ensures StatusPollFrom(check, attempt) ==
      StatusRun(Threw(Error(ExhaustedMessage)), Waits(attempt, MaxAttempts) + [StatusChecked(MaxAttempts)])
    decreases MaxAttempts - attempt
  {
    if attempt == MaxAttempts {
      assert !Answers(check, attempt);
      assert Waits(attempt, MaxAttempts) == [];
      assert StatusPollFrom(check, attempt + 1) == StatusRun(Threw(Error(ExhaustedMessage)), []);
      assert StatusPollFrom(check, attempt).trace == [StatusChecked(attempt)] + [] + [];
    } else {
      StatusPollFromExhausted(check, attempt + 1);
      StatusPollFromStep(check, attempt);
      WaitsPrepend(attempt, MaxAttempts, [StatusChecked(MaxAttempts)]);
    }
  }

  /** The first check at or after `attempt` that answers; one past the last if none. */
  function FirstAnswer(check: StatusSource, attempt: nat): (k: nat)
    requires 1 <= attempt <= MaxAttempts + 1
    ensures attempt <= k <= MaxAttempts + 1
    ensures forall j :: attempt <= j < k ==> !Answers(check, j)
    ensures k <= MaxAttempts ==> Answers(check, k)
    decreases MaxAttempts + 1 - attempt
  {
    if attempt > MaxAttempts || Answers(check, attempt) then attempt
    else FirstAnswer(check, attempt + 1)
  }

  /**
    If check `k` is the first to throw or to give "complete" or "failed", the
    poll stops right there: it returns that status or rethrows that value,
    after exactly `k` checks and 2000 * (2^(k-1) - 1) ms of waiting.
   */
  lemma StatusPollAnswered(check: StatusSource, k: nat)
    requires 1 <= k <= MaxAttempts && Answers(check, k)
    requires forall j :: 1 <= j < k ==> !Answers(check, j)
    ensures StatusPoll(check).outcome == CheckStatus(check(k))
    ensures Checks(StatusPoll(check).trace) == k
    ensures TotalSleep(StatusPoll(check).trace) == InitialDelay * (Pow2(k - 1) - 1)
    ensures StatusPoll(check).trace[|StatusPoll(check).trace| - 1] == StatusChecked(k)
  {
    StatusPollFromAnswered(check, 1, k);
    WaitsCounts(1, k);
    CountsAppend(Waits(1, k), [StatusChecked(k)]);
    assert Checks([StatusChecked(k)]) == 1 && TotalSleep([StatusChecked(k)]) == 0;
  }

  /**
    Five non-terminal statuses make the poll throw "Unable to transcribe video
    after multiple attempts. Please try again later." after five checks and
    30000 ms of waiting, with no wait after the fifth check.
   */
  lemma StatusPollExhausted(check: StatusSource)
    requires forall j :: 1 <= j <= MaxAttempts ==> !Answers(check, j)
    ensures StatusPoll(check).outcome == Threw(Error(ExhaustedMessage))
    ensures Checks(StatusPoll(check).trace) == MaxAttempts
    ensures TotalSleep(StatusPoll(check).trace) == 30000
    ensures StatusPoll(check).trace[|StatusPoll(check).trace| - 1] == StatusChecked(MaxAttempts)
  {
    StatusPollFromExhausted(check, 1);
    WaitsCounts(1, MaxAttempts);
    CountsAppend(Waits(1, MaxAttempts), [StatusChecked(MaxAttempts)]);
    assert Checks([StatusChecked(MaxAttempts)]) == 1 && TotalSleep([StatusChecked(MaxAttempts)]) == 0;
  }

  /**
    Whatever the replies, the poll makes at most five checks, waits at most
    30 seconds in all, and returns only "complete" or "failed".
   */
  lemma StatusPollBounds(check: StatusSource)
    ensures Checks(StatusPoll(check).trace) <= MaxAttempts
    ensures TotalSleep(StatusPoll(check).trace) <= 30000
    ensures StatusPoll(check).outcome.Returned? ==> IsTerminal(StatusPoll(check).outcome.value)
  {
    var k := FirstAnswer(check, 1);
    if k <= MaxAttempts {
      StatusPollAnswered(check, k);
      assert Pow2(k - 1) <= 16 by {
        assert k - 1 <= 4;
      }
    } else {
      StatusPollExhausted(check);
    }
  }

  /**
    The action. `update` is what `cloudinary.api.update` threw, if anything;
    `subtitledUrl` is the URL `generateTranscribedVideoUrl(publicId)` builds.
    The transcription request comes first; if it throws, nothing is polled.
   */
  function TranscribeVideoAction(publicId: string, update: Option<Thrown>, check: StatusSource, subtitledUrl: string): (r: ActionRun<string>)
    ensures |r.trace| >= 1 && r.trace[0] == TranscriptionRequested(publicId)
    ensures update.Some? ==>
      r == ActionRun(WithError(CaughtMessage(update.value, GenericMessage)), [TranscriptionRequested(publicId)])
    ensures update.None? ==> r.trace[1..] == StatusPoll(check).trace
    ensures r.result.WithResult? <==> update.None? && StatusPoll(check).outcome == Returned("complete")
    ensures r.result.WithResult? ==> r.result.result == subtitledUrl
    ensures update.None? && StatusPoll(check).outcome == Returned("failed") ==> r.result == WithError(FailedMessage)
    ensures update.None? && StatusPoll(check).outcome.Threw? ==>
      r.result == WithError(CaughtMessage(StatusPoll(check).outcome.thrown, GenericMessage))
  {
    var requested := [TranscriptionRequested(publicId)];
    match update
    case Some(e) => ActionRun(WithError(CaughtMessage(e, GenericMessage)), requested)
    case None =>
      var poll := StatusPoll(check);
      var result :=
        match poll.outcome
        case Returned(status) =>
          if status == "complete" then WithResult(subtitledUrl) else WithError(FailedMessage)
        case Threw(e) => WithError(CaughtMessage(e, GenericMessage));
      assert (requested + poll.trace)[1..] == poll.trace;
      ActionRun(result, requested + poll.trace)
  }
}
