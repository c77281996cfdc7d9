/**
  `waitForImageProcessing(url)`: up to twenty calls of
  `checkImageProcessing(url)`, a fixed one-second sleep after every call that
  did not report the image ready (the twentieth included), and an `Error` when
  the checks run out or a check throws. The outcome of each check is an input:
  `check(url, attempt)`.
 */
module WaitForProcessing {
  import opened Wrappers
  import opened ActionResults

  const MaxAttempts := 20
  const Delay := 1000
  const ExhaustedMessage := "Image processing failed after multiple attempts"
  const UnexpectedMessage := "An unexpected error occurred during image processing check"

  /** What one `checkImageProcessing(url)` call gives: `true`, `false`, or a throw. */
  datatype Check = Processed | NotProcessed | CheckThrew

  type Checker = (string, nat) -> Check

  /** The events of attempts `first` .. `stop - 1` when none of them finds the image ready. */
  function Retries(url: string, first: nat, stop: nat): (trace: seq<Event>)
    requires first <= stop
    ensures |trace| == 2 * (stop - first)
    decreases stop - first
  {
    if first == stop then [] else [Probe(url, first), Sleep(Delay)] + Retries(url, first + 1, stop)
  }

  /** The poll from attempt `attempt` on, as the source runs it. */
  function PollFrom(url: string, check: Checker, attempt: nat): (r: PollRun)
    requires 1 <= attempt <= MaxAttempts
    decreases MaxAttempts - attempt
  {
    match check(url, attempt)
    case Processed => PollRun(None, [Probe(url, attempt)])
    case CheckThrew => PollRun(Some(Error(UnexpectedMessage)), [Probe(url, attempt)])
    case NotProcessed =>
      if attempt == MaxAttempts then
        PollRun(Some(Error(ExhaustedMessage)), [Probe(url, attempt), Sleep(Delay)])
      else
        var rest := PollFrom(url, check, attempt + 1);
        PollRun(rest.thrown, [Probe(url, attempt), Sleep(Delay)] + rest.trace)
  }

  /** The whole poll of `url`. */
  function ImagePoll(url: string, check: Checker): PollRun {
    PollFrom(url, check, 1)
  }

  /** `waitForImageProcessing` as the poll an action runs on the URL it built. */
  function ImagePoller(check: Checker): string -> PollRun {
    url => ImagePoll(url, check)
  }

  method WaitForImageProcessing(url: string, check: Checker) returns (thrown: Option<Thrown>, ghost trace: seq<Event>)
    ensures PollRun(thrown, trace) == ImagePoll(url, check)
  {
    trace := [];
    var attempt := 1;
    while true
      invariant 1 <= attempt <= MaxAttempts
      invariant ImagePoll(url, check).thrown == PollFrom(url, check, attempt).thrown
      invariant ImagePoll(url, check).trace == trace + PollFrom(url, check, attempt).trace
      decreases MaxAttempts - attempt
    {
      ghost var before := trace;
      var isProcessed := check(url, attempt);
      trace := trace + [Probe(url, attempt)];
      if isProcessed == CheckThrew {
        return Some(Error(UnexpectedMessage)), trace;
      }
      if isProcessed == Processed {
        return None, trace;
      }
      trace := trace + [Sleep(Delay)];
      if attempt == MaxAttempts {
        return Some(Error(ExhaustedMessage)), trace;
      }
      PollFromContinue(url, check, attempt, before);
      attempt := attempt + 1;
    }
  }

  /** A "not yet" before the last attempt: one check and one sleep, then the poll from the next attempt. */
  lemma PollFromContinue(url: string, check: Checker, attempt: nat, done: seq<Event>)
    requires 1 <= attempt < MaxAttempts && check(url, attempt) == NotProcessed
    ensures PollFrom(url, check, attempt).thrown == PollFrom(url, check, attempt + 1).thrown
    ensures done + [Probe(url, attempt)] + [Sleep(Delay)] + PollFrom(url, check, attempt + 1).trace ==
            done + PollFrom(url, check, attempt).trace
  {
  }

  /** Only the first answer can be the first ready check. */
  lemma ReadyFirstIsFirstAnswer(url: string, check: Checker, j: nat)
    requires ReadyFirstAt(url, check, j)
    ensures FirstAnswer(url, check, 1) == j
  {
  }

  // ---- what the poll does, for every sequence of check outcomes ----

  /** Attempt `k` is the first that reports the image ready, and every earlier check said "not yet". */
  ghost predicate ReadyFirstAt(url: string, check: Checker, k: nat) {
    1 <= k <= MaxAttempts && check(url, k) == Processed
    && forall j :: 1 <= j < k ==> check(url, j) == NotProcessed
  }

  /** Every wait in `Retries` is one `Delay`; it holds one check and one wait per attempt. */
  lemma {:induction false} RetriesCounts(url: string, first: nat, stop: nat)
    requires first <= stop
    ensures Checks(Retries(url, first, stop)) == stop - first
    ensures TotalSleep(Retries(url, first, stop)) == Delay * (stop - first)
    ensures forall i :: 0 <= i < |Retries(url, first, stop)| && Retries(url, first, stop)[i].Sleep? ==>
      Retries(url, first, stop)[i].ms == Delay
    ensures first < stop ==> Retries(url, first, stop)[|Retries(url, first, stop)| - 1] == Sleep(Delay)
    decreases stop - first
  {
    if first < stop {
      var head: seq<Event> := [Probe(url, first), Sleep(Delay)];
      RetriesCounts(url, first + 1, stop);
      CountsAppend(head, Retries(url, first + 1, stop));
      assert Checks(head) == 1 && TotalSleep(head) == Delay;
    }
  }

  /**
    The closed form of the poll from `attempt` on, when attempt `k` is the
    first at or after `attempt` whose check says something other than "not
    yet" (`k` is one past the last attempt when there is none).
   */
  lemma {:induction false} PollFromShape(url: string, check: Checker, attempt: nat, k: nat)
    requires 1 <= attempt <= k <= MaxAttempts + 1 && attempt <= MaxAttempts
    requires forall j :: attempt <= j < k ==> check(url, j) == NotProcessed
    requires k <= MaxAttempts ==> check(url, k) != NotProcessed
    ensures k <= MaxAttempts ==> PollFrom(url, check, attempt).trace == Retries(url, attempt, k) + [Probe(url, k)]
    ensures k <= MaxAttempts && check(url, k) == Processed ==> PollFrom(url, check, attempt).thrown == None
    ensures k <= MaxAttempts && check(url, k) == CheckThrew ==>
      PollFrom(url, check, attempt).thrown == Some(Error(UnexpectedMessage))
    ensures k > MaxAttempts ==>
      PollFrom(url, check, attempt) == PollRun(Some(Error(ExhaustedMessage)), Retries(url, attempt, k))
    decreases k - attempt
  {
    if attempt == k {
      assert Retries(url, attempt, k) == [];
    } else if attempt == MaxAttempts {
      assert Retries(url, attempt, k) == [Probe(url, attempt), Sleep(Delay)] + [];
    } else {
      PollFromShape(url, check, attempt + 1, k);
      var head: seq<Event> := [Probe(url, attempt), Sleep(Delay)];
      if k <= MaxAttempts {
        assert head + (Retries(url, attempt + 1, k) + [Probe(url, k)]) == Retries(url, attempt, k) + [Probe(url, k)];
      }
    }
  }

  /**
    If attempt `k` is the first to find the image ready, the poll returns
    normally after exactly `k` checks, having slept one second after each of
    the `k - 1` earlier ones, and with nothing after the ready check.
   */
  lemma ImagePollReady(url: string, check: Checker, k: nat)
    requires ReadyFirstAt(url, check, k)
    ensures ImagePoll(url, check).thrown == None
    ensures Checks(ImagePoll(url, check).trace) == k
    ensures TotalSleep(ImagePoll(url, check).trace) == Delay * (k - 1)
    ensures ImagePoll(url, check).trace[|ImagePoll(url, check).trace| - 1] == Probe(url, k)
  {
    PollFromShape(url, check, 1, k);
    RetriesCounts(url, 1, k);
    CountsAppend(Retries(url, 1, k), [Probe(url, k)]);
    assert Checks([Probe(url, k)]) == 1 && TotalSleep([Probe(url, k)]) == 0;
  }

  /**
    Twenty "not yet" answers make the poll throw "Image processing failed
    after multiple attempts" after twenty checks and twenty seconds of sleep,
    the last sleep following the twentieth check.
   */
  lemma ImagePollExhausted(url: string, check: Checker)
    requires forall j :: 1 <= j <= MaxAttempts ==> check(url, j) == NotProcessed
    ensures ImagePoll(url, check).thrown == Some(Error(ExhaustedMessage))
    ensures Checks(ImagePoll(url, check).trace) == MaxAttempts
    ensures TotalSleep(ImagePoll(url, check).trace) == Delay * MaxAttempts
    ensures ImagePoll(url, check).trace[|ImagePoll(url, check).trace| - 1] == Sleep(Delay)
  {
    PollFromShape(url, check, 1, MaxAttempts + 1);
    RetriesCounts(url, 1, MaxAttempts + 1);
  }

  /**
    A check that throws before any check finds the image ready ends the poll
    at once: the caller sees "An unexpected error occurred during image
    processing check" instead of what was thrown, and no further check is made.
   */
  lemma ImagePollCheckThrows(url: string, check: Checker, k: nat)
    requires 1 <= k <= MaxAttempts && check(url, k) == CheckThrew
    requires forall j :: 1 <= j < k ==> check(url, j) == NotProcessed
    ensures ImagePoll(url, check).thrown == Some(Error(UnexpectedMessage))
    ensures Checks(ImagePoll(url, check).trace) == k
    ensures TotalSleep(ImagePoll(url, check).trace) == Delay * (k - 1)
    ensures ImagePoll(url, check).trace[|ImagePoll(url, check).trace| - 1] == Probe(url, k)
  {
    PollFromShape(url, check, 1, k);
    RetriesCounts(url, 1, k);
    CountsAppend(Retries(url, 1, k), [Probe(url, k)]);
    assert Checks([Probe(url, k)]) == 1 && TotalSleep([Probe(url, k)]) == 0;
  }

  /** The poll returns normally exactly when some check finds the image ready before any check throws. */
  lemma ImagePollSucceedsIff(url: string, check: Checker)
    ensures ImagePoll(url, check).thrown.None? <==> exists k :: ReadyFirstAt(url, check, k)
  {
    var k := FirstAnswer(url, check, 1);
    PollFromShape(url, check, 1, k);
    if exists j :: ReadyFirstAt(url, check, j) {
      var j :| ReadyFirstAt(url, check, j);
      ReadyFirstIsFirstAnswer(url, check, j);
    } else {
      assert !ReadyFirstAt(url, check, k);
    }
  }

  /**
    The poll throws only its own two `Error`s: "Image processing failed after
    multiple attempts" or "An unexpected error occurred during image
    processing check". What a failed check threw never reaches the caller.
   */
  lemma ImagePollThrows(url: string, check: Checker)
    ensures ImagePoll(url, check).thrown.Some? ==>
      ImagePoll(url, check).thrown.value in {Error(ExhaustedMessage), Error(UnexpectedMessage)}
  {
    var k := FirstAnswer(url, check, 1);
    PollFromShape(url, check, 1, k);
  }

  /** The first attempt at or after `attempt` whose check is not "not yet"; one past the last if none. */
  function FirstAnswer(url: string, check: Checker, attempt: nat): (k: nat)
    requires 1 <= attempt <= MaxAttempts + 1
    ensures attempt <= k <= MaxAttempts + 1
    ensures forall j :: attempt <= j < k ==> check(url, j) == NotProcessed
    ensures k <= MaxAttempts ==> check(url, k) != NotProcessed
    decreases MaxAttempts + 1 - attempt
  {
    if attempt > MaxAttempts || check(url, attempt) != NotProcessed then attempt
    else FirstAnswer(url, check, attempt + 1)
  }

  /**
    Whatever the checks say, the poll makes at most twenty checks, sleeps at
    most twenty seconds, and every sleep is the same one second: there is no
    backoff.
   */
  lemma ImagePollBounds(url: string, check: Checker)
    ensures Checks(ImagePoll(url, check).trace) <= MaxAttempts
    ensures TotalSleep(ImagePoll(url, check).trace) <= Delay * MaxAttempts
    ensures forall i :: 0 <= i < |ImagePoll(url, check).trace| && ImagePoll(url, check).trace[i].Sleep? ==>
      ImagePoll(url, check).trace[i].ms == Delay
  {
    var k := FirstAnswer(url, check, 1);
    PollFromShape(url, check, 1, k);
    if k <= MaxAttempts {
      RetriesCounts(url, 1, k);
      CountsAppend(Retries(url, 1, k), [Probe(url, k)]);
      assert Checks([Probe(url, k)]) == 1 && TotalSleep([Probe(url, k)]) == 0;
      var t := ImagePoll(url, check).trace;
      forall i | 0 <= i < |t| && t[i].Sleep? ensures t[i].ms == Delay {
        if i < |Retries(url, 1, k)| {
          assert t[i] == Retries(url, 1, k)[i];
        }
      }
    } else {
      RetriesCounts(url, 1, k);
    }
  }
}
