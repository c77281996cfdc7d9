/**
  What every server action returns, the visible events of its polling, and
  the build-then-poll-then-map shape that all transformation actions share.
 */
module ActionResults {
  import opened Wrappers

  /** A thrown value: an `Error` with its message, or anything else. */
  datatype Thrown = Error(message: string) | NonError

  /** A call that either returned a value or threw. */
  datatype Completion<+T> = Returned(value: T) | Threw(thrown: Thrown)

  /** `ActionResult<T, string>`: `{ result }` on success, `{ error }` on failure. */
  datatype ActionResult<+T> = WithResult(result: T) | WithError(error: string)

  /** A step of an action that the outside world can observe. */
  datatype Event =
    | Probe(url: string, attempt: nat)                // one checkImageProcessing(url)
    | Sleep(ms: nat)                                  // sleep(ms) or wait(ms)
    | TranscriptionRequested(publicId: string)        // cloudinary.api.update(...)
    | StatusChecked(attempt: nat)                     // one checkVideoTranscriptionStatus(...)
    | ResourceAwaited(url: string, kind: string)      // one waitForResourceProcessing(url, kind)

  /** What a poller that returns nothing did: what it threw, if anything, and its events. */
  datatype PollRun = PollRun(thrown: Option<Thrown>, trace: seq<Event>)

  /** An action's returned object with the events it caused. */
  datatype ActionRun<+T> = ActionRun(result: ActionResult<T>, trace: seq<Event>)

  /** How many probes and status checks a trace holds. */
  function Checks(trace: seq<Event>): (n: nat)
    ensures n <= |trace|
  {
    if trace == [] then 0
    else (if trace[0].Probe? || trace[0].StatusChecked? then 1 else 0) + Checks(trace[1..])
  }

  /** The total time a trace spends asleep, in milliseconds. */
  function TotalSleep(trace: seq<Event>): nat {
    if trace == [] then 0
    else (if trace[0].Sleep? then trace[0].ms else 0) + TotalSleep(trace[1..])
  }

  lemma {:induction false} CountsAppend(a: seq<Event>, b: seq<Event>)
    ensures Checks(a + b) == Checks(a) + Checks(b)
    ensures TotalSleep(a + b) == TotalSleep(a) + TotalSleep(b)
  {
    if a == [] {
      assert a + b == b;
    } else {
      assert (a + b)[0] == a[0] && (a + b)[1..] == a[1..] + b;
      CountsAppend(a[1..], b);
    }
  }

  /** The catch block: `error instanceof Error ? error.message : <the action's generic text>`. */
  function CaughtMessage(e: Thrown, generic: string): (m: string)
    ensures e.Error? ==> m == e.message
    ensures e.NonError? ==> m == generic
  {
    match e
    case Error(message) => message
    case NonError => generic
  }

  /** The probe of an abstract `waitForResourceProcessing(url, kind)`, which returns or throws. */
  function AwaitResource(wait: (string, string) -> Option<Thrown>, kind: string): string -> PollRun {
    url => PollRun(wait(url, kind), [ResourceAwaited(url, kind)])
  }

  /**
    `try { const url = constructUrl(...); await poll(url); return { result: onSuccess(url) }; }
     catch (error) { return { error: <caught message> }; }`.
    A URL that cannot be built is reported before any polling starts.
   */
  function Orchestrate<T>(built: Result<string>, poll: string -> PollRun, onSuccess: string -> T, generic: string): (r: ActionRun<T>)
    ensures built.Err? ==> r == ActionRun(WithError(built.error), [])
    ensures built.Ok? ==> r.trace == poll(built.value).trace
    ensures r.result.WithResult? <==> built.Ok? && poll(built.value).thrown.None?
    ensures r.result.WithResult? ==> r.result.result == onSuccess(built.value)
    ensures built.Ok? && poll(built.value).thrown.Some? ==>
      r.result == WithError(CaughtMessage(poll(built.value).thrown.value, generic))
  {
    match built
    case Err(message) => ActionRun(WithError(message), [])
    case Ok(url) =>
      var run := poll(url);
      match run.thrown
      case None => ActionRun(WithResult(onSuccess(url)), run.trace)
      case Some(e) => ActionRun(WithError(CaughtMessage(e, generic)), run.trace)
  }
}
