/** The job watcher of client/src/components/ResultCard.jsx. A `ResultCard`
    holds the component's five state cells and a ghost log of the toasts
    raised for the current job; a `PollLoop` is one run of the effect that
    depends on `jobId`: its own `cancelled` flag and the poll it has armed or
    in flight. Each poll is split in two steps, issuing the request (`Issue`)
    and handling its outcome (`Receive` or `Fail`), because the component
    awaits the response in between and cleanup can run in that gap. Timers,
    rendering and the HTTP client are not modelled: a step's result says
    whether a next poll is armed. */
module Client {
  import opened Wrappers

  /** `result` of `GET /api/job/{id}`: the extracted text (an absent text
      reads as `""`), the suggestion sub-status and the suggestions. */
  datatype JobResult = JobResult(text: string, suggestionsStatus: string, suggestions: Option<seq<string>>)

  /** One response body: the job status and the result, if any. */
  datatype JobView = JobView(status: string, result: Option<JobResult>)

  datatype Toast = ProcessingStarted | TextExtracted | SuggestionsReady | SomethingWentWrong

  /** Where a loop stands: a call to `poll` is due (the first call, or a
      1200 ms timer), a request is awaited, or nothing more will happen. */
  datatype Phase = Armed | InFlight | Stopped

  const Done := "done"
  const ErrorStatus := "error"

  /** `data.result && data.result.text`: the response carries text. */
  predicate CarriesText(data: JobView) {
    data.result.Some? && data.result.value.text != ""
  }

  /** `data.result.suggestionsStatus === "done"`. */
  predicate ReportsDone(data: JobView) {
    data.result.Some? && data.result.value.suggestionsStatus == Done
  }

  /** `keepPolling`: the job is pending or processing, or the response does
      not report suggestions done, which includes a response without result
      and suggestions that failed. */
  predicate KeepPolling(data: JobView) {
    data.status == "pending" || data.status == "processing" || !ReportsDone(data)
  }

  /** The toasts one response raises, given the two guard flags as the poll
      reads them. */
  function PollToasts(data: JobView, textNotified: bool, suggestionNotified: bool): seq<Toast> {
    (if CarriesText(data) && !textNotified then [TextExtracted] else [])
    + (if ReportsDone(data) && !suggestionNotified then [SuggestionsReady] else [])
  }

  function Count(ts: seq<Toast>, t: Toast): nat {
    if |ts| == 0 then 0 else (if ts[0] == t then 1 else 0) + Count(ts[1..], t)
  }

  lemma {:induction false} CountAppend(a: seq<Toast>, b: seq<Toast>, t: Toast)
    ensures Count(a + b, t) == Count(a, t) + Count(b, t)
  {
    if |a| == 0 {
      assert a + b == b;
    } else {
      assert (a + b)[0] == a[0];
      assert (a + b)[1..] == a[1..] + b;
      CountAppend(a[1..], b, t);
    }
  }

  /** The progress bar: 30 before any result, 70 while suggestions are not
      done, 100 once they are. */
  function Progress(result: Option<JobResult>): (p: int)
    ensures p == 30 || p == 70 || p == 100
    ensures p == 30 <==> result.None?
    ensures p == 100 <==> result.Some? && result.value.suggestionsStatus == Done
  {
    if result.None? then 30
    else if result.value.suggestionsStatus != Done then 70
    else 100
  }

  /** The spinner caption, `null` once everything is in. */
  function LoadingText(result: Option<JobResult>): Option<string> {
    if result.None? then Some("Extracting text...")
    else if result.value.suggestionsStatus != Done then Some("Generating suggestions...")
    else None
  }

  /** The spinner disappears exactly when the bar is full. */
  lemma LoadingTextNullIffComplete(result: Option<JobResult>)
    ensures LoadingText(result).None? <==> Progress(result) == 100
  {
  }

  /** What the Suggestions section shows. */
  datatype SuggestionsView = StillGenerating | Listed(items: seq<string>) | NoneGenerated

  function SuggestionsSection(r: JobResult): (v: SuggestionsView)
    ensures v == StillGenerating <==> r.suggestionsStatus != Done
    ensures v.Listed? <==> r.suggestionsStatus == Done && r.suggestions.Some? && |r.suggestions.value| > 0
    ensures v.Listed? ==> r.suggestions == Some(v.items)
  {
    if r.suggestionsStatus != Done then StillGenerating
    else if r.suggestions.Some? && |r.suggestions.value| > 0 then Listed(r.suggestions.value)
    else NoneGenerated
  }

  /** The section says "Generating suggestions..." exactly when the bar
      stands at 70, and so does the caption. */
  lemma SectionAgreesWithProgress(r: JobResult)
    ensures SuggestionsSection(r) == StillGenerating <==> Progress(Some(r)) == 70
    ensures SuggestionsSection(r) == StillGenerating <==> LoadingText(Some(r)) == Some("Generating suggestions...")
  {
  }

  /** Polling stops only on a response that fills the bar and whose status
      is neither pending nor processing. */
  lemma StopImpliesComplete(data: JobView)
    requires !KeepPolling(data)
    ensures Progress(data.result) == 100
    ensures data.status != "pending" && data.status != "processing"
  {
  }

  /** A response without result, or with failed suggestions, always arms
      another poll, whatever its status ("error" or "done" included): such a
      job is polled forever. */
  lemma NoResultOrFailedKeepsPolling(data: JobView)
    requires data.result.None? || data.result.value.suggestionsStatus == "failed"
    ensures KeepPolling(data)
  {
  }

  /** The toasts of a sequence of responses when the guard flags are real
      state, set as soon as their toast is raised. */
  function SessionToasts(rs: seq<JobView>, textNotified: bool, suggestionNotified: bool): seq<Toast> {
    if |rs| == 0 then []
    else
      PollToasts(rs[0], textNotified, suggestionNotified)
      + SessionToasts(rs[1..], textNotified || CarriesText(rs[0]), suggestionNotified || ReportsDone(rs[0]))
  }

  predicate AnyCarriesText(rs: seq<JobView>) {
    exists i :: 0 <= i < |rs| && CarriesText(rs[i])
  }

  predicate AnyReportsDone(rs: seq<JobView>) {
    exists i :: 0 <= i < |rs| && ReportsDone(rs[i])
  }

  /** With real flags, over any number of polls, "Text extracted!" fires
      once if some response carried text and the flag was clear, and never
      otherwise; likewise "Suggestions ready!" for a response reporting
      suggestions done. */
  lemma {:induction false} SessionToastsAtMostOnce(rs: seq<JobView>, textNotified: bool, suggestionNotified: bool)
    ensures Count(SessionToasts(rs, textNotified, suggestionNotified), TextExtracted)
      == if !textNotified && AnyCarriesText(rs) then 1 else 0
    ensures Count(SessionToasts(rs, textNotified, suggestionNotified), SuggestionsReady)
      == if !suggestionNotified && AnyReportsDone(rs) then 1 else 0
  {
    if |rs| > 0 {
      var t' := textNotified || CarriesText(rs[0]);
      var s' := suggestionNotified || ReportsDone(rs[0]);
      var first := PollToasts(rs[0], textNotified, suggestionNotified);
      SessionToastsAtMostOnce(rs[1..], t', s');
      CountAppend(first, SessionToasts(rs[1..], t', s'), TextExtracted);
      CountAppend(first, SessionToasts(rs[1..], t', s'), SuggestionsReady);
      PollToastsCount(rs[0], textNotified, suggestionNotified);
      assert AnyCarriesText(rs) <==> CarriesText(rs[0]) || AnyCarriesText(rs[1..]) by {
        if AnyCarriesText(rs) && !CarriesText(rs[0]) {
          var i :| 0 <= i < |rs| && CarriesText(rs[i]);
          assert rs[1..][i - 1] == rs[i];
        }
        if AnyCarriesText(rs[1..]) {
          var i :| 0 <= i < |rs[1..]| && CarriesText(rs[1..][i]);
          assert rs[i + 1] == rs[1..][i];
        }
      }
      assert AnyReportsDone(rs) <==> ReportsDone(rs[0]) || AnyReportsDone(rs[1..]) by {
        if AnyReportsDone(rs) && !ReportsDone(rs[0]) {
          var i :| 0 <= i < |rs| && ReportsDone(rs[i]);
          assert rs[1..][i - 1] == rs[i];
        }
        if AnyReportsDone(rs[1..]) {
          var i :| 0 <= i < |rs[1..]| && ReportsDone(rs[1..][i]);
          assert rs[i + 1] == rs[1..][i];
        }
      }
    }
  }

  /** One response raises each guarded toast at most once, and only when its
      flag is clear. */
  lemma PollToastsCount(data: JobView, textNotified: bool, suggestionNotified: bool)
    ensures Count(PollToasts(data, textNotified, suggestionNotified), TextExtracted)
      == if CarriesText(data) && !textNotified then 1 else 0
    ensures Count(PollToasts(data, textNotified, suggestionNotified), SuggestionsReady)
      == if ReportsDone(data) && !suggestionNotified then 1 else 0
    ensures Count(PollToasts(data, textNotified, suggestionNotified), ProcessingStarted) == 0
  {
    var a := if CarriesText(data) && !textNotified then [TextExtracted] else [];
    var b := if ReportsDone(data) && !suggestionNotified then [SuggestionsReady] else [];
    CountAppend(a, b, TextExtracted);
    CountAppend(a, b, SuggestionsReady);
    CountAppend(a, b, ProcessingStarted);
  }

  /** The toasts of a sequence of responses as the component is written:
      the effect's `poll` closure keeps reading the flags of the render in
      which `jobId` changed, so every poll sees the same two values. For the
      first job they are both false; after a change of job on the same card
      they are the previous job's flags, since the reset effect's updates
      are not visible to that render. */
  function CapturedSessionToasts(rs: seq<JobView>, textSeen: bool, suggestionSeen: bool): seq<Toast> {
    if |rs| == 0 then []
    else PollToasts(rs[0], textSeen, suggestionSeen) + CapturedSessionToasts(rs[1..], textSeen, suggestionSeen)
  }

  function CountCarryingText(rs: seq<JobView>): nat {
    if |rs| == 0 then 0 else (if CarriesText(rs[0]) then 1 else 0) + CountCarryingText(rs[1..])
  }

  /** As written, "Text extracted!" fires on every response that carries
      text when the captured flag is clear, and never when it is set. */
  lemma {:induction false} CapturedTextToastPerPoll(rs: seq<JobView>, textSeen: bool, suggestionSeen: bool)
    ensures Count(CapturedSessionToasts(rs, textSeen, suggestionSeen), TextExtracted)
      == if textSeen then 0 else CountCarryingText(rs)
  {
    if |rs| > 0 {
      CapturedTextToastPerPoll(rs[1..], textSeen, suggestionSeen);
      CountAppend(PollToasts(rs[0], textSeen, suggestionSeen), CapturedSessionToasts(rs[1..], textSeen, suggestionSeen), TextExtracted);
      PollToastsCount(rs[0], textSeen, suggestionSeen);
    }
  }

  /** Two polls of a job whose text is in while suggestions are pending: the
      component as written raises "Text extracted!" twice on a fresh card and
      not at all on a card whose previous job had shown it; the watcher with
      real flags, reset on the job change, raises it once. */
  lemma CapturedFlagsRepeatToast()
    ensures var v := JobView("processing", Some(JobResult("Hello", "pending", None)));
      && Count(CapturedSessionToasts([v, v], false, false), TextExtracted) == 2
      && Count(CapturedSessionToasts([v, v], true, false), TextExtracted) == 0
      && Count(SessionToasts([v, v], false, false), TextExtracted) == 1
  {
    var v := JobView("processing", Some(JobResult("Hello", "pending", None)));
    CapturedTextToastPerPoll([v, v], false, false);
    CapturedTextToastPerPoll([v, v], true, false);
    assert [v, v][1..] == [v];
    assert [v][1..] == [];
    assert CountCarryingText([v]) == 1;
    SessionToastsAtMostOnce([v, v], false, false);
    assert CarriesText([v, v][0]);
  }

  /** The start of the polling effect as written: it reads `hasStarted` of
      the render in which `jobId` changed, raises "Processing started…" and
      sets the flag only when that value is clear. Returns the toasts and the
      flag once the reset effect, which runs first, has cleared it. */
  function CapturedStart(hasStartedAtRender: bool, jobId: string): (seq<Toast>, bool) {
    if jobId != "" && !hasStartedAtRender then ([ProcessingStarted], true) else ([], false)
  }

  /** As written, when a card that showed "Processing started…" for one job
      gets a second one, the toast is not shown and the flag stays clear;
      ResultCard.ChangeJob shows it. */
  lemma CapturedStartSkipsSecondJob(jobId: string)
    requires jobId != ""
    ensures CapturedStart(true, jobId) == ([], false)
    ensures CapturedStart(false, jobId) == ([ProcessingStarted], true)
  {
  }

  /** The component's state. Its guard flags are real fields here, so a
      response always sees the flags the previous one set (see
      CapturedSessionToasts for the component as written). */
  class ResultCard {
    var status: Option<string>
    var result: Option<JobResult>
    var hasStarted: bool
    var textNotified: bool
    var suggestionNotified: bool
    /** Toasts raised since `jobId` last changed. */
    ghost var toasts: seq<Toast>

    /** Each flag records that its toast was raised, once, for this job. */
    ghost predicate Valid()
      reads this
    {
      && Count(toasts, ProcessingStarted) == (if hasStarted then 1 else 0)
      && Count(toasts, TextExtracted) == (if textNotified then 1 else 0)
      && Count(toasts, SuggestionsReady) == (if suggestionNotified then 1 else 0)
      && (textNotified ==> result.Some?)
      && (suggestionNotified ==> result.Some?)
    }

    /** The `useState` initial values. */
    constructor ()
      ensures Valid()
      ensures status == None && result == None
      ensures !hasStarted && !textNotified && !suggestionNotified
      ensures toasts == []
    {
      status, result := None, None;
      hasStarted, textNotified, suggestionNotified := false, false, false;
      toasts := [];
    }

    /** The effect that runs when `jobId` changes: back to the initial
        values, with a fresh toast log for the new job. */
    method Reset()
      modifies this
      ensures Valid()
      ensures status == None && result == None
      ensures !hasStarted && !textNotified && !suggestionNotified
      ensures toasts == []
    {
      hasStarted := false;
      textNotified := false;
      suggestionNotified := false;
      result := None;
      status := None;
      toasts := [];
    }

    /** The polling effect's body: nothing without a job id; otherwise the
        "Processing started…" toast unless already shown, and a new loop
        whose first poll is due at once. */
    method Mount(jobId: string) returns (loop: PollLoop?)
      requires Valid()
      modifies this
      ensures Valid()
      ensures jobId == "" ==> loop == null
      ensures jobId != "" ==> (loop != null && fresh(loop) && loop.card == this && loop.jobId == jobId
        && !loop.cancelled && loop.phase == Armed && loop.requests == 0)
      ensures hasStarted == (old(hasStarted) || jobId != "")
      ensures toasts == old(toasts) + (if jobId != "" && !old(hasStarted) then [ProcessingStarted] else [])
      ensures status == old(status) && result == old(result)
      ensures textNotified == old(textNotified) && suggestionNotified == old(suggestionNotified)
    {
      if jobId == "" {
        return null;
      }
      if !hasStarted {
        CountAppend(toasts, [ProcessingStarted], ProcessingStarted);
        CountAppend(toasts, [ProcessingStarted], TextExtracted);
        CountAppend(toasts, [ProcessingStarted], SuggestionsReady);
        toasts := toasts + [ProcessingStarted];
        hasStarted := true;
      }
      loop := new PollLoop(this, jobId);
    }

    /** A successful response: the status always, the result only when the
        response has one, and each guarded toast when its flag is clear,
        which then sets the flag. */
    method Apply(data: JobView)
      requires Valid()
      modifies this
      ensures Valid()
      ensures status == Some(data.status)
      ensures result == if data.result.Some? then data.result else old(result)
      ensures toasts == old(toasts) + PollToasts(data, old(textNotified), old(suggestionNotified))
      ensures textNotified == (old(textNotified) || CarriesText(data))
      ensures suggestionNotified == (old(suggestionNotified) || ReportsDone(data))
      ensures hasStarted == old(hasStarted)
    {
      ghost var raised := PollToasts(data, textNotified, suggestionNotified);
      PollToastsCount(data, textNotified, suggestionNotified);
      CountAppend(toasts, raised, ProcessingStarted);
      CountAppend(toasts, raised, TextExtracted);
      CountAppend(toasts, raised, SuggestionsReady);
      status := Some(data.status);
      if data.result.Some? {
        result := data.result;
        if data.result.value.text != "" && !textNotified {
          toasts := toasts + [TextExtracted];
          textNotified := true;
        }
        if data.result.value.suggestionsStatus == Done && !suggestionNotified {
          toasts := toasts + [SuggestionsReady];
          suggestionNotified := true;
        }
      }
      assert toasts == old(toasts) + raised;
    }

    /** A failed request: the error toast and status "error"; nothing else
        changes. */
    method ApplyFailure()
      requires Valid()
      modifies this
      ensures Valid()
      ensures status == Some(ErrorStatus)
      ensures toasts == old(toasts) + [SomethingWentWrong]
      ensures result == old(result) && hasStarted == old(hasStarted)
      ensures textNotified == old(textNotified) && suggestionNotified == old(suggestionNotified)
    {
      CountAppend(toasts, [SomethingWentWrong], ProcessingStarted);
      CountAppend(toasts, [SomethingWentWrong], TextExtracted);
      CountAppend(toasts, [SomethingWentWrong], SuggestionsReady);
      toasts := toasts + [SomethingWentWrong];
      status := Some(ErrorStatus);
    }

    /** A new `jobId`: React runs the old polling effect's cleanup, then the
        reset effect, then the polling effect. Here the polling effect sees
        the reset `hasStarted`, so every job gets its start toast (see
        CapturedStart for the component as written). */
    method ChangeJob(prev: PollLoop?, jobId: string) returns (loop: PollLoop?)
      requires Valid()
      requires prev != null ==> prev.card == this
      modifies this, prev
      ensures Valid()
      ensures prev != null ==> prev.cancelled && prev.phase == old(prev.phase) && prev.requests == old(prev.requests)
      ensures status == None && result == None && !textNotified && !suggestionNotified
      ensures hasStarted == (jobId != "")
      ensures toasts == if jobId != "" then [ProcessingStarted] else []
      ensures jobId == "" ==> loop == null
      ensures jobId != "" ==> (loop != null && fresh(loop) && loop.card == this && loop.jobId == jobId
        && !loop.cancelled && loop.phase == Armed && loop.requests == 0)
    {
      if prev != null {
        prev.Cancel();
      }
      Reset();
      loop := Mount(jobId);
    }
  }

  /** One run of the polling effect. */
  class PollLoop {
    const card: ResultCard
    const jobId: string
    var cancelled: bool
    var phase: Phase
    /** Requests this loop has sent. */
    ghost var requests: nat

    constructor (card: ResultCard, jobId: string)
      ensures this.card == card && this.jobId == jobId
      ensures !cancelled && phase == Armed && requests == 0
    {
      this.card := card;
      this.jobId := jobId;
      cancelled := false;
      phase := Armed;
      requests := 0;
    }

    /** `poll` is entered: a cancelled loop returns at once and stops; a live
        one sends `GET /api/job/{jobId}`. */
    method Issue() returns (issued: bool)
      requires phase == Armed
      modifies this
      ensures issued == !cancelled && cancelled == old(cancelled)
      ensures phase == if issued then InFlight else Stopped
      ensures requests == old(requests) + (if issued then 1 else 0)
    {
      if cancelled {
        phase := Stopped;
        return false;
      }
      requests := requests + 1;
      phase := InFlight;
      issued := true;
    }

    /** The awaited response arrives. It is applied even if the loop was
        cancelled meanwhile (the flag is read only on entry); another poll is
        armed exactly when `keepPolling` holds. */
    method Receive(data: JobView) returns (again: bool)
      requires phase == InFlight && card.Valid()
      modifies this, card
      ensures card.Valid()
      ensures again == KeepPolling(data)
      ensures phase == if again then Armed else Stopped
      ensures cancelled == old(cancelled) && requests == old(requests)
      ensures card.status == Some(data.status)
      ensures card.result == if data.result.Some? then data.result else old(card.result)
      ensures card.toasts == old(card.toasts) + PollToasts(data, old(card.textNotified), old(card.suggestionNotified))
      ensures card.textNotified == (old(card.textNotified) || CarriesText(data))
      ensures card.suggestionNotified == (old(card.suggestionNotified) || ReportsDone(data))
      ensures card.hasStarted == old(card.hasStarted)
    {
      card.Apply(data);
      again := KeepPolling(data);
      phase := if again then Armed else Stopped;
    }

    /** The request failed: status "error", and no further poll. */
    method Fail()
      requires phase == InFlight && card.Valid()
      modifies this, card
      ensures card.Valid()
      ensures phase == Stopped
      ensures cancelled == old(cancelled) && requests == old(requests)
      ensures card.status == Some(ErrorStatus)
      ensures card.toasts == old(card.toasts) + [SomethingWentWrong]
      ensures card.result == old(card.result) && card.hasStarted == old(card.hasStarted)
      ensures card.textNotified == old(card.textNotified) && card.suggestionNotified == old(card.suggestionNotified)
    {
      card.ApplyFailure();
      phase := Stopped;
    }

    /** The effect's cleanup. An armed timer and an awaited request are left
        as they are. */
    method Cancel()
      modifies this
      ensures cancelled
      ensures phase == old(phase) && requests == old(requests)
    {
      cancelled := true;
    }
  }

  /** Cleanup while a request is in flight: its response is still applied to
      the card, and the poll it arms sends nothing. */
  method CancelWhileInFlight(jobId: string, data: JobView) returns (card: ResultCard, loop: PollLoop)
    requires jobId != "" && KeepPolling(data)
    ensures card.status == Some(data.status)
    ensures loop.cancelled && loop.phase == Stopped && loop.requests == 1
  {
    card := new ResultCard();
    var l := card.Mount(jobId);
    loop := l;
    var sent := loop.Issue();
    assert sent;
    loop.Cancel();
    var again := loop.Receive(data);
    assert again;
    var sentAgain := loop.Issue();
    assert !sentAgain;
  }
}
