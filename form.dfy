/** The brief form of src/App.tsx: a component whose state moves from idle to
    composing and then to success or back to idle. The form values, progress,
    status text, share URL and error are fields that the handlers set one after
    another; the call to the API is a parameter, and the 600 ms pauses between
    progress updates are left out. */
module BriefForm {
  import opened Common

  datatype AppState = Idle | Composing | Success

  const MinJdLength := 200
  const MaxJdLength := 20000

  const LengthError := "Job description must be between 200 and 20,000 characters."
  const UnknownError := "An unknown error occurred."
  const BotToken := "dummy-token"

  /** The form admits a job description whose JavaScript length, in UTF-16 code
      units, lies between 200 and 20,000 inclusive. */
  predicate Admissible(jd: string)
  {
    MinJdLength <= Utf16Length(jd) <= MaxJdLength
  }

  /** One entry of `progressUpdates`: a percentage and the text shown with it. */
  datatype Update = Update(p: int, t: string)

  const ProgressUpdates := [
    Update(30, "Scrubbing and analyzing JD..."),
    Update(60, "Generating brief with Gemini..."),
    Update(90, "Composing PDF document..."),
    Update(100, "Done! Downloading...")]

  /** The body posted to the API. */
  datatype ApiRequest = ApiRequest(jdText: string, role: string, company: string, botToken: string)

  /** What the API call comes back with: a share URL, or a thrown value, which
      carries a message when it is an `Error`. */
  datatype ApiResult = Shared(shareUrl: string) | Thrown(message: Option<string>)

  /** The text shown for a thrown value. */
  function ErrorText(message: Option<string>): (r: string)
    ensures message.Some? ==> r == message.value
    ensures message.None? ==> r == UnknownError
  {
    match message
    case Some(m) => m
    case None => UnknownError
  }

  /** The component's state as one value. */
  datatype View = View(
    appState: AppState,
    jdText: string,
    role: string,
    company: string,
    progress: int,
    statusText: string,
    shareUrl: string,
    error: string)

  /** The state once an admitted submit has cleared the error and started composing. */
  function Started(v: View): View
  {
    v.(error := "", appState := Composing)
  }

  /** The state while the `k`-th progress update is shown. */
  function AtStep(v: View, k: nat): View
    requires k < |ProgressUpdates|
  {
    Started(v).(progress := ProgressUpdates[k].p, statusText := ProgressUpdates[k].t)
  }

  /** Something the user sees happen, in order, with the state shown at that
      moment: a progress step, or the request going out. */
  datatype Event = Shown(view: View) | Send(request: ApiRequest, view: View)

  /** The events of the first `n` progress updates of a submit from `v`. */
  function ProgressEvents(v: View, n: nat): (r: seq<Event>)
    requires n <= |ProgressUpdates|
    ensures |r| == n
    ensures forall k :: 0 <= k < n ==> r[k] == Shown(AtStep(v, k))
  {
    if n == 0 then [] else ProgressEvents(v, n - 1) + [Shown(AtStep(v, n - 1))]
  }

  /** Everything an admitted submit from `v` shows, up to and including the request. */
  function SubmitEvents(v: View): seq<Event>
  {
    ProgressEvents(v, |ProgressUpdates|) + [Send(RequestFor(v), AtStep(v, |ProgressUpdates| - 1))]
  }

  /** The state after a refused submit: only the error changes. */
  function Refused(v: View): View
  {
    v.(error := LengthError)
  }

  /** The request an admitted submit posts. */
  function RequestFor(v: View): ApiRequest
  {
    ApiRequest(v.jdText, v.role, v.company, BotToken)
  }

  /** The state after an admitted submit, once the API has answered `result`. */
  function Settled(v: View, result: ApiResult): View
  {
    var done := v.(progress := 100, statusText := "Done! Downloading...", error := "");
    match result
    case Shared(url) => done.(shareUrl := url, appState := Success)
    case Thrown(m) => done.(error := ErrorText(m), appState := Idle)
  }

  /** The state after a reset. */
  function Reset(v: View): View
  {
    v.(appState := Idle, progress := 0, statusText := "", shareUrl := "", error := "")
  }

  class Form {
    var appState: AppState
    var jdText: string
    var role: string
    var company: string
    var progress: int
    var statusText: string
    var shareUrl: string
    var error: string
    /** What the user has seen happen so far. */
    ghost var events: seq<Event>

    function Snapshot(): View
      reads this
    {
      View(appState, jdText, role, company, progress, statusText, shareUrl, error)
    }

    /** The initial state: idle, empty fields, no progress. */
    constructor ()
      ensures Snapshot() == View(Idle, "", "", "", 0, "", "", "")
      ensures events == []
    {
      appState := Idle;
      jdText := "";
      role := "";
      company := "";
      progress := 0;
      statusText := "";
      shareUrl := "";
      error := "";
      events := [];
    }

    /** Typing in the job-description box. */
    method SetJdText(s: string)
      modifies this
      ensures Snapshot() == old(Snapshot()).(jdText := s)
      ensures events == old(events)
    {
      jdText := s;
    }

    /** Typing in the role box. */
    method SetRole(s: string)
      modifies this
      ensures Snapshot() == old(Snapshot()).(role := s)
      ensures events == old(events)
    {
      role := s;
    }

    /** Typing in the company box. */
    method SetCompany(s: string)
      modifies this
      ensures Snapshot() == old(Snapshot()).(company := s)
      ensures events == old(events)
    {
      company := s;
    }

    /** Submitting the form. A job description of inadmissible length only sets
        the error and sends nothing; otherwise the error is cleared, the form
        composes, shows the four progress steps, posts the request, and settles
        on the answer `api` gives. */
    method HandleGenerate(api: ApiRequest -> ApiResult) returns (sent: Option<ApiRequest>)
      modifies this
      ensures !Admissible(old(jdText)) ==>
        sent.None? && Snapshot() == Refused(old(Snapshot())) && events == old(events)
      ensures Admissible(old(jdText)) ==>
        && sent == Some(RequestFor(old(Snapshot())))
        && Snapshot() == Settled(old(Snapshot()), api(sent.value))
        && events == old(events) + SubmitEvents(old(Snapshot()))
    {
      if !(MinJdLength <= Utf16Length(jdText) <= MaxJdLength) {
        error := LengthError;
        return None;
      }
      error := "";
      appState := Composing;

      var i := 0;
      while i < |ProgressUpdates|
        invariant 0 <= i <= |ProgressUpdates|
        invariant Snapshot() == if i == 0 then Started(old(Snapshot())) else AtStep(old(Snapshot()), i - 1)
        invariant events == old(events) + ProgressEvents(old(Snapshot()), i)
      {
        progress := ProgressUpdates[i].p;
        statusText := ProgressUpdates[i].t;
        events := events + [Shown(Snapshot())];
        i := i + 1;
      }

      var request := ApiRequest(jdText, role, company, BotToken);
      events := events + [Send(request, Snapshot())];
      sent := Some(request);
      match api(request)
      case Shared(url) =>
        shareUrl := url;
        appState := Success;
      case Thrown(m) =>
        error := ErrorText(m);
        appState := Idle;
    }

    /** "Tweak & Regenerate": back to idle with progress, status, link and error
        cleared, and the form values kept. */
    method HandleReset()
      modifies this
      ensures Snapshot() == Reset(old(Snapshot()))
      ensures events == old(events)
    {
      appState := Idle;
      progress := 0;
      statusText := "";
      shareUrl := "";
      error := "";
    }
  }

  // ---------------------------------------------------------------------------
  // What the form guarantees

  /** The progress steps strictly increase from 30 to 100, so the bar never moves
      back while composing, and the last step is the one shown when the request
      goes out. */
  lemma ProgressClimbsToHundred()
    ensures |ProgressUpdates| == 4
    ensures ProgressUpdates[0].p == 30 && ProgressUpdates[|ProgressUpdates| - 1].p == 100
    ensures forall i, j :: 0 <= i < j < |ProgressUpdates| ==> ProgressUpdates[i].p < ProgressUpdates[j].p
    ensures forall i :: 0 <= i < |ProgressUpdates| ==> 0 < ProgressUpdates[i].p <= 100
  {
  }

  /** In an admitted submit, every progress step comes before the request, the
      last of them at 100, and the request comes last. */
  lemma {:induction false} RequestAfterFullProgress(v: View)
    ensures var es := SubmitEvents(v);
      && es[|es| - 1] == Send(RequestFor(v), es[|es| - 2].view)
      && es[|es| - 2].Shown? && es[|es| - 2].view.progress == 100
      && forall k :: 0 <= k < |es| - 1 ==> es[k].Shown?
  {
    var es := SubmitEvents(v);
    assert es[|es| - 2] == ProgressEvents(v, |ProgressUpdates|)[3];
  }

  /** From the moment an admitted submit starts until the request is sent, the
      form shows the composing view with the error cleared and the form values
      unchanged, and progress only climbs. */
  lemma {:induction false} ComposingUntilSent(v: View)
    ensures forall e :: e in SubmitEvents(v) ==>
      && e.view.appState == Composing && e.view.error == ""
      && e.view.jdText == v.jdText && e.view.role == v.role && e.view.company == v.company
    ensures forall i, j :: 0 <= i < j < |SubmitEvents(v)| - 1 ==>
      SubmitEvents(v)[i].view.progress < SubmitEvents(v)[j].view.progress
  {
    var es := SubmitEvents(v);
    forall e | e in es
      ensures e.view.appState == Composing && e.view.error == ""
      ensures e.view.jdText == v.jdText && e.view.role == v.role && e.view.company == v.company
    {
      var k :| 0 <= k < |es| && es[k] == e;
      if k < |ProgressUpdates| {
        assert e == Shown(AtStep(v, k));
      }
    }
    ProgressClimbsToHundred();
    forall i, j | 0 <= i < j < |es| - 1 ensures es[i].view.progress < es[j].view.progress {
      assert es[i] == Shown(AtStep(v, i)) && es[j] == Shown(AtStep(v, j));
    }
  }

  /** A refused submit changes nothing but the error, so an idle form stays idle. */
  lemma RefusalOnlySetsError(v: View)
    ensures Refused(v).error == LengthError
    ensures Refused(v).(error := v.error) == v
  {
  }

  /** A job description is admitted at exactly 200 and exactly 20,000 UTF-16
      units, and refused one unit outside either bound. */
  lemma AdmissionBounds(jd: string)
    ensures Utf16Length(jd) == MinJdLength ==> Admissible(jd)
    ensures Utf16Length(jd) == MaxJdLength ==> Admissible(jd)
    ensures Utf16Length(jd) == MinJdLength - 1 ==> !Admissible(jd)
    ensures Utf16Length(jd) == MaxJdLength + 1 ==> !Admissible(jd)
  {
  }

  /** On text without astral characters the admitted length is the character count. */
  lemma AdmissibleBmp(jd: string)
    requires forall k :: 0 <= k < |jd| ==> (jd[k] as int) < 0x1_0000
    ensures Admissible(jd) <==> MinJdLength <= |jd| <= MaxJdLength
  {
    Utf16LengthBmp(jd);
  }

  /** An admitted submit ends in success with the returned link and no error, or
      back in idle with the thrown message; either way the form values are kept
      and progress stays at 100. */
  lemma SettledOutcome(v: View, result: ApiResult)
    ensures var s := Settled(v, result);
      && (s.appState == Success <==> result.Shared?)
      && (result.Shared? ==> s.shareUrl == result.shareUrl && s.error == "")
      && (result.Thrown? ==> s.appState == Idle && s.error == ErrorText(result.message) && s.shareUrl == v.shareUrl)
      && s.jdText == v.jdText && s.role == v.role && s.company == v.company
      && s.progress == 100
  {
  }

  /** A reset keeps the form values, so "Tweak & Regenerate" resubmits the same
      request; resetting twice is resetting once. */
  lemma ResetKeepsRequest(v: View)
    ensures RequestFor(Reset(v)) == RequestFor(v)
    ensures Reset(Reset(v)) == Reset(v)
    ensures Reset(v).appState == Idle && Reset(v).progress == 0 && Reset(v).error == "" && Reset(v).shareUrl == ""
  {
  }

  /** After a failed request the form is idle with the same values, so
      submitting again posts the same request. */
  lemma RetryAfterFailureResends(v: View, message: Option<string>)
    ensures Settled(v, Thrown(message)).appState == Idle
    ensures RequestFor(Settled(v, Thrown(message))) == RequestFor(v)
    ensures Admissible(Settled(v, Thrown(message)).jdText) == Admissible(v.jdText)
  {
  }
}
