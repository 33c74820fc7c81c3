/** The notice the two request handlers show in the shared message region:
    its text and its style, chosen from the reply to the request, and what
    else the handler does after the reply (reload the catalog, reset the
    signup form, start the five-second hide timer). */
module Notice {
  import opened Wrappers

  /** The class given to the message region. */
  datatype Style = Success | Error

  function ClassName(s: Style): (c: string)
    ensures c == "success" <==> s == Success
    ensures c == "error" <==> s == Error
  {
    match s
    case Success => "success"
    case Error => "error"
  }

  /** The reply a handler gets: an HTTP response with its `ok` flag and the
      `message` and `detail` fields of its JSON body (each possibly
      absent), or a failure to reach the server or to read the body. */
  datatype Reply =
    | Response(ok: bool, message: Option<string>, detail: Option<string>)
    | Unreachable

  /** `text` is None only when the handler assigns an absent field. */
  datatype Notice = Notice(text: Option<string>, style: Style)

  datatype Outcome = Outcome(notice: Notice, reload: bool, resetForm: bool, autoHide: bool)

  const Unregistered: string := "Participant unregistered"
  const UnregisterFailed: string := "Failed to unregister participant"
  const UnregisterUnreachable: string := "Failed to unregister participant. Please try again."
  const SignupFailed: string := "An error occurred"
  const SignupUnreachable: string := "Failed to sign up. Please try again."

  /** A field the `||` operator keeps: present and not the empty string. */
  predicate Truthy(f: Option<string>) {
    f.Some? && f.value != ""
  }

  /** `f || fallback` for a string field. */
  function OrElse(f: Option<string>, fallback: string): (r: string)
    ensures Truthy(f) ==> r == f.value
    ensures !Truthy(f) ==> r == fallback
    ensures r != "" <==> Truthy(f) || fallback != ""
  {
    if Truthy(f) then f.value else fallback
  }

  /** After a confirmed unregister request. */
  function UnregisterOutcome(r: Reply): (o: Outcome)
    ensures o.notice.style == Success <==> r.Response? && r.ok
    ensures o.reload <==> r.Response? && r.ok
    ensures !o.resetForm
    ensures o.autoHide <==> r.Response?
    ensures o.notice.text.Some? && o.notice.text.value != ""
    ensures r.Response? && r.ok ==>
              o.notice.text == if Truthy(r.message) then r.message else Some(Unregistered)
    ensures r.Response? && !r.ok ==>
              o.notice.text == if Truthy(r.detail) then r.detail else Some(UnregisterFailed)
    ensures r.Unreachable? ==> o.notice.text == Some(UnregisterUnreachable)
  {
    match r
    case Response(ok, message, detail) =>
      if ok then Outcome(Notice(Some(OrElse(message, Unregistered)), Success), true, false, true)
      else Outcome(Notice(Some(OrElse(detail, UnregisterFailed)), Error), false, false, true)
    case Unreachable =>
      Outcome(Notice(Some(UnregisterUnreachable), Error), false, false, false)
  }

  /** After a signup form submission. */
  function SignupOutcome(r: Reply): (o: Outcome)
    ensures o.notice.style == Success <==> r.Response? && r.ok
    ensures !o.reload
    ensures o.resetForm <==> r.Response? && r.ok
    ensures o.autoHide <==> r.Response?
    ensures r.Response? && r.ok ==> o.notice.text == r.message
    ensures r.Response? && !r.ok ==>
              o.notice.text == if Truthy(r.detail) then r.detail else Some(SignupFailed)
    ensures r.Unreachable? ==> o.notice.text == Some(SignupUnreachable)
  {
    match r
    case Response(ok, message, detail) =>
      if ok then Outcome(Notice(message, Success), false, true, true)
      else Outcome(Notice(Some(OrElse(detail, SignupFailed)), Error), false, false, true)
    case Unreachable =>
      Outcome(Notice(Some(SignupUnreachable), Error), false, false, false)
  }

  // ---------------------------------------------------------------------
  // Properties of the choice.

  /** The style depends on the `ok` flag alone, never on the body. */
  lemma StyleFollowsOk(ok: bool, m1: Option<string>, d1: Option<string>, m2: Option<string>, d2: Option<string>)
    ensures UnregisterOutcome(Response(ok, m1, d1)).notice.style == UnregisterOutcome(Response(ok, m2, d2)).notice.style
    ensures SignupOutcome(Response(ok, m1, d1)).notice.style == SignupOutcome(Response(ok, m2, d2)).notice.style
    ensures UnregisterOutcome(Response(ok, m1, d1)).notice.style == SignupOutcome(Response(ok, m2, d2)).notice.style
  {
  }

  /** A successful reply shows `message` and never `detail`; a failed one
      shows `detail` and never `message`, unless a fixed text is shown. */
  lemma NoticeTextSource(r: Reply)
    requires r.Response?
    ensures var t := UnregisterOutcome(r).notice.text.value;
            if r.ok then t == Unregistered || Some(t) == r.message
            else t == UnregisterFailed || Some(t) == r.detail
    ensures var t := SignupOutcome(r).notice.text;
            if r.ok then t == r.message
            else t == Some(SignupFailed) || t == r.detail
  {
  }

  /** Only a successful signup can leave the region blank: every other
      outcome of either handler shows a non-empty text. */
  lemma BlankOnlyAfterSignupSuccess(r: Reply)
    ensures UnregisterOutcome(r).notice.text.Some? && UnregisterOutcome(r).notice.text.value != ""
    ensures var t := SignupOutcome(r).notice.text;
            (t.None? || t == Some("")) ==> r.Response? && r.ok && !Truthy(r.message)
  {
  }

  /** A successful signup reply `{message: "Signed up!"}` shows that text
      as a success and clears the form; a 400 reply
      `{detail: "Already registered"}` shows that text as an error and
      leaves the form as it was. */
  lemma SignupExamples()
    ensures SignupOutcome(Response(true, Some("Signed up!"), None))
            == Outcome(Notice(Some("Signed up!"), Success), false, true, true)
    ensures SignupOutcome(Response(false, None, Some("Already registered")))
            == Outcome(Notice(Some("Already registered"), Error), false, false, true)
  {
  }

  /** An empty `message` or `detail` counts as absent: the fallback text
      is shown. */
  lemma EmptyFieldFallsBack(ok: bool)
    ensures UnregisterOutcome(Response(ok, Some(""), Some(""))).notice.text
            == Some(if ok then Unregistered else UnregisterFailed)
    ensures !ok ==> SignupOutcome(Response(ok, Some(""), Some(""))).notice.text == Some(SignupFailed)
  {
  }
}
