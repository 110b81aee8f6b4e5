/**
 * The NewsletterForm component: an e-mail field and a three-state status
 * (idle, submitting, success). Submitting schedules one simulated reply,
 * which clears the field and shows the success panel; Reset returns to idle.
 * The one-second timer is modelled as an explicit `TimerFires` step.
 */
module NewsletterForm {
  datatype Status = Idle | Submitting | Success

  /** The status as the component stores it. */
  function StatusText(s: Status): (t: string)
    ensures |t| > 0
  {
    match s
    case Idle => "idle"
    case Submitting => "submitting"
    case Success => "success"
  }

  class Form {
    var email: string
    var status: Status
    /** Whether the simulated reply is still scheduled. */
    var timerPending: bool

    /**
     * The states the component can reach: the reply is pending exactly while
     * submitting, and the success panel always follows a cleared field.
     */
    predicate Valid()
      reads this
    {
      && (timerPending <==> status == Submitting)
      && (status == Success ==> email == "")
    }

    constructor()
      ensures Valid()
      ensures email == "" && status == Idle && !timerPending
    {
      email := "";
      status := Idle;
      timerPending := false;
    }

    /** Typing is possible only in the enabled form, that is while idle. */
    method ChangeEmail(value: string)
      requires Valid() && status == Idle
      modifies this
      ensures Valid()
      ensures email == value && status == Idle && !timerPending
    {
      email := value;
    }

    /**
     * `handleSubmit`, reached from the enabled form. The field is `required`,
     * so the browser submits only a non-empty address; otherwise nothing happens.
     */
    method Submit() returns (submitted: bool)
      requires Valid() && status == Idle
      modifies this
      ensures Valid()
      ensures submitted <==> old(email) != ""
      ensures submitted ==> status == Submitting && timerPending && email == old(email)
      ensures !submitted ==> status == Idle && !timerPending && email == old(email)
    {
      if email == "" {
        return false;
      }
      status := Submitting;
      timerPending := true;
      return true;
    }

    /** The simulated reply arrives: success, and the field is cleared. */
    method TimerFires()
      requires Valid() && timerPending
      modifies this
      ensures Valid()
      ensures status == Success && email == "" && !timerPending
    {
      status := Success;
      email := "";
      timerPending := false;
    }

    /** The Reset button of the success panel. */
    method Reset()
      requires Valid() && status == Success
      modifies this
      ensures Valid()
      ensures status == Idle && email == "" && !timerPending
    {
      status := Idle;
    }

    /** The success panel replaces the form. */
    predicate ShowsSuccessPanel()
      reads this
    {
      status == Success
    }

    /** Input and button are disabled while submitting, and only then. */
    predicate ControlsDisabled()
      reads this
    {
      status == Submitting
    }

    function ButtonLabel(): (text: string)
      reads this
      ensures text == "Joining..." <==> status == Submitting
      ensures text == "Join Drop Club" <==> status != Submitting
    {
      if status == Submitting then "Joining..." else "Join Drop Club"
    }

    /** `!status && <ArrowRight/>`: the arrow appears when the status string is empty. */
    predicate ShowsArrow()
      reads this
    {
      StatusText(status) == ""
    }

    /** Intended: the arrow decorates the idle button. */
    predicate ShowsArrowIntended()
      reads this
    {
      status == Idle
    }
  }

  /** As written, the arrow is never shown: the status is a non-empty string in every state. */
  lemma ArrowNeverShown(f: Form)
    ensures !f.ShowsArrow()
  {
  }

  /** The idle form is the counterexample: the intended arrow is missing there. */
  lemma ArrowMissingWhenIdle(f: Form)
    requires f.status == Idle
    ensures f.ShowsArrowIntended() && !f.ShowsArrow()
  {
  }

  /** With the intended condition the arrow and the "Joining..." label never appear together. */
  lemma IntendedArrowNotWhileJoining(f: Form)
    ensures f.ShowsArrowIntended() ==> f.ButtonLabel() == "Join Drop Club" && !f.ControlsDisabled()
  {
  }

  /** One full round: type, submit, reply, reset brings the form back to an empty idle state. */
  method SubscribeOnce(f: Form, address: string)
    requires f.Valid() && f.status == Idle && address != ""
    modifies f
    ensures f.Valid() && f.status == Idle && f.email == ""
  {
    f.ChangeEmail(address);
    var submitted := f.Submit();
    assert submitted;
    assert f.ControlsDisabled() && f.ButtonLabel() == "Joining...";
    f.TimerFires();
    assert f.ShowsSuccessPanel();
    f.Reset();
  }
}
