/**
 * The auth modal (`AuthModal`): a card whose front and back faces both show
 * the form for the current `mode`, flipped by `isFlipped`. A toggle flips the
 * card at once and schedules, 300 ms later, a swap of `mode` to the opposite
 * of the mode seen when the toggle happened. Opening the modal resets both.
 *
 * Time is left out: the scheduled swaps form a FIFO queue `pending` of the
 * modes they will set (all timers have the same delay, so they fire in the
 * order they were set), and a timer firing is the event `Fire`. Between two
 * user events React re-renders, so a toggle sees the current `mode` and
 * `isFlipped`.
 */
module AuthModal {
  import opened Effects

  datatype Mode = Login | Signup

  function Opposite(m: Mode): (r: Mode)
    ensures r != m
  {
    if m == Login then Signup else Login
  }

  /** Which form component a face of the card renders. */
  datatype Form = LoginFormView | SignUpFormView

  /** `CardFront`: `mode === 'login' ? <LoginForm/> : <SignUpForm/>`. */
  function FrontFace(mode: Mode): (f: Form)
    ensures f == LoginFormView <==> mode == Login
  {
    if mode == Login then LoginFormView else SignUpFormView
  }

  /** `CardBack`: `mode === 'signup' ? <SignUpForm/> : <LoginForm/>`. */
  function BackFace(mode: Mode): (f: Form)
    ensures f == SignUpFormView <==> mode == Signup
  {
    if mode == Signup then SignUpFormView else LoginFormView
  }

  /** Both faces always render the same form, so flipping the card never changes the form by itself. */
  lemma FacesAgree(mode: Mode)
    ensures FrontFace(mode) == BackFace(mode)
    ensures FrontFace(mode) == LoginFormView <==> mode == Login
  {
  }

  /** The modal's `open` prop, its two state variables, and the swaps still scheduled. */
  datatype ModalState = ModalState(open: bool, mode: Mode, isFlipped: bool, pending: seq<Mode>)

  datatype Event =
    | Toggle            // `handleToggleMode`, from either form's switch link
    | Fire              // the oldest scheduled swap runs
    | SetOpen(open: bool)  // the `open` prop takes a new value; the effect on `[open]` follows

  /** `useState('login')`, `useState(false)`, nothing scheduled; the mount-time effect resets to the same values. */
  function Initial(open: bool): (s: ModalState)
    ensures s.open == open && s.mode == Login && !s.isFlipped && s.pending == []
  {
    ModalState(open, Login, false, [])
  }

  /** One event. A `Fire` with nothing scheduled cannot occur; it is given no effect. */
  function Step(s: ModalState, e: Event): (r: ModalState)
    ensures e.Toggle? ==>
      r == s.(isFlipped := !s.isFlipped, pending := s.pending + [Opposite(s.mode)])
    ensures e.Fire? && s.pending != [] ==>
      r == s.(mode := s.pending[0], pending := s.pending[1..])
    ensures e.Fire? && s.pending == [] ==> r == s
    ensures e.SetOpen? && e.open && !s.open ==>
      r == s.(open := true, mode := Login, isFlipped := false)
    ensures e.SetOpen? && !(e.open && !s.open) ==> r == s.(open := e.open)
  {
    match e
    case Toggle => s.(isFlipped := !s.isFlipped, pending := s.pending + [Opposite(s.mode)])
    case Fire => if s.pending == [] then s else s.(mode := s.pending[0], pending := s.pending[1..])
    case SetOpen(b) => if b && !s.open then s.(open := true, mode := Login, isFlipped := false) else s.(open := b)
  }

  /** A sequence of events, applied in order. */
  function Run(s: ModalState, events: seq<Event>): ModalState
    decreases |events|
  {
    if events == [] then s else Run(Step(s, events[0]), events[1..])
  }

  /** The mode the modal will show once every scheduled swap has fired. */
  function Eventual(s: ModalState): (m: Mode)
    ensures s.pending == [] ==> m == s.mode
    ensures s.pending != [] ==> m in s.pending
  {
    if s.pending == [] then s.mode else s.pending[|s.pending| - 1]
  }

  /** The card is flipped exactly when the modal is headed for the sign-up form. */
  predicate Agree(s: ModalState) {
    s.isFlipped <==> Eventual(s) == Signup
  }

  /** A swap firing never changes where the modal is headed. */
  lemma FirePreservesEventual(s: ModalState)
    ensures Eventual(Step(s, Fire)) == Eventual(s)
    ensures Agree(s) ==> Agree(Step(s, Fire))
  {
    if |s.pending| > 1 {
      assert Step(s, Fire).pending[|s.pending| - 2] == s.pending[|s.pending| - 1];
    }
  }

  /**
   * From an agreeing state, a toggle keeps the agreement exactly when the
   * swaps already scheduled end on the mode shown now (in particular, when
   * nothing is scheduled).
   */
  lemma ToggleAgreementIff(s: ModalState)
    requires Agree(s)
    ensures Agree(Step(s, Toggle)) <==> Eventual(s) == s.mode
  {
    var r := Step(s, Toggle);
    assert r.pending[|r.pending| - 1] == Opposite(s.mode);
  }

  /**
   * Reopening a closed modal unflips the card and shows login but keeps the
   * schedule, so card and form agree afterwards exactly when no swap is
   * pending or the last one scheduled goes to login.
   */
  lemma OpenAgreementIff(s: ModalState)
    requires !s.open
    ensures Agree(Step(s, SetOpen(true))) <==> s.pending == [] || s.pending[|s.pending| - 1] == Login
  {
  }

  /**
   * Two toggles before either swap fires: the card is back on its first face,
   * but both swaps set the opposite of the same captured mode, so the mode
   * ends up switched and the card and the form disagree.
   */
  lemma DoubleToggleDesync(s: ModalState)
    requires s.pending == [] && Agree(s)
    ensures Run(s, [Toggle, Toggle, Fire, Fire]).isFlipped == s.isFlipped
    ensures Run(s, [Toggle, Toggle, Fire, Fire]).mode == Opposite(s.mode)
    ensures Run(s, [Toggle, Toggle, Fire, Fire]).pending == []
    ensures !Agree(Run(s, [Toggle, Toggle, Fire, Fire]))
  {
    var s1 := Step(s, Toggle);
    var s2 := Step(s1, Toggle);
    assert s2.pending == [Opposite(s.mode), Opposite(s.mode)];
    var s3 := Step(s2, Fire);
    var s4 := Step(s3, Fire);
    assert Run(s, [Toggle, Toggle, Fire, Fire]) == Run(s1, [Toggle, Fire, Fire]) == Run(s2, [Fire, Fire]);
    assert Run(s2, [Fire, Fire]) == Run(s3, [Fire]) == Run(s4, []) == s4;
  }

  /**
   * Reopening does not cancel a swap still scheduled: toggle to sign-up,
   * close and reopen before the swap fires, and the reset login face is then
   * replaced by the sign-up form on an unflipped card.
   */
  lemma ReopenDuringSwapDesync(s: ModalState)
    requires s.open && s.pending == [] && s.mode == Login && !s.isFlipped
    ensures Run(s, [Toggle, SetOpen(false), SetOpen(true), Fire]) ==
      ModalState(true, Signup, false, [])
    ensures !Agree(Run(s, [Toggle, SetOpen(false), SetOpen(true), Fire]))
  {
    var s1 := Step(s, Toggle);
    var s2 := Step(s1, SetOpen(false));
    var s3 := Step(s2, SetOpen(true));
    var s4 := Step(s3, Fire);
    assert Run(s, [Toggle, SetOpen(false), SetOpen(true), Fire]) == Run(s1, [SetOpen(false), SetOpen(true), Fire]);
    assert Run(s1, [SetOpen(false), SetOpen(true), Fire]) == Run(s2, [SetOpen(true), Fire]);
    assert Run(s2, [SetOpen(true), Fire]) == Run(s3, [Fire]) == Run(s4, []) == s4;
  }

  /**
   * A run is well paced when the user never toggles, and the modal is never
   * reopened, while a swap is still scheduled.
   */
  predicate WellPaced(s: ModalState, events: seq<Event>)
    decreases |events|
  {
    events == [] ||
    (&& (events[0].Toggle? ==> s.pending == [])
     && (events[0] == SetOpen(true) && !s.open ==> s.pending == [])
     && WellPaced(Step(s, events[0]), events[1..]))
  }

  /** A well-paced run keeps the card's face and the eventual form in agreement. */
  lemma {:induction false} WellPacedKeepsAgreement(s: ModalState, events: seq<Event>)
    requires Agree(s) && WellPaced(s, events)
    ensures Agree(Run(s, events))
    decreases |events|
  {
    if events != [] {
      var e := events[0];
      if e.Toggle? {
        ToggleAgreementIff(s);
      } else if e.Fire? {
        FirePreservesEventual(s);
      }
      WellPacedKeepsAgreement(Step(s, e), events[1..]);
    }
  }

  /** The modal starts in agreement, so a well-paced session never shows the wrong face. */
  lemma WellPacedSessionAgrees(open: bool, events: seq<Event>)
    requires WellPaced(Initial(open), events)
    ensures Agree(Run(Initial(open), events))
  {
    WellPacedKeepsAgreement(Initial(open), events);
  }

  /**
   * Without toggles nothing is scheduled: the swaps still pending after such
   * a run are the last ones of those pending before it, each with the mode
   * captured by its own toggle.
   */
  lemma {:induction false} QueueOnlyDrainsWithoutToggle(s: ModalState, events: seq<Event>)
    requires forall i :: 0 <= i < |events| ==> !events[i].Toggle?
    ensures |Run(s, events).pending| <= |s.pending|
    ensures Run(s, events).pending == s.pending[|s.pending| - |Run(s, events).pending|..]
    decreases |events|
  {
    if events != [] {
      var r := Step(s, events[0]);
      assert forall i :: 0 <= i < |events[1..]| ==> !events[1..][i].Toggle? by {
        forall i | 0 <= i < |events[1..]| ensures !events[1..][i].Toggle? {
          assert events[1..][i] == events[i + 1];
        }
      }
      QueueOnlyDrainsWithoutToggle(r, events[1..]);
    }
  }

  /** `handleAuth`: `onAuthenticate()` first, then `onClose()`. */
  function HandleAuth(): (effects: seq<Effect>)
    ensures |effects| == 2 && effects[0] == OnAuthenticate && effects[1] == OnClose
  {
    [OnAuthenticate, OnClose]
  }

  /** The mounted modal component, its state updated in place by its handlers, timers and effect. */
  class Modal {
    var open: bool
    var mode: Mode
    var isFlipped: bool
    var pending: seq<Mode>

    function State(): ModalState
      reads this
    {
      ModalState(open, mode, isFlipped, pending)
    }

    /** Mounting with the given `open` prop. */
    constructor(open: bool)
      ensures State() == Initial(open)
    {
      this.open := open;
      mode := Login;
      isFlipped := false;
      pending := [];
    }

    /** The `open` prop changes; when it turns true the `[open]` effect resets `mode` and `isFlipped`. */
    method OpenChanged(b: bool)
      modifies this
      ensures State() == Step(old(State()), SetOpen(b))
    {
      if b && !open {
        mode := Login;
        isFlipped := false;
      }
      open := b;
    }

    /** `handleToggleMode`: flip now, schedule the swap to the opposite of the current mode. */
    method HandleToggleMode()
      modifies this
      ensures State() == Step(old(State()), Toggle)
    {
      isFlipped := !isFlipped;
      pending := pending + [Opposite(mode)];
    }

    /** The oldest scheduled `setTimeout` callback runs. */
    method FireSwap()
      requires pending != []
      modifies this
      ensures State() == Step(old(State()), Fire)
    {
      mode := pending[0];
      pending := pending[1..];
    }

    /** The form both faces currently render. */
    function ShownForm(): (f: Form)
      reads this
      ensures f == FrontFace(mode) && f == BackFace(mode)
    {
      FacesAgree(mode);
      FrontFace(mode)
    }
  }
}
