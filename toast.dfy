/**
 * One notification (toast.go) together with the values the package passes
 * around: categories, styles, the countdown timer, the messages the host
 * event loop delivers and the follow-up commands handed back to it.
 *
 * Foreign collaborators are parameters: the countdown timer's own tick
 * handling is `timerUpdate`, and the styling library's rendering is
 * `render`. Both are arbitrary total functions, and nothing in this module
 * assumes anything about them.
 */
module Toast {
  import opened Wrappers

  /** time.Duration: a signed count of nanoseconds. */
  type Duration = int

  const Millisecond: Duration := 1_000_000

  /** The countdown's tick granularity (toast.go:27). */
  const TickInterval: Duration := 100 * Millisecond

  /** A category tag. Open-ended: callers may use any integer as a custom category. */
  type ToastType = int

  const Info: ToastType := 0
  const Warning: ToastType := 1
  const Error: ToastType := 2

  predicate IsBuiltIn(tt: ToastType) {
    tt == Info || tt == Warning || tt == Error
  }

  /** Horizontal alignment of the rendered block. */
  datatype Alignment = Left | Center | Right

  /**
   * A style of the styling library, kept opaque. The constructors name the
   * styles this package builds itself; anything a caller supplies is a UserStyle.
   */
  datatype Style =
    | BaseStyle
    | InfoStyle
    | WarningStyle
    | ErrorStyle
    | AlignStyle(align: Alignment)
    | UserStyle(descriptor: string)

  /** A per-category override: prefix glyph and style. */
  datatype CustomStyle = CustomStyle(prefix: string, style: Style)

  /** Timer ids are handed out by the timer package. */
  type TimerId = int

  /** The countdown timer, opaque apart from its id and configuration. */
  datatype Timer = Timer(id: TimerId, timeout: Duration, interval: Duration)

  /** A timer tick, addressed to a timer by id. */
  datatype TickMsg = TickMsg(timerId: TimerId, timedOut: bool)

  /** One notification. */
  datatype Toast = Toast(
    id: string,
    toastType: ToastType,
    message: string,
    duration: Duration,
    timer: Timer,
    visible: bool)

  /** The messages the host event loop delivers. */
  datatype Msg =
    | Pushed(toast: Toast)
    | Tick(tick: TickMsg)
    | Timeout(timerId: TimerId)
    | Expired(id: string)
    | DismissAllMsg
    | Other

  /** A follow-up command for the host: a message to redeliver, or a timer request. */
  datatype Cmd =
    | Send(msg: Msg)
    | StartCountdown(timerId: TimerId)
    | ContinueCountdown(timerId: TimerId)

  /** The timer package's handling of a tick: new timer state and an optional follow-up. */
  type TimerUpdate = (Timer, TickMsg) -> (Timer, Option<Cmd>)

  /** The styling library's rendering of content in a style. */
  type Renderer = (Style, string) -> string

  /** A fresh toast, visible, with a countdown configured to `duration` (toast.go:21-30). */
  function NewToast(id: string, message: string, toastType: ToastType, duration: Duration, timerId: TimerId): (t: Toast)
    ensures t.id == id && t.message == message && t.toastType == toastType && t.duration == duration
    ensures t.visible
    ensures t.timer.id == timerId && t.timer.timeout == duration && t.timer.interval == TickInterval
  {
    Toast(id, toastType, message, duration, Timer(timerId, duration, TickInterval), true)
  }

  /** The request that starts the toast's own countdown (toast.go:57-59). */
  function InitToast(t: Toast): (c: Cmd)
    ensures c.StartCountdown? && c.timerId == t.timer.id
  {
    StartCountdown(t.timer.id)
  }

  /**
   * A toast's reaction to a message (toast.go:32-44). A tick goes to the
   * timer; a timeout of ANY timer hides the toast and asks for its removal;
   * anything else changes nothing.
   */
  function UpdateToast(t: Toast, msg: Msg, timerUpdate: TimerUpdate): (r: (Toast, Option<Cmd>))
    // identity and content never change
    ensures r.0.id == t.id && r.0.toastType == t.toastType
    ensures r.0.message == t.message && r.0.duration == t.duration
    // visibility never comes back
    ensures r.0.visible ==> t.visible
    ensures msg.Tick? ==> r.0.visible == t.visible
    ensures msg.Tick? ==> r == (t.(timer := timerUpdate(t.timer, msg.tick).0), timerUpdate(t.timer, msg.tick).1)
    ensures msg.Timeout? ==> !r.0.visible && r.1 == Some(Send(Expired(t.id)))
    ensures !msg.Tick? ==> r.0.timer == t.timer
    ensures !msg.Tick? && !msg.Timeout? ==> r == (t, None)
  {
    match msg
    case Tick(tick) =>
      var (timer', cmd) := timerUpdate(t.timer, tick);
      (t.(timer := timer'), cmd)
    case Timeout(_) => (t.(visible := false), Some(Send(Expired(t.id))))
    case _ => (t, None)
  }

  /** A tick changes nothing but the timer, and its follow-up is the timer's. */
  lemma TickOnlyAdvancesTimer(t: Toast, tick: TickMsg, timerUpdate: TimerUpdate)
    ensures UpdateToast(t, Tick(tick), timerUpdate).0.(timer := t.timer) == t
    ensures UpdateToast(t, Tick(tick), timerUpdate).0.timer == timerUpdate(t.timer, tick).0
    ensures UpdateToast(t, Tick(tick), timerUpdate).1 == timerUpdate(t.timer, tick).1
  {
  }

  /** The toast does not look at which timer timed out. */
  lemma TimeoutIgnoresOrigin(t: Toast, a: TimerId, b: TimerId, timerUpdate: TimerUpdate)
    ensures UpdateToast(t, Timeout(a), timerUpdate) == UpdateToast(t, Timeout(b), timerUpdate)
  {
  }

  /** A second timeout leaves the toast as it is but asks for its removal again. */
  lemma SecondTimeout(t: Toast, a: TimerId, b: TimerId, timerUpdate: TimerUpdate)
    ensures var (t1, c1) := UpdateToast(t, Timeout(a), timerUpdate);
            UpdateToast(t1, Timeout(b), timerUpdate) == (t1, c1)
  {
  }

  /**
   * Prefix and style for a category (toast.go:61-101): an override wins
   * verbatim for every category; otherwise Info, Warning and Error have
   * their glyphs, and every other category an empty prefix in the base style.
   */
  function PrefixAndStyle(toastType: ToastType, custom: Option<CustomStyle>): (r: (string, Style))
    ensures custom.Some? ==> r == (custom.value.prefix, custom.value.style)
    ensures custom.None? && toastType == Info ==> r == ("\U{2139}", InfoStyle)
    ensures custom.None? && toastType == Warning ==> r == ("\U{26A0}", WarningStyle)
    ensures custom.None? && toastType == Error ==> r == ("\U{2717}", ErrorStyle)
    ensures custom.None? && !IsBuiltIn(toastType) ==> r == ("", BaseStyle)
  {
    if custom.Some? then (custom.value.prefix, custom.value.style)
    else if toastType == Info then ("\U{2139}", InfoStyle)
    else if toastType == Warning then ("\U{26A0}", WarningStyle)
    else if toastType == Error then ("\U{2717}", ErrorStyle)
    else ("", BaseStyle)
  }

  /** Without an override, a category has a glyph exactly when it is built in. */
  lemma DefaultPrefixNonEmptyIffBuiltIn(toastType: ToastType)
    ensures PrefixAndStyle(toastType, None).0 != "" <==> IsBuiltIn(toastType)
  {
  }

  /** One display line (toast.go:46-55): empty once hidden, else "<prefix> <message>" in the resolved style. */
  function ViewToast(t: Toast, custom: Option<CustomStyle>, render: Renderer): (s: string)
    ensures !t.visible ==> s == ""
    ensures t.visible ==>
      var (prefix, style) := PrefixAndStyle(t.toastType, custom);
      s == render(style, prefix + " " + t.message)
  {
    if !t.visible then ""
    else
      var (prefix, style) := PrefixAndStyle(t.toastType, custom);
      render(style, prefix + " " + t.message)
  }

  /** Once a toast has seen a timeout, no later message shows it again. */
  lemma {:induction false} HiddenStaysHidden(t: Toast, msgs: seq<Msg>, timerUpdate: TimerUpdate)
    requires !t.visible
    ensures !UpdateAll(t, msgs, timerUpdate).visible
    decreases |msgs|
  {
    if msgs != [] {
      HiddenStaysHidden(UpdateToast(t, msgs[0], timerUpdate).0, msgs[1..], timerUpdate);
    }
  }

  /** The toast after a run of messages. */
  function UpdateAll(t: Toast, msgs: seq<Msg>, timerUpdate: TimerUpdate): Toast
    decreases |msgs|
  {
    if msgs == [] then t else UpdateAll(UpdateToast(t, msgs[0], timerUpdate).0, msgs[1..], timerUpdate)
  }
}
