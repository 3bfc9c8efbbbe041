/**
 * The notification registry (manager.go). A Manager is a value: every
 * configuration call returns a changed copy, Push and DismissAll only
 * return deferred commands, and Update is the one place where the toast
 * collection changes. Update and View are the source's loops, each proved
 * equal to a specification function (Apply, ViewOf) about which the
 * properties are proved as lemmas.
 */
module Manager {
  import opened Wrappers
  import opened Toast
  import Decimal

  /** Screen anchor. Go's position is an int; six values are named. */
  type Position = int

  const TopLeft: Position := 0
  const TopCenter: Position := 1
  const TopRight: Position := 2
  const BottomLeft: Position := 3
  const BottomCenter: Position := 4
  const BottomRight: Position := 5

  datatype Manager = Manager(
    toasts: seq<Toast>,
    maxToasts: int,
    counter: int,
    position: Position,
    width: int,
    height: int,
    customStyles: map<ToastType, CustomStyle>)

  // ---------------------------------------------------------------------------
  // Construction and configuration

  /** An empty registry with the default configuration (manager.go:62-72). */
  function NewManager(): (m: Manager)
    ensures m.toasts == [] && m.counter == 0 && m.customStyles == map[]
    ensures m.maxToasts == 3 && m.position == TopRight && m.width == 30 && m.height == 0
  {
    Manager([], 3, 0, TopRight, 30, 0, map[])
  }

  function WithPosition(m: Manager, pos: Position): (r: Manager)
    ensures r.position == pos
    ensures r.(position := m.position) == m
  {
    m.(position := pos)
  }

  function WithMaxToasts(m: Manager, max: int): (r: Manager)
    ensures r.maxToasts == max
    ensures r.(maxToasts := m.maxToasts) == m
  {
    m.(maxToasts := max)
  }

  function WithWidth(m: Manager, width: int): (r: Manager)
    ensures r.width == width
    ensures r.(width := m.width) == m
  {
    m.(width := width)
  }

  /** Registers or replaces the override of one category. */
  function WithStyle(m: Manager, toastType: ToastType, prefix: string, style: Style): (r: Manager)
    ensures r.customStyles.Keys == m.customStyles.Keys + {toastType}
    ensures r.customStyles[toastType] == CustomStyle(prefix, style)
    ensures forall k :: k in m.customStyles && k != toastType ==> r.customStyles[k] == m.customStyles[k]
    ensures r.(customStyles := m.customStyles) == m
  {
    m.(customStyles := m.customStyles[toastType := CustomStyle(prefix, style)])
  }

  function SetSize(m: Manager, width: int, height: int): (r: Manager)
    ensures r.width == width && r.height == height
    ensures r.(width := m.width, height := m.height) == m
  {
    m.(width := width, height := height)
  }

  /** The override, if any, that applies to a category. */
  function StyleFor(m: Manager, toastType: ToastType): (r: Option<CustomStyle>)
    ensures r.Some? <==> toastType in m.customStyles
    ensures r.Some? ==> r.value == m.customStyles[toastType]
  {
    if toastType in m.customStyles then Some(m.customStyles[toastType]) else None
  }

  /** After WithStyle, the category renders with the new override and every other category as before. */
  lemma WithStyleOverrides(m: Manager, toastType: ToastType, prefix: string, style: Style, other: ToastType)
    requires other != toastType
    ensures var r := WithStyle(m, toastType, prefix, style);
      && PrefixAndStyle(toastType, StyleFor(r, toastType)) == (prefix, style)
      && StyleFor(r, other) == StyleFor(m, other)
  {
  }

  // ---------------------------------------------------------------------------
  // Deferred commands

  /** The id text of the n-th toast: "toast-" followed by n in decimal. */
  function IdOf(n: int): (id: string)
    ensures |id| > 6 && id[..6] == "toast-"
    ensures id[6..] == Decimal.IntToString(n)
  {
    "toast-" + Decimal.IntToString(n)
  }

  lemma IdOfInjective(a: int, b: int)
    requires IdOf(a) == IdOf(b)
    ensures a == b
  {
    var p := "toast-";
    assert IdOf(a)[|p|..] == Decimal.IntToString(a);
    assert IdOf(b)[|p|..] == Decimal.IntToString(b);
    Decimal.IntToStringInjective(a, b);
  }

  /**
   * A deferred creation request (manager.go:114-121). The increment of the
   * counter happens on a copy and is lost: the Manager is not changed, so
   * the id is always that of counter + 1. The timer id is allocated by the
   * timer package.
   */
  function Push(m: Manager, message: string, toastType: ToastType, duration: Duration, timerId: TimerId): (c: Cmd)
    ensures c.Send? && c.msg.Pushed?
    ensures var t := c.msg.toast;
      && t.id == IdOf(m.counter + 1)
      && t.message == message && t.toastType == toastType && t.duration == duration
      && t.visible && t.timer.id == timerId
  {
    var counter := m.counter + 1;
    Send(Pushed(NewToast(IdOf(counter), message, toastType, duration, timerId)))
  }

  /** A deferred dismiss-all request (manager.go:100-104). */
  function DismissAll(m: Manager): (c: Cmd)
    ensures c.Send? && c.msg.DismissAllMsg?
  {
    Send(DismissAllMsg)
  }

  // ---------------------------------------------------------------------------
  // The single mutation point

  /** Every toast's reaction to a timer message, in collection order. */
  function Broadcast(ts: seq<Toast>, msg: Msg, timerUpdate: TimerUpdate): (r: seq<Toast>)
    ensures |r| == |ts|
    ensures forall i :: 0 <= i < |r| ==> r[i] == UpdateToast(ts[i], msg, timerUpdate).0
  {
    seq(|ts|, i requires 0 <= i < |ts| => UpdateToast(ts[i], msg, timerUpdate).0)
  }

  function OptionToSeq<T>(o: Option<T>): (r: seq<T>)
    ensures |r| <= 1
  {
    if o.Some? then [o.value] else []
  }

  /** The non-nil follow-ups of the toasts' reactions, in collection order. */
  function FollowUps(ts: seq<Toast>, msg: Msg, timerUpdate: TimerUpdate): (r: seq<Cmd>)
    ensures |r| <= |ts|
    decreases |ts|
  {
    if ts == [] then []
    else FollowUps(ts[..|ts| - 1], msg, timerUpdate) + OptionToSeq(UpdateToast(ts[|ts| - 1], msg, timerUpdate).1)
  }

  /** How many toasts carry an id. */
  function CountId(ts: seq<Toast>, id: string): (n: nat)
    ensures n <= |ts|
  {
    if ts == [] then 0 else (if ts[0].id == id then 1 else 0) + CountId(ts[1..], id)
  }

  /** The toasts whose id is not `id`, in their original order. */
  function RemoveId(ts: seq<Toast>, id: string): (r: seq<Toast>)
    ensures |r| == |ts| - CountId(ts, id)
  {
    if ts == [] then []
    else (if ts[0].id == id then [] else [ts[0]]) + RemoveId(ts[1..], id)
  }

  /**
   * What Update does with one message (manager.go:123-154): a created toast
   * is appended and its countdown started; timer messages go to every
   * toast; an expiry removes every toast with that id; dismiss-all clears;
   * anything else changes nothing.
   */
  function Apply(m: Manager, msg: Msg, timerUpdate: TimerUpdate): (r: (Manager, seq<Cmd>))
    // no message changes anything but the collection
    ensures r.0.(toasts := m.toasts) == m
    ensures msg.Other? ==> r == (m, [])
  {
    match msg
    case Pushed(t) => (m.(toasts := m.toasts + [t]), [InitToast(t)])
    case Tick(_) => (m.(toasts := Broadcast(m.toasts, msg, timerUpdate)), FollowUps(m.toasts, msg, timerUpdate))
    case Timeout(_) => (m.(toasts := Broadcast(m.toasts, msg, timerUpdate)), FollowUps(m.toasts, msg, timerUpdate))
    case Expired(id) => (m.(toasts := RemoveId(m.toasts, id)), [])
    case DismissAllMsg => (m.(toasts := []), [])
    case Other => (m, [])
  }

  /** Update as the source writes it: loops over the collection (manager.go:123-154). */
  method Update(m: Manager, msg: Msg, timerUpdate: TimerUpdate) returns (m': Manager, cmds: seq<Cmd>)
    ensures (m', cmds) == Apply(m, msg, timerUpdate)
  {
    m' := m;
    cmds := [];
    match msg {
      case Pushed(t) =>
        m' := m'.(toasts := m'.toasts + [t]);
        cmds := [InitToast(t)];
      case Tick(_) =>
        m', cmds := BroadcastLoop(m, msg, timerUpdate);
      case Timeout(_) =>
        m', cmds := BroadcastLoop(m, msg, timerUpdate);
      case Expired(id) =>
        var kept := DeleteId(m.toasts, id);
        m' := m'.(toasts := kept);
      case DismissAllMsg =>
        m' := m'.(toasts := []);
      case Other =>
    }
  }

  /** The timer-message branch: each toast is replaced by its reaction, non-nil follow-ups are collected. */
  method BroadcastLoop(m: Manager, msg: Msg, timerUpdate: TimerUpdate) returns (m': Manager, cmds: seq<Cmd>)
    ensures m' == m.(toasts := Broadcast(m.toasts, msg, timerUpdate))
    ensures cmds == FollowUps(m.toasts, msg, timerUpdate)
  {
    var toasts := m.toasts;
    cmds := [];
    var i := 0;
    while i < |toasts|
      invariant 0 <= i <= |m.toasts|
      invariant (toasts, cmds) == BroadcastPrefix(m.toasts, i, msg, timerUpdate)
    {
      var reaction := UpdateToast(m.toasts[i], msg, timerUpdate);
      toasts := toasts[i := reaction.0];
      ghost var collected := cmds;
      if reaction.1.Some? {
        cmds := cmds + [reaction.1.value];
      }
      assert cmds == collected + OptionToSeq(reaction.1);
      i := i + 1;
    }
    BroadcastPrefixReacts(m.toasts, i, msg, timerUpdate);
    assert m.toasts[..i] == m.toasts;
    m' := m.(toasts := toasts);
  }

  /** The collection and the follow-ups after the broadcast loop's first i steps. */
  ghost function BroadcastPrefix(ts: seq<Toast>, i: nat, msg: Msg, timerUpdate: TimerUpdate): (r: (seq<Toast>, seq<Cmd>))
    requires i <= |ts|
    ensures |r.0| == |ts|
    decreases i
  {
    if i == 0 then (ts, [])
    else
      var (toasts, cmds) := BroadcastPrefix(ts, i - 1, msg, timerUpdate);
      var reaction := UpdateToast(ts[i - 1], msg, timerUpdate);
      (toasts[i - 1 := reaction.0], cmds + OptionToSeq(reaction.1))
  }

  /** After i steps the first i toasts have reacted, the rest are untouched, and their follow-ups are collected. */
  lemma {:induction false} BroadcastPrefixReacts(ts: seq<Toast>, i: nat, msg: Msg, timerUpdate: TimerUpdate)
    requires i <= |ts|
    ensures BroadcastPrefix(ts, i, msg, timerUpdate)
         == (Broadcast(ts[..i], msg, timerUpdate) + ts[i..], FollowUps(ts[..i], msg, timerUpdate))
    decreases i
  {
    if i > 0 {
      BroadcastPrefixReacts(ts, i - 1, msg, timerUpdate);
      BroadcastStep(ts, i - 1, msg, timerUpdate);
      FollowUpsStep(ts, i - 1, msg, timerUpdate);
    } else {
      assert ts[..0] == [] && ts[0..] == ts;
      assert Broadcast(ts[..0], msg, timerUpdate) + ts[0..] == ts;
    }
  }

  /** Replacing the next unreacted toast by its reaction extends the reacted prefix by one. */
  lemma BroadcastStep(ts: seq<Toast>, i: nat, msg: Msg, timerUpdate: TimerUpdate)
    requires i < |ts|
    ensures (Broadcast(ts[..i], msg, timerUpdate) + ts[i..])[i := UpdateToast(ts[i], msg, timerUpdate).0]
         == Broadcast(ts[..i + 1], msg, timerUpdate) + ts[i + 1..]
  {
    var before := Broadcast(ts[..i], msg, timerUpdate) + ts[i..];
    var after := Broadcast(ts[..i + 1], msg, timerUpdate) + ts[i + 1..];
    forall j | 0 <= j < |ts|
      ensures before[i := UpdateToast(ts[i], msg, timerUpdate).0][j] == after[j]
    {
      if j > i {
        assert after[j] == ts[i + 1..][j - i - 1];
      }
    }
  }

  /** One more toast adds its own follow-up, if any, at the end. */
  lemma FollowUpsStep(ts: seq<Toast>, i: nat, msg: Msg, timerUpdate: TimerUpdate)
    requires i < |ts|
    ensures FollowUps(ts[..i + 1], msg, timerUpdate)
         == FollowUps(ts[..i], msg, timerUpdate) + OptionToSeq(UpdateToast(ts[i], msg, timerUpdate).1)
  {
    assert ts[..i + 1][..i] == ts[..i];
  }

  /** The expiry branch: keeps the toasts whose id differs, left to right. */
  method DeleteId(ts: seq<Toast>, id: string) returns (kept: seq<Toast>)
    ensures kept == RemoveId(ts, id)
  {
    kept := [];
    var i := 0;
    while i < |ts|
      invariant 0 <= i <= |ts|
      invariant kept == RemoveId(ts[..i], id)
    {
      if ts[i].id != id {
        kept := kept + [ts[i]];
      }
      assert ts[..i + 1] == ts[..i] + [ts[i]];
      RemoveIdAppend(ts[..i], [ts[i]], id);
      i := i + 1;
    }
    assert ts[..i] == ts;
  }

  // ---------------------------------------------------------------------------
  // Rendering

  /** The visible toasts, in collection order. */
  function Visible(ts: seq<Toast>): (r: seq<Toast>)
    ensures |r| <= |ts|
  {
    if ts == [] then []
    else (if ts[0].visible then [ts[0]] else []) + Visible(ts[1..])
  }

  /** Exactly the visible toasts are kept. */
  lemma {:induction false} VisibleMembers(ts: seq<Toast>)
    ensures forall t :: t in Visible(ts) <==> t in ts && t.visible
    decreases |ts|
  {
    if ts != [] {
      VisibleMembers(ts[1..]);
      assert ts == [ts[0]] + ts[1..];
    }
  }

  /** The first n elements, none when n <= 0, all when n is at least the length. */
  function TakeAtMost<T>(s: seq<T>, n: int): (r: seq<T>)
    ensures r <= s
    ensures |r| == if n <= 0 then 0 else if n < |s| then n else |s|
  {
    if n <= 0 then [] else if n >= |s| then s else s[..n]
  }

  /** The toasts that are drawn: the first maxToasts visible ones. */
  function Selected(m: Manager): (r: seq<Toast>)
    ensures r <= Visible(m.toasts)
    ensures |r| <= |Visible(m.toasts)|
    ensures m.maxToasts <= 0 ==> r == []
    ensures 0 < m.maxToasts ==> |r| == if m.maxToasts < |Visible(m.toasts)| then m.maxToasts else |Visible(m.toasts)|
    ensures forall t :: t in r ==> t in m.toasts && t.visible
  {
    VisibleMembers(m.toasts);
    TakeAtMost(Visible(m.toasts), m.maxToasts)
  }

  /** One display line per toast, each with its category's override if there is one. */
  function LinesOf(m: Manager, sel: seq<Toast>, render: Renderer): (r: seq<string>)
    ensures |r| == |sel|
    ensures forall i :: 0 <= i < |sel| ==> r[i] == ViewToast(sel[i], StyleFor(m, sel[i].toastType), render)
  {
    seq(|sel|, i requires 0 <= i < |sel| => ViewToast(sel[i], StyleFor(m, sel[i].toastType), render))
  }

  /** strings.Join: the elements with the separator between consecutive ones. */
  function Join(lines: seq<string>, sep: string): (r: string)
    ensures lines == [] ==> r == ""
    ensures |lines| == 1 ==> r == lines[0]
  {
    if lines == [] then ""
    else if |lines| == 1 then lines[0]
    else lines[0] + sep + Join(lines[1..], sep)
  }

  /** Joining one more element appends the separator and that element. */
  lemma {:induction false} JoinAppend(lines: seq<string>, x: string, sep: string)
    requires lines != []
    ensures Join(lines + [x], sep) == Join(lines, sep) + sep + x
    decreases |lines|
  {
    if |lines| > 1 {
      assert (lines + [x])[1..] == lines[1..] + [x];
      JoinAppend(lines[1..], x, sep);
    } else {
      assert (lines + [x])[1..] == [x];
    }
  }

  /** Horizontal alignment of an anchor; an unnamed position keeps the zero alignment, Left. */
  function AlignmentOf(pos: Position): (a: Alignment)
    ensures pos == TopLeft || pos == BottomLeft ==> a == Left
    ensures pos == TopCenter || pos == BottomCenter ==> a == Center
    ensures pos == TopRight || pos == BottomRight ==> a == Right
    ensures !(TopLeft <= pos <= BottomRight) ==> a == Left
  {
    if pos == TopLeft || pos == BottomLeft then Left
    else if pos == TopCenter || pos == BottomCenter then Center
    else if pos == TopRight || pos == BottomRight then Right
    else Left
  }

  /** The top and the bottom anchor of a column align alike. */
  lemma TopAndBottomAlignAlike(pos: Position)
    requires TopLeft <= pos <= TopRight
    ensures AlignmentOf(pos) == AlignmentOf(pos + 3)
  {
  }

  /** What View shows (manager.go:156-194). */
  function ViewOf(m: Manager, render: Renderer): (s: string)
    ensures Selected(m) == [] ==> s == ""
    ensures Selected(m) != [] ==>
      s == render(AlignStyle(AlignmentOf(m.position)), Join(LinesOf(m, Selected(m), render), "\n"))
  {
    var lines := LinesOf(m, Selected(m), render);
    if |lines| == 0 then ""
    else render(AlignStyle(AlignmentOf(m.position)), Join(lines, "\n"))
  }

  /** View as the source writes it: one pass with a running count of visible toasts that stops at the cap. */
  method View(m: Manager, render: Renderer) returns (s: string)
    ensures s == ViewOf(m, render)
  {
    var visibleCount := 0;
    var lines: seq<string> := [];
    var i := 0;
    while i < |m.toasts|
      invariant 0 <= i <= |m.toasts|
      invariant visibleCount == |Visible(m.toasts[..i])|
      invariant lines == LinesOf(m, TakeAtMost(Visible(m.toasts[..i]), m.maxToasts), render)
    {
      var t := m.toasts[i];
      ViewStep(m, i, render);
      if t.visible {
        visibleCount := visibleCount + 1;
        var custom := StyleFor(m, t.toastType);
        if visibleCount <= m.maxToasts {
          lines := lines + [ViewToast(t, custom, render)];
        } else {
          // the cap was reached before this toast: nothing later is drawn
          CapReached(m, i);
          break;
        }
      }
      i := i + 1;
    }
    assert i == |m.toasts| ==> m.toasts[..i] == m.toasts;
    assert lines == LinesOf(m, Selected(m), render);
    if |lines| == 0 {
      return "";
    }
    var joined := Join(lines, "\n");
    s := render(AlignStyle(AlignmentOf(m.position)), joined);
  }

  /** One step of View's loop: how the visible prefix and the drawn lines grow with toast i. */
  lemma ViewStep(m: Manager, i: int, render: Renderer)
    requires 0 <= i < |m.toasts|
    ensures var t := m.toasts[i];
      var before := Visible(m.toasts[..i]);
      && Visible(m.toasts[..i + 1]) == before + (if t.visible then [t] else [])
      && (t.visible && |before| + 1 <= m.maxToasts ==>
            LinesOf(m, TakeAtMost(Visible(m.toasts[..i + 1]), m.maxToasts), render)
            == LinesOf(m, TakeAtMost(before, m.maxToasts), render) + [ViewToast(t, StyleFor(m, t.toastType), render)])
      && (!t.visible ==> TakeAtMost(Visible(m.toasts[..i + 1]), m.maxToasts) == TakeAtMost(before, m.maxToasts))
  {
    var t := m.toasts[i];
    assert m.toasts[..i + 1] == m.toasts[..i] + [t];
    VisibleAppend(m.toasts[..i], [t]);
    assert Visible([t]) == if t.visible then [t] else [] by {
      assert [t][1..] == [];
    }
  }

  /** Once the visible toasts before position i fill the cap, the rest changes nothing. */
  lemma CapReached(m: Manager, i: int)
    requires 0 <= i <= |m.toasts|
    requires m.maxToasts <= |Visible(m.toasts[..i])|
    ensures Selected(m) == TakeAtMost(Visible(m.toasts[..i]), m.maxToasts)
  {
    assert m.toasts[..i] + m.toasts[i..] == m.toasts;
    VisibleAppend(m.toasts[..i], m.toasts[i..]);
    TakeAtMostAppend(Visible(m.toasts[..i]), Visible(m.toasts[i..]), m.maxToasts);
  }

  // ---------------------------------------------------------------------------
  // Sequence lemmas

  lemma {:induction false} VisibleAppend(a: seq<Toast>, b: seq<Toast>)
    ensures Visible(a + b) == Visible(a) + Visible(b)
    decreases |a|
  {
    if a == [] {
      assert a + b == b;
    } else {
      assert (a + b)[0] == a[0];
      assert (a + b)[1..] == a[1..] + b;
      VisibleAppend(a[1..], b);
    }
  }

  lemma TakeAtMostAppend<T>(s: seq<T>, t: seq<T>, n: int)
    requires n <= |s|
    ensures TakeAtMost(s + t, n) == TakeAtMost(s, n)
  {
    if 0 < n {
      assert (s + t)[..n] == s[..n];
    }
  }

  lemma {:induction false} RemoveIdAppend(a: seq<Toast>, b: seq<Toast>, id: string)
    ensures RemoveId(a + b, id) == RemoveId(a, id) + RemoveId(b, id)
    decreases |a|
  {
    if a == [] {
      assert a + b == b;
    } else {
      assert (a + b)[0] == a[0];
      assert (a + b)[1..] == a[1..] + b;
      RemoveIdAppend(a[1..], b, id);
    }
  }

  // ---------------------------------------------------------------------------
  // Properties of Update

  /** Pushing then delivering the request appends the new toast and starts its countdown (manager.go:114-131). */
  lemma PushThenDeliver(m: Manager, message: string, toastType: ToastType, duration: Duration, timerId: TimerId, timerUpdate: TimerUpdate)
    ensures var (m', cmds) := Apply(m, Push(m, message, toastType, duration, timerId).msg, timerUpdate);
      && m'.toasts == m.toasts + [NewToast(IdOf(m.counter + 1), message, toastType, duration, timerId)]
      && m'.counter == m.counter
      && cmds == [StartCountdown(timerId)]
  {
  }

  /** The lost increment: two pushes on the same Manager value get the same id. */
  lemma PushRepeatsId(m: Manager, a: string, b: string, ta: ToastType, tb: ToastType, da: Duration, db: Duration, ia: TimerId, ib: TimerId)
    ensures Push(m, a, ta, da, ia).msg.toast.id == Push(m, b, tb, db, ib).msg.toast.id
  {
  }

  /** A created toast joins the end of the collection; the others keep their places. */
  lemma PushedAppends(m: Manager, t: Toast, timerUpdate: TimerUpdate)
    ensures var (m', cmds) := Apply(m, Pushed(t), timerUpdate);
      && |m'.toasts| == |m.toasts| + 1
      && m'.toasts[..|m.toasts|] == m.toasts && m'.toasts[|m.toasts|] == t
      && cmds == [StartCountdown(t.timer.id)]
  {
  }

  /** Timer messages reach every toast: the collection keeps its length, ids and order, and nothing reappears. */
  lemma TimerMessageUpdatesEach(m: Manager, msg: Msg, timerUpdate: TimerUpdate)
    requires msg.Tick? || msg.Timeout?
    ensures var m' := Apply(m, msg, timerUpdate).0;
      && |m'.toasts| == |m.toasts|
      && (forall i :: 0 <= i < |m.toasts| ==> m'.toasts[i] == UpdateToast(m.toasts[i], msg, timerUpdate).0)
      && (forall i :: 0 <= i < |m.toasts| ==> m'.toasts[i].id == m.toasts[i].id)
      && (forall i :: 0 <= i < |m.toasts| ==> m'.toasts[i].visible ==> m.toasts[i].visible)
  {
  }

  /** A tick changes no toast's visibility, so what is drawn stays the same set of toasts. */
  lemma TickKeepsVisibility(m: Manager, tick: TickMsg, timerUpdate: TimerUpdate)
    ensures var m' := Apply(m, Tick(tick), timerUpdate).0;
      forall i :: 0 <= i < |m.toasts| ==> m'.toasts[i].visible == m.toasts[i].visible
  {
  }

  /** The follow-ups of a timeout: one expiry request per toast, in collection order. */
  lemma {:induction false} TimeoutFollowUps(ts: seq<Toast>, k: TimerId, timerUpdate: TimerUpdate)
    ensures var r := FollowUps(ts, Timeout(k), timerUpdate);
      |r| == |ts| && forall i :: 0 <= i < |ts| ==> r[i] == Send(Expired(ts[i].id))
    decreases |ts|
  {
    if ts != [] {
      TimeoutFollowUps(ts[..|ts| - 1], k, timerUpdate);
    }
  }

  lemma {:induction false} VisibleOfHidden(ts: seq<Toast>)
    requires forall i :: 0 <= i < |ts| ==> !ts[i].visible
    ensures Visible(ts) == []
    decreases |ts|
  {
    if ts != [] {
      VisibleOfHidden(ts[1..]);
    }
  }

  /**
   * A single timeout, whichever timer it came from, hides every toast, asks
   * for every toast's removal and leaves nothing to draw (manager.go:133-142,
   * toast.go:38-40).
   */
  lemma TimeoutHidesAll(m: Manager, k: TimerId, timerUpdate: TimerUpdate, render: Renderer)
    ensures var (m', cmds) := Apply(m, Timeout(k), timerUpdate);
      && |m'.toasts| == |m.toasts|
      && (forall i :: 0 <= i < |m'.toasts| ==> !m'.toasts[i].visible)
      && |cmds| == |m.toasts|
      && (forall i :: 0 <= i < |m.toasts| ==> cmds[i] == Send(Expired(m.toasts[i].id)))
      && ViewOf(m', render) == ""
  {
    var m' := Apply(m, Timeout(k), timerUpdate).0;
    TimeoutFollowUps(m.toasts, k, timerUpdate);
    VisibleOfHidden(m'.toasts);
  }

  /** Exactly the toasts with another id survive. */
  lemma {:induction false} RemoveIdMembers(ts: seq<Toast>, id: string)
    ensures forall t :: t in RemoveId(ts, id) <==> t in ts && t.id != id
    decreases |ts|
  {
    if ts != [] {
      RemoveIdMembers(ts[1..], id);
      assert ts == [ts[0]] + ts[1..];
    }
  }

  lemma {:induction false} RemoveIdAbsent(ts: seq<Toast>, id: string)
    requires forall i :: 0 <= i < |ts| ==> ts[i].id != id
    ensures RemoveId(ts, id) == ts
    decreases |ts|
  {
    if ts != [] {
      RemoveIdAbsent(ts[1..], id);
    }
  }

  /**
   * An expiry removes every toast with that id and keeps all others in
   * their order (manager.go:144-147); for an unknown id it is a no-op.
   */
  lemma ExpiredRemovesId(m: Manager, id: string, a: seq<Toast>, b: seq<Toast>, timerUpdate: TimerUpdate)
    ensures var m' := Apply(m, Expired(id), timerUpdate).0;
      && (forall t :: t in m'.toasts <==> t in m.toasts && t.id != id)
      && |m'.toasts| == |m.toasts| - CountId(m.toasts, id)
      && (m.toasts == a + b ==> m'.toasts == RemoveId(a, id) + RemoveId(b, id))
      && ((forall i :: 0 <= i < |m.toasts| ==> m.toasts[i].id != id) ==> m' == m)
      && Apply(m, Expired(id), timerUpdate).1 == []
  {
    RemoveIdMembers(m.toasts, id);
    RemoveIdAppend(a, b, id);
    if forall i :: 0 <= i < |m.toasts| ==> m.toasts[i].id != id {
      RemoveIdAbsent(m.toasts, id);
    }
  }

  /** Delivering the same expiry twice is the same as delivering it once. */
  lemma ExpiredIdempotent(m: Manager, id: string, timerUpdate: TimerUpdate)
    ensures var m1 := Apply(m, Expired(id), timerUpdate).0;
      Apply(m1, Expired(id), timerUpdate).0 == m1
  {
    var m1 := Apply(m, Expired(id), timerUpdate).0;
    RemoveIdMembers(m.toasts, id);
    assert forall i :: 0 <= i < |m1.toasts| ==> m1.toasts[i] in m1.toasts;
    RemoveIdAbsent(m1.toasts, id);
  }

  /** Dismiss-all empties the collection and leaves nothing to draw (manager.go:149-150). */
  lemma DismissAllClears(m: Manager, timerUpdate: TimerUpdate, render: Renderer)
    ensures var (m', cmds) := Apply(m, DismissAll(m).msg, timerUpdate);
      m'.toasts == [] && cmds == [] && ViewOf(m', render) == ""
  {
  }

  // ---------------------------------------------------------------------------
  // Properties of View

  /** Joining lines whose first is non-empty gives non-empty text. */
  lemma JoinNonEmpty(lines: seq<string>, sep: string)
    requires lines != [] && lines[0] != ""
    ensures Join(lines, sep) != ""
  {
    if |lines| > 1 {
      assert Join(lines, sep)[..|lines[0]|] == lines[0];
    }
  }

  /**
   * View is empty exactly when nothing is selected, given a renderer that
   * keeps non-empty content non-empty. A drawn line's content always holds
   * the space between prefix and message, so the first line is never empty.
   */
  lemma ViewEmptyIffNothingSelected(m: Manager, render: Renderer)
    requires forall style, content :: content != "" ==> render(style, content) != ""
    ensures ViewOf(m, render) == "" <==> Selected(m) == []
  {
    var sel := Selected(m);
    if sel != [] {
      var lines := LinesOf(m, sel, render);
      var (prefix, style) := PrefixAndStyle(sel[0].toastType, StyleFor(m, sel[0].toastType));
      assert (prefix + " " + sel[0].message)[|prefix|] == ' ';
      assert lines[0] == render(style, prefix + " " + sel[0].message);
      JoinNonEmpty(lines, "\n");
    }
  }

  /** No maximum, or a non-positive one, draws nothing. */
  lemma NoCapacityShowsNothing(m: Manager, render: Renderer)
    requires m.maxToasts <= 0
    ensures ViewOf(m, render) == ""
  {
  }

  /** Nothing visible, nothing drawn, however many toasts are still held. */
  lemma HiddenToastsShowNothing(m: Manager, render: Renderer)
    requires forall i :: 0 <= i < |m.toasts| ==> !m.toasts[i].visible
    ensures ViewOf(m, render) == ""
  {
    VisibleOfHidden(m.toasts);
  }

  /**
   * Each drawn line is a visible toast, with its category's override
   * verbatim when one is registered, and the built-in default otherwise.
   */
  lemma DrawnLines(m: Manager, render: Renderer, i: int)
    requires 0 <= i < |Selected(m)|
    ensures var t := Selected(m)[i];
      var line := LinesOf(m, Selected(m), render)[i];
      && t.visible
      && (t.toastType in m.customStyles ==>
            line == render(m.customStyles[t.toastType].style, m.customStyles[t.toastType].prefix + " " + t.message))
      && (t.toastType !in m.customStyles ==>
            var (prefix, style) := PrefixAndStyle(t.toastType, None);
            line == render(style, prefix + " " + t.message))
  {
    assert Selected(m)[i] in Selected(m);
  }

  /** With a single toast the view is that toast's line in the anchor's alignment. */
  lemma SingleVisibleToast(m: Manager, render: Renderer)
    requires |m.toasts| == 1 && m.toasts[0].visible && 0 < m.maxToasts
    ensures ViewOf(m, render) ==
      render(AlignStyle(AlignmentOf(m.position)), ViewToast(m.toasts[0], StyleFor(m, m.toasts[0].toastType), render))
  {
    assert Visible(m.toasts) == [m.toasts[0]];
  }

  // ---------------------------------------------------------------------------
  // Scenarios

  /** A toast created directly and then expired by id leaves nothing behind (manager_test.go:18-33). */
  lemma CreateThenExpire(timerUpdate: TimerUpdate, timerId: TimerId)
    ensures var t := NewToast("1", "Test", Info, 1000 * Millisecond, timerId);
      var m1 := Apply(NewManager(), Pushed(t), timerUpdate).0;
      var m2 := Apply(m1, Expired("1"), timerUpdate).0;
      |m1.toasts| == 1 && m2.toasts == []
  {
  }

  /**
   * Push an Info toast on a new Manager, deliver it: it is drawn as
   * "<info glyph> A", right-aligned. A timeout hides it; the expiry it asks
   * for removes it.
   */
  lemma PushTimeoutExpire(timerUpdate: TimerUpdate, render: Renderer, timerId: TimerId, k: TimerId)
    ensures
      var m0 := NewManager();
      var (m1, c1) := Apply(m0, Push(m0, "A", Info, 1000 * Millisecond, timerId).msg, timerUpdate);
      var (m2, c2) := Apply(m1, Timeout(k), timerUpdate);
      var m3 := Apply(m2, c2[0].msg, timerUpdate).0;
      && c1 == [StartCountdown(timerId)]
      && ViewOf(m1, render) == render(AlignStyle(Right), render(InfoStyle, "\U{2139} A"))
      && ViewOf(m2, render) == "" && |m2.toasts| == 1
      && c2 == [Send(Expired(IdOf(1)))]
      && m3.toasts == []
  {
    var m0 := NewManager();
    var (m1, c1) := Apply(m0, Push(m0, "A", Info, 1000 * Millisecond, timerId).msg, timerUpdate);
    var t := NewToast(IdOf(1), "A", Info, 1000 * Millisecond, timerId);
    assert m1.toasts == [t];
    SingleVisibleToast(m1, render);
    assert StyleFor(m1, Info) == None;
    assert "\U{2139}" + " " + "A" == "\U{2139} A";
    assert ViewToast(t, StyleFor(m1, Info), render) == render(InfoStyle, "\U{2139} A");
    TimeoutHidesAll(m1, k, timerUpdate, render);
    var (m2, c2) := Apply(m1, Timeout(k), timerUpdate);
    assert c2 == [Send(Expired(IdOf(1)))];
    assert m2.toasts[0].id == IdOf(1);
    var m3 := Apply(m2, Expired(IdOf(1)), timerUpdate).0;
    RemoveIdMembers(m2.toasts, IdOf(1));
    assert m2.toasts[0] in m2.toasts;
  }

  // ---------------------------------------------------------------------------
  // Unique ids: the lost counter increment, and the corrected push

  /**
   * As written: two toasts pushed one after the other on a new Manager both
   * get "toast-1", and the expiry of either removes both.
   */
  lemma DuplicateIdsAsWritten(timerUpdate: TimerUpdate, d: Duration, ia: TimerId, ib: TimerId)
    ensures
      var m0 := NewManager();
      var m1 := Apply(m0, Push(m0, "A", Info, d, ia).msg, timerUpdate).0;
      var m2 := Apply(m1, Push(m1, "B", Info, d, ib).msg, timerUpdate).0;
      && |m2.toasts| == 2
      && m2.toasts[0].id == m2.toasts[1].id == "toast-1"
      && Apply(m2, Expired(m2.toasts[0].id), timerUpdate).0.toasts == []
  {
    assert Decimal.IntToString(1) == "1";
  }

  /** Push with the increment kept: the Manager that results is returned beside the request. */
  function PushCorrected(m: Manager, message: string, toastType: ToastType, duration: Duration, timerId: TimerId): (r: (Manager, Cmd))
    ensures r.0 == m.(counter := m.counter + 1)
    ensures r.1.Send? && r.1.msg.Pushed?
    ensures var t := r.1.msg.toast;
      && t.id == IdOf(m.counter + 1)
      && t.message == message && t.toastType == toastType && t.duration == duration
      && t.visible && t.timer.id == timerId
  {
    var m' := m.(counter := m.counter + 1);
    (m', Send(Pushed(NewToast(IdOf(m'.counter), message, toastType, duration, timerId))))
  }

  predicate UniqueIds(ts: seq<Toast>) {
    forall i, j :: 0 <= i < j < |ts| ==> ts[i].id != ts[j].id
  }

  /** The id was issued from a counter value not above counter. */
  ghost predicate Issued(id: string, counter: int) {
    exists k :: k <= counter && id == IdOf(k)
  }

  /** Ids stay unique and issued under the corrected push and every branch of Update. */
  ghost predicate IdsInvariant(m: Manager) {
    && UniqueIds(m.toasts)
    && forall t :: t in m.toasts ==> Issued(t.id, m.counter)
  }

  lemma NewManagerIdsInvariant()
    ensures IdsInvariant(NewManager())
  {
  }

  /** The id the corrected push issues next is held by no toast. */
  lemma NextIdIsFresh(m: Manager)
    requires IdsInvariant(m)
    ensures forall t :: t in m.toasts ==> t.id != IdOf(m.counter + 1)
  {
    forall t | t in m.toasts
      ensures t.id != IdOf(m.counter + 1)
    {
      assert Issued(t.id, m.counter);
      var k :| k <= m.counter && t.id == IdOf(k);
      if t.id == IdOf(m.counter + 1) {
        IdOfInjective(k, m.counter + 1);
      }
    }
  }

  /** A corrected push, delivered, keeps every id unique and issued. */
  lemma PushCorrectedKeepsIdsUnique(m: Manager, message: string, toastType: ToastType, duration: Duration, timerId: TimerId, timerUpdate: TimerUpdate)
    requires IdsInvariant(m)
    ensures var (m1, c) := PushCorrected(m, message, toastType, duration, timerId);
      IdsInvariant(Apply(m1, c.msg, timerUpdate).0)
  {
    var (m1, c) := PushCorrected(m, message, toastType, duration, timerId);
    var m2 := Apply(m1, c.msg, timerUpdate).0;
    NextIdIsFresh(m);
    assert m2.toasts == m.toasts + [c.msg.toast];
    assert c.msg.toast.id == IdOf(m2.counter);
    forall t | t in m.toasts
      ensures Issued(t.id, m2.counter)
    {
      assert Issued(t.id, m.counter);
      var k :| k <= m.counter && t.id == IdOf(k);
      assert k <= m2.counter;
    }
    forall i, j | 0 <= i < j < |m2.toasts|
      ensures m2.toasts[i].id != m2.toasts[j].id
    {
      if j == |m.toasts| {
        assert m2.toasts[i] in m.toasts;
      }
    }
  }

  lemma {:induction false} RemoveIdKeepsUnique(ts: seq<Toast>, id: string)
    requires UniqueIds(ts)
    ensures UniqueIds(RemoveId(ts, id))
    decreases |ts|
  {
    if ts != [] {
      var rest := RemoveId(ts[1..], id);
      RemoveIdKeepsUnique(ts[1..], id);
      RemoveIdMembers(ts[1..], id);
      forall t | t in rest
        ensures t.id != ts[0].id
      {
        var j :| 0 <= j < |ts[1..]| && ts[1..][j] == t;
        assert ts[j + 1] == t;
      }
      var r := RemoveId(ts, id);
      forall i, j | 0 <= i < j < |r|
        ensures r[i].id != r[j].id
      {
        if ts[0].id != id {
          if i == 0 {
            assert r[j] in rest;
          } else {
            assert r[i] == rest[i - 1] && r[j] == rest[j - 1];
          }
        } else {
          assert r[i] == rest[i] && r[j] == rest[j];
        }
      }
    }
  }

  /** Every message delivered to Update keeps the invariant, given a fresh, issued id for a created toast. */
  lemma ApplyKeepsIdsInvariant(m: Manager, msg: Msg, timerUpdate: TimerUpdate)
    requires IdsInvariant(m)
    requires msg.Pushed? ==> forall t :: t in m.toasts ==> t.id != msg.toast.id
    requires msg.Pushed? ==> Issued(msg.toast.id, m.counter)
    ensures IdsInvariant(Apply(m, msg, timerUpdate).0)
  {
    var m' := Apply(m, msg, timerUpdate).0;
    match msg
    case Pushed(t) =>
      forall i, j | 0 <= i < j < |m'.toasts|
        ensures m'.toasts[i].id != m'.toasts[j].id
      {
        if j == |m.toasts| {
          assert m'.toasts[i] in m.toasts;
        }
      }
    case Tick(_) =>
      BroadcastKeepsInvariant(m, msg, timerUpdate);
    case Timeout(_) =>
      BroadcastKeepsInvariant(m, msg, timerUpdate);
    case Expired(id) =>
      RemoveIdKeepsUnique(m.toasts, id);
      RemoveIdMembers(m.toasts, id);
    case DismissAllMsg =>
    case Other =>
  }

  lemma BroadcastKeepsInvariant(m: Manager, msg: Msg, timerUpdate: TimerUpdate)
    requires IdsInvariant(m)
    ensures IdsInvariant(m.(toasts := Broadcast(m.toasts, msg, timerUpdate)))
  {
    var ts := Broadcast(m.toasts, msg, timerUpdate);
    forall t | t in ts
      ensures Issued(t.id, m.counter)
    {
      var i :| 0 <= i < |ts| && ts[i] == t;
      assert m.toasts[i] in m.toasts;
    }
  }

  /** With unique ids, an expiry removes exactly the one toast that carries the id. */
  lemma ExpiredRemovesOnlyThatToast(m: Manager, i: int, timerUpdate: TimerUpdate)
    requires UniqueIds(m.toasts) && 0 <= i < |m.toasts|
    ensures Apply(m, Expired(m.toasts[i].id), timerUpdate).0.toasts == m.toasts[..i] + m.toasts[i + 1..]
  {
    var ts, id := m.toasts, m.toasts[i].id;
    var before, after := ts[..i], ts[i + 1..];
    assert ts == before + ([ts[i]] + after);
    forall j | 0 <= j < |before|
      ensures before[j].id != id
    {
      assert before[j] == ts[j];
    }
    forall j | 0 <= j < |after|
      ensures after[j].id != id
    {
      assert after[j] == ts[i + 1 + j];
    }
    RemoveIdAbsent(before, id);
    RemoveIdAbsent(after, id);
    RemoveIdAppend([ts[i]], after, id);
    assert RemoveId([ts[i]], id) == [] by {
      assert [ts[i]][1..] == [];
    }
    assert RemoveId([ts[i]] + after, id) == after;
    RemoveIdAppend(before, [ts[i]] + after, id);
  }
}
