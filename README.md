# Toast notifications for a terminal UI: a verified model of the lifecycle engine

This project models the core of a toast-notification package for a Bubble Tea
terminal application. A **Manager** holds an ordered collection of **toasts**.
Each toast is a short message with a category (Info, Warning, Error or a
caller-defined integer), a countdown timer and a visibility flag. The host event
loop delivers messages to the Manager:

- a *pushed* message appends a toast;
- timer ticks and timeouts are broadcast to every toast;
- an *expired* message removes toasts by id;
- *dismiss-all* clears the collection.

The follow-up commands produced along the way go back to the host. Rendering
keeps the visible toasts in collection order, draws at most `maxToasts` of
them, joins them with line breaks and aligns the block according to the
anchor position.

Files:

- `toast.dfy` (module `Toast`): the toast record and `toast.go`'s `new`,
  `update`, `view`, `init` and `toastPrefixAndStyle`. It also declares the
  values the package passes around: categories, styles, the timer, messages
  and commands. They live here because the toast and the messages refer to
  each other.
- `manager.dfy` (module `Manager`): `manager.go`'s `Manager` and its
  operations. `Update` and `View` are `method`s with the source's loops. Each
  is proved equal to a specification function (`Apply` and `ViewOf`), and the
  lemmas state what the source promises about those functions.
- `decimal.dfy` (module `Decimal`): the `%d` formatting used to build ids,
  with a parser as its inverse. Injectivity of ids follows from it.
- `wrappers.dfy` (module `Wrappers`): `Option`, standing for Go's nil pointers
  and nil commands.

Foreign collaborators are parameters. Every property holds whatever they do,
except where a lemma states an assumption about them (only
`Manager.ViewEmptyIffNothingSelected` does, see Left out):

- the timer package's handling of a tick is `timerUpdate: (Timer, TickMsg) -> (Timer, Option<Cmd>)`;
- the styling library's `Render` is `render: (Style, string) -> string`;
- the timer id that the timer package allocates is an argument of `NewToast` and `Push`.

Styles are opaque values. The `Style` constructors name the styles the package
builds itself, and `UserStyle` stands for anything a caller supplies. Go's
`position` and `Type` are plain integers. An anchor outside the six named ones
keeps the zero alignment, which is Left. `width` and `height` are stored but do
not affect what `View` draws: the base style's width is fixed.

Four behaviours of the package are easy to miss, and the model keeps them:

- An expiry removes *every* toast with that id, not just one.
- A timeout hides *every* toast, whichever timer sent it, and each toast asks for its own removal.
- A non-positive maximum draws nothing.
- `Push` never advances the counter (see Findings).

## Model

| member | source | states |
|---|---|---|
| `Toast.NewToast` | toast.go:21-30 | a new toast carries the given id, message, category and duration, is visible, and its countdown is configured to the duration at 100 ms ticks |
| `Toast.InitToast` | toast.go:57-59 | the init request starts the toast's own countdown timer |
| `Toast.UpdateToast` | toast.go:32-44 | id, category, message and duration never change; visibility is never regained; a tick keeps visibility; a tick replaces only the timer, by the timer package's new timer, and passes on the timer package's follow-up; any timeout hides the toast and emits exactly an expiry for its id; other messages change nothing and emit nothing |
| `Toast.TickOnlyAdvancesTimer` | toast.go:34-37 | a tick changes only the timer, the new timer is the timer package's, and the follow-up is the timer package's own |
| `Toast.TimeoutIgnoresOrigin` | toast.go:38-40 | the reaction to a timeout does not depend on which timer timed out |
| `Toast.SecondTimeout` | toast.go:38-40 | a second timeout leaves the toast unchanged but emits the expiry again |
| `Toast.HiddenStaysHidden` | toast.go:32-44 | once hidden, no sequence of messages makes a toast visible again |
| `Toast.PrefixAndStyle` | toast.go:61-101 | an override's prefix and style win verbatim for every category; otherwise Info, Warning and Error get their glyph and style, and any other category gets an empty prefix in the base style |
| `Toast.DefaultPrefixNonEmptyIffBuiltIn` | toast.go:85-98 | without an override, the prefix is non-empty exactly for the three built-in categories |
| `Toast.ViewToast` | toast.go:46-55 | a hidden toast renders as empty text; a visible one renders as the resolved prefix, a space and the message, in the resolved style |
| `Decimal.NatToString` | manager.go:116 | decimal text of a natural number: at least one digit, all digits, a single digit exactly below ten, no leading zero for a positive number |
| `Decimal.ParseNatToString` | manager.go:116 | parsing the decimal text gives back the number |
| `Decimal.NatToStringInjective` | manager.go:116 | distinct naturals print differently |
| `Decimal.IntToString` | manager.go:116 | the text starts with a minus sign exactly for negative numbers |
| `Decimal.IntToStringInjective` | manager.go:116 | distinct integers print differently |
| `Manager.IdOf` | manager.go:116 | the id is "toast-" followed by the decimal text of the counter value |
| `Manager.IdOfInjective` | manager.go:116 | distinct counter values give distinct "toast-N" ids |
| `Manager.NewManager` | manager.go:62-72 | no toasts, maximum 3, top-right, width 30, height 0, counter 0, no overrides |
| `Manager.WithPosition` | manager.go:75-78 | sets the position and nothing else |
| `Manager.WithMaxToasts` | manager.go:81-84 | sets the maximum and nothing else |
| `Manager.WithWidth` | manager.go:87-90 | sets the width and nothing else |
| `Manager.WithStyle` | manager.go:92-98 | adds or overwrites exactly one override key; other keys and every other field are unchanged |
| `Manager.SetSize` | manager.go:107-111 | sets width and height and nothing else |
| `Manager.StyleFor` | manager.go:163-166 | an override is found exactly when one is registered for the category, and it is the registered one |
| `Manager.WithStyleOverrides` | manager.go:92-98 | after WithStyle the category resolves to the new prefix and style, and every other category resolves as before |
| `Manager.Push` | manager.go:114-121 | the request is a pushed message whose toast has id "toast-" followed by counter + 1 and carries the given message, category, duration and timer; it is visible |
| `Manager.PushRepeatsId` | manager.go:114-116 | two pushes on the same Manager value yield the same id |
| `Manager.PushThenDeliver` | manager.go:114-131 | delivering a push request appends that toast, keeps the counter, and emits exactly the start request of its timer |
| `Manager.DismissAll` | manager.go:100-104 | the request is the dismiss-all message |
| `Manager.DismissAllClears` | manager.go:149-150 | delivering dismiss-all leaves no toasts, emits nothing, and the view is empty |
| `Manager.Apply` | manager.go:123-154 | no message changes anything but the collection; an unrecognised message changes nothing and emits nothing |
| `Manager.Update` | manager.go:123-154 | the looping update computes exactly Apply |
| `Manager.BroadcastLoop` | manager.go:133-142 | the loop replaces each toast by its reaction and collects the non-nil follow-ups in collection order |
| `Manager.BroadcastPrefixReacts` | manager.go:133-142 | after the loop's first i steps, exactly the first i toasts have been replaced by their reactions, the rest are untouched, and the follow-ups of the first i are collected in order |
| `Manager.BroadcastStep` | manager.go:137 | writing toast i's reaction at index i extends the reacted prefix by one |
| `Manager.FollowUpsStep` | manager.go:138-140 | one more toast adds its own non-nil follow-up at the end |
| `Manager.DeleteId` | manager.go:144-147 | the deletion loop keeps exactly the toasts RemoveId keeps |
| `Manager.Broadcast` | manager.go:134-138 | same length, and element i is toast i's reaction |
| `Manager.FollowUps` | manager.go:139-141 | at most one follow-up per toast |
| `Manager.RemoveId` | manager.go:145-147 | the length drops by the number of toasts carrying the id |
| `Manager.RemoveIdMembers` | manager.go:145-147 | a toast survives exactly when it was present and its id differs |
| `Manager.RemoveIdAppend` | manager.go:145-147 | removal distributes over concatenation, so the survivors keep their order |
| `Manager.RemoveIdAbsent` | manager.go:145-147 | removing an id that no toast carries changes nothing |
| `Manager.PushedAppends` | manager.go:128-131 | a pushed toast goes to the end, earlier toasts keep their places, and exactly its init request is emitted |
| `Manager.TimerMessageUpdatesEach` | manager.go:133-142 | a tick or timeout keeps the length, ids and order; element i becomes toast i's reaction; no toast becomes visible |
| `Manager.TickKeepsVisibility` | manager.go:133-142 | a tick changes no toast's visibility |
| `Manager.TimeoutFollowUps` | manager.go:133-142 | a timeout's follow-ups are one expiry per toast, for its id, in collection order |
| `Manager.TimeoutHidesAll` | manager.go:133-142 | one timeout from any timer hides every toast, requests every toast's removal, and empties the view |
| `Manager.ExpiredRemovesId` | manager.go:144-147 | an expiry keeps exactly the toasts with another id, in order; length drops by the number removed; for an unknown id nothing changes; nothing is emitted |
| `Manager.ExpiredIdempotent` | manager.go:144-147 | delivering the same expiry twice is the same as delivering it once |
| `Manager.Visible` | manager.go:160-162 | no more visible toasts than toasts |
| `Manager.VisibleMembers` | manager.go:160-162 | a toast is kept exactly when it is held and visible |
| `Manager.VisibleAppend` | manager.go:160-162 | filtering distributes over concatenation, so the visible toasts keep collection order |
| `Manager.VisibleOfHidden` | manager.go:160-162 | with no visible toast, nothing is kept |
| `Manager.TakeAtMost` | manager.go:167-171 | a prefix of length min(n, length), or empty when n <= 0 |
| `Manager.Selected` | manager.go:157-173 | the drawn toasts are a prefix of the visible toasts; there are min(maxToasts, visible) of them, or none when maxToasts <= 0; all are visible |
| `Manager.LinesOf` | manager.go:163-168 | one line per drawn toast: its view with its category's override |
| `Manager.AlignmentOf` | manager.go:182-190 | Left for both left anchors, Center for both centre anchors, Right for both right anchors, and the zero alignment Left otherwise |
| `Manager.TopAndBottomAlignAlike` | manager.go:184-189 | an anchor's top and bottom variants align alike |
| `Manager.ViewStep` | manager.go:160-171 | one loop step: a visible toast extends the visible prefix and, below the cap, adds its line; a hidden one changes nothing |
| `Manager.CapReached` | manager.go:167-171 | once the cap is filled, later toasts do not change what is drawn |
| `Manager.Join` | manager.go:179 | joining no lines gives empty text, and joining one line gives that line |
| `Manager.JoinNonEmpty` | manager.go:179 | joining lines whose first one is non-empty gives non-empty text |
| `Manager.JoinAppend` | manager.go:179 | joining one more line appends the separator and that line |
| `Manager.ViewOf` | manager.go:156-194 | with nothing selected the view is empty text; otherwise it is the selected toasts' lines, joined by line breaks and rendered in the anchor's alignment |
| `Manager.View` | manager.go:156-194 | the looping view with its running count and early break computes exactly ViewOf |
| `Manager.ViewEmptyIffNothingSelected` | manager.go:175-192 | the view is empty exactly when nothing is selected, for any renderer that keeps non-empty content non-empty |
| `Manager.NoCapacityShowsNothing` | manager.go:167-177 | with maxToasts <= 0 the view is empty |
| `Manager.HiddenToastsShowNothing` | manager.go:160-177 | with no visible toast the view is empty, however many toasts are held |
| `Manager.DrawnLines` | manager.go:160-168 | each drawn toast is visible and renders with its category's override verbatim when one exists, else with the built-in default |
| `Manager.SingleVisibleToast` | manager.go:156-194 | one visible toast renders as its line in the anchor's alignment |
| `Manager.CreateThenExpire` | manager_test.go:18-33 | a created toast is held, and its expiry by id leaves an empty collection |
| `Manager.PushTimeoutExpire` | manager_test.go:70-92 | push, then deliver: the view shows the Info glyph and "A", right-aligned; a timeout empties the view but keeps the toast; the emitted expiry removes it |
| `Manager.DuplicateIdsAsWritten` | manager.go:114-121 | as written, two successive pushes on a new Manager both get "toast-1", and the expiry of either removes both |
| `Manager.PushCorrected` | manager.go:114-121 | corrected push: the counter is advanced in the returned Manager, and the toast carries the id of the new counter |
| `Manager.NewManagerIdsInvariant` | manager.go:62-72 | a new Manager satisfies the unique-id invariant |
| `Manager.NextIdIsFresh` | manager.go:114-116 | under the invariant, no held toast carries the id of counter + 1 |
| `Manager.PushCorrectedKeepsIdsUnique` | manager.go:114-131 | a corrected push, delivered, keeps all ids unique and issued |
| `Manager.RemoveIdKeepsUnique` | manager.go:144-147 | removal keeps ids unique |
| `Manager.BroadcastKeepsInvariant` | manager.go:133-142 | broadcasting keeps the unique-id invariant |
| `Manager.ApplyKeepsIdsInvariant` | manager.go:123-154 | every branch of Update keeps the unique-id invariant, given a fresh issued id for a pushed toast |
| `Manager.ExpiredRemovesOnlyThatToast` | manager.go:144-147 | with unique ids, an expiry removes exactly the one toast with that id and keeps the rest in order |

## Findings

| source | as written | input that shows it | evidently intended | confidence | as-written member | corrected member |
|---|---|---|---|---|---|---|
| manager.go:114-116 | `Push` has a value receiver, so `m.counter++` changes a copy; the counter stays 0 and every toast is "toast-1" | `NewManager()`, then push "A" and deliver it, then push "B" and deliver it: both toasts are "toast-1", and the expiry of "A" also removes "B" | each push advances the counter, so ids are unique and an expiry removes only its own toast | high (not executed) | `Manager.DuplicateIdsAsWritten` | `Manager.PushCorrected` (with `Manager.PushCorrectedKeepsIdsUnique`, `Manager.ApplyKeepsIdsInvariant`, `Manager.ExpiredRemovesOnlyThatToast`) |

The rest of the model keeps `Push` as written: the scenario lemmas describe the
package as it behaves. `PushCorrected` and its invariant show what the
intended behaviour guarantees.

## Left out

- Styling library: padding, borders, colours, the fixed width of 30 and the alignment renderer are opaque. `Style` values are names, and `render` is an arbitrary function.
- Timer package internals: the tick interval arithmetic, `timer.Update`, `Init` and the timer's own filtering of ticks by id are out of scope. `timerUpdate` is an arbitrary function. `Init` is modelled as a `StartCountdown` request, and timer ids are arguments.
- Commands: closures and `tea.Batch` become a sequence of command values. Batch's flattening of zero or one command is not modelled.
- Aliasing: Go shares the slice's backing array between the Manager copies in `Update`, and the map between the copies in `WithStyle`. The model uses value semantics, so a copy kept by a caller never sees later writes.
- In-place deletion: `slices.DeleteFunc` compacts the slice in place and zeroes its tail. The model builds the surviving sequence left to right.
- Integer widths: the int64 counter and the Go `int` fields are unbounded integers here. Counter overflow is out of scope.
- Time: real time, `time.Duration` arithmetic and the sleeps in the tests are left out.
- Host applications: the two example programs (network dial, text input, key bindings, layout) only call this API.
- Zero-value Manager: `WithStyle` on a Manager not built by `NewManager` writes to a nil map and panics (manager.go:92-93). The model's map is never nil, so that panic is not modelled; every Manager here behaves as one built by `NewManager` and then configured.
- Manager.ViewEmptyIffNothingSelected: the "empty view implies nothing selected" direction assumes the renderer turns non-empty content into non-empty text. The styling library's Render only adds padding, borders and alignment around its content, but the model leaves `render` arbitrary, so this is stated as a hypothesis. Empty content is not covered by it; a drawn line's content always holds the space after the prefix (toast.go:52).
