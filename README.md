# HSToggleCount, modelled in Dafny

`HSToggleCount` is a small UI plugin. It binds a display element to a checkbox
control. When the control becomes checked, the number shown in the display
counts up from `min` to `max` over `duration` milliseconds. When it is
unchecked, the number counts back down. Every live instance is kept in a
process-wide registry (`window.$hsToggleCountCollection`). That registry is
appended to on `init`, filtered by `destroy`, searched first-match by
`getInstance`, and pruned and refilled by `autoInit`.

The model has three modules:

- `Seqs` (`seqs.dfy`): order-preserving filtering, the meaning of
  `Array.prototype.filter`, with its multiset, concatenation and idempotence
  laws.
- `Animation` (`animation.dfy`): one counting run as pure functions over exact
  reals.
  - `Progress` is `Math.min(elapsed / duration, 1)`.
  - `Value` is `Math.floor(progress * (to - from) + from)`.
  - `Run` is the trace a run writes when the host hands its frame callback a
    sequence of timestamps. That includes the "0 means not captured yet"
    start timestamp, exactly as in the code.
- `ToggleCountPlugin` (`toggle_count.dfy`): the imperative part. It has three
  classes.
  - `Element` is a DOM element with a text and a `checked` flag.
  - `Registry` is the global list of `{ element }` items.
  - `ToggleCount` is the plugin instance. Its `isChecked` and listener state
    change in place.

  `Animate` is a `while` loop over the frame timestamps. It writes the display
  text frame by frame and is proved equal to `Animation.Run`. `AutoInit` is a
  `for` loop over the marked elements. It is proved against the pure function
  `AutoInitKeys` over display elements, which is then shown idempotent and
  duplicate-free.

The document is an input. These inputs stand in for it:
- `query: map<string, Element>` is what `document.querySelector` finds for each
  selector that matches something.
- `attached: set<Element>` is what `document.contains` accepts.
- `marked: seq<Element>` is the `querySelectorAll` result in document order.

The options record is taken already parsed and merged.

Two consequences of the code that a reader might not expect:
- Progress is clamped only from above, with `Math.min(…, 1)`; nothing clamps
  it below 0. A frame stamped before the captured start gives a negative
  progress, and the value written then can lie beyond `from`.
- An instance whose target does not resolve is never registered, because
  `init` is the only thing that registers and it runs only when a target was
  found.
- `duration || 700` keeps a negative duration. Progress then stays at or
  below 0 on every frame no earlier than the start, so the run counts away
  from `to` and never stops asking for frames. This is why the lemmas about
  runs reaching `to` need a positive duration.

## Model

| member | source | states |
|---|---|---|
| Seqs.Filter | src/plugins/toggle-count/index.ts:102-104 | the filtered registry is no longer than before and holds only items that were in it and pass the test |
| Seqs.FilterCount | src/plugins/toggle-count/index.ts:102-104 | an item that passes the test keeps every one of its occurrences; one that fails loses them all |
| Seqs.FilterAppend | src/plugins/toggle-count/index.ts:126-128 | filtering distributes over concatenation, so the relative order of the kept items is unchanged |
| Seqs.FilterKeepsAll | src/plugins/toggle-count/index.ts:126-128 | when every item passes, the filter returns the registry unchanged |
| Seqs.FilterIdempotent | src/plugins/toggle-count/index.ts:126-128 | pruning twice with the same test is pruning once |
| Seqs.FilterNoDuplicates | src/plugins/toggle-count/index.ts:126-128 | filtering a duplicate-free list keeps it duplicate-free |
| Animation.Progress | src/plugins/toggle-count/index.ts:76-79 | progress never exceeds 1; below 1 it is exactly elapsed/duration; it is non-negative for non-negative elapsed time and a positive duration; for a positive duration it is 1 exactly when elapsed reaches the duration, and for any non-zero duration, negative ones included, exactly when elapsed/duration is at least 1 |
| Animation.Value | src/plugins/toggle-count/index.ts:81 | progress 0 writes `from`, progress 1 writes exactly `to`, and any progress in [0, 1] writes a value between `from` and `to` |
| Animation.ValueBounds | src/plugins/toggle-count/index.ts:81 | before flooring, the interpolated value lies between `from` and `to` for progress in [0, 1] |
| Animation.ProgressMonotone | src/plugins/toggle-count/index.ts:76-79 | a later timestamp never yields less progress |
| Animation.ValueMonotone | src/plugins/toggle-count/index.ts:81 | more progress never moves the written value away from `to`, in either direction |
| Animation.Run | src/plugins/toggle-count/index.ts:71-87 | a run writes at most one value per frame; a finished run's last value is exactly `to`; an unfinished run wrote on every frame |
| Animation.RunAt | src/plugins/toggle-count/index.ts:74-83 | once the start is captured, the k-th written value is the formula at the k-th timestamp; every frame before the last was below 1; the last reached 1 exactly when the run stopped |
| Animation.RunCapturesFirstFrame | src/plugins/toggle-count/index.ts:72-75 | a non-zero first timestamp becomes the run's start |
| Animation.RunMonotone | src/plugins/toggle-count/index.ts:74-81 | over non-decreasing timestamps, an up run writes non-decreasing values and a down run non-increasing ones, all between `from` and `to` |
| Animation.RunEndsAtDuration | src/plugins/toggle-count/index.ts:76-83 | a frame at least `duration` after the captured start stops the run |
| Animation.RunReachesTarget | src/plugins/toggle-count/index.ts:76-83 | a run whose frames span the duration stops requesting frames, and its last written value is exactly `to` |
| Animation.NegativeDurationNeverEnds | src/plugins/toggle-count/index.ts:43 | with a negative duration and frames no earlier than the start, the run never finishes |
| Animation.NegativeDurationExample | src/plugins/toggle-count/index.ts:76-83 | counting 0 to 50 with duration -100 over frames 10, 60 and 1010 writes 0, -25 and -500 and is still running |
| Animation.FiveFrames | src/plugins/toggle-count/index.ts:76-83 | frames at quarter steps of a 100 ms run write the formula's values at progress 0, 0.25, 0.5, 0.75 and 1, and the run then stops |
| Animation.UpRunExample | src/plugins/toggle-count/index.ts:76-83 | counting 0 to 50 over 100 ms with frames 0, 25, 50, 75 and 100 ms after the start writes 0, 12, 25, 37, 50 and stops |
| Animation.DownRunExample | src/plugins/toggle-count/index.ts:76-83 | counting 50 to 0 over the same frames writes 50, 37, 25, 12, 0 and stops |
| Animation.ZeroTimestampDelaysStart | src/plugins/toggle-count/index.ts:72-75 | a frame stamped 0 does not fix the start, so the next frame starts the run over |
| ToggleCountPlugin.OrElse | src/plugins/toggle-count/index.ts:41-43 | a non-zero option is kept; an absent or 0 option gives the default; a non-zero default never yields 0 |
| ToggleCountPlugin.ResolveTarget | src/plugins/toggle-count/index.ts:36-40 | an element target is used as given; a non-empty selector yields the document's first match; an absent target, an empty selector or an unmatched selector yields none |
| ToggleCountPlugin.Keys | src/plugins/toggle-count/index.ts:109-113 | the display elements of the registry items, position by position |
| ToggleCountPlugin.KeysAppend | src/plugins/toggle-count/index.ts:57 | appending items appends their display elements |
| ToggleCountPlugin.FindIndex | src/plugins/toggle-count/index.ts:109-113 | `find` returns the first item whose display element matches, or nothing exactly when no item matches |
| ToggleCountPlugin.Find | src/plugins/toggle-count/index.ts:108-113 | `find` returns nothing exactly when no item has the element, and otherwise the item at its first match |
| ToggleCountPlugin.Registry.constructor | src/plugins/toggle-count/index.ts:123 | a new registry is empty |
| ToggleCountPlugin.Registry.Prune | src/plugins/toggle-count/index.ts:125-128 | the registry keeps exactly the items whose element is still attached, in order, and its display elements are pruned alike |
| ToggleCountPlugin.Registry.Add | src/plugins/toggle-count/index.ts:57 | registering appends one item for the instance and changes nothing else |
| ToggleCountPlugin.ToggleCount.constructor | src/plugins/toggle-count/index.ts:26-48 | options get their defaults (min 0, max 0, duration 700) and the target is resolved; `isChecked` is the control's state; only a resolved target registers the instance, attaches the listener and, if checked, shows `max` |
| ToggleCountPlugin.ToggleCount.Init | src/plugins/toggle-count/index.ts:56-64 | appends the instance to the registry, shows `max` at once exactly when checked and otherwise leaves the text, and attaches the listener |
| ToggleCountPlugin.ToggleCount.Step | src/plugins/toggle-count/index.ts:74-84 | a frame callback captures the start if it is still 0, computes progress from it, and writes the formula's value |
| ToggleCountPlugin.ToggleCount.Animate | src/plugins/toggle-count/index.ts:71-87 | the frame loop writes exactly the values of `Animation.Run`, still requests a frame exactly when the run is unfinished, and leaves the last written value displayed |
| ToggleCountPlugin.ToggleCount.CountUp | src/plugins/toggle-count/index.ts:90-92 | runs from `min` to `max` |
| ToggleCountPlugin.ToggleCount.CountDown | src/plugins/toggle-count/index.ts:94-96 | runs from `max` to `min` |
| ToggleCountPlugin.ToggleCount.Toggle | src/plugins/toggle-count/index.ts:66-69 | runs up when checked and down otherwise |
| ToggleCountPlugin.ToggleCount.ToggleChange | src/plugins/toggle-count/index.ts:50-54 | negates `isChecked` exactly once, then runs in the direction of the new value |
| ToggleCountPlugin.ToggleCount.ControlChanged | src/plugins/toggle-count/index.ts:61-63 | a change event toggles and runs while the listener is attached, and changes nothing once it is detached |
| ToggleCountPlugin.ToggleCount.Destroy | src/plugins/toggle-count/index.ts:98-105 | detaches the listener and removes every item for this element; `getInstance` on the element then returns null; every other element's first match is unchanged |
| ToggleCountPlugin.LookupElement | src/plugins/toggle-count/index.ts:111 | an element target designates itself; a selector designates the document's first match, and nothing when it is empty or matches nothing |
| ToggleCountPlugin.ToggleCount.GetInstance | src/plugins/toggle-count/index.ts:108-120 | null exactly when the element is not found or no item has it; otherwise the first matching item, or its instance when `isInstance` is unset |
| ToggleCountPlugin.ToggleCount.InitIfAbsent | src/plugins/toggle-count/index.ts:133-138 | a new instance is registered exactly when no item has the element and its target resolves; it is built from the element's own options |
| ToggleCountPlugin.ToggleCount.ScanOne | src/plugins/toggle-count/index.ts:132-139 | one turn of the loop extends the registry as the scan says and keeps every item already there |
| ToggleCountPlugin.ToggleCount.AutoInit | src/plugins/toggle-count/index.ts:122-140 | the attached items stay first, in order; the new items are fresh instances built from their element's options, listening, and checked exactly when their control is; the display elements are those of `AutoInitKeys`; a marked element shows the `max` of its first instance when that instance is new and checked, and keeps its old text otherwise |
| ToggleCountPlugin.ToggleCount.InitShowing | src/plugins/toggle-count/index.ts:133-138 | registering one marked element keeps every marked element showing the `max` of its first instance when that instance is new and checked, and its old text otherwise |
| ToggleCountPlugin.ToggleCount.InitMarked | src/plugins/toggle-count/index.ts:130-139 | the loop keeps the items already there first, appends fresh, built, listening instances, follows `Scan` on the display elements, and leaves each marked element showing its new checked instance's `max` or its old text |
| ToggleCountPlugin.ToggleCount.AutoInitTwice | src/plugins/toggle-count/index.ts:122-140 | a second `autoInit` over an unchanged document adds and removes nothing, and no element has two items |
| ToggleCountPlugin.ExtendsStep | src/plugins/toggle-count/index.ts:132-139 | an instance is appended exactly when the scan appends its element, and the appended item is built |
| ToggleCountPlugin.KeysAfterScan | src/plugins/toggle-count/index.ts:132-139 | the display elements follow the scan one marked element further |
| ToggleCountPlugin.BuiltAfterAppend | src/plugins/toggle-count/index.ts:132-139 | appending built instances keeps the pruned items first and every later item built |
| ToggleCountPlugin.FindAfterAppend | src/plugins/toggle-count/index.ts:109-113 | appending never changes an existing first match, and a newly appended element is found at its item |
| ToggleCountPlugin.NotFoundNotKey | src/plugins/toggle-count/index.ts:134-136 | `find` fails exactly when the element is not among the display elements |
| ToggleCountPlugin.RemovedNotFound | src/plugins/toggle-count/index.ts:102-104 | after `destroy`'s filter no item is found for the element |
| ToggleCountPlugin.KeysOfPrune | src/plugins/toggle-count/index.ts:126-128 | pruning items and pruning their display elements agree |
| ToggleCountPlugin.Scan | src/plugins/toggle-count/index.ts:130-139 | the loop's effect on the display elements: it adds at most one per marked element, and everything it holds was there before or is a marked element whose target resolves |
| ToggleCountPlugin.AutoInitKeys | src/plugins/toggle-count/index.ts:122-140 | the display elements after `autoInit`: at most one per old item or marked element, each either an old one still attached or a marked one whose target resolves |
| ToggleCountPlugin.ScanExtends | src/plugins/toggle-count/index.ts:130-139 | the scan keeps the existing display elements first and appends only resolvable marked elements that had no item |
| ToggleCountPlugin.ScanCovers | src/plugins/toggle-count/index.ts:130-139 | every marked element whose target resolves has an item after the scan |
| ToggleCountPlugin.ScanStable | src/plugins/toggle-count/index.ts:130-139 | the scan adds nothing when every resolvable marked element already has an item |
| ToggleCountPlugin.ScanNoDuplicates | src/plugins/toggle-count/index.ts:130-139 | the scan never registers an element twice |
| ToggleCountPlugin.AutoInitUnique | src/plugins/toggle-count/index.ts:122-140 | a registry with no element registered twice keeps that property through `autoInit` |
| ToggleCountPlugin.AutoInitIdempotent | src/plugins/toggle-count/index.ts:122-140 | when the marked elements are attached, a second `autoInit` leaves the display elements as the first left them |
| ToggleCountPlugin.FindAfterRemove | src/plugins/toggle-count/index.ts:102-113 | after `destroy`'s filter nothing is found for the destroyed element and every other element's first match is unchanged |
| ToggleCountPlugin.FindAfterPrune | src/plugins/toggle-count/index.ts:126-128 | after pruning, an attached element keeps its first match and a detached one has none |

## Left out

- Document access (`document.querySelector`, `querySelectorAll` and `contains`) is replaced by the inputs `query`, `marked` and `attached`.
- Parsing the data attribute with `JSON.parse` and merging it with the constructor's options are not modelled. The constructor takes the merged record. Option values other than integers, which `||` would also treat as absent or keep, are not modelled.
- `addEventListener` and `removeEventListener` are modelled only as the `listening` flag. The stored closure and its identity are not modelled.
- `requestAnimationFrame` scheduling is replaced by a sequence of frame timestamps for one run. Two runs on one element whose frames interleave are concurrency and are not modelled.
- IEEE floating point is not modelled. Division and `Math.floor` are exact on reals, so a value that rounding would move across an integer can floor differently in the program.
- `HSBasePlugin.createCollection` is not part of this model. `Registry.Add` assumes it appends the one item `{ element: this }`.
- ToggleCountPlugin.ToggleCount.constructor: without a resolved target, the code throws a TypeError reading `checked` at line 45. The model instead builds an inert, unregistered instance whose `isChecked` is false.
- ToggleCountPlugin.ToggleCount.AutoInit: the same TypeError inside the `forEach` would abort the rest of the loop. The model skips that element and goes on with the next.
- ToggleCountPlugin.ResolveTarget: a malformed selector makes `querySelector` throw a SyntaxError. The model treats it as a selector that matches nothing.
- ToggleCountPlugin.ToggleCount.GetInstance: the same holds for a malformed or empty selector passed to `getInstance`.
- The lazy creation of the registry at line 123 is modelled as an explicit `Registry` object created empty and passed to every operation.
- The `load` hook and the assignment to `window.HSToggleCount` (lines 150-159) are not modelled. Neither is the base class constructor (line 27).
- ToggleCountPlugin.ToggleCount.Destroy: the code would throw on an instance without a target, because it calls `removeEventListener` on null. The model only ever clears the flag.
- Animation.RunMonotone: needs a non-zero first timestamp. A run whose first frame is stamped 0 re-captures its start on the next frame, as `Animation.ZeroTimestampDelaysStart` shows.
