# Presentation cursor trail engines, modelled in Dafny

The presentation cursor draws a transparent overlay window on each monitor.
On every timer tick (about 60 Hz) it highlights the mouse cursor and draws a
fading trail behind it. This project models the deterministic core of that
overlay:

- **`TrailingPolyline`** (`trailing_polyline.dfy`) is the segment trail. Its
  queue of `TrailSegment`s grows by one line while the cursor moves more than
  `MinMovementDistance`. The oldest segments are evicted past
  `MaxTrailSegments`. Each update ages every segment by one tick, recomputes
  its opacity, stroke colour and thickness, and drops the faded ones. The
  canvas's children are a set of line identities, and the model proves that
  this set always mirrors the queue.
- **`TrailSegment`** (`trail_segment.dfy`) is the segment record and its
  constructor. The fade law that `UpdateSegments` applies is in `fade.dfy`:
  opacity `max(0, 1 - age*FadeRate)`, thickness
  `max(1, 10*(1 - ageRatio*0.5))`, and the yellow-to-orange colour.
- **`CanvasWindow.UpdateCursor`** (`canvas_window.dfy`) covers two things:
  - the mapping from a physical cursor position to window-local
    device-independent coordinates, using the DPI of the monitor under the
    cursor, plus the inclusive bounds test;
  - the older dot trail: a queue of dots that all fade by 0.02 per tick, are
    shrunk by 3% per tick, and are popped from the front once transparent.
- `scenarios.dfy` works through concrete runs.

Abstractions used throughout:

- Doubles are `real`, so there is no IEEE-754 rounding.
- Dot opacity is counted in integer hundredths: it starts at 60 and drops
  by 2 per tick.
- The `(byte)` cast of the green channel is the floor of its argument,
  clamped to [0, 255]. For values already in [0, 256) this is the same as
  truncation.
- WPF elements (`Line`, `Ellipse`) are identities (`nat`). Fresh identities
  come from a counter in the state.

## Model

| member | source | states |
|---|---|---|
| TrailSegments.NewSegment | PresentationCursor/TrailSegment.cs:9-29 | a new segment runs exactly from `start` to `end`, has age 0, opacity 1.0, thickness `DefaultThickness` (10) and a yellow stroke |
| Fade.NewSegmentLooksAgeZero | PresentationCursor/TrailSegment.cs:21-28 | the constructor's appearance is what the fade formulas give at age 0, for every fade rate; yellow (255,255,0) is the colour formula at ratio 0 |
| Fade.FadeColor | PresentationCursor/TrailingPolyline.cs:92 | the recomputed colour is full red, no blue, and a green channel within a byte |
| Fade.OpacityInUnitRange | PresentationCursor/TrailingPolyline.cs:84 | for a non-negative fade rate, opacity lies in [0, 1] |
| Fade.OpacityNonIncreasing | PresentationCursor/TrailingPolyline.cs:81-84 | for a non-negative fade rate, an older segment is never more opaque than a younger one |
| Fade.FadedIffRatioReachesOne | PresentationCursor/TrailingPolyline.cs:84-99 | a segment counts as faded (opacity ≤ 0) exactly when `age*FadeRate ≥ 1` |
| Fade.ThicknessInRange | PresentationCursor/TrailingPolyline.cs:97 | for a non-negative fade rate, thickness lies in [1, 10] |
| Fade.FadeGreenUnclamped | PresentationCursor/TrailingPolyline.cs:89-92 | while `0 ≤ ageRatio < 0.5`, green is the truncation of `255*(1-2*ageRatio)` and lies in [0, 255] without clamping |
| Fade.FadeGreenMonotone | PresentationCursor/TrailingPolyline.cs:92 | a larger age ratio below one half never gives more green |
| Fade.StrokeIsYellowToRed | PresentationCursor/TrailingPolyline.cs:87-94 | every stroke a segment carries, through any number of updates, has red 255, blue 0 and a green channel within a byte |
| Fade.StrokeGreenNonIncreasing | PresentationCursor/TrailingPolyline.cs:88-94 | for a non-negative fade rate, the green channel never rises from one update to the next |
| Fade.StrokeFrozenPastHalf | PresentationCursor/TrailingPolyline.cs:89-94 | once the age ratio has reached one half, no later update changes the colour |
| TrailingPolyline.MovedEnoughIgnoresDirection | PresentationCursor/TrailingPolyline.cs:31-33 | a move counts iff it exceeds the minimum distance on some axis, whichever way it goes, and nothing counts without a last point |
| TrailingPolyline.Evict | PresentationCursor/TrailingPolyline.cs:39-44 | eviction succeeds exactly when `MaxTrailSegments ≥ 0`. The survivors are the `min(count, max)` most recent segments in their original order. Exactly the evicted lines leave the canvas |
| TrailingPolyline.Enqueue | PresentationCursor/TrailingPolyline.cs:30-45 | nothing changes unless the last point exists and the move exceeds the minimum distance on some axis. Otherwise the new segment runs from the last point to the current point, its line joins the canvas, and the queue is evicted to the bound |
| TrailingPolyline.AgeOnce | PresentationCursor/TrailingPolyline.cs:81-97 | one update makes a segment exactly one tick older with the same line and endpoints. Opacity and thickness follow the new age. A segment whose colour matched its age still does |
| TrailingPolyline.AgeAll | PresentationCursor/TrailingPolyline.cs:79-81 | every queued segment is updated once, position by position |
| TrailingPolyline.FadedOut | PresentationCursor/TrailingPolyline.cs:77-103 | the removal list holds exactly the queued segments with opacity ≤ 0 |
| TrailingPolyline.Without | PresentationCursor/TrailingPolyline.cs:111-120 | the rebuilt queue holds exactly the segments not in the removal list and is no longer |
| TrailingPolyline.WithoutIsSubsequence | PresentationCursor/TrailingPolyline.cs:111-120 | the rebuilt queue is a subsequence of the old one: the survivors keep their queue order |
| TrailingPolyline.UpdateSegments | PresentationCursor/TrailingPolyline.cs:75-121 | after an update, a segment survives iff it is an aged queued segment whose opacity is positive. Each queued segment survives iff its opacity at age+1 is positive. The faded lines leave the canvas |
| TrailingPolyline.OnTick | PresentationCursor/TrailingPolyline.cs:28-51 | a tick fails only when it appends with a negative bound, and otherwise always leaves the last point at the current point. A tick without enough movement creates no line and never lengthens the queue. A tick with enough movement creates exactly one line |
| TrailingPolyline.OnCursorLeft | PresentationCursor/TrailingPolyline.cs:56-60 | leaving forgets the last point, creates no line and still updates every segment: a segment survives iff it is an aged queued segment whose opacity is positive, each queued segment survives iff its opacity at age+1 is positive, and exactly the faded lines leave the canvas |
| TrailingPolyline.Clear | PresentationCursor/TrailingPolyline.cs:65-73 | clearing empties the queue, forgets the last point and takes exactly the queued lines off the canvas |
| TrailingPolyline.InitialValid | PresentationCursor/TrailingPolyline.cs:10-22 | a new engine is empty, has no last point, has nothing on the canvas, and satisfies the invariant |
| TrailingPolyline.WithoutKeepsOrder | PresentationCursor/TrailingPolyline.cs:114-119 | rebuilding the queue without some segments keeps it oldest first, with one line per segment |
| TrailingPolyline.UpdateKeepsCanvasMirror | PresentationCursor/TrailingPolyline.cs:105-120 | after an update, the canvas's lines are exactly the queue's lines |
| TrailingPolyline.UpdateKeepsOrder | PresentationCursor/TrailingPolyline.cs:79-120 | an update keeps the queue strictly ordered by age (oldest first) with distinct lines |
| TrailingPolyline.UpdateKeepsSegmentsSound | PresentationCursor/TrailingPolyline.cs:79-120 | after an update, every segment is at least one tick old, is not faded, and has the appearance the formulas give for its age |
| TrailingPolyline.UpdateSegmentsValid | PresentationCursor/TrailingPolyline.cs:75-121 | an update turns a well-formed queue into one satisfying the full invariant |
| TrailingPolyline.AppendQueued | PresentationCursor/TrailingPolyline.cs:35-37 | appending the new age-0 segment keeps the queue oldest first with distinct lines, and the canvas plus the new line mirrors it |
| TrailingPolyline.SuffixQueued | PresentationCursor/TrailingPolyline.cs:40-44 | the segments left after eviction stay ordered and distinct, and the canvas minus the evicted lines mirrors them |
| TrailingPolyline.EnqueueQueued | PresentationCursor/TrailingPolyline.cs:31-45 | the append step keeps the queue bounded by `MaxTrailSegments`, mirrored, ordered, distinct, and consistent with each segment's age |
| TrailingPolyline.OnTickPreservesValid | PresentationCursor/TrailingPolyline.cs:28-51 | every tick that does not throw keeps the invariant: bounded, canvas mirrors queue, oldest first, appearance matches age, no faded segment |
| TrailingPolyline.OnCursorLeftPreservesValid | PresentationCursor/TrailingPolyline.cs:56-60 | leaving the area keeps the invariant |
| TrailingPolyline.ClearValidAndIdempotent | PresentationCursor/TrailingPolyline.cs:65-73 | clearing keeps the invariant, leaves none of the engine's lines on the canvas, and a second clear changes nothing |
| TrailingPolyline.ValidBounded | PresentationCursor/TrailingPolyline.cs:40 | under the invariant the queue never exceeds `MaxTrailSegments`, and is empty when the bound is not positive |
| TrailingPolyline.EnqueueKeepsOrAdds | PresentationCursor/TrailingPolyline.cs:35-44 | every segment left by the append step was queued before or is the new one |
| TrailingPolyline.TickSurvivorOrigin | PresentationCursor/TrailingPolyline.cs:79-81 | every segment after a tick is an appended-or-kept segment aged once |
| TrailingPolyline.SurvivorAgedByOne | PresentationCursor/TrailingPolyline.cs:79-84 | a segment that survives a tick is the same line exactly one tick older. For a non-negative fade rate it is no more opaque than before |
| TrailingPolyline.EnqueueKeepsNewSegment | PresentationCursor/TrailingPolyline.cs:35-44 | with room for at least one segment, the append step keeps the new segment |
| TrailingPolyline.YoungestIsLast | PresentationCursor/TrailingPolyline.cs:36 | under the invariant, a segment one tick old is at the back of the queue |
| TrailingPolyline.AppendedSegmentAgedSameTick | PresentationCursor/TrailingPolyline.cs:35-50 | a segment appended by a tick is aged in the same tick: it ends the queue at age 1 |
| CanvasWindow.ToLocal | PresentationCursor/CanvasWindow.xaml.cs:81-94 | a local point exists iff both DPIs are non-zero. Scaled back by the cursor monitor's scale and offset by the window origin in pixels, it gives the physical cursor position again |
| CanvasWindow.SameDpiLocalIsOffset | PresentationCursor/CanvasWindow.xaml.cs:81-94 | when the window and the cursor's monitor share a DPI, the local point is the cursor in device-independent units minus the window origin |
| CanvasWindow.InsideIsInclusive | PresentationCursor/CanvasWindow.xaml.cs:97 | the bounds test includes all four edges and corners and excludes every point beyond an edge |
| CanvasWindow.Locate | PresentationCursor/CanvasWindow.xaml.cs:81-97 | the cursor is on the window exactly when both DPIs are non-zero and the local point passes the bounds test, and then the result is that local point |
| CanvasWindow.NewDot | PresentationCursor/CanvasWindow.xaml.cs:107-117 | a new dot is centred on the cursor, 10 by 10, at opacity 0.6 |
| CanvasWindow.ShrinkAsWrittenDrifts | PresentationCursor/CanvasWindow.xaml.cs:131-138 | the re-centring as written moves a dot's centre by 0.00045 times its size per tick, so a dot of positive size does not stay centred |
| CanvasWindow.ShrinkAsWrittenExample | PresentationCursor/CanvasWindow.xaml.cs:131-138 | a new dot centred at (5,5) is centred at (4.9955,4.9955) after one shrink as written |
| CanvasWindow.Shrink | PresentationCursor/CanvasWindow.xaml.cs:131-138 | the corrected shrink scales width and height by 0.97 and keeps the centre |
| CanvasWindow.FadeDot | PresentationCursor/CanvasWindow.xaml.cs:130-138 | a tick lowers a dot's opacity by exactly 0.02, keeps its identity, and with the corrected re-centring keeps its centre |
| CanvasWindow.FadedPrefix | PresentationCursor/CanvasWindow.xaml.cs:142-145 | cleanup pops only from the front, only dots with opacity ≤ 0, and stops at the first dot that is still visible |
| CanvasWindow.CleanupRemovesExactlyFaded | PresentationCursor/CanvasWindow.xaml.cs:142-145 | on a queue that fades in insertion order, a dot is popped iff its opacity is ≤ 0: none survives faded and none is removed early |
| CanvasWindow.Enqueued | PresentationCursor/CanvasWindow.xaml.cs:97-125 | on the window: the circle is shown centred on the cursor and exactly one dot is enqueued and placed on the canvas. Off the window: the circle is hidden in place and nothing is enqueued |
| CanvasWindow.FadeAndClean | PresentationCursor/CanvasWindow.xaml.cs:127-145 | what remains is a suffix of the faded queue. Every dropped dot was at most one step from transparent, the front survivor is visible, and only dropped dots leave the canvas |
| CanvasWindow.UpdateCursor | PresentationCursor/CanvasWindow.xaml.cs:73-146 | the circle is visible exactly when the cursor is on the window, and is then centred on it. At most one dot is added per tick, and only when the cursor is on the window |
| CanvasWindow.EmptyOverlayValid | PresentationCursor/CanvasWindow.xaml.cs:35 | the empty dot queue satisfies the invariant |
| CanvasWindow.ValidDotsVisible | PresentationCursor/CanvasWindow.xaml.cs:142-145 | under the invariant no queued dot is transparent |
| CanvasWindow.ValidDotsBounded | PresentationCursor/CanvasWindow.xaml.cs:112-142 | under the invariant the queue holds at most 29 dots |
| CanvasWindow.EnqueuedKeepsShape | PresentationCursor/CanvasWindow.xaml.cs:107-119 | enqueueing keeps the queue staggered, mirrored by the canvas and with distinct identities |
| CanvasWindow.FadeAndCleanKeepsIds | PresentationCursor/CanvasWindow.xaml.cs:141-145 | after cleanup, the canvas holds exactly the queued dots |
| CanvasWindow.FadeAndCleanKeepsStagger | PresentationCursor/CanvasWindow.xaml.cs:128-145 | after fading and cleanup the queue is still non-decreasing in opacity, by at least one step per position, and its front is visible |
| CanvasWindow.TickPreservesValid | PresentationCursor/CanvasWindow.xaml.cs:97-145 | a tick keeps the invariant wherever the cursor is |
| CanvasWindow.UpdateCursorPreservesValid | PresentationCursor/CanvasWindow.xaml.cs:73-146 | every tick keeps the invariant. So after cleanup the queue holds at most 29 dots, none of them transparent |
| CanvasWindow.TickFadesEveryDot | PresentationCursor/CanvasWindow.xaml.cs:119-130 | every dot after a tick is a previous dot or the new one, faded exactly once |
| CanvasWindow.TickKeepsNewDot | PresentationCursor/CanvasWindow.xaml.cs:107-130 | a dot enqueued by a tick survives it at opacity 0.58 and, with the corrected re-centring, still centred on the cursor |
| Scenarios.MovementThresholdRun | PresentationCursor/TrailingPolyline.cs:31-47 | with minimum distance 3, ticks at (0,0), (1,1) and (10,10) draw nothing and then the single segment (1,1)-(10,10) |
| Scenarios.EvictionRun | PresentationCursor/TrailingPolyline.cs:36-44 | with room for two segments, three qualifying moves keep the two most recent segments in order, with only their lines on the canvas |
| Scenarios.FortiethUpdateRemoves | PresentationCursor/TrailingPolyline.cs:84-109 | at fade rate 0.025 a segment has opacity 0.025 at age 39 and exactly 0 at age 40. It and its line are gone after the 40th update |
| Scenarios.MappingRun | PresentationCursor/CanvasWindow.xaml.cs:81-97 | on a 96-DPI monitor, a cursor at (50,50) on a 1920×1080 window at the origin maps to (50,50), and (-5,50) is not on the window |

Notes on where the model follows the code:

- **The last point moves on every tick.** `_lastPoint` is updated on every
  tick, even when the move was too small to draw (line 47). A run through
  (0,0), (1,1), (10,10) with minimum distance 3 therefore draws
  (1,1)-(10,10), not (0,0)-(10,10). `Scenarios.MovementThresholdRun` proves
  this behaviour.
- **A segment leaves in the same tick.** At fade rate 0.025 a segment's
  opacity reaches exactly 0 on its 40th update, and that same update
  removes it.
- **At most 29 dots.** A dot is faded in the tick that creates it, so it is
  removed on its 30th tick, and at most 29 dots remain after cleanup.
- **Zero DPI gives no local point.** If the DPI query yields 0, the
  division in lines 85-94 produces infinities or NaN. Neither passes the
  bounds test in line 97 (the window size being finite), so `ToLocal`
  returns `None`.
- **Negative `MaxTrailSegments` throws.** The eviction loop in lines 40-44
  then dequeues from an empty queue, which throws. `Evict` returns
  `Err(DequeueFromEmptyQueue)` in that case.

## Left out

- Win32 calls: `GetCursorPos`, `MonitorFromPoint` and `GetDpiForMonitor`
  are foreign calls. The cursor position and the DPI of the monitor under
  it are parameters of `UpdateCursor`.
- The click-through window style (`Get/SetWindowLong` in
  `OnSourceInitialized`) is a foreign call with no logic to model.
- The `DispatcherTimer` is not modelled. Each call of `OnTick` or
  `UpdateCursor` stands for one timer tick.
- The WPF object graph (`Line`, `Ellipse`, `SolidColorBrush`, the `Canvas`)
  is left out. Canvas children are sets of element identities, holding only
  the trail's own elements. Properties that are not part of the trail's
  behaviour (hit-testing, line caps) are left out too.
- `MainWindow` (window creation per screen, closing windows) is UI plumbing.
- The `TrailingPolyline` constructor's null check on the canvas is left
  out, since the model has no null canvas.
- Floating point: doubles are exact reals, and the `(byte)` cast is floor
  plus clamp. The opacity scenarios therefore hold exactly in the model,
  whereas in doubles the 30th subtraction of 0.02 from 0.6 may land a
  rounding error away from 0.
- The invariant lemmas assume one configuration for the whole run. In the
  source the configuration properties can be changed at any time, and a
  lowered `MaxTrailSegments` only takes effect at the next append.
- The state left behind when the eviction loop throws is not modelled,
  only the fact that it throws.
- CanvasWindow.FadeDot: uses the corrected re-centring (see Findings), so
  the centre it keeps is not what the code as written gives. As written,
  each tick moves a dot's centre by 0.00045 times its size towards the
  top left, which `CanvasWindow.ShrinkAsWrittenDrifts` states.
- CanvasWindow.TickKeepsNewDot: the new dot stays centred on the cursor only
  with the corrected re-centring. As written, a new 10 by 10 dot ends its
  first tick centred 0.0045 up and to the left of the cursor.
- Fade.OpacityInUnitRange, Fade.ThicknessInRange, Fade.StrokeGreenNonIncreasing,
  Fade.OpacityNonIncreasing: stated only for a non-negative fade rate. A
  negative `FadeRate` makes opacity exceed 1 and makes segments grow. The
  source accepts such a rate but promises nothing about it.

## Findings

| source | as written | input that shows it | evidently intended | confidence | as-written member | corrected member |
|---|---|---|---|---|---|---|
| PresentationCursor/CanvasWindow.xaml.cs:131-138 | the "keep centred" shift after shrinking is `(1 - 0.97) * ellipse.Width / 2`, computed from the width after it has already been multiplied by 0.97 | a new dot centred at (5,5) (left 0, width 10) shrinks to width 9.7 with left 0.1455, so its centre moves to (4.9955,4.9955) | shift by half the size lost, `(oldWidth - newWidth) / 2`, so the dot stays centred while it shrinks | medium, not executed | CanvasWindow.ShrinkAsWritten | CanvasWindow.Shrink |

`CanvasWindow.ShrinkAsWrittenDrifts` and `CanvasWindow.ShrinkAsWrittenExample`
prove the drift: 0.00045 times the dot's size on every tick, up and to the
left. `CanvasWindow.Shrink` proves that the centre is kept.
`CanvasWindow.FadeDot`, and hence the dot-trail tick, uses the corrected
shrink.
