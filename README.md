# On-call schedule renderer — a Dafny model

The program renders an on-call schedule for a query window `[from, until)`.
A rotation configuration (an ordered list of users, an anchor instant and a
handover interval) yields consecutive base shifts that start at the anchor
and cycle through the users. Overrides — `(start, end, user)` triples that
may be unsorted, may overlap each other and may reach outside the window —
are laid over each base shift: every shift is split around the overrides
that intersect it, walked left to right with a cursor, so the override that
starts first wins where overrides overlap. The composited pieces are then
clamped to the window, and the pieces left empty are dropped.

The model has six modules:

- `Intervals` — instants (`int`), users (`string`), the `Interval` triple,
  the half-open overlap test, and the notion of a *tiling* (non-empty,
  contiguous intervals covering a span) with its lemmas.
- `RotationGenerator` — the generator loop as a method, proved equal to the
  recursive `BaseShifts`, with the shift-by-shift formula and the tiling.
- `StableSort` — the key-only stable sort by start, as an insertion-sort
  function proved sorted, a permutation, and order-preserving on ties.
- `Compositor` — the per-shift selection loop and split loop and the outer
  loop over shifts, as methods proved equal to the functions `Selected`,
  `SplitShift` and `Composite`. The cursor walk is related to a reference
  owner function, `Owner`, which does not walk: the first override of a list
  that contains an instant holds it, otherwise the shift's user does.
  `EffectiveUser` applies `Owner` to the selected overrides after the sort.
  The selection and the sort are proved order-preserving, so the owner is
  restated in terms of the input alone: the earliest covering start wins, and
  input order settles ties (`FirstListedWins`). The pieces are also shown to
  tile each shift and to stay inside one shift each.
- `Clipper` — the clamp-and-test of one piece and the filtered clamp of
  all pieces, with the intersection, tiling and origin lemmas.
- `Schedule` — the full pipeline, with coverage, ownership, precedence,
  rotation and the worked example.

## Model

| member | source | states |
|---|---|---|
| Intervals.OverlapsIffCommonInstant | main.py:58-59 | The overlap test is symmetric; two spans sharing an instant pass it; for non-empty spans passing it means they share an instant. |
| RotationGenerator.GenerateBaseShifts | main.py:27-41 | The generator loop returns exactly `BaseShifts` for the anchor, interval and window end; the window start is unused. |
| RotationGenerator.BaseShifts | main.py:27-41 | No shift is produced iff the window ends at or before the anchor; otherwise the first shift starts at the anchor and the last ends at or after the window end. |
| RotationGenerator.ShiftsFrom | main.py:32-39 | From any cursor, the shifts are empty iff the cursor is at or past the end; else the first starts at the cursor and the last reaches the end. |
| RotationGenerator.ShiftAt | main.py:32-39 | Shift `k` starts `k` intervals after the anchor and before the window end, lasts one interval, ends where shift `k+1` starts, and belongs to `users[(i+k) mod len(users)]`. |
| RotationGenerator.BaseShiftsTile | main.py:32-39 | The base shifts tile the span from the anchor to the end of the last shift. |
| RotationGenerator.ShiftsFromPrefix | main.py:29-32 | A later window end only appends shifts: the rotation always starts at user 0 at the anchor, whatever the query. |
| StableSort.SortByStartSorted | main.py:75 | The sorted overrides are ordered by start. |
| StableSort.SortByStartPermutation | main.py:75 | The sort is a permutation of the selected overrides. |
| StableSort.SortStable | main.py:75 | Among overrides with equal starts, the input order survives the sort. |
| StableSort.FirstOfLeastKey | main.py:75 | When nothing starts before `x` and `x` is the first element with its start, the sort puts `x` first. |
| Compositor.Selected | main.py:70-72 | An override is selected for a shift iff it is one of the overrides and passes the overlap test against the shift (order and multiplicity: `SelectedAppend`). |
| Compositor.SelectedAppend | main.py:70-72 | Selection keeps input order and multiplicity: selecting from a concatenation is concatenating the selections. |
| Compositor.SelectedNone | main.py:70-72 | When no override overlaps the shift, none is selected. |
| Compositor.SelectOverrides | main.py:66-72 | The selection loop returns exactly `Selected`, in input order. |
| Compositor.Walk | main.py:78-94 | Every piece the cursor walk emits is non-empty and lies between the cursor and the shift's end. |
| Compositor.ShadowedOverride | main.py:79-89 | A non-reversed override (`start <= end`) whose clamped end the cursor has already reached emits no gap, claims nothing and leaves the cursor where it is. |
| Compositor.ReversedShadowedGap | main.py:79-89 | A reversed override is not shadowed that way: with the cursor at 3 over the shift `[0, 10)`, the override `[5, 2)` still emits the gap `[3, 5)`, claims nothing and leaves the cursor at 3. |
| Compositor.WalkTiles | main.py:78-94 | With overrides that are not reversed (`start <= end`) and start before the shift ends, the walk's pieces tile the span from the cursor to the shift's end. |
| Compositor.WalkOwner | main.py:78-94 | For any overrides ordered by start, every emitted piece containing an instant belongs to the first override containing it, or to the shift's user if none does. |
| Compositor.SplitShift | main.py:63-94 | Every piece of a shift lies within the shift and is non-empty. |
| Compositor.SplitShiftTiles | main.py:63-94 | For a non-empty shift and no reversed override, the pieces tile the shift exactly. |
| Compositor.SplitShiftOwner | main.py:63-94 | Every piece containing an instant is held by `EffectiveUser` of the shift at that instant. |
| Compositor.SplitShiftUntouched | main.py:70-94 | A non-empty shift that no override overlaps comes out as itself, one piece. |
| Compositor.OwnerUncovered | main.py:93-94 | Where no override of the walk contains the instant, the shift's user holds it. |
| Compositor.OwnerFirstCover | main.py:78-89 | The first override in walk order that contains the instant holds it. |
| Compositor.UncoveredKeepsBase | main.py:63-94 | An instant that no override covers keeps the shift's user. |
| Compositor.EarliestStartWins | main.py:75-89 | Among overrides covering an instant of the shift, the one that starts strictly first holds it. |
| Compositor.OwnerEarliest | main.py:78-89 | In a start-ordered walk, a covering override starting strictly before every other covering one holds the instant. |
| Compositor.FirstListedWins | main.py:70-89 | An override covering an instant of the shift holds it when every override covering that instant starts later, or starts at the same instant and is listed no earlier in the input. |
| Compositor.OwnerAmongEqualStarts | main.py:78-89 | In a start-ordered list, the owner of an instant is decided among the covering overrides that share the earliest covering start. |
| Compositor.OwnerAfterSort | main.py:75-89 | After the stable sort, the owner is decided among the selected overrides that share the earliest covering start, in selection order. |
| Compositor.TieKeepsInputOrder | main.py:75-94 | Over the shift `[0, 10)`, the overrides `[0, 10)` for C then `[0, 5)` for D yield the single piece `[0, 10)` for C. |
| Compositor.EmptyOverrideSplits | main.py:79-94 | A zero-length override `[5, 5)` over the shift `[0, 10)` claims nothing but splits it into `[0, 5)` and `[5, 10)` of the shift's user. |
| Compositor.ReversedOverrideOverlaps | main.py:79-89 | A reversed override `[5, 2)` over the shift `[0, 10)` yields the overlapping pieces `[0, 5)` and `[2, 10)`. |
| Compositor.FullOverrideReplacesShift | main.py:75-94 | An override covering the whole shift, starting strictly before every other overlapping override, replaces the shift with one piece of its user. |
| Compositor.FirstListedSortsFirst | main.py:70-75 | An overlapping override that every overlapping override follows by start, then by input position, comes first after selection and sort. |
| Compositor.FirstListedReplacesShift | main.py:70-94 | An override covering the whole non-empty shift replaces it with one piece of its user when every overlapping override starts later, or starts together and is listed no earlier. |
| Compositor.CompositeBounds | main.py:61-96 | Every composited piece lies within the span the base shifts lie in. |
| Compositor.CompositeTiles | main.py:61-96 | If the base shifts tile a span and no override is reversed, the composited pieces tile the same span. |
| Compositor.CompositeWithinShifts | main.py:61-96 | Every composited piece lies inside a single base shift: overrides are cut at each shift boundary they cross. |
| Compositor.CompositeUntouched | main.py:61-96 | Overrides overlapping no (non-empty) base shift leave the shifts unchanged. |
| Compositor.CompositeOwner | main.py:61-96 | Every composited piece containing an instant of base shift `k` is held by `EffectiveUser` of shift `k` there. |
| Compositor.ComposeShift | main.py:64-94 | The per-shift loop (select, sort, walk, trailing piece) returns exactly `SplitShift`. |
| Compositor.ApplyOverrides | main.py:61-96 | The loop over base shifts returns exactly `Composite`: the per-shift pieces concatenated in shift order. |
| Clipper.BuildEntry | main.py:44-56 | The entry keeps the piece's user and holds exactly the instants the piece shares with the window; there is none iff they share no instant. |
| Clipper.ClipAll | main.py:117-120 | Entries are non-empty, lie inside the window, are no more than the pieces, and there are none when the window is empty. |
| Clipper.ClipAllAfterWindow | main.py:117-120 | Pieces that all start at or after the window end leave no entry. |
| Clipper.ClipAllOrigin | main.py:117-120 | Every instant of an entry lies in the window and in a piece of the same user. |
| Clipper.ClipAllTiles | main.py:117-120 | Clipping a tiling of a span to a window meeting it tiles their intersection, in order. |
| Clipper.ClipAllAppend | main.py:117-120 | Clipping works piece by piece and keeps order: it distributes over concatenation, for any pieces. |
| Clipper.ClipAllInsideWindow | main.py:117-120 | Non-empty pieces already inside the window pass through unchanged and in order. |
| Schedule.ScheduleEntries | main.py:114-120 | The rendered entries lie inside the window, are non-empty, and there are none when `until <= from`. |
| Schedule.RenderSchedule | main.py:114-120 | Generating, compositing and clipping in sequence returns exactly `ScheduleEntries`. |
| Schedule.ScheduleCoverage | main.py:114-120 | With no reversed override, the entries tile the window from `max(anchor, from)` to `until`: each instant has exactly one on-call user. |
| Schedule.EntryOrigin | main.py:114-120 | Each instant of an entry lies in the window and in some base shift `k`, and the entry's user is `EffectiveUser` of shift `k` there. |
| Schedule.OverridePrecedence | main.py:114-120 | An override covering an instant and starting strictly before every other override covering it holds that instant in the schedule. |
| Schedule.FirstListedPrecedence | main.py:114-120 | An override covering an instant holds it in the schedule when every covering override starts later, or at the same instant and listed no earlier. |
| Schedule.ShiftUser | main.py:29-39 | Base shift `k` belongs to `users[((t - anchor) / interval) mod len(users)]` for each of its instants `t`. |
| Schedule.RotationHolds | main.py:114-120 | Where no override covers an instant, it belongs to `users[((t - anchor) / interval) mod len(users)]`. |
| Schedule.IrrelevantOverrides | main.py:114-120 | Overrides overlapping no base shift leave the schedule equal to the clipped rotation. |
| Schedule.WorkedExample | main.py:114-120 | Users `[A, B]`, anchor 0, interval 3, window `[0, 9)`, override `[1, 3)` for C give A`[0,1)`, C`[1,3)`, B`[3,6)`, A`[6,9)`. |

## Left out

- Timestamp parsing and formatting (main.py:18-23): instants are integers and an entry is the clamped interval itself rather than a record of formatted strings; the day unit of the interval is folded into the integer unit.
- Reading the configuration and override files and the command line (main.py:101-112, 123-146): input and output only.
- GenerateBaseShifts: once the loop body runs, the source fails on the modulo for an empty user list, never terminates for a zero interval, and for a negative interval walks backwards until the date arithmetic raises an overflow error; all three are excluded by a precondition when the anchor is before the window end, and the model returns no shifts otherwise, as the source does. No fail-fast configuration check exists in the code, so none is modelled.
- Instants are unbounded integers. The source's dates have a bounded range, and adding the interval raises an overflow error once a shift end would pass the latest representable date (main.py:33); the model does not capture that failure.
- ScheduleCoverage: stated for overrides that are not reversed (`start <= end`) only. A reversed override can make two pieces of one shift overlap (`ReversedOverrideOverlaps`), so the source does not treat it as a no-op; the model follows the code here.
- A zero-length override strictly inside a shift is not a no-op either: it claims nothing but splits the base piece in two at its start (`EmptyOverrideSplits`). Coverage still holds for it.
- Ties between overrides with equal starts are resolved by the stability of the sort, that is by input order (`SortStable`, `SelectedAppend`, `FirstListedWins`); no other tie-break is modelled.
- The list sort inside the per-shift loop is a specification function (`SortByStart`), not an in-place algorithm: the source calls its language's built-in sort.
- Duplicate override triples are indistinguishable values, so `EarliestStartWins` and `OverridePrecedence` ask the winning override to start strictly before every *other distinct* covering override.
