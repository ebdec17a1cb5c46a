# AniMap frame scheduler in Dafny

AniMap turns dated case records into the frames of an animated map.
Before anything is drawn, a scheduler builds a list `L` of per-frame
instruction lists, with `limit = delta_days * frames_per_day` slots. It
expands every input row into tagged instructions and appends them to the
frames where they must appear. The frame list is then post-processed for
the renderer.

This project models that scheduler and proves what it guarantees:

- `frames.dfy`: the instruction tags. `"p"` is a point, `"l"` a line,
  `"m"` a municipality count, `"t"` a milestone text and `"c"` a country
  state. Each becomes a constructor of `Instr`.
- `animaplib.dfy`: the helpers of `AniMapLib.py`. `split` cuts a path into
  nearly equal pieces, `title` gives one title per frame, and
  `remove_frames` collapses day-blocks that only carry counts and texts. It
  also models the sign table that places the control point of a transfer
  curve.
- `transfers.dfy`: the transfer fan-out that both schedulers share. The
  whole curve is drawn at the arrival frame, growing prefixes before it and
  shrinking suffixes after it.
- `region.dfy`: the scheduler of `depot/region.py`. It covers the running
  case count per municipality, the point decay window, transfers between
  cases, milestones, `remove_frames`, and the choropleth bucket of the
  renderer.
- `world.dfy`: the scheduler of `depot/world.py`. It covers country and
  region states that turn from red to blue, transfers between region
  centroids, and the grouping of equal consecutive frames. A group is drawn
  once and copied into the other frame files it stands for.

Every scheduling loop of the source is a method with loop invariants on a `seq` or an
`array<seq<Instr>>`; the arrays stand for the preallocated frame list `L`.
Each method is proved against a specification function: `CasesAt`,
`TransfersAt`, `MilestonesAt`, `Compact`, `WorldCasesAt` and so on. The
source's promises are lemmas about those functions, for example the
one-entry-per-name count invariant, prefix ++ suffix = path, and the
grouping tiling the frames.

Dates are integer day offsets from the start date. Parameters stand for
the library calls the scheduler relies on:

- `strftime` formats a day;
- `fold` stands for `unidecode(s.lower())`;
- `curve` stands for `get_values_curved_line`.

## Model

| member | source | states |
|---|---|---|
| AniMapLib.ControlPoint | AniMapLib.py:8-25 | in every arm of the quadrant table, the control point's offset from the chord's midpoint is perpendicular to the chord and one third of its length; the x offset points against the chord's x direction (positive when that is zero) and the y offset along its y direction (negative when that is zero), which fixes the side the curve bows to |
| AniMapLib.MirroredControlPointBowsOtherWay | AniMapLib.py:14-25 | for distinct ends, the control point reflected across the chord breaks the sign rule, so the quadrant table picks exactly one of the two perpendicular candidates |
| AniMapLib.Split | AniMapLib.py:39-59 | for n ≥ 1: n cumulative cuts, where cut i is the sum of the first i+1 group sizes; the last cut is x; cuts never decrease and stay ≤ x, and strictly increase when x ≥ n |
| AniMapLib.GroupSizeList | AniMapLib.py:40-53 | the group-size loop returns n sizes and size j is the specification's `GroupSize`, the larger size for the last x mod n groups |
| AniMapLib.GroupSizes | AniMapLib.py:42-53 | each group has x div n or x div n + 1 elements; the larger ones are exactly the last x mod n groups; when n divides x all groups have x div n |
| AniMapLib.CutClosedForm | AniMapLib.py:47-58 | cut i equals (i+1)·(x div n) plus the number of enlarged groups among the first i+1 |
| AniMapLib.CutLast | AniMapLib.py:54-59 | the last cut is x, so the last piece ends at the path's end |
| AniMapLib.CutMonotone | AniMapLib.py:54-58 | cuts are monotone in the index, strictly when x ≥ n |
| AniMapLib.CutBounded | AniMapLib.py:54-58 | no cut exceeds x |
| AniMapLib.CutsOrdered | AniMapLib.py:54-59 | a list of the n cuts ends at x, is non-decreasing and bounded by x, and strictly increasing when x ≥ n |
| AniMapLib.Title | AniMapLib.py:81-87 | delta_days·frames_per_day titles; title i is the formatted date of day start + i div frames_per_day, which is the list `FrameTitles` |
| AniMapLib.DayOfFrame | AniMapLib.py:83-86 | frame d·fpd + f with f < fpd belongs to day d |
| AniMapLib.SameDaySameTitle | AniMapLib.py:81-87 | all frames of one day carry that day's title |
| AniMapLib.RemovalListShape | AniMapLib.py:64-73 | the scheduled deletions lie below the scanned frames and are strictly descending, as built by `insert(0, …)` |
| AniMapLib.RemovalMember | AniMapLib.py:64-73 | a frame of block j is scheduled for deletion iff the block is dead (only "m" and "t" instructions) and the frame is not the block's last |
| AniMapLib.RemovalListBelow | AniMapLib.py:64-73 | every index listed after b blocks lies below block b |
| AniMapLib.RemovalListAbove | AniMapLib.py:64-73 | once the block holding frame x is scanned, later blocks neither add x nor drop it |
| AniMapLib.RemovalListBlock | AniMapLib.py:65-72 | right after block j is scanned, its frame x is listed iff the block is dead and x is not its last frame |
| AniMapLib.RemovalMarksBlocks | AniMapLib.py:62-73 | in every block scanned so far, the removal list holds exactly the non-last frames when the block is dead and none of its frames otherwise |
| AniMapLib.DeleteBelow | AniMapLib.py:75-77 | deleting a position below every earlier deletion removes exactly that frame from the survivors, so pending indices never shift |
| AniMapLib.DeleteHead | AniMapLib.py:75-77 | deleting the first survivor when every earlier deletion lies above it removes the head of the survivors |
| AniMapLib.CompactIsWithout | AniMapLib.py:75-77 | deleting, in descending order, any index list that marks exactly the non-last frames of the dead blocks leaves, in order, each live block whole and the last frame of each dead block |
| AniMapLib.RemovalCompacts | AniMapLib.py:61-78 | deleting the removal list from a list of limit elements gives its compaction by the block rule, of length limit − (frames_per_day − 1)·(dead blocks) |
| AniMapLib.CompactLength | AniMapLib.py:61-78 | the result has limit − (frames_per_day − 1)·(dead blocks) frames |
| AniMapLib.CompactOneFramePerDay | AniMapLib.py:70-72 | with frames_per_day = 1 nothing is removed |
| AniMapLib.ScanBlock | AniMapLib.py:65-70 | the inner scan sets `diff_plots` to 0 or 1, and to 0 iff every instruction of the block is an "m" or a "t" |
| AniMapLib.InsertBlock | AniMapLib.py:70-72 | the `insert(0, …)` loop puts i+frames_per_day−2 down to i in front of the list, so it gains exactly the block's non-last frames |
| AniMapLib.FramesToRemove | AniMapLib.py:62-73 | the scan returns the removal list of the block rule; it is strictly descending and below limit |
| AniMapLib.RemoveFrames | AniMapLib.py:61-78 | frames and titles lose the same indices: both become the compaction by the block rule of the frames, and both have the reduced length |
| Transfers.FanOutAt | depot/region.py:247-256 | a frame receives at most one line from a transfer, and one exactly when it lies within frames_for_line − 1 frames of the arrival |
| Transfers.FanOutPairs | depot/region.py:252-256 | the prefix placed before the arrival and the suffix placed after it by the same step together make up the whole path |
| Transfers.FanOutGrowsThenShrinks | depot/region.py:247-256 | drawn prefixes never shrink towards the arrival and suffixes never grow away from it; strictly so when the path has at least frames_for_line samples |
| Transfers.FanOutGrows | depot/region.py:247-254 | the prefixes drawn before the arrival never shrink towards it, and strictly grow when the path has at least frames_for_line samples |
| Transfers.FanOutShrinks | depot/region.py:247-256 | the suffixes drawn after the arrival never grow away from it, and strictly shrink when the path has at least frames_for_line samples |
| Transfers.FanOut | depot/region.py:247-256 | the placement loop (the same code as depot/world.py:223-233) appends to every frame exactly its `FanOutAt` instruction and changes nothing else |
| Region.Bucket | depot/region.py:72-74 | the colour index is count div 5 capped at 4: it is 4 iff count ≥ 20, else the 5-wide band holding the count |
| Region.BucketMonotone | depot/region.py:72-74 | a higher count never gets a lower colour index |
| Region.ColonyColour | depot/region.py:214-219 | "Sentinel" gives purple, "Natural" orange, anything else red |
| Region.DecayedPositive | depot/region.py:227-229 | inside the decay window the decremented marker size (or transparency) stays positive and at most its initial value |
| Region.IncTally | depot/region.py:197-201 | the scan raises the count of `name` by its number of entries and keeps every entry count and every other name's total |
| Region.BumpTally | depot/region.py:194-205 | on a frame with at most one entry of `name`, the upsert leaves exactly one entry, raises its count by one and leaves other names alone |
| Region.UpsertFrame | depot/region.py:195-205 | one frame becomes the upsert of `name` (`BumpTally` describes it); every other frame is unchanged |
| Region.UpsertMunicipality | depot/region.py:194-205 | every frame from start to the end gets the upsert of `name`; earlier frames are unchanged |
| Region.Matched | depot/region.py:190-191 | the matching names are nonempty iff some listed name folds to the case's municipality |
| Region.MatchedCounts | depot/region.py:190-191 | a name matches as often as it is listed if it folds to the municipality, otherwise never |
| Region.BumpAllTally | depot/region.py:190-205 | upserting several names keeps at most one entry per name and raises each count by the number of upserts |
| Region.UpsertMatches | depot/region.py:189-205 | found iff some name matches; `municipalities_cases` gains the matches; every frame from start gets the upserts |
| Region.DecayAt | depot/region.py:221-226 | a frame gets at most frames_per_day points from one case, each with a decrement count below the window length |
| Region.DecayAdvance | depot/region.py:221-227 | one more decay step adds its point to exactly the frames s .. s+frames_per_day−1 |
| Region.DecayOneFramePerDay | depot/region.py:221-227 | with one frame per day, frame start+k shows exactly step k inside the window and nothing outside |
| Region.AppendToWindow | depot/region.py:223-225 | the frames s .. s+frames_per_day−1 get the instruction appended |
| Region.PlacePoint | depot/region.py:221-229 | every frame gets exactly the points of `DecayAt` for the loop's bounds (start, start + decay frames, limit, days ≥ 0) |
| Region.PlaceMilestone | depot/region.py:276-281 | a milestone dated on a non-negative day is appended once to every frame from its day to the end of the timeline |
| Region.CasesTally | depot/region.py:190-229 | every frame holds at most one count entry per municipality, whose count is the number of matched cases dated on or before that frame |
| Region.CountsAgreeAtEnd | depot/region.py:190-192 | once every case has started, a frame's count equals the `municipalities_cases` total |
| Region.PointTableKeys | depot/region.py:173-180 | an ID is in `points` iff some row has it |
| Region.PointTableLast | depot/region.py:173-180 | `points` keeps the location and start frame of the last row with each ID |
| Region.ProcessCase | depot/region.py:170-229 | one case row: its matches are counted, each frame from its start gets the upserts, then the decay window's points |
| Region.ScheduleCases | depot/region.py:170-229 | from empty frames: frames become `CasesAt`, counts `MatchCount`, `points` `PointTable`, and the printed municipalities `Unmatched` |
| Region.TransferLookup | depot/region.py:243-248 | a row raises KeyError iff its arrival is unknown, or its arrival is before the end and its origin is unknown |
| Region.TransfersAreLines | depot/region.py:243-256 | transfers only add lines |
| Region.TransfersCount | depot/region.py:243-256 | a frame gets at most one line per transfer row, and none when it is out of reach of every arrival |
| Region.ScheduleTransfers | depot/region.py:243-256 | completes iff no row raises; otherwise names the first row that does; on completion every frame gets `TransfersAt`; only the rows the loop reaches and places need a fan-out window inside the timeline |
| Region.MilestonePersists | depot/region.py:276-281 | a milestone's text is in every frame from its day on |
| Region.MilestonesGrow | depot/region.py:276-281 | later frames show at least as many milestone texts, and only texts |
| Region.ScheduleMilestones | depot/region.py:272-281 | every frame gets `MilestonesAt`, the texts of all milestones dated on or before its day |
| Region.RegionFrames | depot/region.py:141-281 | from empty frames the case, transfer and milestone loops end in KeyError iff some transfer row raises; otherwise the frames are the full timeline; the counts are `MatchCount` for every listed municipality; the printed municipalities are `Unmatched` |
| Region.ScheduleRegion | depot/region.py:141-287 | fails iff some transfer row raises KeyError; else frames and titles are the block-rule compaction of the full timeline (cases, transfers, milestones) and the counts are `MatchCount`; on both paths the printed municipalities are `Unmatched` |
| World.Resolve | depot/world.py:150-160 | the resolved name folds like the query and is either the query or a listed name |
| World.ResolveLast | depot/world.py:150-153 | the last matching listed name wins |
| World.ResolveUnlisted | depot/world.py:150-153 | with no match the name is kept |
| World.MatchCountry | depot/world.py:150-153 | the loop resolves the country to `Resolve`, found iff some country matches |
| World.MatchRegion | depot/world.py:155-160 | the loop resolves the region to `Resolve`; found iff the region is empty and some region is listed, or some region matches |
| World.CountryAt | depot/world.py:169-177 | a frame from the start on gets exactly one state, red for the first End frames and blue afterwards |
| World.PlaceCountry | depot/world.py:169-177 | every frame gets `CountryAt`; frames before the start get nothing |
| World.WorldCasesCount | depot/world.py:143-177 | a frame holds one state per case that has started by then |
| World.ProcessWorldCase | depot/world.py:143-183 | one row: found iff its country is listed; its resolved state goes into every frame from its start; an unmatched region is reported |
| World.ScheduleWorldCases | depot/world.py:143-183 | stops iff some row's country is unlisted, naming the first such country; otherwise frames become `WorldCasesAt` and the reported regions `UnknownRegions`; when it stops, the reported regions are those of the rows before the stop; only the rows before the stop need a start inside the timeline |
| World.CentroidLookup | depot/world.py:218-223 | a row raises KeyError iff it is before the end and one of its centroids is unknown |
| World.WorldTransfersAreLines | depot/world.py:218-233 | transfers add only lines, at most one per row to a frame |
| World.ScheduleWorldTransfers | depot/world.py:218-233 | completes iff no row raises, else names the first row that does; on completion every frame gets `WorldTransfersAt` |
| World.GroupFrames | depot/world.py:248-263 | for at least two frames the entries tile the frames in order; each entry's frames equal its first in instructions and title and, beyond the first, do not end with a line; the next frame could not join; one frame or none gives no entry |
| World.CopyTargets | depot/world.py:63-68 | the copies of drawn frame i of a group of k are i+1 .. i+k−1, so with the drawn frame they are i .. i+k−1 |
| World.TilesWritten | depot/world.py:248-263 | the frame indices written for a tiling are exactly 0 .. len−1 in order, and the counts add up to the number of frames |
| World.TilesCover | depot/world.py:248-263 | every frame index lies in exactly one entry |
| World.FramesWrittenOnce | depot/world.py:63-68 | each frame file is written by exactly one entry, whose drawn frame has that frame's instructions and title |
| World.WorldFrames | depot/world.py:126-233 | stops iff some country is unlisted; when every country is listed, reports a KeyError iff some transfer row raises; otherwise the frames are the timeline of states and lines; the reported regions are `UnknownRegions` of the rows read |
| World.ScheduleWorld | depot/world.py:116-263 | the whole world schedule: stopped iff a country is unlisted; otherwise crashed iff some transfer row raises KeyError; when rendered, the frames are the timeline, the titles are one per frame, and the entries are the maximal runs that tile the frames; the reported regions are `UnknownRegions` of the rows read; the nonempty-frame requirement of the grouping applies only when every country is listed and no transfer row raises |

## Behaviour as written

These points follow the code. The repository's own description sometimes
says otherwise.

- `split` gives the larger groups to the last `x mod n` of them:
  `split(10, 3) = [3, 6, 10]`.
- The decay loop advances `start` by one frame per step, not one day. With
  several frames per day the windows of consecutive steps overlap, and a
  frame can show several points of the same case.
- A milestone stays from its day to the end of the timeline, not for one
  day only.
- `remove_frames` removes nothing when `frames_per_day = 1`. For larger
  values a second run can remove more frames from the compacted list,
  because the blocks shift.
- In the world scheduler the End column counts frames from the case's
  start, not days.
- The world grouping checks for the last frame inside its loop. A timeline
  of one frame therefore yields no entry, and nothing is drawn.

## Left out

- `get_values_curved_line` beyond its sign table: the Bézier evaluation
  through `bezier`/`numpy` is floating point. The curve is the parameter
  `curve`, and the 30-sample length is not fixed.
- The marker size and transparency, which are floats. A point carries the
  number of decrements instead. `Decayed` gives the value in exact
  arithmetic, which is not the float value.
- All drawing: matplotlib and geopandas in both `fplot`s, `savefig`,
  `shutil.copyfile`, and `progress`. Only the frame indices the copy loop
  writes are modelled.
- Reading the inputs: CSV header lookup and parsing, YAML and docopt
  configuration, `get_outdir`, and the command dispatch of
  `depot/interface.py`. Rows arrive already parsed. The municipality,
  country and region lists are parameters.
- `datetime`, `strftime` and `unidecode`. Dates are day offsets, and the
  other two are the parameters `strftime` and `fold`.
- `Pool.imap_unordered`: it runs the renderer on independent entries, and
  nothing of it affects the schedule.
- The dead test `if end == ""` in region.py: `end` is always a number
  there.
- Python's index wrap-around and IndexError are preconditions; the model
  does not reproduce them:
  - UpsertMunicipality, CaseRowOk: no municipality upsert from a negative
    start.
  - PlacePoint: no decay step may write past the last frame.
  - Transfers.FanOut, TransferFits, WorldTransferFits: the fan-out window
    must lie inside the timeline. The schedulers ask this only of the rows
    their transfer loop reaches and places (`ReachedTransfersFit`,
    `ReachedWorldTransfersFit`).
  - PlaceCountry, WorldCaseFits: no world case dated before the start
    date. The world scheduler asks this only of the rows up to the first
    unlisted country (`ReachedCasesFit`).
- Region.ScheduleRegion, Region.RegionFrames, Region.ScheduleTransfers, World.WorldFrames,
  World.ScheduleWorld, World.ScheduleWorldTransfers: they require `frames_for_line ≥ 1` even when no transfer row is placed.
  Python divides by zero only when it places a row (depot/region.py:247,
  depot/world.py:224), so this is stronger than the source needs.
- World.GroupFrames: it requires every frame to be nonempty when there are
  at least two. Python only fails on the frames whose last instruction it
  actually inspects, so this is stronger than the source needs.
- Preconditions exclude the zero parameters on which the source fails:
  - the region scheduler with `frames_per_day = 0` or
    `point_decay_days = 0`, which divides by zero at depot/region.py:142;
  - `remove_frames` called with `frames_per_day = 0` and a positive limit,
    which loops forever;
  - `n = 0` in `split`, which divides by zero.

  With `frames_per_day = 0` the timeline is empty. The world scheduler, the
  titles and the milestone loops accept that case and yield nothing.
- The printed diagnostics are returned as sequences by the scheduling
  members, up to the top-level ones: unmatched municipalities and unmatched
  regions. The printing itself and the timing messages are left out.
