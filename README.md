# AutoCensorMPV core, modelled in Dafny

AutoCensorMPV plays a video in mpv. On every playback-position change it
runs a nudity detector on the current frame. It covers each detected region
whose label is censored with an opaque overlay, and retires that overlay two
seconds later. This project models the three parts of `main.py` that carry
that logic, and proves properties of them:

- **The overlay expiry ledger** (`Overlays`, file `overlays.dfy`).
  `OverlayManager` is a class whose field `toClear` is the list of
  `(overlay_id, expiry_time)` entries. `NextOverlay` appends one entry.
  `Cleanup` is a `while` loop that walks the list by an explicit iterator
  index, exactly as Python's list iterator does: it reads `list[idx]`, then
  advances `idx`. When it removes an entry, `list.remove` shifts the tail
  down one place. The loop is proved equal to the reference function
  `Sweep`, and the lemmas are stated about `Sweep`. Because the list is
  mutated while it is walked, the entry right after each removed one is
  skipped. With no duplicate entries, this is proved exactly:
  - an expired entry survives a pass exactly when the entry before it was
    removed (`CleanupSkipsSuccessorOfRemoved`);
  - a pass over n expired entries removes ⌈n/2⌉ of them
    (`AllExpiredHalfRemoved`);
  - a concrete two-entry ledger keeps one expired entry
    (`TwoExpiredOneSurvives`).

  With or without duplicates, the pass
  - drops only expired entries;
  - keeps every live entry, in order;
  - reports each dropped entry's id exactly once;
  - makes progress whenever anything has expired.
- **The coordinate transform** (`Transform`, file `transform.dfy`). `ToScreen`
  maps a detection box in video pixels to an on-screen rectangle:
  - scale = (OSD size − 2·margin) / video size;
  - position = box origin · scale + margin;
  - size = box extent · scale.

  Each result goes through `Trunc`, which is Python's `int()`: truncation
  toward zero, not `Floor`. Arithmetic is exact (`real`).
- **The per-tick controller** (`Controller`, file `controller.dfy`). The
  class `AutoCensor` models `store_prop` (`StoreProp`) and `work` (`Work`).
  `Work` does the following, in order:
  - ignores a `None` or non-positive position;
  - runs the ledger's `Cleanup`;
  - reads the six geometry properties in Python's evaluation order;
  - for each detection whose label is censored, in result order, computes
    the rectangle and allocates one overlay. This loop is `DrawCensored`.

  `Labels` (file `labels.dfy`) holds the default label list, its fallback
  and the label filter. `Optional` (file `optional.dfy`) holds `Option`.

External collaborators are inputs and outputs:
- the detector's results are an input of `Work`;
- the overlay ids mpv hands out are an input of `Work`: `ids`, one per
  censored detection;
- the `remove_overlay` calls are the returned `removedIds`;
- the drawn overlays are the returned `Placement`s (id and rectangle);
- the clock is the parameter `now`.

Where the model departs from what the program is evidently meant to do, it
follows the code:
- A sweep that never skipped an entry would keep exactly the live entries,
  `Live(to_clear, now)`. The code skips the successor of every entry it
  removes, so expired entries can survive a pass; `TwoExpiredOneSurvives`
  shows a ledger whose survivors are not `Live` of it, and
  `CleanupSkipsSuccessorOfRemoved` says exactly which entries survive.
- An incomplete geometry makes `work` raise after `cleanup` has already run:
  `KeyError` for the first missing key in evaluation order, or
  `ZeroDivisionError` for a zero video dimension. `Work` returns `Raised`
  with the ids already removed.
- Only a zero video dimension fails; a negative one goes through.
- Detection boxes are not clamped to the frame, there is no final removal of
  the remaining overlays when playback ends, no guard against overlapping
  calls and no counting of failures; the model has none of them either.

## Model

| member | source | states |
|---|---|---|
| `Transform.Trunc` | main.py:107-108 | `int()` of the exact value: the result is the integer next to x on the side of zero, within one of x |
| `Transform.TruncUnique` | main.py:107-108 | any integer within one of x on the side of zero is `Trunc(x)`, so the contract determines the result |
| `Transform.TruncVersusFloor` | main.py:107-108 | truncation equals `Floor` exactly on non-negative or integral values, and is `Floor + 1` on negative non-integers |
| `Transform.TruncOfInt` | main.py:107-108 | an integral value truncates to itself |
| `Transform.TruncNegate` | main.py:107-108 | truncation is symmetric about zero |
| `Transform.ScaleX` | main.py:78 | `scale_x` turns the video width into the OSD width minus both side margins |
| `Transform.ScaleY` | main.py:79 | `scale_y` turns the video height into the OSD height minus top and bottom margins |
| `Transform.Place` | main.py:104-105 | one coordinate of the overlay position, `int(p·scale + margin)` |
| `Transform.Extent` | main.py:97-103 | one side of the image size, `int((p2 − p1)·scale)` |
| `Transform.ToScreen` | main.py:97-108 | the box-to-screen transform: position `(int(x1·sx + ml), int(y1·sy + mt))`, size `(int((x2−x1)·sx), int((y2−y1)·sy))` |
| `Transform.AxisCoverage` | main.py:97-108 | on one axis with non-negative values, the drawn interval starts at or before the scaled near edge and ends at or before the scaled far edge, less than two pixels short of it |
| `Transform.ToScreenCoverage` | main.py:97-108 | for a box with non-negative coordinates, the overlay starts at or before the scaled box and its far edges lie within two OSD pixels short of the scaled far edges, never beyond them |
| `Transform.FullFrameIsDisplayArea` | main.py:77-108 | the full-frame box maps exactly to position `(ml, mt)` and size `(osd_w − 2·ml, osd_h − 2·mt)` |
| `Transform.QuarterFrameExample` | main.py:78-108 | 1920×1080 video in an 800×450 window without margins: box (960, 540, 1920, 1080) becomes rectangle (400, 225, 400, 225) |
| `Transform.AxisStaysInside` | main.py:97-105 | on one axis, an interval of the frame maps inside the margins despite truncation |
| `Transform.InsideFrameStaysOnScreen` | main.py:97-108 | a box inside the video frame yields a non-negative rectangle inside the OSD area between the margins |
| `Labels.Admits` | main.py:91 | the label test `label in self.censored_labels` |
| `Labels.Censored` | main.py:90-91 | the detections the loop acts on, in result order; never more than the results |
| `Labels.CensoredMembership` | main.py:90-91 | a detection is acted on if and only if it is among the results and its label is in the list |
| `Labels.CensoredAppend` | main.py:90-91 | the filter distributes over concatenation, so acted-on detections keep result order |
| `Labels.CensoredStep` | main.py:90-91 | walking the results left to right, the detection at position i is acted on exactly when its label is admitted |
| `Labels.CensoredAllAdmitted` | main.py:90-91 | when every label is censored, every detection is acted on, in order |
| `Labels.EmptyPolicyCensorsNothing` | main.py:49-54 | a list passed in is used as given: a detection is acted on iff its label is in it, so an explicit empty list censors nothing |
| `Labels.DefaultPolicyLabels` | main.py:13-18 | omitting the list (`CensoredLabels`) censors exactly the detections labelled with one of the four default labels |
| `Overlays.Expired` | main.py:32 | the test `cleared <= time.time()` |
| `Overlays.IndexOf` | main.py:34 | the position `list.remove` takes out is the first occurrence of the entry |
| `Overlays.RemoveFirst` | main.py:34 | `list.remove` shortens the list by one |
| `Overlays.RemoveFirstMultiset` | main.py:34 | `list.remove` takes out one occurrence of the entry and nothing else |
| `Overlays.Sweep` | main.py:31-34 | the `for` loop with the list iterator at a given index; the kept and the dropped entries together number as many as the list held |
| `Overlays.SweepDropsOnlyExpired` | main.py:31-34 | `cleanup` removes only entries with `cleared <= now` |
| `Overlays.SweepConserves` | main.py:31-34 | every entry is either kept or removed, exactly once: the removals plus the survivors are the old ledger as a multiset |
| `Overlays.SweepKeepsLive` | main.py:31-34 | no entry expiring after `now` is removed, and those entries keep their relative order |
| `Overlays.FirstExpiredIsRemoved` | main.py:31-34 | the first expired entry is always the first one removed |
| `Overlays.SweepMakesProgress` | main.py:31-34 | a pass over a ledger with any expired entry makes it shorter |
| `Overlays.MarksAt` | main.py:31-34 | the entries a pass removes are marked by "expired and the previous entry was not removed" |
| `Overlays.SelectAt` | main.py:31-34 | without duplicates, an entry is selected exactly when its mark says so |
| `Overlays.SweepFollowsMarks` | main.py:31-34 | from any iterator position behind kept entries, the rest of the pass keeps and removes exactly what the marks say |
| `Overlays.SweepAfterKeep` | main.py:31-34 | a live entry under the iterator stays and the pass moves on |
| `Overlays.SweepAfterRemoval` | main.py:31-34 | after a removal, the next entry slides under the advanced iterator and is skipped |
| `Overlays.CleanupFollowsMarks` | main.py:31-34 | without duplicates, one pass keeps the unmarked entries and removes the marked ones, both in order |
| `Overlays.CleanupSkipsSuccessorOfRemoved` | main.py:31-34 | an expired entry survives exactly when its predecessor was removed in the same pass; an expired first entry is always removed |
| `Overlays.AllExpiredMarkCount` | main.py:31-34 | with every entry expired, removals and skips alternate, starting with a removal unless the previous entry was removed; so ⌈n/2⌉ removals, or ⌊n/2⌋ after a removal |
| `Overlays.AllExpiredHalfRemoved` | main.py:31-34 | with n distinct expired entries, a pass removes ⌈n/2⌉ and keeps ⌊n/2⌋ |
| `Overlays.TwoExpiredOneSurvives` | main.py:31-34 | two entries due at the same time: the first is removed, the second survives although it has expired |
| `Overlays.SelectDistinct` | main.py:31-34 | a selection from a duplicate-free list is duplicate-free |
| `Overlays.CleanupKeepsDistinct` | main.py:31-34 | `cleanup` keeps the ledger free of duplicates |
| `Overlays.AppendFreshKeepsDistinct` | main.py:43-44 | appending an entry with a new overlay id keeps the ledger free of duplicates |
| `Overlays.OverlayManager.constructor` | main.py:23-25 | a new manager tracks no overlays |
| `Overlays.OverlayManager.Cleanup` | main.py:27-34 | the loop leaves exactly `Sweep`'s survivors in `to_clear` and returns the ids passed to `remove_overlay`, one per removed entry, in order |
| `Overlays.OverlayManager.NextOverlay` | main.py:36-45 | appends exactly `(id, now + expire_in)`, with `expire_in` 2 by default, and leaves the existing entries unchanged |
| `Controller.ReadGeometry` | main.py:78-79 | on success, the six property values, with both video dimensions non-zero; otherwise `KeyError` for a missing key or `ZeroDivisionError` for a zero dimension |
| `Controller.ReadGeometrySucceeds` | main.py:78-79 | the scale factors are computed if and only if all six keys are present and width and height are non-zero |
| `Controller.MissingWidthRaises` | main.py:78 | with `osd-dimensions/w` and `osd-dimensions/ml` reported and `width` not, evaluation stops with `KeyError('width')`, whatever else is known |
| `Controller.Active` | main.py:73 | the guard: a `None` or non-positive position is ignored |
| `Controller.AllocationLifetime` | main.py:36-44 | with the default `expire_in` (`DefaultExpireIn`, 2 seconds), an overlay allocated at `now` is live before `now + 2` and expired from `now + 2` on |
| `Controller.SweepKeepsFreshOverlays` | main.py:27-44 | a cleanup less than two seconds after a tick allocated overlays keeps every one of them, and keeps the live older entries in order |
| `Controller.AutoCensor.constructor` | main.py:49-58 | labels resolved from the argument, no properties known, a fresh empty ledger |
| `Controller.AutoCensor.StoreProp` | main.py:69-70 | overwrites the named property and leaves every other property as it was |
| `Controller.AutoCensor.DrawCensored` | main.py:90-108 | one overlay per censored detection, in result order, holds the transformed rectangle; the ledger gains exactly those ids with expiry `now + 2` |
| `Controller.AutoCensor.Work` | main.py:72-108 | a `None` or non-positive position changes nothing. Otherwise `cleanup` runs first, then either the property error is raised or the censored detections are drawn; the new ledger is the swept one plus the new entries |

## Left out

- mpv itself is not part of this model: `mpv.MPV`, the `observe_property`
  registrations (main.py:60-67), `screenshot_raw` (83), `create_image_overlay`
  (43), `ImageOverlay.update` (108), `remove_overlay` (33), `play` and
  `wait_for_playback` (114-116). These are foreign calls. Overlay ids come in
  as the parameters `id` and `ids`. Removals and drawings are returned values.
- NudeNet's `NudeDetector` (55, 86, 122) is an opaque model. Its result list
  is an input of `Work`.
- Image and file handling (81-84, 107): saving the frame, and `Image.new`.
  Only the rectangle's integer position and size are kept. If the image
  library rejects a negative size, that failure is not modelled.
- The `print` diagnostic (88) and the command line (111-141: argparse,
  `play`, `info`, the temporary directory).
- Threading: mpv calls the observers on its own thread. `Work` is one
  sequential call.
- Floating point: the divisions and products of lines 78-79 and 102-105 are
  exact `real` arithmetic. IEEE rounding, including values that would round
  across an integer before `int()`, is not modelled.
- Wall-clock time: `time.time()` (32, 44) is the parameter `now`. One pass of
  `Cleanup` uses one `now`, although Python reads the clock again for every
  entry. `Work` uses the same `now` for the sweep and for the new expiries.
- Controller.AutoCensor.StoreProp: property values are integers, as mpv
  reports these six properties. A `None` value, which mpv can report while a
  property is unavailable, is not modelled. In Python it would make `work`
  raise `TypeError`.
- Controller.AutoCensor.Work: requires one player-supplied id per censored
  detection. The model does not cover an overlay creation that fails
  part-way through the loop.
- Overlays.CleanupFollowsMarks: the exact keep/skip characterisation assumes
  no duplicate entries, which holds when overlay ids are distinct. With
  duplicates, only the general facts (`SweepDropsOnlyExpired`,
  `SweepConserves`, `SweepKeepsLive`, `FirstExpiredIsRemoved`) are proved.
