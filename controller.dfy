/** The per-tick controller, `AutoCensor` (main.py lines 48-108): it keeps
    the player properties it is told about and, on every playback-position
    change, sweeps expired overlays and covers each censored detection with
    a fresh opaque overlay. */
module Controller {
  import opened Optional
  import opened Transform
  import opened Labels
  import opened Overlays

  /** The names under which the six geometry properties are stored
      (main.py lines 60-65). */
  const KeyMarginTop: string := "osd-dimensions/mt"
  const KeyMarginLeft: string := "osd-dimensions/ml"
  const KeyOsdWidth: string := "osd-dimensions/w"
  const KeyOsdHeight: string := "osd-dimensions/h"
  const KeyWidth: string := "width"
  const KeyHeight: string := "height"

  /** The Python exceptions `work` can raise while computing its scale factors. */
  datatype PyError = KeyError(key: string) | ZeroDivisionError

  /** A computation that either yields a value or raises. */
  datatype Fallible<T> = Ok(value: T) | Raise(error: PyError)

  /** All six properties are known and neither video dimension is zero. */
  predicate GeometryComplete(props: map<string, int>)
  {
    KeyMarginTop in props && KeyMarginLeft in props && KeyOsdWidth in props &&
    KeyOsdHeight in props && KeyWidth in props && KeyHeight in props &&
    props[KeyWidth] != 0 && props[KeyHeight] != 0
  }

  /** The property reads of main.py lines 78-79, in Python's evaluation
      order: `osd-dimensions/w`, `osd-dimensions/ml`, `width`, the first
      division, then `osd-dimensions/h`, `osd-dimensions/mt`, `height` and
      the second division. The first missing key raises `KeyError`, a zero
      video dimension raises `ZeroDivisionError`. */
  function ReadGeometry(props: map<string, int>): (r: Fallible<Geometry>)
    ensures r.Ok? ==> GeometryComplete(props) && r.value == Geometry(
      props[KeyMarginTop], props[KeyMarginLeft], props[KeyOsdWidth],
      props[KeyOsdHeight], props[KeyWidth], props[KeyHeight])
    ensures r.Raise? && r.error.KeyError? ==> r.error.key !in props
    ensures r.Raise? && r.error.ZeroDivisionError? ==>
      (KeyWidth in props && props[KeyWidth] == 0) || (KeyHeight in props && props[KeyHeight] == 0)
  {
    if KeyOsdWidth !in props then Raise(KeyError(KeyOsdWidth))
    else if KeyMarginLeft !in props then Raise(KeyError(KeyMarginLeft))
    else if KeyWidth !in props then Raise(KeyError(KeyWidth))
    else if props[KeyWidth] == 0 then Raise(ZeroDivisionError)
    else if KeyOsdHeight !in props then Raise(KeyError(KeyOsdHeight))
    else if KeyMarginTop !in props then Raise(KeyError(KeyMarginTop))
    else if KeyHeight !in props then Raise(KeyError(KeyHeight))
    else if props[KeyHeight] == 0 then Raise(ZeroDivisionError)
    else Ok(Geometry(props[KeyMarginTop], props[KeyMarginLeft], props[KeyOsdWidth],
                     props[KeyOsdHeight], props[KeyWidth], props[KeyHeight]))
  }

  /** The scale factors are computed exactly when the six properties are
      present and both video dimensions are non-zero. */
  lemma ReadGeometrySucceeds(props: map<string, int>)
    ensures ReadGeometry(props).Ok? <==> GeometryComplete(props)
  {
  }

  /** With the OSD width and left margin reported but the video width not
      yet known, the tick raises `KeyError` on `width`, whatever else is known. */
  lemma MissingWidthRaises(props: map<string, int>)
    requires KeyOsdWidth in props && KeyMarginLeft in props && KeyWidth !in props
    ensures ReadGeometry(props) == Raise(KeyError(KeyWidth))
  {
  }

  /** `work`'s position guard (main.py line 73): `None` and non-positive
      positions are ignored. */
  predicate Active(position: Option<real>)
  {
    position.Some? && position.value > 0.0
  }

  /** An overlay drawn in a tick: its id and the rectangle of the opaque
      image placed in it. */
  datatype Placement = Placement(id: int, rect: Rect)

  /** The overlays a tick draws for the detections it acts on, the k-th
      one in the overlay with the k-th id handed out. */
  function Placements(censored: seq<Detection>, g: Geometry, ids: seq<int>): (ps: seq<Placement>)
    requires g.width != 0 && g.height != 0 && |ids| == |censored|
    ensures |ps| == |censored|
    ensures forall k :: 0 <= k < |ps| ==> ps[k] == Placement(ids[k], ToScreen(censored[k].box, g))
  {
    seq(|censored|, k requires 0 <= k < |censored| => Placement(ids[k], ToScreen(censored[k].box, g)))
  }

  /** The ledger entries `next_overlay` records for the ids handed out at
      `now`, each with the default lifetime. */
  function Allocations(ids: seq<int>, now: real): (es: seq<Entry>)
    ensures |es| == |ids|
    ensures forall k :: 0 <= k < |es| ==> es[k] == Entry(ids[k], now + DefaultExpireIn)
  {
    seq(|ids|, k requires 0 <= k < |ids| => Entry(ids[k], now + DefaultExpireIn))
  }

  /** The lifetime `next_overlay` gives by default: an overlay allocated at
      `now` is live at every time before `now + 2` and expired from
      `now + 2` on. */
  lemma {:induction false} AllocationLifetime(ids: seq<int>, now: real, t: real)
    ensures Live(Allocations(ids, now), t) == if t < now + 2.0 then Allocations(ids, now) else []
    decreases |ids|
  {
    if ids != [] {
      AllocationLifetime(ids[1..], now, t);
      assert Allocations(ids, now)[1..] == Allocations(ids[1..], now);
    }
  }

  /** A later tick's `cleanup`, less than two seconds after a tick drew its
      overlays, keeps every one of them: only the entries already in the
      ledger can be removed. */
  lemma SweepKeepsFreshOverlays(s: seq<Entry>, ids: seq<int>, now: real, later: real)
    requires later < now + DefaultExpireIn
    ensures Live(Sweep(s + Allocations(ids, now), 0, later).kept, later) == Live(s, later) + Allocations(ids, now)
    ensures forall k :: 0 <= k < |ids| ==> Entry(ids[k], now + DefaultExpireIn) in Sweep(s + Allocations(ids, now), 0, later).kept
  {
    var drawn := Allocations(ids, now);
    SweepKeepsLive(s + drawn, 0, later);
    LiveAppend(s, drawn, later);
    AllocationLifetime(ids, now, later);
    forall k | 0 <= k < |ids|
      ensures Entry(ids[k], now + DefaultExpireIn) in Sweep(s + drawn, 0, later).kept
    {
      assert drawn[k] in Live(s, later) + drawn;
    }
  }

  lemma PlacementsSnoc(censored: seq<Detection>, d: Detection, g: Geometry, ids: seq<int>, id: int)
    requires g.width != 0 && g.height != 0 && |ids| == |censored|
    ensures Placements(censored + [d], g, ids + [id])
         == Placements(censored, g, ids) + [Placement(id, ToScreen(d.box, g))]
  {
  }

  lemma AllocationsSnoc(ids: seq<int>, id: int, now: real)
    ensures Allocations(ids + [id], now) == Allocations(ids, now) + [Entry(id, now + DefaultExpireIn)]
  {
  }

  /** What one call of `work` did. */
  datatype Tick =
    | Ignored                                                 // the guard returned at once
    | Raised(removedIds: seq<int>, error: PyError)            // cleanup ran, then an exception
    | Drew(removedIds: seq<int>, placements: seq<Placement>)  // cleanup ran, then overlays were drawn

  class AutoCensor {
    /** `self.censored_labels`. */
    const censoredLabels: seq<string>
    /** `self.overlays`. */
    const overlays: OverlayManager
    /** `self.props`: the last value reported for each observed property. */
    var props: map<string, int>

    /** `AutoCensor.__init__` (main.py lines 49-58), without the player,
        the detector and the observer registrations. */
    constructor (censored: Option<seq<string>>)
      ensures censoredLabels == ResolveLabels(censored)
      ensures props == map[]
      ensures fresh(overlays) && overlays.toClear == []
    {
      censoredLabels := ResolveLabels(censored);
      overlays := new OverlayManager();
      props := map[];
    }

    /** `store_prop` (main.py lines 69-70): overwrite one property. */
    method StoreProp(name: string, value: int)
      modifies this
      ensures props == old(props)[name := value]
      ensures forall key :: key != name ==> (key in props <==> key in old(props))
      ensures forall key :: key != name && key in props ==> props[key] == old(props)[key]
    {
      props := props[name := value];
    }

    /** The loop of main.py lines 90-108: for each detection whose label is
        censored, in result order, compute its on-screen rectangle and draw
        it into a fresh overlay from `next_overlay`. */
    method DrawCensored(g: Geometry, results: seq<Detection>, now: real, ids: seq<int>) returns (drawn: seq<Placement>)
      requires g.width != 0 && g.height != 0
      requires |ids| == |Censored(results, censoredLabels)|
      modifies overlays
      ensures drawn == Placements(Censored(results, censoredLabels), g, ids)
      ensures overlays.toClear == old(overlays.toClear) + Allocations(ids, now)
    {
      ghost var acted: seq<Detection> := [];
      drawn := [];
      var i := 0;
      assert results[..0] == [] && results[0..] == results;
      while i < |results|
        invariant 0 <= i <= |results|
        invariant acted == Censored(results[..i], censoredLabels)
        invariant |acted| + |Censored(results[i..], censoredLabels)| == |ids|
        invariant drawn == Placements(acted, g, ids[..|acted|])
        invariant overlays.toClear == old(overlays.toClear) + Allocations(ids[..|acted|], now)
      {
        var detection := results[i];
        CensoredStep(results, i, censoredLabels);
        if detection.name in censoredLabels {
          var rect := ToScreen(detection.box, g);
          var id := overlays.NextOverlay(ids[|drawn|], now);
          assert ids[..|acted| + 1] == ids[..|acted|] + [id];
          PlacementsSnoc(acted, detection, g, ids[..|acted|], id);
          AllocationsSnoc(ids[..|acted|], id, now);
          drawn := drawn + [Placement(id, rect)];
          acted := acted + [detection];
        }
        i := i + 1;
      }
      assert results[..i] == results;
      assert ids[..|acted|] == ids;
    }

    /** `work` (main.py lines 72-108) for the playback position `position`,
        with the clock at `now`, the detector's `results` for the captured
        frame and `ids`, the overlay ids the player hands out, one per
        detection acted on. */
    method Work(position: Option<real>, now: real, results: seq<Detection>, ids: seq<int>) returns (tick: Tick)
      requires |ids| == |Censored(results, censoredLabels)|
      modifies overlays
      ensures !Active(position) ==> tick == Ignored && overlays.toClear == old(overlays.toClear)
      ensures Active(position) ==>
        var swept := Sweep(old(overlays.toClear), 0, now);
        match ReadGeometry(props)
        case Raise(error) =>
          tick == Raised(Ids(swept.dropped), error) && overlays.toClear == swept.kept
        case Ok(g) =>
          tick == Drew(Ids(swept.dropped), Placements(Censored(results, censoredLabels), g, ids)) &&
          overlays.toClear == swept.kept + Allocations(ids, now)
    {
      if position.None? || position.value <= 0.0 {
        return Ignored;
      }
      var removedIds := overlays.Cleanup(now);
      var geometry := ReadGeometry(props);
      if geometry.Raise? {
        return Raised(removedIds, geometry.error);
      }
      var drawn := DrawCensored(geometry.value, results, now, ids);
      tick := Drew(removedIds, drawn);
    }
  }
}
