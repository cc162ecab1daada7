/** The overlay expiry ledger, `OverlayManager` (main.py lines 21-45): the
    list `to_clear` of `(overlay_id, expiry_time)` pairs, appended to for
    every new overlay and swept by `cleanup`. */
module Overlays {

  /** One `(overlay_id, expiry_time)` pair of `to_clear`. */
  datatype Entry = Entry(id: int, expiresAt: real)

  /** `next_overlay`'s default lifetime, in seconds (main.py line 36). */
  const DefaultExpireIn: real := 2.0

  /** The test of main.py line 32: `cleared <= time.time()`. */
  predicate Expired(e: Entry, now: real)
  {
    e.expiresAt <= now
  }

  /** Position of the first element equal to `e`. */
  function IndexOf(s: seq<Entry>, e: Entry): (k: nat)
    requires e in s
    ensures k < |s| && s[k] == e && e !in s[..k]
  {
    if s[0] == e then 0 else 1 + IndexOf(s[1..], e)
  }

  /** Python's `list.remove(e)`: the first element equal to `e` is taken
      out and the tail shifts down by one. */
  function RemoveFirst(s: seq<Entry>, e: Entry): (r: seq<Entry>)
    requires e in s
    ensures |r| == |s| - 1
  {
    var k := IndexOf(s, e);
    s[..k] + s[k + 1..]
  }

  /** `list.remove` takes out one occurrence of `e` and nothing else. */
  lemma RemoveFirstMultiset(s: seq<Entry>, e: Entry)
    requires e in s
    ensures multiset(s) == multiset(RemoveFirst(s, e)) + multiset{e}
  {
    var k := IndexOf(s, e);
    assert s == s[..k] + [e] + s[k + 1..];
  }

  /** What one `cleanup` pass leaves in `to_clear` and what it takes out, in
      the order it takes them out. */
  datatype Pass = Pass(kept: seq<Entry>, dropped: seq<Entry>)

  /** The `for` loop of `cleanup` (main.py lines 31-34), resumed with the
      list iterator at position `idx`: Python's list iterator reads
      `list[idx]` and advances while `idx < len(list)`, and removing the
      current element inside the body shifts the next one under the
      iterator's already-advanced position. */
  function Sweep(list: seq<Entry>, idx: nat, now: real): (r: Pass)
    ensures |r.kept| + |r.dropped| == |list|
    decreases |list| - idx
  {
    if idx >= |list| then Pass(list, [])
    else if Expired(list[idx], now) then
      var rest := Sweep(RemoveFirst(list, list[idx]), idx + 1, now);
      Pass(rest.kept, [list[idx]] + rest.dropped)
    else Sweep(list, idx + 1, now)
  }

  /** The overlay ids of a run of entries, as `remove_overlay` receives them. */
  function Ids(es: seq<Entry>): (ids: seq<int>)
    ensures |ids| == |es|
    ensures forall k :: 0 <= k < |es| ==> ids[k] == es[k].id
  {
    seq(|es|, k requires 0 <= k < |es| => es[k].id)
  }

  /** The entries that have not expired at `now`, in order. */
  function Live(s: seq<Entry>, now: real): (r: seq<Entry>)
    ensures forall e :: e in r <==> e in s && !Expired(e, now)
  {
    if s == [] then []
    else if Expired(s[0], now) then Live(s[1..], now)
    else [s[0]] + Live(s[1..], now)
  }

  lemma {:induction false} LiveAppend(a: seq<Entry>, b: seq<Entry>, now: real)
    ensures Live(a + b, now) == Live(a, now) + Live(b, now)
    decreases |a|
  {
    if a == [] {
      assert a + b == b;
    } else {
      assert (a + b)[1..] == a[1..] + b;
      LiveAppend(a[1..], b, now);
    }
  }

  /** Removing an expired entry leaves the live entries as they were. */
  lemma RemoveExpiredKeepsLive(s: seq<Entry>, e: Entry, now: real)
    requires e in s && Expired(e, now)
    ensures Live(RemoveFirst(s, e), now) == Live(s, now)
  {
    var k := IndexOf(s, e);
    assert s == s[..k] + ([e] + s[k + 1..]);
    LiveAppend(s[..k], [e] + s[k + 1..], now);
    LiveAppend(s[..k], s[k + 1..], now);
    assert ([e] + s[k + 1..])[1..] == s[k + 1..];
  }

  /** `cleanup` only removes expired entries. */
  lemma {:induction false} SweepDropsOnlyExpired(list: seq<Entry>, idx: nat, now: real)
    ensures forall e :: e in Sweep(list, idx, now).dropped ==> Expired(e, now)
    decreases |list| - idx
  {
    if idx < |list| {
      if Expired(list[idx], now) {
        SweepDropsOnlyExpired(RemoveFirst(list, list[idx]), idx + 1, now);
      } else {
        SweepDropsOnlyExpired(list, idx + 1, now);
      }
    }
  }

  /** Every entry is either kept or dropped, exactly once: `cleanup` loses
      and duplicates nothing. */
  lemma {:induction false} SweepConserves(list: seq<Entry>, idx: nat, now: real)
    ensures multiset(list) == multiset(Sweep(list, idx, now).kept) + multiset(Sweep(list, idx, now).dropped)
    decreases |list| - idx
  {
    if idx < |list| {
      var e := list[idx];
      if Expired(e, now) {
        var shorter := RemoveFirst(list, e);
        var rest := Sweep(shorter, idx + 1, now);
        assert Sweep(list, idx, now) == Pass(rest.kept, [e] + rest.dropped);
        SweepConserves(shorter, idx + 1, now);
        RemoveFirstMultiset(list, e);
        assert multiset([e] + rest.dropped) == multiset{e} + multiset(rest.dropped);
        calc {
          multiset(list);
          multiset(shorter) + multiset{e};
          multiset(rest.kept) + multiset(rest.dropped) + multiset{e};
          multiset(rest.kept) + multiset([e] + rest.dropped);
        }
      } else {
        SweepConserves(list, idx + 1, now);
      }
    }
  }

  /** No entry that is still live is removed, and the live entries keep
      their relative order. */
  lemma {:induction false} SweepKeepsLive(list: seq<Entry>, idx: nat, now: real)
    ensures Live(Sweep(list, idx, now).kept, now) == Live(list, now)
    decreases |list| - idx
  {
    if idx < |list| {
      var e := list[idx];
      if Expired(e, now) {
        SweepKeepsLive(RemoveFirst(list, e), idx + 1, now);
        RemoveExpiredKeepsLive(list, e, now);
      } else {
        SweepKeepsLive(list, idx + 1, now);
      }
    }
  }

  /** The first expired entry of the list is always the first one removed,
      so a pass over a list with any expired entry removes at least one. */
  lemma {:induction false} FirstExpiredIsRemoved(list: seq<Entry>, idx: nat, k: nat, now: real)
    requires idx <= k < |list| && Expired(list[k], now)
    requires forall j :: idx <= j < k ==> !Expired(list[j], now)
    ensures Sweep(list, idx, now).dropped != [] && Sweep(list, idx, now).dropped[0] == list[k]
    decreases k - idx
  {
    if idx < k {
      FirstExpiredIsRemoved(list, idx + 1, k, now);
    }
  }

  /** No entry occurs twice; holds when overlay ids are distinct. */
  predicate Distinct(s: seq<Entry>)
  {
    forall i, j :: 0 <= i < j < |s| ==> s[i] != s[j]
  }

  /** Which entries of the ORIGINAL list one pass removes: an entry is removed
      when it has expired and the entry before it was not removed (or it
      comes first and `afterRemoval` is false). */
  function Marks(s: seq<Entry>, now: real, afterRemoval: bool): (m: seq<bool>)
    ensures |m| == |s|
  {
    if s == [] then []
    else
      var removed := !afterRemoval && Expired(s[0], now);
      [removed] + Marks(s[1..], now, removed)
  }

  /** The entries of `s` whose mark is `which`, in order. */
  function Select(s: seq<Entry>, m: seq<bool>, which: bool): (r: seq<Entry>)
    requires |m| == |s|
    ensures forall e :: e in r ==> e in s
  {
    if s == [] then []
    else (if m[0] == which then [s[0]] else []) + Select(s[1..], m[1..], which)
  }

  /** Index form of `Marks`: entry `k` is removed exactly when it has
      expired and its predecessor was not removed. */
  lemma {:induction false} MarksAt(s: seq<Entry>, now: real, afterRemoval: bool, k: nat)
    requires k < |s|
    ensures Marks(s, now, afterRemoval)[k]
         == (Expired(s[k], now) && !(if k == 0 then afterRemoval else Marks(s, now, afterRemoval)[k - 1]))
    decreases k
  {
    if k > 0 {
      var removed := !afterRemoval && Expired(s[0], now);
      MarksAt(s[1..], now, removed, k - 1);
    }
  }

  /** The head of a list without duplicates is not in its tail, and the
      tail has no duplicates either. */
  lemma DistinctTail(s: seq<Entry>)
    requires Distinct(s) && s != []
    ensures s[0] !in s[1..] && Distinct(s[1..])
  {
  }

  /** `list.remove` of an entry that does not occur before position `|done|`
      takes out exactly that position. */
  lemma RemoveFirstAfter(done: seq<Entry>, rest: seq<Entry>)
    requires rest != [] && rest[0] !in done
    ensures RemoveFirst(done + rest, rest[0]) == done + rest[1..]
  {
    var list := done + rest;
    assert list[|done|] == rest[0];
  }

  /** In a list without duplicates, an entry is selected exactly when its
      mark is the one asked for. */
  lemma {:induction false} SelectAt(s: seq<Entry>, m: seq<bool>, which: bool, k: nat)
    requires Distinct(s) && |m| == |s| && k < |s|
    ensures s[k] in Select(s, m, which) <==> m[k] == which
    decreases k
  {
    DistinctTail(s);
    if k > 0 {
      SelectAt(s[1..], m[1..], which, k - 1);
      assert s[k] == s[1..][k - 1];
    }
  }

  /** The heart of the quirk: with the iterator just after the entries
      `done` (all of them kept), the rest of the pass removes exactly the
      entries `Marks` selects from `rest`. */
  lemma {:induction false} SweepFollowsMarks(done: seq<Entry>, rest: seq<Entry>, now: real)
    requires Distinct(rest)
    requires forall e :: e in rest ==> e !in done
    ensures Sweep(done + rest, |done|, now)
         == Pass(done + Select(rest, Marks(rest, now, false), false), Select(rest, Marks(rest, now, false), true))
    decreases |rest|
  {
    var list := done + rest;
    if rest == [] {
      assert list == done;
      assert done + [] == done;
    } else {
      var r0 := rest[0];
      assert list[|done|] == r0;
      DistinctTail(rest);
      if !Expired(r0, now) {
        SweepAfterKeep(done, rest, now);
      } else {
        RemoveFirstAfter(done, rest);
        if rest[1..] == [] {
          assert done + rest[1..] == done;
        } else {
          SweepAfterRemoval(done, rest, now);
        }
      }
    }
  }

  /** The keep case of `SweepFollowsMarks`: a live entry stays and the pass
      moves on to the next one. */
  lemma {:induction false} SweepAfterKeep(done: seq<Entry>, rest: seq<Entry>, now: real)
    requires rest != [] && Distinct(rest) && !Expired(rest[0], now)
    requires forall e :: e in rest ==> e !in done
    ensures Sweep(done + rest, |done| + 1, now)
         == Pass(done + Select(rest, Marks(rest, now, false), false), Select(rest, Marks(rest, now, false), true))
    decreases |rest|, 0
  {
    var done' := done + [rest[0]];
    assert done' + rest[1..] == done + rest;
    DistinctTail(rest);
    SweepFollowsMarks(done', rest[1..], now);
    assert Marks(rest, now, false) == [false] + Marks(rest[1..], now, false);
  }

  /** The removal case of `SweepFollowsMarks`: the entry after a removed one
      is skipped and the pass resumes behind it. */
  lemma {:induction false} SweepAfterRemoval(done: seq<Entry>, rest: seq<Entry>, now: real)
    requires |rest| >= 2 && Distinct(rest) && Expired(rest[0], now)
    requires forall e :: e in rest ==> e !in done
    ensures Sweep(done + rest[1..], |done| + 1, now)
         == Pass(done + Select(rest, Marks(rest, now, false), false), Select(rest[1..], Marks(rest[1..], now, true), true))
    decreases |rest|, 0
  {
    var r1 := rest[1];
    var done' := done + [r1];
    assert done' + rest[2..] == done + rest[1..];
    DistinctTail(rest);
    DistinctTail(rest[1..]);
    assert rest[1..][1..] == rest[2..];
    assert forall e :: e in rest[2..] ==> e in rest;
    SweepFollowsMarks(done', rest[2..], now);
    assert Marks(rest[1..], now, true) == [false] + Marks(rest[2..], now, false);
    assert Marks(rest, now, false) == [true] + Marks(rest[1..], now, true);
  }

  /** On a ledger without duplicates, one `cleanup` pass keeps and removes
      exactly the entries `Marks` says. */
  lemma CleanupFollowsMarks(s: seq<Entry>, now: real)
    requires Distinct(s)
    ensures Sweep(s, 0, now) == Pass(Select(s, Marks(s, now, false), false), Select(s, Marks(s, now, false), true))
  {
    SweepFollowsMarks([], s, now);
    assert [] + s == s;
  }

  /** Because `to_clear` is mutated while a `for` loop walks it, an expired
      entry survives a pass exactly when the entry just before it was
      removed in that pass; an expired first entry is always removed. */
  lemma CleanupSkipsSuccessorOfRemoved(s: seq<Entry>, now: real, k: nat)
    requires Distinct(s) && k < |s| && Expired(s[k], now)
    ensures k == 0 ==> s[k] in Sweep(s, 0, now).dropped
    ensures k > 0 ==> (s[k] in Sweep(s, 0, now).kept <==> s[k - 1] in Sweep(s, 0, now).dropped)
  {
    var m := Marks(s, now, false);
    CleanupFollowsMarks(s, now);
    MarksAt(s, now, false, k);
    SelectAt(s, m, true, k);
    SelectAt(s, m, false, k);
    if k > 0 {
      SelectAt(s, m, true, k - 1);
    }
  }

  /** On a list whose entries have all expired, removals and skips
      alternate, starting with a removal unless the previous entry was
      removed; so the removals are the ceiling of n/2, or the floor after a
      removal. */
  lemma {:induction false} AllExpiredMarkCount(s: seq<Entry>, now: real, afterRemoval: bool)
    requires forall k :: 0 <= k < |s| ==> Expired(s[k], now)
    ensures forall k :: 0 <= k < |s| ==>
      Marks(s, now, afterRemoval)[k] == (k % 2 == (if afterRemoval then 1 else 0))
    ensures |Select(s, Marks(s, now, afterRemoval), true)| == if afterRemoval then |s| / 2 else (|s| + 1) / 2
    decreases |s|
  {
    if s != [] {
      AllExpiredMarkCount(s[1..], now, !afterRemoval);
      var m := Marks(s, now, afterRemoval);
      assert m == [!afterRemoval] + Marks(s[1..], now, !afterRemoval);
      forall k | 0 <= k < |s|
        ensures m[k] == (k % 2 == (if afterRemoval then 1 else 0))
      {
        if k > 0 {
          assert m[k] == Marks(s[1..], now, !afterRemoval)[k - 1];
          assert s[1..][k - 1] == s[k];
        }
      }
    }
  }

  /** With n entries, all expired and none duplicated, one pass removes
      exactly the ceiling of n/2 of them and leaves the floor of n/2. */
  lemma AllExpiredHalfRemoved(s: seq<Entry>, now: real)
    requires Distinct(s)
    requires forall k :: 0 <= k < |s| ==> Expired(s[k], now)
    ensures |Sweep(s, 0, now).dropped| == (|s| + 1) / 2
    ensures |Sweep(s, 0, now).kept| == |s| / 2
  {
    CleanupFollowsMarks(s, now);
    AllExpiredMarkCount(s, now, false);
    SweepConserves(s, 0, now);
    assert |multiset(s)| == |multiset(Sweep(s, 0, now).kept)| + |multiset(Sweep(s, 0, now).dropped)|;
  }

  /** A pass over a ledger holding any expired entry removes at least one
      entry, so ticks at a fixed `now` eventually retire every expired overlay. */
  lemma {:induction false} SweepMakesProgress(list: seq<Entry>, idx: nat, k: nat, now: real)
    requires idx <= k < |list| && Expired(list[k], now)
    ensures |Sweep(list, idx, now).kept| < |list|
    decreases k - idx
  {
    if Expired(list[idx], now) {
      SweepConserves(list, idx, now);
      assert |multiset(list)| == |multiset(Sweep(list, idx, now).kept)| + |multiset(Sweep(list, idx, now).dropped)|;
    } else {
      SweepMakesProgress(list, idx + 1, k, now);
    }
  }

  /** Selecting from a list without duplicates gives a list without duplicates. */
  lemma {:induction false} SelectDistinct(s: seq<Entry>, m: seq<bool>, which: bool)
    requires Distinct(s) && |m| == |s|
    ensures Distinct(Select(s, m, which))
    decreases |s|
  {
    if s != [] {
      DistinctTail(s);
      SelectDistinct(s[1..], m[1..], which);
    }
  }

  /** `cleanup` keeps a ledger free of duplicates. */
  lemma CleanupKeepsDistinct(s: seq<Entry>, now: real)
    requires Distinct(s)
    ensures Distinct(Sweep(s, 0, now).kept)
  {
    CleanupFollowsMarks(s, now);
    SelectDistinct(s, Marks(s, now, false), false);
  }

  /** `next_overlay` keeps the ledger free of duplicates when the player's
      new id is not already tracked. */
  lemma AppendFreshKeepsDistinct(s: seq<Entry>, id: int, expiresAt: real)
    requires Distinct(s)
    requires forall k :: 0 <= k < |s| ==> s[k].id != id
    ensures Distinct(s + [Entry(id, expiresAt)])
  {
  }

  /** Two overlays that expired together: the pass removes the first and
      skips the second, although both are due. */
  lemma TwoExpiredOneSurvives()
    ensures Sweep([Entry(1, 0.0), Entry(2, 0.0)], 0, 1.0) == Pass([Entry(2, 0.0)], [Entry(1, 0.0)])
    ensures Live([Entry(1, 0.0), Entry(2, 0.0)], 1.0) == []
  {
    var s := [Entry(1, 0.0), Entry(2, 0.0)];
    assert IndexOf(s, Entry(1, 0.0)) == 0;
    assert RemoveFirst(s, Entry(1, 0.0)) == [Entry(2, 0.0)];
    assert Sweep([Entry(2, 0.0)], 1, 1.0) == Pass([Entry(2, 0.0)], []);
    assert Sweep(s, 0, 1.0) == Pass([Entry(2, 0.0)], [Entry(1, 0.0)] + []);
  }

  class OverlayManager {
    /** `to_clear`: the overlays handed out and not yet removed, each with
        its expiry time. */
    var toClear: seq<Entry>

    constructor ()
      ensures toClear == []
    {
      toClear := [];
    }

    /** `cleanup` (main.py lines 27-34), with the clock read once as `now`.
        Returns the ids passed to `remove_overlay`, in call order. */
    method Cleanup(now: real) returns (removedIds: seq<int>)
      modifies this
      ensures toClear == Sweep(old(toClear), 0, now).kept
      ensures removedIds == Ids(Sweep(old(toClear), 0, now).dropped)
    {
      removedIds := [];
      ghost var dropped: seq<Entry> := [];
      var idx := 0;
      while idx < |toClear|
        invariant idx <= |toClear| + 1
        invariant Sweep(old(toClear), 0, now)
               == Pass(Sweep(toClear, idx, now).kept, dropped + Sweep(toClear, idx, now).dropped)
        invariant removedIds == Ids(dropped)
        decreases |toClear| + 1 - idx
      {
        ghost var before, at := toClear, idx;
        var entry := toClear[idx];
        idx := idx + 1;
        if Expired(entry, now) {
          removedIds := removedIds + [entry.id];
          assert Ids(dropped + [entry]) == Ids(dropped) + [entry.id];
          dropped := dropped + [entry];
          var k := IndexOf(toClear, entry);
          toClear := toClear[..k] + toClear[k + 1..];
          assert toClear == RemoveFirst(before, entry);
          assert Sweep(before, at, now)
              == Pass(Sweep(toClear, idx, now).kept, [entry] + Sweep(toClear, idx, now).dropped);
        } else {
          assert Sweep(before, at, now) == Sweep(toClear, idx, now);
        }
      }
    }

    /** `next_overlay` (main.py lines 36-45): the player hands out the
        overlay `id`; its expiry is recorded at the end of `to_clear`. */
    method NextOverlay(id: int, now: real, expireIn: real := DefaultExpireIn) returns (overlayId: int)
      modifies this
      ensures toClear == old(toClear) + [Entry(id, now + expireIn)]
      ensures overlayId == id
    {
      toClear := toClear + [Entry(id, now + expireIn)];
      overlayId := id;
    }
  }
}
