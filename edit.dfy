/** The editing model of a demo: clips are sliced by cuts, cuts are laid
    out on tracks, and a timeline gathers tracks together with an index of
    regions telling which cuts are active at any time. */
module Edit {

  /** Time, in seconds. */
  type Time = real

  /** A clip: the visual sequence a cut slices. Only its identity matters
      here. */
  datatype Clip = Clip(handle: nat)

  /** A cut slices `clip` between `inTime` and `outTime` and is placed on a
      track at `instTime`. */
  datatype Cut = Cut(inTime: Time, outTime: Time, instTime: Time, clip: Clip) {
    /** Where the cut begins on its track. */
    function Start(): Time { instTime }

    /** Where the cut ends on its track: its start plus the sliced length. */
    function End(): Time { instTime + (outTime - inTime) }

    /** The cut is active on the half-open window `[Start(), End())`. */
    predicate ActiveAt(t: Time) { Start() <= t < End() }
  }

  /** `Cut::new`: the fields are stored as given, without validation, so a
      cut sliced backwards is never active. */
  function NewCut(inTime: Time, outTime: Time, instTime: Time, clip: Clip): (c: Cut)
    ensures c.inTime == inTime && c.outTime == outTime && c.instTime == instTime && c.clip == clip
    ensures forall t :: c.ActiveAt(t) ==> inTime < outTime && instTime <= t
  {
    Cut(inTime, outTime, instTime, clip)
  }

  /** A track: an append-only list of cuts. */
  class Track {
    var cuts: seq<Cut>

    /** `Track::new`: no cuts. */
    constructor ()
      ensures cuts == []
    {
      cuts := [];
    }

    /** `Track::from`: a copy of the given cuts, in order. */
    constructor FromCuts(cs: seq<Cut>)
      ensures cuts == cs
    {
      cuts := cs;
    }

    /** `add_cut`: one cut more, at the end. */
    method AddCut(cut: Cut)
      modifies this
      ensures cuts == old(cuts) + [cut]
    {
      cuts := cuts + [cut];
    }
  }

  // ---------------------------------------------------------------------
  // Regions and the brute-force oracle
  // ---------------------------------------------------------------------

  /** A cut of a timeline, named by its track and its position there. */
  datatype CutRef = CutRef(track: nat, index: nat)

  /** A region of the timeline and the cuts active all over it. */
  datatype TrackCross = TrackCross(inTime: Time, outTime: Time, cuts: set<CutRef>) {
    predicate Covers(t: Time) { inTime <= t < outTime }
  }

  predicate ValidRef(tracks: seq<seq<Cut>>, r: CutRef) {
    r.track < |tracks| && r.index < |tracks[r.track]|
  }

  /** The cuts of all tracks active at `t`, by scanning every cut. */
  function ActiveCuts(tracks: seq<seq<Cut>>, t: Time): (s: set<CutRef>)
    ensures forall r :: r in s <==> ValidRef(tracks, r) && tracks[r.track][r.index].ActiveAt(t)
  {
    set i, j | 0 <= i < |tracks| && 0 <= j < |tracks[i]| && tracks[i][j].ActiveAt(t) :: CutRef(i, j)
  }

  /** The regions, in ascending order, are non-empty and pairwise disjoint,
      each holds exactly the cuts active all over it, and every time at
      which some cut is active lies in a region. */
  ghost predicate RegionIndex(tracks: seq<seq<Cut>>, xs: seq<TrackCross>) {
    WellFormed(tracks, xs) && CoveredBelow(tracks, xs, Unbounded)
  }

  ghost predicate WellFormed(tracks: seq<seq<Cut>>, xs: seq<TrackCross>) {
    && (forall i :: 0 <= i < |xs| ==> xs[i].inTime < xs[i].outTime && xs[i].cuts != {})
    && (forall i, j :: 0 <= i < j < |xs| ==> xs[i].outTime <= xs[j].inTime)
    && (forall i, t :: 0 <= i < |xs| && xs[i].Covers(t) ==> xs[i].cuts == ActiveCuts(tracks, t))
  }

  datatype Bound = Unbounded | Below(t: Time)

  /** Every time (below `bound`, when there is one) at which a cut is active
      lies in one of the regions. */
  ghost predicate CoveredBelow(tracks: seq<seq<Cut>>, xs: seq<TrackCross>, bound: Bound) {
    forall t :: (bound.Below? ==> t < bound.t) && ActiveCuts(tracks, t) != {} ==>
      exists i :: 0 <= i < |xs| && xs[i].Covers(t)
  }

  /** No time lies in two regions. */
  lemma RegionsDisjoint(tracks: seq<seq<Cut>>, xs: seq<TrackCross>, i: nat, j: nat)
    requires RegionIndex(tracks, xs)
    requires i < j < |xs|
    ensures xs[i].inTime < xs[i].outTime <= xs[j].inTime < xs[j].outTime
    ensures forall t :: !(xs[i].Covers(t) && xs[j].Covers(t))
  {
    assert xs[i].outTime <= xs[j].inTime;
  }

  // ---------------------------------------------------------------------
  // Events
  // ---------------------------------------------------------------------

  /** At equal times, end events sort before start events. */
  datatype EventKind = End | Start

  datatype Event = Event(time: Time, kind: EventKind, cut: CutRef)

  /** `e` is the start or the end event of a cut with a non-empty window. */
  predicate IsEventOf(tracks: seq<seq<Cut>>, e: Event) {
    ValidRef(tracks, e.cut)
    && var c := tracks[e.cut.track][e.cut.index];
    c.inTime < c.outTime && e.time == (if e.kind == Start then c.Start() else c.End())
  }

  /** `es` holds exactly the events of the cuts of `tracks`. */
  ghost predicate Complete(tracks: seq<seq<Cut>>, es: seq<Event>) {
    forall e :: e in es <==> IsEventOf(tracks, e)
  }

  /** The order of events: by time, and end before start at equal times. */
  predicate EventLessEq(a: Event, b: Event) {
    a.time < b.time || (a.time == b.time && (a.kind == End || b.kind == Start))
  }

  predicate Sorted(es: seq<Event>) {
    forall i, j :: 0 <= i < j < |es| ==> EventLessEq(es[i], es[j])
  }

  /** The cuts started and ended by a run of events. */
  function Started(es: seq<Event>): set<CutRef> {
    set e | e in es && e.kind == Start :: e.cut
  }

  function Ended(es: seq<Event>): set<CutRef> {
    set e | e in es && e.kind == End :: e.cut
  }

  /** The start and end events of every cut with a non-empty window. A cut
      whose window is empty is never active and gives no event. */
  method CollectEvents(tracks: seq<seq<Cut>>) returns (es: seq<Event>)
    ensures Complete(tracks, es)
  {
    es := [];
    for i := 0 to |tracks|
      invariant forall e :: e in es <==> IsEventOf(tracks, e) && e.cut.track < i
    {
      for j := 0 to |tracks[i]|
        invariant forall e :: e in es <==>
                    IsEventOf(tracks, e) && (e.cut.track < i || (e.cut.track == i && e.cut.index < j))
      {
        var c := tracks[i][j];
        if c.inTime < c.outTime {
          es := es + [Event(c.Start(), Start, CutRef(i, j)), Event(c.End(), End, CutRef(i, j))];
        }
      }
    }
  }

  /** Insertion of one event into a sorted run, after every event that does
      not come after it. */
  method InsertEvent(s: seq<Event>, e: Event) returns (r: seq<Event>)
    requires Sorted(s)
    ensures Sorted(r) && multiset(r) == multiset(s) + multiset{e}
  {
    var p := 0;
    while p < |s| && EventLessEq(s[p], e)
      invariant 0 <= p <= |s|
      invariant forall i :: 0 <= i < p ==> EventLessEq(s[i], e)
    {
      p := p + 1;
    }
    InsertSorted(s, e, p);
    r := s[..p] + [e] + s[p..];
    assert s == s[..p] + s[p..];
  }

  /** Putting `e` between the events not after it and those after it keeps
      a run sorted. */
  lemma InsertSorted(s: seq<Event>, e: Event, p: nat)
    requires Sorted(s) && p <= |s|
    requires forall i :: 0 <= i < p ==> EventLessEq(s[i], e)
    requires p < |s| ==> EventLessEq(e, s[p])
    ensures Sorted(s[..p] + [e] + s[p..])
  {
    var r := s[..p] + [e] + s[p..];
    assert forall k :: 0 <= k < |r| ==> r[k] == if k < p then s[k] else if k == p then e else s[k - 1];
    forall i, j | 0 <= i < j < |r|
      ensures EventLessEq(r[i], r[j])
    {
      assert j - 1 > p ==> EventLessEq(s[p], s[j - 1]);
    }
  }

  /** The events sorted by time, end before start at equal times. */
  method SortEvents(es: seq<Event>) returns (sorted: seq<Event>)
    ensures Sorted(sorted) && multiset(sorted) == multiset(es)
  {
    sorted := [];
    for i := 0 to |es|
      invariant Sorted(sorted) && multiset(sorted) == multiset(es[..i])
    {
      assert es[..i + 1] == es[..i] + [es[i]];
      sorted := InsertEvent(sorted, es[i]);
    }
    assert es[..|es|] == es;
  }

  // ---------------------------------------------------------------------
  // The sweep
  // ---------------------------------------------------------------------

  /** The events before `k` are those at or before any `t` between event
      `k - 1` and event `k`. */
  lemma PrefixByTime(es: seq<Event>, k: nat, t: Time)
    requires Sorted(es) && k <= |es|
    requires k > 0 ==> es[k - 1].time <= t
    requires k < |es| ==> t < es[k].time
    ensures forall e :: e in es[..k] <==> e in es && e.time <= t
  {
    forall n | 0 <= n < k
      ensures es[n].time <= t
    {
      assert n < k - 1 ==> EventLessEq(es[n], es[k - 1]);
    }
    forall n | k <= n < |es|
      ensures t < es[n].time
    {
      assert n > k ==> EventLessEq(es[k], es[n]);
    }
    assert forall n :: 0 <= n < k ==> es[..k][n] == es[n];
    forall e | e in es && e.time <= t
      ensures e in es[..k]
    {
      var m :| 0 <= m < |es| && es[m] == e;
      assert es[..k][m] == e;
    }
  }

  /** Between event `k - 1` and event `k`, the cuts started and not ended by
      the first `k` events are exactly the cuts active. */
  lemma PrefixActive(tracks: seq<seq<Cut>>, es: seq<Event>, k: nat, t: Time)
    requires Complete(tracks, es) && Sorted(es) && k <= |es|
    requires k > 0 ==> es[k - 1].time <= t
    requires k < |es| ==> t < es[k].time
    ensures Started(es[..k]) - Ended(es[..k]) == ActiveCuts(tracks, t)
  {
    PrefixByTime(es, k, t);
    var pre := es[..k];
    forall r | r in ActiveCuts(tracks, t)
      ensures r in Started(pre) && r !in Ended(pre)
    {
      var c := tracks[r.track][r.index];
      var s := Event(c.Start(), Start, r);
      assert IsEventOf(tracks, s) && s in pre;
      forall f | f in pre && f.kind == End
        ensures f.cut != r
      {
        assert IsEventOf(tracks, f);
      }
    }
    forall r | r in Started(pre) && r !in Ended(pre)
      ensures r in ActiveCuts(tracks, t)
    {
      var s :| s in pre && s.kind == Start && s.cut == r;
      assert IsEventOf(tracks, s);
      var c := tracks[r.track][r.index];
      var f := Event(c.End(), End, r);
      assert IsEventOf(tracks, f);
      assert f !in pre;
    }
  }

  /** Processing event `k` adds the cut it starts or removes the cut it
      ends. */
  lemma ActiveStep(tracks: seq<seq<Cut>>, es: seq<Event>, k: nat)
    requires Complete(tracks, es) && Sorted(es) && k < |es|
    ensures Started(es[..k + 1]) - Ended(es[..k + 1]) ==
            if es[k].kind == Start then (Started(es[..k]) - Ended(es[..k])) + {es[k].cut}
            else (Started(es[..k]) - Ended(es[..k])) - {es[k].cut}
  {
    var e := es[k];
    assert es[..k + 1] == es[..k] + [e];
    assert Started(es[..k + 1]) == Started(es[..k]) + (if e.kind == Start then {e.cut} else {});
    assert Ended(es[..k + 1]) == Ended(es[..k]) + (if e.kind == End then {e.cut} else {});
    if e.kind == Start {
      assert IsEventOf(tracks, e);
      forall f | f in es[..k] && f.kind == End
        ensures f.cut != e.cut
      {
        var n :| 0 <= n < k && es[..k][n] == f;
        assert EventLessEq(es[n], es[k]);
        assert IsEventOf(tracks, f);
      }
    }
  }

  /** Every cut started by the events is also ended by them. */
  lemma AllEnded(tracks: seq<seq<Cut>>, es: seq<Event>)
    requires Complete(tracks, es)
    ensures Started(es) - Ended(es) == {}
  {
    forall r | r in Started(es)
      ensures r in Ended(es)
    {
      var s :| s in es && s.kind == Start && s.cut == r;
      assert IsEventOf(tracks, s);
      var c := tracks[r.track][r.index];
      assert IsEventOf(tracks, Event(c.End(), End, r));
    }
  }

  /** A region appended after the last one keeps the regions well formed. */
  lemma WellFormedSnoc(tracks: seq<seq<Cut>>, xs: seq<TrackCross>, x: TrackCross)
    requires WellFormed(tracks, xs)
    requires forall i :: 0 <= i < |xs| ==> xs[i].outTime <= x.inTime
    requires x.inTime < x.outTime && x.cuts != {}
    requires forall t :: x.Covers(t) ==> x.cuts == ActiveCuts(tracks, t)
    ensures WellFormed(tracks, xs + [x])
  {
    var ys := xs + [x];
    assert forall i :: 0 <= i < |xs| ==> ys[i] == xs[i];
  }

  /** Coverage below `b` extends to `b'` when the new region covers
      `[b, b')`, or when nothing is active there. */
  lemma CoveredSnoc(tracks: seq<seq<Cut>>, xs: seq<TrackCross>, ys: seq<TrackCross>, b: Time, b': Time)
    requires CoveredBelow(tracks, xs, Below(b)) && xs <= ys
    requires forall t :: b <= t < b' && ActiveCuts(tracks, t) != {} ==> exists i :: 0 <= i < |ys| && ys[i].Covers(t)
    ensures CoveredBelow(tracks, ys, Below(b'))
  {
    forall t | t < b' && ActiveCuts(tracks, t) != {}
      ensures exists i :: 0 <= i < |ys| && ys[i].Covers(t)
    {
      if t < b {
        var i :| 0 <= i < |xs| && xs[i].Covers(t);
        assert ys[i] == xs[i];
      }
    }
  }

  /** Neighbouring regions that touch hold different cuts: a region ends
      only where the active set changes. */
  ghost predicate Minimal(xs: seq<TrackCross>) {
    forall i :: 0 <= i < |xs| - 1 && xs[i].outTime == xs[i + 1].inTime ==> xs[i].cuts != xs[i + 1].cuts
  }

  /** At the time of an event the active set differs from the one just
      before it. */
  lemma EventChanges(tracks: seq<seq<Cut>>, e: Event, a: Time, s: set<CutRef>)
    requires IsEventOf(tracks, e) && a < e.time
    requires forall t :: a <= t < e.time ==> ActiveCuts(tracks, t) == s
    ensures ActiveCuts(tracks, e.time) != s
  {
    var r := e.cut;
    var c := tracks[r.track][r.index];
    if e.kind == Start {
      assert r in ActiveCuts(tracks, e.time) && r !in ActiveCuts(tracks, a);
    } else {
      var t := if c.Start() > a then c.Start() else a;
      assert r in ActiveCuts(tracks, t) && r !in ActiveCuts(tracks, e.time);
    }
  }

  /** The state of the sweep after `k` events. */
  ghost predicate SweepInvariant(tracks: seq<seq<Cut>>, es: seq<Event>, k: nat, xs: seq<TrackCross>,
                                 active: set<CutRef>, prev: Time)
    requires k <= |es|
  {
    && active == Started(es[..k]) - Ended(es[..k])
    && WellFormed(tracks, xs) && Minimal(xs)
    && (k == 0 ==> xs == [])
    && (k > 0 ==> (prev == es[k - 1].time
                   && (forall i :: 0 <= i < |xs| ==> xs[i].outTime <= prev)
                   && CoveredBelow(tracks, xs, Below(prev))))
  }

  /** The stretch closed by event `k`, as a region when it is one. */
  function Closed(es: seq<Event>, k: nat, xs: seq<TrackCross>, active: set<CutRef>, prev: Time): seq<TrackCross>
    requires k < |es|
  {
    if k > 0 && prev < es[k].time && active != {} then xs + [TrackCross(prev, es[k].time, active)] else xs
  }

  /** The active set after event `k`. */
  function Apply(e: Event, active: set<CutRef>): set<CutRef> {
    if e.kind == Start then active + {e.cut} else active - {e.cut}
  }

  /** Between the previous event and event `k` the active cuts are those
      of the running set. */
  lemma StretchActive(tracks: seq<seq<Cut>>, es: seq<Event>, k: nat, active: set<CutRef>, prev: Time)
    requires Complete(tracks, es) && Sorted(es) && k < |es|
    requires active == Started(es[..k]) - Ended(es[..k])
    requires k > 0 ==> prev == es[k - 1].time
    ensures forall t :: (k > 0 ==> prev <= t) && t < es[k].time ==> ActiveCuts(tracks, t) == active
  {
    forall t | (k > 0 ==> prev <= t) && t < es[k].time
      ensures ActiveCuts(tracks, t) == active
    {
      PrefixActive(tracks, es, k, t);
    }
  }

  /** A region appended after the last one keeps the regions minimal when
      it differs from a last region it touches. */
  lemma MinimalSnoc(xs: seq<TrackCross>, x: TrackCross)
    requires Minimal(xs)
    requires |xs| > 0 && xs[|xs| - 1].outTime == x.inTime ==> xs[|xs| - 1].cuts != x.cuts
    ensures Minimal(xs + [x])
  {
    var ys := xs + [x];
    assert forall i :: 0 <= i < |xs| ==> ys[i] == xs[i];
  }

  /** Closing a stretch keeps the regions well formed and minimal. */
  lemma ClosedShape(tracks: seq<seq<Cut>>, es: seq<Event>, k: nat, xs: seq<TrackCross>,
                    active: set<CutRef>, prev: Time)
    requires Complete(tracks, es) && 0 < k < |es| && prev == es[k - 1].time
    requires WellFormed(tracks, xs) && Minimal(xs)
    requires forall i :: 0 <= i < |xs| ==> xs[i].outTime <= prev
    requires forall t :: prev <= t < es[k].time ==> ActiveCuts(tracks, t) == active
    ensures WellFormed(tracks, Closed(es, k, xs, active, prev)) && Minimal(Closed(es, k, xs, active, prev))
  {
    if prev < es[k].time && active != {} {
      var x := TrackCross(prev, es[k].time, active);
      WellFormedSnoc(tracks, xs, x);
      if |xs| > 0 && xs[|xs| - 1].outTime == prev {
        var last := xs[|xs| - 1];
        assert es[k - 1] in es;
        assert last.Covers(last.inTime);
        EventChanges(tracks, es[k - 1], last.inTime, last.cuts);
      }
      MinimalSnoc(xs, x);
    }
  }

  /** Closing a stretch extends the coverage up to event `k`. */
  lemma ClosedCovered(tracks: seq<seq<Cut>>, es: seq<Event>, k: nat, xs: seq<TrackCross>,
                      active: set<CutRef>, prev: Time)
    requires k < |es|
    requires k > 0 ==> CoveredBelow(tracks, xs, Below(prev))
    requires forall t :: (k > 0 ==> prev <= t) && t < es[k].time ==> ActiveCuts(tracks, t) == active
    requires k == 0 ==> active == {}
    ensures CoveredBelow(tracks, Closed(es, k, xs, active, prev), Below(es[k].time))
  {
    var ys := Closed(es, k, xs, active, prev);
    if k > 0 {
      if prev < es[k].time && active != {} {
        forall t | prev <= t < es[k].time && ActiveCuts(tracks, t) != {}
          ensures exists i :: 0 <= i < |ys| && ys[i].Covers(t)
        {
          assert ys[|ys| - 1].Covers(t);
        }
      }
      CoveredSnoc(tracks, xs, ys, prev, es[k].time);
    }
  }

  /** One step of the sweep keeps its invariant. */
  lemma SweepStep(tracks: seq<seq<Cut>>, es: seq<Event>, k: nat, xs: seq<TrackCross>,
                  active: set<CutRef>, prev: Time)
    requires Complete(tracks, es) && Sorted(es) && k < |es|
    requires SweepInvariant(tracks, es, k, xs, active, prev)
    ensures SweepInvariant(tracks, es, k + 1, Closed(es, k, xs, active, prev), Apply(es[k], active), es[k].time)
  {
    StretchActive(tracks, es, k, active, prev);
    if k > 0 {
      ClosedShape(tracks, es, k, xs, active, prev);
    }
    ClosedCovered(tracks, es, k, xs, active, prev);
    ActiveStep(tracks, es, k);
  }

  /** Past the last event nothing is active. */
  lemma SweepEnd(tracks: seq<seq<Cut>>, es: seq<Event>, xs: seq<TrackCross>, active: set<CutRef>, prev: Time)
    requires Complete(tracks, es) && Sorted(es)
    requires SweepInvariant(tracks, es, |es|, xs, active, prev)
    ensures RegionIndex(tracks, xs) && Minimal(xs)
  {
    assert es[..|es|] == es;
    forall t | (|es| > 0 ==> prev <= t)
      ensures ActiveCuts(tracks, t) == {}
    {
      PrefixActive(tracks, es, |es|, t);
      AllEnded(tracks, es);
    }
  }

  /** The sweep: walking the sorted events with the set of active cuts,
      each stretch between two distinct event times with a non-empty active
      set becomes a region. */
  method SweepEvents(ghost tracks: seq<seq<Cut>>, es: seq<Event>) returns (xs: seq<TrackCross>)
    requires Complete(tracks, es) && Sorted(es)
    ensures RegionIndex(tracks, xs) && Minimal(xs)
  {
    xs := [];
    var active: set<CutRef> := {};
    var prev: Time := 0.0;
    for k := 0 to |es|
      invariant SweepInvariant(tracks, es, k, xs, active, prev)
    {
      var e := es[k];
      SweepStep(tracks, es, k, xs, active, prev);
      if k > 0 && prev < e.time && active != {} {
        xs := xs + [TrackCross(prev, e.time, active)];
      }
      active := if e.kind == Start then active + {e.cut} else active - {e.cut};
      prev := e.time;
    }
    SweepEnd(tracks, es, xs, active, prev);
  }

  /** The region index of the cuts of `tracks`. */
  method BuildRegionIndex(tracks: seq<seq<Cut>>) returns (xs: seq<TrackCross>)
    ensures RegionIndex(tracks, xs) && Minimal(xs)
  {
    var events := CollectEvents(tracks);
    var sorted := SortEvents(events);
    assert forall e :: e in sorted <==> e in events by {
      assert forall e :: e in sorted <==> e in multiset(sorted);
      assert forall e :: e in events <==> e in multiset(events);
    }
    xs := SweepEvents(tracks, sorted);
  }

  // ---------------------------------------------------------------------
  // Uniqueness of the minimal region index
  // ---------------------------------------------------------------------

  /** Every time from `b` on at which a cut is active lies in a region, and
      no region starts before `b`. */
  ghost predicate CoveredFrom(tracks: seq<seq<Cut>>, xs: seq<TrackCross>, b: Time) {
    && (forall i :: 0 <= i < |xs| ==> b <= xs[i].inTime)
    && (forall t :: b <= t && ActiveCuts(tracks, t) != {} ==> exists i :: 0 <= i < |xs| && xs[i].Covers(t))
  }

  /** The cuts of a region are active at its start. */
  lemma RegionStartActive(tracks: seq<seq<Cut>>, xs: seq<TrackCross>, i: nat)
    requires WellFormed(tracks, xs) && i < |xs|
    ensures ActiveCuts(tracks, xs[i].inTime) == xs[i].cuts != {}
  {
    assert xs[i].Covers(xs[i].inTime);
  }

  /** The first region starts no later than any covered time. */
  lemma FirstStart(tracks: seq<seq<Cut>>, xs: seq<TrackCross>, j: nat, t: Time)
    requires WellFormed(tracks, xs) && j < |xs| && xs[j].Covers(t)
    ensures xs[0].inTime <= t
  {
    assert j > 0 ==> xs[0].outTime <= xs[j].inTime;
  }

  /** The active set changes where the first region ends: a minimal index
      never ends a region early. */
  lemma FirstEnd(tracks: seq<seq<Cut>>, xs: seq<TrackCross>, b: Time)
    requires WellFormed(tracks, xs) && Minimal(xs) && CoveredFrom(tracks, xs, b) && |xs| > 0
    ensures ActiveCuts(tracks, xs[0].outTime) != xs[0].cuts
  {
    var t := xs[0].outTime;
    forall i | 2 <= i < |xs|
      ensures !xs[i].Covers(t)
    {
      assert xs[0].outTime <= xs[1].inTime && xs[1].outTime <= xs[i].inTime;
    }
    if ActiveCuts(tracks, t) != {} {
      var j :| 0 <= j < |xs| && xs[j].Covers(t);
      assert xs[0].outTime <= xs[j].inTime;
    }
  }

  /** Dropping the first region leaves a minimal index of the rest of time. */
  lemma DropFirst(tracks: seq<seq<Cut>>, xs: seq<TrackCross>, b: Time)
    requires WellFormed(tracks, xs) && Minimal(xs) && CoveredFrom(tracks, xs, b) && |xs| > 0
    ensures WellFormed(tracks, xs[1..]) && Minimal(xs[1..]) && CoveredFrom(tracks, xs[1..], xs[0].outTime)
  {
    var tl := xs[1..];
    assert forall i :: 0 <= i < |tl| ==> tl[i] == xs[i + 1];
    forall t | xs[0].outTime <= t && ActiveCuts(tracks, t) != {}
      ensures exists i :: 0 <= i < |tl| && tl[i].Covers(t)
    {
      var j :| 0 <= j < |xs| && xs[j].Covers(t);
      assert tl[j - 1] == xs[j];
    }
  }

  /** Two indexes of the same cuts from `b` on are both empty or both not. */
  lemma BothEmpty(tracks: seq<seq<Cut>>, xs: seq<TrackCross>, ys: seq<TrackCross>, b: Time)
    requires WellFormed(tracks, xs) && CoveredFrom(tracks, xs, b)
    requires WellFormed(tracks, ys) && CoveredFrom(tracks, ys, b)
    ensures |xs| > 0 <==> |ys| > 0
  {
    if |xs| > 0 {
      RegionStartActive(tracks, xs, 0);
      assert exists i :: 0 <= i < |ys| && ys[i].Covers(xs[0].inTime);
    }
    if |ys| > 0 {
      RegionStartActive(tracks, ys, 0);
      assert exists j :: 0 <= j < |xs| && xs[j].Covers(ys[0].inTime);
    }
  }

  /** Two minimal indexes of the same cuts from `b` on begin with the same
      region. */
  lemma SameFirst(tracks: seq<seq<Cut>>, xs: seq<TrackCross>, ys: seq<TrackCross>, b: Time)
    requires WellFormed(tracks, xs) && Minimal(xs) && CoveredFrom(tracks, xs, b) && |xs| > 0
    requires WellFormed(tracks, ys) && Minimal(ys) && CoveredFrom(tracks, ys, b) && |ys| > 0
    ensures xs[0] == ys[0]
  {
    var x, y := xs[0], ys[0];
    RegionStartActive(tracks, xs, 0);
    RegionStartActive(tracks, ys, 0);
    var i :| 0 <= i < |ys| && ys[i].Covers(x.inTime);
    FirstStart(tracks, ys, i, x.inTime);
    var j :| 0 <= j < |xs| && xs[j].Covers(y.inTime);
    FirstStart(tracks, xs, j, y.inTime);
    assert x.inTime == y.inTime;
    FirstEnd(tracks, xs, b);
    FirstEnd(tracks, ys, b);
    assert x.outTime == y.outTime by {
      assert x.outTime < y.outTime ==> y.Covers(x.outTime);
      assert y.outTime < x.outTime ==> x.Covers(y.outTime);
    }
  }

  /** Two minimal region indexes of the same cuts from `b` on are equal. */
  lemma {:induction false} UniqueFrom(tracks: seq<seq<Cut>>, xs: seq<TrackCross>, ys: seq<TrackCross>, b: Time)
    requires WellFormed(tracks, xs) && Minimal(xs) && CoveredFrom(tracks, xs, b)
    requires WellFormed(tracks, ys) && Minimal(ys) && CoveredFrom(tracks, ys, b)
    ensures xs == ys
    decreases |xs|
  {
    BothEmpty(tracks, xs, ys, b);
    if |xs| > 0 {
      SameFirst(tracks, xs, ys, b);
      DropFirst(tracks, xs, b);
      DropFirst(tracks, ys, b);
      UniqueFrom(tracks, xs[1..], ys[1..], xs[0].outTime);
      assert xs == [xs[0]] + xs[1..] && ys == [ys[0]] + ys[1..];
    }
  }

  /** The minimal region index of a set of tracks is unique, so every
      rebuild from the same tracks gives the same regions. */
  lemma RegionIndexUnique(tracks: seq<seq<Cut>>, xs: seq<TrackCross>, ys: seq<TrackCross>)
    requires RegionIndex(tracks, xs) && Minimal(xs)
    requires RegionIndex(tracks, ys) && Minimal(ys)
    ensures xs == ys
  {
    var b := Earliest(xs, ys);
    assert forall i :: 0 < i < |xs| ==> xs[0].outTime <= xs[i].inTime;
    assert forall i :: 0 < i < |ys| ==> ys[0].outTime <= ys[i].inTime;
    UniqueFrom(tracks, xs, ys, b);
  }

  /** A time no later than the start of either first region. */
  function Earliest(xs: seq<TrackCross>, ys: seq<TrackCross>): (b: Time)
    ensures |xs| > 0 ==> b <= xs[0].inTime
    ensures |ys| > 0 ==> b <= ys[0].inTime
  {
    var x0 := if |xs| > 0 then xs[0].inTime else 0.0;
    var y0 := if |ys| > 0 then ys[0].inTime else 0.0;
    if x0 < y0 then x0 else y0
  }

  // ---------------------------------------------------------------------
  // Examples
  // ---------------------------------------------------------------------

  /** Track A holds a cut on `[0, 2)`, track B a cut on `[1, 4)`. */
  function ScenarioTracks(): seq<seq<Cut>> {
    [[Cut(0.0, 2.0, 0.0, Clip(0))], [Cut(0.0, 3.0, 1.0, Clip(1))]]
  }

  function ScenarioRegions(): seq<TrackCross> {
    [TrackCross(0.0, 1.0, {CutRef(0, 0)}),
     TrackCross(1.0, 2.0, {CutRef(0, 0), CutRef(1, 0)}),
     TrackCross(2.0, 4.0, {CutRef(1, 0)})]
  }

  lemma ScenarioActive(t: Time)
    ensures ActiveCuts(ScenarioTracks(), t)
            == (if 0.0 <= t < 2.0 then {CutRef(0, 0)} else {}) + (if 1.0 <= t < 4.0 then {CutRef(1, 0)} else {})
  {
    var tracks := ScenarioTracks();
    forall r | ValidRef(tracks, r)
      ensures r == CutRef(0, 0) || r == CutRef(1, 0)
    {
    }
  }

  /** The regions of the scenario hold exactly the cuts active over them. */
  lemma ScenarioWellFormed()
    ensures WellFormed(ScenarioTracks(), ScenarioRegions()) && Minimal(ScenarioRegions())
  {
    var ys := ScenarioRegions();
    ScenarioExact(0);
    ScenarioExact(1);
    ScenarioExact(2);
    assert CutRef(1, 0) !in ys[0].cuts && CutRef(0, 0) !in ys[2].cuts;
  }

  lemma ScenarioExact(i: nat)
    requires i < 3
    ensures forall t :: ScenarioRegions()[i].Covers(t) ==> ScenarioRegions()[i].cuts == ActiveCuts(ScenarioTracks(), t)
  {
    var y := ScenarioRegions()[i];
    forall t | y.Covers(t)
      ensures y.cuts == ActiveCuts(ScenarioTracks(), t)
    {
      ScenarioActive(t);
    }
  }

  /** The regions of the scenario cover every time at which a cut is active. */
  lemma ScenarioCovered()
    ensures CoveredBelow(ScenarioTracks(), ScenarioRegions(), Unbounded)
  {
    var tracks, ys := ScenarioTracks(), ScenarioRegions();
    forall t | ActiveCuts(tracks, t) != {}
      ensures exists i :: 0 <= i < |ys| && ys[i].Covers(t)
    {
      ScenarioActive(t);
      var i := if t < 1.0 then 0 else if t < 2.0 then 1 else 2;
      assert ys[i].Covers(t);
    }
  }

  /** The regions of the scenario are `[0, 1)` with A, `[1, 2)` with A and
      B, and `[2, 4)` with B: they form its minimal region index, and so
      they are what the builder produces. */
  lemma ScenarioIndex(xs: seq<TrackCross>)
    requires RegionIndex(ScenarioTracks(), xs) && Minimal(xs)
    ensures xs == ScenarioRegions()
  {
    ScenarioWellFormed();
    ScenarioCovered();
    RegionIndexUnique(ScenarioTracks(), xs, ScenarioRegions());
  }

  /** Lookups in the scenario, and in gaps before and after it. */
  lemma ScenarioLookups()
    ensures ActiveCuts(ScenarioTracks(), 0.5) == {CutRef(0, 0)}
    ensures ActiveCuts(ScenarioTracks(), 1.5) == {CutRef(0, 0), CutRef(1, 0)}
    ensures ActiveCuts(ScenarioTracks(), 3.0) == {CutRef(1, 0)}
    ensures ActiveCuts(ScenarioTracks(), 4.0) == {}
    ensures ActiveCuts(ScenarioTracks(), -1.0) == {}
  {
    ScenarioActive(0.5);
    ScenarioActive(1.5);
    ScenarioActive(3.0);
    ScenarioActive(4.0);
    ScenarioActive(-1.0);
  }

  /** A cut sliced from 0 to 1 and placed at 2 is active at 2 but no longer
      at 3: windows exclude their end. */
  lemma BoundaryCut()
    ensures ActiveCuts([[Cut(0.0, 1.0, 2.0, Clip(0))]], 2.0) == {CutRef(0, 0)}
    ensures ActiveCuts([[Cut(0.0, 1.0, 2.0, Clip(0))]], 3.0) == {}
  {
    var tracks := [[Cut(0.0, 1.0, 2.0, Clip(0))]];
    assert forall r :: ValidRef(tracks, r) ==> r == CutRef(0, 0);
  }

  /** A cut with an empty window is in no region of an index. */
  lemma DegenerateCut(tracks: seq<seq<Cut>>, xs: seq<TrackCross>, r: CutRef)
    requires RegionIndex(tracks, xs) && ValidRef(tracks, r)
    requires tracks[r.track][r.index].outTime <= tracks[r.track][r.index].inTime
    ensures forall i :: 0 <= i < |xs| ==> r !in xs[i].cuts
  {
    forall i | 0 <= i < |xs|
      ensures r !in xs[i].cuts
    {
      RegionStartActive(tracks, xs, i);
      assert !tracks[r.track][r.index].ActiveAt(xs[i].inTime);
    }
  }

  // ---------------------------------------------------------------------
  // The timeline
  // ---------------------------------------------------------------------

  /** A timeline: tracks, and the regions over their cuts. It owns its
      tracks, so it holds their cuts. */
  class Timeline {
    var tracks: seq<seq<Cut>>
    var crosses: seq<TrackCross>

    /** `Timeline::new`: no tracks and no regions. */
    constructor ()
      ensures tracks == [] && crosses == []
    {
      tracks := [];
      crosses := [];
    }

    /** `Timeline::from`: the given tracks, in order, and no regions. */
    constructor FromTracks(ts: seq<Track>)
      ensures |tracks| == |ts| && forall i :: 0 <= i < |ts| ==> tracks[i] == ts[i].cuts
      ensures crosses == []
    {
      tracks := seq(|ts|, i reads ts requires 0 <= i < |ts| => ts[i].cuts);
      crosses := [];
    }

    /** `add_track`: one track more, at the end; the regions are left as
        they were. */
    method AddTrack(track: Track)
      modifies this
      ensures tracks == old(tracks) + [track.cuts] && crosses == old(crosses)
    {
      tracks := tracks + [track.cuts];
    }

    /** Replaces the regions by the region index of the current tracks. */
    method BuildCrosses()
      modifies this
      ensures tracks == old(tracks) && RegionIndex(tracks, crosses) && Minimal(crosses)
    {
      crosses := BuildRegionIndex(tracks);
    }

    /** The cuts active at `t`, found by a binary search over the regions. */
    method CutsAt(t: Time) returns (cuts: set<CutRef>)
      requires RegionIndex(tracks, crosses)
      ensures cuts == ActiveCuts(tracks, t)
    {
      var lo, hi := 0, |crosses|;
      while lo < hi
        invariant 0 <= lo <= hi <= |crosses|
        invariant forall i :: 0 <= i < lo ==> crosses[i].outTime <= t
        invariant forall i :: hi <= i < |crosses| ==> t < crosses[i].outTime
      {
        var mid := (lo + hi) / 2;
        if crosses[mid].outTime <= t {
          lo := mid + 1;
        } else {
          hi := mid;
        }
      }
      if lo < |crosses| && crosses[lo].inTime <= t {
        cuts := crosses[lo].cuts;
      } else {
        cuts := {};
        forall i | 0 <= i < |crosses|
          ensures !crosses[i].Covers(t)
        {
          assert lo < i ==> crosses[lo].outTime <= crosses[i].inTime;
        }
      }
    }
  }
}
