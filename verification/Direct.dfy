/** The direct map, through which the kernel reaches frames and tables by `| SYSTEM_LINEAR`: does it stay right? */
module DirectMaps {
  import opened Intervals
  import opened Physical
  import opened PageWalk
  import opened Paging
  import opened Frames
  import opened Release
  import opened Space
  import opened VirtualMemories
  import opened PageFaults
  import opened CommittedPages

  /** Physical address p is found at 0xFFFF_8000_0000_0000 + p or nowhere, to be written to and run. */
  ghost predicate Straight(m: Tables, root: nat) {
    forall v: nat :: STATIC_LO <= v < WINDOW_LO && Look(m, root, v).Some? ==> Unmoved(v, Look(m, root, v).value)
  }

  predicate Unmoved(v: nat, p: Page) {
    p.at + 0xFFFF_8000_0000_0000 == v && p.write && p.exec
  }

  /** A page of 1G that is mapped to the same place is mapped there as a whole. */
  lemma WholeGiga(v: nat, w: nat)
    requires STATIC_LO <= v < WINDOW_LO && STATIC_LO <= w < WINDOW_LO && Same(w, v, 1)
    ensures Unmoved(w, Target(v % 0x8000_0000_0000, 2, 7, w))
  {
    SamePage(w, v, 2);
    GigaPage(v);
    GigaPage(w);
    hide Same, PageOf;
    var a, b := v - STATIC_LO, w - STATIC_LO;
    Low47(a);
    LowGiga(0x2_0000, a);
    LowGiga(0x2_0000, b);
    LowGiga(0x3_FFFE_0000, b);
    assert v == 0x8000_0000_0000 * 0x1_FFFF + a && w == 0x4000_0000 * 0x3_FFFE_0000 + b;
    assert v - HIGH == 0x4000_0000 * 0x2_0000 + a && w - HIGH == 0x4000_0000 * 0x2_0000 + b;
  }

  lemma Low47(a: nat)
    requires a < 0x8000_0000_0000
    ensures (0x8000_0000_0000 * 0x1_FFFF + a) % 0x8000_0000_0000 == a
  {
  }

  /** Whole gigabytes below an address. */
  lemma LowGiga(q: nat, a: nat)
    ensures (0x4000_0000 * q + a) % 0x4000_0000 == a % 0x4000_0000
    ensures (0x4000_0000 * q + a) / 0x4000_0000 == q + a / 0x4000_0000
  {
    var d, r := a / 0x4000_0000, a % 0x4000_0000;
    assert 0x4000_0000 * q + a == 0x4000_0000 * (q + d) + r;
    WholeAndRest(q + d, r);
  }

  lemma WholeAndRest(q: nat, r: nat)
    requires r < 0x4000_0000
    ensures (0x4000_0000 * q + r) % 0x4000_0000 == r && (0x4000_0000 * q + r) / 0x4000_0000 == q
  {
  }

  /** A fault in the direct map finds its address there afterwards, if nothing was in the way. */
  lemma DirectFault(s: State, t: State, root: nat, v: nat)
    requires STATIC_LO <= v < WINDOW_LO && Resumes(s, t, root, v)
    ensures Open(s.m, root, v, 1) ==> Look(t.m, root, v).Some? && Unmoved(v, Look(t.m, root, v).value)
    ensures Straight(s.m, root) ==> Straight(t.m, root)
  {
    hide Look, Open, Unmoved, Target, Same;
    if Open(s.m, root, v, 1) {
      SameSelf(v);
      forall w: nat | STATIC_LO <= w < WINDOW_LO && Same(w, v, 1)
        ensures Unmoved(w, Target(v % 0x8000_0000_0000, 2, 7, w)) {
        WholeGiga(v, w);
      }
    }
  }

  lemma SameSelf(v: nat)
    ensures Same(v, v, 1)
  {
  }

  /** A page mapped in the windows is none of the direct map. */
  lemma WindowFault(s: State, t: State, root: nat, v: nat)
    requires WINDOW_LO <= v < WINDOW_HI && Resumes(s, t, root, v)
    ensures Straight(s.m, root) ==> Straight(t.m, root)
  {
    var options := if v < DYNAMIC_HI then 2 * Protection(s.c, v) + 1 else 7;
    var f: nat :| Backs(s, t, root, v, options, f);
    hide Look, Unmoved, Target, Same;
    forall w: nat | STATIC_LO <= w < WINDOW_LO ensures !Same(w, v, 3) {
      SamePage(w, v, 0);
      PageNumbers(w, v);
    }
  }

  lemma PageNumbers(w: nat, v: nat)
    requires STATIC_LO <= w < WINDOW_LO <= v < WINDOW_HI
    ensures PageOf(w, 0) != PageOf(v, 0)
  {
    assert w % SPACE == w - HIGH && v % SPACE == v - HIGH;
    assert w - HIGH < 0x1000 * 0x9_0000_0000 <= v - HIGH;
  }

  /** Requests only unmap. */
  lemma RequestKeeps(s: State, t: State, root: nat, lo: nat, hi: nat, option: nat, protect: nat)
    requires Allocated(s, t, root, lo, hi, option, protect)
    ensures Straight(s.m, root) ==> Straight(t.m, root)
  {
    hide Look, Unmoved, Base, Dropped;
  }

  lemma NextKeeps(s: State, t: State, root: nat, e: Event)
    requires Next(s, t, root, e) && Straight(s.m, root)
    ensures Straight(t.m, root)
  {
    hide Allocated, Resumes, Next, Straight, Fatal, Refused, Placed, HalfDone;
    if !Admissible(s, root, e) {
      PassedBy(s, t, root, e);
    } else if e.Fault? {
      Resumed(s, t, root, e);
      InReachOfHandler(s, t, root, e.CR2);
      if e.CR2 < WINDOW_LO { DirectFault(s, t, root, e.CR2); } else { WindowFault(s, t, root, e.CR2); }
    } else if t != s {
      var lo, hi, option := Effect(s, t, root, e);
      RequestKeeps(s, t, root, lo, hi, option, e.protect);
    }
  }

  lemma InReachOfHandler(s: State, t: State, root: nat, v: nat)
    requires Resumes(s, t, root, v)
    ensures STATIC_LO <= v < WINDOW_HI
  {
  }

  ghost predicate AlwaysStraight(trace: seq<State>, root: nat) {
    forall i: nat :: i < |trace| ==> Straight(trace[i].m, root)
  }

  /** In every run that starts so, all that is mapped in the direct map is at its place, at all times. */
  lemma {:induction false} RunStraight(trace: seq<State>, root: nat, events: seq<Event>)
    requires Trace(trace, root, events) && Straight(trace[0].m, root)
    ensures AlwaysStraight(trace, root)
  {
    hide Straight;
    forall i: nat | i < |trace| ensures Straight(trace[i].m, root) {
      StraightAt(trace, root, events, i);
    }
  }

  lemma {:induction false} StraightAt(trace: seq<State>, root: nat, events: seq<Event>, i: nat)
    requires Trace(trace, root, events) && Straight(trace[0].m, root) && i < |trace|
    ensures Straight(trace[i].m, root)
    decreases i
  {
    hide Accounted, Next, Straight;
    if i > 0 {
      StraightAt(trace, root, events, i - 1);
      assert NextAt(trace, root, events, i - 1);
      NextKeeps(trace[i - 1], trace[i], root, events[i - 1]);
    }
  }
}
