/** Sequences of `isInterestingBranch` calls on one object: the persisted maps a
    run ends with cover every state it passed through, and a new object loaded
    from them that sees the same branches again finds nothing interesting. */
module Replay {
  import opened Bits
  import opened Hashing
  import opened Context
  import opened Persistence
  import opened Branch

  /** The arguments of one `isInterestingBranch(pc, taken)` call. */
  datatype Outcome = Outcome(pc: Word, taken: bool)

  /** The answers of a sequence of calls, in order, and the state after the last. */
  datatype RunResult = RunResult(answers: seq<bool>, final: Snapshot)

  /** The calls `bs` made one after the other from state `s`. */
  function Run(xxh: Hasher, s: Snapshot, bs: seq<Outcome>): (r: RunResult)
    requires WellFormed(s)
    ensures WellFormed(r.final) && |r.answers| == |bs|
    decreases |bs|
  {
    if bs == [] then RunResult([], s)
    else
      var first := BranchStep(xxh, s, bs[0].pc, bs[0].taken);
      var rest := Run(xxh, first.next, bs[1..]);
      RunResult([first.interesting] + rest.answers, rest.final)
  }

  /** Every bit of the persisted maps of `b` is set in those of `a`. */
  ghost predicate Covers(a: Snapshot, b: Snapshot)
    requires WellFormed(a) && WellFormed(b)
  {
    (forall i :: 0 <= i < MapSize ==> b.trace[i] | a.trace[i] == a.trace[i])
    && (forall p: nat :: p < ContextBits && BitSet(b.context, p) ==> BitSet(a.context, p))
  }

  lemma OrWithin(x: bv8, y: bv8, z: bv8)
    requires x | y == y && y | z == z
    ensures x | z == z
  {
  }

  lemma CoversTransitive(a: Snapshot, b: Snapshot, c: Snapshot)
    requires WellFormed(a) && WellFormed(b) && WellFormed(c)
    requires Covers(a, b) && Covers(b, c)
    ensures Covers(a, c)
  {
    forall i | 0 <= i < MapSize
      ensures c.trace[i] | a.trace[i] == a.trace[i]
    {
      OrWithin(c.trace[i], b.trace[i], a.trace[i]);
    }
  }

  /** The maps a run ends with hold every bit of the state it started from. */
  lemma {:induction false} RunMonotone(xxh: Hasher, s: Snapshot, bs: seq<Outcome>)
    requires WellFormed(s)
    ensures Covers(Run(xxh, s, bs).final, s)
    decreases |bs|
  {
    if bs == [] {
      forall i | 0 <= i < MapSize
        ensures s.trace[i] | s.trace[i] == s.trace[i]
      {
      }
    } else {
      var h := HashPc(xxh, bs[0].pc, bs[0].taken);
      var t := BranchStep(xxh, s, bs[0].pc, bs[0].taken).next;
      BranchMonotone(xxh, s, h, HashPc(xxh, bs[0].pc, !bs[0].taken));
      RunMonotone(xxh, t, bs[1..]);
      CoversTransitive(Run(xxh, t, bs[1..]).final, t, s);
    }
  }

  /** The maps a run ends with hold every bit of the state after any prefix of the run. */
  lemma {:induction false} RunCoversPrefix(xxh: Hasher, s: Snapshot, bs: seq<Outcome>, k: nat)
    requires WellFormed(s) && k <= |bs|
    ensures Covers(Run(xxh, s, bs).final, Run(xxh, s, bs[..k]).final)
    decreases k
  {
    if k == 0 {
      assert bs[..0] == [];
      RunMonotone(xxh, s, bs);
    } else {
      var t := BranchStep(xxh, s, bs[0].pc, bs[0].taken).next;
      assert bs[..k][0] == bs[0] && bs[..k][1..] == bs[1..][..k - 1];
      RunCoversPrefix(xxh, t, bs[1..], k - 1);
    }
  }

  /** On a context map that already has every bit an earlier test set, the same test
      reports nothing, sets nothing, and updates the visited set the same way. */
  lemma ContextRecorded(xxh: Hasher, ctx: seq<bv8>, covering: seq<bv8>, visited: set<Word>, h: Word, bits: Word)
    requires |ctx| == MapSize && |covering| == MapSize
    requires forall p: nat :: p < ContextBits && BitSet(ContextStep(xxh, ctx, visited, h, bits).context, p)
                          ==> BitSet(covering, p)
    ensures ContextStep(xxh, covering, visited, h, bits)
         == ContextResult(false, covering, ContextStep(xxh, ctx, visited, h, bits).visited)
  {
    if IsPowerOfTwoOrZero(bits) {
      var ps := Positions(xxh, visited, h);
      forall p | p in ps
        ensures p < 8 * |covering| && BitSet(covering, p)
      {
        var prevH :| prevH in visited && p == ContextHash(xxh, prevH, h);
        ContextStepMarks(xxh, ctx, visited, h, bits, p);
      }
      SetAllCovered(covering, ps);
    }
  }

  /** On a trace map that holds the bits of the state after a call, the same count is not new. */
  lemma CountRecorded(xxh: Hasher, s: Snapshot, h: Word, invH: Word, covering: seq<bv8>)
    requires WellFormed(s) && h < MapSize && |covering| == MapSize
    requires var t := Transition(xxh, s, h, invH).next;
             forall i :: 0 <= i < MapSize ==> t.trace[i] | covering[i] == covering[i]
    ensures var idx := GetIndex(s.prevLoc, h);
            !NewHitCount(s.virgin[idx] + 1, covering[idx])
  {
    var idx := GetIndex(s.prevLoc, h);
    var t := Transition(xxh, s, h, invH).next;
    BranchRecordsCount(xxh, s, h, invH);
    BranchCountsHit(xxh, s, h, invH);
    OrWithin(t.virgin[idx], t.trace[idx], covering[idx]);
  }

  /** The state after a call apart from its answer and its persisted maps. */
  lemma CallCounters(xxh: Hasher, s: Snapshot, h: Word, invH: Word)
    requires WellFormed(s) && h < MapSize
    ensures var idx := GetIndex(s.prevLoc, h);
            var t := Transition(xxh, s, h, invH).next;
            t.virgin == s.virgin[idx := s.virgin[idx] + 1]
            && t.visited == ContextStep(xxh, s.context, s.visited, h, Widen(s.virgin[idx])).visited
            && t.context == ContextStep(xxh, s.context, s.visited, h, Widen(s.virgin[idx])).context
  {
    var idx := GetIndex(s.prevLoc, h);
    if NewHitCount(s.virgin[idx] + 1, s.trace[idx]) {
      TransitionNewHit(xxh, s, h, invH);
    } else {
      TransitionStale(xxh, s, h, invH);
    }
  }

  /** A call replayed on maps that cover the state after the original call is not interesting,
      leaves those maps alone, and moves the counters exactly as the original call did. */
  lemma ReplayStep(xxh: Hasher, s: Snapshot, r: Snapshot, f: Snapshot, b: Outcome)
    requires WellFormed(s) && WellFormed(r) && WellFormed(f)
    requires r.prevLoc == s.prevLoc && r.virgin == s.virgin && r.visited == s.visited
    requires r.trace == f.trace && r.context == f.context
    requires Covers(f, BranchStep(xxh, s, b.pc, b.taken).next)
    ensures var s1 := BranchStep(xxh, s, b.pc, b.taken).next;
            var r1 := BranchStep(xxh, r, b.pc, b.taken);
            !r1.interesting
            && r1.next == Snapshot(s1.prevLoc, f.trace, s1.virgin, f.context, s1.visited)
  {
    var h := HashPc(xxh, b.pc, b.taken);
    var invH := HashPc(xxh, b.pc, !b.taken);
    var idx := GetIndex(s.prevLoc, h);
    var s1 := Transition(xxh, s, h, invH).next;
    CallCounters(xxh, s, h, invH);
    CountRecorded(xxh, s, h, invH, f.trace);
    ContextRecorded(xxh, s.context, f.context, s.visited, h, Widen(s.virgin[idx]));
    TransitionStale(xxh, r, h, invH);
  }

  /** Replaying `bs` with the counters of the original run and the maps it ended with. */
  lemma {:induction false} ReplayAgrees(xxh: Hasher, s: Snapshot, r: Snapshot, bs: seq<Outcome>)
    requires WellFormed(s) && WellFormed(r)
    requires r.prevLoc == s.prevLoc && r.virgin == s.virgin && r.visited == s.visited
    requires r.trace == Run(xxh, s, bs).final.trace && r.context == Run(xxh, s, bs).final.context
    ensures var replay := Run(xxh, r, bs);
            (forall i :: 0 <= i < |bs| ==> !replay.answers[i])
            && replay.final.trace == r.trace && replay.final.context == r.context
    decreases |bs|
  {
    if bs != [] {
      var f := Run(xxh, s, bs).final;
      var s1 := BranchStep(xxh, s, bs[0].pc, bs[0].taken).next;
      RunMonotone(xxh, s1, bs[1..]);
      ReplayStep(xxh, s, r, f, bs[0]);
      var r1 := BranchStep(xxh, r, bs[0].pc, bs[0].taken).next;
      ReplayAgrees(xxh, s1, r1, bs[1..]);
    }
  }

  /** A new object loaded from the file holding the maps a run ended with, fed the same
      branches again, answers false to every call and leaves the maps as they were. */
  lemma ReplayIsStale(xxh: Hasher, m: Maps, bs: seq<Outcome>)
    requires |m.trace| == MapSize && |m.context| == MapSize
    ensures var f := Run(xxh, Fresh(m), bs).final;
            var replay := Run(xxh, Fresh(Load(Some(Image(Maps(f.trace, f.context))))), bs);
            (forall i :: 0 <= i < |bs| ==> !replay.answers[i])
            && replay.final.trace == f.trace && replay.final.context == f.context
  {
    var f := Run(xxh, Fresh(m), bs).final;
    LoadImage(Maps(f.trace, f.context));
    ReplayAgrees(xxh, Fresh(m), Fresh(Maps(f.trace, f.context)), bs);
  }

  /** The same call twice on a fresh object with an all-zero trace map: the first call is
      interesting, and so is the second whenever its index, which follows the first call's
      edge, is neither of the two indices the first call wrote. */
  lemma RepeatedBranch(xxh: Hasher, context: seq<bv8>, pc: Word, taken: bool)
    requires |context| == MapSize
    ensures var s := Fresh(Maps(Zeros(MapSize), context));
            var h := HashPc(xxh, pc, taken);
            var first := BranchStep(xxh, s, pc, taken);
            var idx2 := GetIndex(h, h);
            first.interesting
            && (idx2 != GetIndex(0, h) && idx2 != GetIndex(0, HashPc(xxh, pc, !taken))
                ==> BranchStep(xxh, first.next, pc, taken).interesting)
  {
    var s := Fresh(Maps(Zeros(MapSize), context));
    var h := HashPc(xxh, pc, taken);
    var invH := HashPc(xxh, pc, !taken);
    var idx := GetIndex(0, h);
    var idx2 := GetIndex(h, h);
    assert s.virgin[idx] == 0 && s.trace[idx] == 0;
    TransitionNewHit(xxh, s, h, invH);
    var t := Transition(xxh, s, h, invH).next;
    if idx2 != idx && idx2 != GetIndex(0, invH) {
      assert t.virgin[idx2] == 0 && t.trace[idx2] == 0;
      TransitionNewHit(xxh, t, h, invH);
    }
  }

  /** A call whose context test reports a new context is interesting. */
  lemma NewContextInteresting(xxh: Hasher, s: Snapshot, h: Word, invH: Word)
    requires WellFormed(s) && h < MapSize
    requires ContextStep(xxh, s.context, s.visited, h, Widen(s.virgin[GetIndex(s.prevLoc, h)])).isNew
    ensures Transition(xxh, s, h, invH).interesting
  {
    var idx := GetIndex(s.prevLoc, h);
    if NewHitCount(s.virgin[idx] + 1, s.trace[idx]) {
      TransitionNewHit(xxh, s, h, invH);
    } else {
      TransitionStale(xxh, s, h, invH);
    }
  }

  /** The same call twice on a freshly constructed object with an empty path (both persisted
      maps all zero): both calls are interesting, wherever the second index falls. The first
      call puts h in the visited set, so the second call's context test owns the still clear
      bit of the pair (h, h). */
  lemma RepeatedBranchOnEmptyMaps(xxh: Hasher, pc: Word, taken: bool)
    ensures var s := Fresh(Maps(Zeros(MapSize), Zeros(MapSize)));
            var first := BranchStep(xxh, s, pc, taken);
            first.interesting && BranchStep(xxh, first.next, pc, taken).interesting
  {
    var s := Fresh(Maps(Zeros(MapSize), Zeros(MapSize)));
    var h := HashPc(xxh, pc, taken);
    var invH := HashPc(xxh, pc, !taken);
    var idx := GetIndex(0, h);
    assert s.virgin[idx] == 0 && s.trace[idx] == 0;
    TransitionNewHit(xxh, s, h, invH);
    var t := Transition(xxh, s, h, invH).next;
    CallCounters(xxh, s, h, invH);
    // the first call's context test: count 0, nothing visited yet
    assert IsPowerOfTwoOrZero(0);
    var p := ContextHash(xxh, h, h);
    ContextStepMarks(xxh, s.context, s.visited, h, Widen(0), p);
    assert t.visited == {h} && !BitSet(t.context, p);
    // the second call's context test: count 0 or 1
    var idx2 := GetIndex(h, h);
    var bits := Widen(t.virgin[idx2]);
    WidenValue(t.virgin[idx2]);
    assert bits == 0 || bits == 1;
    PowerOfTwoOrZeroIff(bits);
    ContextStepReportsClear(xxh, t.context, t.visited, h, bits);
    NewContextInteresting(xxh, t, h, invH);
  }
}
