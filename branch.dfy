/** `isInterestingBranch` as a function of the whole object state, and what it
    promises: the persisted maps only gain bits, the hit counter of the branch's
    index goes up by one, the new count and the inverse branch's next count are
    recorded, and the answer is true exactly when the persisted maps change. */
module Branch {
  import opened Bits
  import opened Hashing
  import opened Context
  import opened Persistence

  /** The state of one trace map object apart from its path. */
  datatype Snapshot = Snapshot(prevLoc: Word, trace: seq<bv8>, virgin: seq<bv8>,
                               context: seq<bv8>, visited: set<Word>)

  ghost predicate WellFormed(s: Snapshot)
  {
    |s.trace| == MapSize && |s.virgin| == MapSize && |s.context| == MapSize
    && s.prevLoc < MapSize
  }

  /** A freshly constructed object whose persisted maps are `m`. */
  function Fresh(m: Maps): (s: Snapshot)
    requires |m.trace| == MapSize && |m.context| == MapSize
    ensures WellFormed(s)
  {
    Snapshot(0, m.trace, Zeros(MapSize), m.context, {})
  }

  /** The hit-count test: the incremented count carries a bit the trace byte lacks. */
  predicate NewHitCount(count: bv8, seen: bv8)
  {
    count | seen != seen
  }

  /** The trace map after a new hit count: the count or-ed into the branch's byte, then
      the inverse branch's provisional next count or-ed into its byte; `virgin` holds the
      counts after the branch's own increment. Every other byte is as it was. */
  function MarkHit(trace: seq<bv8>, virgin: seq<bv8>, idx: nat, invIdx: nat): (t: seq<bv8>)
    requires |virgin| == |trace| && idx < |trace| && invIdx < |trace|
    ensures |t| == |trace|
  {
    var trace1 := trace[idx := trace[idx] | virgin[idx]];
    trace1[invIdx := trace1[invIdx] | (virgin[invIdx] + 1)]
  }

  /** A new hit count clears no bit of the trace map. */
  lemma MarkHitKeeps(trace: seq<bv8>, virgin: seq<bv8>, idx: nat, invIdx: nat, i: nat)
    requires |virgin| == |trace| && idx < |trace| && invIdx < |trace| && i < |trace|
    ensures trace[i] | MarkHit(trace, virgin, idx, invIdx)[i] == MarkHit(trace, virgin, idx, invIdx)[i]
  {
  }

  /** A new hit count records the branch's count and the inverse branch's next count. */
  lemma MarkHitRecords(trace: seq<bv8>, virgin: seq<bv8>, idx: nat, invIdx: nat)
    requires |virgin| == |trace| && idx < |trace| && invIdx < |trace|
    ensures var t := MarkHit(trace, virgin, idx, invIdx);
            t[idx] | virgin[idx] == t[idx] && t[invIdx] | (virgin[invIdx] + 1) == t[invIdx]
  {
  }

  datatype BranchResult = BranchResult(interesting: bool, next: Snapshot)

  /** One call of `isInterestingBranch` for the edge identifier `h`, whose other
      outcome has the edge identifier `invH`. */
  function Transition(xxh: Hasher, s: Snapshot, h: Word, invH: Word): (r: BranchResult)
    requires WellFormed(s) && h < MapSize
    ensures WellFormed(r.next)
    ensures r.next.prevLoc == h
  {
    var idx := GetIndex(s.prevLoc, h);
    var ctx := ContextStep(xxh, s.context, s.visited, h, Widen(s.virgin[idx]));
    var count := s.virgin[idx] + 1;
    var virgin := s.virgin[idx := count];
    if NewHitCount(count, s.trace[idx]) then
      var invIdx := GetIndex(s.prevLoc, invH);
      BranchResult(true, Snapshot(h, MarkHit(s.trace, virgin, idx, invIdx), virgin, ctx.context, ctx.visited))
    else
      BranchResult(ctx.isNew, Snapshot(h, s.trace, virgin, ctx.context, ctx.visited))
  }

  /** One call `isInterestingBranch(pc, taken)`; the object commits exactly when the result is true. */
  function BranchStep(xxh: Hasher, s: Snapshot, pc: Word, taken: bool): (r: BranchResult)
    requires WellFormed(s)
    ensures WellFormed(r.next)
    ensures r.next.prevLoc == HashPc(xxh, pc, taken)
  {
    Transition(xxh, s, HashPc(xxh, pc, taken), HashPc(xxh, pc, !taken))
  }

  /** `Transition` on a new hit count, with its parts named. */
  lemma TransitionNewHit(xxh: Hasher, s: Snapshot, h: Word, invH: Word)
    requires WellFormed(s) && h < MapSize
    requires var idx := GetIndex(s.prevLoc, h);
             NewHitCount(s.virgin[idx] + 1, s.trace[idx])
    ensures var idx := GetIndex(s.prevLoc, h);
            var ctx := ContextStep(xxh, s.context, s.visited, h, Widen(s.virgin[idx]));
            var virgin := s.virgin[idx := s.virgin[idx] + 1];
            Transition(xxh, s, h, invH)
              == BranchResult(true, Snapshot(h, MarkHit(s.trace, virgin, idx, GetIndex(s.prevLoc, invH)),
                                             virgin, ctx.context, ctx.visited))
  {
  }

  /** `Transition` when the hit count is not new, with its parts named. */
  lemma TransitionStale(xxh: Hasher, s: Snapshot, h: Word, invH: Word)
    requires WellFormed(s) && h < MapSize
    requires var idx := GetIndex(s.prevLoc, h);
             !NewHitCount(s.virgin[idx] + 1, s.trace[idx])
    ensures var idx := GetIndex(s.prevLoc, h);
            var ctx := ContextStep(xxh, s.context, s.visited, h, Widen(s.virgin[idx]));
            Transition(xxh, s, h, invH)
              == BranchResult(ctx.isNew, Snapshot(h, s.trace, s.virgin[idx := s.virgin[idx] + 1], ctx.context, ctx.visited))
  {
  }

  /** `BranchStep` assembled from the outcomes of its phases: the context test, the
      counter increment, and the trace-map update. */
  lemma BranchStepFromPhases(xxh: Hasher, s: Snapshot, pc: Word, taken: bool, newContext: bool,
                             context: seq<bv8>, visited: set<Word>, virgin: seq<bv8>, trace: seq<bv8>, ret: bool)
    requires WellFormed(s)
    requires var h := HashPc(xxh, pc, taken);
             var idx := GetIndex(s.prevLoc, h);
             ContextStep(xxh, s.context, s.visited, h, Widen(s.virgin[idx])) == ContextResult(newContext, context, visited)
             && virgin == s.virgin[idx := s.virgin[idx] + 1]
             && var hit := NewHitCount(virgin[idx], s.trace[idx]);
                ret == (hit || newContext)
                && trace == if hit then MarkHit(s.trace, virgin, idx, GetIndex(s.prevLoc, HashPc(xxh, pc, !taken)))
                            else s.trace
    ensures BranchStep(xxh, s, pc, taken)
         == BranchResult(ret, Snapshot(HashPc(xxh, pc, taken), trace, virgin, context, visited))
  {
    var h := HashPc(xxh, pc, taken);
    var invH := HashPc(xxh, pc, !taken);
    var idx := GetIndex(s.prevLoc, h);
    if NewHitCount(s.virgin[idx] + 1, s.trace[idx]) {
      TransitionNewHit(xxh, s, h, invH);
    } else {
      TransitionStale(xxh, s, h, invH);
    }
  }

  lemma KeepsTraceByte(xxh: Hasher, s: Snapshot, h: Word, invH: Word, i: nat)
    requires WellFormed(s) && h < MapSize && i < MapSize
    ensures s.trace[i] | Transition(xxh, s, h, invH).next.trace[i] == Transition(xxh, s, h, invH).next.trace[i]
  {
    var idx := GetIndex(s.prevLoc, h);
    if NewHitCount(s.virgin[idx] + 1, s.trace[idx]) {
      TransitionNewHit(xxh, s, h, invH);
      MarkHitKeeps(s.trace, s.virgin[idx := s.virgin[idx] + 1], idx, GetIndex(s.prevLoc, invH), i);
    } else {
      TransitionStale(xxh, s, h, invH);
    }
  }

  lemma KeepsContextBit(xxh: Hasher, s: Snapshot, h: Word, invH: Word, p: nat)
    requires WellFormed(s) && h < MapSize && p < ContextBits && BitSet(s.context, p)
    ensures BitSet(Transition(xxh, s, h, invH).next.context, p)
  {
    var idx := GetIndex(s.prevLoc, h);
    var bits := Widen(s.virgin[idx]);
    if NewHitCount(s.virgin[idx] + 1, s.trace[idx]) {
      TransitionNewHit(xxh, s, h, invH);
    } else {
      TransitionStale(xxh, s, h, invH);
    }
    if IsPowerOfTwoOrZero(bits) {
      ContextStepMarks(xxh, s.context, s.visited, h, bits, p);
    }
  }

  /** No bit of the trace map or of the context map is ever cleared. */
  lemma BranchMonotone(xxh: Hasher, s: Snapshot, h: Word, invH: Word)
    requires WellFormed(s) && h < MapSize
    ensures var t := Transition(xxh, s, h, invH).next;
            (forall i :: 0 <= i < MapSize ==> s.trace[i] | t.trace[i] == t.trace[i])
            && (forall p: nat :: p < ContextBits && BitSet(s.context, p) ==> BitSet(t.context, p))
  {
    forall i | 0 <= i < MapSize
      ensures s.trace[i] | Transition(xxh, s, h, invH).next.trace[i] == Transition(xxh, s, h, invH).next.trace[i]
    {
      KeepsTraceByte(xxh, s, h, invH, i);
    }
    forall p: nat | p < ContextBits && BitSet(s.context, p)
      ensures BitSet(Transition(xxh, s, h, invH).next.context, p)
    {
      KeepsContextBit(xxh, s, h, invH, p);
    }
  }

  /** Only the branch's own hit counter changes, and it goes up by one (mod 256). */
  lemma BranchCountsHit(xxh: Hasher, s: Snapshot, h: Word, invH: Word)
    requires WellFormed(s) && h < MapSize
    ensures var idx := GetIndex(s.prevLoc, h);
            var t := Transition(xxh, s, h, invH).next;
            t.virgin[idx] == s.virgin[idx] + 1
            && forall i :: 0 <= i < MapSize && i != idx ==> t.virgin[i] == s.virgin[i]
  {
    var idx := GetIndex(s.prevLoc, h);
    if NewHitCount(s.virgin[idx] + 1, s.trace[idx]) {
      TransitionNewHit(xxh, s, h, invH);
    } else {
      TransitionStale(xxh, s, h, invH);
    }
  }

  /** After every call the trace byte of the index contains its hit count. */
  lemma BranchRecordsCount(xxh: Hasher, s: Snapshot, h: Word, invH: Word)
    requires WellFormed(s) && h < MapSize
    ensures var idx := GetIndex(s.prevLoc, h);
            var t := Transition(xxh, s, h, invH).next;
            t.trace[idx] | t.virgin[idx] == t.trace[idx]
  {
    var idx := GetIndex(s.prevLoc, h);
    if NewHitCount(s.virgin[idx] + 1, s.trace[idx]) {
      TransitionNewHit(xxh, s, h, invH);
      MarkHitRecords(s.trace, s.virgin[idx := s.virgin[idx] + 1], idx, GetIndex(s.prevLoc, invH));
    } else {
      TransitionStale(xxh, s, h, invH);
    }
  }

  /** After a new hit count, the other outcome of the same branch, when next taken from
      the same place, finds its count already recorded. */
  lemma BranchMarksInverse(xxh: Hasher, s: Snapshot, h: Word, invH: Word)
    requires WellFormed(s) && h < MapSize
    requires var idx := GetIndex(s.prevLoc, h);
             NewHitCount(s.virgin[idx] + 1, s.trace[idx])
    ensures var invIdx := GetIndex(s.prevLoc, invH);
            var t := Transition(xxh, s, h, invH).next;
            !NewHitCount(t.virgin[invIdx] + 1, t.trace[invIdx])
  {
    var idx := GetIndex(s.prevLoc, h);
    TransitionNewHit(xxh, s, h, invH);
    MarkHitRecords(s.trace, s.virgin[idx := s.virgin[idx] + 1], idx, GetIndex(s.prevLoc, invH));
  }

  lemma NewHitChangesTrace(xxh: Hasher, s: Snapshot, h: Word, invH: Word)
    requires WellFormed(s) && h < MapSize
    requires var idx := GetIndex(s.prevLoc, h);
             NewHitCount(s.virgin[idx] + 1, s.trace[idx])
    ensures var r := Transition(xxh, s, h, invH);
            r.interesting && r.next.trace != s.trace
  {
    var idx := GetIndex(s.prevLoc, h);
    TransitionNewHit(xxh, s, h, invH);
    MarkHitRecords(s.trace, s.virgin[idx := s.virgin[idx] + 1], idx, GetIndex(s.prevLoc, invH));
    assert Transition(xxh, s, h, invH).next.trace[idx] != s.trace[idx];
  }

  lemma StaleFollowsContext(xxh: Hasher, s: Snapshot, h: Word, invH: Word)
    requires WellFormed(s) && h < MapSize
    requires var idx := GetIndex(s.prevLoc, h);
             !NewHitCount(s.virgin[idx] + 1, s.trace[idx])
    ensures var r := Transition(xxh, s, h, invH);
            r.next.trace == s.trace && (r.interesting <==> r.next.context != s.context)
  {
    var idx := GetIndex(s.prevLoc, h);
    TransitionStale(xxh, s, h, invH);
    ContextStepNewIffChanged(xxh, s.context, s.visited, h, Widen(s.virgin[idx]));
  }

  /** A branch is interesting exactly when it adds a bit to the trace map or the context map. */
  lemma BranchInterestingIffChanged(xxh: Hasher, s: Snapshot, h: Word, invH: Word)
    requires WellFormed(s) && h < MapSize
    ensures var r := Transition(xxh, s, h, invH);
            r.interesting <==> r.next.trace != s.trace || r.next.context != s.context
  {
    var idx := GetIndex(s.prevLoc, h);
    if NewHitCount(s.virgin[idx] + 1, s.trace[idx]) {
      NewHitChangesTrace(xxh, s, h, invH);
    } else {
      StaleFollowsContext(xxh, s, h, invH);
    }
  }

  /** On a fresh object whose trace map is all zero, the first branch is interesting. */
  lemma FirstBranchInteresting(xxh: Hasher, context: seq<bv8>, pc: Word, taken: bool)
    requires |context| == MapSize
    ensures BranchStep(xxh, Fresh(Maps(Zeros(MapSize), context)), pc, taken).interesting
  {
    var s := Fresh(Maps(Zeros(MapSize), context));
    var h := HashPc(xxh, pc, taken);
    var idx := GetIndex(s.prevLoc, h);
    assert s.virgin[idx] == 0 && s.trace[idx] == 0;
    TransitionNewHit(xxh, s, h, HashPc(xxh, pc, !taken));
  }
}
