/** The context-sensitivity test as a function of the state it reads.

    The context map is a bitset of `ContextBits` bits. A call for edge `h`
    owns one bit per edge `prev_h` already in the visited set; it sets all of
    them and reports a new context when one of them was clear. */
module Context {
  import opened Bits
  import opened Hashing

  /** The bits owned by the pairs (prev_h, h) for every earlier edge `prev_h`. */
  function Positions(xxh: Hasher, visited: set<Word>, h: Word): (ps: set<nat>)
  {
    set prevH | prevH in visited :: ContextHash(xxh, prevH, h)
  }

  lemma PositionsAdd(xxh: Hasher, visited: set<Word>, h: Word, prevH: Word)
    ensures Positions(xxh, visited + {prevH}, h) == Positions(xxh, visited, h) + {ContextHash(xxh, prevH, h)}
  {
    var lhs := Positions(xxh, visited + {prevH}, h);
    var rhs := Positions(xxh, visited, h) + {ContextHash(xxh, prevH, h)};
    forall p | p in lhs
      ensures p in rhs
    {
      var v :| v in visited + {prevH} && p == ContextHash(xxh, v, h);
      if v != prevH {
        assert v in visited;
      }
    }
    forall p | p in rhs
      ensures p in lhs
    {
      if p != ContextHash(xxh, prevH, h) {
        var v :| v in visited && p == ContextHash(xxh, v, h);
        assert v in visited + {prevH};
      }
    }
  }

  /** The bits of byte `i` whose positions are in `ps`, looking at bits `k` and above. */
  function ByteMask(ps: set<nat>, i: nat, k: nat): bv8
    requires k <= 8
    decreases 8 - k
  {
    if k == 8 then 0
    else (if 8 * i + k in ps then Mask(k) else 0) | ByteMask(ps, i, k + 1)
  }

  /** The bitset `ctx` with every position of `ps` set. */
  function SetAll(ctx: seq<bv8>, ps: set<nat>): (r: seq<bv8>)
    ensures |r| == |ctx|
  {
    seq(|ctx|, i requires 0 <= i < |ctx| => ctx[i] | ByteMask(ps, i, 0))
  }

  lemma {:induction false} ByteMaskBit(ps: set<nat>, i: nat, k: nat, j: nat)
    requires k <= 8 && j < 8
    ensures ByteMask(ps, i, k) & Mask(j) != 0 <==> k <= j && 8 * i + j in ps
    decreases 8 - k
  {
    if k < 8 {
      ByteMaskBit(ps, i, k + 1, j);
      MaskSingleBit(k, j);
    }
  }

  /** Setting `ps` sets exactly the positions in `ps` and keeps every other bit. */
  lemma SetAllBits(ctx: seq<bv8>, ps: set<nat>, p: nat)
    requires p < 8 * |ctx|
    ensures BitSet(SetAll(ctx, ps), p) <==> BitSet(ctx, p) || p in ps
  {
    ByteMaskBit(ps, p / 8, 0, p % 8);
  }

  lemma {:induction false} ByteMaskAdd(ps: set<nat>, q: nat, i: nat, k: nat)
    requires k <= 8
    ensures ByteMask(ps + {q}, i, k)
         == ByteMask(ps, i, k) | (if q / 8 == i && k <= q % 8 then Mask(q % 8) else 0)
    decreases 8 - k
  {
    if k < 8 {
      ByteMaskAdd(ps, q, i, k + 1);
    }
  }

  /** Adding one position to `ps` is or-ing its mask into its byte: one step of the loop. */
  lemma SetAllAdd(ctx: seq<bv8>, ps: set<nat>, q: nat)
    requires q < 8 * |ctx|
    ensures var c := SetAll(ctx, ps);
            SetAll(ctx, ps + {q}) == c[q / 8 := c[q / 8] | Mask(q % 8)]
  {
    var c := SetAll(ctx, ps);
    forall i | 0 <= i < |ctx|
      ensures SetAll(ctx, ps + {q})[i] == c[q / 8 := c[q / 8] | Mask(q % 8)][i]
    {
      ByteMaskAdd(ps, q, i, 0);
    }
  }

  lemma {:induction false} ByteMaskCovered(b: bv8, ps: set<nat>, i: nat, k: nat)
    requires k <= 8
    requires forall j: nat :: k <= j < 8 && 8 * i + j in ps ==> b & Mask(j) != 0
    ensures b | ByteMask(ps, i, k) == b
    decreases 8 - k
  {
    if k < 8 {
      ByteMaskCovered(b, ps, i, k + 1);
      MaskSingleBit(k, k);
    }
  }

  /** When every position of `ps` is already set, setting them changes nothing. */
  lemma SetAllCovered(ctx: seq<bv8>, ps: set<nat>)
    requires forall p :: p in ps ==> p < 8 * |ctx| && BitSet(ctx, p)
    ensures SetAll(ctx, ps) == ctx
  {
    forall i | 0 <= i < |ctx|
      ensures SetAll(ctx, ps)[i] == ctx[i]
    {
      forall j: nat | j < 8 && 8 * i + j in ps
        ensures ctx[i] & Mask(j) != 0
      {
        assert BitSet(ctx, 8 * i + j);
        assert (8 * i + j) / 8 == i && (8 * i + j) % 8 == j;
      }
      ByteMaskCovered(ctx[i], ps, i, 0);
    }
  }

  /** Some position of `ps` was clear in `ctx`. */
  predicate AnyClear(ctx: seq<bv8>, ps: set<nat>)
    requires forall p :: p in ps ==> p < 8 * |ctx|
  {
    exists p :: p in ps && !BitSet(ctx, p)
  }

  /** One iteration of the loop of `isInterestingContext`: test the bit of `q` in the map
      built so far, set it when clear, and raise the flag exactly then. */
  lemma MarkStep(ctx: seq<bv8>, ps: set<nat>, q: nat)
    requires q < 8 * |ctx| && forall p :: p in ps ==> p < 8 * |ctx|
    ensures var c := SetAll(ctx, ps);
            var clear := c[q / 8] & Mask(q % 8) == 0;
            SetAll(ctx, ps + {q}) == (if clear then c[q / 8 := c[q / 8] | Mask(q % 8)] else c)
            && (AnyClear(ctx, ps + {q}) <==> AnyClear(ctx, ps) || clear)
  {
    var c := SetAll(ctx, ps);
    SetAllBits(ctx, ps, q);
    SetAllAdd(ctx, ps, q);
    if c[q / 8] & Mask(q % 8) != 0 {
      OrMaskSet(c[q / 8], q % 8);
    }
  }

  /** What `isInterestingContext` reports and leaves behind. */
  datatype ContextResult = ContextResult(isNew: bool, context: seq<bv8>, visited: set<Word>)

  /** `isInterestingContext(h, bits)` on context map `ctx` and visited set `visited`. */
  function ContextStep(xxh: Hasher, ctx: seq<bv8>, visited: set<Word>, h: Word, bits: Word): (r: ContextResult)
    requires |ctx| == MapSize
    ensures |r.context| == MapSize
  {
    if !IsPowerOfTwoOrZero(bits) then ContextResult(false, ctx, visited)
    else
      var ps := Positions(xxh, visited, h);
      ContextResult(AnyClear(ctx, ps),
                    SetAll(ctx, ps),
                    if bits == 0 then visited + {h} else visited)
  }

  /** A count that is neither zero nor a power of two skips the test and changes nothing. */
  lemma ContextStepSkips(xxh: Hasher, ctx: seq<bv8>, visited: set<Word>, h: Word, bits: Word)
    requires |ctx| == MapSize
    requires PopCount(bits) >= 2
    ensures ContextStep(xxh, ctx, visited, h, bits) == ContextResult(false, ctx, visited)
  {
    PowerOfTwoOrZeroIff(bits);
  }

  /** After the test every owned bit is set, no bit is cleared, and nothing else is set. */
  lemma ContextStepMarks(xxh: Hasher, ctx: seq<bv8>, visited: set<Word>, h: Word, bits: Word, p: nat)
    requires |ctx| == MapSize && p < ContextBits
    requires IsPowerOfTwoOrZero(bits)
    ensures BitSet(ContextStep(xxh, ctx, visited, h, bits).context, p)
        <==> BitSet(ctx, p) || exists prevH :: prevH in visited && p == ContextHash(xxh, prevH, h)
  {
    SetAllBits(ctx, Positions(xxh, visited, h), p);
  }

  /** The test reports a new context exactly when it changes the context map. */
  lemma ContextStepNewIffChanged(xxh: Hasher, ctx: seq<bv8>, visited: set<Word>, h: Word, bits: Word)
    requires |ctx| == MapSize
    ensures var r := ContextStep(xxh, ctx, visited, h, bits);
            r.isNew <==> r.context != ctx
  {
    if IsPowerOfTwoOrZero(bits) {
      var ps := Positions(xxh, visited, h);
      if AnyClear(ctx, ps) {
        var p :| p in ps && !BitSet(ctx, p);
        SetAllBits(ctx, ps, p);
      } else {
        SetAllCovered(ctx, ps);
      }
    }
  }

  /** For a zero or power-of-two count, the test reports a new context exactly when the bit
      of some pair (prev_h, h) with prev_h already visited was clear before the call. */
  lemma ContextStepReportsClear(xxh: Hasher, ctx: seq<bv8>, visited: set<Word>, h: Word, bits: Word)
    requires |ctx| == MapSize
    requires IsPowerOfTwoOrZero(bits)
    ensures ContextStep(xxh, ctx, visited, h, bits).isNew
        <==> exists prevH :: prevH in visited && !BitSet(ctx, ContextHash(xxh, prevH, h))
  {
    var ps := Positions(xxh, visited, h);
    if AnyClear(ctx, ps) {
      var p :| p in ps && !BitSet(ctx, p);
      var prevH :| prevH in visited && p == ContextHash(xxh, prevH, h);
      assert prevH in visited && !BitSet(ctx, ContextHash(xxh, prevH, h));
    }
    if exists prevH :: prevH in visited && !BitSet(ctx, ContextHash(xxh, prevH, h)) {
      var prevH :| prevH in visited && !BitSet(ctx, ContextHash(xxh, prevH, h));
      assert ContextHash(xxh, prevH, h) in ps;
    }
  }

  /** The visited set gains `h` exactly on its first observed hit (`bits == 0`) and nothing else. */
  lemma ContextStepVisited(xxh: Hasher, ctx: seq<bv8>, visited: set<Word>, h: Word, bits: Word)
    requires |ctx| == MapSize
    ensures var r := ContextStep(xxh, ctx, visited, h, bits);
            (h in r.visited <==> h in visited || bits == 0) && r.visited - {h} == visited - {h}
  {
    assert IsPowerOfTwoOrZero(0);
  }
}
