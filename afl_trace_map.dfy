/** `qsym::AflTraceMap`: the object, its three byte buffers updated in place,
    the visited set and the previous edge identifier. Every method is proved
    against the functions of `Branch`, `Context` and `Persistence`. */
module TraceMap {
  import opened Bits
  import opened Hashing
  import opened Context
  import opened Persistence
  import opened Branch

  /** `memset(a, 0, a.Length)`. */
  method Memset(a: array<bv8>)
    modifies a
    ensures a[..] == Zeros(a.Length)
  {
    forall i | 0 <= i < a.Length {
      a[i] := 0;
    }
  }

  /** `a[i] |= v` on a byte buffer. */
  method OrInto(a: array<bv8>, i: nat, v: bv8)
    requires i < a.Length
    modifies a
    ensures a[..] == old(a[..])[i := old(a[i]) | v]
  {
    a[i] := a[i] | v;
  }

  /** `a[i]++` on a byte buffer, wrapping at 256. */
  method Increment(a: array<bv8>, i: nat)
    requires i < a.Length
    modifies a
    ensures a[..] == old(a[..])[i := old(a[i]) + 1]
  {
    a[i] := a[i] + 1;
  }

  /** `a[i]--` on a byte buffer, wrapping at 0. */
  method Decrement(a: array<bv8>, i: nat)
    requires i < a.Length
    modifies a
    ensures a[..] == old(a[..])[i := old(a[i]) - 1]
  {
    a[i] := a[i] - 1;
  }

  class AflTraceMap {
    /** `path_`: set at construction, never reassigned. */
    const path: string
    /** `prev_loc_`: the edge identifier of the previous branch. */
    var prevLoc: Word
    /** The three `kMapSize`-byte buffers; the pointers are only assigned by `allocMap`. */
    const traceMap: array<bv8>
    const virginMap: array<bv8>
    const contextMap: array<bv8>
    /** `visited_`: edge identifiers seen on their first hit. */
    var visited: set<Word>

    ghost predicate Valid()
      reads this
    {
      traceMap.Length == MapSize && virginMap.Length == MapSize && contextMap.Length == MapSize
      && traceMap != virginMap && traceMap != contextMap && virginMap != contextMap
      && prevLoc < MapSize
    }

    /** The object's state apart from `path_`. */
    ghost function Snap(): Snapshot
      reads this, traceMap, virginMap, contextMap
    {
      Snapshot(prevLoc, traceMap[..], virginMap[..], contextMap[..], visited)
    }

    /** The maps `commit` persists. */
    ghost function Persisted(): Maps
      reads traceMap, contextMap
    {
      Maps(traceMap[..], contextMap[..])
    }

    /** `AflTraceMap(path)`: allocate, zero the virgin map, then zero or load the persisted maps. */
    constructor (path: string, fs: FileSystem)
      ensures Valid()
      ensures fresh(traceMap) && fresh(virginMap) && fresh(contextMap)
      ensures this.path == path
      ensures Snap() == Fresh(if path == "" then Maps(Zeros(MapSize), Zeros(MapSize)) else Load(fs.Read(path)))
    {
      this.path := path;
      prevLoc := 0;
      visited := {};
      // allocMap
      traceMap := new bv8[MapSize];
      virginMap := new bv8[MapSize];
      contextMap := new bv8[MapSize];
      new;
      Memset(virginMap);
      if path == "" {
        SetDefault();
      } else {
        Import(path, fs);
      }
    }

    /** `setDefault`: both persisted maps all zero. */
    method SetDefault()
      requires Valid()
      modifies traceMap, contextMap
      ensures Persisted() == Maps(Zeros(MapSize), Zeros(MapSize))
    {
      Memset(traceMap);
      Memset(contextMap);
    }

    /** `import(path)`: load both persisted maps, falling back to all zero. */
    method Import(path: string, fs: FileSystem)
      requires Valid()
      modifies traceMap, contextMap
      ensures Persisted() == Load(fs.Read(path))
    {
      var file := fs.Read(path);
      if file.None? {
        SetDefault();
        return;
      }
      var bytes := file.value;
      if |bytes| < 2 * MapSize {
        // a short read of either map fails the stream
        SetDefault();
      } else {
        forall i | 0 <= i < MapSize {
          traceMap[i] := bytes[i];
        }
        forall i | 0 <= i < MapSize {
          contextMap[i] := bytes[MapSize + i];
        }
        assert traceMap[..] == bytes[..MapSize];
        assert contextMap[..] == bytes[MapSize..2 * MapSize];
      }
    }

    /** `commit`: with a path, overwrite the file with the trace map and then the context map. */
    method Commit(fs: FileSystem)
      modifies fs
      ensures fs.files == if path == "" then old(fs.files) else old(fs.files)[path := Image(Persisted())]
    {
      if path != "" {
        fs.files := fs.files[path := traceMap[..] + contextMap[..]];
      }
    }

    /** `isInterestingContext(h, bits)`: the loop over the visited set. */
    method IsInterestingContext(xxh: Hasher, h: Word, bits: Word) returns (interesting: bool)
      requires Valid()
      modifies this`visited, contextMap
      ensures ContextStep(xxh, old(contextMap[..]), old(visited), h, bits)
           == ContextResult(interesting, contextMap[..], visited)
    {
      interesting := false;

      // a count that is neither zero nor a power of two skips the test
      if !IsPowerOfTwoOrZero(bits) {
        return false;
      }

      ghost var ctx0 := contextMap[..];
      var todo := visited;
      ghost var done: set<Word> := {};
      while todo != {}
        invariant visited == old(visited)
        invariant todo + done == visited && todo !! done
        invariant contextMap[..] == SetAll(ctx0, Positions(xxh, done, h))
        invariant interesting == AnyClear(ctx0, Positions(xxh, done, h))
        decreases todo
      {
        var prevH :| prevH in todo;
        var hash := ContextHash(xxh, prevH, h);
        var idx := hash / 8;
        var mask := Mask(hash % 8);
        MarkStep(ctx0, Positions(xxh, done, h), hash);
        PositionsAdd(xxh, done, h, prevH);
        if contextMap[idx] & mask == 0 {
          contextMap[idx] := contextMap[idx] | mask;
          interesting := true;
        }
        todo := todo - {prevH};
        done := done + {prevH};
      }

      if bits == 0 {
        visited := visited + {h};
      }
    }

    /** The new-hit branch of `isInterestingBranch`: record the count at `idx`, record the
        inverse branch's next count at `invIdx` while committing, then restore its counter. */
    method RecordHit(idx: Word, invIdx: Word, fs: FileSystem)
      requires Valid() && idx < MapSize && invIdx < MapSize
      modifies traceMap, virginMap, fs
      ensures traceMap[..] == MarkHit(old(traceMap[..]), old(virginMap[..]), idx, invIdx)
      ensures virginMap[..] == old(virginMap[..])
      ensures fs.files == if path == "" then old(fs.files) else old(fs.files)[path := Image(Persisted())]
    {
      ghost var trace0 := traceMap[..];
      ghost var virgin := virginMap[..];
      OrInto(traceMap, idx, virginMap[idx]);

      // count the other outcome provisionally so that its next count is recorded too
      Increment(virginMap, invIdx);

      OrInto(traceMap, invIdx, virginMap[invIdx]);
      assert traceMap[..] == MarkHit(trace0, virgin, idx, invIdx);
      Commit(fs);

      Decrement(virginMap, invIdx);
      assert virginMap[..] == virgin;
    }

    /** `isInterestingBranch` after the context test and the counter increment: test the
        new count against the trace map, record and commit, or commit for a new context. */
    method RecordOutcome(xxh: Hasher, pc: Word, taken: bool, idx: Word, newContext: bool, fs: FileSystem)
      returns (ret: bool)
      requires Valid() && idx < MapSize
      modifies traceMap, virginMap, fs
      ensures var hit := NewHitCount(old(virginMap[idx]), old(traceMap[idx]));
              && ret == (hit || newContext)
              && traceMap[..] == (if hit then MarkHit(old(traceMap[..]), old(virginMap[..]), idx,
                                                     GetIndex(prevLoc, HashPc(xxh, pc, !taken)))
                                  else old(traceMap[..]))
              && virginMap[..] == old(virginMap[..])
              && fs.files == if ret && path != "" then old(fs.files)[path := Image(Persisted())] else old(fs.files)
    {
      if virginMap[idx] | traceMap[idx] != traceMap[idx] {
        var invH := HashPc(xxh, pc, !taken);
        var invIdx := GetIndex(prevLoc, invH);
        RecordHit(idx, invIdx, fs);
        ret := true;
      } else if newContext {
        ret := true;
        Commit(fs);
      } else {
        ret := false;
      }
    }

    /** `isInterestingBranch(pc, taken)`. */
    method IsInterestingBranch(xxh: Hasher, pc: Word, taken: bool, fs: FileSystem) returns (ret: bool)
      requires Valid()
      modifies this`prevLoc, this`visited, traceMap, virginMap, contextMap, fs
      ensures Valid()
      ensures BranchStep(xxh, old(Snap()), pc, taken) == BranchResult(ret, Snap())
      ensures fs.files == if ret && path != "" then old(fs.files)[path := Image(Persisted())] else old(fs.files)
    {
      ghost var s := Snap();
      var h := HashPc(xxh, pc, taken);
      var idx := GetIndex(prevLoc, h);
      var newContext := IsInterestingContext(xxh, h, Widen(virginMap[idx]));
      ret := true;

      Increment(virginMap, idx);
      ghost var virgin := virginMap[..];
      ret := RecordOutcome(xxh, pc, taken, idx, newContext, fs);
      BranchStepFromPhases(xxh, s, pc, taken, newContext, contextMap[..], visited, virgin, traceMap[..], ret);
      prevLoc := h;
    }
  }
}
