# AflTraceMap in Dafny

A model of `qsym::AflTraceMap`. This is the branch-novelty bitmap that the
concolic executor asks, at every symbolic branch, whether generating an input
for this branch outcome is worth it.

The object owns three `kMapSize` (65536) byte buffers, a visited set of edge
identifiers, and the previous edge identifier `prev_loc_`:

- the **trace map**: AFL-style hit-count bits, persisted;
- the **virgin map**: per-process hit counts;
- the **context map**: a bitset of 524288 bits over pairs of edges, persisted.

A call `isInterestingBranch(pc, taken)` does the following, in order:

1. It hashes the outcome to an edge identifier `h`.
2. It combines `h` with `prev_loc_` into a map index.
3. It runs the context test with the index's old count.
4. It increments the count.
5. If the count shows a bit the trace byte lacks, it or-s that count into the
   trace map, or-s the inverse outcome's provisional next count into the
   inverse index, and commits the two persisted maps to the file.
   Otherwise it commits when the context test found a new context.
6. It sets `prev_loc_` to `h`.

The file is the trace map followed by the context map, raw.

## Layout

- `bits.dfy` (`Bits`): `uintptr_t` as `Word`, in [0, 2^64).
  - `&` and `^` on words are digit-by-digit functions on naturals.
  - `x - 1` wraps modulo 2^64.
  - Map bytes are `bv8`, so `++`, `--`, `|=` and `&` wrap and mask as in C.
  - The power-of-two test is related to the number of set bits.
- `hashing.dfy` (`Hashing`): the bytes handed to XXH32, and `hashPc`,
  `getIndex` and the context-bit hash.
  - XXH32 itself is a parameter `xxh: Hasher`.
- `context.dfy` (`Context`): `isInterestingContext` as the function
  `ContextStep` of the context map, the visited set, `h` and the count, plus
  what it promises.
- `persistence.dfy` (`Persistence`): the file format, what `import` loads, and
  the file system as a map from paths to contents.
- `branch.dfy` (`Branch`): `isInterestingBranch` as the function `BranchStep`
  on a `Snapshot` of the whole object, plus its properties.
- `replay.dfy` (`Replay`): sequences of calls.
  - The maps a run ends with hold every bit the run ever set.
  - Replaying the same branches on a new object loaded from those maps
    answers false to every call.
- `afl_trace_map.dfy` (`TraceMap`): the class `AflTraceMap`.
  - Its fields are the header's members: `path_`, `prev_loc_`, the three
    buffers as arrays, and `visited_` (declared in `driver/afl_trace_map.h`,
    lines 20-25).
  - Its methods update them in place and are proved against the functions
    above.

The same call twice in a row is not "true, then false" in general, and the
model follows the code here. After the first call `prev_loc_` is `h`, so the
second call uses the index `((h >> 1) ^ h) % kMapSize`, which is generally
another index than the first call's. On a freshly constructed object with an
all-zero trace map, the second call finds a new hit count whenever the second
index is neither of the two bytes the first call wrote (`Replay.RepeatedBranch`).
With an empty path, where the context map starts all zero too, the second call
is true whatever its index. The first call put `h` into the visited set. The
second call's count is 0 or 1, so its context test runs and finds the bit of the
pair (h, h) still clear (`Replay.RepeatedBranchOnEmptyMaps`).

## Model

| member | source | states |
|---|---|---|
| Bits.IsPowerOfTwoOrZero | driver/afl_trace_map.cpp:11-13 | The test `(x & (x - 1)) == 0` on a 64-bit word, with the subtraction wrapping. PowerOfTwoOrZeroIff proves it equals "zero or one set bit", and PopCountOne proves that equals "zero or a power of two". |
| Bits.PowerOfTwoOrZeroIff | driver/afl_trace_map.cpp:11-13 | `(x & (x - 1)) == 0` on a 64-bit word, with `0 - 1` wrapping to all ones, holds exactly when x is zero or has exactly one set bit. |
| Bits.PopCountOne | driver/afl_trace_map.cpp:11-13 | A word has exactly one set bit iff it equals 2^k for some k, so the test accepts exactly zero and the powers of two. |
| Bits.Widen | driver/afl_trace_map.cpp:139 | Passing a `uint8_t` count as `uintptr_t` gives a value below 256 that is zero exactly when the byte is zero. |
| Bits.WidenValue | driver/afl_trace_map.cpp:139 | The widened count equals the byte's value, so the power-of-two test sees the exact count. |
| Hashing.PcInput | driver/afl_trace_map.cpp:28-32 | XXH32 receives 9 bytes: the 8 bytes of `pc`, then the 1-byte `bool`. |
| Hashing.PcInputInjective | driver/afl_trace_map.cpp:28-32 | Distinct (pc, taken) pairs hand distinct inputs to XXH32, so only the hash and the reduction can collide. |
| Hashing.WordBytes | driver/afl_trace_map.cpp:94-95 | The `sizeof(uintptr_t)` = 8 bytes of a word as XXH32 reads it from memory, least significant first. WordBytesInjective and LeBytesRoundTrip prove no information is lost. |
| Hashing.WordBytesInjective | driver/afl_trace_map.cpp:94-95 | The 8 bytes of a word determine the word. |
| Hashing.HashPc | driver/afl_trace_map.cpp:15-34 | The edge identifier lies in [0, kMapSize). |
| Hashing.GetIndex | driver/afl_trace_map.cpp:72-74 | The map index lies in [0, kMapSize). |
| Hashing.GetIndexInjective | driver/afl_trace_map.cpp:72-74 | For a fixed previous edge, two edge identifiers share a map index iff they are equal. |
| Hashing.ContextHash | driver/afl_trace_map.cpp:91-97 | The context hash of (prev_h, h) is a bit position below kMapSize * 8. |
| Bits.Mask | driver/afl_trace_map.cpp:99 | The mask `1 << (hash % 8)` for a bit position inside a byte. MaskSingleBit proves it has exactly one bit, and ContextSlotInBounds applies this to the context hash. |
| Hashing.ContextSlotInBounds | driver/afl_trace_map.cpp:97-99 | `hash / 8` indexes inside the context map, and `1 << (hash % 8)` has exactly one bit, bit `hash % 8`. |
| Context.ContextStep | driver/afl_trace_map.cpp:76-111 | `isInterestingContext` on the context map, the visited set, h and the count; the map stays kMapSize bytes. ContextStepSkips, ContextStepMarks, ContextStepReportsClear, ContextStepNewIffChanged and ContextStepVisited state what it does, and IsInterestingContext is proved equal to it. |
| Context.MarkStep | driver/afl_trace_map.cpp:101-104 | One loop iteration adds its pair's bit to the accumulated map, and the flag becomes true exactly when that bit was clear. |
| Context.ContextStepSkips | driver/afl_trace_map.cpp:82-84 | A count with two or more set bits returns false and changes neither the context map nor the visited set. |
| Context.ContextStepMarks | driver/afl_trace_map.cpp:86-105 | After the test, a context bit is set iff it was set before or belongs to a pair (prev_h, h) with prev_h in the visited set before the call. |
| Context.ContextStepReportsClear | driver/afl_trace_map.cpp:86-105 | For a zero or power-of-two count, the result is true iff the bit of some pair (prev_h, h), with prev_h already visited, was clear before the call. |
| Context.ContextStepNewIffChanged | driver/afl_trace_map.cpp:76-111 | The context test returns true exactly when it changes the context map. |
| Context.ContextStepVisited | driver/afl_trace_map.cpp:107-108 | h joins the visited set iff the count was zero (h being there already aside), and no other identifier is added or removed. |
| Persistence.Zeros | driver/afl_trace_map.cpp:53-54 | A buffer after `memset(buf, 0, kMapSize)`: n bytes, every one zero. |
| Persistence.Image | driver/afl_trace_map.cpp:119-120 | The bytes commit writes: the trace map then the context map, so the length is the sum. LoadImage proves that loading them restores both maps. |
| Persistence.Load | driver/afl_trace_map.cpp:57-70 | A missing file, or one shorter than 2 * kMapSize bytes, leaves both maps all zero. Otherwise the first kMapSize bytes are the trace map and the next kMapSize bytes the context map. |
| Persistence.LoadImage | driver/afl_trace_map.cpp:119-120 | Loading the bytes that commit writes gives back exactly the two maps. |
| Persistence.FileSystem.Read | driver/afl_trace_map.cpp:58-60 | Opening a path succeeds exactly when the file exists. |
| Branch.Fresh | driver/afl_trace_map.cpp:125-134 | The state after construction: `prev_loc_` 0, an all-zero virgin map, an empty visited set, and the given persisted maps, all well formed. The constructor is proved to reach it. |
| Branch.NewHitCount | driver/afl_trace_map.cpp:144 | The test that the incremented count, or-ed with the trace byte, differs from the trace byte: the count has a bit the trace byte lacks. BranchRecordsCount proves it is false for the count just recorded, and BranchMarksInverse that it is false for the inverse outcome's next count. |
| Branch.MarkHit | driver/afl_trace_map.cpp:148-153 | The trace map after a new hit count keeps its length. MarkHitKeeps proves it clears no bit, and MarkHitRecords that it holds the count and the inverse outcome's next count. |
| Branch.Transition | driver/afl_trace_map.cpp:136-168 | The call leaves the three maps at kMapSize bytes and sets `prev_loc_` to the current edge identifier h (not the index). |
| Branch.BranchStep | driver/afl_trace_map.cpp:136-168 | `isInterestingBranch(pc, taken)` is the transition for `hashPc(pc, taken)` with inverse `hashPc(pc, !taken)`; `prev_loc_` becomes `hashPc(pc, taken)`. |
| Branch.BranchStepFromPhases | driver/afl_trace_map.cpp:136-168 | The context test, the increment, then the trace update or nothing, with result "hit or new context", compose to exactly the call's result and new state. |
| Branch.BranchMonotone | driver/afl_trace_map.cpp:144-161 | No call clears a bit of the trace map or of the context map. |
| Branch.BranchCountsHit | driver/afl_trace_map.cpp:142-156 | The net effect on the virgin map is +1 (mod 256) at the branch's own index. Every other counter, the inverse one included, is unchanged. |
| Branch.BranchRecordsCount | driver/afl_trace_map.cpp:144-148 | After every call, the trace byte at the index contains every bit of the index's new count. |
| Branch.BranchMarksInverse | driver/afl_trace_map.cpp:145-153 | After a new hit count, the inverse outcome taken next from the same previous edge finds its count already recorded. |
| Branch.BranchInterestingIffChanged | driver/afl_trace_map.cpp:144-164 | The call returns true exactly when it changes the trace map or the context map. |
| Branch.FirstBranchInteresting | driver/afl_trace_map.cpp:125-158 | On a freshly constructed object with an all-zero trace map, the first call returns true. |
| Replay.RunMonotone | driver/afl_trace_map.cpp:136-168 | The persisted maps at the end of a sequence of calls hold every bit of the state the run started from. |
| Replay.RunCoversPrefix | driver/afl_trace_map.cpp:136-168 | The persisted maps at the end of a run hold every bit of the state after any prefix of it, that is, of every intermediate state. |
| Replay.ReplayStep | driver/afl_trace_map.cpp:136-168 | A call replayed with the same counters, on maps covering the state after the original call, returns false, keeps those maps, and moves `prev_loc_`, the counters and the visited set as the original did. |
| Replay.ReplayAgrees | driver/afl_trace_map.cpp:136-168 | Replaying a sequence with the original run's counters on the maps that run ended with answers false to every call and changes no map. |
| Replay.ReplayIsStale | driver/afl_trace_map.cpp:125-168 | A new object loaded from the file holding the maps a run ended with, fed the same branches, answers false to every call and keeps those maps. |
| Replay.RepeatedBranch | driver/afl_trace_map.cpp:136-168 | On a fresh all-zero trace map the first call is interesting, and so is an identical second call whenever its index (which follows h) is neither byte the first call wrote. |
| Replay.NewContextInteresting | driver/afl_trace_map.cpp:159-161 | A call whose context test reports a new context returns true, hit count or not. |
| Replay.RepeatedBranchOnEmptyMaps | driver/afl_trace_map.cpp:136-168 | On a fresh object with both persisted maps all zero, the same call twice returns true both times, because the second call's context test finds the pair (h, h) new. |
| TraceMap.Memset | driver/afl_trace_map.cpp:53-54 | `memset(buf, 0, kMapSize)` leaves the buffer all zero. |
| TraceMap.OrInto | driver/afl_trace_map.cpp:148 | Or-assigning v into byte i changes that byte to its old value or-ed with v and nothing else. |
| TraceMap.Increment | driver/afl_trace_map.cpp:142 | `virgin_map_[i]++` wraps at 256 and changes nothing else. |
| TraceMap.Decrement | driver/afl_trace_map.cpp:156 | `virgin_map_[i]--` wraps at 0 and changes nothing else. |
| TraceMap.AflTraceMap.constructor | driver/afl_trace_map.cpp:125-134 | A new object has fresh buffers, `prev_loc_ == 0`, an empty visited set and an all-zero virgin map. Its persisted maps are all zero for an empty path, else what `import` loads. |
| TraceMap.AflTraceMap.SetDefault | driver/afl_trace_map.cpp:52-55 | Both persisted maps become all zero. |
| TraceMap.AflTraceMap.Import | driver/afl_trace_map.cpp:57-70 | The persisted maps become `Load` of the file at the path. |
| TraceMap.AflTraceMap.Commit | driver/afl_trace_map.cpp:113-123 | With a non-empty path the file becomes the trace map followed by the context map; with an empty path no file changes. |
| TraceMap.AflTraceMap.IsInterestingContext | driver/afl_trace_map.cpp:76-111 | The loop over the visited set, in whatever order it runs, returns and leaves behind exactly `ContextStep`. |
| TraceMap.AflTraceMap.RecordHit | driver/afl_trace_map.cpp:145-157 | A new hit count updates the trace map to `MarkHit` and commits it. The inverse counter's provisional increment is rolled back, so the virgin map is unchanged. |
| TraceMap.AflTraceMap.RecordOutcome | driver/afl_trace_map.cpp:144-164 | The result is "hit or new context" and the trace map is updated only on a hit. The file is written exactly when the result is true (and the path is non-empty). |
| TraceMap.AflTraceMap.IsInterestingBranch | driver/afl_trace_map.cpp:136-168 | The method returns and leaves behind exactly `BranchStep` of the old state, and commits the new persisted maps exactly when it returns true. |

## Left out

- XXH32 is not computed. It is the parameter `xxh` (bytes to a 32-bit value) of every hashing member, so every statement holds for any hash function. Collisions are not excluded.
- The byte layout passed to XXH32 assumes a 64-bit little-endian target with a one-byte `bool` holding 0 or 1.
- `safeMalloc` failure (a null buffer) is not modelled; the model's allocations always succeed. The "out of memory" message goes to stderr.
- Stream errors other than a missing file are not modelled: the file system reads and writes whole contents. A short file is modelled, because truncation falls back to zero maps.
- Commit: a failed open for writing, and a write that then fails, are not modelled. The stderr message is left out too.
- Stderr diagnostics are left out.
- Concurrent processes sharing the bitmap file are not modelled. The file system is a single map updated by one object.
- The iteration order of `std::set` is not modelled. `IsInterestingContext` picks elements in an arbitrary order, and its result is proved to be independent of it.
- The `FFL`/`FF` macros are not modelled: the core never uses them. The commented-out Pin image lookup in `hashPc` and the `context_sensitive` knob are not modelled either, because they are not compiled.
- `isInterestingBranch` is split into the methods `RecordOutcome` and `RecordHit`. The split is proof structure only; the statements and their order are the source's.
