/** The persisted bitmap file: `kMapSize` bytes of trace map immediately
    followed by `kMapSize` bytes of context map, raw, with no header. The file
    system is a map from paths to contents; a path it does not hold is a file
    that cannot be opened. */
module Persistence {
  import opened Hashing

  datatype Option<T> = None | Some(value: T)

  /** A buffer after `memset(buf, 0, n)`. */
  function Zeros(n: nat): (r: seq<bv8>)
    ensures |r| == n
    ensures forall i :: 0 <= i < n ==> r[i] == 0
  {
    seq(n, _ => 0)
  }

  /** The two persisted maps. */
  datatype Maps = Maps(trace: seq<bv8>, context: seq<bv8>)

  /** The bytes `commit` writes. */
  function Image(m: Maps): (bytes: seq<bv8>)
    ensures |bytes| == |m.trace| + |m.context|
  {
    m.trace + m.context
  }

  /** The maps `import` leaves: both all zero when the file cannot be opened or is
      shorter than `2 * kMapSize`, otherwise its first two `kMapSize`-byte blocks. */
  function Load(file: Option<seq<bv8>>): (m: Maps)
    ensures |m.trace| == MapSize && |m.context| == MapSize
    ensures file.None? || |file.value| < 2 * MapSize ==> m == Maps(Zeros(MapSize), Zeros(MapSize))
    ensures file.Some? && |file.value| >= 2 * MapSize ==> Image(m) == file.value[..2 * MapSize]
  {
    match file
    case None => Maps(Zeros(MapSize), Zeros(MapSize))
    case Some(bytes) =>
      if |bytes| < 2 * MapSize then Maps(Zeros(MapSize), Zeros(MapSize))
      else Maps(bytes[..MapSize], bytes[MapSize..2 * MapSize])
  }

  /** Reading back what `commit` wrote restores exactly the two maps. */
  lemma LoadImage(m: Maps)
    requires |m.trace| == MapSize && |m.context| == MapSize
    ensures Load(Some(Image(m))) == m
  {
    assert Image(m)[..MapSize] == m.trace;
    assert Image(m)[MapSize..2 * MapSize] == m.context;
  }

  /** The files the bitmap is loaded from and committed to. */
  class FileSystem {
    var files: map<string, seq<bv8>>

    constructor (files: map<string, seq<bv8>>)
      ensures this.files == files
    {
      this.files := files;
    }

    /** `ifstream::open`: the contents, or `None` when the open fails. */
    function Read(path: string): (file: Option<seq<bv8>>)
      reads this
      ensures file.Some? <==> path in files
    {
      if path in files then Some(files[path]) else None
    }
  }
}
