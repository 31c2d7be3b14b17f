/**
  The brute-force mode (hashbuster.py, brute_force_attack): for every length
  from 1 to the maximum, the keyspace `base ** length` is cut into one work
  unit per process, and the units are scanned by brute_worker.
 */
module Chunking {
  import opened Common
  import opened Keyspace

  /** `max(total // processes, 1)`. */
  function ChunkSize(total: nat, processes: nat): (size: nat)
    requires processes >= 1
    ensures size >= 1
    ensures size == 1 || size * processes <= total
  {
    Max(total / processes, 1)
  }

  /** The work units of one length: unit `i` is
      `(length, i * size, min((i + 1) * size, total))`. */
  function Chunks(length: nat, total: nat, processes: nat): (units: seq<WorkUnit>)
    requires processes >= 1
    ensures |units| == processes
    ensures forall i :: 0 <= i < |units| ==> units[i].length == length && units[i].end <= total
  {
    var size := ChunkSize(total, processes);
    seq(processes, i requires 0 <= i < processes => WorkUnit(length, i * size, Min((i + 1) * size, total)))
  }

  /** Where the covered prefix of the keyspace ends: the units together are
      `range(0, Reach(total, processes))`. */
  function Reach(total: nat, processes: nat): (r: nat)
    requires processes >= 1
    ensures r <= total
  {
    Min(processes * ChunkSize(total, processes), total)
  }

  lemma MulLe(a: nat, b: nat, c: nat)
    requires a <= b
    ensures a * c <= b * c
  {
  }

  /** Units come in increasing order and never overlap: each one ends at or
      before the start of every later one. */
  lemma ChunksOrdered(length: nat, total: nat, processes: nat, i: nat, j: nat)
    requires processes >= 1 && i < j < processes
    ensures var units := Chunks(length, total, processes);
      units[i].end <= units[j].start && units[i].start < units[j].start
  {
    var units := Chunks(length, total, processes);
    var size := ChunkSize(total, processes);
    assert units[i] == WorkUnit(length, i * size, Min((i + 1) * size, total));
    assert units[j] == WorkUnit(length, j * size, Min((j + 1) * size, total));
    MulLe(i + 1, j, size);
    assert i * size + size == (i + 1) * size;
  }

  /** No index belongs to two units. */
  lemma ChunksDisjoint(length: nat, total: nat, processes: nat, i: nat, j: nat, idx: nat)
    requires processes >= 1 && i < processes && j < processes && i != j
    ensures var units := Chunks(length, total, processes);
      !(InUnit(units[i], idx) && InUnit(units[j], idx))
  {
    if i < j {
      ChunksOrdered(length, total, processes, i, j);
    } else {
      ChunksOrdered(length, total, processes, j, i);
    }
  }

  /** Every index below the reach lies in a unit, the one numbered
      `idx / size`. */
  lemma CoveringUnit(length: nat, total: nat, processes: nat, idx: nat) returns (k: nat)
    requires processes >= 1 && idx < Reach(total, processes)
    ensures k < processes && InUnit(Chunks(length, total, processes)[k], idx)
  {
    var size := ChunkSize(total, processes);
    k := idx / size;
    DivBelow(idx, size, processes);
    MulAtLeastSucc(k, size, idx);
    var units := Chunks(length, total, processes);
    assert units[k] == WorkUnit(length, k * size, Min((k + 1) * size, total));
  }

  lemma MulAtLeastSucc(k: nat, size: nat, idx: nat)
    requires size >= 1 && k == idx / size
    ensures k * size <= idx < (k + 1) * size
  {
    DivMod(idx, size);
  }

  /** An index lies in some unit exactly when it is below the reach. */
  lemma ChunksCover(length: nat, total: nat, processes: nat, idx: nat)
    requires processes >= 1
    ensures (exists k :: 0 <= k < processes && InUnit(Chunks(length, total, processes)[k], idx))
        <==> idx < Reach(total, processes)
  {
    var units := Chunks(length, total, processes);
    var size := ChunkSize(total, processes);
    if idx < Reach(total, processes) {
      var k := CoveringUnit(length, total, processes, idx);
    } else {
      forall k | 0 <= k < processes
        ensures !InUnit(units[k], idx)
      {
        assert units[k] == WorkUnit(length, k * size, Min((k + 1) * size, total));
        MulLe(k + 1, processes, size);
      }
    }
  }

  /** The units cover the whole keyspace exactly when the process count
      divides it or is at least as large; otherwise the last
      `total - processes * size` indices are in no unit. */
  lemma ReachIsTotal(total: nat, processes: nat)
    requires processes >= 1
    ensures Reach(total, processes) == total <==> (total % processes == 0 || processes >= total)
  {
    var size := ChunkSize(total, processes);
    DivMod(total, processes);
    if processes < total {
      assert total / processes >= 1 by {
        DivModUnique(1, 0, processes);
        DivMonotone(processes, total, processes);
      }
      assert size == total / processes;
    } else if processes == total {
      DivModUnique(1, 0, processes);
    } else {
      DivModUnique(0, total, processes);
    }
  }

  lemma DivMonotone(x: nat, y: nat, b: nat)
    requires b >= 1 && x <= y
    ensures x / b <= y / b
  {
    DivMod(x, b);
    DivMod(y, b);
    if x / b > y / b {
      MulLe(y / b + 1, x / b, b);
    }
  }

  /** The repair of the trailing gap: the last unit runs to `total`, so
      the remainder of `total // processes` is not lost. */
  function CoveringChunks(length: nat, total: nat, processes: nat): (units: seq<WorkUnit>)
    requires processes >= 1
    ensures |units| == processes
    ensures forall i :: 0 <= i < |units| ==> units[i].length == length && units[i].end <= total
  {
    var size := ChunkSize(total, processes);
    seq(processes, i requires 0 <= i < processes =>
      WorkUnit(length, i * size, if i == processes - 1 then total else Min((i + 1) * size, total)))
  }

  /** With the repair, the units are still in increasing order and do not
      overlap. */
  lemma CoveringChunksOrdered(length: nat, total: nat, processes: nat, i: nat, j: nat)
    requires processes >= 1 && i < j < processes
    ensures var units := CoveringChunks(length, total, processes);
      units[i].end <= units[j].start && units[i].start < units[j].start
  {
    var units := CoveringChunks(length, total, processes);
    var plain := Chunks(length, total, processes);
    ChunksOrdered(length, total, processes, i, j);
    assert units[i] == plain[i];
    assert units[j].start == plain[j].start;
  }

  /** With the repair, the units together are exactly `range(0, total)`. */
  lemma CoveringChunksCover(length: nat, total: nat, processes: nat, idx: nat)
    requires processes >= 1
    ensures (exists k :: 0 <= k < processes && InUnit(CoveringChunks(length, total, processes)[k], idx))
        <==> idx < total
  {
    var units := CoveringChunks(length, total, processes);
    var plain := Chunks(length, total, processes);
    if idx < Reach(total, processes) {
      var k := CoveringUnit(length, total, processes, idx);
      assert units[k].start == plain[k].start;
      assert k < processes - 1 ==> units[k] == plain[k];
    } else if idx < total {
      var last := processes - 1;
      var size := ChunkSize(total, processes);
      assert units[last] == WorkUnit(length, last * size, total);
      assert last * size + size == processes * size;
      assert InUnit(units[last], idx);
    }
  }

  /** Why brute_force_attack raises before it searches any length. */
  datatype Crash =
    | ZeroDivision  // `total // processes` with no processes
    | PoolSize      // multiprocessing.Pool refuses a negative process count

  /** Every index the units of this length cover decodes to a password the
      checker rejects. */
  ghost predicate Exhausted(charset: string, length: nat, processes: int, accepts: string -> bool)
  {
    length >= 1 && processes >= 1 &&
    forall idx: nat :: idx < Reach(Pow(|charset|, length), processes) ==> !accepts(Decode(charset, length, idx))
  }

  /** When every unit's worker comes back empty, the length is exhausted. */
  lemma UnitsExhausted(charset: string, length: nat, processes: nat, accepts: string -> bool)
    requires length >= 1 && processes >= 1
    requires forall j :: 0 <= j < processes ==>
      WorkerResult(charset, Chunks(length, Pow(|charset|, length), processes)[j], accepts) == None
    ensures Exhausted(charset, length, processes, accepts)
  {
    var total := Pow(|charset|, length);
    var units := Chunks(length, total, processes);
    forall idx: nat | idx < Reach(total, processes)
      ensures !accepts(Decode(charset, length, idx))
    {
      var k := CoveringUnit(length, total, processes, idx);
      assert WorkerResult(charset, units[k], accepts) == None;
    }
  }

  /** The `for result in results` loop of one length, without the pool:
      every unit goes to brute_worker, and the first result that is a
      password ends the scan. */
  method ScanUnits(charset: string, units: seq<WorkUnit>, accepts: string -> bool) returns (found: Option<string>)
    requires forall j :: 0 <= j < |units| ==>
      units[j].length >= 1 && (|charset| >= 1 || units[j].start >= units[j].end)
    ensures found.Some? ==> exists j :: 0 <= j < |units| && WorkerResult(charset, units[j], accepts) == found
    ensures found.None? ==> forall j :: 0 <= j < |units| ==> WorkerResult(charset, units[j], accepts) == None
  {
    var k := 0;
    while k < |units|
      invariant 0 <= k <= |units|
      invariant forall j :: 0 <= j < k ==> WorkerResult(charset, units[j], accepts) == None
    {
      found := BruteWorker(units[k], charset, accepts);
      if found.Some? {
        return;
      }
      k := k + 1;
    }
    found := None;
  }

  /** brute_force_attack without the process pool: lengths 1 to
      `maxLength` in increasing order, each length's units scanned by
      ScanUnits. The pool hands back unit results in completion order, so the
      contract does not say WHICH unit of the length supplies the password. */
  method BruteForceAttack(charset: string, maxLength: int, processes: int, accepts: string -> bool)
    returns (r: Result<Option<string>, Crash>)
    ensures r.Err? <==> maxLength >= 1 && processes < 1
    ensures r == Err(ZeroDivision) <==> maxLength >= 1 && processes == 0
    ensures r.Ok? && r.value.Some? ==>
      var c := r.value.value;
      1 <= |c| <= maxLength && accepts(c) && processes >= 1 &&
      (exists u :: u in Chunks(|c|, Pow(|charset|, |c|), processes) && WorkerResult(charset, u, accepts) == Some(c)) &&
      forall length :: 1 <= length < |c| ==> Exhausted(charset, length, processes, accepts)
    ensures r == Ok(None) ==> forall length :: 1 <= length <= maxLength ==> Exhausted(charset, length, processes, accepts)
  {
    if maxLength < 1 {
      return Ok(None);
    }
    if processes == 0 {
      return Err(ZeroDivision);
    }
    if processes < 0 {
      return Err(PoolSize);
    }
    var base := |charset|;
    var length := 1;
    while length <= maxLength
      invariant 1 <= length <= maxLength + 1
      invariant forall l :: 1 <= l < length ==> Exhausted(charset, l, processes, accepts)
    {
      var total := Pow(base, length);
      var units := Chunks(length, total, processes);
      var found := ScanUnits(charset, units, accepts);
      if found.Some? {
        var j :| 0 <= j < |units| && WorkerResult(charset, units[j], accepts) == found;
        assert units[j] in units;
        return Ok(found);
      }
      UnitsExhausted(charset, length, processes, accepts);
      length := length + 1;
    }
    return Ok(None);
  }

  /** Where the units do cover the whole keyspace, an exhausted length
      means no password of that length over the charset is accepted. */
  lemma ExhaustedRulesOutAll(charset: string, processes: nat, accepts: string -> bool, s: string)
    requires |charset| >= 1 && Over(charset, s)
    requires Exhausted(charset, |s|, processes, accepts)
    requires var total := Pow(|charset|, |s|); total % processes == 0 || processes >= total
    ensures !accepts(s)
  {
    ReachIsTotal(Pow(|charset|, |s|), processes);
    DecodeOfValue(charset, s);
  }

  /** Three symbols and two processes: the units are `range(0, 1)` and
      `range(1, 2)`, so the password "c" (index 2) is never tried although
      it is the target. */
  lemma MissedPassword()
    ensures Chunks(1, 3, 2) == [WorkUnit(1, 0, 1), WorkUnit(1, 1, 2)]
    ensures Decode("abc", 1, 2) == "c"
    ensures Exhausted("abc", 1, 2, s => s == "c")
  {
    assert ChunkSize(3, 2) == 1;
    var units := Chunks(1, 3, 2);
    assert units[0] == WorkUnit(1, 0 * 1, Min(1 * 1, 3));
    assert units[1] == WorkUnit(1, 1 * 1, Min(2 * 1, 3));
    assert Reach(3, 2) == 2;
    assert Decode("abc", 1, 0) == "a";
    assert Decode("abc", 1, 1) == "b";
  }

  /** The same case run through the whole attack: it reports no password. */
  method MissedPasswordAttack() returns (r: Result<Option<string>, Crash>)
    ensures r == Ok(None)
  {
    r := BruteForceAttack("abc", 1, 2, s => s == "c");
    MissedPassword();
    if r.Ok? && r.value.Some? {
      assert false;
    }
  }

  /** With the repaired units, a length whose workers all come back empty
      has no accepted password over the charset. */
  lemma CoveringExhausted(charset: string, length: nat, processes: nat, accepts: string -> bool)
    requires length >= 1 && processes >= 1
    requires forall j :: 0 <= j < processes ==>
      WorkerResult(charset, CoveringChunks(length, Pow(|charset|, length), processes)[j], accepts) == None
    ensures forall s :: Over(charset, s) && |s| == length ==> !accepts(s)
  {
    var total := Pow(|charset|, length);
    var units := CoveringChunks(length, total, processes);
    forall s | Over(charset, s) && |s| == length
      ensures !accepts(s)
    {
      assert s[0] in charset;
      DecodeOfValue(charset, s);
      var idx := Value(charset, s);
      CoveringChunksCover(length, total, processes, idx);
      var k :| 0 <= k < processes && InUnit(units[k], idx);
      assert WorkerResult(charset, units[k], accepts) == None;
    }
  }

  /** brute_force_attack over the repaired units: the same length loop, and
      now no result means that no password of 1 to `maxLength` characters
      over the charset is accepted, and a result is a shortest accepted
      password. */
  method RepairedBruteForceAttack(charset: string, maxLength: int, processes: int, accepts: string -> bool)
    returns (r: Result<Option<string>, Crash>)
    ensures r.Err? <==> maxLength >= 1 && processes < 1
    ensures r == Err(ZeroDivision) <==> maxLength >= 1 && processes == 0
    ensures r.Ok? && r.value.Some? ==>
      var c := r.value.value;
      1 <= |c| <= maxLength && Over(charset, c) && accepts(c) &&
      forall s :: Over(charset, s) && 1 <= |s| < |c| ==> !accepts(s)
    ensures r == Ok(None) ==> forall s :: Over(charset, s) && 1 <= |s| <= maxLength ==> !accepts(s)
  {
    if maxLength < 1 {
      return Ok(None);
    }
    if processes == 0 {
      return Err(ZeroDivision);
    }
    if processes < 0 {
      return Err(PoolSize);
    }
    var base := |charset|;
    var length := 1;
    while length <= maxLength
      invariant 1 <= length <= maxLength + 1
      invariant forall s :: Over(charset, s) && 1 <= |s| < length ==> !accepts(s)
    {
      var total := Pow(base, length);
      var units := CoveringChunks(length, total, processes);
      var found := ScanUnits(charset, units, accepts);
      if found.Some? {
        return Ok(found);
      }
      CoveringExhausted(charset, length, processes, accepts);
      length := length + 1;
    }
    return Ok(None);
  }

  /** The case of MissedPasswordAttack over the repaired units: the
      password is found. */
  method RepairedFindsPassword() returns (r: Result<Option<string>, Crash>)
    ensures r == Ok(Some("c"))
  {
    assert Over("abc", "c");
    r := RepairedBruteForceAttack("abc", 1, 2, s => s == "c");
    if r != Ok(Some("c")) {
      assert false;
    }
  }
}
