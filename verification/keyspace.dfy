/**
  The keyspace indexer of the brute-force mode: a candidate index is turned
  into a password of a fixed length by repeated division by the size of the
  character set (hashbuster.py, brute_worker), and a worker scans a half-open
  range of indices for the first password the checker accepts.
 */
module Keyspace {
  import opened Common

  /** A work unit `(length, start, end)`: the indices `range(start, end)` of
      the passwords of `length` characters. `start > end` is an empty range. */
  datatype WorkUnit = WorkUnit(length: nat, start: nat, end: nat)

  predicate InUnit(u: WorkUnit, idx: nat) { u.start <= idx < u.end }

  /** `b ** n`, the number of passwords of `n` characters over `b` symbols. */
  function Pow(b: nat, n: nat): (r: nat)
    ensures b >= 1 ==> r >= 1
    ensures b == 0 && n >= 1 ==> r == 0
  {
    if n == 0 then 1 else b * Pow(b, n - 1)
  }

  /** No symbol occurs twice in the character set. */
  predicate Distinct(charset: string)
  {
    forall i, j :: 0 <= i < j < |charset| ==> charset[i] != charset[j]
  }

  predicate Over(charset: string, s: string)
  {
    forall k :: 0 <= k < |s| ==> s[k] in charset
  }

  /** The password of `length` characters for index `idx`: `length` divmod
      steps by the charset size, each remainder mapped through the charset,
      the last remainder first. */
  function Decode(charset: string, length: nat, idx: nat): (r: string)
    requires |charset| >= 1 || length == 0
    ensures |r| == length
    ensures Over(charset, r)
  {
    if length == 0 then []
    else Decode(charset, length - 1, idx / |charset|) + [charset[idx % |charset|]]
  }

  /** The quotient left after `k` divmod steps. */
  function Shift(base: nat, idx: nat, k: nat): nat
    requires base >= 1
  {
    if k == 0 then idx else Shift(base, idx / base, k - 1)
  }

  /** Python's `reversed`, as a sequence. */
  function Reversed<T>(s: seq<T>): (r: seq<T>)
    ensures |r| == |s|
  {
    if s == [] then [] else Reversed(s[1..]) + [s[0]]
  }

  lemma {:induction false} ReversedAppend<T>(s: seq<T>, x: T)
    ensures Reversed(s + [x]) == [x] + Reversed(s)
  {
    if s != [] {
      assert (s + [x])[1..] == s[1..] + [x];
      ReversedAppend(s[1..], x);
    }
  }

  lemma {:induction false} ShiftStep(base: nat, idx: nat, k: nat)
    requires base >= 1
    ensures Shift(base, idx, k + 1) == Shift(base, idx, k) / base
  {
    if k > 0 {
      ShiftStep(base, idx / base, k - 1);
    }
  }

  /** One more divmod step puts the next digit in front of the password. */
  lemma {:induction false} DecodePrepend(charset: string, k: nat, idx: nat)
    requires |charset| >= 1
    ensures Decode(charset, k + 1, idx)
         == [charset[Shift(|charset|, idx, k) % |charset|]] + Decode(charset, k, idx)
  {
    if k > 0 {
      DecodePrepend(charset, k - 1, idx / |charset|);
    }
  }

  /** The inner loop of brute_worker: divide `length` times, collect the
      remainders least significant first, then reverse. */
  method DecodeIndex(charset: string, length: nat, idx: nat) returns (candidate: string)
    requires |charset| >= 1 || length == 0
    ensures candidate == Decode(charset, length, idx)
  {
    var base := |charset|;
    var password: seq<char> := [];
    var n := idx;
    for step := 0 to length
      invariant base >= 1 ==> n == Shift(base, idx, step)
      invariant Reversed(password) == Decode(charset, step, idx)
    {
      var rem := n % base;
      DecodePrepend(charset, step, idx);
      ReversedAppend(password, charset[rem]);
      ShiftStep(base, idx, step);
      n := n / base;
      password := password + [charset[rem]];
    }
    candidate := Reversed(password);
  }

  lemma DivBelow(x: nat, b: nat, p: nat)
    requires b >= 1 && x < b * p
    ensures x / b < p
  {
  }

  lemma DigitStep(hi: nat, d: nat, b: nat, p: nat)
    requires hi < p && d < b
    ensures hi * b + d < b * p
  {
    assert hi * b <= (p - 1) * b;
  }

  lemma DivModUnique(q: nat, d: nat, b: nat)
    requires d < b
    ensures (q * b + d) / b == q && (q * b + d) % b == d
  {
    var x := q * b + d;
    var q', r := x / b, x % b;
    DivMod(x, b);
    assert (q - q') * b == r - d;
    if q - q' >= 1 {
      MulAtLeast(q - q', b);
      assert false;
    }
    if q' - q >= 1 {
      MulAtLeast(q' - q, b);
      assert false;
    }
  }

  lemma MulAtLeast(t: int, b: nat)
    requires t >= 1
    ensures t * b >= b
  {
  }

  lemma DivMod(x: nat, b: nat)
    requires b >= 1
    ensures (x / b) * b + x % b == x
  {
  }

  /** Position of a symbol in the charset: its digit value. */
  function IndexOf(charset: string, c: char): (i: nat)
    requires c in charset
    ensures i < |charset| && charset[i] == c
    ensures forall j :: 0 <= j < i ==> charset[j] != c
  {
    if charset[0] == c then 0 else 1 + IndexOf(charset[1..], c)
  }

  lemma IndexOfDistinct(charset: string, i: nat)
    requires i < |charset| && Distinct(charset)
    ensures IndexOf(charset, charset[i]) == i
  {
  }

  /** The index a password stands for: its symbols read as base-|charset|
      digits, most significant first. */
  function Value(charset: string, s: string): (v: nat)
    requires Over(charset, s)
    ensures v < Pow(|charset|, |s|)
  {
    if s == [] then 0
    else
      var hi := Value(charset, s[..|s| - 1]);
      DigitStep(hi, IndexOf(charset, s[|s| - 1]), |charset|, Pow(|charset|, |s| - 1));
      hi * |charset| + IndexOf(charset, s[|s| - 1])
  }

  /** Decoding then reading the digits back gives the index again. */
  lemma {:induction false} ValueOfDecode(charset: string, length: nat, idx: nat)
    requires |charset| >= 1 && Distinct(charset)
    requires idx < Pow(|charset|, length)
    ensures Value(charset, Decode(charset, length, idx)) == idx
  {
    if length > 0 {
      var b := |charset|;
      DivBelow(idx, b, Pow(b, length - 1));
      ValueOfDecode(charset, length - 1, idx / b);
      var s := Decode(charset, length, idx);
      assert s[..|s| - 1] == Decode(charset, length - 1, idx / b);
      assert s[|s| - 1] == charset[idx % b];
      IndexOfDistinct(charset, idx % b);
      assert Value(charset, s) == Value(charset, s[..|s| - 1]) * b + IndexOf(charset, s[|s| - 1]);
      DivMod(idx, b);
    }
  }

  /** Every password over the charset is decoded from its own value. */
  lemma {:induction false} DecodeOfValue(charset: string, s: string)
    requires |charset| >= 1 && Over(charset, s)
    ensures Decode(charset, |s|, Value(charset, s)) == s
  {
    if s != [] {
      var b := |charset|;
      var init := s[..|s| - 1];
      DivModUnique(Value(charset, init), IndexOf(charset, s[|s| - 1]), b);
      DecodeOfValue(charset, init);
      assert s == init + [s[|s| - 1]];
    }
  }

  /** Two indices of the keyspace never decode to the same password. */
  lemma DecodeInjective(charset: string, length: nat, i: nat, j: nat)
    requires |charset| >= 1 && Distinct(charset)
    requires i < Pow(|charset|, length) && j < Pow(|charset|, length)
    requires Decode(charset, length, i) == Decode(charset, length, j)
    ensures i == j
  {
    ValueOfDecode(charset, length, i);
    ValueOfDecode(charset, length, j);
  }

  lemma {:induction false} ShiftBelow(base: nat, idx: nat, k: nat)
    requires base >= 1 && idx < Pow(base, k)
    ensures Shift(base, idx, k) == 0
  {
    if k > 0 {
      DivBelow(idx, base, Pow(base, k - 1));
      ShiftBelow(base, idx / base, k - 1);
    }
  }

  /** An index that fits in `length` digits gets one more leading
      `charset[0]` when decoded to `length + 1` characters. */
  lemma DecodePads(charset: string, length: nat, idx: nat)
    requires |charset| >= 1 && idx < Pow(|charset|, length)
    ensures Decode(charset, length + 1, idx) == [charset[0]] + Decode(charset, length, idx)
  {
    var b := |charset|;
    ShiftBelow(b, idx, length);
    DecodePrepend(charset, length, idx);
    assert charset[Shift(b, idx, length) % b] == charset[0];
  }

  /** The first index of `range(start, end)` whose password the checker
      accepts. */
  function FirstMatch(charset: string, length: nat, start: nat, end: nat, accepts: string -> bool): (r: Option<nat>)
    requires |charset| >= 1 || start >= end
    ensures r.Some? ==> start <= r.value < end && accepts(Decode(charset, length, r.value))
    ensures r.Some? ==> forall j :: start <= j < r.value ==> !accepts(Decode(charset, length, j))
    ensures r.None? ==> forall j :: start <= j < end ==> !accepts(Decode(charset, length, j))
    decreases end - start
  {
    if start >= end then None
    else if accepts(Decode(charset, length, start)) then Some(start)
    else FirstMatch(charset, length, start + 1, end, accepts)
  }

  /** What brute_worker returns for a work unit. */
  function WorkerResult(charset: string, u: WorkUnit, accepts: string -> bool): (r: Option<string>)
    requires |charset| >= 1 || u.start >= u.end
    ensures r.Some? ==> |r.value| == u.length && Over(charset, r.value) && accepts(r.value)
    ensures r.None? ==> forall j :: u.start <= j < u.end ==> !accepts(Decode(charset, u.length, j))
  {
    match FirstMatch(charset, u.length, u.start, u.end, accepts)
    case None => None
    case Some(i) => Some(Decode(charset, u.length, i))
  }

  /** brute_worker: scan the unit's indices in increasing order and return
      the first password the checker accepts. The source tests the returned
      candidate for truth, so the empty password of length 0 never counts as
      found. */
  method BruteWorker(u: WorkUnit, charset: string, accepts: string -> bool) returns (found: Option<string>)
    requires |charset| >= 1 || u.start >= u.end || u.length == 0
    ensures found == if u.length == 0 then None else WorkerResult(charset, u, accepts)
  {
    var idx := u.start;
    while idx < u.end
      invariant u.start <= idx
      invariant u.length >= 1 ==>
        FirstMatch(charset, u.length, idx, u.end, accepts) == FirstMatch(charset, u.length, u.start, u.end, accepts)
      decreases u.end - idx
    {
      var candidate := DecodeIndex(charset, u.length, idx);
      if accepts(candidate) && candidate != [] {
        return Some(candidate);
      }
      idx := idx + 1;
    }
    found := None;
  }
}
