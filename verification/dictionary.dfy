/**
  The dictionary candidate source (hashbuster.py, generate_candidates): every
  line of the wordlist is stripped and yielded as it is, or, with mutation
  on, replaced by the members of its mutation set in the set's (unspecified)
  iteration order.
 */
module Dictionary {
  import opened Text
  import opened Mutation

  /** What one line of the wordlist contributes. */
  function LineCandidates(line: string, mutate: bool): set<string>
  {
    var word := Strip(line);
    if mutate then Mutations(word) else {word}
  }

  /** The contributions of all lines, in file order. */
  function LineSets(lines: seq<string>, mutate: bool): (sets: seq<set<string>>)
    ensures |sets| == |lines|
  {
    seq(|lines|, i requires 0 <= i < |lines| => LineCandidates(lines[i], mutate))
  }

  /** `block` lists the members of `s`, each exactly once. */
  ghost predicate Enumerates(block: seq<string>, s: set<string>)
  {
    (forall x :: x in block <==> x in s) &&
    (forall i, j :: 0 <= i < j < |block| ==> block[i] != block[j])
  }

  /** `out` lists the sets one after another, each in some order. */
  ghost predicate Lists(sets: seq<set<string>>, out: seq<string>)
    decreases |sets|
  {
    if sets == [] then out == []
    else exists k :: (0 <= k <= |out| &&
                      Enumerates(out[..k], sets[0]) &&
                      Lists(sets[1..], out[k..]))
  }

  /** `out` is a stream generate_candidates may yield for these lines. */
  ghost predicate Yields(lines: seq<string>, mutate: bool, out: seq<string>)
  {
    Lists(LineSets(lines, mutate), out)
  }

  /** A listing of a set, in an order the model leaves open. */
  ghost function Listing(s: set<string>): (r: seq<string>)
    ensures Enumerates(r, s)
    decreases s
  {
    if s == {} then []
    else
      var x :| x in s;
      [x] + Listing(s - {x})
  }

  lemma {:induction false} SomeListing(sets: seq<set<string>>) returns (out: seq<string>)
    ensures Lists(sets, out)
    decreases |sets|
  {
    if sets == [] {
      out := [];
    } else {
      var rest := SomeListing(sets[1..]);
      var block := Listing(sets[0]);
      out := block + rest;
      assert out[..|block|] == block && out[|block|..] == rest;
    }
  }

  /** Some stream exists for every wordlist: the relation is not empty. */
  lemma SomeStream(lines: seq<string>, mutate: bool) returns (out: seq<string>)
    ensures Yields(lines, mutate, out)
  {
    out := SomeListing(LineSets(lines, mutate));
  }

  /** Every member of every set is listed. */
  lemma {:induction false} ListedMember(sets: seq<set<string>>, out: seq<string>, i: nat, x: string)
    requires Lists(sets, out)
    requires i < |sets| && x in sets[i]
    ensures x in out
    decreases i
  {
    var k :| 0 <= k <= |out| && Enumerates(out[..k], sets[0]) && Lists(sets[1..], out[k..]);
    if i == 0 {
      assert x in out[..k];
    } else {
      ListedMember(sets[1..], out[k..], i - 1, x);
      assert x in out[k..];
    }
  }

  /** Every listed string belongs to one of the sets. */
  lemma {:induction false} ListedSource(sets: seq<set<string>>, out: seq<string>, x: string) returns (i: nat)
    requires Lists(sets, out)
    requires x in out
    ensures i < |sets| && x in sets[i]
    decreases |sets|
  {
    var k :| 0 <= k <= |out| && Enumerates(out[..k], sets[0]) && Lists(sets[1..], out[k..]);
    var p :| 0 <= p < |out| && out[p] == x;
    if p < k {
      assert out[..k][p] == x;
      i := 0;
    } else {
      assert out[k..][p - k] == x;
      var j := ListedSource(sets[1..], out[k..], x);
      i := j + 1;
    }
  }

  lemma ListsMembers(sets: seq<set<string>>, out: seq<string>, x: string)
    requires Lists(sets, out)
    ensures x in out <==> exists i :: 0 <= i < |sets| && x in sets[i]
  {
    if x in out {
      var i := ListedSource(sets, out, x);
    }
    if exists i :: 0 <= i < |sets| && x in sets[i] {
      var i :| 0 <= i < |sets| && x in sets[i];
      ListedMember(sets, out, i, x);
    }
  }

  /** A candidate is yielded exactly when it belongs to some line's set. */
  lemma YieldsMembers(lines: seq<string>, mutate: bool, out: seq<string>, x: string)
    requires Yields(lines, mutate, out)
    ensures x in out <==> exists i :: 0 <= i < |lines| && x in LineCandidates(lines[i], mutate)
  {
    var sets := LineSets(lines, mutate);
    ListsMembers(sets, out, x);
    assert forall i :: 0 <= i < |lines| ==> sets[i] == LineCandidates(lines[i], mutate);
  }

  lemma {:induction false} EnumerationSize(block: seq<string>, s: set<string>)
    requires Enumerates(block, s)
    ensures |block| == |s|
    decreases |block|
  {
    if block != [] {
      var x := block[0];
      var rest := block[1..];
      assert Enumerates(rest, s - {x}) by {
        forall y
          ensures y in rest <==> y in s - {x}
        {
          if y in rest {
            var j :| 0 <= j < |rest| && rest[j] == y;
            assert block[j + 1] == y;
          }
          if y in s - {x} {
            assert y in block && y != block[0];
          }
        }
      }
      EnumerationSize(rest, s - {x});
    } else {
      assert s == {};
    }
  }

  /** A listing of a one-element set is that element alone. */
  lemma SingletonBlock(block: seq<string>, w: string)
    requires Enumerates(block, {w})
    ensures block == [w]
  {
    EnumerationSize(block, {w});
    assert block[0] in block;
  }

  /** Listing one-element sets gives their elements, in order, and only
      that. */
  lemma {:induction false} ListsSingletonsOnly(sets: seq<set<string>>, words: seq<string>, out: seq<string>)
    requires |sets| == |words|
    requires forall i :: 0 <= i < |sets| ==> sets[i] == {words[i]}
    requires Lists(sets, out)
    ensures out == words
    decreases |sets|
  {
    if sets != [] {
      var k :| 0 <= k <= |out| && Enumerates(out[..k], sets[0]) && Lists(sets[1..], out[k..]);
      SingletonBlock(out[..k], words[0]);
      ListsSingletonsOnly(sets[1..], words[1..], out[k..]);
      assert out == out[..k] + out[k..];
    }
  }

  lemma {:induction false} ListsSingletonsWords(sets: seq<set<string>>, words: seq<string>)
    requires |sets| == |words|
    requires forall i :: 0 <= i < |sets| ==> sets[i] == {words[i]}
    ensures Lists(sets, words)
    decreases |sets|
  {
    if sets != [] {
      ListsSingletonsWords(sets[1..], words[1..]);
      assert words[..1] == [words[0]];
      assert Enumerates(words[..1], sets[0]);
      assert Lists(sets[1..], words[1..]);
    }
  }

  /** The stripped lines, in file order. */
  function StrippedLines(lines: seq<string>): (words: seq<string>)
    ensures |words| == |lines|
  {
    seq(|lines|, i requires 0 <= i < |lines| => Strip(lines[i]))
  }

  /** Without mutation there is one stream: the stripped lines in order,
      duplicates kept. */
  lemma YieldsPlain(lines: seq<string>, out: seq<string>)
    ensures Yields(lines, false, out) <==> out == StrippedLines(lines)
  {
    var sets, words := LineSets(lines, false), StrippedLines(lines);
    ListsSingletonsWords(sets, words);
    if Yields(lines, false, out) {
      ListsSingletonsOnly(sets, words, out);
    }
  }

  /** Listing sets of 111 to 115 members each. */
  lemma {:induction false} ListsLength(sets: seq<set<string>>, out: seq<string>)
    requires Lists(sets, out)
    requires forall i :: 0 <= i < |sets| ==> 111 <= |sets[i]| <= 115
    ensures 111 * |sets| <= |out| <= 115 * |sets|
    decreases |sets|
  {
    if sets != [] {
      var k :| 0 <= k <= |out| && Enumerates(out[..k], sets[0]) && Lists(sets[1..], out[k..]);
      EnumerationSize(out[..k], sets[0]);
      ListsLength(sets[1..], out[k..]);
    }
  }

  /** With mutation on, each line yields between 111 and 115 candidates. */
  lemma MutatedStreamLength(lines: seq<string>, out: seq<string>)
    requires Yields(lines, true, out)
    ensures 111 * |lines| <= |out| <= 115 * |lines|
  {
    var sets := LineSets(lines, true);
    forall i | 0 <= i < |sets|
      ensures 111 <= |sets[i]| <= 115
    {
      MutationsSize(Strip(lines[i]));
    }
    ListsLength(sets, out);
  }
}
