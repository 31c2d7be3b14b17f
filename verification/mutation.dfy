/**
  The mutation engine (hashbuster.py, mutate_word): a dictionary word becomes
  the set of its case variants, one leet-speak variant, and the word with
  each number below 100 appended, both zero-padded and plain.
 */
module Mutation {
  import opened Text

  /** The letters the leet table replaces, in both cases. */
  const LeetLetters := "aAeEiIoOsStT"

  /** What each of LeetLetters becomes, position by position. */
  const LeetDigits := "443311005577"

  /** The leet table: a/A to 4, e/E to 3, i/I to 1, o/O to 0, s/S to 5,
      t/T to 7; every other character is kept. */
  function LeetChar(c: char): char
  {
    match c
    case 'a' => '4' case 'A' => '4'
    case 'e' => '3' case 'E' => '3'
    case 'i' => '1' case 'I' => '1'
    case 'o' => '0' case 'O' => '0'
    case 's' => '5' case 'S' => '5'
    case 't' => '7' case 'T' => '7'
    case _ => c
  }

  /** `word.translate(...)` with the leet table. */
  function Leet(word: string): (r: string)
    ensures |r| == |word|
    ensures forall k :: 0 <= k < |r| ==> r[k] !in LeetLetters
    ensures forall k :: 0 <= k < |r| && word[k] !in LeetLetters ==> r[k] == word[k]
    ensures forall k, j :: 0 <= k < |r| && 0 <= j < |LeetLetters| && word[k] == LeetLetters[j] ==>
      r[k] == LeetDigits[j]
  {
    seq(|word|, k requires 0 <= k < |word| => LeetChar(word[k]))
  }

  /** Translating a second time changes nothing. */
  lemma LeetIdempotent(word: string)
    ensures Leet(Leet(word)) == Leet(word)
  {
  }

  lemma LeetCharCase(c: char)
    ensures LeetChar(LowerChar(c)) == LowerChar(LeetChar(c))
    ensures LeetChar(UpperChar(c)) == UpperChar(LeetChar(c))
  {
    if IsUpper(c) || IsLower(c) {
      assert c in LeetLetters || (LeetChar(c) == c && LeetChar(LowerChar(c)) == LowerChar(c)
                                  && LeetChar(UpperChar(c)) == UpperChar(c));
    }
  }

  /** The table treats both cases alike: substituting commutes with
      changing case. */
  lemma LeetIgnoresCase(word: string)
    ensures Leet(Lower(word)) == Lower(Leet(word))
    ensures Leet(Upper(word)) == Upper(Leet(word))
  {
    forall k | 0 <= k < |word|
      ensures Leet(Lower(word))[k] == Lower(Leet(word))[k]
      ensures Leet(Upper(word))[k] == Upper(Leet(word))[k]
    {
      LeetCharCase(word[k]);
    }
  }

  /** The five variants of the word itself. */
  function BaseVariants(word: string): set<string>
  {
    {word, Lower(word), Upper(word), Capitalize(word), Leet(word)}
  }

  /** `x` is the word with `i` appended, zero-padded or plain. */
  predicate SuffixedBy(word: string, i: nat, x: string)
  {
    x == word + Pad2(i) || x == word + Decimal(i)
  }

  /** The suffixed words added by the first `n` rounds of the suffix loop. */
  function Suffixed(word: string, n: nat): set<string>
  {
    if n == 0 then {} else Suffixed(word, n - 1) + {word + Pad2(n - 1), word + Decimal(n - 1)}
  }

  /** All that mutate_word returns. */
  function Mutations(word: string): set<string>
  {
    BaseVariants(word) + Suffixed(word, 100)
  }

  /** Round `i` of the loop adds both renderings of `i`, and later rounds
      remove nothing. */
  lemma {:induction false} SuffixedHas(word: string, n: nat, i: nat)
    requires i < n
    ensures word + Pad2(i) in Suffixed(word, n) && word + Decimal(i) in Suffixed(word, n)
    decreases n
  {
    var prev := Suffixed(word, n - 1);
    assert Suffixed(word, n) == prev + {word + Pad2(n - 1), word + Decimal(n - 1)};
    if i < n - 1 {
      SuffixedHas(word, n - 1, i);
      assert word + Pad2(i) in prev && word + Decimal(i) in prev;
    }
  }

  /** Every suffixed word comes from some round. */
  lemma {:induction false} SuffixedSource(word: string, n: nat, x: string) returns (i: nat)
    requires x in Suffixed(word, n)
    ensures i < n && SuffixedBy(word, i, x)
    decreases n
  {
    if x in Suffixed(word, n - 1) {
      i := SuffixedSource(word, n - 1, x);
    } else {
      i := n - 1;
    }
  }

  /** A word is among the first `n` rounds' suffixed words exactly when it is
      the word followed by a number below `n`, padded or plain. */
  lemma SuffixedMembers(word: string, n: nat, x: string)
    ensures x in Suffixed(word, n) <==> exists i :: 0 <= i < n && SuffixedBy(word, i, x)
  {
    if x in Suffixed(word, n) {
      var i := SuffixedSource(word, n, x);
    }
    if exists i :: 0 <= i < n && SuffixedBy(word, i, x) {
      var i :| 0 <= i < n && SuffixedBy(word, i, x);
      SuffixedHas(word, n, i);
    }
  }

  lemma AppendCancel(word: string, x: string, y: string)
    requires word + x == word + y
    ensures x == y
  {
    assert x == (word + x)[|word|..];
  }

  /** Round `m` adds words that no earlier round added. */
  lemma SuffixedFresh(word: string, m: nat)
    ensures word + Pad2(m) !in Suffixed(word, m)
    ensures word + Decimal(m) !in Suffixed(word, m)
  {
    var padded, plain := word + Pad2(m), word + Decimal(m);
    if padded in Suffixed(word, m) {
      var i := SuffixedSource(word, m, padded);
      if padded == word + Pad2(i) {
        AppendCancel(word, Pad2(m), Pad2(i));
      } else {
        AppendCancel(word, Pad2(m), Decimal(i));
      }
      RenderingsDistinct(m, i);
      assert false;
    }
    if plain in Suffixed(word, m) {
      var i := SuffixedSource(word, m, plain);
      if plain == word + Pad2(i) {
        AppendCancel(word, Decimal(m), Pad2(i));
      } else {
        AppendCancel(word, Decimal(m), Decimal(i));
      }
      RenderingsDistinct(i, m);
      assert false;
    }
  }

  /** The suffix loop adds two new words for each number below 10 and one
      for each number from 10 on, where both renderings coincide. */
  lemma {:induction false} SuffixedSize(word: string, n: nat)
    requires n <= 100
    ensures |Suffixed(word, n)| == n + (if n < 10 then n else 10)
  {
    if n > 0 {
      var m := n - 1;
      SuffixedSize(word, m);
      SuffixedFresh(word, m);
      var prev := Suffixed(word, m);
      var padded, plain := word + Pad2(m), word + Decimal(m);
      var grown := prev + {padded};
      assert |grown| == |prev| + 1;
      if m < 10 {
        assert padded != plain by {
          if padded == plain {
            AppendCancel(word, Pad2(m), Decimal(m));
            RenderingsDistinct(m, m);
          }
        }
        assert |grown + {plain}| == |grown| + 1;
      } else {
        assert grown + {plain} == grown;
      }
    }
  }

  /** The base variants keep the word's length; every suffixed word is
      longer. */
  lemma BaseAndSuffixedDisjoint(word: string)
    ensures BaseVariants(word) * Suffixed(word, 100) == {}
  {
    forall x | x in Suffixed(word, 100)
      ensures |x| > |word|
    {
      SuffixedMembers(word, 100, x);
    }
  }

  /** mutate_word holds the word, its lower, upper and capitalized forms and
      its leet form, and the word with every number below 100 appended in
      both renderings; nothing else. */
  lemma MutationsMembers(word: string, x: string)
    ensures x in Mutations(word) <==>
      x in {word, Lower(word), Upper(word), Capitalize(word), Leet(word)} ||
      exists i :: 0 <= i < 100 && SuffixedBy(word, i, x)
  {
    SuffixedMembers(word, 100, x);
  }

  lemma BaseVariantsSize(word: string)
    ensures 1 <= |BaseVariants(word)| <= 5
  {
    var s1 := {word};
    var s2 := s1 + {Lower(word)};
    var s3 := s2 + {Upper(word)};
    var s4 := s3 + {Capitalize(word)};
    assert BaseVariants(word) == s4 + {Leet(word)};
  }

  /** The set has 110 suffixed words and between one and five base
      variants. */
  lemma MutationsSize(word: string)
    ensures 111 <= |Mutations(word)| <= 115
  {
    SuffixedSize(word, 100);
    BaseAndSuffixedDisjoint(word);
    BaseVariantsSize(word);
  }

  /** mutate_word, adding one variant at a time. */
  method MutateWord(word: string) returns (mutations: set<string>)
    ensures mutations == Mutations(word)
    ensures 111 <= |mutations| <= 115
  {
    mutations := {};
    mutations := mutations + {word};
    mutations := mutations + {Lower(word)};
    mutations := mutations + {Upper(word)};
    mutations := mutations + {Capitalize(word)};
    var leet := Leet(word);
    mutations := mutations + {leet};
    for i := 0 to 100
      invariant mutations == BaseVariants(word) + Suffixed(word, i)
    {
      mutations := mutations + {word + Pad2(i)};
      mutations := mutations + {word + Decimal(i)};
    }
    MutationsSize(word);
  }

  /** The variants of "Password": its case forms and its leet form. */
  lemma PasswordBaseVariants()
    ensures "password" in Mutations("Password")
    ensures "PASSWORD" in Mutations("Password")
    ensures "P455w0rd" in Mutations("Password")
  {
    var w := "Password";
    assert Lower(w) == "password";
    assert Upper(w) == "PASSWORD";
    assert Leet(w) == "P455w0rd";
  }

  /** The variants of "Password": a one-digit number appears padded and
      plain, a two-digit number once. */
  lemma PasswordSuffixes()
    ensures "Password07" in Mutations("Password") && "Password7" in Mutations("Password")
    ensures "Password42" in Mutations("Password")
  {
    var w := "Password";
    assert SuffixedBy(w, 7, "Password07") by { assert Pad2(7) == "07"; }
    assert SuffixedBy(w, 7, "Password7") by { assert Decimal(7) == "7"; }
    assert SuffixedBy(w, 42, "Password42") by { assert Decimal(42) == "42"; }
    SuffixedMembers(w, 100, "Password07");
    SuffixedMembers(w, 100, "Password7");
    SuffixedMembers(w, 100, "Password42");
  }

  lemma LowerRest()
    ensures Lower("ASSWORD") == "assword"
  {
    var rest := Lower("ASSWORD");
    forall k | 0 <= k < 7
      ensures rest[k] == "assword"[k]
    {
      assert rest[k] == LowerChar("ASSWORD"[k]);
    }
  }

  /** Capitalizing lower-cases the rest of the word. */
  lemma CapitalizeLowersRest()
    ensures Capitalize("pASSWORD") == "Password"
  {
    var word := "pASSWORD";
    LowerRest();
    assert word[1..] == "ASSWORD";
    assert UpperChar(word[0]) == 'P';
    assert Capitalize(word) == ['P'] + Lower("ASSWORD");
  }
}
