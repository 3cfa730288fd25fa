/**
 * The two helpers built on the map: `uniqueChars` lists the distinct
 * code units of a string in order of first appearance, and
 * `permutationPalindrome` uses a HashMap of occurrence counts to decide
 * whether some rearrangement of the string reads the same backwards.
 */
module Palindromes {
  import opened Wrappers
  import opened Djb2
  import opened Probing
  import opened HashMaps

  // ---------------------------------------------------------------- distinct code units

  /** The distinct code units of `s`, each where it first appears. */
  function Distinct(s: seq<CodeUnit>): (d: seq<CodeUnit>)
    ensures forall c :: c in d ==> c in s
  {
    if s == [] then []
    else
      var d := Distinct(s[..|s| - 1]);
      if s[|s| - 1] in d then d else d + [s[|s| - 1]]
  }

  /** The index at which `c` first appears in `s`. */
  function FirstIndex(s: seq<CodeUnit>, c: CodeUnit): (k: nat)
    requires c in s
    ensures k < |s| && s[k] == c && forall m :: 0 <= m < k ==> s[m] != c
  {
    if s[0] == c then 0 else 1 + FirstIndex(s[1..], c)
  }

  lemma FirstIndexOfPrefix(s: seq<CodeUnit>, c: CodeUnit, n: nat)
    requires n <= |s| && c in s[..n]
    ensures FirstIndex(s, c) == FirstIndex(s[..n], c)
  {
    var k := FirstIndex(s[..n], c);
    var k' := FirstIndex(s, c);
    assert s[k] == c;
    assert k' <= k;
    assert s[..n][k'] == c;
  }

  /** Distinct(s) has no repeated code unit and holds exactly the code units of `s`. */
  lemma {:induction false} DistinctElements(s: seq<CodeUnit>)
    ensures forall i, j :: 0 <= i < j < |Distinct(s)| ==> Distinct(s)[i] != Distinct(s)[j]
    ensures forall c :: c in Distinct(s) <==> c in s
  {
    if s != [] {
      DistinctElements(s[..|s| - 1]);
      assert s == s[..|s| - 1] + [s[|s| - 1]];
    }
  }

  lemma DistinctHas(s: seq<CodeUnit>, i: nat)
    requires i < |s|
    ensures s[i] in Distinct(s)
  {
    DistinctElements(s);
  }

  /** Distinct(s) lists the code units of `s` in order of first appearance. */
  lemma {:induction false} DistinctInFirstAppearanceOrder(s: seq<CodeUnit>)
    ensures forall i, j :: 0 <= i < j < |Distinct(s)| ==>
              FirstIndex(s, Distinct(s)[i]) < FirstIndex(s, Distinct(s)[j])
  {
    if s != [] {
      var p := s[..|s| - 1];
      var x := s[|s| - 1];
      DistinctInFirstAppearanceOrder(p);
      DistinctElements(p);
      DistinctElements(s);
      assert s == p + [x];
      var d := Distinct(s);
      forall c | c in p ensures FirstIndex(s, c) == FirstIndex(p, c) && FirstIndex(s, c) < |p| {
        FirstIndexOfPrefix(s, c, |p|);
      }
      if x !in Distinct(p) {
        assert FirstIndex(s, x) == |p|;
      }
      forall i, j | 0 <= i < j < |d| ensures FirstIndex(s, d[i]) < FirstIndex(s, d[j]) {
        assert d[i] in p;
      }
    }
  }

  /** `uniqueChars`: push each code unit the result does not hold yet. */
  method UniqueChars(s: seq<CodeUnit>) returns (chars: seq<CodeUnit>)
    ensures chars == Distinct(s)
  {
    chars := [];
    for i := 0 to |s|
      invariant chars == Distinct(s[..i])
    {
      assert s[..i + 1][..i] == s[..i];
      if s[i] !in chars {
        chars := chars + [s[i]];
      }
    }
    assert s[..|s|] == s;
  }

  // ---------------------------------------------------------------- palindromes

  predicate IsPalindrome(p: seq<CodeUnit>)
  {
    forall i :: 0 <= i < |p| ==> Mirrored(p, i)
  }

  /** Position `i` holds the same code unit as its mirror position. */
  predicate Mirrored(p: seq<CodeUnit>, i: nat)
    requires i < |p|
  {
    p[i] == p[|p| - 1 - i]
  }

  /** `c` occurs in `m` an odd number of times. */
  predicate OddIn(m: multiset<CodeUnit>, c: CodeUnit)
  {
    m[c] % 2 == 1
  }

  /** At most one code unit occurs an odd number of times. */
  predicate AtMostOneOdd(m: multiset<CodeUnit>)
  {
    forall a, b :: OddIn(m, a) && OddIn(m, b) ==> a == b
  }

  /** Adding two copies of a code unit changes no parity. */
  lemma PairKeepsParity(m: multiset<CodeUnit>, x: CodeUnit)
    ensures AtMostOneOdd(m + multiset{x, x}) <==> AtMostOneOdd(m)
  {
    var m' := m + multiset{x, x};
    forall c ensures OddIn(m', c) <==> OddIn(m, c) {
      assert m'[c] == m[c] + (if c == x then 2 else 0);
    }
  }

  /** A palindrome of two or more code units is one code unit either side of a shorter palindrome. */
  lemma PeelPalindrome(p: seq<CodeUnit>)
    requires IsPalindrome(p) && |p| >= 2
    ensures p == [p[0]] + p[1..|p| - 1] + [p[0]] && IsPalindrome(p[1..|p| - 1])
  {
    var q := p[1..|p| - 1];
    assert Mirrored(p, 0);
    forall i | 0 <= i < |q| ensures Mirrored(q, i) {
      assert Mirrored(p, i + 1);
      assert q[i] == p[i + 1] && q[|q| - 1 - i] == p[|p| - 1 - (i + 1)];
    }
  }

  /** Two copies of a code unit taken out of a multiset with at most one odd count. */
  lemma RemovePair(m: multiset<CodeUnit>, y: CodeUnit) returns (rest: multiset<CodeUnit>)
    requires AtMostOneOdd(m) && m[y] >= 2
    ensures m == rest + multiset{y, y} && |rest| < |m| && AtMostOneOdd(rest)
  {
    rest := m - multiset{y, y};
    assert m == rest + multiset{y, y};
    PairKeepsParity(rest, y);
  }

  /** One code unit either side of a palindrome gives a palindrome. */
  lemma WrapPalindrome(q: seq<CodeUnit>, y: CodeUnit)
    requires IsPalindrome(q)
    ensures IsPalindrome([y] + q + [y])
    ensures multiset([y] + q + [y]) == multiset(q) + multiset{y, y}
  {
    var p := [y] + q + [y];
    forall i | 0 <= i < |p| ensures Mirrored(p, i) {
      if 0 < i < |p| - 1 {
        assert Mirrored(q, i - 1);
        assert p[i] == q[i - 1] && p[|p| - 1 - i] == q[|q| - 1 - (i - 1)];
      }
    }
  }

  /** A palindrome pairs every occurrence but the middle one. */
  lemma PalindromeHasAtMostOneOdd(p: seq<CodeUnit>)
    requires IsPalindrome(p)
    ensures AtMostOneOdd(multiset(p))
    decreases |p|
  {
    if |p| >= 2 {
      var q := p[1..|p| - 1];
      PeelPalindrome(p);
      PalindromeHasAtMostOneOdd(q);
      assert multiset(p) == multiset(q) + multiset{p[0], p[0]} by {
        assert p == [p[0]] + q + [p[0]];
      }
      PairKeepsParity(multiset(q), p[0]);
    } else if |p| == 1 {
      var m := multiset(p);
      assert m == multiset{p[0]};
      forall a, b | OddIn(m, a) && OddIn(m, b) ensures a == b {
        assert m[a] != 0 && m[b] != 0;
      }
    }
  }

  /** A multiset with at most one odd count can be laid out as a palindrome. */
  lemma PalindromeOf(m: multiset<CodeUnit>) returns (p: seq<CodeUnit>)
    requires AtMostOneOdd(m)
    ensures IsPalindrome(p) && multiset(p) == m
    decreases |m|
  {
    if m == multiset{} {
      p := [];
    } else if y :| y in m && m[y] >= 2 {
      var rest := RemovePair(m, y);
      var q := PalindromeOf(rest);
      WrapPalindrome(q, y);
      p := [y] + q + [y];
    } else {
      var x :| x in m;
      OnlyOdd(m, x);
      p := [x];
    }
  }

  /** With no count of two or more and at most one odd count, a non-empty multiset is a single code unit. */
  lemma OnlyOdd(m: multiset<CodeUnit>, x: CodeUnit)
    requires AtMostOneOdd(m) && x in m
    requires forall y :: y in m ==> m[y] < 2
    ensures m == multiset{x}
  {
    forall c ensures m[c] == multiset{x}[c] {
      if c in m {
        assert OddIn(m, c) && OddIn(m, x);
      }
    }
  }

  /** Some rearrangement of `s` is a palindrome exactly when at most one code unit occurs an odd number of times. */
  lemma PalindromePermutation(s: seq<CodeUnit>)
    ensures AtMostOneOdd(multiset(s)) <==> exists p: seq<CodeUnit> :: IsPalindrome(p) && multiset(p) == multiset(s)
  {
    if AtMostOneOdd(multiset(s)) {
      var p := PalindromeOf(multiset(s));
    }
    forall p: seq<CodeUnit> | IsPalindrome(p) && multiset(p) == multiset(s) ensures AtMostOneOdd(multiset(s)) {
      PalindromeHasAtMostOneOdd(p);
    }
  }

  // ---------------------------------------------------------------- counting odd occurrences

  /** How many code units of `cs` occur in `s` an odd number of times. */
  function OddCount(cs: seq<CodeUnit>, s: seq<CodeUnit>): (n: nat)
    ensures n <= |cs|
  {
    if cs == [] then 0
    else OddCount(cs[..|cs| - 1], s) + if OddIn(multiset(s), cs[|cs| - 1]) then 1 else 0
  }

  /** Two or more odd counts means two positions of `cs` holding code units with odd counts. */
  lemma {:induction false} OddCountTwo(cs: seq<CodeUnit>, s: seq<CodeUnit>)
    ensures OddCount(cs, s) >= 2 <==>
            exists i, j :: 0 <= i < j < |cs| && OddIn(multiset(s), cs[i]) && OddIn(multiset(s), cs[j])
    ensures OddCount(cs, s) >= 1 <==> exists i :: 0 <= i < |cs| && OddIn(multiset(s), cs[i])
  {
    if cs != [] {
      var p := cs[..|cs| - 1];
      OddCountTwo(p, s);
      assert forall i :: 0 <= i < |p| ==> p[i] == cs[i];
      if OddCount(cs, s) >= 2 && OddCount(p, s) < 2 {
        var i :| 0 <= i < |p| && OddIn(multiset(s), p[i]);
        assert OddIn(multiset(s), cs[|cs| - 1]);
        assert 0 <= i < |cs| - 1 < |cs|;
      }
      if OddCount(cs, s) >= 1 && OddCount(p, s) < 1 {
        assert OddIn(multiset(s), cs[|cs| - 1]);
      }
    }
  }

  /** Over the distinct code units of `s`, fewer than two odd counts is the palindrome condition. */
  lemma OddCountOfDistinct(s: seq<CodeUnit>)
    ensures OddCount(Distinct(s), s) < 2 <==> AtMostOneOdd(multiset(s))
  {
    var d := Distinct(s);
    var m := multiset(s);
    DistinctElements(s);
    OddCountTwo(d, s);
    if !AtMostOneOdd(m) {
      var a, b :| OddIn(m, a) && OddIn(m, b) && a != b;
      assert a in s && b in s;
      var i, j :| 0 <= i < |d| && 0 <= j < |d| && d[i] == a && d[j] == b;
      if i < j {
        assert 0 <= i < j < |d|;
      } else {
        assert 0 <= j < i < |d|;
      }
    }
  }

  lemma OddCountStep(cs: seq<CodeUnit>, s: seq<CodeUnit>, i: nat)
    requires i < |cs|
    ensures OddCount(cs[..i + 1], s) == OddCount(cs[..i], s) + if multiset(s)[cs[i]] % 2 != 0 then 1 else 0
  {
    assert cs[..i + 1][..i] == cs[..i];
  }

  /** What the final count decides. */
  lemma Verdict(s: seq<CodeUnit>, count: nat)
    requires count == OddCount(Distinct(s), s)
    ensures count < 2 <==> AtMostOneOdd(multiset(s))
    ensures count < 2 <==> exists p: seq<CodeUnit> :: IsPalindrome(p) && multiset(p) == multiset(s)
  {
    OddCountOfDistinct(s);
    PalindromePermutation(s);
  }

  // ---------------------------------------------------------------- the HashMap run

  /** `t` has no tombstone and maps each of the code units `chars[..n]` to its number of occurrences in `counted`. */
  ghost predicate Holds(t: Table<int>, chars: seq<CodeUnit>, n: nat, counted: seq<CodeUnit>)
    requires n <= |chars|
  {
    Count(t.slots, IsTomb) == 0 &&
    forall j :: 0 <= j < n ==> Lookup(t.slots, [chars[j]]) == Some(multiset(counted)[chars[j]])
  }

  /** One step of the first loop: set `chars[i]` to 0. */
  lemma ZeroStep(t: Table<int>, chars: seq<CodeUnit>, i: nat)
    requires i < |chars| && Valid(t) && Holds(t, chars, i, [])
    ensures Set(t, [chars[i]], 0).Success?
    ensures Valid(Set(t, [chars[i]], 0).value) && Holds(Set(t, [chars[i]], 0).value, chars, i + 1, [])
  {
    DictionarySetSucceeds(t, [chars[i]], 0);
    DictionarySet(t, [chars[i]], 0);
    var t' := Set(t, [chars[i]], 0).value;
    forall j | 0 <= j < i + 1 ensures Lookup(t'.slots, [chars[j]]) == Some(0) {
      if chars[j] != chars[i] {
        assert [chars[j]] != [chars[i]];
      }
    }
  }

  /** One step of the second loop: add one to the count of `s[i]`. */
  lemma TallyStep(t: Table<int>, chars: seq<CodeUnit>, s: seq<CodeUnit>, i: nat, v: int)
    requires i < |s| && Valid(t) && Holds(t, chars, |chars|, s[..i])
    requires v == multiset(s[..i])[s[i]] + 1
    ensures Set(t, [s[i]], v).Success?
    ensures Valid(Set(t, [s[i]], v).value) && Holds(Set(t, [s[i]], v).value, chars, |chars|, s[..i + 1])
  {
    assert s[..i + 1] == s[..i] + [s[i]];
    DictionarySetSucceeds(t, [s[i]], v);
    DictionarySet(t, [s[i]], v);
    var t' := Set(t, [s[i]], v).value;
    forall j | 0 <= j < |chars| ensures Lookup(t'.slots, [chars[j]]) == Some(multiset(s[..i + 1])[chars[j]]) {
      var c := chars[j];
      if c != s[i] {
        assert [c] != [s[i]];
        assert multiset(s[..i + 1])[c] == multiset(s[..i])[c];
      }
    }
  }

  /**
   * `permutationPalindrome`: set every distinct code unit to 0, add one
   * per occurrence, and count the odd totals. Nothing is removed, so
   * every `set` succeeds and every `get` finds its key.
   */
  method PermutationPalindrome(s: seq<CodeUnit>) returns (result: bool)
    ensures result <==> AtMostOneOdd(multiset(s))
    ensures result <==> exists p: seq<CodeUnit> :: IsPalindrome(p) && multiset(p) == multiset(s)
  {
    var chars := UniqueChars(s);
    var palindrome := new HashMap<int>.Default();
    CountNone(palindrome.Model().slots, IsTomb);
    var count := 0;

    for i := 0 to |chars|
      invariant fresh(palindrome.slots) && palindrome.Valid() && Holds(palindrome.Model(), chars, i, [])
    {
      ZeroStep(palindrome.Model(), chars, i);
      var _ := palindrome.Set([chars[i]], 0);
    }

    for i := 0 to |s|
      invariant fresh(palindrome.slots) && palindrome.Valid() && Holds(palindrome.Model(), chars, |chars|, s[..i])
    {
      DistinctHas(s, i);
      GetIsLookup(palindrome.Model(), [s[i]]);
      var got := palindrome.Get([s[i]]);
      TallyStep(palindrome.Model(), chars, s, i, got.value + 1);
      var _ := palindrome.Set([s[i]], got.value + 1);
    }
    assert s[..|s|] == s;

    for i := 0 to |chars|
      invariant fresh(palindrome.slots) && palindrome.Valid() && Holds(palindrome.Model(), chars, |chars|, s)
      invariant count == OddCount(chars[..i], s)
    {
      OddCountStep(chars, s, i);
      GetIsLookup(palindrome.Model(), [chars[i]]);
      var got := palindrome.Get([chars[i]]);
      if got.value % 2 != 0 {
        count := count + 1;
      }
    }
    assert count == OddCount(Distinct(s), s) by {
      assert chars[..|chars|] == chars;
    }
    Verdict(s, count);
    result := count < 2;
  }
}
