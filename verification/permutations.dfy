/**
 * `getPermutations`: every ordering of an array, duplicates kept.
 *
 * `Permutations` is the value the source computes, written as a function in
 * the order the source produces it (element i first, for i from left to
 * right, each followed by the orderings of the rest); `GetPermutations` is
 * the source's recursive procedure with its two nested loops, proved to
 * return exactly that value. The lemmas say what the value is: n! entries,
 * each a rearrangement of the input, and every rearrangement among them.
 */
module PermutationGenerator {

  function Factorial(n: nat): (r: nat)
    ensures r >= 1
  {
    if n == 0 then 1 else n * Factorial(n - 1)
  }

  /** `arr.slice(0, i).concat(arr.slice(i + 1))` */
  function Remove<T>(s: seq<T>, i: nat): (r: seq<T>)
    requires i < |s|
    ensures |r| == |s| - 1
  {
    s[..i] + s[i + 1..]
  }

  /** `[x, ...p]` for every `p` of `ps`, in order. */
  function PrefixAll<T>(x: T, ps: seq<seq<T>>): (r: seq<seq<T>>)
    ensures |r| == |ps|
    ensures forall k :: 0 <= k < |r| ==> r[k] == [x] + ps[k]
  {
    seq(|ps|, k requires 0 <= k < |ps| => [x] + ps[k])
  }

  /** The orderings of `s`, in the order `getPermutations` pushes them. */
  function Permutations<T>(s: seq<T>): seq<seq<T>>
    decreases |s|, |s| + 1
  {
    if |s| == 0 then [[]]
    else if |s| == 1 then [s]
    else PermutationsUpTo(s, |s|)
  }

  /** What the outer loop has pushed after the elements before position `i` took the lead. */
  function PermutationsUpTo<T>(s: seq<T>, i: nat): seq<seq<T>>
    requires i <= |s|
    decreases |s|, i
  {
    if i == 0 then []
    else PermutationsUpTo(s, i - 1) + PrefixAll(s[i - 1], Permutations(Remove(s, i - 1)))
  }

  /** `getPermutations(arr)` */
  method GetPermutations<T>(arr: seq<T>) returns (result: seq<seq<T>>)
    ensures result == Permutations(arr)
    decreases |arr|
  {
    if |arr| == 0 {
      return [[]];
    }
    if |arr| == 1 {
      return [arr];
    }
    result := [];
    for i := 0 to |arr|
      invariant result == PermutationsUpTo(arr, i)
    {
      var item := arr[i];
      var remaining := arr[..i] + arr[i + 1..];
      var innerPermutations := GetPermutations(remaining);
      for j := 0 to |innerPermutations|
        invariant result == PermutationsUpTo(arr, i) + PrefixAll(item, innerPermutations)[..j]
      {
        assert PrefixAll(item, innerPermutations)[..j + 1]
            == PrefixAll(item, innerPermutations)[..j] + [[item] + innerPermutations[j]];
        result := result + [[item] + innerPermutations[j]];
      }
      assert PrefixAll(item, innerPermutations)[..|innerPermutations|] == PrefixAll(item, innerPermutations);
    }
  }

  /** The empty array has one ordering, the empty one; a one-element array has only itself. */
  lemma PermutationsBaseCases<T>(x: T)
    ensures Permutations<T>([]) == [[]]
    ensures Permutations([x]) == [[x]]
  {
  }

  /** There are n! orderings of n elements, whether or not some of them are equal. */
  lemma {:induction false} PermutationsCount<T>(s: seq<T>)
    ensures |Permutations(s)| == Factorial(|s|)
    decreases |s|, |s| + 1
  {
    if |s| >= 2 {
      PermutationsUpToCount(s, |s|);
    }
  }

  lemma {:induction false} PermutationsUpToCount<T>(s: seq<T>, i: nat)
    requires 2 <= |s| && i <= |s|
    ensures |PermutationsUpTo(s, i)| == i * Factorial(|s| - 1)
    decreases |s|, i
  {
    if i > 0 {
      PermutationsUpToCount(s, i - 1);
      PermutationsCount(Remove(s, i - 1));
      var f := Factorial(|s| - 1);
      assert |PermutationsUpTo(s, i)| == (i - 1) * f + f;
      assert (i - 1) * f + f == i * f;
    }
  }

  /** Each ordering is a rearrangement of the input: same length, same multiset of elements. */
  lemma {:induction false} PermutationsSound<T>(s: seq<T>, p: seq<T>)
    requires p in Permutations(s)
    ensures |p| == |s| && multiset(p) == multiset(s)
    decreases |s|, |s| + 1
  {
    if |s| >= 2 {
      PermutationsUpToSound(s, |s|, p);
    }
  }

  lemma {:induction false} PermutationsUpToSound<T>(s: seq<T>, i: nat, p: seq<T>)
    requires 2 <= |s| && i <= |s|
    requires p in PermutationsUpTo(s, i)
    ensures |p| == |s| && multiset(p) == multiset(s)
    decreases |s|, i
  {
    var head := PermutationsUpTo(s, i - 1);
    if p in head {
      PermutationsUpToSound(s, i - 1, p);
    } else {
      var rest := Remove(s, i - 1);
      var tail := PrefixAll(s[i - 1], Permutations(rest));
      var k :| 0 <= k < |tail| && tail[k] == p;
      var q := Permutations(rest)[k];
      PermutationsSound(rest, q);
      assert s == s[..i - 1] + [s[i - 1]] + s[i..];
      assert multiset(s) == multiset(s[..i - 1]) + multiset{s[i - 1]} + multiset(s[i..]);
    }
  }

  /** Every rearrangement of the input is among its orderings. */
  lemma {:induction false} PermutationsComplete<T>(s: seq<T>, p: seq<T>)
    requires multiset(p) == multiset(s)
    ensures p in Permutations(s)
    decreases |s|
  {
    assert |p| == |multiset(p)| == |s|;
    if |s| == 0 {
      assert p == [];
    } else if |s| == 1 {
      assert p[0] in multiset(s);
      assert p == [p[0]] && s == [s[0]];
    } else {
      assert p[0] in multiset(s);
      var i :| 0 <= i < |s| && s[i] == p[0];
      var rest := Remove(s, i);
      assert s == s[..i] + [s[i]] + s[i + 1..];
      assert p == [p[0]] + p[1..];
      assert multiset(rest) == multiset(s[..i]) + multiset(s[i + 1..]);
      assert multiset(s) == multiset(s[..i]) + multiset{s[i]} + multiset(s[i + 1..]);
      assert multiset(p) == multiset{p[0]} + multiset(p[1..]);
      assert multiset(p[1..]) == multiset(p) - multiset{p[0]};
      assert multiset(rest) == multiset(s) - multiset{s[i]};
      PermutationsComplete(rest, p[1..]);
      var k :| 0 <= k < |Permutations(rest)| && Permutations(rest)[k] == p[1..];
      assert PrefixAll(s[i], Permutations(rest))[k] == p;
      PermutationsUpToContains(s, i + 1, |s|);
    }
  }

  /** The outer loop never drops what it has pushed. */
  lemma {:induction false} PermutationsUpToContains<T>(s: seq<T>, i: nat, j: nat)
    requires 2 <= |s| && 1 <= i <= j <= |s|
    ensures forall p :: p in PrefixAll(s[i - 1], Permutations(Remove(s, i - 1))) ==> p in PermutationsUpTo(s, j)
    decreases j
  {
    if j > i {
      PermutationsUpToContains(s, i, j - 1);
    }
  }

  /** Membership in the orderings is exactly being a rearrangement of the input. */
  lemma PermutationsCharacterized<T>(s: seq<T>, p: seq<T>)
    ensures p in Permutations(s) <==> multiset(p) == multiset(s)
  {
    if p in Permutations(s) {
      PermutationsSound(s, p);
    }
    if multiset(p) == multiset(s) {
      PermutationsComplete(s, p);
    }
  }

  /** Equal values in the input still give separate orderings: `[7, 7]` has two, both `[7, 7]`. */
  lemma DuplicatesKept()
    ensures Permutations([7, 7]) == [[7, 7], [7, 7]]
  {
    var s := [7, 7];
    assert Remove(s, 0) == [7] && Remove(s, 1) == [7];
    assert Permutations([7]) == [[7]];
    assert [7] + [7] == [7, 7];
    assert PrefixAll(7, [[7]]) == [[7, 7]];
    assert PermutationsUpTo(s, 1) == [[7, 7]];
    assert PermutationsUpTo(s, 2) == [[7, 7], [7, 7]];
  }
}
