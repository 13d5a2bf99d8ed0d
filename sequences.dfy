/** Facts about the ordered id lists (`GuidVector`) that teams keep: members and applicants. */
module Sequences {

  /** No element occurs twice in `s`. */
  predicate NoDuplicates<T(==)>(s: seq<T>) {
    forall i, j :: 0 <= i < j < |s| ==> s[i] != s[j]
  }

  /** The elements of `s`, as a set. */
  function Elems<T>(s: seq<T>): set<T> {
    set x | x in s
  }

  /** `s` with its first occurrence of `x` spliced out (the effect of
      `append(s[:idx], s[idx+1:]...)` at the first matching `idx`);
      `s` itself when `x` does not occur. */
  function RemoveFirst<T(==)>(s: seq<T>, x: T): (r: seq<T>)
    ensures x in s ==> |r| == |s| - 1
    ensures x !in s ==> r == s
  {
    if s == [] then []
    else
      assert s == [s[0]] + s[1..];
      if s[0] == x then s[1..] else [s[0]] + RemoveFirst(s[1..], x)
  }

  /** Exactly one occurrence of `x` goes, when there is one, and nothing else. */
  lemma {:induction false} RemoveFirstMultiset<T>(s: seq<T>, x: T)
    ensures multiset(RemoveFirst(s, x)) == multiset(s) - multiset{x}
  {
    if s != [] {
      assert s == [s[0]] + s[1..];
      if s[0] != x {
        RemoveFirstMultiset(s[1..], x);
      }
    }
  }

  /** Removing the first occurrence at index `i` keeps the others in order:
      everything before `i`, then everything after it. */
  lemma {:induction false} RemoveFirstAt<T>(s: seq<T>, x: T, i: nat)
    requires i < |s| && s[i] == x && x !in s[..i]
    ensures RemoveFirst(s, x) == s[..i] + s[i + 1..]
  {
    if i > 0 {
      assert s[0] != x by { assert s[0] == s[..i][0]; }
      assert s[1..][..i - 1] == s[1..i];
      RemoveFirstAt(s[1..], x, i - 1);
      assert s[1..][i - 1 + 1..] == s[i + 1..];
      assert [s[0]] + s[1..i] == s[..i];
    }
  }

  /** In a duplicate-free list, nothing before index `i` equals `s[i]`. */
  lemma NoDuplicatesBefore<T>(s: seq<T>, i: nat)
    requires NoDuplicates(s) && i < |s|
    ensures s[i] !in s[..i]
  {
    forall j | 0 <= j < i ensures s[..i][j] != s[i] {
      assert s[..i][j] == s[j];
    }
  }

  /** Every other element keeps its presence; nothing new appears. */
  lemma RemoveFirstElems<T>(s: seq<T>, x: T)
    ensures forall y :: y != x ==> (y in RemoveFirst(s, x) <==> y in s)
    ensures Elems(RemoveFirst(s, x)) <= Elems(s)
  {
    var r := RemoveFirst(s, x);
    RemoveFirstMultiset(s, x);
    forall y | y != x ensures y in r <==> y in s {
      assert y in r <==> y in multiset(r);
      assert y in s <==> y in multiset(s);
    }
    forall y | y in r ensures y in s {
      assert y in multiset(r);
    }
  }

  /** A duplicate-free list loses `x` altogether and stays duplicate-free. */
  lemma {:induction false} RemoveFirstNoDuplicates<T>(s: seq<T>, x: T)
    requires NoDuplicates(s)
    ensures x !in RemoveFirst(s, x) && NoDuplicates(RemoveFirst(s, x))
  {
    if s != [] {
      NoDuplicatesTail(s);
      if s[0] != x {
        var r' := RemoveFirst(s[1..], x);
        RemoveFirstNoDuplicates(s[1..], x);
        RemoveFirstElems(s[1..], x);
        NoDuplicatesCons(s[0], r');
      }
    }
  }

  /** The tail of a duplicate-free list is duplicate-free and lacks the head. */
  lemma NoDuplicatesTail<T>(s: seq<T>)
    requires s != [] && NoDuplicates(s)
    ensures NoDuplicates(s[1..]) && s[0] !in s[1..]
  {
    forall i, j | 0 <= i < j < |s| - 1 ensures s[1..][i] != s[1..][j] {
      assert s[1..][i] == s[i + 1] && s[1..][j] == s[j + 1];
    }
    forall k | 0 <= k < |s| - 1 ensures s[1..][k] != s[0] {
      assert s[1..][k] == s[k + 1];
    }
  }

  /** Putting a new element in front of a duplicate-free list keeps it duplicate-free. */
  lemma NoDuplicatesCons<T>(a: T, s: seq<T>)
    requires NoDuplicates(s) && a !in s
    ensures NoDuplicates([a] + s)
  {
    var t := [a] + s;
    forall i, j | 0 <= i < j < |t| ensures t[i] != t[j] {
      assert t[j] == s[j - 1];
      if i > 0 { assert t[i] == s[i - 1]; }
    }
  }

  /** Appending an element that is not present keeps a list duplicate-free. */
  lemma NoDuplicatesAppend<T>(s: seq<T>, x: T)
    requires NoDuplicates(s) && x !in s
    ensures NoDuplicates(s + [x])
  {
    var t := s + [x];
    forall i, j | 0 <= i < j < |t| ensures t[i] != t[j] {
      if j == |s| {
        assert t[i] == s[i];
      }
    }
  }

  /** The first index at or after `from` whose element already occurred
      earlier in `s`, or `|s|` when there is none. */
  function FirstRepeatFrom<T(==)>(s: seq<T>, from: nat): (k: nat)
    requires from <= |s|
    ensures from <= k <= |s|
    ensures forall j :: from <= j < k ==> s[j] !in s[..j]
    ensures k < |s| ==> s[k] in s[..k]
    decreases |s| - from
  {
    if from == |s| then from
    else if s[from] in s[..from] then from
    else FirstRepeatFrom(s, from + 1)
  }

  /** The length of the longest duplicate-free prefix of `s`. */
  function FirstRepeat<T(==)>(s: seq<T>): (k: nat)
    ensures k <= |s|
    ensures NoDuplicates(s[..k])
    ensures k == |s| <==> NoDuplicates(s)
    ensures k < |s| ==> s[k] in s[..k]
  {
    var k := FirstRepeatFrom(s, 0);
    PrefixNoDuplicates(s, k);
    if k < |s| then RepeatIsDuplicate(s, k); k
    else assert s[..k] == s; k
  }

  /** An element that already occurred earlier makes the list not duplicate-free. */
  lemma RepeatIsDuplicate<T>(s: seq<T>, k: nat)
    requires k < |s| && s[k] in s[..k]
    ensures !NoDuplicates(s)
  {
    var j :| 0 <= j < k && s[..k][j] == s[k];
    assert s[j] == s[k];
  }

  /** A prefix in which no element repeats an earlier one is duplicate-free. */
  lemma PrefixNoDuplicates<T>(s: seq<T>, k: nat)
    requires k <= |s|
    requires forall j :: 0 <= j < k ==> s[j] !in s[..j]
    ensures NoDuplicates(s[..k])
  {
    forall i, j | 0 <= i < j < k ensures s[..k][i] != s[..k][j] {
      assert s[..j][i] == s[i];
    }
  }
}
