/** Sequence operations shared by several parts of the model: de-duplication,
    removal of one or all occurrences, and the "order-preserving subsequence" relation. */
module Seqs {

  /** No element occurs twice. */
  predicate NoDups<T(==)>(s: seq<T>)
  {
    forall i, j :: 0 <= i < j < |s| ==> s[i] != s[j]
  }

  /** `r` can be obtained from `s` by deleting elements, keeping the order of the rest. */
  predicate IsSubsequence<T(==)>(r: seq<T>, s: seq<T>)
    decreases |s|
  {
    if r == [] then true
    else if s == [] then false
    else if r[|r| - 1] == s[|s| - 1] then IsSubsequence(r[..|r| - 1], s[..|s| - 1])
    else IsSubsequence(r, s[..|s| - 1])
  }

  /** Appending the same element to both sides, or to the whole only, keeps a subsequence. */
  lemma {:induction false} SubsequenceOfSnoc<T>(r: seq<T>, s: seq<T>, x: T)
    requires IsSubsequence(r, s)
    ensures IsSubsequence(r, s + [x]) && IsSubsequence(r + [x], s + [x])
    decreases |s|, 1
  {
    assert (s + [x])[..|s|] == s;
    assert (r + [x])[..|r|] == r;
    if r != [] && r[|r| - 1] == x {
      SubsequenceDropLast(r, s);
    }
  }

  lemma {:induction false} SubsequenceDropLast<T>(r: seq<T>, s: seq<T>)
    requires r != [] && IsSubsequence(r, s)
    ensures IsSubsequence(r[..|r| - 1], s)
    decreases |s|, 0
  {
    var s', last := s[..|s| - 1], s[|s| - 1];
    assert s' + [last] == s;
    if r[|r| - 1] == last {
      SubsequenceOfSnoc(r[..|r| - 1], s', last);
    } else {
      SubsequenceDropLast(r, s');
      SubsequenceOfSnoc(r[..|r| - 1], s', last);
    }
  }

  lemma NoDupsSnoc<T>(p: seq<T>, e: T)
    requires NoDups(p) && e !in p
    ensures NoDups(p + [e])
  {
  }

  /** Every element of a subsequence is an element of the whole. */
  lemma {:induction false} SubsequenceElements<T>(r: seq<T>, s: seq<T>)
    requires IsSubsequence(r, s)
    ensures |r| <= |s|
    ensures forall x :: x in r ==> x in s
    decreases |s|
  {
    if r != [] && s != [] {
      if r[|r| - 1] == s[|s| - 1] {
        SubsequenceElements(r[..|r| - 1], s[..|s| - 1]);
        assert r == r[..|r| - 1] + [r[|r| - 1]];
        assert s == s[..|s| - 1] + [s[|s| - 1]];
      } else {
        SubsequenceElements(r, s[..|s| - 1]);
        assert s == s[..|s| - 1] + [s[|s| - 1]];
      }
    }
  }

  /** The elements of `s`, each kept at its first occurrence (a JavaScript `Set` read back with `Array.from`). */
  function Distinct<T(==,!new)>(s: seq<T>): (r: seq<T>)
    ensures NoDups(r)
    ensures forall x :: x in r <==> x in s
    ensures IsSubsequence(r, s)
  {
    if s == [] then []
    else
      var d := Distinct(s[..|s| - 1]);
      assert forall x :: x in s <==> x in s[..|s| - 1] || x == s[|s| - 1] by {
        assert s == s[..|s| - 1] + [s[|s| - 1]];
      }
      SubsequenceOfSnoc(d, s[..|s| - 1], s[|s| - 1]);
      assert s[..|s| - 1] + [s[|s| - 1]] == s;
      assert s[|s| - 1] !in d ==> NoDups(d + [s[|s| - 1]]) by {
        if s[|s| - 1] !in d { NoDupsSnoc(d, s[|s| - 1]); }
      }
      if s[|s| - 1] in d then d else d + [s[|s| - 1]]
  }

  /** One more element is kept by `Distinct` exactly when it is new. */
  lemma DistinctSnoc<T(!new)>(s: seq<T>, x: T)
    ensures Distinct(s + [x]) == if x in Distinct(s) then Distinct(s) else Distinct(s) + [x]
  {
    assert (s + [x])[..|s|] == s;
  }

  /** A sequence without duplicates is its own de-duplication. */
  lemma {:induction false} DistinctOfNoDups<T(!new)>(s: seq<T>)
    requires NoDups(s)
    ensures Distinct(s) == s
  {
    if s != [] {
      DistinctOfNoDups(s[..|s| - 1]);
      assert s[|s| - 1] !in s[..|s| - 1];
      assert s[..|s| - 1] + [s[|s| - 1]] == s;
    }
  }

  /** De-duplicating twice is de-duplicating once. */
  lemma DistinctIdempotent<T(!new)>(s: seq<T>)
    ensures Distinct(Distinct(s)) == Distinct(s)
  {
    DistinctOfNoDups(Distinct(s));
  }

  /** `s` with every occurrence of `x` removed, the rest in order (Go's filtering loop, JavaScript's `filter`). */
  function RemoveAll<T(==)>(s: seq<T>, x: T): (r: seq<T>)
    ensures |r| <= |s|
  {
    if s == [] then []
    else if s[|s| - 1] == x then RemoveAll(s[..|s| - 1], x)
    else RemoveAll(s[..|s| - 1], x) + [s[|s| - 1]]
  }

  /** What `RemoveAll` keeps: exactly the elements other than `x`, in their original order. */
  lemma RemoveAllSpec<T>(s: seq<T>, x: T)
    ensures x !in RemoveAll(s, x)
    ensures forall y :: y != x && y in s ==> y in RemoveAll(s, x)
    ensures forall y :: y in RemoveAll(s, x) ==> y in s
    ensures IsSubsequence(RemoveAll(s, x), s)
    ensures x !in s ==> RemoveAll(s, x) == s
    ensures NoDups(s) ==> NoDups(RemoveAll(s, x))
  {
    RemoveAllMembers(s, x);
    if NoDups(s) {
      RemoveAllNoDups(s, x);
    }
  }

  lemma {:induction false} RemoveAllMembers<T>(s: seq<T>, x: T)
    ensures x !in RemoveAll(s, x)
    ensures forall y :: y != x && y in s ==> y in RemoveAll(s, x)
    ensures forall y :: y in RemoveAll(s, x) ==> y in s
    ensures IsSubsequence(RemoveAll(s, x), s)
    ensures x !in s ==> RemoveAll(s, x) == s
  {
    if s != [] {
      var s', e := s[..|s| - 1], s[|s| - 1];
      assert s == s' + [e];
      RemoveAllMembers(s', x);
      SubsequenceOfSnoc(RemoveAll(s', x), s', e);
    }
  }

  lemma {:induction false} RemoveAllNoDups<T>(s: seq<T>, x: T)
    requires NoDups(s)
    ensures NoDups(RemoveAll(s, x))
  {
    if s != [] {
      var s', e := s[..|s| - 1], s[|s| - 1];
      assert s == s' + [e];
      assert NoDups(s');
      assert e !in s';
      RemoveAllNoDups(s', x);
      RemoveAllMembers(s', x);
      if e != x { NoDupsSnoc(RemoveAll(s', x), e); }
    }
  }

  /** Index of the first occurrence of `x` in `s`. */
  function FirstIndex<T(==)>(s: seq<T>, x: T): (i: nat)
    requires x in s
    ensures i < |s| && s[i] == x
    ensures forall k :: 0 <= k < i ==> s[k] != x
  {
    if s[0] == x then 0 else 1 + FirstIndex(s[1..], x)
  }

  /** `s` with its first occurrence of `x` cut out (Go's `append(s[:i], s[i+1:]...)`), or `s` when `x` is absent. */
  function RemoveFirst<T(==)>(s: seq<T>, x: T): (r: seq<T>)
  {
    if x in s then
      var i := FirstIndex(s, x);
      s[..i] + s[i + 1..]
    else s
  }

  /** What removing the first occurrence does: one copy of `x` fewer, nothing else lost, order kept. */
  lemma RemoveFirstSpec<T>(s: seq<T>, x: T)
    ensures x !in s ==> RemoveFirst(s, x) == s
    ensures x in s ==> |RemoveFirst(s, x)| == |s| - 1
    ensures multiset(RemoveFirst(s, x)) == multiset(s) - multiset{x}
    ensures x in s ==> exists i :: 0 <= i < |s| && RemoveFirst(s, x) == s[..i] + s[i + 1..] && x !in s[..i]
  {
    if x in s {
      var i := FirstIndex(s, x);
      assert s == s[..i] + [x] + s[i + 1..];
      assert x !in s[..i];
    }
  }

  /** Without duplicates, removing the first occurrence removes every occurrence. */
  lemma {:induction false} RemoveFirstIsRemoveAll<T>(s: seq<T>, x: T)
    requires NoDups(s)
    ensures RemoveFirst(s, x) == RemoveAll(s, x)
  {
    if x in s {
      var i := FirstIndex(s, x);
      assert s == s[..i] + [x] + s[i + 1..];
      var rest := s[i + 1..];
      assert x !in rest by {
        forall k | 0 <= k < |rest| ensures rest[k] != x {
          assert rest[k] == s[i + 1 + k];
        }
      }
      RemoveAllOfSplit(s[..i], s[i + 1..], x);
      RemoveAllSpec(s[..i], x);
      RemoveAllSpec(s[i + 1..], x);
    } else {
      RemoveAllSpec(s, x);
    }
  }

  /** Removing all occurrences from `a + [x] + b` leaves the removals from `a` and `b` side by side. */
  lemma {:induction false} RemoveAllOfSplit<T>(a: seq<T>, b: seq<T>, x: T)
    ensures RemoveAll(a + [x] + b, x) == RemoveAll(a, x) + RemoveAll(b, x)
    decreases |b|
  {
    if b == [] {
      assert (a + [x] + b)[..|a + [x] + b| - 1] == a;
    } else {
      var s := a + [x] + b;
      assert s[..|s| - 1] == a + [x] + b[..|b| - 1];
      RemoveAllOfSplit(a, b[..|b| - 1], x);
    }
  }
}
