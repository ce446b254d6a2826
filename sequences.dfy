/** Sequence helpers shared by the differs: subsequences, `List.remove` and stream filtering. */
module Sequences {

  /** `a` is `b` with some elements left out, the others kept in order. */
  ghost predicate IsSubsequence<T>(a: seq<T>, b: seq<T>)
    decreases |b|
  {
    a == [] ||
    (b != [] && (IsSubsequence(a, b[1..]) || (a[0] == b[0] && IsSubsequence(a[1..], b[1..]))))
  }

  lemma {:induction false} SubsequenceRefl<T>(a: seq<T>)
    ensures IsSubsequence(a, a)
    decreases |a|
  {
    if a != [] {
      SubsequenceRefl(a[1..]);
    }
  }

  lemma {:induction false} SubsequenceTrans<T>(a: seq<T>, b: seq<T>, c: seq<T>)
    requires IsSubsequence(a, b) && IsSubsequence(b, c)
    ensures IsSubsequence(a, c)
    decreases |c|
  {
    if a != [] {
      if IsSubsequence(b, c[1..]) {
        SubsequenceTrans(a, b, c[1..]);
      } else if IsSubsequence(a, b[1..]) {
        SubsequenceTrans(a, b[1..], c[1..]);
      } else {
        SubsequenceTrans(a[1..], b[1..], c[1..]);
      }
    }
  }

  lemma {:induction false} SubsequenceCons<T>(x: T, a: seq<T>, b: seq<T>)
    requires IsSubsequence(a, b)
    ensures IsSubsequence([x] + a, [x] + b) && IsSubsequence(a, [x] + b)
  {
    assert ([x] + a)[1..] == a;
    assert ([x] + b)[1..] == b;
  }

  lemma {:induction false} SubsequenceMembers<T>(a: seq<T>, b: seq<T>)
    requires IsSubsequence(a, b)
    ensures forall x :: x in a ==> x in b
    decreases |b|
  {
    if a != [] {
      if IsSubsequence(a, b[1..]) {
        SubsequenceMembers(a, b[1..]);
      } else {
        SubsequenceMembers(a[1..], b[1..]);
        assert a == [a[0]] + a[1..];
      }
    }
  }

  /** `List.remove(Object)`: drops the first element equal to `x`, if there is one. */
  function RemoveFirst<T(==)>(s: seq<T>, x: T): (r: seq<T>)
    ensures x in s ==> multiset(r) == multiset(s) - multiset{x} && |r| == |s| - 1
    ensures x !in s ==> r == s
  {
    if s == [] then []
    else
      assert s == [s[0]] + s[1..];
      if s[0] == x then s[1..] else [s[0]] + RemoveFirst(s[1..], x)
  }

  lemma {:induction false} RemoveFirstSubsequence<T>(s: seq<T>, x: T)
    ensures IsSubsequence(RemoveFirst(s, x), s)
  {
    if s == [] {
    } else if s[0] == x {
      assert IsSubsequence(s[1..], s[1..]) by { SubsequenceRefl(s[1..]); }
    } else {
      RemoveFirstSubsequence(s[1..], x);
      assert s == [s[0]] + s[1..];
      SubsequenceCons(s[0], RemoveFirst(s[1..], x), s[1..]);
    }
  }

  /** A head other than `x` stays in front. */
  lemma RemoveFirstStep<T>(s: seq<T>, x: T)
    requires s != [] && s[0] != x
    ensures RemoveFirst(s, x) == [s[0]] + RemoveFirst(s[1..], x)
  {
  }

  /** The occurrence `List.remove(Object)` drops is the first one: when position `i` holds the
      leftmost `x`, the list is cut around `i`. */
  lemma {:induction false} RemoveFirstCutsAtFirst<T>(s: seq<T>, x: T, i: nat)
    requires i < |s| && s[i] == x && x !in s[..i]
    ensures RemoveFirst(s, x) == s[..i] + s[i + 1..]
    decreases i
  {
    if i == 0 {
      assert s[..0] + s[1..] == s[1..];
    } else {
      var t := s[1..];
      assert s[..i] == [s[0]] + t[..i - 1];
      assert t[i - 1 + 1..] == s[i + 1..];
      RemoveFirstCutsAtFirst(t, x, i - 1);
      RemoveFirstStep(s, x);
    }
  }

  /** `s` after removing, for each element of `r` in turn, its first occurrence in what is left. */
  function RemoveEach<T(==)>(s: seq<T>, r: seq<T>): seq<T>
    decreases r
  {
    if r == [] then s else RemoveEach(RemoveFirst(s, r[0]), r[1..])
  }

  /** Nothing can be removed from the empty list. */
  lemma {:induction false} RemoveEachFromEmpty<T>(r: seq<T>)
    ensures RemoveEach([], r) == []
    decreases r
  {
    if r != [] {
      RemoveEachFromEmpty<T>(r[1..]);
    }
  }

  /** Removing the first occurrences of two values gives the same list in either order. */
  lemma {:induction false} RemoveFirstCommutes<T>(s: seq<T>, a: T, b: T)
    ensures RemoveFirst(RemoveFirst(s, a), b) == RemoveFirst(RemoveFirst(s, b), a)
  {
    if s != [] && s[0] != a && s[0] != b {
      RemoveFirstCommutes(s[1..], a, b);
      assert RemoveFirst(s, a) == [s[0]] + RemoveFirst(s[1..], a);
      assert RemoveFirst(s, b) == [s[0]] + RemoveFirst(s[1..], b);
      assert ([s[0]] + RemoveFirst(s[1..], a))[1..] == RemoveFirst(s[1..], a);
      assert ([s[0]] + RemoveFirst(s[1..], b))[1..] == RemoveFirst(s[1..], b);
    } else if s != [] && s[0] == a && s[0] != b {
      assert RemoveFirst(s, b) == [s[0]] + RemoveFirst(s[1..], b);
      assert ([s[0]] + RemoveFirst(s[1..], b))[1..] == RemoveFirst(s[1..], b);
    } else if s != [] && s[0] == b && s[0] != a {
      assert RemoveFirst(s, a) == [s[0]] + RemoveFirst(s[1..], a);
      assert ([s[0]] + RemoveFirst(s[1..], a))[1..] == RemoveFirst(s[1..], a);
    }
  }

  /** Any one element of `r` may be removed first. */
  lemma {:induction false} RemoveEachPull<T>(s: seq<T>, r: seq<T>, a: T)
    requires a in r
    ensures RemoveEach(s, r) == RemoveEach(RemoveFirst(s, a), RemoveFirst(r, a))
    decreases r
  {
    if r[0] != a {
      assert r == [r[0]] + r[1..];
      RemoveEachPull(RemoveFirst(s, r[0]), r[1..], a);
      RemoveFirstCommutes(s, r[0], a);
      var rest := RemoveFirst(r[1..], a);
      assert RemoveFirst(r, a) == [r[0]] + rest;
      assert ([r[0]] + rest)[1..] == rest;
    }
  }

  /** Removing values the list does not start with leaves its head in place. */
  lemma {:induction false} RemoveEachKeepsHead<T>(x: T, s: seq<T>, r: seq<T>)
    requires x !in r
    ensures RemoveEach([x] + s, r) == [x] + RemoveEach(s, r)
    decreases r
  {
    if r != [] {
      assert ([x] + s)[0] == x && ([x] + s)[1..] == s;
      assert RemoveFirst([x] + s, r[0]) == [x] + RemoveFirst(s, r[0]);
      RemoveEachKeepsHead(x, RemoveFirst(s, r[0]), r[1..]);
    }
  }

  /** `stream().filter(keep).toList()`: the elements `keep` accepts, in order. */
  function Filter<T>(s: seq<T>, keep: T -> bool): (r: seq<T>)
    ensures forall x :: x in r ==> x in s && keep(x)
    ensures forall i :: 0 <= i < |s| && keep(s[i]) ==> s[i] in r
  {
    if s == [] then []
    else if keep(s[0]) then [s[0]] + Filter(s[1..], keep)
    else Filter(s[1..], keep)
  }

  lemma {:induction false} FilterFacts<T>(s: seq<T>, keep: T -> bool)
    ensures IsSubsequence(Filter(s, keep), s)
    ensures forall x :: multiset(Filter(s, keep))[x] == if keep(x) then multiset(s)[x] else 0
  {
    if s != [] {
      FilterFacts(s[1..], keep);
      assert s == [s[0]] + s[1..];
      SubsequenceCons(s[0], Filter(s[1..], keep), s[1..]);
    }
  }

  lemma {:induction false} FilterExtensional<T>(s: seq<T>, p: T -> bool, q: T -> bool)
    requires forall k :: p(k) == q(k)
    ensures Filter(s, p) == Filter(s, q)
  {
    if s != [] {
      FilterExtensional(s[1..], p, q);
    }
  }

  /** `stream().filter(k -> !drop.test(k)).toList()`: the elements `drop` rejects left out, the
      others kept in order. */
  function Reject<T>(s: seq<T>, drop: T -> bool): (r: seq<T>)
    ensures forall x :: x in r ==> x in s && !drop(x)
    ensures forall i :: 0 <= i < |s| && !drop(s[i]) ==> s[i] in r
  {
    if s == [] then []
    else if drop(s[0]) then Reject(s[1..], drop)
    else [s[0]] + Reject(s[1..], drop)
  }

  lemma {:induction false} RejectFacts<T>(s: seq<T>, drop: T -> bool)
    ensures IsSubsequence(Reject(s, drop), s)
    ensures forall x :: multiset(Reject(s, drop))[x] == if drop(x) then 0 else multiset(s)[x]
  {
    if s != [] {
      RejectFacts(s[1..], drop);
      assert s == [s[0]] + s[1..];
      SubsequenceCons(s[0], Reject(s[1..], drop), s[1..]);
    }
  }

  lemma {:induction false} RejectExtensional<T>(s: seq<T>, p: T -> bool, q: T -> bool)
    requires forall k :: p(k) == q(k)
    ensures Reject(s, p) == Reject(s, q)
  {
    if s != [] {
      RejectExtensional(s[1..], p, q);
    }
  }

  /** A predicate that drops nothing keeps the whole sequence. */
  lemma {:induction false} RejectNothing<T>(s: seq<T>, drop: T -> bool)
    requires forall k :: !drop(k)
    ensures Reject(s, drop) == s
  {
    if s != [] {
      RejectNothing(s[1..], drop);
    }
  }
}
