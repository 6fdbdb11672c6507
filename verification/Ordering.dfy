/** String order and stable sorting, as the standard library's `Ord` for strings and
    `sort_by_key` behave. */
module Ordering {
  /** Lexicographic order on strings. */
  predicate StrLe(a: string, b: string) {
    a == [] || (b != [] && (a[0] < b[0] || (a[0] == b[0] && StrLe(a[1..], b[1..]))))
  }

  lemma {:induction false} StrLeTotal(a: string, b: string)
    ensures StrLe(a, b) || StrLe(b, a)
    ensures StrLe(a, b) && StrLe(b, a) ==> a == b
  {
    if a != [] && b != [] && a[0] == b[0] {
      StrLeTotal(a[1..], b[1..]);
      assert a == [a[0]] + a[1..] && b == [b[0]] + b[1..];
    }
  }

  lemma {:induction false} StrLeTransitive(a: string, b: string, c: string)
    requires StrLe(a, b) && StrLe(b, c)
    ensures StrLe(a, c)
  {
    if a != [] && a[0] == b[0] == c[0] {
      StrLeTransitive(a[1..], b[1..], c[1..]);
    }
  }

  /** `a` comes before `b` in a dictionary: it has the lesser character where they first
      differ, or ends there. */
  ghost predicate Before(a: string, b: string) {
    exists i: nat :: DiffersAt(a, b, i)
  }

  ghost predicate DiffersAt(a: string, b: string, i: nat) {
    i <= |a| && i < |b| && a[..i] == b[..i] && (i == |a| || a[i] < b[i])
  }

  lemma {:induction false} StrLeIsDictionary(a: string, b: string)
    ensures StrLe(a, b) <==> a == b || Before(a, b)
  {
    if a == [] {
      assert b == [] || DiffersAt(a, b, 0);
    } else if b != [] {
      assert a == [a[0]] + a[1..] && b == [b[0]] + b[1..];
      if a[0] == b[0] {
        StrLeIsDictionary(a[1..], b[1..]);
        if i: nat :| DiffersAt(a[1..], b[1..], i) {
          assert a[..i + 1] == [a[0]] + a[1..][..i] && b[..i + 1] == [b[0]] + b[1..][..i];
          assert DiffersAt(a, b, i + 1);
        }
        if i: nat :| DiffersAt(a, b, i) {
          assert a[1..][..i - 1] == a[..i][1..] && b[1..][..i - 1] == b[..i][1..];
          assert DiffersAt(a[1..], b[1..], i - 1);
        }
      } else {
        assert a[0] < b[0] ==> DiffersAt(a, b, 0);
      }
    }
  }

  /** The identity of a namespaced object; ordered by namespace, then name. */
  type Key = (string, string)

  predicate KeyLe(a: Key, b: Key) {
    if a.0 == b.0 then StrLe(a.1, b.1) else StrLe(a.0, b.0)
  }

  ghost predicate KeyBefore(a: Key, b: Key) {
    Before(a.0, b.0) || (a.0 == b.0 && Before(a.1, b.1))
  }

  lemma {:induction false} KeyLeIsDictionary(a: Key, b: Key)
    ensures KeyLe(a, b) <==> a == b || KeyBefore(a, b)
  {
    StrLeIsDictionary(a.0, b.0);
    StrLeIsDictionary(a.1, b.1);
  }

  lemma {:induction false} NotBeforeItself(a: Key)
    ensures !KeyBefore(a, a)
  {
  }

  lemma {:induction false} KeyLeTotal(a: Key, b: Key)
    ensures KeyLe(a, b) || KeyLe(b, a)
    ensures KeyLe(a, b) && KeyLe(b, a) ==> a == b
  {
    StrLeTotal(a.0, b.0);
    StrLeTotal(a.1, b.1);
  }

  lemma {:induction false} KeyLeTransitive(a: Key, b: Key, c: Key)
    requires KeyLe(a, b) && KeyLe(b, c)
    ensures KeyLe(a, c)
  {
    StrLeTotal(a.0, b.0);
    StrLeTotal(b.0, c.0);
    if StrLe(a.0, b.0) && StrLe(b.0, c.0) {
      StrLeTransitive(a.0, b.0, c.0);
    }
    if a.0 == b.0 == c.0 {
      StrLeTransitive(a.1, b.1, c.1);
    }
  }

  // ── the keys of an ordered map, in order ────────────────────────────────────

  predicate IsLeast(m: string, s: set<string>) {
    m in s && forall k | k in s :: StrLe(m, k)
  }

  lemma {:induction false} LeastExists(s: set<string>)
    requires s != {}
    ensures exists m :: IsLeast(m, s)
  {
    var x :| x in s;
    var rest := s - {x};
    StrLeTotal(x, x);
    if rest == {} {
      assert s == {x};
      assert IsLeast(x, s);
    } else {
      LeastExists(rest);
      var m :| IsLeast(m, rest);
      StrLeTotal(m, x);
      if StrLe(m, x) {
        assert IsLeast(m, s);
      } else {
        forall k | k in rest
          ensures StrLe(x, k)
        {
          StrLeTransitive(x, m, k);
        }
        assert forall k | k in s :: k == x || k in rest;
        assert IsLeast(x, s);
      }
    }
  }

  lemma {:induction false} LeastUnique(s: set<string>)
    ensures forall a, b | IsLeast(a, s) && IsLeast(b, s) :: a == b
  {
    forall a, b | IsLeast(a, s) && IsLeast(b, s)
      ensures a == b
    {
      StrLeTotal(a, b);
    }
  }

  function Least(s: set<string>): (m: string)
    requires s != {}
    ensures IsLeast(m, s)
  {
    LeastExists(s);
    LeastUnique(s);
    var m :| m in s && IsLeast(m, s);
    m
  }

  function SortedKeys(s: set<string>): (ks: seq<string>)
    ensures forall k :: k in ks <==> k in s
    ensures |ks| == |s|
    ensures forall i, j :: 0 <= i < j < |ks| ==> ks[i] != ks[j]
    ensures forall i, j :: 0 <= i < j < |ks| ==> StrLe(ks[i], ks[j])
  {
    if s == {} then [] else [Least(s)] + SortedKeys(s - {Least(s)})
  }

  // ── filtering ───────────────────────────────────────────────────────────────

  predicate Ascending(at: seq<nat>) {
    forall i, j | 0 <= i < j < |at| :: at[i] < at[j]
  }

  /** `out` is made of the elements of `xs` at the positions `at`: these ascend, and are all
      the positions where `keep` holds; `made` says what becomes of an element. */
  ghost predicate FilteredAt<T, U>(xs: seq<T>, keep: T -> bool, made: (T, U) -> bool, out: seq<U>, at: seq<nat>) {
    && |at| == |out|
    && Ascending(at)
    && (forall i | 0 <= i < |at| :: at[i] < |xs| && keep(xs[at[i]]) && made(xs[at[i]], out[i]))
    && (forall k | 0 <= k < |xs| && keep(xs[k]) :: k in at)
  }

  /** `out` holds what becomes of each element to keep, as often as it occurs and in the order
      it has in `xs`, and nothing else. */
  ghost predicate Filtered<T, U>(xs: seq<T>, keep: T -> bool, made: (T, U) -> bool, out: seq<U>) {
    exists at :: FilteredAt(xs, keep, made, out, at)
  }

  function Shifted(at: seq<nat>): (r: seq<nat>)
    ensures |r| == |at| && forall i | 0 <= i < |at| :: r[i] == at[i] + 1
  {
    if at == [] then [] else [at[0] + 1] + Shifted(at[1..])
  }

  lemma {:induction false} ShiftedHas(at: seq<nat>, k: nat)
    requires k in at
    ensures k + 1 in Shifted(at)
  {
    var i :| 0 <= i < |at| && at[i] == k;
    assert Shifted(at)[i] == k + 1;
  }

  lemma {:induction false} ShiftedAscends(at: seq<nat>)
    requires Ascending(at)
    ensures Ascending([0] + Shifted(at))
  {
    var more := [0] + Shifted(at);
    assert forall i | 0 < i < |more| :: more[i] == at[i - 1] + 1;
  }

  /** Positions found again behind a new first element. */
  lemma {:induction false} FoundBehind<T>(x: T, xs: seq<T>, keep: T -> bool, at: seq<nat>, k: nat)
    requires 0 < k <= |xs| && keep(([x] + xs)[k])
    requires forall i | 0 <= i < |xs| && keep(xs[i]) :: i in at
    ensures k in [0] + Shifted(at) && k in Shifted(at)
  {
    assert xs[k - 1] == ([x] + xs)[k];
    ShiftedHas(at, k - 1);
  }

  lemma {:induction false} FilteredAtSkip<T, U>(x: T, xs: seq<T>, keep: T -> bool, made: (T, U) -> bool, out: seq<U>,
                                                at: seq<nat>)
    requires FilteredAt(xs, keep, made, out, at) && !keep(x)
    ensures FilteredAt([x] + xs, keep, made, out, Shifted(at))
  {
    var all, more := [x] + xs, Shifted(at);
    forall i | 0 <= i < |more|
      ensures more[i] < |all| && keep(all[more[i]]) && made(all[more[i]], out[i])
    {
      assert all[more[i]] == xs[at[i]];
    }
    forall k | 0 <= k < |all| && keep(all[k])
      ensures k in more
    {
      FoundBehind(x, xs, keep, at, k);
    }
  }

  lemma {:induction false} FilteredElement<T, U>(x: T, xs: seq<T>, keep: T -> bool, made: (T, U) -> bool, y: U,
                                                 out: seq<U>, at: seq<nat>, i: nat)
    requires FilteredAt(xs, keep, made, out, at) && keep(x) && made(x, y) && i <= |at|
    ensures var all, more, outs := [x] + xs, [0] + Shifted(at), [y] + out;
            more[i] < |all| && keep(all[more[i]]) && made(all[more[i]], outs[i])
  {
    var all, more, outs := [x] + xs, [0] + Shifted(at), [y] + out;
    if i > 0 {
      assert more[i] == at[i - 1] + 1;
      assert all[more[i]] == xs[at[i - 1]];
      assert outs[i] == out[i - 1];
    }
  }

  lemma {:induction false} FilteredAtKeep<T, U>(x: T, xs: seq<T>, keep: T -> bool, made: (T, U) -> bool, y: U,
                                                out: seq<U>, at: seq<nat>)
    requires FilteredAt(xs, keep, made, out, at) && keep(x) && made(x, y)
    ensures FilteredAt([x] + xs, keep, made, [y] + out, [0] + Shifted(at))
  {
    var all, more, outs := [x] + xs, [0] + Shifted(at), [y] + out;
    ShiftedAscends(at);
    forall i | 0 <= i < |more|
      ensures more[i] < |all| && keep(all[more[i]]) && made(all[more[i]], outs[i])
    {
      FilteredElement(x, xs, keep, made, y, out, at, i);
    }
    forall k | 0 <= k < |all| && keep(all[k])
      ensures k in more
    {
      if k == 0 {
        assert more[0] == 0;
      } else {
        FoundBehind(x, xs, keep, at, k);
      }
    }
  }

  lemma {:induction false} FilteredNone<T, U>(keep: T -> bool, made: (T, U) -> bool)
    ensures Filtered([], keep, made, [])
  {
    assert FilteredAt([], keep, made, [], []);
  }

  /** One element more in front. */
  lemma {:induction false} FilteredCons<T, U>(x: T, xs: seq<T>, keep: T -> bool, made: (T, U) -> bool, head: seq<U>,
                                              out: seq<U>)
    requires Filtered(xs, keep, made, out)
    requires if keep(x) then |head| == 1 && made(x, head[0]) else head == []
    ensures Filtered([x] + xs, keep, made, head + out)
  {
    hide FilteredAt;
    var at :| FilteredAt(xs, keep, made, out, at);
    if keep(x) {
      FilteredAtKeep(x, xs, keep, made, head[0], out, at);
      assert head + out == [head[0]] + out;
    } else {
      FilteredAtSkip(x, xs, keep, made, out, at);
      assert head + out == out;
    }
  }

  // ── dropping an element ─────────────────────────────────────────────────────

  /** Drops every occurrence of `gone`. */
  function Retain<T(==)>(xs: seq<T>, gone: T): seq<T> {
    if xs == [] then []
    else if xs[0] == gone then Retain(xs[1..], gone)
    else [xs[0]] + Retain(xs[1..], gone)
  }

  ghost function Same<T>(): (T, T) -> bool {
    (x, y) => x == y
  }

  ghost function OtherThan<T>(gone: T): T -> bool {
    x => x != gone
  }

  /** `out` is `xs` without `gone`: the other elements, all of them, in the order they had. */
  ghost predicate KeepsOthers<T>(xs: seq<T>, gone: T, out: seq<T>) {
    Filtered(xs, OtherThan(gone), Same(), out)
  }

  lemma {:induction false} RetainKeepsOrder<T>(xs: seq<T>, gone: T)
    ensures KeepsOthers(xs, gone, Retain(xs, gone))
  {
    hide Filtered;
    if xs == [] {
      FilteredNone<T, T>(OtherThan(gone), Same());
    } else {
      RetainKeepsOrder(xs[1..], gone);
      assert xs == [xs[0]] + xs[1..];
      var head := if xs[0] == gone then [] else [xs[0]];
      FilteredCons(xs[0], xs[1..], OtherThan(gone), Same(), head, Retain(xs[1..], gone));
      assert Retain(xs, gone) == head + Retain(xs[1..], gone);
    }
  }

  lemma {:induction false} RetainCounts<T>(xs: seq<T>, gone: T)
    ensures gone !in Retain(xs, gone)
    ensures multiset(Retain(xs, gone)) == multiset(xs)[gone := 0]
    ensures gone !in xs ==> Retain(xs, gone) == xs
  {
    if xs != [] {
      RetainCounts(xs[1..], gone);
      assert xs == [xs[0]] + xs[1..];
    }
  }

  /** Retaining keeps exactly the other elements, each as often and in the order it had. */
  lemma {:induction false} RetainKeepsOthers<T>(xs: seq<T>, gone: T)
    ensures KeepsOthers(xs, gone, Retain(xs, gone))
    ensures gone !in Retain(xs, gone)
    ensures multiset(Retain(xs, gone)) == multiset(xs)[gone := 0]
    ensures gone !in xs ==> Retain(xs, gone) == xs
  {
    RetainKeepsOrder(xs, gone);
    RetainCounts(xs, gone);
  }

  // ── stable sorting ──────────────────────────────────────────────────────────

  ghost predicate TotalPreorder<T(!new)>(le: (T, T) -> bool) {
    && (forall a, b :: le(a, b) || le(b, a))
    && (forall a, b, c :: le(a, b) && le(b, c) ==> le(a, c))
  }

  ghost predicate Sorted<T>(xs: seq<T>, le: (T, T) -> bool) {
    forall i, j :: 0 <= i < j < |xs| ==> le(xs[i], xs[j])
  }

  /** Puts `x` before the first element it may stand before. */
  function Insert<T>(x: T, xs: seq<T>, le: (T, T) -> bool): (r: seq<T>)
    ensures |r| == |xs| + 1
    ensures multiset(r) == multiset(xs) + multiset{x}
  {
    if xs == [] then [x]
    else if le(x, xs[0]) then [x] + xs
    else
      var r := [xs[0]] + Insert(x, xs[1..], le);
      assert xs == [xs[0]] + xs[1..];
      r
  }

  /** Stable: earlier elements go before later ones they are level with. */
  function Sort<T>(xs: seq<T>, le: (T, T) -> bool): (r: seq<T>)
    ensures |r| == |xs|
    ensures multiset(r) == multiset(xs)
  {
    if xs == [] then []
    else
      assert xs == [xs[0]] + xs[1..];
      Insert(xs[0], Sort(xs[1..], le), le)
  }

  lemma {:induction false} MultisetMembers<T>(a: seq<T>, b: seq<T>)
    requires multiset(a) == multiset(b)
    ensures forall x :: x in a <==> x in b
    ensures |a| == |b|
  {
    forall x
      ensures x in a <==> x in b
    {
      assert x in a <==> x in multiset(a);
      assert x in b <==> x in multiset(b);
    }
    assert |multiset(a)| == |a| && |multiset(b)| == |b|;
  }

  lemma {:induction false} InsertMembers<T>(x: T, xs: seq<T>, le: (T, T) -> bool)
    ensures forall y :: y in Insert(x, xs, le) <==> y == x || y in xs
  {
    forall y
      ensures y in Insert(x, xs, le) <==> y == x || y in xs
    {
      assert y in Insert(x, xs, le) <==> y in multiset(Insert(x, xs, le));
      assert y in xs <==> y in multiset(xs);
    }
  }

  lemma {:induction false} InsertSorted<T(!new)>(x: T, xs: seq<T>, le: (T, T) -> bool)
    requires TotalPreorder(le) && Sorted(xs, le)
    ensures Sorted(Insert(x, xs, le), le)
  {
    if xs != [] && !le(x, xs[0]) {
      InsertSorted(x, xs[1..], le);
      InsertMembers(x, xs[1..], le);
      var rest := Insert(x, xs[1..], le);
      forall j | 0 <= j < |rest|
        ensures le(xs[0], rest[j])
      {
        assert rest[j] in rest;
      }
    }
  }

  lemma {:induction false} SortSorted<T(!new)>(xs: seq<T>, le: (T, T) -> bool)
    requires TotalPreorder(le)
    ensures Sorted(Sort(xs, le), le)
  {
    if xs != [] {
      SortSorted(xs[1..], le);
      InsertSorted(xs[0], Sort(xs[1..], le), le);
    }
  }

  /** No two different elements are level. */
  ghost predicate NoTies<T(!new)>(xs: seq<T>, le: (T, T) -> bool) {
    forall x, y :: x in xs && y in xs && le(x, y) && le(y, x) ==> x == y
  }

  lemma {:induction false} SortedTail<T(!new)>(a: seq<T>, le: (T, T) -> bool)
    requires a != [] && Sorted(a, le) && NoTies(a, le)
    ensures Sorted(a[1..], le) && NoTies(a[1..], le)
    ensures multiset(a[1..]) == multiset(a) - multiset{a[0]}
  {
    assert forall x :: x in a[1..] ==> x in a;
    assert a == [a[0]] + a[1..];
  }

  lemma {:induction false} LeastFirst<T(!new)>(a: seq<T>, b: seq<T>, le: (T, T) -> bool)
    requires a != [] && b != [] && Sorted(a, le) && Sorted(b, le) && NoTies(a, le) && a[0] in b && b[0] in a
    ensures a[0] == b[0]
  {
    var i :| 0 <= i < |b| && b[i] == a[0];
    var j :| 0 <= j < |a| && a[j] == b[0];
    if i > 0 && j > 0 {
      assert le(b[0], b[i]) && le(a[0], a[j]);
    }
  }

  lemma {:induction false} SameMembersNoTies<T(!new)>(a: seq<T>, b: seq<T>, le: (T, T) -> bool)
    requires multiset(a) == multiset(b) && NoTies(a, le)
    ensures NoTies(b, le)
    ensures a != [] ==> b != [] && a[0] in b && b[0] in a
    ensures a == [] ==> b == []
  {
    MultisetMembers(a, b);
  }

  lemma {:induction false} SameHeadAndTail<T>(a: seq<T>, b: seq<T>)
    requires a != [] && b != [] && a[0] == b[0] && a[1..] == b[1..]
    ensures a == b
  {
    assert a == [a[0]] + a[1..] && b == [b[0]] + b[1..];
  }

  /** Two sorted arrangements of the same elements are equal when there are no ties. */
  lemma {:induction false} SortedUnique<T(!new)>(a: seq<T>, b: seq<T>, le: (T, T) -> bool)
    requires Sorted(a, le) && Sorted(b, le) && multiset(a) == multiset(b) && NoTies(a, le)
    ensures a == b
  {
    SameMembersNoTies(a, b, le);
    if a != [] {
      LeastFirst(a, b, le);
      SortedTail(a, le);
      SortedTail(b, le);
      SortedUnique(a[1..], b[1..], le);
      SameHeadAndTail(a, b);
    }
  }

  /** Sorting does not depend on the order the elements arrive in. */
  lemma {:induction false} SortIgnoresOrder<T(!new)>(a: seq<T>, b: seq<T>, le: (T, T) -> bool)
    requires TotalPreorder(le) && multiset(a) == multiset(b) && NoTies(a, le)
    ensures Sort(a, le) == Sort(b, le)
  {
    SortSorted(a, le);
    SortSorted(b, le);
    SameMembersNoTies(a, Sort(a, le), le);
    SortedUnique(Sort(a, le), Sort(b, le), le);
  }

  lemma {:induction false} SortOfSorted<T(!new)>(xs: seq<T>, le: (T, T) -> bool)
    requires Sorted(xs, le)
    ensures Sort(xs, le) == xs
  {
    if xs != [] {
      SortOfSorted(xs[1..], le);
      if |xs| > 1 {
        assert le(xs[0], xs[1]);
      }
    }
  }

  predicate DistinctBy<T, K(==)>(xs: seq<T>, key: T -> K) {
    forall i, j :: 0 <= i < j < |xs| ==> key(xs[i]) != key(xs[j])
  }

  lemma {:induction false} DistinctHead<T, K>(xs: seq<T>, key: T -> K)
    requires DistinctBy(xs, key) && xs != []
    ensures forall y | y in xs[1..] :: key(y) != key(xs[0])
  {
    forall y | y in xs[1..]
      ensures key(y) != key(xs[0])
    {
      var i :| 0 <= i < |xs[1..]| && xs[1..][i] == y;
      assert y == xs[i + 1];
    }
  }

  lemma {:induction false} InsertKeepsDistinct<T(!new), K>(x: T, xs: seq<T>, le: (T, T) -> bool, key: T -> K)
    requires DistinctBy(xs, key) && forall y | y in xs :: key(y) != key(x)
    ensures DistinctBy(Insert(x, xs, le), key)
  {
    if xs != [] && !le(x, xs[0]) {
      assert forall y | y in xs[1..] :: y in xs;
      DistinctHead(xs, key);
      InsertKeepsDistinct(x, xs[1..], le, key);
      InsertMembers(x, xs[1..], le);
      var out := Insert(x, xs[1..], le);
      forall j | 0 <= j < |out|
        ensures key(out[j]) != key(xs[0])
      {
        assert out[j] in out;
      }
    }
  }

  /** Sorting keeps keys distinct. */
  lemma {:induction false} SortKeepsDistinct<T(!new), K>(xs: seq<T>, le: (T, T) -> bool, key: T -> K)
    requires DistinctBy(xs, key)
    ensures DistinctBy(Sort(xs, le), key)
  {
    if xs != [] {
      DistinctHead(xs, key);
      SortKeepsDistinct(xs[1..], le, key);
      var tail := Sort(xs[1..], le);
      MultisetMembers(xs[1..], tail);
      forall y | y in tail
        ensures key(y) != key(xs[0])
      {
        assert y in xs[1..];
      }
      InsertKeepsDistinct(xs[0], tail, le, key);
    }
  }
}
