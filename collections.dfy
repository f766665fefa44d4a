/** Sequence and map helpers standing for the PHP array functions the services use:
    `in_array` guarded appends, `array_unique(array_merge(..))`, `array_diff` and
    `isset($m[$k]) ? $m[$k] : []`. */
module Collections {

  datatype Option<+T> = None | Some(value: T)

  /** No element occurs twice. */
  predicate NoDup<T(==)>(s: seq<T>) {
    forall i, j :: 0 <= i < j < |s| ==> s[i] != s[j]
  }

  /** The list stored under `k`, or the empty list when `k` is not set. */
  function Get<K, T>(m: map<K, seq<T>>, k: K): seq<T> {
    if k in m then m[k] else []
  }

  /** Position of the first occurrence of `x` in `s`. */
  function IndexOf<T(==,!new)>(s: seq<T>, x: T): (i: nat)
    requires x in s
    ensures i < |s| && s[i] == x && x !in s[..i]
  {
    if s[0] == x then 0
    else
      var i' := IndexOf(s[1..], x);
      assert s[..1 + i'] == [s[0]] + s[1..][..i'];
      1 + i'
  }

  /** `acc` followed, in order, by every element of `xs` not yet present: the loop
      `foreach ($xs as $x) if (!in_array($x, $acc)) $acc[] = $x;`. With `acc == []` it is
      `array_values(array_unique($xs))`, which keeps first occurrences. */
  function AppendNew<T(==)>(acc: seq<T>, xs: seq<T>): seq<T>
    decreases |xs|
  {
    if xs == [] then acc
    else AppendNew(if xs[0] in acc then acc else acc + [xs[0]], xs[1..])
  }

  /** `AppendNew` keeps `acc` as a prefix, holds exactly the elements of `acc` and `xs`, adds
      only elements of `xs` missing from `acc`, each once, and so keeps a list duplicate-free. */
  lemma {:induction false} AppendNewSpec<T(!new)>(acc: seq<T>, xs: seq<T>)
    ensures var r := AppendNew(acc, xs);
      && |acc| <= |r| && r[..|acc|] == acc
      && (forall y :: y in r <==> y in acc || y in xs)
      && (forall i :: |acc| <= i < |r| ==> r[i] in xs && r[i] !in acc)
      && (forall i, j :: 0 <= i < j < |r| && |acc| <= j ==> r[i] != r[j])
      && (NoDup(acc) ==> NoDup(r))
    decreases |xs|
  {
    if xs != [] {
      var acc' := if xs[0] in acc then acc else acc + [xs[0]];
      AppendNewSpec(acc', xs[1..]);
      var r := AppendNew(acc', xs[1..]);
      assert r[..|acc|] == r[..|acc'|][..|acc|];
      assert forall y :: y in xs <==> y == xs[0] || y in xs[1..];
    }
  }

  /** `array_values(array_unique($s))`: the first occurrence of every element, in order. */
  function Dedup<T(==,!new)>(s: seq<T>): seq<T> {
    AppendNew([], s)
  }

  /** `array_unique` keeps exactly the elements of the list. */
  lemma DedupMembers<T(!new)>(s: seq<T>)
    ensures forall y :: y in Dedup(s) <==> y in s
  {
    AppendNewSpec([], s);
  }

  /** A one-element list is its own `array_unique`. */
  lemma DedupSingle<T(!new)>(x: T)
    ensures Dedup([x]) == [x]
  {
    assert [x][0] !in [] && [x][1..] == [];
    assert AppendNew([], [x]) == AppendNew([] + [x], []);
  }

  /** `array_values(array_diff($s, [$x]))`: `s` without any occurrence of `x`, order kept. */
  function Without<T(==,!new)>(s: seq<T>, x: T): (r: seq<T>)
    ensures forall y :: y in r <==> y in s && y != x
    ensures |r| <= |s|
    ensures x !in s ==> r == s
    ensures NoDup(s) ==> NoDup(r)
    ensures IsSubsequence(r, s)
    decreases |s|
  {
    if s == [] then []
    else
      var init, last := s[..|s| - 1], s[|s| - 1];
      var rest := Without(init, x);
      assert s == init + [last];
      assert forall y :: y in s <==> y in init || y == last;
      if last == x then
        SubsequenceOfPrefix(rest, init, last);
        rest
      else
        assert NoDup(s) ==> last !in init;
        NoDupPrefix(s, |s| - 1);
        assert (rest + [last])[..|rest|] == rest;
        rest + [last]
  }

  /** A prefix of a duplicate-free sequence is duplicate-free. */
  lemma NoDupPrefix<T>(s: seq<T>, n: nat)
    requires n <= |s|
    ensures NoDup(s) ==> NoDup(s[..n])
  {
    if NoDup(s) {
      forall i, j | 0 <= i < j < n ensures s[..n][i] != s[..n][j] {
        assert s[..n][i] == s[i] && s[..n][j] == s[j];
      }
    }
  }

  /** Appending in two steps is appending the concatenation. */
  lemma {:induction false} AppendNewConcat<T(!new)>(acc: seq<T>, xs: seq<T>, ys: seq<T>)
    ensures AppendNew(acc, xs + ys) == AppendNew(AppendNew(acc, xs), ys)
    decreases |xs|
  {
    if xs == [] {
      assert xs + ys == ys;
    } else {
      var acc' := if xs[0] in acc then acc else acc + [xs[0]];
      assert (xs + ys)[0] == xs[0];
      assert (xs + ys)[1..] == xs[1..] + ys;
      AppendNewConcat(acc', xs[1..], ys);
    }
  }

  /** Appending elements that are all present already changes nothing. */
  lemma {:induction false} AppendNewAbsorbs<T(!new)>(acc: seq<T>, xs: seq<T>)
    requires forall x :: x in xs ==> x in acc
    ensures AppendNew(acc, xs) == acc
    decreases |xs|
  {
    if xs != [] {
      assert xs[0] in xs;
      forall x | x in xs[1..] ensures x in acc {
        assert x in xs;
      }
      AppendNewAbsorbs(acc, xs[1..]);
    }
  }

  /** Appending elements that are all new is plain concatenation. */
  lemma {:induction false} AppendNewDistinct<T(!new)>(acc: seq<T>, xs: seq<T>)
    requires NoDup(acc + xs)
    ensures AppendNew(acc, xs) == acc + xs
    decreases |xs|
  {
    if xs != [] {
      assert (acc + xs)[|acc|] == xs[0];
      forall k | 0 <= k < |acc| ensures acc[k] != xs[0] {
        assert (acc + xs)[k] == acc[k];
      }
      assert acc + xs == (acc + [xs[0]]) + xs[1..];
      AppendNewDistinct(acc + [xs[0]], xs[1..]);
    }
  }

  /** A duplicate-free list is its own `array_unique`. */
  lemma DedupOfDistinct<T(!new)>(xs: seq<T>)
    requires NoDup(xs)
    ensures Dedup(xs) == xs
  {
    assert [] + xs == xs;
    AppendNewDistinct([], xs);
  }

  /** Merging a duplicate-free `a` with `b` through `array_unique(array_merge(a, b))` keeps
      `a` as it is and appends the elements of `b` not yet present. */
  lemma MergeKeepsOld<T(!new)>(a: seq<T>, b: seq<T>)
    requires NoDup(a)
    ensures Dedup(a + b) == AppendNew(a, b)
  {
    AppendNewConcat([], a, b);
    DedupOfDistinct(a);
  }

  /** Merging the same list in a second time changes nothing. */
  lemma MergeTwice<T(!new)>(a: seq<T>, b: seq<T>)
    ensures Dedup(Dedup(a + b) + b) == Dedup(a + b)
  {
    var d := Dedup(a + b);
    AppendNewSpec([], a + b);
    AppendNewSpec(d, b);
    AppendNewConcat([], d, b);
    DedupOfDistinct(d);
    AppendNewAbsorbs(d, b);
  }

  /** The elements `AppendNew` adds appear in the order of their first occurrence in `xs`. */
  lemma {:induction false} AppendNewFirstSeen<T(!new)>(acc: seq<T>, xs: seq<T>)
    ensures var r := AppendNew(acc, xs);
      forall i, j :: |acc| <= i < j < |r| ==> r[i] in xs && r[j] in xs && IndexOf(xs, r[i]) < IndexOf(xs, r[j])
    decreases |xs|
  {
    var r := AppendNew(acc, xs);
    AppendNewSpec(acc, xs);
    if xs != [] {
      var acc' := if xs[0] in acc then acc else acc + [xs[0]];
      AppendNewFirstSeen(acc', xs[1..]);
      AppendNewSpec(acc', xs[1..]);
      assert r == AppendNew(acc', xs[1..]);
      forall i, j | |acc| <= i < j < |r| ensures r[i] in xs && r[j] in xs && IndexOf(xs, r[i]) < IndexOf(xs, r[j]) {
        assert xs[0] in acc';
        assert r[j] !in acc' && r[j] != xs[0];
        assert IndexOf(xs, r[j]) == 1 + IndexOf(xs[1..], r[j]);
        if i >= |acc'| {
          assert r[i] != xs[0];
          assert IndexOf(xs, r[i]) == 1 + IndexOf(xs[1..], r[i]);
        } else {
          assert r[..|acc'|] == acc';
          assert r[i] == acc'[i] == xs[0];
        }
      }
    }
  }

  /** A second write under the same key replaces the first. */
  lemma UpdateTwice<K, V>(m: map<K, V>, k: K, first: V, second: V)
    ensures m[k := first][k := second] == m[k := second]
  {
  }

  /** Two maps with the same keys and the same value under each key are equal. */
  lemma MapsAgree<K, V>(a: map<K, V>, b: map<K, V>)
    requires a.Keys == b.Keys && forall k :: k in a ==> a[k] == b[k]
    ensures a == b
  {
  }

  /** `a` is `b` with some entries left out, the rest in their order. */
  ghost predicate IsSubsequence<T>(a: seq<T>, b: seq<T>)
    decreases |b|
  {
    if a == [] then true
    else if b == [] then false
    else if a[|a| - 1] == b[|b| - 1] then IsSubsequence(a[..|a| - 1], b[..|b| - 1])
    else IsSubsequence(a, b[..|b| - 1])
  }

  /** A subsequence of `b` is a subsequence of `b` extended. */
  lemma {:induction false} SubsequenceOfPrefix<T>(a: seq<T>, b: seq<T>, x: T)
    requires IsSubsequence(a, b)
    ensures IsSubsequence(a, b + [x])
    decreases |b|, 1
  {
    if a != [] {
      var b' := b + [x];
      assert b'[..|b'| - 1] == b;
      if a[|a| - 1] == x {
        SubsequenceShrink(a, b);
      }
    }
  }

  /** Dropping the last element of a subsequence keeps it a subsequence. */
  lemma {:induction false} SubsequenceShrink<T>(a: seq<T>, b: seq<T>)
    requires a != [] && IsSubsequence(a, b)
    ensures IsSubsequence(a[..|a| - 1], b)
    decreases |b|, 0
  {
    var a' := a[..|a| - 1];
    if a' != [] && b != [] {
      if a[|a| - 1] == b[|b| - 1] {
        SubsequenceOfPrefix(a', b[..|b| - 1], b[|b| - 1]);
        assert b[..|b| - 1] + [b[|b| - 1]] == b;
      } else {
        SubsequenceShrink(a, b[..|b| - 1]);
        SubsequenceOfPrefix(a', b[..|b| - 1], b[|b| - 1]);
        assert b[..|b| - 1] + [b[|b| - 1]] == b;
      }
    }
  }
}
