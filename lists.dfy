/**
 * The Kotlin `MutableList` operations the helper applies to its task list,
 * as functions on sequences: `contains`/`add`, `remove(element)` (which takes
 * out the first occurrence only) and the filter that the retire loop amounts
 * to when the list holds no duplicates.
 */
module Lists {

  lemma AppendAssoc<T>(a: seq<T>, b: seq<T>, c: seq<T>)
    ensures (a + b) + c == a + (b + c)
  {
  }

  /** No element occurs twice. */
  predicate NoDup<T(==)>(s: seq<T>) {
    forall i, j :: 0 <= i < j < |s| ==> s[i] != s[j]
  }

  /** `if (!list.contains(x)) list.add(x)` */
  function AddIfAbsent<T(==)>(s: seq<T>, x: T): seq<T> {
    if x in s then s else s + [x]
  }

  /** Position of the first occurrence of `x`. */
  function IndexOf<T(==)>(s: seq<T>, x: T): (k: nat)
    requires x in s
    ensures k < |s| && s[k] == x && x !in s[..k]
  {
    if s[0] == x then 0
    else
      var k := IndexOf(s[1..], x) + 1;
      assert s[1..][..k - 1] == s[1..k];
      k
  }

  /** `list.remove(x)`: drops the first occurrence of `x`, if there is one. */
  function RemoveFirst<T(==)>(s: seq<T>, x: T): seq<T> {
    if s == [] then []
    else if s[0] == x then s[1..]
    else [s[0]] + RemoveFirst(s[1..], x)
  }

  /** `remove(x)` leaves a list without `x` alone. */
  lemma {:induction false} RemoveFirstAbsent<T>(s: seq<T>, x: T)
    requires x !in s
    ensures RemoveFirst(s, x) == s
  {
    if s != [] {
      RemoveFirstAbsent(s[1..], x);
      assert s == [s[0]] + s[1..];
    }
  }

  lemma IndexOfTail<T>(s: seq<T>, x: T)
    requires x in s && s[0] != x
    ensures x in s[1..] && IndexOf(s, x) == IndexOf(s[1..], x) + 1
  {
  }

  lemma ConsCut<T>(s: seq<T>, k: nat)
    requires k + 1 < |s|
    ensures [s[0]] + (s[1..][..k] + s[1..][k + 1..]) == s[..k + 1] + s[k + 2..]
  {
  }

  /** `remove(x)` on a list holding `x` cuts out its first occurrence and nothing else. */
  lemma {:induction false} RemoveFirstCuts<T>(s: seq<T>, x: T)
    requires x in s
    ensures RemoveFirst(s, x) == s[..IndexOf(s, x)] + s[IndexOf(s, x) + 1..]
  {
    if s[0] != x {
      IndexOfTail(s, x);
      RemoveFirstCuts(s[1..], x);
      ConsCut(s, IndexOf(s[1..], x));
    }
  }

  /** `xs.forEach { list.remove(it) }`: the removals applied in the order of `xs`. */
  function RemoveEach<T(==)>(s: seq<T>, xs: seq<T>): seq<T>
    decreases |xs|
  {
    if xs == [] then s else RemoveFirst(RemoveEach(s, xs[..|xs| - 1]), xs[|xs| - 1])
  }

  /** The elements of `s` that are not in `dead`, in their order in `s`. */
  function Keep<T(==)>(s: seq<T>, dead: seq<T>): (r: seq<T>)
    ensures forall y :: y in r ==> y in s && y !in dead
    ensures forall y :: y in s && y !in dead ==> y in r
  {
    if s == [] then []
    else
      assert s == [s[0]] + s[1..];
      (if s[0] in dead then [] else [s[0]]) + Keep(s[1..], dead)
  }

  /** `r` is obtained from `s` by deleting elements: the order is kept. */
  predicate SubSeq<T(==)>(r: seq<T>, s: seq<T>)
    decreases |s|
  {
    if r == [] then true
    else if s == [] then false
    else (r[0] == s[0] && SubSeq(r[1..], s[1..])) || SubSeq(r, s[1..])
  }

  /** Inserting a task that is absent appends it; the list then holds it exactly once. */
  lemma AddIfAbsentOnce<T>(s: seq<T>, x: T)
    requires NoDup(s)
    ensures NoDup(AddIfAbsent(s, x))
    ensures x in AddIfAbsent(s, x)
    ensures forall y :: y in AddIfAbsent(s, x) ==> y in s || y == x
    ensures forall y :: y in s ==> y in AddIfAbsent(s, x)
    ensures AddIfAbsent(s, x)[..|s|] == s
    ensures |AddIfAbsent(s, x)| == if x in s then |s| else |s| + 1
  {
  }

  /** Inserting the same element twice has the effect of inserting it once. */
  lemma AddIfAbsentIdempotent<T>(s: seq<T>, x: T)
    ensures AddIfAbsent(AddIfAbsent(s, x), x) == AddIfAbsent(s, x)
  {
  }

  lemma {:induction false} KeepNoDup<T>(s: seq<T>, dead: seq<T>)
    requires NoDup(s)
    ensures NoDup(Keep(s, dead))
  {
    if s != [] {
      assert NoDup(s[1..]);
      KeepNoDup(s[1..], dead);
      assert s[0] !in s[1..];
    }
  }

  /** The filter keeps the order of the elements it keeps. */
  lemma {:induction false} KeepSubSeq<T>(s: seq<T>, dead: seq<T>)
    ensures SubSeq(Keep(s, dead), s)
  {
    if s != [] {
      KeepSubSeq(s[1..], dead);
      var k := Keep(s[1..], dead);
      if s[0] !in dead {
        assert Keep(s, dead) == [s[0]] + k;
        assert ([s[0]] + k)[1..] == k;
      } else if k != [] {
        assert Keep(s, dead) == k;
      }
    }
  }

  lemma {:induction false} KeepNone<T>(s: seq<T>, dead: seq<T>)
    requires forall y :: y in s ==> y !in dead
    ensures Keep(s, dead) == s
  {
    if s != [] {
      KeepNone(s[1..], dead);
      assert s == [s[0]] + s[1..];
    }
  }

  /** Filtering twice is filtering once by both lists. */
  lemma {:induction false} KeepTwice<T>(s: seq<T>, a: seq<T>, b: seq<T>)
    ensures Keep(Keep(s, a), b) == Keep(s, a + b)
  {
    if s != [] {
      KeepTwice(s[1..], a, b);
      var k := Keep(s[1..], a);
      if s[0] in a {
        assert Keep(s, a) == k;
      } else {
        assert Keep(s, a) == [s[0]] + k;
        assert ([s[0]] + k)[1..] == k;
      }
    }
  }

  /** On a list without duplicates, `remove(x)` removes every occurrence of `x`. */
  lemma {:induction false} RemoveFirstIsKeep<T>(s: seq<T>, x: T)
    requires NoDup(s)
    ensures RemoveFirst(s, x) == Keep(s, [x])
  {
    if s != [] {
      assert NoDup(s[1..]);
      if s[0] == x {
        assert s[0] !in s[1..];
        KeepNone(s[1..], [x]);
      } else {
        RemoveFirstIsKeep(s[1..], x);
      }
    }
  }

  /**
   * The retire loop: on a list without duplicates, removing the elements of
   * `xs` one after the other leaves exactly the elements not in `xs`, in their
   * order.
   */
  lemma {:induction false} RemoveEachIsKeep<T>(s: seq<T>, xs: seq<T>)
    requires NoDup(s)
    ensures RemoveEach(s, xs) == Keep(s, xs)
  {
    if xs == [] {
      KeepNone(s, xs);
    } else {
      var init, last := xs[..|xs| - 1], xs[|xs| - 1];
      RemoveEachIsKeep(s, init);
      KeepNoDup(s, init);
      RemoveFirstIsKeep(Keep(s, init), last);
      KeepTwice(s, init, [last]);
      assert init + [last] == xs;
    }
  }
}
