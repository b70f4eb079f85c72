/** Sequence utilities shared by every view and handler: the `Array.prototype`
    idioms the application uses (`filter`, `find`, `map`, `slice`, `sort`)
    stated once, with the contracts the rest of the model relies on. */
module Collections {

  datatype Option<+T> = None | Some(value: T)

  /** The elements of `s` that satisfy `p`, in their original order. */
  function Filter<T(!new)>(s: seq<T>, p: T -> bool): (r: seq<T>)
    ensures |r| <= |s|
    ensures forall i | 0 <= i < |r| :: p(r[i])
    ensures forall x :: x in r <==> x in s && p(x)
  {
    if |s| == 0 then []
    else
      assert s == [s[0]] + s[1..];
      if p(s[0]) then [s[0]] + Filter(s[1..], p) else Filter(s[1..], p)
  }

  /** Filtering distributes over concatenation: the kept elements keep their relative order. */
  lemma {:induction false} FilterConcat<T(!new)>(a: seq<T>, b: seq<T>, p: T -> bool)
    ensures Filter(a + b, p) == Filter(a, p) + Filter(b, p)
  {
    if |a| == 0 {
      assert a + b == b;
    } else {
      var ab := a + b;
      assert ab[0] == a[0] && ab[1..] == a[1..] + b;
      FilterConcat(a[1..], b, p);
    }
  }

  /** Filtering keeps everything exactly when every element passes. */
  lemma {:induction false} FilterAll<T(!new)>(s: seq<T>, p: T -> bool)
    ensures (forall i | 0 <= i < |s| :: p(s[i])) <==> Filter(s, p) == s
  {
    if |s| > 0 {
      FilterAll(s[1..], p);
      assert s == [s[0]] + s[1..];
    }
  }

  /** Filtering keeps nothing when no element passes. */
  lemma FilterNone<T(!new)>(s: seq<T>, p: T -> bool)
    requires forall i | 0 <= i < |s| :: !p(s[i])
    ensures Filter(s, p) == []
  {
  }

  /** Filtering an extended sequence keeps the old part whole and drops the whole extension. */
  lemma FilterDropsAppended<T(!new)>(old_: seq<T>, new_: seq<T>, p: T -> bool)
    requires forall i | 0 <= i < |old_| :: p(old_[i])
    requires forall i | 0 <= i < |new_| :: !p(new_[i])
    ensures Filter(old_ + new_, p) == old_
  {
    FilterConcat(old_, new_, p);
    FilterAll(old_, p);
    FilterNone(new_, p);
  }

  /** Filtering an extended sequence by what only the extension satisfies yields the extension. */
  lemma FilterSelectsAppended<T(!new)>(old_: seq<T>, new_: seq<T>, p: T -> bool)
    requires forall i | 0 <= i < |old_| :: !p(old_[i])
    requires forall i | 0 <= i < |new_| :: p(new_[i])
    ensures Filter(old_ + new_, p) == new_
  {
    FilterConcat(old_, new_, p);
    FilterAll(new_, p);
    FilterNone(old_, p);
  }

  /** Filtering twice is filtering once by the stronger predicate. */
  lemma {:induction false} FilterFilter<T(!new)>(s: seq<T>, p: T -> bool, q: T -> bool)
    requires forall x | x in s && q(x) :: p(x)
    ensures Filter(Filter(s, p), q) == Filter(s, q)
  {
    if |s| > 0 {
      FilterFilter(s[1..], p, q);
    }
  }

  /** Three predicates of which every element satisfies exactly one split the sequence. */
  lemma {:induction false} FilterPartitionLength<T(!new)>(s: seq<T>, a: T -> bool, b: T -> bool, c: T -> bool)
    requires forall x | x in s :: (a(x) && !b(x) && !c(x)) || (!a(x) && b(x) && !c(x)) || (!a(x) && !b(x) && c(x))
    ensures |Filter(s, a)| + |Filter(s, b)| + |Filter(s, c)| == |s|
  {
    if |s| > 0 {
      FilterPartitionLength(s[1..], a, b, c);
    }
  }

  /** The number of elements satisfying `p` (`filter(p).length`). */
  function Count<T>(s: seq<T>, p: T -> bool): (n: nat)
    ensures n <= |s|
    ensures n == 0 <==> forall i | 0 <= i < |s| :: !p(s[i])
  {
    if |s| == 0 then 0
    else (if p(s[0]) then 1 else 0) + Count(s[1..], p)
  }

  /** What a filter drops is what the complementary count counts. */
  lemma {:induction false} FilterDropsCount<T(!new)>(s: seq<T>, keep: T -> bool, drop: T -> bool)
    requires forall x :: drop(x) == !keep(x)
    ensures |Filter(s, keep)| + Count(s, drop) == |s|
  {
    if |s| > 0 {
      FilterDropsCount(s[1..], keep, drop);
    }
  }

  lemma {:induction false} CountIsFilterLength<T(!new)>(s: seq<T>, p: T -> bool)
    ensures Count(s, p) == |Filter(s, p)|
  {
    if |s| > 0 {
      CountIsFilterLength(s[1..], p);
    }
  }

  lemma {:induction false} CountAppend<T>(s: seq<T>, x: T, p: T -> bool)
    ensures Count(s + [x], p) == Count(s, p) + if p(x) then 1 else 0
  {
    if |s| > 0 {
      assert (s + [x])[1..] == s[1..] + [x];
      CountAppend(s[1..], x, p);
    } else {
      assert s + [x] == [x];
    }
  }

  /** Rewriting elements in a way `p` cannot see leaves the count unchanged. */
  lemma {:induction false} CountUpdateWhere<T(!new)>(s: seq<T>, q: T -> bool, f: T -> T, p: T -> bool)
    requires forall x :: p(f(x)) == p(x)
    ensures Count(UpdateWhere(s, q, f), p) == Count(s, p)
  {
    if |s| > 0 {
      assert UpdateWhere(s, q, f)[1..] == UpdateWhere(s[1..], q, f);
      CountUpdateWhere(s[1..], q, f, p);
    }
  }

  /** When exactly one element satisfies `p`, any two satisfying positions coincide. */
  lemma {:induction false} CountOneUnique<T>(s: seq<T>, p: T -> bool, i: nat, j: nat)
    requires Count(s, p) == 1
    requires i < |s| && j < |s| && p(s[i]) && p(s[j])
    ensures i == j
  {
    if i > 0 && j > 0 {
      CountOneUnique(s[1..], p, i - 1, j - 1);
    }
  }

  /** The element satisfying `p` when exactly one position does. */
  lemma CountOneSame<T>(s: seq<T>, p: T -> bool, x: T, y: T)
    requires Count(s, p) == 1
    requires x in s && y in s && p(x) && p(y)
    ensures x == y
  {
    var a :| 0 <= a < |s| && s[a] == x;
    var b :| 0 <= b < |s| && s[b] == y;
    CountOneUnique(s, p, a, b);
  }

  /** No two positions satisfying `p` means at most one element does. */
  lemma {:induction false} CountAtMostOne<T>(s: seq<T>, p: T -> bool)
    requires forall i, j | 0 <= i < j < |s| :: !(p(s[i]) && p(s[j]))
    ensures Count(s, p) <= 1
  {
    if |s| > 0 {
      CountAtMostOne(s[1..], p);
      if p(s[0]) {
        assert forall k | 0 <= k < |s[1..]| :: !p(s[1..][k]) by {
          forall k | 0 <= k < |s[1..]|
            ensures !p(s[1..][k])
          {
            assert s[1..][k] == s[k + 1];
          }
        }
      }
    }
  }

  /** Index of the first element satisfying `p` (`findIndex`), if any. */
  function FirstIndex<T>(s: seq<T>, p: T -> bool): (r: Option<nat>)
    ensures r.Some? ==> r.value < |s| && p(s[r.value]) && forall j | 0 <= j < r.value :: !p(s[j])
    ensures r.None? <==> forall j | 0 <= j < |s| :: !p(s[j])
  {
    if |s| == 0 then None
    else if p(s[0]) then Some(0)
    else match FirstIndex(s[1..], p)
      case None => None
      case Some(k) => Some(k + 1)
  }

  /** `FirstIndex` depends only on which positions satisfy `p`. */
  lemma {:induction false} FirstIndexSamePattern<T>(a: seq<T>, b: seq<T>, p: T -> bool)
    requires |a| == |b|
    requires forall i | 0 <= i < |a| :: p(a[i]) == p(b[i])
    ensures FirstIndex(a, p) == FirstIndex(b, p)
  {
    if |a| > 0 && !p(a[0]) {
      FirstIndexSamePattern(a[1..], b[1..], p);
    }
  }

  /** The first element satisfying `p` (`find`), if any. */
  function Find<T>(s: seq<T>, p: T -> bool): (r: Option<T>)
    ensures r.Some? <==> exists i | 0 <= i < |s| :: p(s[i])
    ensures r.Some? ==> exists i | 0 <= i < |s| :: s[i] == r.value && p(s[i]) && forall j | 0 <= j < i :: !p(s[j])
  {
    match FirstIndex(s, p)
    case None => None
    case Some(i) => Some(s[i])
  }

  /** `find` yields the first element satisfying `p`, whatever comes after it. */
  lemma FindFirst<T>(s: seq<T>, p: T -> bool)
    ensures forall i | 0 <= i < |s| && p(s[i]) && (forall j | 0 <= j < i :: !p(s[j])) :: Find(s, p) == Some(s[i])
  {
    var f := FirstIndex(s, p);
    forall i | 0 <= i < |s| && p(s[i]) && (forall j | 0 <= j < i :: !p(s[j]))
      ensures Find(s, p) == Some(s[i])
    {
      assert f.Some? && f.value == i;
    }
  }

  /** The element satisfying `p` when exactly one does (supabase's `.single()`):
      no row and several rows both yield nothing. */
  function Single<T(!new)>(s: seq<T>, p: T -> bool): (r: Option<T>)
    ensures r.Some? <==> Count(s, p) == 1
    ensures r.Some? ==> r.value in s && p(r.value)
  {
    if Count(s, p) == 1 then
      CountIsFilterLength(s, p);
      var f := Filter(s, p);
      assert f[0] in f;
      Some(f[0])
    else None
  }

  /** Applies `f` to every element (`map`). */
  function Map<T, U>(s: seq<T>, f: T -> U): (r: seq<U>)
    ensures |r| == |s|
    ensures forall i | 0 <= i < |s| :: r[i] == f(s[i])
  {
    seq(|s|, i requires 0 <= i < |s| => f(s[i]))
  }

  lemma {:induction false} MapConcat<T, U>(a: seq<T>, b: seq<T>, f: T -> U)
    ensures Map(a + b, f) == Map(a, f) + Map(b, f)
  {
    var l, r := Map(a + b, f), Map(a, f) + Map(b, f);
    assert |l| == |r|;
    forall i | 0 <= i < |l|
      ensures l[i] == r[i]
    {
      if i < |a| {
        assert (a + b)[i] == a[i];
      } else {
        assert (a + b)[i] == b[i - |a|];
      }
    }
  }

  /** Mapping a rearrangement of `s` yields the image of every element of `s` and nothing else. */
  lemma MapPermutation<T, U>(s: seq<T>, t: seq<T>, f: T -> U)
    requires multiset(s) == multiset(t)
    ensures forall x | x in s :: f(x) in Map(t, f)
    ensures forall y | y in Map(t, f) :: exists x | x in s :: y == f(x)
  {
    var m := Map(t, f);
    forall x | x in s
      ensures f(x) in m
    {
      assert x in multiset(t);
      var k :| 0 <= k < |t| && t[k] == x;
      assert m[k] == f(x);
    }
    forall y | y in m
      ensures exists x | x in s :: y == f(x)
    {
      var i :| 0 <= i < |m| && m[i] == y;
      assert t[i] in multiset(s);
    }
  }

  /** The sum of `f` over the elements (`reduce((sum, x) => sum + f(x), 0)`). */
  function Sum<T>(s: seq<T>, f: T -> int): int
  {
    if |s| == 0 then 0 else f(s[0]) + Sum(s[1..], f)
  }

  lemma {:induction false} SumConcat<T>(s: seq<T>, t: seq<T>, f: T -> int)
    ensures Sum(s + t, f) == Sum(s, f) + Sum(t, f)
  {
    if |s| == 0 {
      assert s + t == t;
    } else {
      assert (s + t)[1..] == s[1..] + t;
      SumConcat(s[1..], t, f);
    }
  }

  /** Taking one term out of a sum. */
  lemma SumRemove<T>(t: seq<T>, k: nat, f: T -> int)
    requires k < |t|
    ensures Sum(t, f) == f(t[k]) + Sum(t[..k] + t[k + 1..], f)
  {
    var front, back := t[..k], t[k + 1..];
    var rest := [t[k]] + back;
    assert rest[0] == t[k] && rest[1..] == back;
    assert Sum(rest, f) == f(t[k]) + Sum(back, f);
    assert t == front + rest;
    SumConcat(front, rest, f);
    SumConcat(front, back, f);
  }

  /** What remains of a permutation when its first element is matched with `t[k]`. */
  lemma PermutationRest<T>(s: seq<T>, t: seq<T>, k: nat)
    requires multiset(s) == multiset(t) && |s| > 0 && k < |t| && t[k] == s[0]
    ensures multiset(s[1..]) == multiset(t[..k] + t[k + 1..])
  {
    MultisetRemove(t, k);
    assert s == [s[0]] + s[1..];
    assert multiset(s) == multiset{s[0]} + multiset(s[1..]);
  }

  lemma MultisetRemove<T>(t: seq<T>, k: nat)
    requires k < |t|
    ensures multiset(t[..k] + t[k + 1..]) == multiset(t) - multiset{t[k]}
  {
    assert t == t[..k] + [t[k]] + t[k + 1..];
  }

  lemma IndexOf<T>(t: seq<T>, x: T) returns (k: nat)
    requires x in multiset(t)
    ensures k < |t| && t[k] == x
  {
    k :| 0 <= k < |t| && t[k] == x;
  }

  /** A sum does not depend on the order of its terms. */
  lemma {:induction false} SumPermutation<T>(s: seq<T>, t: seq<T>, f: T -> int)
    requires multiset(s) == multiset(t)
    ensures Sum(s, f) == Sum(t, f)
    decreases |s|
  {
    if |s| == 0 {
      assert |t| == |multiset(t)| == 0;
    } else {
      var k := IndexOf(t, s[0]);
      PermutationRest(s, t, k);
      SumPermutation(s[1..], t[..k] + t[k + 1..], f);
      SumRemove(t, k, f);
    }
  }

  /** Replaces every element satisfying `p` by `f` of it and leaves the others (`map(x => p(x) ? f(x) : x)`). */
  function UpdateWhere<T>(s: seq<T>, p: T -> bool, f: T -> T): (r: seq<T>)
    ensures |r| == |s|
    ensures forall i | 0 <= i < |s| :: r[i] == if p(s[i]) then f(s[i]) else s[i]
  {
    seq(|s|, i requires 0 <= i < |s| => if p(s[i]) then f(s[i]) else s[i])
  }

  /** `s` without the element at index `i`; an index outside `s` removes nothing
      (the `filter((_, j) => j !== i)` idiom). */
  function RemoveAt<T>(s: seq<T>, i: int): (r: seq<T>)
    ensures 0 <= i < |s| ==> |r| == |s| - 1
    ensures 0 <= i < |s| ==> forall j | 0 <= j < i :: r[j] == s[j]
    ensures 0 <= i < |s| ==> forall j | i <= j < |r| :: r[j] == s[j + 1]
    ensures !(0 <= i < |s|) ==> r == s
  {
    if 0 <= i < |s| then s[..i] + s[i + 1..] else s
  }

  /** Removing the element just appended gives back the original sequence. */
  lemma RemoveAppended<T>(s: seq<T>, x: T)
    ensures RemoveAt(s + [x], |s|) == s
  {
    assert (s + [x])[..|s|] == s;
  }

  /** `s` with index `i` replaced by `x`. */
  function SetAt<T>(s: seq<T>, i: nat, x: T): (r: seq<T>)
    requires i < |s|
    ensures |r| == |s| && r[i] == x
    ensures forall j | 0 <= j < |s| && j != i :: r[j] == s[j]
  {
    s[i := x]
  }

  /** The first `min(n, |s|)` elements (`slice(0, n)`). */
  function Take<T>(s: seq<T>, n: nat): (r: seq<T>)
    ensures |r| == if |s| < n then |s| else n
    ensures forall i | 0 <= i < |r| :: r[i] == s[i]
  {
    if |s| <= n then s else s[..n]
  }

  /** The last `min(n, |s|)` elements (`slice(-n)`). */
  function TakeLast<T>(s: seq<T>, n: nat): (r: seq<T>)
    ensures |r| == if |s| < n then |s| else n
    ensures forall i | 0 <= i < |r| :: r[i] == s[|s| - |r| + i]
  {
    if |s| <= n then s else s[|s| - n..]
  }

  /** `s` back to front (`reverse`). */
  function Reverse<T>(s: seq<T>): (r: seq<T>)
    ensures |r| == |s|
    ensures forall i | 0 <= i < |s| :: r[i] == s[|s| - 1 - i]
  {
    if |s| == 0 then [] else Reverse(s[1..]) + [s[0]]
  }

  // ----- sorting -------------------------------------------------------

  /** `le` is a total preorder: what a consistent `sort` comparator induces. */
  ghost predicate TotalPreorder<T(!new)>(le: (T, T) -> bool)
  {
    && (forall a, b :: le(a, b) || le(b, a))
    && (forall a, b, c :: le(a, b) && le(b, c) ==> le(a, c))
  }

  ghost predicate SortedBy<T>(s: seq<T>, le: (T, T) -> bool)
  {
    forall i, j | 0 <= i < j < |s| :: le(s[i], s[j])
  }

  /** Inserts `x` before the first element it does not come after. */
  function Insert<T>(x: T, s: seq<T>, le: (T, T) -> bool): (r: seq<T>)
    ensures |r| == |s| + 1
    ensures multiset(r) == multiset(s) + multiset{x}
  {
    if |s| == 0 then [x]
    else if le(x, s[0]) then [x] + s
    else
      assert s == [s[0]] + s[1..];
      [s[0]] + Insert(x, s[1..], le)
  }

  /** Stable insertion sort, as `Array.prototype.sort` with a comparator orders elements. */
  function SortBy<T>(s: seq<T>, le: (T, T) -> bool): (r: seq<T>)
    ensures |r| == |s|
    ensures multiset(r) == multiset(s)
  {
    if |s| == 0 then []
    else
      assert s == [s[0]] + s[1..];
      Insert(s[0], SortBy(s[1..], le), le)
  }

  lemma {:induction false} InsertSorted<T(!new)>(x: T, s: seq<T>, le: (T, T) -> bool)
    requires TotalPreorder(le)
    requires SortedBy(s, le)
    ensures SortedBy(Insert(x, s, le), le)
  {
    if |s| > 0 && !le(x, s[0]) {
      var t := Insert(x, s[1..], le);
      InsertSorted(x, s[1..], le);
      assert le(s[0], x);
      forall k | 0 <= k < |t|
        ensures le(s[0], t[k])
      {
        assert t[k] in multiset(t);
        if t[k] != x {
          assert t[k] in multiset(s[1..]);
          var j :| 0 <= j < |s[1..]| && s[1..][j] == t[k];
          assert s[j + 1] == t[k];
        }
      }
    } else if |s| > 0 {
      forall k | 0 <= k < |s|
        ensures le(x, s[k])
      {
        if k > 0 {
          assert le(s[0], s[k]);
        }
      }
    }
  }

  /** The sorted result is ordered by `le`, besides being a permutation of the input. */
  lemma {:induction false} SortBySorted<T(!new)>(s: seq<T>, le: (T, T) -> bool)
    requires TotalPreorder(le)
    ensures SortedBy(SortBy(s, le), le)
  {
    if |s| > 0 {
      SortBySorted(s[1..], le);
      InsertSorted(s[0], SortBy(s[1..], le), le);
    }
  }
}
