/** Rust's stable `sort_by`, as insertion, and the three facts its callers rely on: it permutes,
    it sorts, and it keeps equals in their order. */
module Sorting {

  /** A strict order in which incomparable elements are interchangeable. */
  ghost predicate IsWeakOrder<T(!new)>(less: (T, T) -> bool) {
    && (forall a, b :: less(a, b) ==> !less(b, a))
    && (forall a, b, c :: less(a, c) ==> less(a, b) || less(b, c))
  }

  ghost predicate IsSorted<T>(s: seq<T>, less: (T, T) -> bool) {
    forall i, j :: 0 <= i < j < |s| ==> !less(s[j], s[i])
  }

  /** `x` goes before the first element that is not less than it. */
  function Insert<T>(x: T, s: seq<T>, less: (T, T) -> bool): (r: seq<T>)
    ensures |r| == |s| + 1
  {
    if s == [] then [x]
    else if less(s[0], x) then [s[0]] + Insert(x, s[1..], less)
    else [x] + s
  }

  function Sort<T>(s: seq<T>, less: (T, T) -> bool): (r: seq<T>)
    ensures |r| == |s|
  {
    if s == [] then [] else Insert(s[0], Sort(s[1..], less), less)
  }

  lemma {:induction false} InsertPermutes<T>(x: T, s: seq<T>, less: (T, T) -> bool)
    ensures multiset(Insert(x, s, less)) == multiset(s) + multiset{x}
  {
    if s != [] {
      assert s == [s[0]] + s[1..];
      if less(s[0], x) {
        InsertPermutes(x, s[1..], less);
      }
    }
  }

  lemma {:induction false} SortPermutes<T>(s: seq<T>, less: (T, T) -> bool)
    ensures multiset(Sort(s, less)) == multiset(s)
  {
    if s != [] {
      assert s == [s[0]] + s[1..];
      SortPermutes(s[1..], less);
      InsertPermutes(s[0], Sort(s[1..], less), less);
    }
  }

  lemma {:induction false} InsertSorts<T(!new)>(x: T, s: seq<T>, less: (T, T) -> bool)
    requires IsWeakOrder(less) && IsSorted(s, less)
    ensures IsSorted(Insert(x, s, less), less)
  {
    if s != [] {
      if less(s[0], x) {
        InsertSorts(x, s[1..], less);
        InsertPermutes(x, s[1..], less);
        var rest := Insert(x, s[1..], less);
        forall j | 0 <= j < |rest| ensures !less(rest[j], s[0]) {
          assert rest[j] in multiset(rest);
          assert rest[j] == x || rest[j] in s[1..];
        }
      } else {
        forall j | 0 <= j < |s| ensures !less(s[j], x) {
          assert !less(s[0], x);
          assert j > 0 ==> !less(s[j], s[0]);
        }
      }
    }
  }

  lemma {:induction false} SortSorts<T(!new)>(s: seq<T>, less: (T, T) -> bool)
    requires IsWeakOrder(less)
    ensures IsSorted(Sort(s, less), less)
  {
    if s != [] {
      SortSorts(s[1..], less);
      InsertSorts(s[0], Sort(s[1..], less), less);
    }
  }

  // ----- Sorting by tiers ------------------------------------------------------------------------

  function Tier<T(!new)>(s: seq<T>, rank: T -> nat, k: nat): seq<T> {
    if s == [] then []
    else if rank(s[0]) == k then [s[0]] + Tier(s[1..], rank, k)
    else Tier(s[1..], rank, k)
  }

  /** The tiers from `lo` up to `hi`, one after the other, each in the original order. */
  function Tiers<T(!new)>(s: seq<T>, rank: T -> nat, lo: nat, hi: nat): seq<T>
    requires lo <= hi
    decreases hi - lo
  {
    if lo == hi then [] else Tier(s, rank, lo) + Tiers(s, rank, lo + 1, hi)
  }

  lemma {:induction false} TierMember<T(!new)>(s: seq<T>, rank: T -> nat, k: nat, x: T)
    ensures x in Tier(s, rank, k) <==> x in s && rank(x) == k
  {
    if s != [] {
      TierMember(s[1..], rank, k, x);
      assert s == [s[0]] + s[1..];
    }
  }

  lemma {:induction false} TiersMember<T(!new)>(s: seq<T>, rank: T -> nat, lo: nat, hi: nat, x: T)
    requires lo <= hi
    ensures x in Tiers(s, rank, lo, hi) <==> x in s && lo <= rank(x) < hi
    decreases hi - lo
  {
    if lo < hi {
      TierMember(s, rank, lo, x);
      TiersMember(s, rank, lo + 1, hi, x);
    }
  }

  function ByRank<T>(rank: T -> nat): (T, T) -> bool {
    (a: T, b: T) => rank(a) < rank(b)
  }

  lemma {:induction false} InsertAfterLower<T(!new)>(x: T, low: seq<T>, rest: seq<T>, rank: T -> nat)
    requires forall y :: y in low ==> rank(y) < rank(x)
    ensures Insert(x, low + rest, ByRank(rank)) == low + Insert(x, rest, ByRank(rank))
  {
    if low == [] {
      assert low + rest == rest;
    } else {
      assert (low + rest)[1..] == low[1..] + rest;
      InsertAfterLower(x, low[1..], rest, rank);
    }
  }

  lemma {:induction false} InsertIntoTiers<T(!new)>(x: T, s: seq<T>, rank: T -> nat, lo: nat, hi: nat)
    requires lo <= rank(x) < hi
    ensures Insert(x, Tiers(s, rank, lo, hi), ByRank(rank)) == Tiers([x] + s, rank, lo, hi)
    decreases hi - lo
  {
    assert ([x] + s)[1..] == s;
    var (tier, rest) := (Tier(s, rank, lo), Tiers(s, rank, lo + 1, hi));
    if rank(x) == lo {
      TiersSkip(x, s, rank, lo + 1, hi);
      assert Tier([x] + s, rank, lo) == [x] + tier;
      forall y | y in tier + rest ensures rank(y) >= lo {
        TiersMember(s, rank, lo, hi, y);
      }
      hide Tier, Tiers, Insert;
      assert [x] + tier + rest == [x] + (tier + rest);
      InsertFirst(x, tier + rest, rank);
    } else {
      assert Tier([x] + s, rank, lo) == tier;
      forall y | y in tier ensures rank(y) < rank(x) {
        TierMember(s, rank, lo, y);
      }
      hide Tier, Insert;
      InsertAfterLower(x, tier, rest, rank);
      InsertIntoTiers(x, s, rank, lo + 1, hi);
    }
  }

  lemma InsertFirst<T(!new)>(x: T, s: seq<T>, rank: T -> nat)
    requires forall y :: y in s ==> rank(y) >= rank(x)
    ensures Insert(x, s, ByRank(rank)) == [x] + s
  {
    if s != [] {
      assert s[0] in s;
    }
  }

  lemma {:induction false} TiersSkip<T(!new)>(x: T, s: seq<T>, rank: T -> nat, lo: nat, hi: nat)
    requires rank(x) < lo <= hi
    ensures Tiers([x] + s, rank, lo, hi) == Tiers(s, rank, lo, hi)
    decreases hi - lo
  {
    assert ([x] + s)[1..] == s;
    if lo < hi {
      TiersSkip(x, s, rank, lo + 1, hi);
    }
  }

  lemma {:induction false} NoTiers<T(!new)>(rank: T -> nat, lo: nat, hi: nat)
    requires lo <= hi
    ensures Tiers([], rank, lo, hi) == []
    decreases hi - lo
  {
    if lo < hi {
      NoTiers(rank, lo + 1, hi);
    }
  }

  /** A stable sort by rank is the concatenation of the tiers. */
  lemma {:induction false} SortIsTiers<T(!new)>(s: seq<T>, rank: T -> nat, hi: nat)
    requires forall x :: x in s ==> rank(x) < hi
    ensures Sort(s, ByRank(rank)) == Tiers(s, rank, 0, hi)
  {
    if s == [] {
      NoTiers(rank, 0, hi);
    } else {
      SortIsTiers(s[1..], rank, hi);
      InsertIntoTiers(s[0], s[1..], rank, 0, hi);
      assert [s[0]] + s[1..] == s;
    }
  }

  // ----- Uniqueness -----------------------------------------------------------------------------------

  ghost predicate IsStrictlySorted<T>(s: seq<T>, less: (T, T) -> bool) {
    forall i, j :: 0 <= i < j < |s| ==> less(s[i], s[j])
  }

  /** A strictly sorted list is determined by its elements. */
  lemma {:induction false} StrictlySortedUnique<T(!new)>(a: seq<T>, b: seq<T>, less: (T, T) -> bool)
    requires IsWeakOrder(less)
    requires IsStrictlySorted(a, less) && IsStrictlySorted(b, less)
    requires forall x :: x in a <==> x in b
    ensures a == b
  {
    EmptyTogether(a, b);
    EmptyTogether(b, a);
    if a != [] && b != [] {
      FirstIsLeast(a, b[0], less);
      FirstIsLeast(b, a[0], less);
      assert a[0] == b[0];
      forall x ensures x in a[1..] <==> x in b[1..] {
        RestOmitsFirst(a, less);
        RestOmitsFirst(b, less);
        assert x in a <==> x == a[0] || x in a[1..];
        assert x in b <==> x == b[0] || x in b[1..];
      }
      StrictlySortedUnique(a[1..], b[1..], less);
    }
  }

  lemma EmptyTogether<T(!new)>(a: seq<T>, b: seq<T>)
    requires forall x :: x in a ==> x in b
    ensures a != [] ==> b != []
  {
    if a != [] {
      assert a[0] in b;
    }
  }

  lemma FirstIsLeast<T(!new)>(s: seq<T>, x: T, less: (T, T) -> bool)
    requires IsWeakOrder(less) && IsStrictlySorted(s, less) && x in s
    ensures x == s[0] || (less(s[0], x) && !less(x, s[0]))
  {
  }

  lemma RestOmitsFirst<T(!new)>(s: seq<T>, less: (T, T) -> bool)
    requires IsWeakOrder(less) && IsStrictlySorted(s, less) && s != []
    ensures s[0] !in s[1..]
  {
  }

  // ----- Counting ----------------------------------------------------------------------------------------

  function Count<T>(s: seq<T>, p: T -> bool): (n: nat)
    ensures n <= |s|
  {
    if s == [] then 0 else (if p(s[0]) then 1 else 0) + Count(s[1..], p)
  }

  lemma {:induction false} CountWithout<T>(s: seq<T>, k: nat, p: T -> bool)
    requires k < |s|
    ensures Count(s, p) == (if p(s[k]) then 1 else 0) + Count(s[..k] + s[k + 1..], p)
  {
    var rest := s[..k] + s[k + 1..];
    if k == 0 {
      assert rest == s[1..];
    } else {
      CountWithout(s[1..], k - 1, p);
      assert rest[1..] == s[1..][..k - 1] + s[1..][k..];
    }
  }

  lemma WithoutOne<T>(s: seq<T>, k: nat)
    requires k < |s|
    ensures multiset(s[..k] + s[k + 1..]) == multiset(s) - multiset{s[k]}
  {
    assert s == s[..k] + [s[k]] + s[k + 1..];
  }

  lemma IndexIn<T>(a: seq<T>, b: seq<T>) returns (k: nat)
    requires a != [] && multiset(a) == multiset(b)
    ensures k < |b| && b[k] == a[0]
  {
    assert a[0] in multiset(a) && a[0] in multiset(b);
    k :| 0 <= k < |b| && b[k] == a[0];
  }

  /** `b` without the first element of `a`. */
  lemma WithoutFirst<T>(a: seq<T>, b: seq<T>, p: T -> bool) returns (rest: seq<T>)
    requires a != [] && multiset(a) == multiset(b)
    ensures multiset(rest) == multiset(a[1..])
    ensures Count(b, p) == (if p(a[0]) then 1 else 0) + Count(rest, p)
  {
    hide Count;
    var k := IndexIn(a, b);
    rest := b[..k] + b[k + 1..];
    CountWithout(b, k, p);
    WithoutOne(b, k);
    WithoutOne(a, 0);
    assert a[..0] + a[1..] == a[1..];
  }

  /** Counting does not depend on the order. */
  lemma {:induction false} CountPermutes<T>(a: seq<T>, b: seq<T>, p: T -> bool)
    requires multiset(a) == multiset(b)
    ensures Count(a, p) == Count(b, p)
    decreases |a|
  {
    if a == [] {
      assert |multiset(a)| == |multiset(b)|;
    } else {
      var rest := WithoutFirst(a, b, p);
      CountPermutes(a[1..], rest, p);
    }
  }
}
