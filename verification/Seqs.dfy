/** Filtering of sequences, from the left like the loops it specifies. */
module Seqs {
  function Filter<T(!new)>(s: seq<T>, p: T -> bool): (r: seq<T>)
    ensures |r| <= |s|
    ensures forall x :: x in r <==> x in s && p(x)
  {
    if s == [] then []
    else Filter(s[..|s| - 1], p) + (if p(s[|s| - 1]) then [s[|s| - 1]] else [])
  }

  lemma FilterPush<T(!new)>(s: seq<T>, x: T, p: T -> bool)
    ensures Filter(s + [x], p) == Filter(s, p) + (if p(x) then [x] else [])
  {
    assert (s + [x])[..|s|] == s;
  }

  lemma {:induction false} FilterConcat<T(!new)>(a: seq<T>, b: seq<T>, p: T -> bool)
    ensures Filter(a + b, p) == Filter(a, p) + Filter(b, p)
  {
    if b == [] {
      assert a + b == a;
    } else {
      var front, last := b[..|b| - 1], b[|b| - 1];
      FilterConcat(a, front, p);
      FilterConcatPush(a, front, last, p);
      assert front + [last] == b;
    }
  }

  lemma FilterConcatPush<T(!new)>(a: seq<T>, b: seq<T>, x: T, p: T -> bool)
    requires Filter(a + b, p) == Filter(a, p) + Filter(b, p)
    ensures Filter(a + (b + [x]), p) == Filter(a, p) + Filter(b + [x], p)
  {
    hide Filter;
    ConcatPush(a, b, x);
    FilterPush(a + b, x, p);
    FilterPush(b, x, p);
  }

  lemma ConcatPush<T>(a: seq<T>, b: seq<T>, x: T)
    ensures a + (b + [x]) == a + b + [x]
  {
  }

  lemma Associative<T>(a: seq<T>, b: seq<T>, c: seq<T>)
    ensures a + b + c == a + (b + c)
  {
  }

  lemma {:induction false} FilterAll<T(!new)>(s: seq<T>, p: T -> bool)
    requires forall x :: x in s ==> p(x)
    ensures Filter(s, p) == s
  {
    if s != [] {
      var front, last := s[..|s| - 1], s[|s| - 1];
      assert s == front + [last];
      FilterAll(front, p);
      FilterPush(front, last, p);
    }
  }

  lemma {:induction false} FilterNone<T(!new)>(s: seq<T>, p: T -> bool)
    requires forall x :: x in s ==> !p(x)
    ensures Filter(s, p) == []
  {
    if s != [] {
      FilterNone(s[..|s| - 1], p);
    }
  }

  /** In a sequence without repetition every element has multiplicity one. */
  lemma {:induction false} DistinctOnce<T>(s: seq<T>, k: nat)
    requires k < |s|
    requires forall i, j :: 0 <= i < j < |s| ==> s[i] != s[j]
    ensures multiset(s)[s[k]] == 1
  {
    assert s == s[..k] + [s[k]] + s[k + 1..];
    assert s[k] !in s[..k] && s[k] !in s[k + 1..];
  }

  lemma {:induction false} FilterCount<T(!new)>(s: seq<T>, p: T -> bool, x: T)
    ensures multiset(Filter(s, p))[x] == if p(x) then multiset(s)[x] else 0
  {
    if s != [] {
      var front, last := s[..|s| - 1], s[|s| - 1];
      assert s == front + [last];
      FilterCount(front, p, x);
      FilterPush(front, last, p);
    }
  }

  /** a is b with some elements left out, the rest in order. */
  predicate Within<T(==)>(a: seq<T>, b: seq<T>)
    decreases |b|
  {
    || a == []
    || (b != [] && a[|a| - 1] == b[|b| - 1] && Within(a[..|a| - 1], b[..|b| - 1]))
    || (b != [] && Within(a, b[..|b| - 1]))
  }

  lemma WithinPush<T>(a: seq<T>, b: seq<T>, x: T)
    requires Within(a, b)
    ensures Within(a + [x], b + [x]) && Within(a, b + [x])
  {
    assert (a + [x])[..|a|] == a && (b + [x])[..|b|] == b;
  }

  lemma {:induction false} WithinGrows<T>(a: seq<T>, b: seq<T>, more: seq<T>)
    requires Within(a, b)
    ensures Within(a, b + more)
  {
    if more == [] {
      assert b + more == b;
    } else {
      var front, x := more[..|more| - 1], more[|more| - 1];
      WithinGrows(a, b, front);
      WithinPush(a, b + front, x);
      assert b + more == b + front + [x];
    }
  }

  lemma {:induction false} WithinConcat<T>(a: seq<T>, b: seq<T>, c: seq<T>, d: seq<T>)
    requires Within(a, b) && Within(c, d)
    ensures Within(a + c, b + d)
  {
    if c == [] {
      assert a + c == a;
      WithinGrows(a, b, d);
    } else {
      var front, x := d[..|d| - 1], d[|d| - 1];
      assert b + d == b + front + [x];
      if c[|c| - 1] == x && Within(c[..|c| - 1], front) {
        WithinConcat(a, b, c[..|c| - 1], front);
        WithinPush(a + c[..|c| - 1], b + front, x);
        assert a + c == a + c[..|c| - 1] + [x];
      } else {
        WithinConcat(a, b, c, front);
        WithinPush(a + c, b + front, x);
      }
    }
  }

  lemma NothingKept<T(!new)>(p: T -> bool)
    ensures Filter([], p) == [] && Within<T>([], [])
  {
  }

  lemma {:induction false} FilterWithin<T(!new)>(s: seq<T>, p: T -> bool)
    ensures Within(Filter(s, p), s)
  {
    hide Filter, Within;
    if s == [] {
      assert Within(Filter(s, p), s) by { NothingKept(p); }
    } else {
      var front, x := s[..|s| - 1], s[|s| - 1];
      FilterWithin(front, p);
      WithinPush(Filter(front, p), front, x);
      assert s == front + [x];
      FilterPush(front, x, p);
      assert Filter(front, p) + [] == Filter(front, p);
    }
  }

  lemma {:induction false} WithinShorter<T>(a: seq<T>, b: seq<T>)
    requires Within(a, b)
    ensures |a| <= |b|
  {
    if a != [] {
      if a[|a| - 1] == b[|b| - 1] && Within(a[..|a| - 1], b[..|b| - 1]) {
        WithinShorter(a[..|a| - 1], b[..|b| - 1]);
      } else {
        WithinShorter(a, b[..|b| - 1]);
      }
    }
  }
}
