/** Sequence vocabulary shared by the three agents: Python sets are modelled as
    duplicate-free sequences in insertion order, list comprehensions with a
    condition as Filter, and "for x in xs: for y in f(x)" accumulation as FlatMap. */
module Seqs {

  datatype Option<T> = None | Some(value: T)

  function Min(a: int, b: int): int { if a <= b then a else b }

  /** s[:k] in Python: the first k elements, or all of them when there are fewer. */
  function Take<T>(s: seq<T>, k: nat): (r: seq<T>)
    ensures |r| == Min(k, |s|)
  {
    if k <= |s| then s[..k] else s
  }

  /** Adding x to an insertion-ordered collection of distinct items: a no-op when
      x is already present, otherwise x goes last. */
  function Added<T(==)>(s: seq<T>, x: T): seq<T> {
    if x in s then s else s + [x]
  }

  predicate NoDup<T(==)>(s: seq<T>) {
    forall i, j :: 0 <= i < j < |s| ==> s[i] != s[j]
  }

  /** The distinct elements of s, each at the place it first occurs: the iteration
      order of a Python set (or of networkx's node dict) filled from s, one element
      at a time. */
  function Dedup<T(==,!new)>(s: seq<T>): (r: seq<T>)
    ensures NoDup(r)
    ensures forall x :: x in r <==> x in s
    ensures |r| <= |s|
  {
    if s == [] then []
    else
      var d := Dedup(s[..|s| - 1]);
      assert s == s[..|s| - 1] + [s[|s| - 1]];
      if s[|s| - 1] in d then d else d + [s[|s| - 1]]
  }

  /** Inserting one more element into a set-like sequence: it is appended only when new. */
  lemma DedupSnoc<T(!new)>(s: seq<T>, x: T)
    ensures Dedup(s + [x]) == Added(Dedup(s), x)
  {
    assert (s + [x])[..|s|] == s;
  }

  /** Inserting the elements of s one by one after base: step i adds s[i]. */
  lemma DedupStep<T(!new)>(base: seq<T>, s: seq<T>, i: nat)
    requires i < |s|
    ensures Dedup(base + s[..i + 1]) == Added(Dedup(base + s[..i]), s[i])
  {
    assert base + s[..i + 1] == (base + s[..i]) + [s[i]];
    DedupSnoc(base + s[..i], s[i]);
  }

  /** Adding more elements never removes or reorders the elements already present. */
  lemma {:induction false} DedupPrefix<T(!new)>(s: seq<T>, t: seq<T>)
    ensures |Dedup(s)| <= |Dedup(s + t)|
    ensures Dedup(s + t)[..|Dedup(s)|] == Dedup(s)
    decreases |t|
  {
    if t == [] {
      assert s + t == s;
    } else {
      var t' := t[..|t| - 1];
      var x := t[|t| - 1];
      assert s + t == (s + t') + [x];
      DedupPrefix(s, t');
      DedupSnoc(s + t', x);
    }
  }

  /** An already duplicate-free sequence is its own set order. */
  lemma {:induction false} DedupOfNoDup<T(!new)>(s: seq<T>)
    requires NoDup(s)
    ensures Dedup(s) == s
  {
    if s != [] {
      var s' := s[..|s| - 1];
      DedupOfNoDup(s');
      assert s[|s| - 1] !in s';
      assert s == s' + [s[|s| - 1]];
    }
  }

  /** Adding the elements of a set order again is adding the original elements. */
  lemma {:induction false} DedupDedup<T(!new)>(a: seq<T>, b: seq<T>)
    ensures Dedup(Dedup(a) + b) == Dedup(a + b)
    decreases |b|
  {
    if b == [] {
      assert Dedup(a) + b == Dedup(a) && a + b == a;
      DedupOfNoDup(Dedup(a));
    } else {
      var b' := b[..|b| - 1];
      var x := b[|b| - 1];
      DedupDedup(a, b');
      assert Dedup(a) + b == (Dedup(a) + b') + [x];
      assert a + b == (a + b') + [x];
      DedupSnoc(Dedup(a) + b', x);
      DedupSnoc(a + b', x);
    }
  }

  /** [x for x in s if p(x)] */
  function Filter<T(!new)>(s: seq<T>, p: T -> bool): (r: seq<T>)
    ensures forall x :: x in r <==> x in s && p(x)
    ensures |r| <= |s|
  {
    if s == [] then []
    else (if p(s[0]) then [s[0]] else []) + Filter(s[1..], p)
  }

  lemma FilterCons<T(!new)>(x: T, s: seq<T>, p: T -> bool)
    ensures Filter([x] + s, p) == (if p(x) then [x] else []) + Filter(s, p)
  {
    assert ([x] + s)[1..] == s;
  }

  /** The first k elements of s satisfying p are those of some prefix of s. */
  lemma {:induction false} TakeFilterPrefix<T(!new)>(s: seq<T>, p: T -> bool, k: nat)
    ensures exists j :: 0 <= j <= |s| && Take(Filter(s, p), k) == Filter(s[..j], p)
  {
    if s == [] || k == 0 {
      assert Take(Filter(s, p), k) == Filter(s[..0], p);
    } else {
      var k' := if p(s[0]) then k - 1 else k;
      TakeFilterPrefix(s[1..], p, k');
      var j' :| 0 <= j' <= |s| - 1 && Take(Filter(s[1..], p), k') == Filter(s[1..][..j'], p);
      FilterPrefixCons(s, p, j');
      TakeFilterCons(s, p, k);
      assert Take(Filter(s, p), k) == Filter(s[..j' + 1], p);
    }
  }

  lemma FilterPrefixCons<T(!new)>(s: seq<T>, p: T -> bool, j: nat)
    requires j < |s|
    ensures Filter(s[..j + 1], p) == (if p(s[0]) then [s[0]] else []) + Filter(s[1..][..j], p)
  {
    assert s[..j + 1] == [s[0]] + s[1..][..j];
    FilterCons(s[0], s[1..][..j], p);
  }

  lemma TakeFilterCons<T(!new)>(s: seq<T>, p: T -> bool, k: nat)
    requires s != [] && k > 0
    ensures Take(Filter(s, p), k) ==
      (if p(s[0]) then [s[0]] + Take(Filter(s[1..], p), k - 1) else Take(Filter(s[1..], p), k))
  {
  }

  lemma {:induction false} FilterNoDup<T(!new)>(s: seq<T>, p: T -> bool)
    requires NoDup(s)
    ensures NoDup(Filter(s, p))
  {
    if s != [] {
      FilterNoDup(s[1..], p);
      assert s[0] !in s[1..];
    }
  }

  /** The concatenation of a sequence of blocks, in order. */
  function Flatten<T>(ss: seq<seq<T>>): seq<T> {
    if ss == [] then [] else ss[0] + Flatten(ss[1..])
  }

  /** f applied to each element of s, the results concatenated in order: the
      effect of `for x in s: out.extend(f(x))` on an initially empty list. */
  function FlatMap<T, U>(s: seq<T>, f: T -> seq<U>): seq<U> {
    if s == [] then [] else FlatMap(s[..|s| - 1], f) + f(s[|s| - 1])
  }

  lemma FlatMapStep<T, U>(s: seq<T>, f: T -> seq<U>, i: nat)
    requires i < |s|
    ensures FlatMap(s[..i + 1], f) == FlatMap(s[..i], f) + f(s[i])
  {
    assert s[..i + 1][..i] == s[..i];
  }

  lemma {:induction false} FlatMapConcat<T, U>(a: seq<T>, b: seq<T>, f: T -> seq<U>)
    ensures FlatMap(a + b, f) == FlatMap(a, f) + FlatMap(b, f)
    decreases |b|
  {
    if b == [] {
      assert a + b == a;
    } else {
      var b' := b[..|b| - 1];
      FlatMapConcat(a, b', f);
      assert (a + b)[..|a + b| - 1] == a + b';
      assert (a + b)[|a + b| - 1] == b[|b| - 1];
      ConcatAssoc(FlatMap(a, f), FlatMap(b', f), f(b[|b| - 1]));
    }
  }

  lemma {:induction false} FlatMapMember<T, U>(s: seq<T>, f: T -> seq<U>, x: U)
    ensures x in FlatMap(s, f) <==> exists k :: 0 <= k < |s| && x in f(s[k])
  {
    if s != [] {
      var s' := s[..|s| - 1];
      FlatMapMember(s', f, x);
      assert forall k :: 0 <= k < |s'| ==> s'[k] == s[k];
    }
  }

  lemma {:induction false} FlattenMember<T>(ss: seq<seq<T>>, k: nat, x: T)
    requires k < |ss| && x in ss[k]
    ensures x in Flatten(ss)
  {
    if k > 0 {
      FlattenMember(ss[1..], k - 1, x);
    }
  }

  /** a occurs somewhere before b in s. */
  predicate Before<T(==)>(s: seq<T>, a: T, b: T) {
    exists i, j :: 0 <= i < j < |s| && s[i] == a && s[j] == b
  }

  lemma BeforeCons<T(!new)>(x: T, t: seq<T>, a: T, b: T)
    ensures Before([x] + t, a, b) <==> (x == a && b in t) || Before(t, a, b)
  {
    var s := [x] + t;
    if x == a && b in t {
      var j :| 0 <= j < |t| && t[j] == b;
      assert s[0] == a && s[j + 1] == b;
    }
    if Before(t, a, b) {
      var i, j :| 0 <= i < j < |t| && t[i] == a && t[j] == b;
      assert s[i + 1] == a && s[j + 1] == b;
    }
    if Before(s, a, b) {
      var i, j :| 0 <= i < j < |s| && s[i] == a && s[j] == b;
      assert s[j] == t[j - 1];
      if i > 0 {
        assert t[i - 1] == a && t[j - 1] == b;
      }
    }
  }

  /** Filtering keeps the relative order of the elements it keeps, and creates no new order. */
  lemma {:induction false} FilterBefore<T(!new)>(s: seq<T>, p: T -> bool, a: T, b: T)
    ensures Before(Filter(s, p), a, b) <==> Before(s, a, b) && p(a) && p(b)
  {
    if s == [] {
    } else {
      assert s == [s[0]] + s[1..];
      FilterBefore(s[1..], p, a, b);
      BeforeCons(s[0], s[1..], a, b);
      if p(s[0]) {
        assert Filter(s, p) == [s[0]] + Filter(s[1..], p);
        BeforeCons(s[0], Filter(s[1..], p), a, b);
      } else {
        assert Filter(s, p) == Filter(s[1..], p);
      }
    }
  }

  lemma ConcatAssoc<T>(a: seq<T>, b: seq<T>, c: seq<T>)
    ensures (a + b) + c == a + (b + c)
  {
  }

  /** Two duplicate-free sequences with no element in common concatenate to a
      duplicate-free sequence. */
  lemma NoDupConcat<T(!new)>(a: seq<T>, b: seq<T>)
    requires NoDup(a) && NoDup(b)
    requires forall x :: x in a ==> x !in b
    ensures NoDup(a + b)
  {
    var s := a + b;
    forall i, j | 0 <= i < j < |s| ensures s[i] != s[j] {
      if i < |a| && j >= |a| {
        assert s[i] in a && s[j] == b[j - |a|];
      }
    }
  }
}
