/** The Python list operations the core relies on: `list.index`, `list.remove`,
    prefix slicing `s[:d]`, and `list.extend` over a list of lists. */
module Lists {

  /** No element occurs twice. */
  ghost predicate NoDup<T>(s: seq<T>) {
    forall i, j :: 0 <= i < j < |s| ==> s[i] != s[j]
  }

  /** `s.index(x)`: the position of the first occurrence of `x`. */
  function FirstIndex<T(==)>(s: seq<T>, x: T): (i: nat)
    requires x in s
    ensures i < |s| && s[i] == x
    ensures forall j :: 0 <= j < i ==> s[j] != x
  {
    if s[0] == x then 0 else 1 + FirstIndex(s[1..], x)
  }

  /** `s.remove(x)`: drops the first occurrence of `x`. */
  function RemoveFirst<T(==)>(s: seq<T>, x: T): (r: seq<T>)
    requires x in s
    ensures r == s[..FirstIndex(s, x)] + s[FirstIndex(s, x) + 1..]
  {
    if s[0] == x then s[1..]
    else
      assert s[..FirstIndex(s, x)] == [s[0]] + s[1..][..FirstIndex(s[1..], x)];
      [s[0]] + RemoveFirst(s[1..], x)
  }

  /** The elements of `s` that are not in `gone`, in their original order. */
  function Without<T(==,!new)>(s: seq<T>, gone: set<T>): (r: seq<T>)
    ensures forall x :: x in r <==> x in s && x !in gone
    ensures |r| <= |s|
  {
    if s == [] then []
    else if s[0] in gone then Without(s[1..], gone)
    else [s[0]] + Without(s[1..], gone)
  }

  /** Python's prefix slice `s[:d]` for any integer `d`: a negative `d` drops
      `-d` elements from the end. */
  function Head<T>(s: seq<T>, d: int): (r: seq<T>)
    ensures 0 <= d ==> |r| == if d < |s| then d else |s|
    ensures |r| <= |s| && r == s[..|r|]
  {
    if 0 <= d then (if d < |s| then s[..d] else s)
    else if |s| + d > 0 then s[..|s| + d] else []
  }

  /** The elements `for j < want: r.append(s[j])` collects when `s` has
      enough of them: all of them once `want` reaches their number, otherwise
      the first `want`, and none for a `want` below one. */
  function Cut<T>(s: seq<T>, want: int): (r: seq<T>)
    ensures |r| == if want <= 0 then 0 else if want < |s| then want else |s|
    ensures r == s[..|r|]
  {
    if want >= |s| then s else if want <= 0 then [] else s[..want]
  }

  /** `for p in ps: acc.extend(p)` starting from an empty list. */
  function Flatten<T>(ps: seq<seq<T>>): seq<T> {
    if ps == [] then [] else Flatten(ps[..|ps| - 1]) + ps[|ps| - 1]
  }

  // ---------------------------------------------------------------------
  // Lemmas

  /** A duplicate-free list has as many elements as its set of elements. */
  lemma {:induction false} NoDupCardinality<T>(s: seq<T>)
    requires NoDup(s)
    ensures |set x | x in s| == |s|
  {
    if s != [] {
      NoDupCardinality(s[1..]);
      assert (set x | x in s) == (set x | x in s[1..]) + {s[0]};
      assert s[0] !in s[1..];
    }
  }

  /** Prefixes of a duplicate-free list are duplicate-free. */
  lemma HeadNoDup<T>(s: seq<T>, d: int)
    requires NoDup(s)
    ensures NoDup(Head(s, d))
  {
  }

  /** Removing an element of a duplicate-free list is filtering it out. */
  lemma {:induction false} RemoveFirstIsWithout<T(!new)>(s: seq<T>, gone: set<T>, x: T)
    requires NoDup(s) && x in s && x !in gone
    ensures RemoveFirst(Without(s, gone), x) == Without(s, gone + {x})
  {
    if s[0] == x {
      assert x !in s[1..];
      WithoutAbsent(s[1..], gone, x);
    } else {
      assert NoDup(s[1..]);
      RemoveFirstIsWithout(s[1..], gone, x);
    }
  }

  lemma {:induction false} WithoutAbsent<T(!new)>(s: seq<T>, gone: set<T>, x: T)
    requires x !in s
    ensures Without(s, gone) == Without(s, gone + {x})
  {
    if s != [] {
      WithoutAbsent(s[1..], gone, x);
    }
  }

  /** Filtering keeps a duplicate-free list duplicate-free. */
  lemma {:induction false} WithoutNoDup<T(!new)>(s: seq<T>, gone: set<T>)
    requires NoDup(s)
    ensures NoDup(Without(s, gone))
  {
    if s != [] {
      WithoutNoDup(s[1..], gone);
      var r := Without(s, gone);
      if s[0] !in gone {
        assert s[0] !in s[1..];
        assert r == [s[0]] + Without(s[1..], gone);
      }
    }
  }

  /** One more list extended onto the flattening. */
  lemma FlattenSnoc<T>(ps: seq<seq<T>>, p: seq<T>)
    ensures Flatten(ps + [p]) == Flatten(ps) + p
  {
    assert (ps + [p])[..|ps + [p]| - 1] == ps;
  }

  /** Flattening distributes over concatenation of the outer list. */
  lemma {:induction false} FlattenAppend<T>(ps: seq<seq<T>>, qs: seq<seq<T>>)
    ensures Flatten(ps + qs) == Flatten(ps) + Flatten(qs)
    decreases |qs|
  {
    if qs == [] {
      assert ps + qs == ps;
    } else {
      var q := qs[|qs| - 1];
      assert ps + qs == (ps + qs[..|qs| - 1]) + [q];
      FlattenSnoc(ps + qs[..|qs| - 1], q);
      FlattenAppend(ps, qs[..|qs| - 1]);
      FlattenSnoc(qs[..|qs| - 1], q);
      assert qs == qs[..|qs| - 1] + [q];
    }
  }

  /** `s.reverse()`. */
  function Reverse<T>(s: seq<T>): (r: seq<T>)
    ensures |r| == |s|
    ensures forall i :: 0 <= i < |s| ==> r[i] == s[|s| - 1 - i]
  {
    seq(|s|, i requires 0 <= i < |s| => s[|s| - 1 - i])
  }

  /** Reversal keeps the elements and keeps them distinct. */
  lemma ReverseElements<T>(s: seq<T>)
    ensures forall x :: x in Reverse(s) <==> x in s
    ensures NoDup(s) ==> NoDup(Reverse(s))
  {
    var r := Reverse(s);
    forall x | x in s ensures x in r {
      var i :| 0 <= i < |s| && s[i] == x;
      assert r[|s| - 1 - i] == x;
    }
  }

  /** Two duplicate-free lists with no common element concatenate to a
      duplicate-free list. */
  lemma NoDupConcat<T>(a: seq<T>, b: seq<T>)
    requires NoDup(a) && NoDup(b)
    requires forall x :: x in a ==> x !in b
    ensures NoDup(a + b)
  {
    var s := a + b;
    forall i, j | 0 <= i < j < |s| ensures s[i] != s[j] {
      if i < |a| && j >= |a| {
        assert s[i] in a && s[j] == b[j - |a|];
      }
    }
  }

  /** The flattening around one of its parts. */
  lemma FlattenAround<T>(ps: seq<seq<T>>, i: nat)
    requires i < |ps|
    ensures Flatten(ps) == Flatten(ps[..i]) + ps[i] + Flatten(ps[i + 1..])
  {
    var a, b := ps[..i], ps[i + 1..];
    SplitAt(ps, i);
    FlattenAppend(a + [ps[i]], b);
    FlattenSnoc(a, ps[i]);
  }

  /** Concatenation regroups. */
  lemma Associative<T>(a: seq<T>, b: seq<T>, c: seq<T>)
    ensures a + (b + c) == a + b + c
  {
  }

  /** A list is its prefix, the element at `i` and its suffix. */
  lemma SplitAt<T>(s: seq<T>, i: nat)
    requires i < |s|
    ensures s == s[..i] + [s[i]] + s[i + 1..]
  {
  }

  /** Cutting twice to the same number keeps what the first cut kept. */
  lemma CutIdempotent<T>(s: seq<T>, want: int)
    ensures Cut(Cut(s, want), want) == Cut(s, want)
  {
  }
}
