/** Sorting as Python's `sorted` does it: stable, over a total preorder, with the
    facts every sorted listing of the harness relies on. */
module Orders {

  datatype Option<+T> = None | Some(value: T)

  ghost predicate TotalPreorder<T(!new)>(le: (T, T) -> bool) {
    && (forall a, b :: le(a, b) || le(b, a))
    && (forall a, b, c :: le(a, b) && le(b, c) ==> le(a, c))
  }

  /** Elements that compare equal under `le` are equal, among the elements of `xs`. */
  ghost predicate KeysDistinguish<T(!new)>(le: (T, T) -> bool, xs: seq<T>) {
    forall a, b :: a in xs && b in xs && le(a, b) && le(b, a) ==> a == b
  }

  ghost predicate Antisymmetric<T(!new)>(le: (T, T) -> bool) {
    forall a, b :: le(a, b) && le(b, a) ==> a == b
  }

  ghost predicate SortedBy<T>(le: (T, T) -> bool, xs: seq<T>) {
    forall i, j :: 0 <= i < j < |xs| ==> le(xs[i], xs[j])
  }

  ghost predicate Distinct<T>(xs: seq<T>) {
    forall i, j :: 0 <= i < j < |xs| ==> xs[i] != xs[j]
  }

  /** The two sequences hold the same elements, whatever the order and multiplicity. */
  ghost predicate SameElements<T(!new)>(xs: seq<T>, ys: seq<T>) {
    forall x :: x in xs <==> x in ys
  }

  /** Inserts before the first element not smaller than `x`; inserting from the back keeps the sort stable. */
  function Insert<T>(le: (T, T) -> bool, x: T, xs: seq<T>): (r: seq<T>)
    ensures multiset(r) == multiset([x]) + multiset(xs)
  {
    if |xs| == 0 then [x]
    else if le(x, xs[0]) then
      [x] + xs
    else
      assert xs == [xs[0]] + xs[1..];
      [xs[0]] + Insert(le, x, xs[1..])
  }

  function Sort<T>(le: (T, T) -> bool, xs: seq<T>): (r: seq<T>)
    ensures multiset(r) == multiset(xs)
  {
    if |xs| == 0 then []
    else
      assert xs == [xs[0]] + xs[1..];
      Insert(le, xs[0], Sort(le, xs[1..]))
  }

  lemma SameMultisetSameElements<T(!new)>(xs: seq<T>, ys: seq<T>)
    requires multiset(xs) == multiset(ys)
    ensures SameElements(xs, ys) && |xs| == |ys|
  {
    forall x ensures x in xs <==> x in ys {
      assert x in xs <==> x in multiset(xs);
      assert x in ys <==> x in multiset(ys);
    }
    assert |multiset(xs)| == |xs| && |multiset(ys)| == |ys|;
  }

  lemma {:induction false} InsertSorted<T(!new)>(le: (T, T) -> bool, x: T, xs: seq<T>)
    requires TotalPreorder(le) && SortedBy(le, xs)
    ensures SortedBy(le, Insert(le, x, xs))
  {
    if |xs| > 0 && !le(x, xs[0]) {
      InsertSorted(le, x, xs[1..]);
      var rest := Insert(le, x, xs[1..]);
      forall j | 0 <= j < |rest| ensures le(xs[0], rest[j]) {
        assert rest[j] in multiset(rest);
        assert rest[j] == x || rest[j] in xs[1..];
      }
    } else if |xs| > 0 {
      forall j | 0 <= j < |xs| ensures le(x, xs[j]) {
        assert le(xs[0], xs[j]);
      }
    }
  }

  lemma {:induction false} SortSorted<T(!new)>(le: (T, T) -> bool, xs: seq<T>)
    requires TotalPreorder(le)
    ensures SortedBy(le, Sort(le, xs))
  {
    if |xs| > 0 {
      SortSorted(le, xs[1..]);
      InsertSorted(le, xs[0], Sort(le, xs[1..]));
    }
  }

  /** Two sorted arrangements of one multiset coincide as soon as the keys tell the elements apart. */
  lemma {:induction false} SortedUnique<T(!new)>(le: (T, T) -> bool, s: seq<T>, t: seq<T>)
    requires TotalPreorder(le) && KeysDistinguish(le, s)
    requires SortedBy(le, s) && SortedBy(le, t) && multiset(s) == multiset(t)
    ensures s == t
  {
    SameMultisetSameElements(s, t);
    if |s| > 0 {
      SortedSameHead(le, s, t);
      TailsAgree(s, t);
      assert forall x :: x in s[1..] ==> x in s;
      SortedUnique(le, s[1..], t[1..]);
      assert s == [s[0]] + s[1..] && t == [t[0]] + t[1..];
    }
  }

  lemma TailsAgree<T>(s: seq<T>, t: seq<T>)
    requires |s| > 0 && |t| > 0 && s[0] == t[0] && multiset(s) == multiset(t)
    ensures multiset(s[1..]) == multiset(t[1..])
  {
    assert s == [s[0]] + s[1..] && t == [t[0]] + t[1..];
    assert multiset(s[1..]) == multiset(s) - multiset{s[0]};
    assert multiset(t[1..]) == multiset(t) - multiset{t[0]};
  }

  lemma SortedSameHead<T(!new)>(le: (T, T) -> bool, s: seq<T>, t: seq<T>)
    requires |s| > 0 && |t| > 0 && SameElements(s, t) && KeysDistinguish(le, s)
    requires TotalPreorder(le) && SortedBy(le, s) && SortedBy(le, t)
    ensures s[0] == t[0]
  {
    assert s[0] in s && t[0] in t;
    var i :| 0 <= i < |t| && t[i] == s[0];
    var j :| 0 <= j < |s| && s[j] == t[0];
    assert le(s[0], s[0]) && le(t[0], t[0]);
    assert i > 0 ==> le(t[0], t[i]);
    assert j > 0 ==> le(s[0], s[j]);
  }

  /** Sorting forgets the listing order. */
  lemma SortForgetsOrder<T(!new)>(le: (T, T) -> bool, xs: seq<T>, ys: seq<T>)
    requires TotalPreorder(le) && KeysDistinguish(le, xs) && multiset(xs) == multiset(ys)
    ensures Sort(le, xs) == Sort(le, ys)
  {
    SortSorted(le, xs);
    SortSorted(le, ys);
    SameMultisetSameElements(Sort(le, xs), xs);
    SortedUnique(le, Sort(le, xs), Sort(le, ys));
  }

  // ---------------------------------------------------------------- sorted(set(...))

  /** `sorted(set(xs))`: every element once, in ascending order. */
  function SortedSet<T(==)>(le: (T, T) -> bool, xs: seq<T>): seq<T>
  {
    if |xs| == 0 then []
    else if xs[0] in xs[1..] then SortedSet(le, xs[1..])
    else Insert(le, xs[0], SortedSet(le, xs[1..]))
  }

  lemma {:induction false} InsertDistinct<T(!new)>(le: (T, T) -> bool, x: T, xs: seq<T>)
    requires Distinct(xs) && x !in xs
    ensures Distinct(Insert(le, x, xs))
  {
    if |xs| > 0 && !le(x, xs[0]) {
      InsertDistinct(le, x, xs[1..]);
      var rest := Insert(le, x, xs[1..]);
      forall j | 0 <= j < |rest| ensures rest[j] != xs[0] {
        assert rest[j] in multiset(rest);
      }
    }
  }

  lemma {:induction false} SortedSetMeaning<T(!new)>(le: (T, T) -> bool, xs: seq<T>)
    requires TotalPreorder(le)
    ensures SortedBy(le, SortedSet(le, xs)) && Distinct(SortedSet(le, xs))
    ensures SameElements(SortedSet(le, xs), xs)
  {
    if |xs| > 0 {
      var rest := SortedSet(le, xs[1..]);
      SortedSetMeaning(le, xs[1..]);
      assert xs == [xs[0]] + xs[1..];
      if xs[0] !in xs[1..] {
        InsertSorted(le, xs[0], rest);
        InsertDistinct(le, xs[0], rest);
        var r := Insert(le, xs[0], rest);
        forall x ensures x in r <==> x in xs {
          assert x in r <==> x in multiset(r);
          assert x in multiset(r) <==> x == xs[0] || x in rest;
        }
      }
    }
  }

  /** A strictly sorted listing is determined by its elements. */
  lemma {:induction false} StrictlySortedUnique<T(!new)>(le: (T, T) -> bool, s: seq<T>, t: seq<T>)
    requires TotalPreorder(le) && Antisymmetric(le)
    requires SortedBy(le, s) && Distinct(s) && SortedBy(le, t) && Distinct(t)
    requires SameElements(s, t)
    ensures s == t
  {
    assert (|s| > 0 ==> s[0] in s) && (|t| > 0 ==> t[0] in t);
    if |s| > 0 {
      assert t[0] in s && s[0] in t;
      assert le(s[0], t[0]) && le(t[0], s[0]);
      forall x ensures x in s[1..] <==> x in t[1..] {
        assert s == [s[0]] + s[1..] && t == [t[0]] + t[1..];
        assert x in s <==> x == s[0] || x in s[1..];
        assert x in t <==> x == t[0] || x in t[1..];
      }
      StrictlySortedUnique(le, s[1..], t[1..]);
    }
  }

  lemma SortedSetForgetsOrder<T(!new)>(le: (T, T) -> bool, xs: seq<T>, ys: seq<T>)
    requires TotalPreorder(le) && Antisymmetric(le) && SameElements(xs, ys)
    ensures SortedSet(le, xs) == SortedSet(le, ys)
  {
    SortedSetMeaning(le, xs);
    SortedSetMeaning(le, ys);
    StrictlySortedUnique(le, SortedSet(le, xs), SortedSet(le, ys));
  }

  // ---------------------------------------------------------------- strings

  /** Code-point order, as Python compares strings. */
  predicate StrLe(a: string, b: string) {
    |a| == 0 || (|b| > 0 && (a[0] < b[0] || (a[0] == b[0] && StrLe(a[1..], b[1..]))))
  }

  lemma {:induction false} StrTotal(a: string, b: string)
    ensures StrLe(a, b) || StrLe(b, a)
  {
    if |a| > 0 && |b| > 0 && a[0] == b[0] { StrTotal(a[1..], b[1..]); }
  }

  lemma {:induction false} StrAntisymmetric(a: string, b: string)
    requires StrLe(a, b) && StrLe(b, a)
    ensures a == b
  {
    if |a| > 0 && |b| > 0 {
      StrAntisymmetric(a[1..], b[1..]);
      assert a == [a[0]] + a[1..] && b == [b[0]] + b[1..];
    }
  }

  lemma {:induction false} StrTransitive(a: string, b: string, c: string)
    requires StrLe(a, b) && StrLe(b, c)
    ensures StrLe(a, c)
  {
    if |a| > 0 && a[0] == b[0] && b[0] == c[0] { StrTransitive(a[1..], b[1..], c[1..]); }
  }

  lemma StrOrder()
    ensures TotalPreorder(StrLe) && Antisymmetric(StrLe)
  {
    forall a, b ensures StrLe(a, b) || StrLe(b, a) { StrTotal(a, b); }
    forall a, b | StrLe(a, b) && StrLe(b, a) ensures a == b { StrAntisymmetric(a, b); }
    forall a, b, c | StrLe(a, b) && StrLe(b, c) ensures StrLe(a, c) { StrTransitive(a, b, c); }
  }

  /** The order is that of a dictionary: a prefix comes first, otherwise the first difference decides. */
  lemma {:induction false} StrLeExactly(a: string, b: string)
    ensures StrLe(a, b) <==> a <= b || exists k :: 0 <= k < |a| && k < |b| && a[..k] == b[..k] && a[k] < b[k]
  {
    if |a| > 0 && |b| > 0 && a[0] == b[0] {
      var x, y := a[1..], b[1..];
      assert a == [a[0]] + x && b == [b[0]] + y;
      StrLeExactly(x, y);
      if k :| 0 <= k < |x| && k < |y| && x[..k] == y[..k] && x[k] < y[k] {
        assert a[..k + 1] == [a[0]] + x[..k] && b[..k + 1] == [b[0]] + y[..k];
        assert a[k + 1] < b[k + 1];
      }
      if k :| 0 <= k < |a| && k < |b| && a[..k] == b[..k] && a[k] < b[k] {
        assert x[..k - 1] == a[..k][1..] && y[..k - 1] == b[..k][1..];
        assert x[k - 1] < y[k - 1];
      }
    } else if |a| > 0 && |b| > 0 && a[0] < b[0] {
      assert a[..0] == b[..0];
    } else if |a| > 0 && |b| > 0 {
      forall k | 0 <= k < |a| && k < |b| && a[..k] == b[..k] ensures !(a[k] < b[k]) {
        if k > 0 { SamePrefixSameHead(a, b, k); }
      }
    }
  }

  lemma SamePrefixSameHead(a: string, b: string, k: nat)
    requires 0 < k <= |a| && k <= |b| && a[..k] == b[..k]
    ensures a[0] == b[0]
  {
    assert a[..k][0] == b[..k][0];
  }

  /** Tuple order on a pair of strings. */
  predicate PairLe(a: (string, string), b: (string, string)) {
    StrLe(a.0, b.0) && (a.0 == b.0 ==> StrLe(a.1, b.1))
  }

  lemma PairLeExactly(a: (string, string), b: (string, string))
    ensures PairLe(a, b) <==> if a.0 == b.0 then StrLe(a.1, b.1) else StrLe(a.0, b.0)
  {
    StrTotal(a.0, a.0);
  }

  lemma PairOrder()
    ensures TotalPreorder(PairLe) && Antisymmetric(PairLe)
  {
    StrOrder();
  }
}
