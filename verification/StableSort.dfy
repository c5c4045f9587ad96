/** The keys lists are sorted by, and stable sorting (`slice::sort_by`). */
module StableSort {
  datatype Key = Text(s: string) | Num(n: nat)

  /** Strings compare character by character. */
  predicate Lex(a: string, b: string) {
    a == "" || (b != "" && (a[0] < b[0] || (a[0] == b[0] && Lex(a[1..], b[1..]))))
  }

  predicate Le(a: Key, b: Key) {
    match (a, b)
    case (Text(s), Text(t)) => Lex(s, t)
    case (Num(n), Num(m)) => n <= m
    case (Text(_), Num(_)) => true
    case (Num(_), Text(_)) => false
  }

  lemma {:induction false} LexOrder(a: string, b: string, c: string)
    ensures Lex(a, b) || Lex(b, a)
    ensures Lex(a, b) && Lex(b, a) ==> a == b
    ensures Lex(a, b) && Lex(b, c) ==> Lex(a, c)
  {
    if a != "" && b != "" {
      LexOrder(a[1..], b[1..], if c == "" then "" else c[1..]);
      assert a == [a[0]] + a[1..] && b == [b[0]] + b[1..];
    }
  }

  /** Character order, by the first difference: `a` is the beginning of `b`, or has the
      smaller character where they first differ. */
  ghost predicate AtMost(a: string, b: string) {
    exists k: nat :: AgreeTo(a, b, k) && (k == |a| || (k < |b| && a[k] < b[k]))
  }

  predicate AgreeTo(a: string, b: string, k: nat) {
    k <= |a| && k <= |b| && forall i :: 0 <= i < k ==> a[i] == b[i]
  }

  lemma {:induction false} LexIsAtMost(a: string, b: string)
    ensures Lex(a, b) <==> AtMost(a, b)
  {
    if a == "" {
      assert AgreeTo(a, b, 0);
    } else if b != "" {
      LexIsAtMost(a[1..], b[1..]);
      assert a[0] != b[0] ==> AgreeTo(a, b, 0);
      forall k: nat | k < |a| && k < |b| ensures AgreeTo(a, b, k + 1) <==> a[0] == b[0] && AgreeTo(a[1..], b[1..], k) {
        if AgreeTo(a[1..], b[1..], k) && a[0] == b[0] {
          forall i | 0 < i < k + 1 ensures a[i] == b[i] { assert a[1..][i - 1] == b[1..][i - 1]; }
        }
      }
      if Lex(a, b) && a[0] == b[0] {
        var k: nat :| AgreeTo(a[1..], b[1..], k) && (k == |a[1..]| || (k < |b[1..]| && a[1..][k] < b[1..][k]));
        assert AgreeTo(a, b, k + 1);
      }
      if AtMost(a, b) {
        var k: nat :| AgreeTo(a, b, k) && (k == |a| || (k < |b| && a[k] < b[k]));
        assert k > 0 ==> AgreeTo(a[1..], b[1..], k - 1);
      }
    }
  }

  lemma LeOrder(a: Key, b: Key, c: Key)
    ensures Le(a, b) || Le(b, a)
    ensures Le(a, b) && Le(b, a) ==> a == b
    ensures Le(a, b) && Le(b, c) ==> Le(a, c)
  {
    if a.Text? && b.Text? { LexOrder(a.s, b.s, if c.Text? then c.s else ""); }
  }

  /** An item under the key it is sorted by. */
  datatype Keyed<T> = Keyed(key: Key, item: T)

  /** Whether an item of key `a` may stand before one of key `b`. */
  predicate Before(descending: bool, a: Key, b: Key) {
    if descending then Le(b, a) else Le(a, b)
  }

  function Insert<T>(descending: bool, x: Keyed<T>, xs: seq<Keyed<T>>): seq<Keyed<T>> {
    if xs == [] || Before(descending, x.key, xs[0].key) then [x] + xs
    else [xs[0]] + Insert(descending, x, xs[1..])
  }

  function Sort<T>(descending: bool, xs: seq<Keyed<T>>): seq<Keyed<T>> {
    if xs == [] then [] else Insert(descending, xs[0], Sort(descending, xs[1..]))
  }

  /** The items of one key, in the order of the list. */
  function WithKey<T>(xs: seq<Keyed<T>>, k: Key): seq<Keyed<T>> {
    if xs == [] then [] else (if xs[0].key == k then [xs[0]] else []) + WithKey(xs[1..], k)
  }

  ghost predicate Ordered<T>(descending: bool, xs: seq<Keyed<T>>) {
    xs == [] ||
    ((forall x :: x in xs[1..] ==> Before(descending, xs[0].key, x.key)) && Ordered(descending, xs[1..]))
  }

  /** `ys` is `xs` sorted stably: in order, and with the items of each key as they were. */
  ghost predicate StablySorted<T>(descending: bool, xs: seq<Keyed<T>>, ys: seq<Keyed<T>>) {
    Ordered(descending, ys) && forall k :: WithKey(ys, k) == WithKey(xs, k)
  }

  lemma BeforeOrder(descending: bool, a: Key, b: Key, c: Key)
    ensures Before(descending, a, b) || Before(descending, b, a)
    ensures Before(descending, a, b) && Before(descending, b, c) ==> Before(descending, a, c)
  {
    LeOrder(a, b, c);
    LeOrder(c, b, a);
  }

  lemma {:induction false} InsertMember<T>(descending: bool, x: Keyed<T>, xs: seq<Keyed<T>>, y: Keyed<T>)
    ensures y in Insert(descending, x, xs) <==> y == x || y in xs
  {
    if xs != [] {
      InsertMember(descending, x, xs[1..], y);
      assert xs == [xs[0]] + xs[1..];
    }
  }

  lemma OrderedCons<T>(descending: bool, x: Keyed<T>, xs: seq<Keyed<T>>)
    ensures Ordered(descending, [x] + xs) <==>
            Ordered(descending, xs) && forall y :: y in xs ==> Before(descending, x.key, y.key)
  {
    assert ([x] + xs)[1..] == xs;
  }

  lemma InFront<T>(descending: bool, x: Keyed<T>, xs: seq<Keyed<T>>)
    requires xs != [] && Ordered(descending, xs) && Before(descending, x.key, xs[0].key)
    ensures Ordered(descending, [x] + xs)
  {
    assert xs == [xs[0]] + xs[1..];
    forall y | y in xs ensures Before(descending, x.key, y.key) {
      BeforeOrder(descending, x.key, xs[0].key, y.key);
    }
    OrderedCons(descending, x, xs);
  }

  lemma {:induction false} InsertOrdered<T>(descending: bool, x: Keyed<T>, xs: seq<Keyed<T>>)
    requires Ordered(descending, xs)
    ensures Ordered(descending, Insert(descending, x, xs))
  {
    if xs == [] {
      OrderedCons(descending, x, xs);
    } else if Before(descending, x.key, xs[0].key) {
      InFront(descending, x, xs);
    } else {
      InsertOrdered(descending, x, xs[1..]);
      BeforeOrder(descending, x.key, xs[0].key, xs[0].key);
      forall y | y in Insert(descending, x, xs[1..]) ensures y == x || Before(descending, xs[0].key, y.key) {
        InsertMember(descending, x, xs[1..], y);
      }
    }
  }

  lemma WithKeyCons<T>(x: Keyed<T>, xs: seq<Keyed<T>>, k: Key)
    ensures WithKey([x] + xs, k) == (if x.key == k then [x] else []) + WithKey(xs, k)
  {
    assert ([x] + xs)[1..] == xs;
  }

  lemma {:induction false} InsertStable<T>(descending: bool, x: Keyed<T>, xs: seq<Keyed<T>>, k: Key)
    ensures WithKey(Insert(descending, x, xs), k) == (if x.key == k then [x] else []) + WithKey(xs, k)
  {
    if xs == [] || Before(descending, x.key, xs[0].key) {
      WithKeyCons(x, xs, k);
    } else {
      InsertStable(descending, x, xs[1..], k);
      LeOrder(x.key, x.key, x.key);
      var rest := Insert(descending, x, xs[1..]);
      WithKeyCons(xs[0], rest, k);
      assert x.key != xs[0].key;
      var own, first := if x.key == k then [x] else [], if xs[0].key == k then [xs[0]] else [];
      assert first + (own + WithKey(xs[1..], k)) == own + (first + WithKey(xs[1..], k));
    }
  }

  lemma {:induction false} SortIsStable<T>(descending: bool, xs: seq<Keyed<T>>)
    ensures StablySorted(descending, xs, Sort(descending, xs))
  {
    if xs != [] {
      SortIsStable(descending, xs[1..]);
      InsertOrdered(descending, xs[0], Sort(descending, xs[1..]));
      forall k ensures WithKey(Sort(descending, xs), k) == WithKey(xs, k) {
        InsertStable(descending, xs[0], Sort(descending, xs[1..]), k);
      }
    }
  }

  lemma {:induction false} WithKeyMembers<T>(xs: seq<Keyed<T>>, x: Keyed<T>)
    ensures x in WithKey(xs, x.key) <==> x in xs
  {
    if xs != [] {
      WithKeyMembers(xs[1..], x);
      assert xs == [xs[0]] + xs[1..];
    }
  }

  /** There is only one stable sorting of a list. */
  lemma {:induction false} StableSortUnique<T>(descending: bool, ys: seq<Keyed<T>>, zs: seq<Keyed<T>>)
    requires Ordered(descending, ys) && Ordered(descending, zs)
    requires forall k :: WithKey(ys, k) == WithKey(zs, k)
    ensures ys == zs
  {
    if ys != [] { WithKeyMembers(ys, ys[0]); WithKeyMembers(zs, ys[0]); }
    if zs != [] { WithKeyMembers(ys, zs[0]); WithKeyMembers(zs, zs[0]); }
    if ys != [] {
      assert ys[0] in zs && zs[0] in ys;
      LeOrder(ys[0].key, zs[0].key, ys[0].key);
      LeOrder(ys[0].key, ys[0].key, ys[0].key);
      assert ys == [ys[0]] + ys[1..] && zs == [zs[0]] + zs[1..];
      assert ys[0].key == zs[0].key;
      assert WithKey(ys, ys[0].key) == WithKey(zs, ys[0].key);
      assert ys[0] == WithKey(ys, ys[0].key)[0] == zs[0];
      forall k ensures WithKey(ys[1..], k) == WithKey(zs[1..], k) {
        assert WithKey(ys, k) == WithKey(zs, k);
        var n := if ys[0].key == k then 1 else 0;
        assert WithKey(ys[1..], k) == WithKey(ys, k)[n..] && WithKey(zs[1..], k) == WithKey(zs, k)[n..];
      }
      StableSortUnique(descending, ys[1..], zs[1..]);
    }
  }

  /** A stable sorting is a permutation. */
  lemma {:induction false} SameItems<T>(descending: bool, xs: seq<Keyed<T>>)
    ensures multiset(Sort(descending, xs)) == multiset(xs)
  {
    if xs != [] {
      SameItems(descending, xs[1..]);
      InsertAdds(descending, xs[0], Sort(descending, xs[1..]));
      assert xs == [xs[0]] + xs[1..];
    }
  }

  lemma {:induction false} InsertAdds<T>(descending: bool, x: Keyed<T>, xs: seq<Keyed<T>>)
    ensures multiset(Insert(descending, x, xs)) == multiset{x} + multiset(xs)
  {
    if xs != [] && !Before(descending, x.key, xs[0].key) {
      InsertAdds(descending, x, xs[1..]);
      assert xs == [xs[0]] + xs[1..];
    }
  }

  lemma {:induction false} OrderedAt<T>(descending: bool, xs: seq<Keyed<T>>, i: nat, j: nat)
    requires Ordered(descending, xs) && i < j < |xs|
    ensures Before(descending, xs[i].key, xs[j].key)
  {
    if i > 0 {
      OrderedAt(descending, xs[1..], i - 1, j - 1);
    } else {
      assert xs[1..][j - 1] in xs[1..];
    }
  }
}
