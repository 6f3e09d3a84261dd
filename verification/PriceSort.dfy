/**
 The price sort of the product table: `[...filtered].sort(cmp)` with
 `cmp(a, b) = priceSort === "asc" ? a.price - b.price : b.price - a.price`.

 `Array.prototype.sort` is stable (section 22.1.3.27 of ECMA-262, 10th
 edition): elements the comparator calls equal keep their relative order.
 The model is a stable insertion sort over a sequence. Its result is
 characterised by three properties, and `StableSortUnique` shows they
 determine it: it is a permutation of the input, it is ordered by the
 comparator, and for every price it lists the products of that price in
 input order. The input sequence is a value and is never changed, as the
 source sorts a copy.
 */
module PriceSort {
  import opened Products

  /** The comparator handed to `sort`; negative means `a` goes first. */
  function Compare(priceSort: string, a: Product, b: Product): int {
    if priceSort == "asc" then a.price - b.price else b.price - a.price
  }

  /** The comparator orders by this key, ascending. */
  function Key(priceSort: string, p: Product): int {
    if priceSort == "asc" then p.price else -p.price
  }

  lemma CompareIsKeyDifference(priceSort: string, a: Product, b: Product)
    ensures Compare(priceSort, a, b) == Key(priceSort, a) - Key(priceSort, b)
    ensures Key(priceSort, a) == Key(priceSort, b) <==> a.price == b.price
  {
  }

  /** No later element should have gone before an earlier one. */
  ghost predicate Sorted(priceSort: string, s: seq<Product>) {
    forall i, j :: 0 <= i < j < |s| ==> Compare(priceSort, s[i], s[j]) <= 0
  }

  /** The products of price `v`, in order. */
  function WithPrice(s: seq<Product>, v: int): (r: seq<Product>)
    ensures |r| <= |s|
  {
    if |s| == 0 then []
    else (if s[0].price == v then [s[0]] else []) + WithPrice(s[1..], v)
  }

  /** A price class holds exactly the products of that price. */
  lemma {:induction false} WithPriceMembers(s: seq<Product>, v: int, p: Product)
    ensures p in WithPrice(s, v) <==> p in s && p.price == v
  {
    if |s| > 0 {
      WithPriceMembers(s[1..], v, p);
      assert s == [s[0]] + s[1..];
    }
  }

  /** Stable: every price class keeps its input order. */
  ghost predicate Stable(input: seq<Product>, output: seq<Product>) {
    forall v :: WithPrice(output, v) == WithPrice(input, v)
  }

  lemma {:induction false} WithPriceAppend(a: seq<Product>, b: seq<Product>, v: int)
    ensures WithPrice(a + b, v) == WithPrice(a, v) + WithPrice(b, v)
  {
    if |a| > 0 {
      assert (a + b)[0] == a[0];
      assert (a + b)[1..] == a[1..] + b;
      WithPriceAppend(a[1..], b, v);
    } else {
      assert a + b == b;
    }
  }

  /** Puts `x` in front of the first element it does not have to follow. */
  function Insert(priceSort: string, x: Product, t: seq<Product>): (r: seq<Product>)
    ensures multiset(r) == multiset([x] + t)
  {
    if |t| == 0 then [x]
    else if Compare(priceSort, x, t[0]) <= 0 then [x] + t
    else
      assert t == [t[0]] + t[1..];
      [t[0]] + Insert(priceSort, x, t[1..])
  }

  /** Inserting into a sorted sequence keeps it sorted. */
  lemma {:induction false} InsertSorted(priceSort: string, x: Product, t: seq<Product>)
    requires Sorted(priceSort, t)
    ensures Sorted(priceSort, Insert(priceSort, x, t))
  {
    if |t| == 0 {
    } else if Compare(priceSort, x, t[0]) <= 0 {
      SortedCons(priceSort, x, t);
    } else {
      var rest := Insert(priceSort, x, t[1..]);
      assert Sorted(priceSort, t[1..]);
      InsertSorted(priceSort, x, t[1..]);
      forall k | 0 <= k < |rest| ensures Compare(priceSort, t[0], rest[k]) <= 0 {
        assert rest[k] in multiset([x] + t[1..]);
        assert rest[k] == x || rest[k] in t[1..];
      }
      SortedCons(priceSort, t[0], rest);
    }
  }

  /** Two products of different prices never share a price class, so
      their classes can be listed in either order. */
  lemma DifferentPricesCommute(a: Product, b: Product, v: int)
    requires a.price != b.price
    ensures WithPrice([a], v) + WithPrice([b], v) == WithPrice([b], v) + WithPrice([a], v)
  {
  }

  /** When `x` moves past the head of `t`, the head's class comes first. */
  lemma InsertPastHead(priceSort: string, x: Product, t: seq<Product>, v: int)
    requires |t| > 0 && Compare(priceSort, x, t[0]) > 0
    ensures WithPrice(Insert(priceSort, x, t), v) == WithPrice([t[0]], v) + WithPrice(Insert(priceSort, x, t[1..]), v)
  {
    WithPriceAppend([t[0]], Insert(priceSort, x, t[1..]), v);
  }

  /** The price classes of `[x] + t` with the head of `t` pulled in front. */
  lemma ClassesPastHead(x: Product, t: seq<Product>, v: int)
    requires |t| > 0 && t[0].price != x.price
    ensures WithPrice([t[0]], v) + WithPrice([x] + t[1..], v) == WithPrice([x] + t, v)
  {
    WithPriceAppend([x], t[1..], v);
    WithPriceAppend([t[0]], t[1..], v);
    WithPriceAppend([x], t, v);
    assert t == [t[0]] + t[1..];
    DifferentPricesCommute(t[0], x, v);
  }

  /** Inserting the earlier element in front of its equals keeps every
      price class in input order. */
  lemma {:induction false} InsertWithPrice(priceSort: string, x: Product, t: seq<Product>, v: int)
    ensures WithPrice(Insert(priceSort, x, t), v) == WithPrice([x] + t, v)
  {
    if |t| > 0 && Compare(priceSort, x, t[0]) > 0 {
      InsertPastHead(priceSort, x, t, v);
      InsertWithPrice(priceSort, x, t[1..], v);
      ClassesPastHead(x, t, v);
    }
  }

  /** Putting an element in front of a sorted sequence that it may precede
      keeps it sorted. */
  lemma SortedCons(priceSort: string, x: Product, t: seq<Product>)
    requires Sorted(priceSort, t)
    requires forall k :: 0 <= k < |t| ==> Compare(priceSort, x, t[k]) <= 0
    ensures Sorted(priceSort, [x] + t)
  {
    var s := [x] + t;
    forall i, j | 0 <= i < j < |s| ensures Compare(priceSort, s[i], s[j]) <= 0 {
      if i > 0 {
        assert s[i] == t[i - 1] && s[j] == t[j - 1];
      } else {
        assert s[j] == t[j - 1];
      }
    }
  }

  /** `[...s].sort(cmp)`. */
  function SortByPrice(priceSort: string, s: seq<Product>): (r: seq<Product>)
    ensures multiset(r) == multiset(s)
    ensures |r| == |s|
    ensures Sorted(priceSort, r)
    ensures Stable(s, r)
  {
    if |s| == 0 then []
    else
      var sorted := SortByPrice(priceSort, s[1..]);
      var r := Insert(priceSort, s[0], sorted);
      assert s == [s[0]] + s[1..];
      assert multiset(r) == multiset(s);
      assert |r| == |multiset(r)| == |multiset(s)| == |s|;
      InsertSorted(priceSort, s[0], sorted);
      assert Stable(s, r) by {
        forall v ensures WithPrice(r, v) == WithPrice(s, v) {
          InsertWithPrice(priceSort, s[0], sorted, v);
          WithPriceAppend([s[0]], sorted, v);
          WithPriceAppend([s[0]], s[1..], v);
        }
      }
      r
  }

  /** A sequence with every price class empty is empty. */
  lemma NoClassesNoProducts(r: seq<Product>)
    requires forall v :: WithPrice(r, v) == []
    ensures r == []
  {
    if |r| > 0 {
      WithPriceMembers(r, r[0].price, r[0]);
    }
  }

  /** The head of a sorted sequence may precede any of its elements. */
  lemma HeadComesFirst(priceSort: string, r: seq<Product>, x: Product)
    requires Sorted(priceSort, r) && x in r
    ensures Compare(priceSort, r[0], x) <= 0
  {
    var k :| 0 <= k < |r| && r[k] == x;
    if k > 0 {
      assert Compare(priceSort, r[0], r[k]) <= 0;
    }
  }

  /** The head of a sequence leads its own price class. */
  lemma HeadLeadsClass(r: seq<Product>)
    requires |r| > 0
    ensures |WithPrice(r, r[0].price)| > 0 && WithPrice(r, r[0].price)[0] == r[0]
  {
  }

  /** Two sorted sequences with the same price classes start alike. */
  lemma SameClassesSameHead(priceSort: string, r1: seq<Product>, r2: seq<Product>)
    requires |r1| > 0 && |r2| > 0
    requires Sorted(priceSort, r1) && Sorted(priceSort, r2)
    requires WithPrice(r1, r1[0].price) == WithPrice(r2, r1[0].price)
    requires WithPrice(r1, r2[0].price) == WithPrice(r2, r2[0].price)
    ensures r1[0] == r2[0]
  {
    var a, b := r1[0], r2[0];
    HeadLeadsClass(r1);
    HeadLeadsClass(r2);
    WithPriceMembers(r2, a.price, a);
    HeadComesFirst(priceSort, r2, a);
    WithPriceMembers(r1, b.price, b);
    HeadComesFirst(priceSort, r1, b);
  }

  /** One step of a price class: the head joins it when it has the price. */
  lemma WithPriceCons(s: seq<Product>, v: int)
    requires |s| > 0
    ensures s[0].price == v ==> WithPrice(s, v) == [s[0]] + WithPrice(s[1..], v)
    ensures s[0].price != v ==> WithPrice(s, v) == WithPrice(s[1..], v)
  {
  }

  /** Removing a shared head keeps one price class equal. */
  lemma SameClassTail(r1: seq<Product>, r2: seq<Product>, v: int)
    requires |r1| > 0 && |r2| > 0 && r1[0] == r2[0]
    requires WithPrice(r1, v) == WithPrice(r2, v)
    ensures WithPrice(r1[1..], v) == WithPrice(r2[1..], v)
  {
    WithPriceCons(r1, v);
    WithPriceCons(r2, v);
    if r1[0].price == v {
      var t1, t2 := WithPrice(r1[1..], v), WithPrice(r2[1..], v);
      assert t1 == ([r1[0]] + t1)[1..];
      assert t2 == ([r1[0]] + t2)[1..];
    }
  }

  /** Removing a shared head leaves the price classes of the rests equal. */
  lemma SameClassesTails(r1: seq<Product>, r2: seq<Product>)
    requires |r1| > 0 && |r2| > 0 && r1[0] == r2[0]
    requires forall v :: WithPrice(r1, v) == WithPrice(r2, v)
    ensures forall v :: WithPrice(r1[1..], v) == WithPrice(r2[1..], v)
  {
    forall v ensures WithPrice(r1[1..], v) == WithPrice(r2[1..], v) {
      SameClassTail(r1, r2, v);
    }
  }

  /** A sorted sequence is pinned down by its price classes: two sorted
      sequences that list the same products of every price, in the same
      order, are equal. So permutation, order and stability together
      leave the sort no freedom. */
  lemma {:induction false} StableSortUnique(priceSort: string, r1: seq<Product>, r2: seq<Product>)
    requires Sorted(priceSort, r1) && Sorted(priceSort, r2)
    requires forall v :: WithPrice(r1, v) == WithPrice(r2, v)
    ensures r1 == r2
    decreases |r1|
  {
    if |r1| == 0 {
      NoClassesNoProducts(r2);
    } else if |r2| == 0 {
      NoClassesNoProducts(r1);
    } else {
      assert WithPrice(r1, r1[0].price) == WithPrice(r2, r1[0].price);
      assert WithPrice(r1, r2[0].price) == WithPrice(r2, r2[0].price);
      SameClassesSameHead(priceSort, r1, r2);
      SameClassesTails(r1, r2);
      assert Sorted(priceSort, r1[1..]);
      assert Sorted(priceSort, r2[1..]);
      StableSortUnique(priceSort, r1[1..], r2[1..]);
      SameHeadSameTail(r1, r2);
    }
  }

  /** Two non-empty sequences with the same head and the same tail are equal. */
  lemma SameHeadSameTail(r1: seq<Product>, r2: seq<Product>)
    requires |r1| > 0 && |r2| > 0 && r1[0] == r2[0] && r1[1..] == r2[1..]
    ensures r1 == r2
  {
    assert r1 == [r1[0]] + r1[1..];
    assert r2 == [r2[0]] + r2[1..];
  }

  /** Any ordered, stable rearrangement of `s` is the one the sort yields. */
  lemma SortIsTheStableOrder(priceSort: string, s: seq<Product>, r: seq<Product>)
    requires Sorted(priceSort, r) && Stable(s, r)
    ensures r == SortByPrice(priceSort, s)
  {
    StableSortUnique(priceSort, r, SortByPrice(priceSort, s));
  }

  function Reverse<T>(s: seq<T>): (r: seq<T>)
    ensures |r| == |s|
    ensures forall i :: 0 <= i < |s| ==> r[i] == s[|s| - 1 - i]
  {
    seq(|s|, i requires 0 <= i < |s| => s[|s| - 1 - i])
  }

  lemma ReverseAppend<T>(a: seq<T>, b: seq<T>)
    ensures Reverse(a + b) == Reverse(b) + Reverse(a)
  {
  }

  lemma {:induction false} WithPriceReverse(s: seq<Product>, v: int)
    ensures WithPrice(Reverse(s), v) == Reverse(WithPrice(s, v))
  {
    if |s| > 0 {
      var t := s[1..];
      assert s == [s[0]] + t;
      ReverseAppend([s[0]], t);
      WithPriceAppend(Reverse(t), Reverse([s[0]]), v);
      WithPriceReverse(t, v);
      WithPriceAppend([s[0]], t, v);
      var h, w := WithPrice([s[0]], v), WithPrice(t, v);
      ReverseAppend(h, w);
      assert Reverse(h) == h;
      assert Reverse([s[0]]) == [s[0]];
    }
  }

  /** Products whose prices are pairwise different. */
  ghost predicate DistinctPrices(s: seq<Product>) {
    forall i, j :: 0 <= i < j < |s| ==> s[i].price != s[j].price
  }

  lemma {:induction false} DistinctPricesClasses(s: seq<Product>, v: int)
    requires DistinctPrices(s)
    ensures |WithPrice(s, v)| <= 1
  {
    if |s| > 0 {
      DistinctPricesClasses(s[1..], v);
      if s[0].price == v {
        if |WithPrice(s[1..], v)| > 0 {
          var p := WithPrice(s[1..], v)[0];
          WithPriceMembers(s[1..], v, p);
        }
      }
    }
  }

  /** An ascending order read backwards is a descending order. */
  lemma ReversedAscIsDesc(up: seq<Product>)
    requires Sorted("asc", up)
    ensures Sorted("desc", Reverse(up))
  {
    var back := Reverse(up);
    forall i, j | 0 <= i < j < |back| ensures Compare("desc", back[i], back[j]) <= 0 {
      assert Compare("asc", up[|up| - 1 - j], up[|up| - 1 - i]) <= 0;
    }
  }

  /** With distinct prices, a price class read backwards is itself, so
      two orders with the input's price classes agree class by class
      with each other's reversal. */
  lemma {:induction false} ClassMatchesReversed(s: seq<Product>, up: seq<Product>, down: seq<Product>, v: int)
    requires DistinctPrices(s)
    requires WithPrice(up, v) == WithPrice(s, v) && WithPrice(down, v) == WithPrice(s, v)
    ensures WithPrice(down, v) == WithPrice(Reverse(up), v)
  {
    WithPriceReverse(up, v);
    DistinctPricesClasses(s, v);
    var c := WithPrice(s, v);
    assert Reverse(c) == c;
  }

  /** When no two prices are equal, the descending order is the ascending
      order read backwards. */
  lemma DescIsReversedAsc(s: seq<Product>)
    requires DistinctPrices(s)
    ensures SortByPrice("desc", s) == Reverse(SortByPrice("asc", s))
  {
    var up := SortByPrice("asc", s);
    var down := SortByPrice("desc", s);
    ReversedAscIsDesc(up);
    forall v ensures WithPrice(down, v) == WithPrice(Reverse(up), v) {
      assert WithPrice(up, v) == WithPrice(s, v);
      assert WithPrice(down, v) == WithPrice(s, v);
      ClassMatchesReversed(s, up, down, v);
    }
    StableSortUnique("desc", down, Reverse(up));
  }
}
