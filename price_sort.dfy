/** Sorting a copy of the catalog by price with a stable sort, ascending or descending. */
module PriceSort {
  import opened Products

  /** The sort key the comparator orders by: `a.price - b.price` for ascending,
      `b.price - a.price` (that is, ascending on the negated price) otherwise. */
  function Key(p: Product, ascending: bool): int
  {
    if ascending then p.price else -p.price
  }

  /** The comparator `slice().sort` is given: `a.price - b.price` for "asc", `b.price - a.price`
      otherwise. Only its sign matters to the sort. */
  function Comparator(a: Product, b: Product, ascending: bool): int
  {
    if ascending then a.price - b.price else b.price - a.price
  }

  /** Comparing keys is reading the comparator's sign: `a` may stay ahead of `b` exactly when the
      comparator does not ask to swap them, and they tie exactly when it returns zero. */
  lemma KeyOrder(a: Product, b: Product, ascending: bool)
    ensures Key(a, ascending) <= Key(b, ascending) <==> Comparator(a, b, ascending) <= 0
    ensures Key(a, ascending) == Key(b, ascending) <==> Comparator(a, b, ascending) == 0
  {
  }

  /** The keys never decrease along `s`: prices are non-decreasing when ascending and
      non-increasing otherwise. */
  ghost predicate Ordered(s: seq<Product>, ascending: bool)
  {
    forall i, j :: 0 <= i < j < |s| ==> Key(s[i], ascending) <= Key(s[j], ascending)
  }

  /** `Ordered`, spelled out in prices: it holds exactly when prices never decrease (ascending)
      or never increase (descending) along `s`. */
  lemma OrderedPrices(s: seq<Product>, ascending: bool)
    ensures Ordered(s, ascending) <==> forall i, j :: 0 <= i < j < |s| ==>
      if ascending then s[i].price <= s[j].price else s[i].price >= s[j].price
  {
  }

  /** Putting a product no greater in key than the head in front keeps a sequence ordered. */
  lemma OrderedCons(y: Product, t: seq<Product>, ascending: bool)
    requires Ordered(t, ascending)
    requires t != [] ==> Key(y, ascending) <= Key(t[0], ascending)
    ensures Ordered([y] + t, ascending)
  {
    var r := [y] + t;
    forall i, j | 0 <= i < j < |r| ensures Key(r[i], ascending) <= Key(r[j], ascending) {
      assert r[j] == t[j - 1];
      if i > 0 {
        assert r[i] == t[i - 1];
      } else if j > 1 {
        assert Key(t[0], ascending) <= Key(t[j - 1], ascending);
      }
    }
  }

  /** The products of `s` with price `v`, in the order of `s`. */
  function WithPrice(s: seq<Product>, v: int): seq<Product>
  {
    if s == [] then []
    else (if s[0].price == v then [s[0]] else []) + WithPrice(s[1..], v)
  }

  /** Puts `x` in front of the first element whose key is not below its own. */
  function Insert(x: Product, s: seq<Product>, ascending: bool): (r: seq<Product>)
    ensures |r| == |s| + 1
    ensures multiset(r) == multiset(s) + multiset{x}
  {
    if s == [] then [x]
    else if Key(x, ascending) <= Key(s[0], ascending) then [x] + s
    else
      assert s == [s[0]] + s[1..];
      [s[0]] + Insert(x, s[1..], ascending)
  }

  /** Inserting into an ordered sequence keeps it ordered; the result starts with `x` or with
      the old first element. */
  lemma {:induction false} InsertOrdered(x: Product, s: seq<Product>, ascending: bool)
    requires Ordered(s, ascending)
    ensures Ordered(Insert(x, s, ascending), ascending)
    ensures Insert(x, s, ascending)[0] == x || (s != [] && Insert(x, s, ascending)[0] == s[0])
    decreases |s|
  {
    if s == [] {
    } else if Key(x, ascending) <= Key(s[0], ascending) {
      OrderedCons(x, s, ascending);
    } else {
      var t := Insert(x, s[1..], ascending);
      OrderedTail(s, ascending);
      InsertOrdered(x, s[1..], ascending);
      assert |s| > 1 ==> Key(s[0], ascending) <= Key(s[1], ascending);
      OrderedCons(s[0], t, ascending);
    }
  }

  /** `products.slice().sort(comparator)`: a stable insertion sort on a copy. */
  function SortByPrice(s: seq<Product>, ascending: bool): (r: seq<Product>)
    ensures |r| == |s|
    ensures multiset(r) == multiset(s)
  {
    if s == [] then []
    else
      assert s == [s[0]] + s[1..];
      Insert(s[0], SortByPrice(s[1..], ascending), ascending)
  }

  /** The sorted copy is ordered by price. */
  lemma {:induction false} SortOrdered(s: seq<Product>, ascending: bool)
    ensures Ordered(SortByPrice(s, ascending), ascending)
    decreases |s|
  {
    if s != [] {
      SortOrdered(s[1..], ascending);
      InsertOrdered(s[0], SortByPrice(s[1..], ascending), ascending);
    }
  }

  /** `WithPrice` of a sequence built by putting `y` in front. */
  lemma WithPriceCons(y: Product, t: seq<Product>, v: int)
    ensures WithPrice([y] + t, v) == (if y.price == v then [y] else []) + WithPrice(t, v)
  {
    assert ([y] + t)[0] == y && ([y] + t)[1..] == t;
  }

  /** Inserting `x` places it ahead of every element with the same price. */
  lemma {:induction false} InsertWithPrice(x: Product, s: seq<Product>, ascending: bool, v: int)
    ensures WithPrice(Insert(x, s, ascending), v) == (if x.price == v then [x] else []) + WithPrice(s, v)
    decreases |s|
  {
    if s == [] {
      WithPriceCons(x, [], v);
    } else if Key(x, ascending) <= Key(s[0], ascending) {
      WithPriceCons(x, s, v);
    } else {
      var t := Insert(x, s[1..], ascending);
      InsertWithPrice(x, s[1..], ascending, v);
      WithPriceCons(s[0], t, v);
      WithPriceCons(s[0], s[1..], v);
      assert s == [s[0]] + s[1..];
      assert s[0].price != x.price;
    }
  }

  /** Stability: for every price, the products with that price keep their relative order. */
  lemma {:induction false} SortKeepsTies(s: seq<Product>, ascending: bool, v: int)
    ensures WithPrice(SortByPrice(s, ascending), v) == WithPrice(s, v)
    decreases |s|
  {
    if s != [] {
      SortKeepsTies(s[1..], ascending, v);
      InsertWithPrice(s[0], SortByPrice(s[1..], ascending), ascending, v);
    }
  }

  /** `SortKeepsTies` for every price at once. */
  lemma SortIsStable(s: seq<Product>, ascending: bool)
    ensures forall v :: WithPrice(SortByPrice(s, ascending), v) == WithPrice(s, v)
  {
    forall v ensures WithPrice(SortByPrice(s, ascending), v) == WithPrice(s, v) {
      SortKeepsTies(s, ascending, v);
    }
  }

  /** Stability, pairwise: two products with equal price appear in the sorted copy in the order
      they had in the catalog. */
  lemma SortKeepsTieOrder(s: seq<Product>, ascending: bool, i: int, j: int)
    requires 0 <= i < j < |s| && s[i].price == s[j].price
    ensures Precedes(WithPrice(SortByPrice(s, ascending), s[i].price), s[i], s[j])
  {
    SortKeepsTies(s, ascending, s[i].price);
    TiePositions(s, s[i].price, i, j);
  }

  /** `x` comes before `y` in `w`. */
  ghost predicate Precedes(w: seq<Product>, x: Product, y: Product)
  {
    exists a, b :: 0 <= a < b < |w| && w[a] == x && w[b] == y
  }

  /** Two products of price `v` at positions `i < j` keep that order in `WithPrice(s, v)`. */
  lemma {:induction false} TiePositions(s: seq<Product>, v: int, i: int, j: int)
    requires 0 <= i < j < |s| && s[i].price == v && s[j].price == v
    ensures Precedes(WithPrice(s, v), s[i], s[j])
    decreases |s|
  {
    var w := WithPrice(s, v);
    var t := WithPrice(s[1..], v);
    if i == 0 {
      InWithPrice(s[1..], v, s[j]);
      assert s[j] == s[1..][j - 1];
      var b :| 0 <= b < |t| && t[b] == s[j];
      assert w == [s[0]] + t;
      assert w[0] == s[i] && w[b + 1] == s[j];
    } else {
      TiePositions(s[1..], v, i - 1, j - 1);
      var a, b :| 0 <= a < b < |t| && t[a] == s[1..][i - 1] && t[b] == s[1..][j - 1];
      if s[0].price == v {
        assert w == [s[0]] + t;
        assert w[a + 1] == s[i] && w[b + 1] == s[j];
      } else {
        assert w == t;
      }
    }
  }

  /** Dropping the first element keeps a sequence ordered. */
  lemma {:induction false} OrderedTail(s: seq<Product>, ascending: bool)
    requires s != [] && Ordered(s, ascending)
    ensures Ordered(s[1..], ascending)
  {
    forall i, j | 0 <= i < j < |s[1..]|
      ensures if ascending then s[1..][i].price <= s[1..][j].price else s[1..][i].price >= s[1..][j].price
    {
      assert s[1..][i] == s[i + 1] && s[1..][j] == s[j + 1];
    }
  }

  /** A product is in `WithPrice(s, v)` exactly when it is in `s` and has price `v`. */
  lemma {:induction false} InWithPrice(s: seq<Product>, v: int, x: Product)
    ensures x in WithPrice(s, v) <==> x in s && x.price == v
    decreases |s|
  {
    if s != [] {
      InWithPrice(s[1..], v, x);
      assert s == [s[0]] + s[1..];
    }
  }

  /** The price group of the first element is never empty. */
  lemma WithPriceHead(s: seq<Product>)
    ensures s != [] ==> WithPrice(s, s[0].price) != []
  {
  }

  /** Being ordered and keeping every price's products in order pins down the result: any sequence
      with both properties is the sorted copy. */
  lemma {:induction false} StableSortUnique(r1: seq<Product>, r2: seq<Product>, ascending: bool)
    requires Ordered(r1, ascending) && Ordered(r2, ascending)
    requires forall v :: WithPrice(r1, v) == WithPrice(r2, v)
    ensures r1 == r2
    decreases |r1| + |r2|
  {
    if r1 == [] || r2 == [] {
      if r1 != [] {
        WithPriceHead(r1);
        assert false;
      } else if r2 != [] {
        WithPriceHead(r2);
        assert false;
      }
    } else {
      var x, y := r1[0], r2[0];
      InWithPrice(r1, x.price, x);
      assert WithPrice(r1, x.price) == WithPrice(r2, x.price);
      InWithPrice(r2, x.price, x);
      InWithPrice(r2, y.price, y);
      assert WithPrice(r1, y.price) == WithPrice(r2, y.price);
      InWithPrice(r1, y.price, y);
      assert x.price == y.price by {
        var i :| 0 <= i < |r2| && r2[i] == x;
        var j :| 0 <= j < |r1| && r1[j] == y;
        assert Key(y, ascending) <= Key(x, ascending) by {
          if i > 0 { assert Key(r2[0], ascending) <= Key(r2[i], ascending); }
        }
        assert Key(x, ascending) <= Key(y, ascending) by {
          if j > 0 { assert Key(r1[0], ascending) <= Key(r1[j], ascending); }
        }
      }
      assert WithPrice(r1, x.price)[0] == x;
      assert WithPrice(r2, x.price)[0] == y;
      assert x == y;
      forall v ensures WithPrice(r1[1..], v) == WithPrice(r2[1..], v) {
        var w1, w2 := WithPrice(r1, v), WithPrice(r2, v);
        assert w1 == (if x.price == v then [x] else []) + WithPrice(r1[1..], v);
        assert w2 == (if y.price == v then [y] else []) + WithPrice(r2[1..], v);
        if x.price == v {
          assert w1[1..] == WithPrice(r1[1..], v) && w2[1..] == WithPrice(r2[1..], v);
        } else {
          assert w1 == WithPrice(r1[1..], v) && w2 == WithPrice(r2[1..], v);
        }
      }
      OrderedTail(r1, ascending);
      OrderedTail(r2, ascending);
      StableSortUnique(r1[1..], r2[1..], ascending);
      assert r1 == [x] + r1[1..] && r2 == [y] + r2[1..];
    }
  }

  /** The sorted copy is the one ordered sequence that keeps every price's products in order. */
  lemma IsTheStableSort(s: seq<Product>, r: seq<Product>, ascending: bool)
    requires Ordered(r, ascending)
    requires forall v :: WithPrice(r, v) == WithPrice(s, v)
    ensures r == SortByPrice(s, ascending)
  {
    SortIsStable(s, ascending);
    SortOrdered(s, ascending);
    StableSortUnique(r, SortByPrice(s, ascending), ascending);
  }

  /** A product no greater in key than the head is inserted at the front. */
  lemma InsertInFront(x: Product, s: seq<Product>, ascending: bool)
    requires s == [] || Key(x, ascending) <= Key(s[0], ascending)
    ensures Insert(x, s, ascending) == [x] + s
  {
  }

  /** A product greater in key than the head is inserted after it. */
  lemma InsertPast(x: Product, s: seq<Product>, ascending: bool)
    requires s != [] && Key(s[0], ascending) < Key(x, ascending)
    ensures Insert(x, s, ascending) == [s[0]] + Insert(x, s[1..], ascending)
  {
  }

  /** Sorting a sequence built by putting `y` in front inserts `y` into the sorted rest. */
  lemma SortCons(y: Product, t: seq<Product>, ascending: bool)
    ensures SortByPrice([y] + t, ascending) == Insert(y, SortByPrice(t, ascending), ascending)
  {
    assert ([y] + t)[0] == y && ([y] + t)[1..] == t;
  }

  /** A single product is already sorted. */
  lemma SortSingle(c: Product, ascending: bool)
    ensures SortByPrice([c], ascending) == [c]
  {
    SortCons(c, [], ascending);
    InsertInFront(c, [], ascending);
  }

  /** Prices 30, 10, 20 sort to 10, 20, 30 ascending. */
  lemma AscendingExample(a: Product, b: Product, c: Product)
    requires a.price == 30 && b.price == 10 && c.price == 20
    ensures SortByPrice([a, b, c], true) == [b, c, a]
  {
    var bc := SortByPrice([b, c], true);
    assert bc == [b, c] by {
      SortSingle(c, true);
      assert [b, c] == [b] + [c];
      SortCons(b, [c], true);
      InsertInFront(b, [c], true);
    }
    var r := Insert(a, bc, true);
    assert r == [b, c, a] by {
      InsertPast(a, [b, c], true);
      assert [b, c][1..] == [c];
      InsertPast(a, [c], true);
      assert [c][1..] == [];
      InsertInFront(a, [], true);
    }
    SortStep(a, [b, c], true, bc, r);
  }

  /** One step of the sort: from the sorted rest and the insertion, the sorted whole. */
  lemma SortStep(y: Product, t: seq<Product>, ascending: bool, sorted: seq<Product>, r: seq<Product>)
    requires SortByPrice(t, ascending) == sorted && Insert(y, sorted, ascending) == r
    ensures SortByPrice([y] + t, ascending) == r
  {
    SortCons(y, t, ascending);
  }

  /** Prices 30, 10, 20 sort to 30, 20, 10 descending. */
  lemma DescendingExample(a: Product, b: Product, c: Product)
    requires a.price == 30 && b.price == 10 && c.price == 20
    ensures SortByPrice([a, b, c], false) == [a, c, b]
  {
    SortPairDescending(b, c);
    InsertInFront(a, [c, b], false);
    SortStep(a, [b, c], false, [c, b], [a, c, b]);
  }

  /** Two products, the first cheaper, sort descending to the reverse order. */
  lemma SortPairDescending(b: Product, c: Product)
    requires b.price < c.price
    ensures SortByPrice([b, c], false) == [c, b]
  {
    SortSingle(c, false);
    assert [b, c] == [b] + [c];
    SortCons(b, [c], false);
    InsertPast(b, [c], false);
    assert [c][1..] == [];
    InsertInFront(b, [], false);
  }
}
