/** The case-insensitive search over titles and descriptions. */
module Search {
  import opened Products
  import opened Text
  import Sequences

  /** The filter callback: the lowered title or the lowered description includes the lowered query. */
  predicate Matches(p: Product, query: string): (b: bool)
    ensures b <==> Occurs(Lower(p.title), Lower(query)) || Occurs(Lower(p.description), Lower(query))
  {
    var title, description, q := Lower(p.title), Lower(p.description), Lower(query);
    ContainsIff(title, q);
    ContainsIff(description, q);
    Contains(title, q) || Contains(description, q)
  }

  /** `products.filter(...)`: the matching products, in catalog order. */
  function Search(s: seq<Product>, query: string): (r: seq<Product>)
    ensures |r| <= |s|
    ensures forall i :: 0 <= i < |r| ==> Matches(r[i], query)
  {
    if s == [] then []
    else (if Matches(s[0], query) then [s[0]] else []) + Search(s[1..], query)
  }

  /** Searching a concatenation searches each part in turn. */
  lemma {:induction false} SearchAppend(a: seq<Product>, b: seq<Product>, query: string)
    ensures Search(a + b, query) == Search(a, query) + Search(b, query)
    decreases |a|
  {
    if a == [] {
      assert a + b == b;
    } else {
      assert (a + b)[0] == a[0] && (a + b)[1..] == a[1..] + b;
      SearchAppend(a[1..], b, query);
    }
  }

  /** The result keeps the catalog order: it is a subsequence of the catalog. */
  lemma {:induction false} SearchIsSubsequence(s: seq<Product>, query: string)
    ensures Sequences.IsSubsequence(Search(s, query), s)
    decreases |s|
  {
    if s != [] {
      SearchIsSubsequence(s[1..], query);
      var r := Search(s, query);
      if Matches(s[0], query) {
        assert r[0] == s[0] && r[1..] == Search(s[1..], query);
      } else {
        assert r == Search(s[1..], query);
      }
    }
  }

  /** Each product appears as often in the result as in the catalog when it matches, and never otherwise. */
  lemma {:induction false} SearchCount(s: seq<Product>, query: string, p: Product)
    ensures multiset(Search(s, query))[p] == if Matches(p, query) then multiset(s)[p] else 0
    decreases |s|
  {
    if s != [] {
      SearchCount(s[1..], query, p);
      assert multiset(s) == multiset{s[0]} + multiset(s[1..]) by {
        assert s == [s[0]] + s[1..];
      }
      var head := if Matches(s[0], query) then [s[0]] else [];
      assert multiset(Search(s, query)) == multiset(head) + multiset(Search(s[1..], query));
    }
  }

  /** `SearchCount` for every product at once. */
  lemma SearchCounts(s: seq<Product>, query: string)
    ensures forall p :: multiset(Search(s, query))[p] == if Matches(p, query) then multiset(s)[p] else 0
  {
    forall p ensures multiset(Search(s, query))[p] == if Matches(p, query) then multiset(s)[p] else 0 {
      SearchCount(s, query, p);
    }
  }

  /** A product is in the result exactly when it is in the catalog and matches. */
  lemma SearchMembers(s: seq<Product>, query: string, p: Product)
    ensures p in Search(s, query) <==> p in s && Matches(p, query)
  {
    SearchCount(s, query, p);
  }

  /** The empty query matches every product. */
  lemma {:induction false} SearchEmptyQuery(s: seq<Product>)
    ensures Search(s, "") == s
    decreases |s|
  {
    if s != [] {
      assert Lower("") == "";
      ContainsEmpty(Lower(s[0].title));
      SearchEmptyQuery(s[1..]);
      assert [s[0]] + s[1..] == s;
    }
  }

  /** The query's letter case does not matter. */
  lemma {:induction false} SearchIgnoresQueryCase(s: seq<Product>, query: string)
    ensures Search(s, Lower(query)) == Search(s, query)
    decreases |s|
  {
    LowerIdempotent(query);
    if s != [] { SearchIgnoresQueryCase(s[1..], query); }
  }

  /** A "shirt" query finds a product titled "Blue Shirt" and one described as "cotton shirt fabric",
      and passes over a "Hat" described as "wool". */
  lemma ShirtExample(blue: Product, hat: Product, cotton: Product)
    requires blue.title == "Blue Shirt"
    requires cotton.description == "cotton shirt fabric"
    requires hat.title == "Hat" && hat.description == "wool"
    ensures Search([blue, hat, cotton], "shirt") == [blue, cotton]
  {
    ShirtInTitle(blue);
    ShirtInDescription(cotton);
    assert !Matches(hat, "shirt") by {
      LowerAt(hat.title);
      LowerAt(hat.description);
      LowerAt("shirt");
    }
    assert Search([cotton], "shirt") == [cotton] by {
      assert [cotton][1..] == [];
    }
    assert Search([hat, cotton], "shirt") == [cotton] by {
      assert [hat, cotton][1..] == [cotton];
    }
    assert [blue, hat, cotton][1..] == [hat, cotton];
  }

  /** "shirt" matches a product titled "Blue Shirt". */
  lemma ShirtInTitle(p: Product)
    requires p.title == "Blue Shirt"
    ensures Matches(p, "shirt")
  {
    var t := Lower(p.title);
    var q := Lower("shirt");
    LowerAt(p.title);
    LowerAt("shirt");
    assert t[5..10] == q;
    assert OccursAt(t, q, 5);
    ContainsIff(t, q);
  }

  /** "shirt" matches a product described as "cotton shirt fabric". */
  lemma ShirtInDescription(p: Product)
    requires p.description == "cotton shirt fabric"
    ensures Matches(p, "shirt")
  {
    var d := Lower(p.description);
    var q := Lower("shirt");
    LowerAt(p.description);
    LowerAt("shirt");
    assert d[7..12] == q;
    assert OccursAt(d, q, 7);
    ContainsIff(d, q);
  }
}
