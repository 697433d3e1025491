/** The catalog operations on the product sequence itself, as values: what each operation of the
    manager computes from the old sequence, and what several operations in a row do. */
module Catalog {
  import opened Wrappers
  import opened Products
  import Sequences

  /** `products.findIndex(product => product.id === id)`. */
  function IndexOfId(s: seq<Product>, id: string): (i: int)
    ensures -1 <= i < |s|
    ensures i == -1 <==> forall k :: 0 <= k < |s| ==> s[k].id != id
    ensures 0 <= i ==> s[i].id == id && forall k :: 0 <= k < i ==> s[k].id != id
  {
    Sequences.FindIndex(s, (p: Product) => p.id == id)
  }

  /** `products.find(product => product.code === code)` is truthy. */
  function HasCode(s: seq<Product>, code: string): (b: bool)
    ensures b <==> exists k :: 0 <= k < |s| && s[k].code == code
  {
    Sequences.Find(s, (p: Product) => p.code == code).Some?
  }

  /** No two products share an id. The manager never checks this. */
  ghost predicate UniqueIds(s: seq<Product>)
  {
    forall i, j :: 0 <= i < j < |s| ==> s[i].id != s[j].id
  }

  /** No two products share a code. Only creation checks this. */
  ghost predicate UniqueCodes(s: seq<Product>)
  {
    forall i, j :: 0 <= i < j < |s| ==> s[i].code != s[j].code
  }

  /** Creation: refuse a code already in use, otherwise append. */
  function Add(s: seq<Product>, p: Product): (r: Result<seq<Product>, Error>)
    ensures r.Failure? <==> exists k :: 0 <= k < |s| && s[k].code == p.code
    ensures r.Failure? ==> r.error == DuplicateCode
    ensures r.Success? ==> |r.value| == |s| + 1 && r.value[..|s|] == s && r.value[|s|] == p
  {
    if HasCode(s, p.code) then Failure(DuplicateCode) else Success(s + [p])
  }

  /** Lookup by id: the first product carrying `id`, or `NotFound` when none does. */
  function Lookup(s: seq<Product>, id: string): (r: Result<Product, Error>)
    ensures r.Failure? <==> forall k :: 0 <= k < |s| ==> s[k].id != id
    ensures r.Failure? ==> r.error == NotFound
    ensures r.Success? ==> r.value == s[IndexOfId(s, id)] && r.value.id == id
  {
    var found := Sequences.Find(s, (p: Product) => p.id == id);
    if found.None? then Failure(NotFound) else Success(found.value)
  }

  /** Update: merge `f` into the first product carrying `id`; `NotFound` when none does. */
  function Update(s: seq<Product>, id: string, f: Patch): (r: Result<seq<Product>, Error>)
    ensures r.Failure? <==> forall k :: 0 <= k < |s| ==> s[k].id != id
    ensures r.Failure? ==> r.error == NotFound
    ensures r.Success? ==> |r.value| == |s|
    ensures r.Success? ==> var i := IndexOfId(s, id);
      r.value[i] == Merge(s[i], f) && forall k :: 0 <= k < |s| && k != i ==> r.value[k] == s[k]
  {
    var i := IndexOfId(s, id);
    if i == -1 then Failure(NotFound) else Success(s[i := Merge(s[i], f)])
  }

  /** Deletion: splice out the first product carrying `id`; `NotFound` when none does. */
  function Delete(s: seq<Product>, id: string): (r: Result<seq<Product>, Error>)
    ensures r.Failure? <==> forall k :: 0 <= k < |s| ==> s[k].id != id
    ensures r.Failure? ==> r.error == NotFound
    ensures r.Success? ==> var i := IndexOfId(s, id);
      |r.value| == |s| - 1 &&
      (forall k :: 0 <= k < i ==> r.value[k] == s[k]) &&
      (forall k :: i <= k < |r.value| ==> r.value[k] == s[k + 1]) &&
      multiset(r.value) + multiset{s[i]} == multiset(s)
  {
    var i := IndexOfId(s, id);
    if i == -1 then Failure(NotFound)
    else
      var t := s[..i] + s[i + 1..];
      Sequences.SpliceAt(s, i);
      Success(t)
  }

  /** A successful creation keeps the codes unique. */
  lemma AddKeepsCodesUnique(s: seq<Product>, p: Product)
    requires UniqueCodes(s) && Add(s, p).Success?
    ensures UniqueCodes(Add(s, p).value)
  {
  }

  /** A successful creation with an id not yet in use keeps the ids unique. */
  lemma AddKeepsIdsUnique(s: seq<Product>, p: Product)
    requires UniqueIds(s) && Add(s, p).Success?
    requires forall k :: 0 <= k < |s| ==> s[k].id != p.id
    ensures UniqueIds(Add(s, p).value)
  {
  }

  /** Appending a product does not move the first holder of an id; it can only supply one. */
  lemma IndexOfIdAppend(s: seq<Product>, p: Product, id: string)
    ensures IndexOfId(s + [p], id) ==
      if IndexOfId(s, id) != -1 then IndexOfId(s, id) else if p.id == id then |s| else -1
  {
    var t := s + [p];
    var i := IndexOfId(s, id);
    assert forall k :: 0 <= k < |s| ==> t[k] == s[k];
    assert t[|s|] == p;
    if i != -1 {
      assert t[i].id == id;
    }
  }

  /** After a successful creation, looking up any id finds what it found before; an id that was
      absent finds the new product if it carries that id. A reused id never finds the new one. */
  lemma AddThenLookup(s: seq<Product>, p: Product, id: string)
    requires Add(s, p).Success?
    ensures Lookup(Add(s, p).value, id) ==
      if exists k :: 0 <= k < |s| && s[k].id == id then Lookup(s, id)
      else if p.id == id then Success(p)
      else Failure(NotFound)
  {
    var t := Add(s, p).value;
    assert t == s + [p];
    IndexOfIdAppend(s, p, id);
  }

  /** Successive creations, as the caller issues them, stopping at the first failure. */
  function AddAll(s: seq<Product>, ps: seq<Product>): (r: Result<seq<Product>, Error>)
    ensures r.Success? ==> |r.value| == |s| + |ps|
    decreases |ps|
  {
    if ps == [] then Success(s)
    else match Add(s, ps[0])
      case Failure(e) => Failure(e)
      case Success(t) => AddAll(t, ps[1..])
  }

  /** Creating products whose codes are distinct and new lists exactly those products, in call order. */
  lemma {:induction false} AddAllDistinct(s: seq<Product>, ps: seq<Product>)
    requires forall i, j :: 0 <= i < j < |ps| ==> ps[i].code != ps[j].code
    requires forall i, k :: 0 <= i < |ps| && 0 <= k < |s| ==> ps[i].code != s[k].code
    ensures AddAll(s, ps) == Success(s + ps)
    decreases |ps|
  {
    if ps != [] {
      assert Add(s, ps[0]) == Success(s + [ps[0]]);
      var t := s + [ps[0]];
      forall i, k | 0 <= i < |ps[1..]| && 0 <= k < |t|
        ensures ps[1..][i].code != t[k].code
      {
        if k == |s| { assert ps[1..][i] == ps[i + 1]; }
      }
      AddAllDistinct(t, ps[1..]);
      assert t + ps[1..] == s + ps;
    } else {
      assert s + ps == s;
    }
  }

  /** A run of creations fails when one of them reuses a code already in the catalog. */
  lemma {:induction false} AddAllExistingCodeFails(s: seq<Product>, ps: seq<Product>, j: int, k: int)
    requires 0 <= j < |ps| && 0 <= k < |s| && s[k].code == ps[j].code
    ensures AddAll(s, ps).Failure?
    decreases |ps|
  {
    if !HasCode(s, ps[0].code) {
      var t := s + [ps[0]];
      assert j != 0;
      assert t[k] == s[k] && ps[1..][j - 1] == ps[j];
      AddAllExistingCodeFails(t, ps[1..], j - 1, k);
    }
  }

  /** A run of creations fails when two of them, at any distance, carry the same code. */
  lemma {:induction false} AddAllDuplicateFails(s: seq<Product>, ps: seq<Product>, i: int, j: int)
    requires 0 <= i < j < |ps| && ps[i].code == ps[j].code
    ensures AddAll(s, ps).Failure?
    decreases |ps|
  {
    if !HasCode(s, ps[0].code) {
      var t := s + [ps[0]];
      assert ps[1..][j - 1] == ps[j];
      if i == 0 {
        assert t[|s|] == ps[0];
        AddAllExistingCodeFails(t, ps[1..], j - 1, |s|);
      } else {
        assert ps[1..][i - 1] == ps[i];
        AddAllDuplicateFails(t, ps[1..], i - 1, j - 1);
      }
    }
  }

  /** An update whose patch leaves the id alone keeps the ids unique. */
  lemma UpdateKeepsIdsUnique(s: seq<Product>, id: string, f: Patch)
    requires UniqueIds(s) && Update(s, id, f).Success?
    requires f.id.None?
    ensures UniqueIds(Update(s, id, f).value)
  {
    var t := Update(s, id, f).value;
    forall k | 0 <= k < |s| ensures t[k].id == s[k].id { }
  }

  /** The manager does not check codes on update: an update can make two products share a code. */
  lemma UpdateCanDuplicateCode()
    ensures var a := Product("A", "", 10, "", "c1", 1, "x");
      var b := Product("B", "", 20, "", "c2", 1, "y");
      var r := Update([a, b], "y", NoFields.(code := Some("c1")));
      UniqueCodes([a, b]) && r.Success? && !UniqueCodes(r.value)
  {
    var a := Product("A", "", 10, "", "c1", 1, "x");
    var b := Product("B", "", 20, "", "c2", 1, "y");
    assert [a, b][0].id != "y" && [a, b][1].id == "y";
    assert IndexOfId([a, b], "y") == 1;
    var r := Update([a, b], "y", NoFields.(code := Some("c1")));
    assert r.value[0].code == r.value[1].code;
  }

  /** The manager does not protect the id on update: a patch with an id replaces it. */
  lemma UpdateCanReplaceId(s: seq<Product>, id: string, other: string)
    requires Update(s, id, NoFields.(id := Some(other))).Success?
    ensures Update(s, id, NoFields.(id := Some(other))).value[IndexOfId(s, id)].id == other
  {
  }

  /** `update(id, { stock: n })`: the first product carrying `id` gets stock `n` and keeps every other
      field, the id included; every other product is untouched. */
  lemma UpdateStockOnly(s: seq<Product>, id: string, n: int)
    requires exists k :: 0 <= k < |s| && s[k].id == id
    ensures var r := Update(s, id, NoFields.(stock := Some(n)));
      var i := IndexOfId(s, id);
      r.Success? && r.value == s[i := s[i].(stock := n)]
  {
    var i := IndexOfId(s, id);
    MergeStockOnly(s[i], n);
  }

  /** With unique ids, a deleted id can no longer be found. */
  lemma DeleteThenLookupFails(s: seq<Product>, id: string)
    requires UniqueIds(s) && Delete(s, id).Success?
    ensures Lookup(Delete(s, id).value, id) == Failure(NotFound)
  {
    var i := IndexOfId(s, id);
    var t := Delete(s, id).value;
    forall k | 0 <= k < |t| ensures t[k].id != id {
      if k < i { assert t[k] == s[k]; } else { assert t[k] == s[k + 1]; }
    }
  }

  /** After a deletion, a lookup of the same id searches only what followed the removed product:
      with a repeated id it finds the next holder, and it fails only when there is none. */
  lemma DeleteThenLookupFindsRest(s: seq<Product>, id: string)
    requires Delete(s, id).Success?
    ensures var i := IndexOfId(s, id); Lookup(Delete(s, id).value, id) == Lookup(s[i + 1..], id)
  {
    var i := IndexOfId(s, id);
    var t := Delete(s, id).value;
    var rest := s[i + 1..];
    assert t == s[..i] + rest;
    assert forall k :: 0 <= k < i ==> t[k].id != id;
    assert forall k :: i <= k < |t| ==> t[k] == rest[k - i];
    var j := IndexOfId(rest, id);
    if j == -1 {
      forall k | 0 <= k < |t| ensures t[k].id != id {
        if k >= i { assert t[k] == rest[k - i]; }
      }
    } else {
      assert t[i + j] == rest[j];
      assert IndexOfId(t, id) == i + j by {
        forall k | 0 <= k < i + j ensures t[k].id != id {
          if k >= i { assert t[k] == rest[k - i]; }
        }
      }
    }
  }

  /** For example, in a two-product catalog whose products share an id, deleting removes only the
      first holder, and a lookup then finds the second. */
  lemma DeleteLeavesSecondHolder()
    ensures var a := Product("A", "", 10, "", "c1", 1, "x");
      var b := Product("B", "", 20, "", "c2", 1, "x");
      Delete([a, b], "x") == Success([b]) && Lookup([b], "x") == Success(b)
  {
    var a := Product("A", "", 10, "", "c1", 1, "x");
    var b := Product("B", "", 20, "", "c2", 1, "x");
    assert [a, b][0].id == "x" && [b][0].id == "x";
    assert IndexOfId([a, b], "x") == 0;
    assert [a, b][..0] + [a, b][1..] == [b];
    assert Delete([a, b], "x") == Success([b]);
    assert IndexOfId([b], "x") == 0;
    assert Lookup([b], "x") == Success(b);
  }

  /** Deletion keeps the ids unique and the codes unique. */
  lemma DeleteKeepsUnique(s: seq<Product>, id: string)
    requires Delete(s, id).Success?
    ensures UniqueIds(s) ==> UniqueIds(Delete(s, id).value)
    ensures UniqueCodes(s) ==> UniqueCodes(Delete(s, id).value)
  {
    var i := IndexOfId(s, id);
    var t := Delete(s, id).value;
    assert forall k :: 0 <= k < |t| ==> t[k] == s[if k < i then k else k + 1];
  }

  /** Deletion keeps the survivors in their relative order. */
  lemma DeleteIsSubsequence(s: seq<Product>, id: string)
    requires Delete(s, id).Success?
    ensures Sequences.IsSubsequence(Delete(s, id).value, s)
  {
    var i := IndexOfId(s, id);
    assert Delete(s, id).value == s[..i] + s[i + 1..];
    Sequences.SpliceIsSubsequence(s, i);
  }
}
