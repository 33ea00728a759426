/** The read side of the product controller: the pinned-first listing shared
    by the admin and storefront pages, the by-id lookup, and the detail page
    with its related products. */
module Queries {
  import opened Wrappers
  import opened Products

  /** `a` comes before `b` under `orderBy('is_pinned', 'DESC')->orderBy('id', 'ASC')`. */
  predicate Precedes(a: Product, b: Product) {
    (a.isPinned && !b.isPinned) || (a.isPinned == b.isPinned && a.id < b.id)
  }

  /** Every element of `s` comes before every later one. */
  predicate PinOrdered(s: seq<Product>) {
    forall i, j :: 0 <= i < j < |s| ==> Precedes(s[i], s[j])
  }

  /** `s` holds rows of `t` only, and every row of `t`. */
  predicate ListsExactly(s: seq<Product>, t: Table) {
    && (forall i :: 0 <= i < |s| ==> s[i].id in t && t[s[i].id] == s[i])
    && (forall k :: k in t ==> t[k] in s)
  }

  lemma {:induction false} LeastExists(ks: set<int>)
    requires ks != {}
    ensures exists m :: m in ks && forall k :: k in ks ==> m <= k
    decreases ks
  {
    // Supplies the witness for the choice of x below.
    if forall k :: k !in ks {
      assert false;
    }
    var x :| x in ks;
    var rest := ks - {x};
    if rest == {} {
      assert ks == {x};
    } else {
      LeastExists(rest);
      var y :| y in rest && forall k :: k in rest ==> y <= k;
      var m := if x < y then x else y;
      forall k | k in ks ensures m <= k {
        if k != x { assert k in rest; }
      }
    }
  }

  /** The smallest id of a non-empty set of ids. */
  function Least(ks: set<int>): (m: int)
    requires ks != {}
    ensures m in ks && forall k :: k in ks ==> m <= k
  {
    LeastExists(ks);
    var m :| m in ks && forall k :: k in ks ==> m <= k;
    m
  }

  /** The rows of `t` whose ids are in `ks`, in ascending id order. */
  function Ascending(t: Table, ks: set<int>): (r: seq<Product>)
    requires WellKeyed(t) && ks <= t.Keys
    ensures |r| == |ks|
    ensures forall i :: 0 <= i < |r| ==> r[i].id in ks && t[r[i].id] == r[i]
    ensures forall k :: k in ks ==> t[k] in r
    ensures forall i, j :: 0 <= i < j < |r| ==> r[i].id < r[j].id
    decreases ks
  {
    if ks == {} then []
    else
      var m := Least(ks);
      var rest := Ascending(t, ks - {m});
      PrependLeast(t, ks, m, rest);
      [t[m]] + rest
  }

  /** Putting the least id's row before the ascending rows of the others. */
  lemma PrependLeast(t: Table, ks: set<int>, m: int, rest: seq<Product>)
    requires WellKeyed(t) && ks <= t.Keys
    requires m in ks && forall k :: k in ks ==> m <= k
    requires |rest| == |ks - {m}|
    requires forall i :: 0 <= i < |rest| ==> rest[i].id in ks - {m} && t[rest[i].id] == rest[i]
    requires forall k :: k in ks - {m} ==> t[k] in rest
    requires forall i, j :: 0 <= i < j < |rest| ==> rest[i].id < rest[j].id
    ensures var r := [t[m]] + rest;
      && |r| == |ks|
      && (forall i :: 0 <= i < |r| ==> r[i].id in ks && t[r[i].id] == r[i])
      && (forall k :: k in ks ==> t[k] in r)
      && (forall i, j :: 0 <= i < j < |r| ==> r[i].id < r[j].id)
  {
  }

  /** The ids of the pinned rows of `t`. */
  function PinnedIds(t: Table): set<int> {
    set k | k in t && t[k].isPinned
  }

  /** The ids of the unpinned rows of `t`. */
  function UnpinnedIds(t: Table): set<int> {
    set k | k in t && !t[k].isPinned
  }

  /** The product listing shown by both the admin index and the storefront:
      every product once, pinned ones first, ids ascending within each group. */
  function Listing(t: Table): (r: seq<Product>)
    requires WellKeyed(t)
    ensures PinOrdered(r)
    ensures ListsExactly(r, t)
    ensures |r| == |t|
  {
    var pinned := Ascending(t, PinnedIds(t));
    var unpinned := Ascending(t, UnpinnedIds(t));
    PartitionByPin(t);
    ConcatOrdered(t, pinned, unpinned);
    pinned + unpinned
  }

  /** Pinned and unpinned ids split the table's ids. */
  lemma PartitionByPin(t: Table)
    ensures PinnedIds(t) + UnpinnedIds(t) == t.Keys
    ensures PinnedIds(t) !! UnpinnedIds(t)
    ensures |PinnedIds(t)| + |UnpinnedIds(t)| == |t|
  {
  }

  /** Joining the ascending pinned rows and the ascending unpinned rows. */
  lemma ConcatOrdered(t: Table, pinned: seq<Product>, unpinned: seq<Product>)
    requires WellKeyed(t)
    requires PinnedIds(t) + UnpinnedIds(t) == t.Keys
    requires forall i :: 0 <= i < |pinned| ==> pinned[i].id in PinnedIds(t) && t[pinned[i].id] == pinned[i]
    requires forall i :: 0 <= i < |unpinned| ==> unpinned[i].id in UnpinnedIds(t) && t[unpinned[i].id] == unpinned[i]
    requires forall k :: k in PinnedIds(t) ==> t[k] in pinned
    requires forall k :: k in UnpinnedIds(t) ==> t[k] in unpinned
    requires forall i, j :: 0 <= i < j < |pinned| ==> pinned[i].id < pinned[j].id
    requires forall i, j :: 0 <= i < j < |unpinned| ==> unpinned[i].id < unpinned[j].id
    ensures PinOrdered(pinned + unpinned)
    ensures ListsExactly(pinned + unpinned, t)
  {
  }

  /** The head of a pin-ordered sequence comes before every other element. */
  lemma HeadPrecedes(s: seq<Product>, x: Product)
    requires PinOrdered(s) && x in s && x != s[0]
    ensures Precedes(s[0], x)
  {
  }

  /** Two sequences that are both pin-ordered and hold the same products are
      the same sequence: the ordering leaves no freedom. */
  lemma {:induction false} OrderedUnique(a: seq<Product>, b: seq<Product>)
    requires PinOrdered(a) && PinOrdered(b)
    requires forall x :: x in a <==> x in b
    ensures a == b
    decreases |a|
  {
    if a != [] { assert a[0] in b; }
    if b != [] { assert b[0] in a; }
    if a != [] {
      if a[0] != b[0] {
        HeadPrecedes(a, b[0]);
        HeadPrecedes(b, a[0]);
        assert false;
      }
      forall x ensures x in a[1..] <==> x in b[1..] {
        if x in a[1..] {
          var k :| 1 <= k < |a| && a[k] == x;
          assert Precedes(a[0], a[k]);
          assert x in b;
          var l :| 0 <= l < |b| && b[l] == x;
          assert b[1..][l - 1] == x;
        }
        if x in b[1..] {
          var k :| 1 <= k < |b| && b[k] == x;
          assert Precedes(b[0], b[k]);
          assert x in a;
          var l :| 0 <= l < |a| && a[l] == x;
          assert a[1..][l - 1] == x;
        }
      }
      OrderedUnique(a[1..], b[1..]);
      assert a == [a[0]] + a[1..] && b == [b[0]] + b[1..];
    }
  }

  /** Any sequence that lists exactly the rows of `t` in pinned-first,
      ascending-id order is `Listing(t)`. */
  lemma ListingDeterminedByOrder(t: Table, s: seq<Product>)
    requires WellKeyed(t)
    requires PinOrdered(s) && ListsExactly(s, t)
    ensures s == Listing(t)
  {
    var l := Listing(t);
    forall x ensures x in s <==> x in l {
      if x in s { assert t[x.id] == x; }
      if x in l { assert t[x.id] == x; }
    }
    OrderedUnique(s, l);
  }

  /** The products sharing `p`'s category, other than `p` itself, in
      ascending id order. */
  function RelatedTo(t: Table, p: Product): (r: seq<Product>)
    requires WellKeyed(t)
    ensures forall q :: q in r ==> q.id != p.id && q.categoryId == p.categoryId && q.id in t && t[q.id] == q
    ensures forall k :: k in t && k != p.id && t[k].categoryId == p.categoryId ==> t[k] in r
    ensures forall i, j :: 0 <= i < j < |r| ==> r[i].id < r[j].id
  {
    var ks := set k | k in t && k != p.id && t[k].categoryId == p.categoryId;
    var r := Ascending(t, ks);
    assert forall q :: q in r ==> q.id in ks;
    r
  }

  /** `findOrFail`: the row stored under `id`, or NotFound. */
  function FindOrFail(t: Table, id: int): (r: Result<Product, Error>)
    ensures r.Ok? <==> id in t
    ensures r.Ok? ==> r.value == t[id]
    ensures r.Err? ==> r.error == NotFound
  {
    if id in t then Ok(t[id]) else Err(NotFound)
  }

  /** What the detail page shows: the product and its related products. */
  datatype Detail = Detail(product: Product, related: seq<Product>)

  /** The detail page of product `id`: NotFound when there is no such row;
      otherwise the row and the other products of its category. */
  function ShowDetail(t: Table, id: int): (r: Result<Detail, Error>)
    requires WellKeyed(t)
    ensures r.Err? <==> id !in t
    ensures r.Err? ==> r.error == NotFound
    ensures r.Ok? ==> r.value.product == t[id]
    ensures r.Ok? ==> forall q :: q in r.value.related ==>
                        q.id != id && q.categoryId == t[id].categoryId && q.id in t && t[q.id] == q
    ensures r.Ok? ==> forall k :: k in t && k != id && t[k].categoryId == t[id].categoryId ==>
                        t[k] in r.value.related
  {
    match FindOrFail(t, id)
    case Err(e) => Err(e)
    case Ok(p) => Ok(Detail(p, RelatedTo(t, p)))
  }
}
