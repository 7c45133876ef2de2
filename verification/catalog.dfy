/** The products repository, modelled as the list of catalog entries it
    holds. Only the two reads the order service performs are modelled: the
    batch lookup `findAllById` and the search for one id in its answer. */
module Catalog {
  import opened Wrappers
  import opened Entities
  import opened Collections

  /** Some entry of `products` carries `id`. */
  predicate Registered(products: seq<Product>, id: Id)
  {
    exists i :: 0 <= i < |products| && products[i].id == id
  }

  /** `products.find(prod => prod.id === id)`, and equally
      `products.filter(prod => prod.id === id)[0]`: the first entry with `id`. */
  function FindById(products: seq<Product>, id: Id): (r: Option<Product>)
    ensures r.None? <==> !Registered(products, id)
    ensures r.Some? ==> r.value in products && r.value.id == id
    ensures r.Some? ==> exists k :: 0 <= k < |products| && r.value == products[k] &&
                                    forall j :: 0 <= j < k ==> products[j].id != id
  {
    if |products| == 0 then None
    else if products[0].id == id then Some(products[0])
    else
      var r := FindById(products[1..], id);
      assert Registered(products, id) ==> Registered(products[1..], id) by {
        if Registered(products, id) {
          var i :| 0 <= i < |products| && products[i].id == id;
          assert products[1..][i - 1].id == id;
        }
      }
      r
  }

  /** `products.map(product => product.id)`. */
  function Ids(products: seq<Product>): (r: seq<Id>)
    ensures forall id :: id in r <==> Registered(products, id)
  {
    var r := seq(|products|, i requires 0 <= i < |products| => products[i].id);
    assert forall i :: 0 <= i < |products| ==> r[i] == products[i].id;
    r
  }

  /** The ids a request names. */
  function RequestedIds(request: seq<ProductRequest>): set<Id>
  {
    set line | line in request :: line.id
  }

  /** Selects the catalog entries whose id a request names. */
  function IsRequested(request: seq<ProductRequest>): Product -> bool
  {
    (p: Product) => p.id in RequestedIds(request)
  }

  /** `findAllById`: the catalog entries whose id appears in the request, in
      catalog order; ids nobody has registered are simply absent. */
  function FindAllById(catalog: seq<Product>, request: seq<ProductRequest>): (found: seq<Product>)
    ensures forall p :: p in found ==> p in catalog && p.id in RequestedIds(request)
    ensures forall i :: 0 <= i < |catalog| && catalog[i].id in RequestedIds(request) ==> catalog[i] in found
  {
    Filter(catalog, IsRequested(request))
  }

  /** Searching a filtered list for an id finds what searching the whole list
      finds, as long as the filter keeps every entry with that id. */
  lemma {:induction false} FindByIdThroughFilter(s: seq<Product>, keep: Product -> bool, id: Id)
    requires forall p: Product :: p.id == id ==> keep(p)
    ensures FindById(Filter(s, keep), id) == FindById(s, id)
  {
    if |s| == 0 {
    } else if keep(s[0]) {
      FindByIdThroughFilter(s[1..], keep, id);
      assert Filter(s, keep) == [s[0]] + Filter(s[1..], keep);
      assert ([s[0]] + Filter(s[1..], keep))[1..] == Filter(s[1..], keep);
    } else {
      FindByIdThroughFilter(s[1..], keep, id);
      assert s[0].id != id;
    }
  }

  /** For every id the request names, the batch answer knows that id exactly
      when the catalog does, and yields the same entry for it. */
  lemma FindAllByIdAgrees(catalog: seq<Product>, request: seq<ProductRequest>, id: Id)
    requires id in RequestedIds(request)
    ensures Registered(FindAllById(catalog, request), id) <==> Registered(catalog, id)
    ensures FindById(FindAllById(catalog, request), id) == FindById(catalog, id)
  {
    FindByIdThroughFilter(catalog, IsRequested(request), id);
  }
}
