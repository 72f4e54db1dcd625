/** The query functions over the loaded catalog: listing, case-insensitive substring
    search, and the AND-filter of products by required ingredients. */
module Queries {
  import opened Seqs
  import opened Dicts
  import opened Text
  import opened Loader

  /** `list_all_ingredients`: the ingredient names in the dictionary's key order. */
  function ListAllIngredients(ingredients: Dict<string, int>): (names: seq<string>)
    requires ingredients.Valid()
    ensures names == ingredients.keys
    ensures Distinct(names)
    ensures forall n :: n in names <==> n in ingredients.entries
  {
    ingredients.keys
  }

  /** The names of a sequence of products, in order. */
  function ProductNames(ps: seq<Product>): (names: seq<string>)
    ensures |names| == |ps|
    ensures forall i :: 0 <= i < |ps| ==> names[i] == ps[i].name
  {
    seq(|ps|, i requires 0 <= i < |ps| => ps[i].name)
  }

  /** `list_all_products`: one name per product, in the dictionary's key order. */
  function ListAllProducts(products: Dict<int, Product>): (names: seq<string>)
    requires products.Valid()
    ensures |names| == |products.keys|
    ensures forall i :: 0 <= i < |names| ==> names[i] == products.entries[products.keys[i]].name
    ensures forall n :: n in names <==> exists id :: id in products.entries && products.entries[id].name == n
  {
    var names := ProductNames(products.Values());
    forall n | n in names ensures exists id :: id in products.entries && products.entries[id].name == n {
      var i :| 0 <= i < |names| && names[i] == n;
      var id := products.keys[i];
      assert products.Values()[i] == products.entries[id];
      assert id in products.entries && products.entries[id].name == n;
    }
    assert forall n :: (exists id :: id in products.entries && products.entries[id].name == n) ==> n in names by {
      forall n | exists id :: id in products.entries && products.entries[id].name == n ensures n in names {
        var id :| id in products.entries && products.entries[id].name == n;
        var i :| 0 <= i < |products.keys| && products.keys[i] == id;
        assert names[i] == n;
      }
    }
    names
  }

  /** The filter condition of `search_ingredients` / `search_products`:
      `fragment.lower() in x.lower()`. */
  predicate Matches(fragment: string, x: string) {
    Contains(Lower(x), Lower(fragment))
  }

  /** `search_ingredients` and `search_products` (the same filter): the names that match,
      in input order, each as often as it occurs in the input. */
  function Search(names: seq<string>, fragment: string): (r: seq<string>)
    ensures IsSubseq(r, names)
    ensures forall x :: x in r ==> Matches(fragment, x)
    ensures forall x :: multiset(r)[x] == if Matches(fragment, x) then multiset(names)[x] else 0
    decreases |names|
  {
    if names == [] then []
    else
      var rest := Search(names[1..], fragment);
      assert names == [names[0]] + names[1..];
      if Matches(fragment, names[0]) then
        assert ([names[0]] + rest)[1..] == rest;
        [names[0]] + rest
      else rest
  }

  /** An empty fragment matches every name. */
  lemma {:induction false} SearchEmptyFragment(names: seq<string>)
    ensures Search(names, "") == names
    decreases |names|
  {
    if names != [] {
      SearchEmptyFragment(names[1..]);
      assert Lower("") == "";
      ContainsEmpty(Lower(names[0]));
      assert names == [names[0]] + names[1..];
    }
  }

  /** The search is case-insensitive in the fragment: lower-casing it first changes nothing. */
  lemma {:induction false} SearchIgnoresCase(names: seq<string>, fragment: string)
    ensures Search(names, Lower(fragment)) == Search(names, fragment)
    decreases |names|
  {
    LowerIdempotent(fragment);
    if names != [] {
      SearchIgnoresCase(names[1..], fragment);
    }
  }

  /** The docstring's example of a partial name: "gin" finds "Ginger". */
  lemma SearchFindsGinger()
    ensures Search(["Ginger", "Salt"], "gin") == ["Ginger"]
  {
    assert Lower("gin") == "gin";
    assert Lower("Ginger") == "ginger";
    assert "gin" <= "ginger";
    var salt := Lower("Salt");
    assert salt[0] == 's' && salt[1] == 'a' && salt[2] == 'l' && salt[3] == 't';
    assert 'g' !in salt;
    MissingFirstChar(salt, "gin");
  }

  /** Two fragments that are equal up to ASCII case find the same names. */
  lemma {:induction false} SearchCaseInsensitive(names: seq<string>, fragment: string, other: string)
    requires Lower(fragment) == Lower(other)
    ensures Search(names, fragment) == Search(names, other)
    decreases |names|
  {
    if names != [] {
      SearchCaseInsensitive(names[1..], fragment, other);
    }
  }

  /** The Python exception a dictionary lookup raises for a missing key. */
  datatype Result<T> = Ok(value: T) | KeyError(key: string)

  /** The `ing` argument of `search_product_with_ingredients`: a bare string or a list. */
  datatype Request = Single(name: string) | Several(names: seq<string>)
  {
    function Names(): (ns: seq<string>)
      ensures Single? ==> ns == [name]
      ensures Several? ==> ns == names
    {
      match this
      case Single(n) => [n]
      case Several(ns) => ns
    }
  }

  /** The ids of those `names` that are keys of `ingredients`. */
  function IdsOf(ingredients: Dict<string, int>, names: seq<string>): set<int> {
    set n | n in names && n in ingredients.entries :: ingredients.entries[n]
  }

  /** `key` is the first of `names` that is not a key of `ingredients`: the key CPython's
      `KeyError` carries when the names are looked up in order. */
  predicate FirstUnknown(ingredients: Dict<string, int>, names: seq<string>, key: string) {
    exists k :: && 0 <= k < |names| && names[k] == key && key !in ingredients.entries
                && forall j :: 0 <= j < k ==> names[j] in ingredients.entries
  }

  /** `{ingredients[i] for i in names}`: fails with the first name that is not a key. */
  function Resolve(ingredients: Dict<string, int>, names: seq<string>): (r: Result<set<int>>)
    ensures r.Ok? <==> forall n :: n in names ==> n in ingredients.entries
    ensures r.Ok? ==> r.value == IdsOf(ingredients, names)
    ensures r.KeyError? ==> exists k :: 0 <= k < |names| && names[k] == r.key && r.key !in ingredients.entries
                               && forall j :: 0 <= j < k ==> names[j] in ingredients.entries
    decreases |names|
  {
    if names == [] then Ok({})
    else if names[0] !in ingredients.entries then
      assert names[0] == names[0];
      KeyError(names[0])
    else
      assert forall n :: n in names <==> n == names[0] || n in names[1..] by {
        assert names == [names[0]] + names[1..];
      }
      match Resolve(ingredients, names[1..])
      case Ok(ids) =>
        assert IdsOf(ingredients, names) == {ingredients.entries[names[0]]} + ids;
        Ok({ingredients.entries[names[0]]} + ids)
      case KeyError(key) =>
        ghost var k :| 0 <= k < |names[1..]| && names[1..][k] == key && key !in ingredients.entries
                       && forall j :: 0 <= j < k ==> names[1..][j] in ingredients.entries;
        assert names[k + 1] == key;
        assert forall j :: 0 <= j < k + 1 ==> names[j] in ingredients.entries by {
          forall j | 0 <= j < k + 1 ensures names[j] in ingredients.entries {
            if j > 0 { assert names[j] == names[1..][j - 1]; }
          }
        }
        KeyError(key)
  }

  /** Lines 83-86: the requested ids, from a bare name or from a list of names. */
  function RequestedIds(ingredients: Dict<string, int>, req: Request): (r: Result<set<int>>)
    ensures r.Ok? <==> forall n :: n in req.Names() ==> n in ingredients.entries
    ensures r.Ok? ==> r.value == IdsOf(ingredients, req.Names())
    ensures r.KeyError? ==> r.key in req.Names() && r.key !in ingredients.entries
    ensures r.KeyError? ==> FirstUnknown(ingredients, req.Names(), r.key)
  {
    match req
    case Single(n) =>
      if n in ingredients.entries then
        assert IdsOf(ingredients, [n]) == {ingredients.entries[n]};
        Ok({ingredients.entries[n]})
      else
        assert [n][0] == n;
        KeyError(n)
    case Several(ns) => Resolve(ingredients, ns)
  }

  /** The names of the products whose ingredient set contains every id of `ids`
      (`all(i in p["ingredients"] for i in ids)`), in product order. */
  function MatchingNames(ps: seq<Product>, ids: set<int>): (r: seq<string>)
    ensures IsSubseq(r, ProductNames(ps))
    ensures forall i :: 0 <= i < |ps| && ids <= ps[i].ingredients ==> ps[i].name in r
    ensures forall x :: x in r ==> exists i :: 0 <= i < |ps| && ps[i].name == x && ids <= ps[i].ingredients
    decreases |ps|
  {
    if ps == [] then []
    else
      var rest := MatchingNames(ps[1..], ids);
      assert ProductNames(ps)[1..] == ProductNames(ps[1..]);
      assert forall i :: 1 <= i < |ps| ==> ps[i] == ps[1..][i - 1];
      if ids <= ps[0].ingredients then
        assert ([ps[0].name] + rest)[1..] == rest;
        [ps[0].name] + rest
      else rest
  }

  /** `idx` lists, in increasing order, exactly the positions of `ps` whose product
      contains every id of `ids`. */
  ghost predicate MatchPositions(ps: seq<Product>, ids: set<int>, idx: seq<int>) {
    && (forall k :: 0 <= k < |idx| ==> 0 <= idx[k] < |ps|)
    && (forall k, l :: 0 <= k < l < |idx| ==> idx[k] < idx[l])
    && (forall i :: 0 <= i < |ps| ==> (i in idx <==> ids <= ps[i].ingredients))
  }

  /** The positions of the products of `ps` that contain every id of `ids`, in order. */
  ghost function Positions(ps: seq<Product>, ids: set<int>): seq<int>
    decreases |ps|
  {
    if ps == [] then []
    else (if ids <= ps[0].ingredients then [0] else []) + ShiftPositions(Positions(ps[1..], ids))
  }

  /** `r` holds the names of the products of `ps` at the positions `idx`. */
  ghost predicate NamesAt(ps: seq<Product>, idx: seq<int>, r: seq<string>) {
    |idx| == |r| && forall k :: 0 <= k < |idx| ==> 0 <= idx[k] < |ps| && r[k] == ps[idx[k]].name
  }

  /** The filter keeps, in product order, one name for each matching product: the result
      is the names at the increasing positions of exactly the matching products, so a name
      shared by several products occurs once per matching product. */
  lemma MatchingNamesByPosition(ps: seq<Product>, ids: set<int>)
    ensures exists idx :: MatchPositions(ps, ids, idx) && NamesAt(ps, idx, MatchingNames(ps, ids))
  {
    PositionsMatch(ps, ids);
    PositionsNames(ps, ids);
    var idx := Positions(ps, ids);
    assert MatchPositions(ps, ids, idx) && NamesAt(ps, idx, MatchingNames(ps, ids));
  }

  /** `Positions` holds exactly the matching positions, increasing. */
  lemma {:induction false} PositionsMatch(ps: seq<Product>, ids: set<int>)
    ensures MatchPositions(ps, ids, Positions(ps, ids))
    decreases |ps|
  {
    if ps != [] {
      var tail := Positions(ps[1..], ids);
      PositionsMatch(ps[1..], ids);
      ShiftedPositions(ps, ids, tail);
      var shifted := ShiftPositions(tail);
      if ids <= ps[0].ingredients {
        PrependZero(ps, ids, shifted);
        assert Positions(ps, ids) == [0] + shifted;
      } else {
        SkipZero(ps, ids, shifted);
        AppendEmpty(shifted, []);
        assert Positions(ps, ids) == shifted;
      }
    }
  }

  /** Without position 0 when the first product does not match. */
  lemma SkipZero(ps: seq<Product>, ids: set<int>, shifted: seq<int>)
    requires ps != [] && !(ids <= ps[0].ingredients)
    requires forall k :: 0 <= k < |shifted| ==> 1 <= shifted[k] < |ps|
    requires forall k, l :: 0 <= k < l < |shifted| ==> shifted[k] < shifted[l]
    requires 0 !in shifted
    requires forall i :: 1 <= i < |ps| ==> (i in shifted <==> ids <= ps[i].ingredients)
    ensures MatchPositions(ps, ids, shifted)
  {
  }

  /** Putting position 0 in front of the matching positions after the first. */
  lemma PrependZero(ps: seq<Product>, ids: set<int>, shifted: seq<int>)
    requires ps != [] && ids <= ps[0].ingredients
    requires forall k :: 0 <= k < |shifted| ==> 1 <= shifted[k] < |ps|
    requires forall k, l :: 0 <= k < l < |shifted| ==> shifted[k] < shifted[l]
    requires forall i :: 1 <= i < |ps| ==> (i in shifted <==> ids <= ps[i].ingredients)
    ensures MatchPositions(ps, ids, [0] + shifted)
  {
    var all := [0] + shifted;
    forall i | 0 <= i < |ps| ensures i in all <==> ids <= ps[i].ingredients {
      if i > 0 { assert i in all <==> i in shifted; }
    }
    forall k, l | 0 <= k < l < |all| ensures all[k] < all[l] {
      assert all[l] == shifted[l - 1];
      if k > 0 { assert all[k] == shifted[k - 1]; }
    }
  }

  /** The names at the positions of `Positions` are the filter's result. */
  lemma {:induction false} PositionsNames(ps: seq<Product>, ids: set<int>)
    ensures NamesAt(ps, Positions(ps, ids), MatchingNames(ps, ids))
    decreases |ps|
  {
    if ps != [] {
      var tail, r := Positions(ps[1..], ids), MatchingNames(ps[1..], ids);
      PositionsNames(ps[1..], ids);
      PrependNames(ps, tail, r);
      if ids <= ps[0].ingredients {
        assert MatchingNames(ps, ids) == [ps[0].name] + r;
        assert Positions(ps, ids) == [0] + ShiftPositions(tail);
      } else {
        assert MatchingNames(ps, ids) == r;
        assert Positions(ps, ids) == ShiftPositions(tail);
      }
    }
  }

  /** Names at positions of `ps[1..]` are the names at those positions moved up by one in
      `ps`, and the first product's name goes with position 0. */
  lemma PrependNames(ps: seq<Product>, tail: seq<int>, r: seq<string>)
    requires ps != [] && NamesAt(ps[1..], tail, r)
    ensures NamesAt(ps, ShiftPositions(tail), r)
    ensures NamesAt(ps, [0] + ShiftPositions(tail), [ps[0].name] + r)
  {
    var sh := ShiftPositions(tail);
    forall k | 0 <= k < |sh| ensures 0 <= sh[k] < |ps| && r[k] == ps[sh[k]].name {
      assert ps[1..][tail[k]] == ps[sh[k]];
    }
    var all, names := [0] + sh, [ps[0].name] + r;
    forall k | 0 <= k < |all| ensures 0 <= all[k] < |ps| && names[k] == ps[all[k]].name {
      if k > 0 { assert all[k] == sh[k - 1] && names[k] == r[k - 1]; }
    }
  }

  /** The matching positions of `ps[1..]`, moved up by one, are the matching positions of
      `ps` after the first. */
  lemma ShiftedPositions(ps: seq<Product>, ids: set<int>, idx: seq<int>)
    requires ps != [] && MatchPositions(ps[1..], ids, idx)
    ensures forall k :: 0 <= k < |idx| ==> 1 <= ShiftPositions(idx)[k] < |ps|
    ensures forall k, l :: 0 <= k < l < |idx| ==> ShiftPositions(idx)[k] < ShiftPositions(idx)[l]
    ensures 0 !in ShiftPositions(idx)
    ensures forall i :: 1 <= i < |ps| ==> (i in ShiftPositions(idx) <==> ids <= ps[i].ingredients)
  {
    var shifted := ShiftPositions(idx);
    forall i | 1 <= i < |ps| ensures i in shifted <==> ids <= ps[i].ingredients {
      assert ps[1..][i - 1] == ps[i];
      if i in shifted {
        var k :| 0 <= k < |shifted| && shifted[k] == i;
        assert idx[k] == i - 1;
      }
      if i - 1 in idx {
        var k :| 0 <= k < |idx| && idx[k] == i - 1;
        assert shifted[k] == i;
      }
    }
  }

  /** `search_product_with_ingredients`: resolves the requested names (raising `KeyError` for
      an unknown one) and returns, in product order, the names of the products that contain
      every requested ingredient. */
  function SearchProductWithIngredients(ingredients: Dict<string, int>, products: Dict<int, Product>, req: Request)
    : (r: Result<seq<string>>)
    requires products.Valid()
    ensures r.Ok? <==> forall n :: n in req.Names() ==> n in ingredients.entries
    ensures r.Ok? ==> r.value == MatchingNames(products.Values(), IdsOf(ingredients, req.Names()))
    ensures r.KeyError? ==> r.key in req.Names() && r.key !in ingredients.entries
    ensures r.KeyError? ==> FirstUnknown(ingredients, req.Names(), r.key)
  {
    match RequestedIds(ingredients, req)
    case KeyError(k) => KeyError(k)
    case Ok(ids) => Ok(MatchingNames(products.Values(), ids))
  }

  /** A request whose first name is unknown raises `KeyError` for that name. */
  lemma FirstUnknownRaises(ingredients: Dict<string, int>, products: Dict<int, Product>, names: seq<string>)
    requires products.Valid()
    requires names != [] && names[0] !in ingredients.entries
    ensures SearchProductWithIngredients(ingredients, products, Several(names)) == KeyError(names[0])
  {
    assert Resolve(ingredients, names) == KeyError(names[0]);
  }

  /** A bare name asks the same as the one-element list holding it. */
  lemma SingleIsSingletonList(ingredients: Dict<string, int>, products: Dict<int, Product>, name: string)
    requires products.Valid()
    ensures SearchProductWithIngredients(ingredients, products, Single(name))
         == SearchProductWithIngredients(ingredients, products, Several([name]))
  {
  }

  /** Requiring more ingredients can only drop products (AND semantics): the result for the
      larger id set is a subsequence of the result for the smaller one. */
  lemma {:induction false} MatchingNarrows(ps: seq<Product>, ids: set<int>, more: set<int>)
    requires ids <= more
    ensures IsSubseq(MatchingNames(ps, more), MatchingNames(ps, ids))
    decreases |ps|
  {
    if ps == [] {
    } else {
      MatchingNarrows(ps[1..], ids, more);
      var a, b := MatchingNames(ps[1..], more), MatchingNames(ps[1..], ids);
      if more <= ps[0].ingredients {
        assert ([ps[0].name] + a)[1..] == a && ([ps[0].name] + b)[1..] == b;
      } else if ids <= ps[0].ingredients {
        assert ([ps[0].name] + b)[1..] == b;
      }
    }
  }

  /** Adding requested names to a query whose names are all known yields a subsequence of
      the earlier answer. */
  lemma MoreNamesNarrow(ingredients: Dict<string, int>, products: Dict<int, Product>,
                        names: seq<string>, extra: seq<string>)
    requires products.Valid()
    requires forall n :: n in names + extra ==> n in ingredients.entries
    ensures SearchProductWithIngredients(ingredients, products, Several(names)).Ok?
    ensures SearchProductWithIngredients(ingredients, products, Several(names + extra)).Ok?
    ensures IsSubseq(SearchProductWithIngredients(ingredients, products, Several(names + extra)).value,
                     SearchProductWithIngredients(ingredients, products, Several(names)).value)
  {
    assert IdsOf(ingredients, names) <= IdsOf(ingredients, names + extra);
    MatchingNarrows(products.Values(), IdsOf(ingredients, names), IdsOf(ingredients, names + extra));
  }

  /** A worked example of the AND semantics: with A = {1, 2}, B = {1} and C = {2}, asking
      for both 1 and 2 finds only A. */
  lemma IntersectionExample()
    ensures MatchingNames([Product("A", {1, 2}), Product("B", {1}), Product("C", {2})], {1, 2}) == ["A"]
  {
    var ps := [Product("A", {1, 2}), Product("B", {1}), Product("C", {2})];
    assert 2 !in ps[1].ingredients;
    assert 1 !in ps[2].ingredients;
    assert ps[1..][1..] == [ps[2]];
  }
}
