/** The catalog loader: the record loops of `load_files`, over records that have already
    been read from the two JSON documents. */
module Loader {
  import opened Seqs
  import opened Dicts

  /** An element of the `ingredients` array of the ingredients document. */
  datatype IngredientRecord = IngredientRecord(name: string, id: int, isAllergen: bool)

  /** An element of the `products` array of the products document. */
  datatype ProductRecord = ProductRecord(id: int, name: string, collection: string, ingredientIds: seq<int>)

  /** The value stored per product id: `{"name": ..., "ingredients": set(...)}`. */
  datatype Product = Product(name: string, ingredients: set<int>)

  /** The four structures `load_files` returns. */
  datatype Catalog = Catalog(
    ingredients: Dict<string, int>,
    products: Dict<int, Product>,
    allergen: seq<int>,
    collection: Dict<string, int>)
  {
    ghost predicate Valid() {
      ingredients.Valid() && products.Valid() && collection.Valid()
    }
  }

  /** The assignments `ingredients[name] = id`, one per record, in record order. */
  function NameIdPairs(rs: seq<IngredientRecord>): (ps: seq<(string, int)>)
    ensures |ps| == |rs|
    ensures forall i :: 0 <= i < |rs| ==> ps[i] == (rs[i].name, rs[i].id)
  {
    seq(|rs|, i requires 0 <= i < |rs| => (rs[i].name, rs[i].id))
  }

  /** The ingredient ids in record order. */
  function IngredientIds(rs: seq<IngredientRecord>): (ids: seq<int>)
    ensures |ids| == |rs|
    ensures forall i :: 0 <= i < |rs| ==> ids[i] == rs[i].id
  {
    seq(|rs|, i requires 0 <= i < |rs| => rs[i].id)
  }

  /** The ids of the allergen records, in record order (the list `allergen`). */
  function AllergenIds(rs: seq<IngredientRecord>): (ids: seq<int>)
    ensures IsSubseq(ids, IngredientIds(rs))
    ensures forall x :: x in ids <==> exists i :: 0 <= i < |rs| && rs[i].isAllergen && rs[i].id == x
    decreases |rs|
  {
    if rs == [] then []
    else
      var rest := AllergenIds(rs[1..]);
      assert IngredientIds(rs)[1..] == IngredientIds(rs[1..]);
      assert forall i :: 1 <= i < |rs| ==> rs[i] == rs[1..][i - 1];
      if rs[0].isAllergen then
        assert ([rs[0].id] + rest)[1..] == rest;
        [rs[0].id] + rest
      else rest
  }

  /** Which records are allergens, position by position. */
  function AllergenMarks(rs: seq<IngredientRecord>): (m: seq<bool>)
    ensures |m| == |rs|
    ensures forall i :: 0 <= i < |rs| ==> m[i] == rs[i].isAllergen
  {
    seq(|rs|, i requires 0 <= i < |rs| => rs[i].isAllergen)
  }

  /** `ids` are the ids of the records at positions `idx`, in that order. */
  ghost predicate IdsAt(rs: seq<IngredientRecord>, idx: seq<int>, ids: seq<int>) {
    |idx| == |ids| && forall k :: 0 <= k < |idx| ==> 0 <= idx[k] < |rs| && ids[k] == rs[idx[k]].id
  }

  /** `allergen` holds one entry per allergen record, in record order: a repeated id
      appears once for each allergen record that carries it. */
  lemma AllergenIdsByPosition(rs: seq<IngredientRecord>)
    ensures exists idx :: && Increasing(idx, |rs|)
                          && (forall i :: 0 <= i < |rs| ==> (i in idx <==> rs[i].isAllergen))
                          && IdsAt(rs, idx, AllergenIds(rs))
  {
    var idx := TruePositions(AllergenMarks(rs));
    TruePositionsMarks(AllergenMarks(rs));
    AllergenIdsAt(rs);
    assert forall i :: 0 <= i < |rs| ==> (i in idx <==> rs[i].isAllergen);
  }

  /** The records at the marked positions carry exactly the ids of `allergen`. */
  lemma {:induction false} AllergenIdsAt(rs: seq<IngredientRecord>)
    ensures IdsAt(rs, TruePositions(AllergenMarks(rs)), AllergenIds(rs))
    decreases |rs|
  {
    if rs != [] {
      assert AllergenMarks(rs)[1..] == AllergenMarks(rs[1..]);
      var tail := TruePositions(AllergenMarks(rs[1..]));
      AllergenIdsAt(rs[1..]);
      PrependIds(rs, tail, AllergenIds(rs[1..]));
      if rs[0].isAllergen {
        assert TruePositions(AllergenMarks(rs)) == [0] + ShiftPositions(tail);
      } else {
        AppendEmpty(ShiftPositions(tail), []);
        assert TruePositions(AllergenMarks(rs)) == ShiftPositions(tail);
      }
    }
  }

  /** One step of `AllergenIdsAt`: the positions of the rest, moved up by one, with or
      without the first record in front. */
  lemma PrependIds(rs: seq<IngredientRecord>, tail: seq<int>, r: seq<int>)
    requires rs != [] && IdsAt(rs[1..], tail, r)
    ensures IdsAt(rs, ShiftPositions(tail), r)
    ensures IdsAt(rs, [0] + ShiftPositions(tail), [rs[0].id] + r)
  {
    var shifted := ShiftPositions(tail);
    forall k | 0 <= k < |shifted| ensures 0 <= shifted[k] < |rs| && r[k] == rs[shifted[k]].id {
      assert rs[1..][tail[k]] == rs[shifted[k]];
    }
    var all := [0] + shifted;
    forall k | 0 <= k < |all| ensures 0 <= all[k] < |rs| && ([rs[0].id] + r)[k] == rs[all[k]].id {
      if k > 0 { assert all[k] == shifted[k - 1] && ([rs[0].id] + r)[k] == r[k - 1]; }
    }
  }

  /** The value `products[id]` is set to for one record. */
  function ToProduct(r: ProductRecord): Product {
    Product(r.name, set x | x in r.ingredientIds)
  }

  /** The assignments `products[id] = {...}`, one per record, in record order. */
  function ProductPairs(rs: seq<ProductRecord>): (ps: seq<(int, Product)>)
    ensures |ps| == |rs|
    ensures forall i :: 0 <= i < |rs| ==> ps[i] == (rs[i].id, ToProduct(rs[i]))
  {
    seq(|rs|, i requires 0 <= i < |rs| => (rs[i].id, ToProduct(rs[i])))
  }

  /** The assignments `collection[collection] = id`, one per record, in record order. */
  function CollectionPairs(rs: seq<ProductRecord>): (ps: seq<(string, int)>)
    ensures |ps| == |rs|
    ensures forall i :: 0 <= i < |rs| ==> ps[i] == (rs[i].collection, rs[i].id)
  {
    seq(|rs|, i requires 0 <= i < |rs| => (rs[i].collection, rs[i].id))
  }

  /** `load_files`: the ingredient loop, then the product loop. `ingredients[n]` is the id
      of the last record named `n`, `allergen` lists the allergen ids in record order,
      `products[id]` holds the name and the ingredient-id set of the last record with that
      id, and `collection[c]` is the id of the last record of collection `c`; keys are in
      order of first insertion. */
  method LoadFiles(ingredientRecords: seq<IngredientRecord>, productRecords: seq<ProductRecord>)
    returns (c: Catalog)
    ensures c.Valid()
    ensures c.ingredients == FromPairs(NameIdPairs(ingredientRecords))
    ensures c.products == FromPairs(ProductPairs(productRecords))
    ensures c.collection == FromPairs(CollectionPairs(productRecords))
    ensures c.allergen == AllergenIds(ingredientRecords)
  {
    var ingredients, allergen := LoadIngredients(ingredientRecords);
    var products, collection := LoadProducts(productRecords);
    c := Catalog(ingredients, products, allergen, collection);
  }

  /** The ingredient loop of `load_files`. */
  method LoadIngredients(rs: seq<IngredientRecord>) returns (ingredients: Dict<string, int>, allergen: seq<int>)
    ensures ingredients == FromPairs(NameIdPairs(rs))
    ensures ingredients.keys == Dedup(Firsts(NameIdPairs(rs)))
    ensures forall n :: n in ingredients.entries <==> exists i :: 0 <= i < |rs| && rs[i].name == n
    ensures forall n :: n in ingredients.entries ==>
              ingredients.entries[n] == rs[LastIndex(Firsts(NameIdPairs(rs)), n)].id
    ensures allergen == AllergenIds(rs)
  {
    ghost var pairs := NameIdPairs(rs);
    ingredients := Empty();
    allergen := [];
    for i := 0 to |rs|
      invariant ingredients == FromPairs(pairs[..i])
      invariant allergen == AllergenIds(rs[..i])
    {
      var r := rs[i];
      FromPairsPrefix(pairs, i);
      ingredients := ingredients.Put(r.name, r.id);
      assert rs[..i + 1][..i] == rs[..i];
      AllergenIdsSnoc(rs[..i + 1]);
      if r.isAllergen {
        allergen := allergen + [r.id];
      }
    }
    assert pairs[..|rs|] == pairs;
    assert rs[..|rs|] == rs;
    LoadedIngredients(rs);
  }

  /** What the ingredient loop's dictionary holds: a key per record name, in order of first
      occurrence, each mapped to the id of the last record with that name. */
  lemma LoadedIngredients(rs: seq<IngredientRecord>)
    ensures FromPairs(NameIdPairs(rs)).keys == Dedup(Firsts(NameIdPairs(rs)))
    ensures forall n :: n in FromPairs(NameIdPairs(rs)).entries <==> exists i :: 0 <= i < |rs| && rs[i].name == n
    ensures forall n :: n in FromPairs(NameIdPairs(rs)).entries ==>
              FromPairs(NameIdPairs(rs)).entries[n] == rs[LastIndex(Firsts(NameIdPairs(rs)), n)].id
  {
    var pairs := NameIdPairs(rs);
    FromPairsSpec(pairs);
    forall n | n in Firsts(pairs) ensures exists i :: 0 <= i < |rs| && rs[i].name == n {
      var i :| 0 <= i < |pairs| && Firsts(pairs)[i] == n;
      assert rs[i].name == n;
    }
    forall n | (exists i :: 0 <= i < |rs| && rs[i].name == n) ensures n in Firsts(pairs) {
      var i :| 0 <= i < |rs| && rs[i].name == n;
      assert Firsts(pairs)[i] == n;
    }
  }

  /** The product loop of `load_files`. */
  method LoadProducts(rs: seq<ProductRecord>) returns (products: Dict<int, Product>, collection: Dict<string, int>)
    ensures products == FromPairs(ProductPairs(rs))
    ensures collection == FromPairs(CollectionPairs(rs))
    ensures products.keys == Dedup(Firsts(ProductPairs(rs)))
    ensures collection.keys == Dedup(Firsts(CollectionPairs(rs)))
    ensures forall id :: id in products.entries ==>
              products.entries[id] == ToProduct(rs[LastIndex(Firsts(ProductPairs(rs)), id)])
    ensures forall k :: k in collection.entries ==>
              collection.entries[k] == rs[LastIndex(Firsts(CollectionPairs(rs)), k)].id
  {
    ghost var productPairs := ProductPairs(rs);
    ghost var collectionPairs := CollectionPairs(rs);
    products := Empty();
    collection := Empty();
    for i := 0 to |rs|
      invariant products == FromPairs(productPairs[..i])
      invariant collection == FromPairs(collectionPairs[..i])
    {
      var p := rs[i];
      FromPairsPrefix(productPairs, i);
      FromPairsPrefix(collectionPairs, i);
      products := products.Put(p.id, ToProduct(p));
      collection := collection.Put(p.collection, p.id);
    }
    assert productPairs[..|rs|] == productPairs;
    assert collectionPairs[..|rs|] == collectionPairs;
    LoadedProducts(rs);
  }

  /** What the product loop's dictionaries hold: `products[id]` is built from the last
      record with that id and `collection[c]` is the id of the last record of collection
      `c`; keys in order of first occurrence. */
  lemma LoadedProducts(rs: seq<ProductRecord>)
    ensures FromPairs(ProductPairs(rs)).keys == Dedup(Firsts(ProductPairs(rs)))
    ensures FromPairs(CollectionPairs(rs)).keys == Dedup(Firsts(CollectionPairs(rs)))
    ensures forall id :: id in FromPairs(ProductPairs(rs)).entries ==>
              FromPairs(ProductPairs(rs)).entries[id] == ToProduct(rs[LastIndex(Firsts(ProductPairs(rs)), id)])
    ensures forall k :: k in FromPairs(CollectionPairs(rs)).entries ==>
              FromPairs(CollectionPairs(rs)).entries[k] == rs[LastIndex(Firsts(CollectionPairs(rs)), k)].id
  {
    FromPairsSpec(ProductPairs(rs));
    FromPairsSpec(CollectionPairs(rs));
  }

  /** Appending a record appends its id to the allergen list exactly when it is an allergen. */
  lemma {:induction false} AllergenIdsSnoc(rs: seq<IngredientRecord>)
    requires rs != []
    ensures AllergenIds(rs) == AllergenIds(rs[..|rs| - 1]) + (if rs[|rs| - 1].isAllergen then [rs[|rs| - 1].id] else [])
    decreases |rs|
  {
    if |rs| > 1 {
      AllergenIdsSnoc(rs[1..]);
      assert rs[1..][..|rs| - 2] == rs[..|rs| - 1][1..];
    }
  }

  /** With pairwise different ingredient names, listing the names of the loaded catalog
      yields one name per record, in record order. */
  lemma LoadedNamesOfDistinctRecords(rs: seq<IngredientRecord>)
    requires Distinct(Firsts(NameIdPairs(rs)))
    ensures FromPairs(NameIdPairs(rs)).keys == Firsts(NameIdPairs(rs))
    ensures |FromPairs(NameIdPairs(rs)).keys| == |rs|
  {
    FromPairsSpec(NameIdPairs(rs));
    DedupOfDistinct(Firsts(NameIdPairs(rs)));
  }
}
