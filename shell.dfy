/** The command handlers of the shell, reduced to the data they compute: the rows handed to
    the table renderer and the messages that distinguish the outcomes. */
module Shell {
  import opened Seqs
  import opened Dicts
  import opened Text
  import opened Grid
  import opened Loader
  import opened Queries

  // ---------------------------------------------------------------------------
  // Listing and searching commands

  /** `do_ingredients`: all ingredient names, five per row. */
  function IngredientsCommand(c: Catalog): (rows: seq<seq<string>>)
    requires c.Valid()
    ensures rows == GridRows(ListAllIngredients(c.ingredients))
    ensures Flatten(rows) == ListAllIngredients(c.ingredients)
    ensures forall k :: 0 <= k < |rows| - 1 ==> |rows[k]| == Width
  {
    GridRowsSpec(ListAllIngredients(c.ingredients));
    GridRows(ListAllIngredients(c.ingredients))
  }

  /** `do_products`: all product names, five per row. */
  function ProductsCommand(c: Catalog): (rows: seq<seq<string>>)
    requires c.Valid()
    ensures rows == GridRows(ListAllProducts(c.products))
    ensures Flatten(rows) == ListAllProducts(c.products)
    ensures forall k :: 0 <= k < |rows| - 1 ==> |rows[k]| == Width
  {
    GridRowsSpec(ListAllProducts(c.products));
    GridRows(ListAllProducts(c.products))
  }

  /** What `do_search_ingredients` and `do_search_products` show: a request for a hint when
      the argument is empty, the matching names in rows of five otherwise. */
  datatype SearchOutcome = NeedHints | Listing(rows: seq<seq<string>>)

  /** `do_search_ingredients`. */
  function SearchIngredientsCommand(c: Catalog, arg: string): (out: SearchOutcome)
    requires c.Valid()
    ensures out.NeedHints? <==> arg == ""
    ensures out.Listing? ==> out.rows == GridRows(Search(ListAllIngredients(c.ingredients), arg))
    ensures out.Listing? ==> Flatten(out.rows) == Search(ListAllIngredients(c.ingredients), arg)
  {
    if arg == "" then NeedHints
    else
      var found := Search(ListAllIngredients(c.ingredients), arg);
      GridRowsSpec(found);
      Listing(GridRows(found))
  }

  /** `do_search_products`. */
  function SearchProductsCommand(c: Catalog, arg: string): (out: SearchOutcome)
    requires c.Valid()
    ensures out.NeedHints? <==> arg == ""
    ensures out.Listing? ==> out.rows == GridRows(Search(ListAllProducts(c.products), arg))
    ensures out.Listing? ==> Flatten(out.rows) == Search(ListAllProducts(c.products), arg)
  {
    if arg == "" then NeedHints
    else
      var found := Search(ListAllProducts(c.products), arg);
      GridRowsSpec(found);
      Listing(GridRows(found))
  }

  // ---------------------------------------------------------------------------
  // search_with_ingredients

  /** `list(map(str.strip, arg.split(",")))`. */
  function SplitNames(arg: string): (names: seq<string>)
    ensures |names| == |Split(arg, ',')|
    ensures forall k :: 0 <= k < |names| ==> names[k] == Strip(Split(arg, ',')[k])
  {
    var parts := Split(arg, ',');
    seq(|parts|, k requires 0 <= k < |parts| => Strip(parts[k]))
  }

  /** Every name is free of commas and of surrounding whitespace. */
  lemma SplitNamesClean(arg: string)
    ensures |SplitNames(arg)| >= 1
    ensures forall k :: 0 <= k < |SplitNames(arg)| ==>
              ',' !in SplitNames(arg)[k] && Strip(SplitNames(arg)[k]) == SplitNames(arg)[k]
  {
    var parts, names := Split(arg, ','), SplitNames(arg);
    SplitSpec(arg, ',');
    forall k | 0 <= k < |names| ensures ',' !in names[k] && Strip(names[k]) == names[k] {
      StripIdempotent(parts[k]);
      StripSpec(parts[k]);
      var pre, post :| AllSpace(pre) && AllSpace(post) && parts[k] == pre + Strip(parts[k]) + post;
      assert forall x :: x in Strip(parts[k]) ==> x in parts[k];
    }
  }

  /** Two names without commas and without surrounding whitespace, joined by a comma, split
      back into those two names. */
  lemma SplitTwoNames(a: string, b: string)
    requires ',' !in a && ',' !in b
    requires Strip(a) == a && Strip(b) == b
    ensures SplitNames(a + "," + b) == [a, b]
  {
    SplitAtComma(a, b);
  }

  /** The comma between two comma-free names is the only place `split` cuts. */
  lemma SplitAtComma(a: string, b: string)
    requires ',' !in a && ',' !in b
    ensures Split(a + "," + b, ',') == [a, b]
  {
    PairSlices(a, b);
    SplitUnique(a + "," + b, ',', [a, b]);
  }

  /** The result of the `for i in ing: ... ing.remove(i)` loop: the list that is left and
      the names reported as not found, in the order they were reported. */
  datatype Swept = Swept(kept: seq<string>, reported: seq<string>)

  /** The loop from the iterator position `next` on. Python's list iterator reads `ing[next]`
      and advances, whatever the loop body does to the list; `ing.remove(i)` deletes the
      first element equal to `i`. */
  function Sweep(known: set<string>, ing: seq<string>, next: nat): Swept
    decreases |ing| - next
  {
    if next >= |ing| then Swept(ing, [])
    else if ing[next] in known then Sweep(known, ing, next + 1)
    else
      var rest := Sweep(known, RemoveFirst(ing, ing[next]), next + 1);
      Swept(rest.kept, [ing[next]] + rest.reported)
  }

  /** The loop only ever removes names, and reports each one it removes: what is left is a
      subsequence of the list, with every known name still there as often as before; every
      reported name is an unknown name of the list; and the names left and the names reported
      together are the list. */
  lemma SweepSpec(known: set<string>, ing: seq<string>, next: nat)
    ensures IsSubseq(Sweep(known, ing, next).kept, ing)
    ensures forall x :: x in known ==> multiset(Sweep(known, ing, next).kept)[x] == multiset(ing)[x]
    ensures forall x :: x in Sweep(known, ing, next).reported ==> x in ing && x !in known
    ensures multiset(ing) == multiset(Sweep(known, ing, next).kept) + multiset(Sweep(known, ing, next).reported)
  {
    SweepRemovesOnly(known, ing, next);
    SweepAccounts(known, ing, next);
  }

  /** The loop only ever removes unknown names: what is left is a subsequence of the list,
      with every known name still there as often as before, and every reported name is an
      unknown name of the list. */
  lemma {:induction false} SweepRemovesOnly(known: set<string>, ing: seq<string>, next: nat)
    ensures IsSubseq(Sweep(known, ing, next).kept, ing)
    ensures forall x :: x in known ==> multiset(Sweep(known, ing, next).kept)[x] == multiset(ing)[x]
    ensures forall x :: x in Sweep(known, ing, next).reported ==> x in ing && x !in known
    decreases |ing| - next
  {
    if next >= |ing| {
      SubseqRefl(ing);
    } else if ing[next] in known {
      SweepRemovesOnly(known, ing, next + 1);
    } else {
      var u := ing[next];
      var smaller := RemoveFirst(ing, u);
      RemoveFirstSpec(ing, u);
      SweepRemovesOnly(known, smaller, next + 1);
      var rest := Sweep(known, smaller, next + 1);
      assert Sweep(known, ing, next) == Swept(rest.kept, [u] + rest.reported);
      SubseqTrans(rest.kept, smaller, ing);
      SubseqMembers(smaller, ing);
      forall x | x in known ensures multiset(rest.kept)[x] == multiset(ing)[x] {
        assert multiset(smaller)[x] == multiset(ing)[x];
      }
      forall x | x in [u] + rest.reported ensures x in ing && x !in known {
        if x != u {
          assert x in rest.reported;
        }
      }
    }
  }

  /** Every name the loop removes is reported: the names left and the names reported together
      are the list, each as often as it occurs there. */
  lemma {:induction false} SweepAccounts(known: set<string>, ing: seq<string>, next: nat)
    ensures multiset(ing) == multiset(Sweep(known, ing, next).kept) + multiset(Sweep(known, ing, next).reported)
    decreases |ing| - next
  {
    if next < |ing| {
      if ing[next] in known {
        SweepAccounts(known, ing, next + 1);
      } else {
        var u := ing[next];
        var smaller := RemoveFirst(ing, u);
        RemoveFirstSpec(ing, u);
        SweepAccounts(known, smaller, next + 1);
        var rest := Sweep(known, smaller, next + 1);
        assert Sweep(known, ing, next) == Swept(rest.kept, [u] + rest.reported);
        RemovedAccounted(ing, smaller, u, rest.kept, rest.reported);
      }
    }
  }

  /** The loop of `do_search_with_ingredients` (lines 137-141), on the list value: walks the
      list by position, and for every name it reaches that is not an ingredient reports it and
      removes it from the list. */
  method DropUnknown(known: set<string>, names: seq<string>) returns (ing: seq<string>, reported: seq<string>)
    ensures Swept(ing, reported) == Sweep(known, names, 0)
  {
    ing, reported := names, [];
    var next := 0;
    while next < |ing|
      invariant Sweep(known, names, 0).kept == Sweep(known, ing, next).kept
      invariant Sweep(known, names, 0).reported == reported + Sweep(known, ing, next).reported
      decreases |ing| - next
    {
      var i := ing[next];
      next := next + 1;
      if i !in known {
        ghost var tail := Sweep(known, RemoveFirst(ing, i), next).reported;
        assert reported + ([i] + tail) == (reported + [i]) + tail;
        reported := reported + [i];
        ing := RemoveFirst(ing, i);
      }
    }
  }

  /** The names a filter that really dropped every unknown name would keep. */
  function KnownOnly(known: set<string>, names: seq<string>): (r: seq<string>)
    ensures IsSubseq(r, names)
    ensures forall x :: x in r ==> x in known
    ensures forall x :: x in known ==> multiset(r)[x] == multiset(names)[x]
    decreases |names|
  {
    if names == [] then []
    else
      var rest := KnownOnly(known, names[1..]);
      assert names == [names[0]] + names[1..];
      if names[0] in known then
        assert ([names[0]] + rest)[1..] == rest;
        [names[0]] + rest
      else rest
  }

  /** The names such a filter would drop, in order. */
  function UnknownOnly(known: set<string>, names: seq<string>): (r: seq<string>)
    ensures IsSubseq(r, names)
    ensures forall x :: x in r ==> x !in known
    ensures forall x :: x !in known ==> multiset(r)[x] == multiset(names)[x]
    decreases |names|
  {
    if names == [] then []
    else
      var rest := UnknownOnly(known, names[1..]);
      assert names == [names[0]] + names[1..];
      if names[0] !in known then
        assert ([names[0]] + rest)[1..] == rest;
        [names[0]] + rest
      else rest
  }

  /** No two neighbouring names are both unknown. */
  predicate NoAdjacentUnknown(known: set<string>, names: seq<string>) {
    forall i :: 0 <= i < |names| - 1 ==> names[i] in known || names[i + 1] in known
  }

  /** When no two unknown names are neighbours, the loop does what it was meant to do: it
      keeps exactly the known names and reports exactly the unknown ones. */
  lemma SweepWithoutAdjacentUnknowns(known: set<string>, names: seq<string>)
    requires NoAdjacentUnknown(known, names)
    ensures Sweep(known, names, 0) == Swept(KnownOnly(known, names), UnknownOnly(known, names))
  {
    SweepAfterKnownPrefix(known, [], names);
    AppendEmpty(names, []);
  }

  /** The loop once it has walked over a prefix of known names it kept. */
  lemma {:induction false} SweepAfterKnownPrefix(known: set<string>, done: seq<string>, rest: seq<string>)
    requires forall x :: x in done ==> x in known
    requires NoAdjacentUnknown(known, rest)
    ensures Sweep(known, done + rest, |done|) == Swept(done + KnownOnly(known, rest), UnknownOnly(known, rest))
    decreases |rest|, 1
  {
    if rest == [] {
      AppendEmpty(done, rest);
    } else if rest[0] in known {
      SweepAfterKnownName(known, done, rest);
    } else {
      SweepAfterUnknownName(known, done, rest);
    }
  }

  /** The case of `SweepAfterKnownPrefix` where a known name is next. */
  lemma {:induction false} SweepAfterKnownName(known: set<string>, done: seq<string>, rest: seq<string>)
    requires forall x :: x in done ==> x in known
    requires NoAdjacentUnknown(known, rest)
    requires rest != [] && rest[0] in known
    ensures Sweep(known, done + rest, |done|) == Swept(done + KnownOnly(known, rest), UnknownOnly(known, rest))
    decreases |rest|, 0
  {
    var r0 := rest[0];
    SweepKnownStep(known, done, rest);
    NoAdjacentSuffix(known, rest, 1);
    SweepAfterKnownPrefix(known, done + [r0], rest[1..]);
    Reassociate(done, [r0], KnownOnly(known, rest[1..]));
  }

  /** The case of `SweepAfterKnownPrefix` where an unknown name is next; the name after it,
      if any, is known. */
  lemma {:induction false} SweepAfterUnknownName(known: set<string>, done: seq<string>, rest: seq<string>)
    requires forall x :: x in done ==> x in known
    requires NoAdjacentUnknown(known, rest)
    requires rest != [] && rest[0] !in known
    ensures Sweep(known, done + rest, |done|) == Swept(done + KnownOnly(known, rest), UnknownOnly(known, rest))
    decreases |rest|, 0
  {
    SweepUnknownStep(known, done, rest);
    if |rest| == 1 {
      AppendEmpty(done, rest[1..]);
    } else {
      var tail := rest[1..];
      ShiftOne(done, tail);
      SliceOfSlice(rest, 1, 1);
      NoAdjacentSuffix(known, rest, 2);
      SweepAfterKnownPrefix(known, done + [tail[0]], rest[2..]);
      Reassociate(done, [tail[0]], KnownOnly(known, rest[2..]));
    }
  }

  /** Dropping names from the front keeps unknown names apart. */
  lemma NoAdjacentSuffix(known: set<string>, names: seq<string>, n: nat)
    requires n <= |names| && NoAdjacentUnknown(known, names)
    ensures NoAdjacentUnknown(known, names[n..])
  {
    forall i | 0 <= i < |names[n..]| - 1 ensures names[n..][i] in known || names[n..][i + 1] in known {
      assert names[n..][i] == names[i + n] && names[n..][i + 1] == names[i + n + 1];
    }
  }

  /** A known name under the iterator is stepped over and stays. */
  lemma SweepKnownStep(known: set<string>, done: seq<string>, rest: seq<string>)
    requires rest != [] && rest[0] in known
    ensures Sweep(known, done + rest, |done|) == Sweep(known, (done + [rest[0]]) + rest[1..], |done| + 1)
  {
    ShiftOne(done, rest);
  }

  /** An unknown name under the iterator, after a prefix of known names, is reported and
      removed; the iterator moves on to the position after it. */
  lemma SweepUnknownStep(known: set<string>, done: seq<string>, rest: seq<string>)
    requires forall x :: x in done ==> x in known
    requires rest != [] && rest[0] !in known
    ensures Sweep(known, done + rest, |done|)
         == Swept(Sweep(known, done + rest[1..], |done| + 1).kept,
                  [rest[0]] + Sweep(known, done + rest[1..], |done| + 1).reported)
  {
    assert rest[0] !in done;
    RemoveFirstAfter(done, rest);
    assert (done + rest)[|done|] == rest[0];
  }

  /** The bug: two neighbouring unknown names. The first is reported and removed, which
      moves the second onto the position the iterator has just passed; it is never examined
      and stays in the list, and the ingredient query then raises `KeyError` for it. */
  lemma AdjacentUnknownSurvives(c: Catalog, a: string, b: string)
    requires c.Valid()
    requires ',' !in a && ',' !in b && Strip(a) == a && Strip(b) == b
    requires a !in c.ingredients.entries && b !in c.ingredients.entries
    ensures SplitNames(a + "," + b) == [a, b]
    ensures Sweep(c.ingredients.entries.Keys, [a, b], 0) == Swept([b], [a])
    ensures SearchProductWithIngredients(c.ingredients, c.products, Several([b])) == KeyError(b)
    ensures KnownOnly(c.ingredients.entries.Keys, [a, b]) == []
    ensures FilterOutcomeOf(c, a + "," + b) == Unresolved(Notices(c, [a]), [b], b)
  {
    SplitTwoNames(a, b);
    var known := c.ingredients.entries.Keys;
    PairSlices(a, b);
    AppendEmpty([a, b], []);
    AppendEmpty([b], []);
    AppendEmpty([a], []);
    SweepUnknownStep(known, [], [a, b]);
    assert Sweep(known, [b], 1) == Swept([b], []);
    assert KnownOnly(known, [b]) == [] by {
      PairSlices(b, b);
    }
    FirstUnknownRaises(c.ingredients, c.products, [b]);
    assert (a + "," + b)[|a|] == ',';
  }

  /** A known name followed by an unknown one: the unknown one is reported and dropped. */
  lemma KnownThenUnknown(known: set<string>, k: string, u: string)
    requires k in known && u !in known
    ensures Sweep(known, [k, u], 0) == Swept([k], [u])
  {
    PairSlices(k, u);
    SweepWithoutAdjacentUnknowns(known, [k, u]);
  }

  /** The report for one name that is not an ingredient: the not-found message and the
      ingredient search run on that name as a suggestion. */
  datatype Notice = Notice(name: string, suggestions: SearchOutcome)

  function Notices(c: Catalog, reported: seq<string>): (ns: seq<Notice>)
    requires c.Valid()
    ensures |ns| == |reported|
    ensures forall k :: 0 <= k < |reported| ==> ns[k] == Notice(reported[k], SearchIngredientsCommand(c, reported[k]))
  {
    seq(|reported|, k requires 0 <= k < |reported| => Notice(reported[k], SearchIngredientsCommand(c, reported[k])))
  }

  /** What `do_search_with_ingredients` ends with. `Unresolved` is the `KeyError` that escapes
      from the query when an unknown name survived the loop. */
  datatype FilterOutcome =
    | NeedIngredients
    | NoProduct(notices: seq<Notice>)
    | Unresolved(notices: seq<Notice>, searched: seq<string>, missing: string)
    | Products(notices: seq<Notice>, searched: seq<string>, rows: seq<seq<string>>)

  /** What `do_search_with_ingredients` computes, with the loop described by `Sweep`. */
  function FilterOutcomeOf(c: Catalog, arg: string): FilterOutcome
    requires c.Valid()
  {
    if arg == "" then NeedIngredients
    else AfterSweep(c, Sweep(c.ingredients.entries.Keys, SplitNames(arg), 0))
  }

  /** Lines 142-150: what follows the loop, given the names it kept and reported. */
  function AfterSweep(c: Catalog, s: Swept): (out: FilterOutcome)
    requires c.Valid()
    ensures !out.NeedIngredients? && out.notices == Notices(c, s.reported)
    ensures out.NoProduct? <==> s.kept == []
    ensures out.Products? ==>
              && out.searched == s.kept
              && out.rows == GridRows(MatchingNames(c.products.Values(), IdsOf(c.ingredients, s.kept)))
              && Flatten(out.rows) == MatchingNames(c.products.Values(), IdsOf(c.ingredients, s.kept))
    ensures out.Products? ==> forall n :: n in s.kept ==> n in c.ingredients.entries
    ensures out.Unresolved? <==> s.kept != [] && exists n :: n in s.kept && n !in c.ingredients.entries
    ensures out.Unresolved? ==> out.missing in s.kept && out.missing !in c.ingredients.entries
    ensures out.Unresolved? ==> out.searched == s.kept && FirstUnknown(c.ingredients, s.kept, out.missing)
  {
    var notices := Notices(c, s.reported);
    if s.kept == [] then NoProduct(notices)
    else match SearchProductWithIngredients(c.ingredients, c.products, Several(s.kept))
      case Ok(prods) =>
        GridRowsSpec(prods);
        Products(notices, s.kept, GridRows(prods))
      case KeyError(k) => Unresolved(notices, s.kept, k)
  }

  /** `do_search_with_ingredients`: splits the argument at commas, runs the loop that drops
      the unknown names, and queries the products with the names that are left. */
  method SearchWithIngredients(c: Catalog, arg: string) returns (out: FilterOutcome)
    requires c.Valid()
    ensures out == FilterOutcomeOf(c, arg)
  {
    if arg == "" {
      return NeedIngredients;
    }
    var names := SplitNames(arg);
    var ing, reported := DropUnknown(c.ingredients.entries.Keys, names);
    var notices := Notices(c, reported);
    if ing == [] {
      return NoProduct(notices);
    }
    var prod := SearchProductWithIngredients(c.ingredients, c.products, Several(ing));
    match prod {
      case Ok(p) => out := Products(notices, ing, GridRows(p));
      case KeyError(k) => out := Unresolved(notices, ing, k);
    }
  }

  /** The outcome of the command for the list `names` the argument splits into. Every name
      reported as not found is an unknown name of the list, and the names reported and the
      names searched together are the list, each as often as it occurs there. "No product"
      comes only when the list has no known name, and then every name is reported. Otherwise
      a non-empty subsequence of the list is searched, holding every known name as often as
      the list does: when all its names are known, the rows are the products containing all
      of them; otherwise the query's `KeyError` escapes, naming the first unknown one. */
  predicate OutcomeForNames(c: Catalog, names: seq<string>, out: FilterOutcome)
    requires c.Valid()
  {
    && !out.NeedIngredients?
    && (forall n :: n in ReportedNames(out) ==> n in names && n !in c.ingredients.entries)
    && (out.NoProduct? ==> forall n :: n in names ==> n !in c.ingredients.entries)
    && (out.NoProduct? ==> multiset(ReportedNames(out)) == multiset(names))
    && (out.Products? ==>
          && out.searched != [] && IsSubseq(out.searched, names)
          && multiset(names) == multiset(out.searched) + multiset(ReportedNames(out))
          && (forall n :: n in out.searched ==> n in c.ingredients.entries)
          && (forall x :: x in c.ingredients.entries ==> multiset(out.searched)[x] == multiset(names)[x])
          && out.rows == GridRows(MatchingNames(c.products.Values(), IdsOf(c.ingredients, out.searched)))
          && Flatten(out.rows) == MatchingNames(c.products.Values(), IdsOf(c.ingredients, out.searched)))
    && (out.Unresolved? ==> out.missing in names && out.missing !in c.ingredients.entries)
    && (out.Unresolved? ==>
          && out.searched != [] && IsSubseq(out.searched, names)
          && multiset(names) == multiset(out.searched) + multiset(ReportedNames(out))
          && FirstUnknown(c.ingredients, out.searched, out.missing))
  }

  /** An empty argument asks for ingredients, and any other argument gives an outcome for
      the names it splits into. */
  lemma FilterOutcomeSpec(c: Catalog, arg: string)
    requires c.Valid()
    ensures FilterOutcomeOf(c, arg) == NeedIngredients <==> arg == ""
    ensures arg != "" ==> OutcomeForNames(c, SplitNames(arg), FilterOutcomeOf(c, arg))
  {
    if arg != "" {
      var names := SplitNames(arg);
      var s := Sweep(c.ingredients.entries.Keys, names, 0);
      SweepSpec(c.ingredients.entries.Keys, names, 0);
      assert forall x :: x in c.ingredients.entries ==> x in c.ingredients.entries.Keys;
      AfterSweepOfNames(c, names, s);
      assert FilterOutcomeOf(c, arg) == AfterSweep(c, s);
    }
  }

  /** What follows the loop, for a loop result that only removed names of `names` and reported
      unknown ones. */
  lemma AfterSweepOfNames(c: Catalog, names: seq<string>, s: Swept)
    requires c.Valid()
    requires IsSubseq(s.kept, names)
    requires forall x :: x in s.reported ==> x in names && x !in c.ingredients.entries
    requires forall x :: x in c.ingredients.entries ==> multiset(s.kept)[x] == multiset(names)[x]
    requires multiset(names) == multiset(s.kept) + multiset(s.reported)
    ensures OutcomeForNames(c, names, AfterSweep(c, s))
  {
    SubseqMembers(s.kept, names);
    if s.kept == [] {
      forall n | n in names ensures n !in c.ingredients.entries {
        assert multiset(names)[n] > 0 && multiset(s.kept)[n] == 0;
      }
    }
    assert ReportedNames(AfterSweep(c, s)) == s.reported;
  }

  /** The names a filter outcome reports as not found. */
  function ReportedNames(out: FilterOutcome): (ns: seq<string>)
    requires !out.NeedIngredients?
    ensures |ns| == |out.notices|
    ensures forall k :: 0 <= k < |ns| ==> ns[k] == out.notices[k].name
  {
    seq(|out.notices|, k requires 0 <= k < |out.notices| => out.notices[k].name)
  }

  /** The evidently intended loop: every unknown name is reported and dropped. */
  function IntendedSweep(known: set<string>, names: seq<string>): Swept {
    Swept(KnownOnly(known, names), UnknownOnly(known, names))
  }

  /** `do_search_with_ingredients` with the intended loop. */
  function IntendedFilterOutcome(c: Catalog, arg: string): FilterOutcome
    requires c.Valid()
  {
    if arg == "" then NeedIngredients
    else AfterSweep(c, IntendedSweep(c.ingredients.entries.Keys, SplitNames(arg)))
  }

  /** With the intended loop the query never raises `KeyError`: every unknown name is
      reported, in order, and exactly the known names are searched. */
  lemma IntendedFilterSpec(c: Catalog, arg: string)
    requires c.Valid()
    ensures !IntendedFilterOutcome(c, arg).Unresolved?
    ensures arg != "" ==>
              ReportedNames(IntendedFilterOutcome(c, arg)) == UnknownOnly(c.ingredients.entries.Keys, SplitNames(arg))
    ensures IntendedFilterOutcome(c, arg).Products? ==>
              IntendedFilterOutcome(c, arg).searched == KnownOnly(c.ingredients.entries.Keys, SplitNames(arg))
  {
    if arg != "" {
      var s := IntendedSweep(c.ingredients.entries.Keys, SplitNames(arg));
      var out := AfterSweep(c, s);
      assert ReportedNames(out) == s.reported;
      assert forall x :: x in s.kept ==> x in c.ingredients.entries;
    }
  }

  /** As long as no two unknown names are neighbours, the command as written behaves as
      intended. */
  lemma FilterAsIntendedWithoutAdjacentUnknowns(c: Catalog, arg: string)
    requires c.Valid()
    requires NoAdjacentUnknown(c.ingredients.entries.Keys, SplitNames(arg))
    ensures FilterOutcomeOf(c, arg) == IntendedFilterOutcome(c, arg)
  {
    SweepWithoutAdjacentUnknowns(c.ingredients.entries.Keys, SplitNames(arg));
  }

  // ---------------------------------------------------------------------------
  // show_product_ingredients

  /** `map(reversed, ingredients.items())`: the (id, name) pairs in key order. */
  function ReversedItems(ingredients: Dict<string, int>): (ps: seq<(int, string)>)
    requires ingredients.Valid()
    ensures |ps| == |ingredients.keys|
    ensures forall i :: 0 <= i < |ps| ==> ps[i] == (ingredients.entries[ingredients.keys[i]], ingredients.keys[i])
  {
    seq(|ingredients.keys|, i requires 0 <= i < |ingredients.keys| =>
      (ingredients.entries[ingredients.keys[i]], ingredients.keys[i]))
  }

  /** `dict(map(reversed, ingredients.items()))`: id to name; for an id shared by several
      names the last of them in key order wins. */
  function Invert(ingredients: Dict<string, int>): (rev: Dict<int, string>)
    requires ingredients.Valid()
    ensures rev.Valid()
  {
    FromPairs(ReversedItems(ingredients))
  }

  /** The inverse dictionary has an entry exactly for every id some name maps to, and maps
      it back to a name that maps to it. */
  lemma InvertSpec(ingredients: Dict<string, int>)
    requires ingredients.Valid()
    ensures forall id :: id in Invert(ingredients).entries <==> id in ingredients.entries.Values
    ensures forall id :: id in Invert(ingredients).entries ==>
              Invert(ingredients).entries[id] in ingredients.entries
              && ingredients.entries[Invert(ingredients).entries[id]] == id
    ensures forall id :: id in Invert(ingredients).entries ==>
              Invert(ingredients).entries[id]
                == ReversedItems(ingredients)[LastIndex(Firsts(ReversedItems(ingredients)), id)].1
  {
    var ks := ingredients.keys;
    var ps := ReversedItems(ingredients);
    FromPairsSpec(ps);
    forall id | id in ingredients.entries.Values ensures id in Firsts(ps) {
      var n :| n in ingredients.entries && ingredients.entries[n] == id;
      var i :| 0 <= i < |ks| && ks[i] == n;
      assert Firsts(ps)[i] == id;
    }
    forall id | id in Firsts(ps)
      ensures id in ingredients.entries.Values
      ensures ps[LastIndex(Firsts(ps), id)].1 in ingredients.entries
      ensures ingredients.entries[ps[LastIndex(Firsts(ps), id)].1] == id
    {
      var j := LastIndex(Firsts(ps), id);
      assert ps[j] == (ingredients.entries[ks[j]], ks[j]);
    }
  }

  /** How Python compares the values involved: an `int` never equals a `str`. */
  datatype PyValue = PyInt(n: int) | PyStr(s: string)

  /** The list `allergen` as Python values. */
  function PyInts(xs: seq<int>): (vs: seq<PyValue>)
    ensures |vs| == |xs|
    ensures forall k :: 0 <= k < |xs| ==> vs[k] == PyInt(xs[k])
  {
    seq(|xs|, k requires 0 <= k < |xs| => PyInt(xs[k]))
  }

  /** Line 171 as written: `ingredients_rev[ing] in allergen` asks whether the ingredient's
      NAME is among the allergen IDS; no string equals an integer, so the flag is always "No". */
  function AllergenFlagAsWritten(name: string, allergen: seq<int>): (flag: string)
    ensures flag == "No"
  {
    if PyStr(name) in PyInts(allergen) then "Yes" else "No"
  }

  /** The intended flag: "Yes" exactly when the ingredient's id is an allergen id. */
  function AllergenFlag(id: int, allergen: seq<int>): (flag: string)
    ensures flag == "Yes" <==> id in allergen
    ensures flag == "No" <==> id !in allergen
  {
    if id in allergen then "Yes" else "No"
  }

  /** The flag as written agrees with the intended one exactly for the ingredients that are
      not allergens: every allergen is shown as "No". */
  lemma FlagAsWrittenMissesAllergens(name: string, id: int, allergen: seq<int>)
    ensures AllergenFlagAsWritten(name, allergen) == AllergenFlag(id, allergen) <==> id !in allergen
  {
  }

  /** A table row: product column, ingredient column, allergen column. */
  datatype Row = Row(product: string, ingredient: string, allergen: string)

  /** The row line 171 appends for ingredient id `id`. */
  function IngredientRow(rev: Dict<int, string>, allergen: seq<int>, id: int): Row
    requires id in rev.entries
  {
    Row("-", rev.entries[id], AllergenFlagAsWritten(rev.entries[id], allergen))
  }

  /** The row with the intended allergen flag. */
  function IntendedIngredientRow(rev: Dict<int, string>, allergen: seq<int>, id: int): (r: Row)
    requires id in rev.entries
    ensures r.allergen == "Yes" <==> id in allergen
  {
    Row("-", rev.entries[id], AllergenFlag(id, allergen))
  }

  /** The row as written is the intended row exactly for the ids that are not allergens. */
  lemma RowAsWrittenMissesAllergens(rev: Dict<int, string>, allergen: seq<int>, id: int)
    requires id in rev.entries
    ensures IngredientRow(rev, allergen, id) == IntendedIngredientRow(rev, allergen, id) <==> id !in allergen
  {
    FlagAsWrittenMissesAllergens(rev.entries[id], id, allergen);
  }

  /** What `do_show_product_ingredients` ends with. `DanglingId` is the `KeyError` raised
      when the product lists an id that no ingredient name maps to. */
  datatype ShowOutcome =
    | NeedProduct
    | ProductNotFound(similar: SearchOutcome)
    | DanglingId(id: int)
    | Table(rows: seq<Row>)

  /** Lines 164-167: the first product, in product order, with the given name. */
  method FindProduct(ps: seq<Product>, name: string) returns (k: nat)
    requires name in ProductNames(ps)
    ensures k < |ps| && ps[k].name == name
    ensures forall j :: 0 <= j < k ==> ps[j].name != name
  {
    k := 0;
    while ps[k].name != name
      invariant k < |ps|
      invariant name in ProductNames(ps)[k..]
      invariant forall j :: 0 <= j < k ==> ps[j].name != name
      decreases |ps| - k
    {
      assert ProductNames(ps)[k..] == [ps[k].name] + ProductNames(ps)[k + 1..];
      k := k + 1;
    }
  }

  /** `do_show_product_ingredients`. The product's ingredient ids are visited in the
      unspecified order of Python's set iteration, recorded in `order`; `index` is the
      position of the product that was picked. */
  method ShowProductIngredients(c: Catalog, arg: string) returns (out: ShowOutcome, ghost index: nat, ghost order: seq<int>)
    requires c.Valid()
    ensures arg == "" <==> out == NeedProduct
    ensures arg != "" && Strip(arg) !in ListAllProducts(c.products) ==>
              out == ProductNotFound(SearchProductsCommand(c, arg))
    ensures arg != "" && Strip(arg) in ListAllProducts(c.products) ==>
              && index < |c.products.keys|
              && c.products.Values()[index].name == Strip(arg)
              && (forall j :: 0 <= j < index ==> c.products.Values()[j].name != Strip(arg))
              && ShowsIngredients(out, Strip(arg), c.products.Values()[index].ingredients,
                                  Invert(c.ingredients), c.allergen, order)
  {
    index, order := 0, [];
    if arg == "" {
      return NeedProduct, index, order;
    }
    var p := Strip(arg);
    if p !in ListAllProducts(c.products) {
      return ProductNotFound(SearchProductsCommand(c, arg)), index, order;
    }
    var values := c.products.Values();
    var k := FindProduct(values, p);
    index := k;
    out, order := IngredientTable(p, values[k].ingredients, Invert(c.ingredients), c.allergen);
  }

  /** The table of a product, or the id that `ingredients_rev` has no entry for: the header
      row, then one row per ingredient id, in the order `order` the ids were visited. */
  ghost predicate ShowsIngredients(out: ShowOutcome, name: string, ids: set<int>, rev: Dict<int, string>,
                                   allergen: seq<int>, order: seq<int>)
  {
    && (out.Table? || out.DanglingId?)
    && (out.DanglingId? ==> out.id in ids && out.id !in rev.entries)
    && (out.Table? ==>
          && (forall id :: id in ids ==> id in rev.entries)
          && Distinct(order) && (forall id :: id in order <==> id in ids)
          && |order| == |ids|
          && |out.rows| == |order| + 1
          && out.rows[0] == Row(name, "-", "-")
          && forall j :: 0 <= j < |order| ==> out.rows[j + 1] == IngredientRow(rev, allergen, order[j]))
  }

  /** In a table as shown, an ingredient row carries the intended allergen flag exactly
      when its id is not an allergen: every allergen of the product is shown as "No". */
  lemma TableMissesAllergens(out: ShowOutcome, name: string, ids: set<int>, rev: Dict<int, string>,
                             allergen: seq<int>, order: seq<int>)
    requires ShowsIngredients(out, name, ids, rev, allergen, order) && out.Table?
    ensures forall j :: 0 <= j < |order| ==>
              (out.rows[j + 1] == IntendedIngredientRow(rev, allergen, order[j]) <==> order[j] !in allergen)
  {
    forall j | 0 <= j < |order|
      ensures out.rows[j + 1] == IntendedIngredientRow(rev, allergen, order[j]) <==> order[j] !in allergen
    {
      RowAsWrittenMissesAllergens(rev, allergen, order[j]);
    }
  }

  /** Lines 168-172: the loop over the product's ingredient ids. */
  method IngredientTable(name: string, ids: set<int>, rev: Dict<int, string>, allergen: seq<int>)
    returns (out: ShowOutcome, ghost order: seq<int>)
    ensures ShowsIngredients(out, name, ids, rev, allergen, order)
  {
    var rows := [Row(name, "-", "-")];
    order := [];
    var rest := ids;
    while rest != {}
      invariant Distinct(order)
      invariant forall id :: id in order <==> id in ids && id !in rest
      invariant |order| + |rest| == |ids|
      invariant forall id :: id in order ==> id in rev.entries
      invariant |rows| == |order| + 1 && rows[0] == Row(name, "-", "-")
      invariant forall j :: 0 <= j < |order| ==> rows[j + 1] == IngredientRow(rev, allergen, order[j])
      decreases rest
    {
      var id := Pick(rest);
      if id !in rev.entries {
        return DanglingId(id), order;
      }
      rows := rows + [IngredientRow(rev, allergen, id)];
      order := order + [id];
      rest := rest - {id};
    }
    out := Table(rows);
  }
}
