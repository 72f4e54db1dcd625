# D H catalog shell — a Dafny model

The system is a small interactive shell over a catalog of food products. At start-up it
reads two documents:

- a list of ingredients (name, id and whether the ingredient is an allergen);
- a list of products (id, name, collection and the ids of its ingredients).

From them it builds four structures:

- a dictionary from ingredient name to id;
- the list of allergen ids;
- a dictionary from product id to the product's name and set of ingredient ids;
- a dictionary from collection to product id.

The shell's commands do the following:

- list the ingredient names or the product names, five per row;
- search either list for a case-insensitive fragment;
- filter the products by a comma-separated list of ingredient names, keeping a product only
  when it contains every ingredient named;
- show the ingredients of one product, with an allergen flag per ingredient.

The model is organised as follows:

- `seqs.dfy` (module `Seqs`) holds sequence facts, and also `list.remove` as `RemoveFirst`.
- `dicts.dfy` (module `Dicts`) holds Python's insertion-ordered dictionary: a key sequence
  plus a map, where re-assigning a key keeps its position.
- `text.dfy` (module `Text`) holds ASCII `lower`, the substring test, `split`, `join` and
  `strip`.
- `loader.dfy` (module `Loader`) holds the record loops of the loader, as methods with loop
  invariants.
- `queries.dfy` (module `Queries`) holds the pure query functions.
- `grid.dfy` (module `Grid`) holds the five-per-row chunking.
- `shell.dfy` (module `Shell`) holds the data each command computes. The messages it prints
  become constructors of outcome datatypes. The rows it hands to the table renderer are
  values.

The ingredient filter's loop removes names from the list it is iterating over. It is modelled
as Python executes it: the list iterator advances by position, and `remove` deletes the first
equal element. The loop over a product's ingredient set visits the ids in an unspecified
order. The method picks an arbitrary remaining id at each step and returns the visit order
as a ghost result.

In two places the code does not do what it evidently means to do. The model follows the
code, proves what the code does, and states the intended behaviour beside it; both are listed
under Findings:

- `search_with_ingredients` reports each unknown name as not found, which means to drop
  every unknown name. The loop as written skips the name after each removed one.
- The "Allergen" column means "Yes" exactly for allergen ids. The check as written compares
  the ingredient's name with the ids and always gives "No".

Also, when a product is not found, the "similar products" search runs on the raw argument,
not on the stripped name (main.py:162). The model does the same. From the shell prompt the
two are equal: `cmd.Cmd.parseline` strips the command line and the argument before calling
`do_show_product_ingredients`. They differ only when the method is called directly with an
argument that has surrounding whitespace.

Some functions are vocabulary for the contracts of others, and carry no row of their own:

- `Dicts.Dict.Values` is `list(d.values())`, the entries in key order.
- `Queries.FirstUnknown` says that a key is the first name of a list that is not an
  ingredient. That is the key CPython's `KeyError` carries when the names are looked up in
  order. `Queries.Resolve` states the same fact for the set comprehension at main.py:84.
- `Queries.Request.Names` reads a bare name as a one-element list, which
  `Queries.SingleIsSingletonList` backs.
- `Shell.SplitNames` is `list(map(str.strip, arg.split(",")))`, whose properties are
  `Shell.SplitNamesClean`, `Text.SplitSpec` and `Text.StripSpec`.
- `Shell.Notices` builds one not-found notice per reported name, each with the ingredient
  search run on that name. `Shell.AfterSweep` and `Shell.FilterOutcomeSpec` state what it
  reports.
- `Grid.GridRows` is `[xs[i:i + 5] for i in range(0, len(xs), 5)]` (main.py:100). Its meaning
  is stated by `Grid.GridRowsSpec`.
- `Text.Split` is `str.split` with a one-character separator (main.py:136). Its meaning is
  stated by `Text.SplitSpec` and `Text.SplitUnique`.
- `Text.Strip` is `str.strip` (main.py:158). Its meaning is stated by `Text.StripSpec` and
  `Text.StripIdempotent`.
- `Text.Contains` is the substring test `in` on strings (main.py:61). Its meaning is stated
  by `Text.ContainsAt`.
- `Shell.Sweep` is the loop at main.py:137-141, with the list iterator advancing by position.
  Its meaning is stated by `Shell.SweepSpec`, `Shell.DropUnknown` and
  `Shell.AdjacentUnknownSurvives`.
- `Shell.FilterOutcomeOf` is what `do_search_with_ingredients` computes (main.py:131-150).
  `Shell.SearchWithIngredients` computes it, and `Shell.FilterOutcomeSpec` states its meaning.
- `Shell.IngredientRow` is the row appended per ingredient (main.py:171). Its meaning is
  stated by `Shell.RowAsWrittenMissesAllergens` and `Shell.TableMissesAllergens`.
- `Loader.ToProduct` is the value stored per product id (main.py:29). `Loader.LoadProducts`
  states what it holds.
- `Shell.ReversedItems` and `Shell.PyInts` are the pairs `map(reversed, items())` and the
  allergen ids as Python values. `Shell.InvertSpec` and `Shell.AllergenFlagAsWritten` state
  their meaning.

## Model

| member | source | states |
|---|---|---|
| Dicts.Dict.Put | main.py:20 | assigning a key keeps the dictionary well formed and maps the key to the new value; a new key goes to the end of the key order, and an existing key keeps its place |
| Dicts.Dict.ValuesMembers | main.py:50 | the values listed are exactly the values some key maps to |
| Dicts.FromPairs | main.py:169 | the dictionary built by assigning a sequence of pairs in turn is well formed and has exactly the first components as keys |
| Dicts.FromPairsKeys | main.py:19-20 | the keys of a dictionary filled pair by pair come in order of first occurrence, each once |
| Dicts.FromPairsLastWins | main.py:28-30 | every key holds the value of the last pair that assigned it (last writer wins) |
| Dicts.FromPairsSpec | main.py:19-30 | both facts above, for every key at once |
| Loader.AllergenIds | main.py:21-22 | the allergen list is a subsequence of the record ids in record order, and holds exactly the ids of the records marked as allergens |
| Loader.AllergenIdsByPosition | main.py:21-22 | the allergen list has one entry per allergen record, in record order: there are strictly increasing positions, exactly the allergen records, whose ids are the list's entries in turn, so a repeated id appears once per allergen record carrying it |
| Loader.LoadIngredients | main.py:17-22 | the ingredient loop gives a name dictionary with one key per record name, in order of first occurrence, each mapped to the id of the last record with that name; it also gives the allergen ids in record order |
| Loader.LoadedIngredients | main.py:19-20 | a name is a key exactly when some record has that name; the keys are the de-duplicated record names; the value is the id of the last record with that name |
| Loader.LoadProducts | main.py:25-30 | `products[id]` holds the name and the set of ingredient ids of the last record with that id; `collection[c]` is the id of the last record in collection c; keys in order of first occurrence |
| Loader.LoadedProducts | main.py:28-30 | the same facts about the two dictionaries the product loop builds |
| Loader.LoadFiles | main.py:10-32 | the four structures are the ingredient loop's and the product loop's results, and the three dictionaries are well formed |
| Loader.LoadedNamesOfDistinctRecords | main.py:19-20 | when record names are pairwise distinct, the dictionary has one key per record, in record order |
| Queries.ListAllIngredients | main.py:39-43 | the names are the keys in insertion order, hence without duplicates, and a name is listed exactly when it is a key |
| Queries.ListAllProducts | main.py:46-50 | one name per product in dictionary order, and a name is listed exactly when some product has it |
| Queries.Search | main.py:53-61 | the result is a subsequence of the input in input order; it keeps exactly the names whose lower-cased form contains the lower-cased fragment, each as often as in the input |
| Queries.SearchEmptyFragment | main.py:61 | an empty fragment keeps every name |
| Queries.SearchIgnoresCase | main.py:61 | lower-casing the fragment first does not change the result |
| Queries.SearchCaseInsensitive | main.py:61 | two fragments that are equal up to ASCII case find the same names |
| Queries.SearchFindsGinger | main.py:53-61 | the partial name "gin" of the docstring finds "Ginger" and not "Salt" |
| Queries.Resolve | main.py:84 | the set comprehension succeeds exactly when every name is a key, and then gives the set of their ids; otherwise it raises `KeyError` for the first unknown name in list order |
| Queries.RequestedIds | main.py:83-86 | for a bare name or a list of names: success exactly when all names are keys, with their id set; otherwise a `KeyError` for the first unknown requested name in list order, which is the one CPython's lookups in order raise |
| Queries.MatchingNames | main.py:87-88 | the result is a subsequence of the product names in product order; it contains every product whose ingredient set includes every requested id, and only such products |
| Queries.MatchingNamesByPosition | main.py:87-88 | the result is the names at the increasing positions of exactly the matching products, so a name shared by several matching products occurs once for each |
| Queries.SearchProductWithIngredients | main.py:75-88 | the query succeeds exactly when every requested name is known, and then returns the products containing all requested ids; otherwise it raises `KeyError` for the first unknown requested name in list order |
| Queries.FirstUnknownRaises | main.py:84 | a list whose first name is unknown raises `KeyError` for that name |
| Queries.SingleIsSingletonList | main.py:83-86 | a bare name gives the same answer as the one-element list |
| Queries.MatchingNarrows | main.py:87-88 | requiring more ids gives a subsequence of the earlier answer (AND semantics) |
| Queries.MoreNamesNarrow | main.py:83-88 | adding known names to a query of known names gives a subsequence of the earlier answer |
| Queries.IntersectionExample | main.py:87-88 | with A = {1, 2}, B = {1} and C = {2}, asking for ids 1 and 2 finds only A |
| Text.LowerChar | main.py:61 | an upper-case ASCII letter becomes the matching lower-case letter, every other character is kept, and the result is never upper-case |
| Text.Lower | main.py:61 | lower-casing keeps the length and goes character by character; the result has no upper-case letter, and a string without one is left unchanged |
| Text.LowerIdempotent | main.py:61 | lower-casing twice is lower-casing once |
| Text.ContainsAt | main.py:61 | the substring test holds exactly when the fragment is a prefix of some suffix |
| Text.SplitSpec | main.py:136 | no piece of `split(",")` contains a comma, and joining the pieces with commas gives the argument back |
| Text.SplitUnique | main.py:136 | the pieces of `split` are the only comma-free pieces that join back to the argument |
| Text.LeadingSpace | main.py:158 | the count of leading whitespace characters: all of them are whitespace, and the next character is not |
| Text.TrailingSpace | main.py:158 | the count of trailing whitespace characters: all of them are whitespace, and the one before them is not |
| Text.StripSpec | main.py:136 | the stripped string neither starts nor ends with whitespace, and the argument is it with only whitespace around it |
| Text.StripIdempotent | main.py:158 | stripping twice is stripping once |
| Grid.GridRowsSpec | main.py:100 | the rows concatenate back to the list; every row but the last has five names; the last row is non-empty; there are ceil(n/5) rows; no rows exactly for an empty list |
| Shell.IngredientsCommand | main.py:97-102 | the rows shown are the five-per-row chunking of all ingredient names in dictionary order (so, by `GridRowsSpec`, they concatenate back to that list, and every row but the last is full) |
| Shell.ProductsCommand | main.py:104-109 | the rows shown are the five-per-row chunking of all product names in dictionary order (so, by `GridRowsSpec`, they concatenate back to that list, and every row but the last is full) |
| Shell.SearchIngredientsCommand | main.py:111-119 | an empty argument asks for hints and nothing else does; otherwise the rows are the five-per-row chunking of the matching ingredient names, and concatenate back to them |
| Shell.SearchProductsCommand | main.py:121-129 | an empty argument asks for hints and nothing else does; otherwise the rows are the five-per-row chunking of the matching product names, and concatenate back to them |
| Shell.SplitTwoNames | main.py:136 | two comma-free, stripped names joined by a comma split back into exactly those two |
| Shell.SplitAtComma | main.py:136 | splitting two comma-free names joined by a comma gives the two names |
| Shell.SplitNamesClean | main.py:136 | there is at least one name, and no name contains a comma or has surrounding whitespace |
| Shell.SweepSpec | main.py:137-141 | the loop only removes names and reports every name it removes: what is left is a subsequence of the names, every known name is still there as often as before, every reported name is an unknown name of the list, and the names left plus the names reported are the list, each as often as it occurs there |
| Shell.SweepRemovesOnly | main.py:137-141 | what the loop leaves is a subsequence of the names that holds every known name as often as before, and every reported name is an unknown name of the list |
| Shell.SweepAccounts | main.py:139-141 | every name the loop removes it also reports: the names left and the names reported together are the list, counted with multiplicity |
| Shell.DropUnknown | main.py:137-141 | the loop, run by position on the list value, leaves and reports exactly what the iterator-level description `Sweep` says |
| Shell.KnownOnly | main.py:137-141 | the names an exact filter keeps: a subsequence of only known names, each as often as in the input |
| Shell.UnknownOnly | main.py:137-141 | the names an exact filter drops: a subsequence holding every unknown name as often as the input does, and only unknown names |
| Shell.SweepWithoutAdjacentUnknowns | main.py:137-141 | when no two unknown names are neighbours, the loop keeps exactly the known names and reports exactly the unknown ones, in order |
| Shell.KnownThenUnknown | main.py:137-141 | a known name followed by an unknown one: the unknown one is reported and dropped, and the known one is kept |
| Shell.AdjacentUnknownSurvives | main.py:137-146 | two neighbouring unknown names a,b: the loop reports a and keeps b, and the query, run on [b], then raises `KeyError` for b, where an exact filter would keep nothing |
| Shell.AfterSweep | main.py:142-150 | after the loop: "No product" exactly when nothing is left; otherwise the names left are searched. The query's `KeyError` escapes exactly when one of them is unknown, and it names the first unknown one. Otherwise every name searched is known and the rows are the five-per-row chunking of the matching products |
| Shell.SearchWithIngredients | main.py:131-150 | the command computes exactly `FilterOutcomeOf`: "Need ingredients" for an empty argument, otherwise split, the loop, then `AfterSweep` |
| Shell.FilterOutcomeSpec | main.py:131-150 | "Need ingredients" exactly for an empty argument. Otherwise: every reported name is an unknown name of the argument, and the names reported and the names searched together are the argument's names, each as often as it occurs; "No product" only when no name is known, and then every name is reported; the names searched are a non-empty subsequence of the argument's names that holds every known name as often as the argument does; a table is shown only when all of them are known, and its rows are the five-per-row chunking of the products containing all of them; an escaping `KeyError` names the first unknown name searched |
| Shell.AfterSweepOfNames | main.py:142-150 | if the loop only removed names of the list, kept every known name as often as the list has it, reported unknown names, and reported every name it removed, then what follows the loop has the properties `FilterOutcomeSpec` lists |
| Shell.IntendedFilterSpec | main.py:137-146 | with a loop that drops every unknown name, no `KeyError` escapes, every unknown name is reported in order, and exactly the known names are searched |
| Shell.FilterAsIntendedWithoutAdjacentUnknowns | main.py:137-146 | without neighbouring unknown names, the command as written gives the same outcome as the intended one |
| Shell.Invert | main.py:169 | the inverted dictionary is well formed |
| Shell.InvertSpec | main.py:169 | the inverse has an entry exactly for every id some name maps to; it maps the id to a name that maps back to it, namely the last such name in key order |
| Shell.AllergenFlagAsWritten | main.py:171 | testing whether a name is in a list of integer ids always gives "No" |
| Shell.AllergenFlag | main.py:171 | the intended flag is "Yes" exactly when the id is an allergen id |
| Shell.FlagAsWrittenMissesAllergens | main.py:171 | the flag as written agrees with the intended one exactly when the id is not an allergen |
| Shell.IntendedIngredientRow | main.py:171 | the intended row's flag is "Yes" exactly when the id is an allergen id |
| Shell.RowAsWrittenMissesAllergens | main.py:171 | the row as written equals the intended row exactly when the id is not an allergen |
| Shell.TableMissesAllergens | main.py:170-171 | in a table as shown, an ingredient row carries the intended flag exactly when its id is not an allergen |
| Shell.FindProduct | main.py:164-167 | the search loop stops at the first product, in dictionary order, that has the name |
| Shell.IngredientTable | main.py:168-171 | either a `KeyError` for an ingredient id that no name maps to, or a header row plus one row per id of the product: every id visited exactly once, each row showing the id's name and flag |
| Shell.ShowProductIngredients | main.py:152-172 | "Need Product" exactly for an empty argument; a stripped name that is not a product gives the similar-products search on the raw argument; otherwise the first product with that name is picked and its table built as `IngredientTable` states |

## Left out

- Reading the two JSON files (main.py:15-16, 24-27) and the module-level load (main.py:36) are left out. The loader takes the already-parsed records as parameters, so missing files, malformed documents and missing fields are not modelled.
- The `cmd.Cmd` machinery is left out: the prompt, intro, help dispatch, unknown-command handling and `cmdloop` (main.py:91-95, 185-186). Each command is a function or method of the catalog and its argument.
- `tabulate` rendering and every `print` are left out. The model keeps only the rows passed to the renderer, and each message as a constructor of an outcome datatype. The "Searching ingredients" echo (main.py:145) is printed before the query, so it appears both when products are shown and when the query's `KeyError` escapes. Both outcomes keep the echoed list as `searched` (`Products.searched`, `Unresolved.searched`), and the echo carries no other data.
- `do_exit` and `sys.exit` (main.py:180-182) are left out, because they are process control.
- The commented-out completion handler (main.py:174-178) is not part of the program.
- `str.lower` and `str.strip` are modelled for ASCII only. Unicode case mapping and Unicode whitespace are not modelled.
- Python's dynamic typing is reduced to what the code relies on:
  - The `isinstance` test (main.py:83) becomes the `Request` datatype.
  - The str-versus-int comparison on line 171 becomes the `PyValue` datatype.
- Shell.ShowProductIngredients: the order of the product's ingredient rows is not fixed. Python's set iteration order is an implementation detail, so the method only promises that each id is visited exactly once, in some order it returns as a ghost value.
- Shell.DropUnknown: it works on the list as a value and reassigns it. In-place mutation of the shared list object is not modelled; aliasing plays no role, because the list is local to the command.
- The exceptions that escape the commands are kept as outcomes (`Unresolved`, `DanglingId`). In the program, nothing catches such a `KeyError`: it leaves `cmdloop` and ends the shell. The model does not represent that termination.

## Findings

| source | as written | input that shows it | evidently intended | confidence | as-written member | corrected member |
|---|---|---|---|---|---|---|
| main.py:137-141 | `ing.remove(i)` inside `for i in ing` shifts the next name onto the position the iterator has just passed, so that name is never examined | `search_with_ingredients a,b` where neither `a` nor `b` is an ingredient name: `a` is reported and removed, `b` stays, and line 146 raises `KeyError` for `b` | every name that is not an ingredient is reported and dropped, and the query runs on the known names only | not executed | Shell.AdjacentUnknownSurvives | Shell.IntendedFilterSpec |
| main.py:171 | the flag tests whether the ingredient's name is in the list of allergen ids | any product with an ingredient whose id is in `allergen`: its row shows "No" | "Yes" exactly when the ingredient's id is an allergen id | not executed | Shell.FlagAsWrittenMissesAllergens | Shell.IntendedIngredientRow |
