# Search-Engine core in Dafny

A Dafny model of the core of a small Python search engine. The model has two layers.

**The hash table layer** (`hashtables.py`, `linked_list.py`):
- `Node` is the entry type, with its Python equality.
- `HashTableLinear` is open addressing with linear probing over a list of slots, and uses a base-31 string hash.

**The engine layer** (`project4.py`):
- `parse_words` lower-cases, splits and drops stopwords.
- `count_words` and `index_files` build `term_freqs`, a table from each word to a table from file name to count. They also build `doc_freqs`, a table from file name to word count.
- `get_scores` sums weighted counts per file.
- `rank` is a stable bubble sort.
- `search` prints the result lines.
- The splitting loop of `import_stopwords` fills a stopword table.

The model keeps the table's quirks as the code has them:
- The hash and the probe step are reduced modulo `num_items`, not `table_size`.
- `put` never looks for an existing key, so putting an existing key adds a duplicate.
- `get` and `contains` scan the slots in order.
- `remove` pops the slot out of the list. The list shrinks while `table_size` stays.
- `__setitem__` picks the last matching slot, then runs `list.index` on it, which uses `Node.__eq__`.

Where Python raises or loops forever, the model returns a `Failure`. Examples: `ZeroDivisionError`, `IndexError`, `LookupError`, `ValueError`, the `UnboundLocalError` of `__setitem__`, and a probe that never finds a free slot.

The table's own documentation promises more than the code does:
- The class doc speaks of separate chaining, and a common contract for `put` is to overwrite. The code probes linearly and always adds a new node.
- The constructor doc says the default size is 11. The code uses 2.

The model follows the code in both cases.

The key invariant is `TableFacts.Valid`: the occupied slots are exactly indices `[0, num_items)`, and `num_items` counts them. Every `put` keeps it, and so does every `remove`. From it:
- every `put` lands at slot `num_items - 1`;
- the probe loop ends;
- the entries stay in insertion order, so "first match" means "earliest inserted".

On top of that, the model proves that indexing a directory leaves `term_freqs[w][f]` equal to the number of occurrences of `w` in file `f`, and `doc_freqs[f]` equal to its word count (`Index.NewEngineSpec`). The scores are the reference sums (`Scoring.GetScoresSpec`). `search` lists exactly the matching files, once each, by non-increasing score (`Search.SearchQuery`).

The weighting `1 + math.log(c)` is a parameter `W: int -> real`. Scores are exact reals.

Files (one module each): `wrappers.dfy`, `node.dfy`, `hashing.dfy`, `linear_table.dfy`, `table_facts.dfy`, `table_lookup.dfy`, `text.dfy`, `stopwords.dfy`, `index.dfy`, `scoring.dfy`, `ranking.dfy`, `search.dfy`.

## Model

| member | source | states |
|---|---|---|
| Nodes.NewNode | linked_list.py:12-15 | `Node(key, data)` stores both unchanged; both default to `None` |
| Nodes.SetData | linked_list.py:36-37 | `setdata` replaces the data and keeps the key |
| Nodes.NodeEq | linked_list.py:22-34 | `node == None` is true exactly when the key is `None`. A non-Node compares `False`. Two nodes with data compare by key and data. If either data is `None` the result is `None` (falsy) |
| Nodes.NodeEqSymmetric | linked_list.py:31-34 | node equality gives the same answer in both directions |
| Nodes.NodeEqReflexiveIff | linked_list.py:31-34 | a node equals itself exactly when its data is not `None` |
| Nodes.DefaultNodeEqualsNone | linked_list.py:24-28 | `Node() == None` holds, and no node with a key equals `None` |
| Hashing.HashString | hashtables.py:401-410 | the hash lies in `[0, m)` |
| Hashing.HashIsReducedPoly | hashtables.py:407-410 | the Horner loop equals the base-31 polynomial of the code points, reduced mod `m` |
| Hashing.HashModOne | hashtables.py:407-410 | with one item every key hashes to slot 0 |
| LinearTable.Empty | hashtables.py:366-374 | a new table has `table_size` slots, all `None`, so no entries. `num_items` and `num_collisions` are 0 and `table_size` is the size asked for |
| LinearTable.EntriesMembers | hashtables.py:360-362 | the entries the item count counts are exactly the nodes held by some slot |
| LinearTable.ProbeFrom | hashtables.py:424-432 | a probe that succeeds stops at an empty slot below `num_items`, and stops at the hashed slot exactly when that slot is empty |
| LinearTable.Put | hashtables.py:412-433 | a successful `put` adds exactly one entry and one item |
| LinearTable.Resize | hashtables.py:435-445 | a resize keeps the number of entries |
| LinearTable.Find | hashtables.py:453-455 | the index found is the first slot holding the key; none is found only when no slot holds it |
| LinearTable.Get | hashtables.py:447-455 | `get` gives a value exactly when some slot holds the key, and that value is stored with the key |
| LinearTable.AnyHolds | hashtables.py:464-469 | the `contains` loop is true exactly when some slot holds the key |
| LinearTable.Contains | hashtables.py:458-469 | `contains` agrees with `get` returning a value |
| LinearTable.Remove | hashtables.py:471-484 | `remove` fails with `LookupError` exactly when the key is absent. Otherwise it returns a node with that key, the list is one slot shorter, and the item count still matches the live entries |
| LinearTable.FindLast | hashtables.py:524-526 | the `__setitem__` loop leaves `ind` at the last slot holding the key |
| LinearTable.IndexFrom | hashtables.py:526 | `list.index` returns the first slot that `Node.__eq__` calls equal to the target, or the target's own slot |
| LinearTable.SetItem | hashtables.py:516-530 | `t[key] = d` fails exactly when the key is absent. Otherwise it writes `Node(key, d)` into one slot that held the key, and changes nothing else |
| LinearTable.LoadFactor | hashtables.py:493-498 | the load factor times the size is the item count; a size of 0 divides by zero |
| TableFacts.EmptyHealthy | hashtables.py:366-374 | a new table of positive size satisfies the table invariant |
| TableFacts.LoadAboveIff | hashtables.py:493-498 | `load_factor() > .75` is `4 * items > 3 * size` |
| TableFacts.PutWithoutResize | hashtables.py:419-424 | below the threshold `put` goes straight to probing |
| TableFacts.ProbeEndsAtLast | hashtables.py:428-431 | on a packed table the probe ends at slot `num_items - 1`, or reads past a shortened list |
| TableFacts.PlaceSpec | hashtables.py:424-433 | placing succeeds exactly when slot `num_items - 1` exists. It writes the node there and counts a collision exactly when the hash misses that slot |
| TableFacts.ReinsertSpec | hashtables.py:441-444 | re-putting entries into a roomy table appends them in order |
| TableFacts.ResizeSpec | hashtables.py:435-445 | a resize gives a table of size `2 * num_items + 1` with the same entries in the same order |
| TableFacts.PutGrowing | hashtables.py:419-433 | a `put` that crosses the threshold resizes and then appends the node |
| TableFacts.PutStaying | hashtables.py:419-433 | a `put` below the threshold appends the node, or fails when the list has been shortened by removes |
| TableFacts.PutSpec | hashtables.py:412-445 | `put` appends `Node(key, data)` at slot `num_items - 1` and keeps every other entry. It counts a collision exactly when the first probed slot is taken. The load factor stays at most 0.75, a resize strictly grows the table, and an existing key gets a duplicate |
| TableFacts.PutHealthy | hashtables.py:412-445 | on a remove-free table `put` always succeeds, keeps the invariant and appends the node |
| TableLookup.GetIsLookup | hashtables.py:447-455 | `get` returns the data of the earliest-inserted entry with the key |
| TableLookup.PutNeverOverwrites | hashtables.py:412-433 | after `put`, `get` still returns the old value of a present key, and the new value only for an absent one |
| TableLookup.RemoveSpec | hashtables.py:471-484 | `remove` fails exactly for an absent key. Otherwise it takes out the first entry with the key, returns what `get` saw, keeps the rest in order and decrements `num_items` |
| TableLookup.RunKeepsInsertionOrder | hashtables.py:412-484 | any sequence of `put`/`remove` keeps the table packed, with its entries those of a plain insertion-ordered list replaying the same calls. A remove-free sequence on a remove-free table never fails |
| TableLookup.FreshRunOrder | hashtables.py:366-484 | from a new table, `get` after any history is a first-match lookup in the replayed list |
| TableLookup.UpdateFirstSpec | hashtables.py:447-455 | changing the object `get` returns for a key changes what `get` returns for that key only |
| TableLookup.PutAbsentKeepsUnique | hashtables.py:412-433 | putting an absent key keeps keys unique |
| TableLookup.UpdateFirstKeepsUnique | hashtables.py:447-455 | updating an entry keeps keys unique |
| TableLookup.SetItemUnique | hashtables.py:516-530 | when keys are unique, `t[key] = d` updates the entry `get` reads |
| TableLookup.SetItemMissesFirstDuplicate | hashtables.py:524-528 | with a duplicated key, `t[key] = d` writes the later slot and `get` still returns the old value |
| Text.LowerChar | project4.py:56 | lower-casing maps `A`-`Z` to `a`-`z` (code point +32) and keeps every other character |
| Text.Lower | project4.py:56 | `lower()` keeps the length and lower-cases each character |
| Text.TokenLength | project4.py:57 | a token runs up to the first whitespace character |
| Text.Split | project4.py:57 | `split()` gives non-empty tokens without whitespace |
| Text.SplitAtSpace | project4.py:57 | any one whitespace character separates: the tokens of `a + [c] + b` are those of `a`, then those of `b`, however much whitespace surrounds `c`, and whichever whitespace character `c` is |
| Text.SplitOfToken | project4.py:57 | a non-empty whitespace-free text is a single token. With `SplitAtSpace` and the empty case, this fixes the tokens as the maximal whitespace-free runs |
| Text.SplitKeepsEveryLetter | project4.py:57 | the tokens, joined, are exactly the non-whitespace characters in order |
| Text.SplitJoinSpaces | project4.py:57 | splitting words joined by blanks gives the words back |
| Text.DropNewlines | project4.py:59 | `replace('\n', '')` leaves no newline |
| Text.DropNewlinesAppend | project4.py:59 | the replace of a text in two parts is the replace of each part, in order |
| Text.DropNewlinesChar | project4.py:59 | on one character the replace deletes a newline and keeps anything else. With `DropNewlinesAppend` this makes the result the input with its newlines deleted |
| Text.DropNewlinesOfToken | project4.py:59 | on a token from `split()` the newline removal changes nothing |
| Text.LowerIsLowerCase | project4.py:56 | the result of `lower()` has no upper-case letter |
| Text.LowerOfLowerCase | project4.py:56 | `lower()` of lower-case text is the text itself |
| Text.KeepWordsSpec | project4.py:58-61 | a token is kept exactly when it is not a stopword |
| Text.KeepWordsAppend | project4.py:58-61 | the filter works token by token: the kept tokens of two lists are those of each list in turn, so order and repeats are kept |
| Text.KeepWordsOne | project4.py:58-61 | a whitespace-free token is kept, unchanged, exactly when it is not a stopword |
| Text.KeepWordsCount | project4.py:58-61 | a non-stopword is kept as often as it occurs among the tokens; a stopword never is |
| Text.KeepWordsNoStop | project4.py:58-61 | tokens with no stopword among them are all kept, in order |
| Text.ParseWordsSpec | project4.py:45-62 | every output word is non-empty, lower-case, whitespace-free, not a stopword, and a token of some lower-cased line. A token of any line appears exactly when it is not a stopword |
| Text.ParseWordsFilter | project4.py:45-62 | `parse_words` is the stopword filter over the tokens of all the lines, in line order and with repeats |
| Text.ParseWordsCount | project4.py:45-62 | a non-stopword occurs in the result as often as among the lines' tokens; a stopword never occurs |
| Text.ParseWordsAppend | project4.py:55-62 | parsing two lists of lines is parsing each in turn, so the order is kept |
| Text.ParseWordsRoundTrip | project4.py:45-62 | a line of words joined by blanks parses back to the same words |
| Text.SplitTokensLowerCase | project4.py:56-57 | the tokens of lower-case text are lower-case |
| Text.ReparseTokens | project4.py:165-167 | parsing tokens that are already words, one per line, just drops stopwords |
| Text.QueryTokens | project4.py:165-167 | `search` parses the split query once more, and that only drops stopwords |
| Stopwords.ChunksPerBlank | project4.py:189-195 | the loop puts one word per `' '` in the content, as the test counts them |
| Stopwords.ChunksRebuild | project4.py:189-195 | the words put, each followed by a blank, plus the text left over, rebuild the content; none of them holds a blank |
| Stopwords.ChunksOfTerminated | project4.py:189-195 | blank-terminated blank-free words plus a blank-free tail split back into those words, and the tail is never put |
| Stopwords.ImportLoopSpec | project4.py:189-196 | the loop never fails on a remove-free table. It appends one `Node(w, w)` per word in order, with one item per word |
| Stopwords.ImportIntoNewTable | project4.py:189-201 | importing into the new `HashTableLinear()` that `main` builds gives one item per blank. This is the count the test at hashtables_tests.py:12-17 expects of a separate-chaining table, carried over to the linear table. A word is present exactly when it is one of the blank-terminated fields, stored as its own data |
| Stopwords.ContainsIsKeySet | project4.py:60 | `j in stopwords` on a table is membership in its key set |
| Index.PutTermSpec | project4.py:76 | putting a fresh inner table adds the word and changes no count |
| Index.AddTermsSpec | project4.py:75-76 | the first loop never fails, makes every word a key and changes no count |
| Index.CountOneSeen | project4.py:79-80 | a word already counted for the file has its inner entry updated in place |
| Index.CountOneNew | project4.py:81-82 | a known word new to the file gets the file put with count 1 |
| Index.CountOneSpec | project4.py:78-85 | one pass raises the file's count of a non-empty word by one (from absent to 1). It leaves every other count and the key set alone |
| Index.CountOneStep | project4.py:78-85 | the same step, while the empty word counts nowhere |
| Index.CountAllSpec | project4.py:78-85 | the second loop adds each non-empty word's number of occurrences to its count for the file, and changes nothing else |
| Index.RecordLength | project4.py:77-86 | `doc_freqs[filename]` ends as `len(words)`, and other files keep theirs |
| Index.CountWordsSpec | project4.py:64-86 | for a new file, `term_freqs[w][f]` becomes the number of occurrences of `w` in the words (absent when 0). `doc_freqs[f]` becomes the word count. Every other file reads as before, and the engine invariant holds |
| Index.TxtDocs | project4.py:94-98 | the indexed files are some of the listed ones, each under a listed name |
| Index.TxtDocsListed | project4.py:94-98 | every document handed to `count_words` is a listed `.txt` entry, under its own name, with its parsed words |
| Index.TxtDocsComplete | project4.py:94-98 | every listed `.txt` entry is handed to `count_words` with its parsed words |
| Index.TxtDocsAppend | project4.py:95-98 | the loop keeps the listing order: the documents of two listings one after the other are those of each in turn |
| Index.IndexFilesSpec | project4.py:89-98 | indexing a listing of new distinct names makes every `.txt` file read back its own counts and word count, and leaves the rest alone |
| Index.EmptyEngineInv | project4.py:27-29 | the new engine's empty tables satisfy the invariant |
| Index.NewEngineSpec | project4.py:26-32 | building the engine never fails. Each count equals the occurrence count of the word in the `.txt` file with that name, and each word count equals that file's length |
| Scoring.Weight | project4.py:107-111 | a positive count `c` weighs `W(c)`, and a count of 0 or less weighs 0 |
| Scoring.IndexOf | project4.py:136 | `names.index(k)` is the first position holding `k` |
| Scoring.Contribution | project4.py:131-136 | dividing by a missing word count fails with a `None` error, and by 0 with `ZeroDivisionError`. Otherwise the share times the word count is the weight |
| Scoring.AddSlotSpec | project4.py:126-137 | one slot adds its share to its file's score, appending the file if it is new, and changes no other score |
| Scoring.AddSlotsSpec | project4.py:126-137 | the inner loop adds the sum of the slots' shares per file and lists exactly the files met |
| Scoring.SlotSumUnique | project4.py:126-137 | with unique keys, the slots add exactly the share of the count `get` returns |
| Scoring.TermStep | project4.py:124-137 | one query word adds, for every file, the share of that word's count and lists the files it counts |
| Scoring.ScoreTermsOutcome | project4.py:123-126 | the outer loop raises `ValueError` exactly when some query word is not a key |
| Scoring.ScoreTermsValue | project4.py:123-138 | a successful outer loop lists each file once, exactly the files some query word counts, with the sum of the shares |
| Scoring.GetScoresSpec | project4.py:113-139 | `get_scores` raises exactly when a query word was never indexed. Otherwise the lists have equal lengths and no repeated file, and list exactly the files some query word occurs in. Each score is the sum over the query words (repeats included) of weight over word count |
| Ranking.SwapPerm | project4.py:149-154 | a swap keeps the multiset of pairs and distinct names |
| Ranking.StepSpec | project4.py:148-154 | a comparison moves the least score so far one place right and leaves the sorted tail alone; it never swaps a sorted list |
| Ranking.StepStable | project4.py:148-154 | a comparison swaps only unequal scores, so equal scores keep their input order |
| Ranking.Pass | project4.py:147-154 | one inner pass extends the sorted, dominated tail by one place and keeps the pairs |
| Ranking.Sort | project4.py:146-154 | the two loops give a stable permutation of the pairs in non-increasing score order, and leave a sorted input unchanged |
| Ranking.Rank | project4.py:141-157 | `rank` returns the same `(name, score)` pairs, each name beside its score. Scores are non-increasing, equal scores keep their input order, and distinct names stay distinct. A sorted input (for instance one of length 0 or 1) comes back unchanged |
| Ranking.SameScores | project4.py:141-157 | after ranking, every file is listed with the same score as before |
| Search.OutputLines | project4.py:171-174 | reading the output back line by line gives `directory/name ` for each non-empty ranked name, in ranked order |
| Search.OutputAppend | project4.py:171-174 | the output of a list is the outputs of its parts in turn |
| Search.RankedByScore | project4.py:167-168 | the ranked list holds the scored files in order of non-increasing reference score |
| Search.SearchQuery | project4.py:159-174 | `search` raises exactly when a non-stopword query word was never indexed. Otherwise it ranks, once each, exactly the files some query word occurs in, by non-increasing score, and prints one line per ranked file |

## Left out

- File and directory I/O is not modelled: `read_file`, `os.listdir`, `open`/`read` in `import_stopwords`, and `main`. The directory listing is a sequence of (name, lines) pairs in listing order, and the stopword file is its text.
- `math.log` and float arithmetic are replaced by the parameter `W` over exact reals. Python's rounding, and any ordering change it causes in `rank`, is not modelled.
- `HashTableSepchain` and `HashTableQuadratic` are not modelled. The engine never creates them, and as written they cannot run (for example, `load_factor` calls an int).
- Table `__eq__`, `__repr__` and `key_list` are left out. `__eq__` compares a bound method with an int; the other two are for display and listing only. `size`, `__len__` and `collisions` are the record fields.
- The `LinkedList` class is unused. The `doc_length` table is never written.
- `Text.LowerChar`, `Text.Lower`: fold only `A`-`Z`, not the full Unicode case mapping of `str.lower`. `split()` uses Python's fixed whitespace set.
- The shared mutable default `stopwords=[]` is not modelled. Stopwords are passed as an explicit set, the empty set for the default. `Stopwords.ContainsIsKeySet` links a stopword table to that set.
- A negative `table_size` argument is not modelled; sizes are natural numbers.
- `rank` sorts the caller's lists in place. The model returns the sorted value.
- `Index.CountWordsSpec`: states the effect only for a file name not yet in `doc_freqs`. `index_files` calls `count_words` once per listed name, and a directory listing has no repeats.
- `Index.IndexFilesSpec`, `Index.NewEngineSpec`: assume the listing's names are distinct, as a directory listing's are.
- `Search.OutputLines`: reads the output back only when neither the directory nor a file name contains a newline.
- `Search.SearchQuery`: states the order of the ranked files by reference score. Ties are ordered by `Ranking.Rank`'s stability, which this theorem does not restate.

## Findings

| source | as written | input that shows it | evidently intended | confidence | as-written member | corrected member |
|---|---|---|---|---|---|---|
| hashtables.py:524-528 | `__setitem__` writes the last slot holding the key, while `get` reads the first | a table whose first two slots hold `Node("k", a)` and `Node("k", b)` with `a != b`, as two `put("k", …)` calls on a new table leave it; after `t["k"] = d`, `t["k"]` is still `a` | after `t[key] = d`, `t[key]` returns `d` | not executed | TableLookup.SetItemMissesFirstDuplicate | TableLookup.UpdateFirstSpec |
