# Homophone search engine, modelled in Dafny

This project models the core of `wordsmith.py`, a homophone finder. Given a phrase, it lists other word
sequences that sound exactly the same, including ones that cut the sound at other word boundaries
("ice cream" → "i scream"). The engine has four parts:

- **Pronouncing index** (`invert_CMPD`). It flips the pronouncing dictionary (word → list of
  pronunciations, each a list of phoneme symbols) into an inverted dictionary (pronunciation → list of
  words), appending to buckets in a nested loop.
- **Lookup and expansion** (`get_word_pronunciations`, `get_phrase_pronunciations`). It looks up every
  word, failing on the first unknown one. It then takes the Cartesian product of the per-word
  pronunciation lists and concatenates one pronunciation per word.
- **Reconstruction** (`part_to_phrases`). It looks up each block of a partition in the inverted index.
  One missing block drops the whole partition. Otherwise every choice of one word per block is joined
  with single spaces.
- **Search** (`get_phrases`, `wordsmith`). For every phrase pronunciation and every way to cut it into
  contiguous non-empty blocks, it concatenates the reconstructions in order.

Files:

- `sequences.dfy`: module `Wrappers` (`Option`, `Result`) and module `Sequences`. `Sequences` holds
  flattening (`Concat`), the `itertools.product` order (`Product`), `' '.join` (`Join`) and its inverse
  `str.split(' ')` (`Split`).
- `index.dfy`: module `PronouncingIndex`, which covers `invert_CMPD`.
- `expansion.dfy`: module `Expansion`, which covers `get_word_pronunciations` and
  `get_phrase_pronunciations`.
- `partitions.dfy`: module `Segmentation`, the partition enumeration that the source imports from
  `more_itertools`.
- `homophones.dfy`: module `Homophones`, which covers `part_to_phrases`, `get_phrases` and `wordsmith`.
  It also holds the soundness and completeness theorems of the search.
- `examples.dfy`: module `SearchExamples`, the "here"/"hear" and "ice cream" examples.

How the model is put together:

- The code that updates state step by step is written as methods with `while` loops:
  - `Invert` builds the dictionary in a nested loop; its inner loop is the method `AddPronunciations`.
  - `PartToPhrases` collects buckets, with an early exit on a miss.
  - `GetPhrases` extends the result in a nested loop; its inner loop is the method `ExtendWithParts`.

  Each such method is proved equal to a specification function (`Inverted`, `AddAll`, `Reconstruct`,
  `PhrasesOf`, `PhrasesOfParts`), and the properties are lemmas about those functions. Both loops of
  `get_phrases` have the shape "for each x, extend the result with f(x)". That shape is the generic
  `FlatMap` of `Sequences`, and its order and membership lemmas are proved once for every `f`.
- The expression-only code (`get_word_pronunciations`, `get_phrase_pronunciations`, the join, the
  partition enumeration) is written as functions.
- The module globals `CMPD` and `CMPD_INVERTED` are parameters: a `Table = map<Word,
  seq<Pronunciation>>` and an `Index = map<Pronunciation, seq<Word>>`.
- A Python dictionary iterates in insertion order. A Dafny `map` has no order, so `invert_CMPD`'s
  iteration order is an explicit `order: seq<Word>` that lists each key once (`IsKeyOrder`). The order of
  the words inside each bucket follows from it.
- A `KeyError` becomes a value:
  - An unknown query word is `Failure(word)`, carrying the first unknown word.
  - A block missing from the index is `None`, which `get_phrases` drops.

## Model

| member | source | states |
|---|---|---|
| `PronouncingIndex.Invert` | wordsmith.py:21-37 | The nested loop returns the inverted dictionary `Inverted(t, order)`. A word occurs in the bucket of `p` exactly as often as `p` occurs among its pronunciations, and a word outside the table never occurs. No bucket is left empty. |
| `PronouncingIndex.AddPronunciations` | wordsmith.py:31-35 | The inner loop over one word's pronunciations returns `AddAll(inv, w, prons)`. Every bucket gains `w` once per occurrence of its pronunciation among `prons`, after the words it already held; no other bucket changes. |
| `PronouncingIndex.InvertedBucket` | wordsmith.py:30-35 | The bucket of `p` equals the reference comprehension `[w for w in order for q in t[w] if q == p]`, so words appear in the table's iteration order, once per matching pronunciation. |
| `PronouncingIndex.InvertedCounts` | wordsmith.py:30-35 | Index membership with multiplicity: for every word and pronunciation, the bucket count equals the count of that pronunciation in the word's list, and 0 for words outside the table. |
| `PronouncingIndex.InvertedMembers` | wordsmith.py:30-35 | A word is in the bucket of `p` if and only if it is in the table and `p` is one of its pronunciations. |
| `PronouncingIndex.InvertedKeys` | wordsmith.py:34 | A pronunciation is a key of the index if and only if some word of the table has it. |
| `PronouncingIndex.InvertedBucketsNonEmpty` | wordsmith.py:34-35 | `get(p, [])` followed by `append` never leaves an empty bucket. |
| `PronouncingIndex.InvertedSize` | wordsmith.py:30-35 | The bucket lengths add up to the total number of (word, pronunciation) pairs of the table, in any key order. |
| `Expansion.LookupWords` | wordsmith.py:60-67 | On success the result has one entry per word, and entry `i` is the table's list for word `i`. It succeeds if and only if every word is in the table. Otherwise it fails with the first unknown word and no partial result. |
| `Expansion.ExpandCount` | wordsmith.py:91-96 | The number of phrase pronunciations is the product of the per-word pronunciation counts. |
| `Expansion.ExpandMembers` | wordsmith.py:91-96 | A phoneme sequence is a phrase pronunciation if and only if it is the in-order concatenation of one pronunciation chosen per word. |
| `Expansion.ExpandTwoByOne` | wordsmith.py:87-89 | A word with two pronunciations followed by a word with one gives exactly two phrase pronunciations, in product order. |
| `Expansion.PajamasHear` | wordsmith.py:87-89 | The docstring example: "pajamas hear" expands to exactly the two listed phoneme sequences. |
| `Sequences.ProductCount` | wordsmith.py:91 | `itertools.product` yields as many tuples as the list lengths multiply to. The product of no lists is one empty tuple. |
| `Sequences.ProductMembers` | wordsmith.py:120 | A tuple is in the product if and only if it picks one element from each list, in order. |
| `Sequences.SplitJoin` | wordsmith.py:123 | `' '.join` of space-free words can be split back into the same words, so a phrase determines its word list. |
| `Segmentation.Partitions` | wordsmith.py:137 | A sequence of length n ≥ 1 has exactly 2^(n−1) partitions, one per choice of cutting or not at each of its n − 1 boundaries. |
| `Segmentation.PartitionsSound` | wordsmith.py:137 | Every enumerated partition concatenates back to the sequence. For a non-empty sequence, its blocks are non-empty. |
| `Segmentation.PartitionsComplete` | wordsmith.py:137 | Every way of cutting a non-empty sequence into contiguous non-empty blocks is enumerated. |
| `Segmentation.PartitionsDistinct` | wordsmith.py:137 | No partition is enumerated twice. |
| `Segmentation.PartitionsExact` | wordsmith.py:137 | For a non-empty sequence, the enumeration is exactly its set of compositions, each once, 2^(n−1) in all. |
| `Homophones.PartToPhrases` | wordsmith.py:100-125 | The loop with early exit returns `Reconstruct(part, inv)`. It yields phrases if and only if every block is a key of the index. |
| `Homophones.ReconstructMembers` | wordsmith.py:111-125 | The phrases of a partition are exactly the space-joins of word sequences that put one word of each block's bucket per block, in block order. There are none if any block is missing. |
| `Homophones.ReconstructCount` | wordsmith.py:119-123 | When every block is found, the partition yields exactly the product of its bucket sizes. |
| `Homophones.GetPhrases` | wordsmith.py:128-143 | The nested loop returns `PhrasesOf(prons, inv)`. That is the in-order concatenation, over pronunciations and their partitions, of the reconstructions that did not miss. |
| `Homophones.ExtendWithParts` | wordsmith.py:137-141 | The inner loop over the partitions of one pronunciation appends `PhrasesOfParts(parts, inv)` to what was collected before: the reconstructions in partition order, misses contributing nothing. |
| `Sequences.FlatMapAppend` | wordsmith.py:132-141 | Extending a list with f(x) for each x of `a + b` gives the outputs for `a`, unchanged, followed by those for `b`. |
| `Sequences.FlatMapMembers` | wordsmith.py:132-141 | An element is in the extended list if and only if f of some input contains it. |
| `Homophones.PhrasesAppend` | wordsmith.py:132-143 | Result order: the phrases of earlier pronunciations stay in place, unchanged and not deduplicated, ahead of those of later ones. |
| `Homophones.PhrasesMembers` | wordsmith.py:136-141 | A phrase is in the result if and only if some partition of some phrase pronunciation reconstructs it. Missing partitions contribute nothing. |
| `Homophones.Wordsmith` | wordsmith.py:171-175 | Lookup, then expansion, then reconstruction, returning `Search(ws, t, inv)`. It fails if and only if some word is unknown. |
| `Homophones.SearchUnknownWord` | wordsmith.py:60-67 | A query fails if and only if some word is not in the table. The error names the first unknown word. |
| `Homophones.SearchSound` | wordsmith.py:146-175 | With the index built from the table, every result is the space-join of a word sequence that has pronunciations whose concatenation equals a pronunciation of the query. |
| `Homophones.SearchComplete` | wordsmith.py:146-175 | Conversely, every such homophonous word sequence is found, under any choice of pronunciations and across any word boundaries. This needs a query of at least one word and a table whose pronunciations are non-empty. |
| `Homophones.SearchFindsIdentity` | wordsmith.py:136-141 | The query phrase itself is always among the results when all its words are in the table. |
| `SearchExamples.HearHere` | wordsmith.py:107-109 | With "hear" and "here" sharing one pronunciation, searching "here" finds both. |
| `SearchExamples.IceCream` | wordsmith.py:153-162 | The docstring example: searching "ice cream" finds both "i scream" and "ice cream". |

## Left out

- Tokenization and lower-casing (`phrase.lower()`, `nltk.word_tokenize`, wordsmith.py:168-170) call a
  foreign library. The model starts from the list of lower-case tokens.
- Loading the corpus (`cmudict.dict()`, wordsmith.py:18) is I/O. The table is a parameter, and so is the
  index built from it once (wordsmith.py:40).
- The progress `print` (wordsmith.py:134-135) and the command-line entry point (wordsmith.py:178-191)
  are console I/O only.
- `more_itertools.partitions` is foreign code and is not part of this model. `Segmentation.Partitions`
  re-specifies it as "every composition, each once". Its enumeration order is not that library's: the
  model first lists the partitions that cut after the first symbol, then those that do not. So
  `GetPhrases` returns the same phrases with the same multiplicities as the source, but possibly in a
  different order.
- For the empty sequence, `Partitions` gives the one partition that consists of an empty block. This is
  what the library does, but the properties are stated only for non-empty sequences. An empty query
  therefore returns no phrase, so `SearchFindsIdentity` and `SearchComplete` require at least one word.
- Expansion.ExpandMembers: states which sequences are phrase pronunciations and, with `ExpandCount`, how
  many there are. It does not prove the position of each combination. The order is fixed only by the
  definition of `Product`, which follows `itertools.product` (first list slowest).
- The docstring example at wordsmith.py:107-109 names `part_to_phrase` and shows per-block word lists.
  The model follows the code, which returns space-joined phrases.
- Repeating a query gives the same result: every member here is a deterministic function of the table
  and the index, so no separate lemma is given.
- The source has no bound on the combinatorial growth of partitions and products, and the model adds
  none.
- The no-op `try`/`except KeyError: raise` in `get_pronunciation` (wordsmith.py:61-64) is just the
  propagation of the first `KeyError`, modelled as `Failure`.
