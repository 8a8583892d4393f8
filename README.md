# Index and storage engine of the CDPedia article index

This project is a Dafny model of `src/armado/sqlite_index.py`, the part of
CDPedia that builds and queries the offline article index. The file has
four pieces, and each has its own module:

- **Posting lists** (`Delta`, `DocSets`). A `DocSet` maps each document id
  to the title positions at which a word occurs in that document. It is
  stored as a byte string in three parts:
  - the position bytes, in ascending `(docid, position)` order;
  - a single `0xFF` separator;
  - the document ids, written as their successive differences, each
    difference in unsigned base-128 (the byte layout of unsigned LEB128,
    section 7.6 of the DWARF 4 standard).
- **Document pages** (`Writers`, `Reader`). While the index is built,
  `SQLmany` and `Compressed` batch their rows and write them every
  `PAGE_SIZE` = 512 appends. `Compressed` stores each batch of documents
  as one page of the `docs` table, keyed by its page number. At query
  time, `get_doc` finds document `k` at offset `k % 512` of page
  `k // 512`. `__len__` rebuilds the document count from the last page.
- **Build order** (`Ordering`). `order_source` buckets the source entries
  by score. `gen_ordered` emits the buckets in descending score order, and
  each bucket in arrival order.
- **File names** (`Filenames`, `Records`). `to_filename` derives an
  article's file name from its title. The build drops a file name that can
  be derived this way, and `get_doc` derives it again.

`Builder` puts these together as `Index.create`:
- it orders the source;
- it numbers the documents 0, 1, 2, … and writes them to pages;
- it collects, for every title word, the docset of that word;
- it writes one encoded token row per word.

The model's code follows the source's code. Loops and objects that change
state become methods, loops with invariants, and classes: `DocSet`,
`SQLmany`, `Compressed`, `delta_encode`, `delta_decode`, `encode`,
`decode`, `order_source`, `add_docs_keys` and `add_tokens_to_db`. Each
method's contract ties it to a specification function. All the proved
facts are stated about those functions:
- round trips;
- the byte layout;
- permutation, ordering and stability;
- page addressing.

The rest of the source only computes values, and is modelled as functions.

Notes on the encoding:
- Bytes are the subset type `Delta.byte` (0..255).
- Bit operations are written as arithmetic: `n & 0x7F` is `n % 128`,
  `n >> 7` is `n / 128`, and `b | 0x80` is `b + 128`.
- `doc |= x << shift` in `delta_decode` is `doc + x * 2^shift`. A loop
  invariant (`doc < 2^shift`) shows that the two operands have no bit in
  common, so `|` and `+` agree.
- Python's `divmod` by 512 is floor division. Dafny's `/` and `%` agree
  with it for negative ids as well.
- Each exception the source raises is a `Failure` value of `Wrappers.Error`.

Where the model departs from the source (every item is also listed under
"## Left out"):
- On an empty docset, `DocSet.encode` returns the empty `str` `""`. The
  model returns the empty byte string. Both have length 0, and `decode`
  treats both as an empty docset.
- `order_source` returns `quant`, the last index `enumerate` reached, not
  the number of entries. The model keeps that value (`|source| - 1`, or 0
  for an empty source). The source uses it only for the progress bar.

## Model

All source paths are in `src/armado/sqlite_index.py`.

Some source functions are modelled by a definition without a contract of
its own. These definitions are the specification that the lemmas in the
table are about:

- `DocSet._docs_list`: `DocSets.Postings`, a map from docid to positions.
- `DocSet.append` on that map: `DocSets.Insert`.
- `DocSet.__len__` and `DocSet.__eq__`: `DocSets.DocSet.Len` and
  `DocSets.DocSet.Equals`. See `DocSets.RoundTripLen` and
  `DocSets.RoundTripEqualIff`.
- `DocSet.encode`: `DocSets.EncodeDocs`. See `DocSets.EncodeFailsIff`,
  `DocSets.EncodeLayout` and `DocSets.RoundTrip`.
- `DocSet.decode`: `DocSets.DecodeDocs`.
- `delta_encode` and `delta_decode`: `Delta.DeltaBytes` and
  `Delta.DeltaDecoded`. One number's bytes are `Delta.Varint`.
- `to_filename`: `Filenames.ToFilename` and `Filenames.CanonicalTitle`. See
  `Filenames.ToFilenameSpec` and `Filenames.CanonicalTitleSpec`.
- The `docs` table written by `Compressed`: `Writers.Layout`. See
  `Writers.LayoutPageSizes`, `Writers.LayoutKeys` and
  `Writers.LayoutAddress`.
- `Index._get_page`, `Index.get_doc` and `Index.__len__`:
  `Reader.GetPage`, `Reader.GetDoc` and `Reader.Len`. See
  `Reader.GetDocStored`, `Reader.GetDocNoPage`, `Reader.GetDocPastEnd` and
  `Reader.LenLayout`.
- `ordered_source[page_score].append(value)`: `Ordering.Push`. The whole
  bucket dictionary is `Ordering.Bucketize`. See `Ordering.BucketizeAt`.
- `gen_ordered`: `Ordering.GenOrdered`. See `Ordering.OrderedPermutation`,
  `Ordering.OrderedScores` and `Ordering.OrderedStable`.
- `idx_dict` after `add_docs_keys`: `Builder.WordIndexOf`. See
  `Builder.WordIndexKeys` and `Builder.WordIndexSpec`.
- The build order: `Builder.BuildOrder`.

| member | source | states |
|---|---|---|
| Delta.DeltaEncode | src/armado/sqlite_index.py:65-86 | On a non-decreasing input, the output is the base-128 bytes of each difference from the previous number (starting from 0), concatenated in order. |
| Delta.DeltaDecode | src/armado/sqlite_index.py:88-111 | For every byte string, the result is the stream decoder's output from the initial state `prev_doc = doc = shift = 0`, including a trailing unfinished number being dropped. |
| Delta.VarintShape | src/armado/sqlite_index.py:74-84 | The bytes of one difference are never empty. Every byte but the last has 0x80 set, and the last is below 0x80. |
| Delta.VarintDecode | src/armado/sqlite_index.py:99-111 | Feeding the bytes of one number `n` to the decoder in state `(prev, doc, shift)` adds `n << shift` to `doc`, emits `prev + doc`, resets `doc` and `shift`, and continues on the rest. |
| Delta.VarintDecodeStep | src/armado/sqlite_index.py:101-103 | A continuation byte adds its low seven bits at `shift`, raises `shift` by 7 and emits nothing. |
| Delta.DecodeCons | src/armado/sqlite_index.py:101-109 | One iteration of the decoding loop: a byte below 0x80 ends a number and emits it; any other byte only accumulates. |
| Delta.DecodeAt | src/armado/sqlite_index.py:101-109 | The same step at index `i` of the byte string, as the loop of `delta_decode` takes it. |
| Delta.ShiftedBound | src/armado/sqlite_index.py:102 | With `doc < 2^shift`, adding a 7-bit group at `shift` keeps `doc < 2^(shift+7)`. The group's bits therefore lie above `doc`'s (the notes above explain why `|=` is then written as `+`). |
| Delta.DecodeFrom | src/armado/sqlite_index.py:99-111 | The decoder emits exactly one number per byte below 0x80. |
| Delta.DecodeFromSorted | src/armado/sqlite_index.py:107-108 | Every decoded number is at least the running `prev_doc`, and the decoded numbers never decrease. |
| Delta.DeltaDecodedSorted | src/armado/sqlite_index.py:88-111 | `delta_decode` of any bytes yields a non-decreasing sequence. |
| Delta.TerminatorsAppend | src/armado/sqlite_index.py:105 | The count of number-ending bytes is additive over concatenation. |
| Delta.VarintTerminators | src/armado/sqlite_index.py:77-84 | A byte run shaped like one encoded number ends exactly one number. |
| Delta.DeltaTerminators | src/armado/sqlite_index.py:72-84 | The encoding of `s[i..]` holds exactly `|s| - i` bytes below 0x80 and at least that many bytes. |
| Delta.DeltaBytesStep | src/armado/sqlite_index.py:72-73 | The encoding of `s[i..]` is the bytes of `s[i] - prev` followed by the encoding of `s[i+1..]` relative to `s[i]`. |
| Delta.DeltaRoundTripFrom | src/armado/sqlite_index.py:66-111 | Decoding the encoding of a non-decreasing `s[i..]` with the same starting `prev` gives `s[i..]` back. |
| Delta.DeltaRoundTrip | src/armado/sqlite_index.py:66-111 | `delta_decode(delta_encode(s)) == s` for every non-decreasing `s`. |
| DocSets.DocSet.constructor | src/armado/sqlite_index.py:44-45 | A new docset has no document ids. |
| DocSets.DocSet.Append | src/armado/sqlite_index.py:47-49 | The position is appended to the list of that docid, which is created if missing. No other docid changes. |
| DocSets.DocSet.Encode | src/armado/sqlite_index.py:113-129 | Returns exactly the `encode` specification of the docset's contents, including the error case. |
| DocSets.DocSet.Decode | src/armado/sqlite_index.py:131-143 | A fresh docset holding the `decode` specification of the bytes. A string of length above 1 without `0xFF` fails with the `ValueError` of `bytes.index`. |
| DocSets.EncodePostings | src/armado/sqlite_index.py:113-129 | The loop that flattens, sorts and writes the pairs computes the `encode` specification of the docset. |
| DocSets.PairLeOrder | src/armado/sqlite_index.py:120 | Python's tuple order on `(docid, position)` is total and antisymmetric. |
| DocSets.SortedPairsOrdered | src/armado/sqlite_index.py:117-120 | The sorted pair list is sorted by `(docid, position)`. |
| DocSets.SortedPairsCount | src/armado/sqlite_index.py:117-120 | The sorted pair list is a permutation of the flattened `(docid, position)` pairs: each pair occurs exactly as often as the position occurs in that docid's list. |
| DocSets.SortedPairsMembers | src/armado/sqlite_index.py:117-119 | A pair is in the sorted list if and only if its position is in its docid's list. |
| DocSets.SortedKeys | src/armado/sqlite_index.py:118 | The docids in strictly ascending order, each exactly once. |
| DocSets.GatherStep | src/armado/sqlite_index.py:118-119 | Extending the gathered list with the pairs of one more docid keeps it a permutation of the pairs of the docids visited so far. |
| DocSets.GatheredSorts | src/armado/sqlite_index.py:117-120 | Whatever order the dictionary visits the docids in, sorting the gathered list gives the same sorted pair list. |
| DocSets.EncodeGathered | src/armado/sqlite_index.py:117-129 | On the sorted gathered list, the method's two outcomes match the specification: `ValueError` if some position is at least 255, else positions + `0xFF` + delta bytes. |
| DocSets.BadPositions | src/armado/sqlite_index.py:124-125 | The source's any-check over the position list holds if and only if some pair has a position of 255 or more. |
| DocSets.BadPairIff | src/armado/sqlite_index.py:125 | The sorted pairs contain a position of 255 or more if and only if some docid's list does. |
| DocSets.EncodeFailsIff | src/armado/sqlite_index.py:115-126 | `encode` raises `ValueError` if and only if some position is 255 or more. An empty docset always encodes. |
| DocSets.Tag | src/armado/sqlite_index.py:119 | `(key, value) for value in values`: each position is paired with the docid, in order. |
| DocSets.SortedDocIds | src/armado/sqlite_index.py:121-122 | The docids of a sorted pair list never decrease, so `delta_encode` gets a valid input. |
| DocSets.EncodeLayout | src/armado/sqlite_index.py:117-129 | For a non-empty docset that encodes: the first n bytes are the positions in `(docid, position)` order, byte n is `0xFF`, `bytes.index(0xFF)` is n, and the rest is `delta_encode` of the sorted docids. |
| DocSets.SeparatedLayout | src/armado/sqlite_index.py:127-129 | Position bytes, all below `0xFF`, followed by `0xFF` and a tail: the first `0xFF` is the separator, and the tail is recovered intact. |
| DocSets.IndexOf | src/armado/sqlite_index.py:136 | `bytes.index`: an index holding the byte, with no earlier occurrence. |
| DocSets.IndexOfFirst | src/armado/sqlite_index.py:136 | The first index holding the byte is what `bytes.index` returns. |
| DocSets.DecodeDocs | src/armado/sqlite_index.py:131-143 | `decode` fails if and only if the input is longer than one byte and holds no `0xFF`; one byte or none decodes to an empty docset. |
| DocSets.ZipPairs | src/armado/sqlite_index.py:141 | Zipping the docids and positions of a pair list gives the pair list back. |
| DocSets.ZipLayout | src/armado/sqlite_index.py:136-141 | On an encoded docset, `decode` zips back exactly the sorted pair list. |
| DocSets.DecodeLayout | src/armado/sqlite_index.py:131-143 | On an encoded non-empty docset, `decode` takes the separator at the end of the position bytes. |
| DocSets.AddPairsConcat | src/armado/sqlite_index.py:141-142 | Appending two pair lists in a row is appending their concatenation. |
| DocSets.AddPairsTag | src/armado/sqlite_index.py:141-142 | Appending a docid's positions one by one extends its list by them, in order. |
| DocSets.TagCount | src/armado/sqlite_index.py:119 | Occurrences of a pair among the tagged positions of one docid. |
| DocSets.BlocksCount | src/armado/sqlite_index.py:118-119 | Occurrences of a pair in the blocks of distinct docids are the occurrences of its position under its docid. |
| DocSets.BlocksSorted | src/armado/sqlite_index.py:120 | Blocks of sorted positions under strictly ascending docids are sorted as pairs. |
| DocSets.AddBlocks | src/armado/sqlite_index.py:141-142 | Decoding the blocks of fresh docids adds each docid with its sorted list. |
| DocSets.AddSortedPairs | src/armado/sqlite_index.py:141-142 | Appending the sorted pair list to an empty `defaultdict` gives each docid its positions in ascending order. |
| DocSets.KeyMapAll | src/armado/sqlite_index.py:118-120 | The docids in ascending order, each with its positions sorted, form the normalised docset. |
| DocSets.NormalizeSpec | src/armado/sqlite_index.py:120 | Normalising keeps the docids. Each docid's list becomes sorted and keeps its multiset of positions. |
| DocSets.RoundTrip | src/armado/sqlite_index.py:113-143 | For a docset whose lists are non-empty and whose positions are below 255, `decode(encode(d))` succeeds and gives each docid its positions in ascending order. |
| DocSets.DecodeShape | src/armado/sqlite_index.py:131-143 | A decoded docset has only non-empty lists of byte positions below 255. |
| DocSets.AddPairsShape | src/armado/sqlite_index.py:141-142 | Appending positions below 255 keeps the lists non-empty and the positions below 255. |
| DocSets.RoundTripLen | src/armado/sqlite_index.py:51-52 | `len` (the number of distinct docids) survives the round trip. |
| DocSets.RoundTripEqualIff | src/armado/sqlite_index.py:62-63 | `decode(encode(d)) == d` under `__eq__` if and only if each docid's positions were in ascending order. |
| DocSets.NormalizeSorted | src/armado/sqlite_index.py:62-63 | A docset whose lists are already sorted is its own normal form. |
| Sorting.SortBySorted | src/armado/sqlite_index.py:120 | `list.sort` gives a sorted permutation of the same length. |
| Sorting.InsertBySorted | src/armado/sqlite_index.py:120 | Inserting into a sorted list keeps it sorted and adds exactly that element. |
| Sorting.InsertByPerm | src/armado/sqlite_index.py:120 | Inserting adds exactly the element to the multiset. |
| Sorting.SortedUnique | src/armado/sqlite_index.py:120 | Under an antisymmetric total order, two sorted permutations of the same multiset are equal. The sort result therefore does not depend on the gathering order. |
| Sorting.SortBySortedInput | src/armado/sqlite_index.py:120 | Sorting an already sorted list changes nothing. |
| Sorting.MaxExists | src/armado/sqlite_index.py:214 | `order by pageid desc limit 1` is well defined: every non-empty set of page ids has an element that is at least every element. |
| Sorting.Descending | src/armado/sqlite_index.py:384 | `sorted(keys, reverse=True)`: every key exactly once, in strictly descending order. |
| Sorting.Ascending | src/armado/sqlite_index.py:120 | Every element of a set exactly once, in strictly ascending order. |
| Filenames.Underscored | src/armado/sqlite_index.py:164 | `replace(" ", "_")`: same length, each space replaced and every other character kept. |
| Filenames.CanonicalTitleSpec | src/armado/sqlite_index.py:164-170 | Fails if and only if the title is empty. Otherwise the name has the title's length, its first character is upper-cased after the replacement, and every later character only has spaces replaced. |
| Filenames.CanonicalTitleShape | src/armado/sqlite_index.py:164-168 | A canonical name has no spaces, and its first character is not a lower-case ASCII letter. |
| Filenames.CanonicalTitleIdempotent | src/armado/sqlite_index.py:164-168 | Canonicalising a canonical name gives the same name. |
| Filenames.ToFilenameSpec | src/armado/sqlite_index.py:162-174 | `to_filename` raises `ValueError` if and only if the title is empty. Otherwise it is the sharded path of the canonical name. |
| Filenames.ToFilenameSpaces | src/armado/sqlite_index.py:164 | Titles that differ only in spaces versus underscores get the same file name. |
| Records.Compact | src/armado/sqlite_index.py:374-378 | Fails if and only if the title is empty. The title and payload are kept. The file name becomes `None` exactly when it was `None` or equals `to_filename(title)`, and is otherwise kept. |
| Records.Restore | src/armado/sqlite_index.py:250-252 | A set file name is returned unchanged. A `None` one is replaced by `to_filename(title)`. Title, payload and score are kept, and only an empty title with no file name fails. |
| Records.CompactRestore | src/armado/sqlite_index.py:377-378 | For a record `order_source` accepted, `get_doc`'s repair gives back the original record. A set file name is always kept; a `None` one becomes `to_filename(title)`. |
| Records.CompactIdempotent | src/armado/sqlite_index.py:377-378 | Compacting a compacted record changes nothing. |
| Writers.SQLmany.constructor | src/armado/sqlite_index.py:267-272 | An empty writer: no count, an empty buffer and nothing written. |
| Writers.SQLmany.Append | src/armado/sqlite_index.py:274-285 | Returns the number of earlier appends, so ids run 0, 1, 2, … in call order. It writes and clears the buffer exactly when the count becomes a multiple of 512. The buffer always holds `count % 512` rows, and written rows plus buffer are all appended rows in order. |
| Writers.SQLmany.Finish | src/armado/sqlite_index.py:287-292 | Writes the leftover buffer, so the table holds every appended row in order. |
| Writers.SQLmany.Persist | src/armado/sqlite_index.py:294-297 | `executemany` appends the buffer to the table. |
| Writers.BuildPage | src/armado/sqlite_index.py:305-309 | The batch loop succeeds if and only if every word count fits a byte; otherwise it fails with `OverflowError`. |
| Writers.Chunk | src/armado/sqlite_index.py:278-290 | Page `p` receives the documents from `p * 512` on. It holds 512 of them unless it is the last page, which holds the remainder. |
| Writers.Compressed.constructor | src/armado/sqlite_index.py:267-272 | An empty writer with an empty `docs` table. |
| Writers.Compressed.Append | src/armado/sqlite_index.py:274-313 | Returns the number of earlier appends. It keeps every full page written under its page number. It fails with `OverflowError` exactly when it fills a page holding a word count above 255, and then leaves the table unchanged. |
| Writers.Compressed.Finish | src/armado/sqlite_index.py:287-313 | Succeeds if and only if every appended word count fits a byte. The `docs` table is then exactly the page layout of all appended documents. |
| Writers.Compressed.Persist | src/armado/sqlite_index.py:303-313 | Writes the buffer as the page with id `(count - 1) // 512`, or fails with `OverflowError` and writes nothing. |
| Writers.StepNoFlush | src/armado/sqlite_index.py:276-278 | An append that does not complete a page keeps the writer invariant: full pages in the table, the rest in the buffer. |
| Writers.StepFlush | src/armado/sqlite_index.py:276-312 | An append that completes a page writes it as page `count // 512` and keeps the writer invariant with an empty buffer. |
| Writers.FinishState | src/armado/sqlite_index.py:287-312 | All appended counts fit if and only if the buffer's do. The final layout is the table plus the leftover page, if any, under its page id. |
| Writers.LayoutPageSizes | src/armado/sqlite_index.py:278-312 | Pages are numbered 0, 1, 2, …, every page but the last holds exactly 512 records, and the last holds what remains. |
| Writers.LayoutKeys | src/armado/sqlite_index.py:312 | The page ids are exactly `0 .. PageCount - 1`. |
| Writers.LayoutAddress | src/armado/sqlite_index.py:312 | The document with id k sits at offset `k % 512` of page `k // 512`, with its word count at the same offset. |
| Writers.LayoutSnoc | src/armado/sqlite_index.py:303-313 | Writing one more batch after full pages adds exactly one page, under the next page number. |
| Writers.FitsSplit | src/armado/sqlite_index.py:306-308 | The word counts of a concatenation fit if and only if those of both parts fit. |
| Writers.LayoutEmpty | src/armado/sqlite_index.py:287-290 | With no documents the `docs` table is empty. |
| Reader.GetDocStored | src/armado/sqlite_index.py:241-252 | Every id the writer returned reads back as the record written under it, with its file name derived again if it was dropped. |
| Reader.GetDocNoPage | src/armado/sqlite_index.py:243-246 | Negative ids and ids past the last page find no page, and `get_doc` returns `None`. |
| Reader.GetDocPastEnd | src/armado/sqlite_index.py:243-247 | Ids past the end of a partly filled last page raise `IndexError`. |
| Reader.LenLayout | src/armado/sqlite_index.py:211-218 | On a written table, `__len__` (last page id × 512 + the length of the last page) equals the number of appended documents. On an empty table it fails. |
| Reader.RandomInRange | src/armado/sqlite_index.py:220-223 | Every id in `[0, len)` that `random` can draw reads back a record, never `None`. |
| Ordering.Filter | src/armado/sqlite_index.py:380 | The bucket of one score keeps only entries with that score and is no longer than the source. |
| Ordering.OrderSource | src/armado/sqlite_index.py:369-381 | Fails with `ValueError` if and only if some title is empty. Otherwise it returns the buckets of the compacted source and `quant`, the last index `enumerate` reached. |
| Ordering.CompactedSnoc | src/armado/sqlite_index.py:373-379 | Compacting one more entry extends the compacted prefix by that entry. |
| Ordering.BucketizeSnoc | src/armado/sqlite_index.py:380 | Bucketing one more entry appends it to its score's bucket. |
| Ordering.BucketizeAt | src/armado/sqlite_index.py:371-380 | A score has a bucket if and only if some entry has that score. The bucket is that score's entries in source order. |
| Ordering.BucketizeUniform | src/armado/sqlite_index.py:380 | Every entry of a bucket has the bucket's score. |
| Ordering.FilterAppend | src/armado/sqlite_index.py:380 | Selecting one score distributes over concatenation. |
| Ordering.FilterCount | src/armado/sqlite_index.py:380 | Selecting one score keeps every entry of that score as often as it occurs, and no other entry. |
| Ordering.ConcatCount | src/armado/sqlite_index.py:385-386 | Emitting distinct buckets one after another yields each entry as often as its bucket holds it. |
| Ordering.ConcatFilter | src/armado/sqlite_index.py:385-386 | Selecting one score from the emitted stream gives exactly that score's bucket. |
| Ordering.ConcatNonIncreasing | src/armado/sqlite_index.py:384-386 | Buckets emitted by strictly descending score yield a non-increasing score stream. |
| Ordering.OrderedPermutation | src/armado/sqlite_index.py:369-386 | `gen_ordered(order_source(src))` is a permutation of the source entries. |
| Ordering.OrderedScores | src/armado/sqlite_index.py:384-386 | The scores of the emitted stream never increase. |
| Ordering.OrderedStable | src/armado/sqlite_index.py:380-386 | Entries with equal scores keep their source order. |
| Builder.OccurrencesSound | src/armado/sqlite_index.py:345-347 | Every recorded position of a word among the first j title words holds that word. |
| Builder.OccurrencesAscending | src/armado/sqlite_index.py:345-347 | `enumerate` records a word's positions in strictly ascending order. |
| Builder.OccurrencesComplete | src/armado/sqlite_index.py:345-347 | Every position holding the word is recorded. |
| Builder.OccurrencesNonEmpty | src/armado/sqlite_index.py:345-347 | A word gets a position if and only if it occurs among the words. |
| Builder.VocabularyIn | src/armado/sqlite_index.py:339-347 | A word is in the vocabulary if and only if some document's title words contain it. |
| Builder.WordIndexKeys | src/armado/sqlite_index.py:334-347 | `idx_dict` has a docset for a word if and only if some document's title words contain it. |
| Builder.WordIndexSpec | src/armado/sqlite_index.py:344-347 | A word's docset holds document d if and only if d's words contain it. Its list for d is the word's positions in d's title, in ascending order. |
| Builder.WordIndexNonEmpty | src/armado/sqlite_index.py:345-347 | Every docset in `idx_dict` is non-empty and has only non-empty position lists. |
| Builder.AddTitleWords | src/armado/sqlite_index.py:345-347 | The inner loop over one title adds exactly that document's word positions to the index built so far. |
| Builder.PartialAdd | src/armado/sqlite_index.py:347 | One `idx_dict[word].append(docid, idx)` extends the partial index by one position. |
| Builder.PartialNext | src/armado/sqlite_index.py:339-347 | Finishing one document's words gives the partial index of the next prefix. |
| Builder.IndexPartial | src/armado/sqlite_index.py:339-347 | The word index of the first k documents is the loop's state before document k. |
| Builder.PartialDone | src/armado/sqlite_index.py:339-347 | After the loop, `idx_dict` is exactly the word index of the documents seen. |
| Builder.PartialDocSet | src/armado/sqlite_index.py:339-347 | After the loop, each word's docset is that word's docset in the documents seen. |
| Builder.OverflowAt | src/armado/sqlite_index.py:306-308 | An append that fails on a page means some document of the source has more than 255 words. |
| Builder.AddDocument | src/armado/sqlite_index.py:343-347 | One iteration of `add_docs_keys`. It either fails with `OverflowError` on a source with a word count above 255, or appends document k and adds its words, so the index is that of the first k + 1 documents. |
| Builder.AddDocsKeys | src/armado/sqlite_index.py:332-350 | Succeeds if and only if every title has at most 255 words. It then returns the word index of the numbered source and the page layout of its documents. |
| Builder.FitsItems | src/armado/sqlite_index.py:306-308 | The documents' word counts fit `array("B")` if and only if every title has at most 255 words. |
| Builder.WordIndexRoundTrip | src/armado/sqlite_index.py:113-143 | Every word's docset encodes, since positions are below 255 when titles have at most 255 words, and decodes back to itself. |
| Builder.AddTokensToDb | src/armado/sqlite_index.py:352-360 | One row per word of `idx_dict` with its docset, each word once, in any dictionary order. `Indexed` counts the (word, document) pairs of those rows. |
| Builder.EmitStep | src/armado/sqlite_index.py:356-359 | Emitting one more word keeps the rows an exact listing of the words emitted so far and adds that word's docid count. |
| Builder.EmitDone | src/armado/sqlite_index.py:356-360 | Once every word has been emitted, the rows list the whole index. |
| Builder.RowWordsIn | src/armado/sqlite_index.py:356 | A word is among the rows' words if and only if some row carries it. |
| Builder.RowsCount | src/armado/sqlite_index.py:355-356 | The token table has exactly one row per word of the index. |
| Builder.DistinctCard | src/armado/sqlite_index.py:356 | Rows with distinct words carry as many words as there are rows. |
| Builder.EncodeRows | src/armado/sqlite_index.py:149-151 | The docset adapter applied to every token row. It succeeds if and only if every docset encodes, and each cell is then its row's word with the encoded docset. |
| Builder.RowsEncodable | src/armado/sqlite_index.py:149-151 | Every row of a word index whose titles have at most 255 words encodes. |
| Builder.TokensDecode | src/armado/sqlite_index.py:154-156 | The `tokens` table holds one row per word, and each blob decodes through the docset converter to that word's docset. |
| Builder.OrderedWordCounts | src/armado/sqlite_index.py:383-395 | Build order is a permutation, so its word counts fit exactly when the source's do. |
| Builder.Create | src/armado/sqlite_index.py:254-397 | The build fails if and only if some title is empty or has more than 255 words. An empty title gives `InvalidTitle` (the `ValueError` of `to_filename`) even when another title is too long, because ordering runs before any page is written; otherwise the failure is `ByteOverflow`. On success the `docs` table is the page layout of the ordered source, the `tokens` table decodes to the word index of the ordered source, and `Indexed` is the (word, document) pair count of a listing of that index. |
| Builder.BuildTitled | src/armado/sqlite_index.py:369-386 | Every document of the build order has a non-empty title, so `get_doc` can derive any dropped file name. |
| Builder.BuildGetDoc | src/armado/sqlite_index.py:241-252 | After a successful build, `get_doc(k)` for every `k` below the number of source entries returns some source entry's record and score exactly as the source gave them, with a dropped file name derived again as `to_filename(title)`. |

## Left out

- SQLite (`open_connection`, the PRAGMAs, `create_database`, `create_indexes`, `vacuum`, SQL text): the two tables are in-memory values. The `docs` table is a map from page id to page, and the `tokens` table is a sequence of rows.
- Pickle, `pickletools.optimize` and lzma: compressing and decompressing a page is the identity, and a page holds its records directly.
- `functools.lru_cache` on `__len__` and `_get_page`: caching does not change results, and the model has no cache.
- `get_doc` sets the regenerated file name on the cached page's row in place. The model returns the repaired row and leaves the page unchanged. A later read repairs the row again to the same value.
- `Index.random`: `random.randint` is not modelled. `Reader.RandomInRange` states that every id it can draw reads back a record.
- `Index.keys`, `items`, `values` and `__contains__`: these are queries over the SQLite tables and are not part of this model.
- `Index.__init__` and the `directory` argument of `create`: these are file paths and connections.
- `to3dirs.get_path_file` and `os.path.join` are not part of this model. Together they are the function parameter `shard`.
- `Filenames.Upper` covers only ASCII letters. Python's `str.upper` on other scripts (and special cases such as `ß`) is not modelled.
- `DocSet.__repr__`: string formatting for display.
- Logging, `ProgressBar`, `timeit` statistics, `dict_stats` and the `print` on non-monotonic scores in `add_docs_keys`: display only.
- Delta.DeltaEncode: requires a non-decreasing input. On a decreasing input the source's `>>= 7` never reaches 0 on a negative difference, so the loop does not end.
- DocSets.DocSet.Encode: returns the empty byte string for an empty docset, where the source returns the empty `str` `""`. Both have length 0 and decode as an empty docset.
- DocSets.DocSet.Decode: a missing `0xFF` is modelled as the `NoSeparator` failure, where Python raises `ValueError` from `bytes.index`.
- Builder.AddTokensToDb: the iteration order of `idx_dict.items()` is arbitrary (`:|`). It does not follow Python's insertion order, so the order of the token rows is left open.
- Ordering.OrderSource: scores are modelled as `int`, a total order. Python float scores are not modelled: `1` and `1.0` falling into one bucket, and a NaN key leaving `sorted` ill-defined.
- Ordering.OrderSource: `quant` is kept as the source computes it (`|source| - 1`, or 0 for an empty source). The source only uses it as the progress bar's total.
- Writers.Compressed is a class of its own, not a subclass of `Writers.SQLmany`. It carries the ghost fields `appended` and `pages`, which record what was appended and how many pages were written.
- Array bounds of `array('B')` in `DocSet.encode` are not a separate error: the `ValueError` check on positions of 255 or more comes first, so no position reaches the byte conversion out of range.
