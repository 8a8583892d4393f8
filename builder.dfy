/**
 * `Index.create`: the build. `add_docs_keys` numbers the ordered entries
 * 0, 1, 2, ..., writes each document to the `docs` table through
 * `Compressed`, and collects for every word the docset of the documents
 * and title positions it occurs at; `add_tokens_to_db` writes one row per
 * word through `SQLmany` and counts the (word, document) pairs.
 */
module Builder {
  import opened Wrappers
  import opened Sorting
  import opened Filenames
  import opened Records
  import DocSets
  import Delta
  import opened Writers
  import opened Ordering
  import Reader

  /** `idx_dict`: word to the docset of that word. */
  type WordIndex = map<string, DocSets.Postings>

  function PostingsOf(idx: WordIndex, w: string): DocSets.Postings
  {
    if w in idx then idx[w] else map[]
  }

  /** `idx_dict[word].append(docid, idx)` on a `defaultdict(DocSet)`. */
  function AddPosting(idx: WordIndex, w: string, docid: nat, position: nat): WordIndex
  {
    idx[w := DocSets.Insert(PostingsOf(idx, w), docid, position)]
  }

  /** The positions among the first `j` words at which `w` occurs, in the order `enumerate` visits them. */
  function Occurrences(words: seq<string>, w: string, j: nat): seq<nat>
    requires j <= |words|
  {
    if j == 0 then []
    else Occurrences(words, w, j - 1) + (if words[j - 1] == w then [j - 1] else [])
  }

  function AllOccurrences(words: seq<string>, w: string): seq<nat>
  {
    Occurrences(words, w, |words|)
  }

  /** Every occurrence is an index below `j` holding `w`. */
  lemma {:induction false} OccurrencesSound(words: seq<string>, w: string, j: nat)
    requires j <= |words|
    ensures forall i :: 0 <= i < |Occurrences(words, w, j)| ==>
      Occurrences(words, w, j)[i] < j && words[Occurrences(words, w, j)[i]] == w
  {
    if j > 0 {
      OccurrencesSound(words, w, j - 1);
    }
  }

  /** The occurrences are strictly ascending. */
  lemma {:induction false} OccurrencesAscending(words: seq<string>, w: string, j: nat)
    requires j <= |words|
    ensures forall i, k :: 0 <= i < k < |Occurrences(words, w, j)| ==>
      Occurrences(words, w, j)[i] < Occurrences(words, w, j)[k]
  {
    if j > 0 {
      OccurrencesAscending(words, w, j - 1);
      OccurrencesSound(words, w, j - 1);
    }
  }

  /** Every index below `j` holding `w` is an occurrence. */
  lemma {:induction false} OccurrencesComplete(words: seq<string>, w: string, j: nat)
    requires j <= |words|
    ensures forall p :: 0 <= p < j && words[p] == w ==> p in Occurrences(words, w, j)
  {
    if j > 0 {
      OccurrencesComplete(words, w, j - 1);
    }
  }

  /** There is an occurrence exactly when `w` is among the first `j` words. */
  lemma OccurrencesNonEmpty(words: seq<string>, w: string, j: nat)
    requires j <= |words|
    ensures |Occurrences(words, w, j)| > 0 <==> w in words[..j]
  {
    var r := Occurrences(words, w, j);
    OccurrencesSound(words, w, j);
    OccurrencesComplete(words, w, j);
    if |r| > 0 {
      assert words[..j][r[0]] == w;
    }
    if w in words[..j] {
      var p :| 0 <= p < j && words[..j][p] == w;
      assert p in r;
    }
  }

  /** The word-count and record pairs `add_docs_keys` hands to `Compressed.append`. */
  function Items(es: seq<Entry>): (r: seq<Item>)
    ensures |r| == |es|
    ensures forall i :: 0 <= i < |es| ==> r[i] == (|es[i].words|, Row(es[i].data, es[i].score))
  {
    seq(|es|, i requires 0 <= i < |es| => (|es[i].words|, Row(es[i].data, es[i].score)))
  }

  // ---------------------------------------------------------------------
  // The word index of a numbered list of entries
  // ---------------------------------------------------------------------

  /** Every word of every title. */
  function Vocabulary(es: seq<Entry>): set<string>
  {
    set d, i | 0 <= d < |es| && 0 <= i < |es[d].words| :: es[d].words[i]
  }

  /**
   * The docset of `w` when each entry's document id is its position in
   * `es`: every document whose words contain `w`, with the indices of `w`
   * among them.
   */
  function DocSetOf(es: seq<Entry>, w: string): DocSets.Postings
  {
    map e: nat | e < |es| && w in es[e].words :: AllOccurrences(es[e].words, w)
  }

  /** The word index of `es`: one docset per word of its vocabulary. */
  function WordIndexOf(es: seq<Entry>): WordIndex
  {
    map w | w in Vocabulary(es) :: DocSetOf(es, w)
  }

  lemma VocabularyIn(es: seq<Entry>, w: string)
    ensures w in Vocabulary(es) <==> exists d :: 0 <= d < |es| && w in es[d].words
  {
    if exists d :: 0 <= d < |es| && w in es[d].words {
      var d :| 0 <= d < |es| && w in es[d].words;
      var i :| 0 <= i < |es[d].words| && es[d].words[i] == w;
      assert es[d].words[i] in Vocabulary(es);
    }
  }

  /** A word is a key exactly when some document's words contain it. */
  lemma WordIndexKeys(es: seq<Entry>, w: string)
    ensures w in WordIndexOf(es) <==> exists d :: 0 <= d < |es| && w in es[d].words
  {
    VocabularyIn(es, w);
  }

  /**
   * Document `d` is in the docset of `w` exactly when `w` is among its
   * words, and its positions there are the indices of `w` in its word
   * list, ascending.
   */
  lemma WordIndexSpec(es: seq<Entry>, w: string, d: nat)
    ensures d in PostingsOf(WordIndexOf(es), w) <==> d < |es| && w in es[d].words
    ensures DocSets.Get(PostingsOf(WordIndexOf(es), w), d) == if d < |es| then AllOccurrences(es[d].words, w) else []
  {
    VocabularyIn(es, w);
    if d < |es| {
      var words := es[d].words;
      OccurrencesNonEmpty(words, w, |words|);
      assert words[..|words|] == words;
      if w in words {
        assert w in Vocabulary(es);
      }
    }
  }

  // ---------------------------------------------------------------------
  // The word index part way through `add_docs_keys`
  // ---------------------------------------------------------------------

  /**
   * The word index after documents `0 .. k-1`, and then the first `j`
   * words of document `k`, whose words are `words`, were added.
   */
  ghost predicate Partial(idx: WordIndex, es: seq<Entry>, k: nat, words: seq<string>, j: nat)
    requires k <= |es| && j <= |words|
  {
    PartialKeys(idx, es, k, words, j) && PartialMembers(idx, es, k, words, j) && PartialGets(idx, es, k, words, j)
  }

  /** The words with a docset: those of the documents before `k` and the first `j` of `words`. */
  ghost predicate PartialKeys(idx: WordIndex, es: seq<Entry>, k: nat, words: seq<string>, j: nat)
    requires k <= |es| && j <= |words|
  {
    forall w :: w in idx <==> (exists d :: 0 <= d < k && w in es[d].words) || w in words[..j]
  }

  /** The documents in the docset of each word. */
  ghost predicate PartialMembers(idx: WordIndex, es: seq<Entry>, k: nat, words: seq<string>, j: nat)
    requires k <= |es| && j <= |words|
  {
    forall w, e: nat :: e in PostingsOf(idx, w) <==> (e < k && w in es[e].words) || (e == k && w in words[..j])
  }

  /** The positions of each word in each document. */
  ghost predicate PartialGets(idx: WordIndex, es: seq<Entry>, k: nat, words: seq<string>, j: nat)
    requires k <= |es| && j <= |words|
  {
    forall w, e: nat :: DocSets.Get(PostingsOf(idx, w), e)
      == if e < k then AllOccurrences(es[e].words, w) else if e == k then Occurrences(words, w, j) else []
  }

  /** The index of the documents before `k`, read as the state before document `k`'s first word. */
  lemma IndexPartial(es: seq<Entry>, k: nat, words: seq<string>)
    requires k <= |es|
    ensures Partial(WordIndexOf(es[..k]), es, k, words, 0)
  {
    var idx := WordIndexOf(es[..k]);
    IndexPartialKeys(es, k, words);
    forall w, e: nat ensures e in PostingsOf(idx, w) <==> (e < k && w in es[e].words) || (e == k && w in words[..0]) {
      IndexPartialAt(es, k, words, w, e);
    }
    forall w, e: nat ensures DocSets.Get(PostingsOf(idx, w), e)
        == if e < k then AllOccurrences(es[e].words, w) else if e == k then Occurrences(words, w, 0) else []
    {
      IndexPartialAt(es, k, words, w, e);
    }
  }

  lemma IndexPartialKeys(es: seq<Entry>, k: nat, words: seq<string>)
    requires k <= |es|
    ensures PartialKeys(WordIndexOf(es[..k]), es, k, words, 0)
  {
    assert words[..0] == [];
    forall w ensures w in WordIndexOf(es[..k]) <==> exists d :: 0 <= d < k && w in es[d].words {
      IndexPartialKey(es, k, w);
    }
  }

  lemma IndexPartialKey(es: seq<Entry>, k: nat, w: string)
    requires k <= |es|
    ensures w in WordIndexOf(es[..k]) <==> exists d :: 0 <= d < k && w in es[d].words
  {
    var pre := es[..k];
    WordIndexKeys(pre, w);
    if exists d :: 0 <= d < k && w in es[d].words {
      var d :| 0 <= d < k && w in es[d].words;
      assert pre[d] == es[d];
    }
  }

  lemma IndexPartialAt(es: seq<Entry>, k: nat, words: seq<string>, w: string, e: nat)
    requires k <= |es|
    ensures e in PostingsOf(WordIndexOf(es[..k]), w) <==> (e < k && w in es[e].words) || (e == k && w in words[..0])
    ensures DocSets.Get(PostingsOf(WordIndexOf(es[..k]), w), e)
      == if e < k then AllOccurrences(es[e].words, w) else if e == k then Occurrences(words, w, 0) else []
  {
    var pre := es[..k];
    WordIndexSpec(pre, w, e);
    assert words[..0] == [];
    assert Occurrences(words, w, 0) == [];
    if e < k {
      assert pre[e] == es[e];
    }
  }

  lemma AddKeysStep(idx: WordIndex, es: seq<Entry>, k: nat, words: seq<string>, j: nat, w: string)
    requires k <= |es| && j < |words|
    requires w in idx <==> (exists d :: 0 <= d < k && w in es[d].words) || w in words[..j]
    ensures w in AddPosting(idx, words[j], k, j) <==> (exists d :: 0 <= d < k && w in es[d].words) || w in words[..j + 1]
  {
    assert words[..j + 1] == words[..j] + [words[j]];
  }

  lemma AddMemberStep(idx: WordIndex, es: seq<Entry>, k: nat, words: seq<string>, j: nat, w: string, e: nat)
    requires k <= |es| && j < |words|
    requires e in PostingsOf(idx, w) <==> (e < k && w in es[e].words) || (e == k && w in words[..j])
    ensures e in PostingsOf(AddPosting(idx, words[j], k, j), w)
        <==> (e < k && w in es[e].words) || (e == k && w in words[..j + 1])
  {
    assert words[..j + 1] == words[..j] + [words[j]];
  }

  lemma AddGetStep(idx: WordIndex, es: seq<Entry>, k: nat, words: seq<string>, j: nat, w: string, e: nat)
    requires k <= |es| && j < |words|
    requires DocSets.Get(PostingsOf(idx, w), e)
          == if e < k then AllOccurrences(es[e].words, w) else if e == k then Occurrences(words, w, j) else []
    ensures DocSets.Get(PostingsOf(AddPosting(idx, words[j], k, j), w), e)
          == if e < k then AllOccurrences(es[e].words, w) else if e == k then Occurrences(words, w, j + 1) else []
  {
  }

  /** `idx_dict[word].append(docid, idx)` for the next word keeps the index in step with the words read. */
  lemma PartialAdd(idx: WordIndex, es: seq<Entry>, k: nat, words: seq<string>, j: nat)
    requires k <= |es| && j < |words| && Partial(idx, es, k, words, j)
    ensures Partial(AddPosting(idx, words[j], k, j), es, k, words, j + 1)
  {
    var next := AddPosting(idx, words[j], k, j);
    forall w ensures w in next <==> (exists d :: 0 <= d < k && w in es[d].words) || w in words[..j + 1] {
      AddKeysStep(idx, es, k, words, j, w);
    }
    forall w, e: nat ensures e in PostingsOf(next, w) <==> (e < k && w in es[e].words) || (e == k && w in words[..j + 1]) {
      AddMemberStep(idx, es, k, words, j, w, e);
    }
    forall w, e: nat ensures DocSets.Get(PostingsOf(next, w), e)
        == if e < k then AllOccurrences(es[e].words, w) else if e == k then Occurrences(words, w, j + 1) else []
    {
      AddGetStep(idx, es, k, words, j, w, e);
    }
  }

  /** Once every word of document `k` is added, document `k` counts as done. */
  lemma PartialNext(idx: WordIndex, es: seq<Entry>, k: nat, words: seq<string>)
    requires k < |es| && Partial(idx, es, k, es[k].words, |es[k].words|)
    ensures Partial(idx, es, k + 1, words, 0)
  {
    var cur := es[k].words;
    assert cur[..|cur|] == cur;
    assert words[..0] == [];
    NextKeys(idx, es, k, words);
    assert PartialMembers(idx, es, k + 1, words, 0);
    assert PartialGets(idx, es, k + 1, words, 0);
  }

  lemma NextKeys(idx: WordIndex, es: seq<Entry>, k: nat, words: seq<string>)
    requires k < |es| && PartialKeys(idx, es, k, es[k].words, |es[k].words|)
    ensures PartialKeys(idx, es, k + 1, words, 0)
  {
    var cur := es[k].words;
    assert cur[..|cur|] == cur;
    assert words[..0] == [];
    forall w ensures w in idx <==> exists d :: 0 <= d < k + 1 && w in es[d].words {
      NextKey(idx, es, k, w);
    }
  }

  lemma NextKey(idx: WordIndex, es: seq<Entry>, k: nat, w: string)
    requires k < |es|
    requires w in idx <==> (exists d :: 0 <= d < k && w in es[d].words) || w in es[k].words
    ensures w in idx <==> exists d :: 0 <= d < k + 1 && w in es[d].words
  {
    if w in es[k].words {
      assert 0 <= k < k + 1 && w in es[k].words;
    }
  }

  lemma PartialDocSet(idx: WordIndex, es: seq<Entry>, k: nat, w: string)
    requires k <= |es| && Partial(idx, es, k, [], 0) && w in idx
    ensures idx[w] == DocSetOf(es[..k], w)
  {
    var ds := DocSetOf(es[..k], w);
    forall e: nat ensures e in idx[w] <==> e in ds {
      assert e in PostingsOf(idx, w) <==> e < k && w in es[e].words;
      if e < k {
        assert es[..k][e] == es[e];
      }
    }
    forall e: nat | e in idx[w] ensures idx[w][e] == ds[e] {
      assert DocSets.Get(PostingsOf(idx, w), e) == AllOccurrences(es[e].words, w);
      assert es[..k][e] == es[e];
    }
  }

  /** After document `k - 1` the index is the word index of the documents before `k`. */
  lemma PartialDone(idx: WordIndex, es: seq<Entry>, k: nat)
    requires k <= |es| && Partial(idx, es, k, [], 0)
    ensures idx == WordIndexOf(es[..k])
  {
    var full := WordIndexOf(es[..k]);
    forall w ensures w in idx <==> w in full {
      PartialDoneKey(idx, es, k, w);
    }
    forall w | w in idx ensures idx[w] == full[w] {
      PartialDocSet(idx, es, k, w);
    }
  }

  lemma PartialDoneKey(idx: WordIndex, es: seq<Entry>, k: nat, w: string)
    requires k <= |es| && Partial(idx, es, k, [], 0)
    ensures w in idx <==> w in WordIndexOf(es[..k])
  {
    var none: seq<string> := [];
    assert w !in none[..0];
    IndexPartialKey(es, k, w);
  }

  // ---------------------------------------------------------------------
  // What the docsets hold
  // ---------------------------------------------------------------------

  /** Every docset of a word in the index is one that `DocSet.append` calls build. */
  lemma WordIndexNonEmpty(es: seq<Entry>, w: string)
    requires w in WordIndexOf(es)
    ensures |WordIndexOf(es)[w]| > 0 && DocSets.NonEmptyLists(WordIndexOf(es)[w])
  {
    WordIndexKeys(es, w);
    var d :| 0 <= d < |es| && w in es[d].words;
    WordIndexSpec(es, w, d);
    assert d in WordIndexOf(es)[w].Keys;
    forall k | k in WordIndexOf(es)[w] ensures |WordIndexOf(es)[w][k]| > 0 {
      WordIndexSpec(es, w, k);
      var words := es[k].words;
      OccurrencesNonEmpty(words, w, |words|);
      assert words[..|words|] == words;
    }
  }

  predicate AllBelow(s: seq<nat>, bound: nat)
  {
    forall i :: 0 <= i < |s| ==> s[i] < bound
  }

  /** Word counts that fit a byte. */
  predicate WordCountsFit(es: seq<Entry>)
  {
    forall i :: 0 <= i < |es| ==> |es[i].words| < 256
  }

  lemma FitsItems(es: seq<Entry>)
    ensures Fits(Items(es)) <==> WordCountsFit(es)
  {
    if Fits(Items(es)) {
      forall i | 0 <= i < |es| ensures |es[i].words| < 256 {
        assert Items(es)[i].0 == |es[i].words|;
      }
    }
  }

  /**
   * When every word count fits its byte, every docset of the index encodes
   * without `ValueError`, and decoding gives back exactly that docset:
   * positions are title indices below the word count, so below 255, and
   * they were appended in ascending order.
   */
  lemma WordIndexRoundTrip(es: seq<Entry>, w: string)
    requires WordCountsFit(es) && w in WordIndexOf(es)
    ensures DocSets.EncodeDocs(WordIndexOf(es)[w]).Success?
    ensures DocSets.DecodeDocs(DocSets.EncodeDocs(WordIndexOf(es)[w]).value) == Success(WordIndexOf(es)[w])
  {
    var ds := WordIndexOf(es)[w];
    WordIndexNonEmpty(es, w);
    forall k | k in ds ensures k < |es| && AllBelow(ds[k], 255) && SortedBy(ds[k], DocSets.NatLe) {
      WordIndexSpec(es, w, k);
      OccurrencesSound(es[k].words, w, |es[k].words|);
      OccurrencesAscending(es[k].words, w, |es[k].words|);
    }
    DocSets.RoundTripEqualIff(ds);
  }

  // ---------------------------------------------------------------------
  // add_docs_keys
  // ---------------------------------------------------------------------

  lemma AppendedStep(source: seq<Entry>, k: nat)
    requires k < |source|
    ensures Items(source)[..k + 1] == Items(source)[..k] + [(|source[k].words|, Row(source[k].data, source[k].score))]
  {
  }

  /**
   * A page that does not fit its word counts holds some title of more than
   * 255 words.
   */
  lemma OverflowAt(source: seq<Entry>, k: nat, pages: nat, count: nat, buffer: seq<Item>, table: map<int, Page>, appended: seq<Item>)
    requires k < |source| && ValidState(pages, count, buffer, table, appended) && appended == Items(source)[..k]
    requires !Fits(buffer + [Items(source)[k]])
    ensures !WordCountsFit(source)
  {
    var items := Items(source);
    var page := buffer + [items[k]];
    var i :| 0 <= i < |page| && page[i].0 >= 256;
    assert page[i] == items[k - |buffer| + i];
  }

  /**
   * The inner loop of `add_docs_keys`: each word of document `docid` gets
   * the document, at the word's index in the title.
   */
  method AddTitleWords(idx: WordIndex, ghost es: seq<Entry>, docid: nat, words: seq<string>) returns (r: WordIndex)
    requires docid <= |es| && Partial(idx, es, docid, words, 0)
    ensures Partial(r, es, docid, words, |words|)
  {
    r := idx;
    var j := 0;
    while j < |words|
      invariant 0 <= j <= |words|
      invariant Partial(r, es, docid, words, j)
    {
      PartialAdd(r, es, docid, words, j);
      r := AddPosting(r, words[j], docid, j);
      j := j + 1;
    }
  }

  /**
   * One turn of the outer loop of `add_docs_keys`: append document `k` to
   * the `docs` writer, then add its words under the returned docid.
   */
  method AddDocument(docsTable: Compressed, idx: WordIndex, source: seq<Entry>, k: nat) returns (r: Result<WordIndex>)
    requires k < |source| && docsTable.Valid() && docsTable.appended == Items(source)[..k]
    requires idx == WordIndexOf(source[..k])
    modifies docsTable
    ensures r.Failure? ==> r.error == ByteOverflow && !WordCountsFit(source)
    ensures r.Success? ==> docsTable.Valid() && docsTable.appended == Items(source)[..k + 1]
    ensures r.Success? ==> r.value == WordIndexOf(source[..k + 1])
  {
    var Entry(words, pageScore, data) := source[k];
    var item := (|words|, Row(data, pageScore));
    AppendedStep(source, k);
    ghost var (pages, count, buffer, table, appended) := (docsTable.pages, docsTable.count, docsTable.buffer, docsTable.table, docsTable.appended);
    var docid := docsTable.Append(item);
    if docid.Failure? {
      OverflowAt(source, k, pages, count, buffer, table, appended);
      return Failure(docid.error);
    }
    IndexPartial(source, k, words);
    var added := AddTitleWords(idx, source, docid.value, words);
    PartialNext(added, source, k, []);
    PartialDone(added, source, k + 1);
    r := Success(added);
  }

  /**
   * `add_docs_keys` over the ordered entries: the `docs` table is
   * the page layout of their items, and the word index is `WordIndexOf`.
   * It fails, with `OverflowError`, exactly when some title has more than
   * 255 words.
   */
  method AddDocsKeys(source: seq<Entry>) returns (r: Result<(WordIndex, map<int, Page>)>)
    ensures r.Success? <==> WordCountsFit(source)
    ensures r.Failure? ==> r.error == ByteOverflow
    ensures r.Success? ==> r.value.0 == WordIndexOf(source) && r.value.1 == Layout(Items(source))
  {
    FitsItems(source);
    var idxDict: WordIndex := map[];
    var docsTable := new Compressed();
    assert source[..0] == [];
    var k := 0;
    while k < |source|
      invariant 0 <= k <= |source|
      invariant docsTable.Valid() && docsTable.appended == Items(source)[..k]
      invariant idxDict == WordIndexOf(source[..k])
    {
      var next := AddDocument(docsTable, idxDict, source, k);
      if next.Failure? {
        return Failure(next.error);
      }
      idxDict := next.value;
      k := k + 1;
    }
    assert source[..k] == source;
    assert Items(source)[..k] == Items(source);
    var fin := docsTable.Finish();
    if fin.Failure? {
      return Failure(fin.error);
    }
    r := Success((idxDict, docsTable.table));
  }

  // ---------------------------------------------------------------------
  // add_tokens_to_db
  // ---------------------------------------------------------------------

  /** `sum(len(docs_list) for each row)`: the docids of every row. */
  function PairCount(rows: seq<(string, DocSets.Postings)>): nat
  {
    if |rows| == 0 then 0 else PairCount(rows[..|rows| - 1]) + |rows[|rows| - 1].1|
  }

  /** `rows` lists every word of `idx` once, with its docset. */
  ghost predicate ListsIndex(rows: seq<(string, DocSets.Postings)>, idx: WordIndex)
  {
    && (forall i :: 0 <= i < |rows| ==> rows[i].0 in idx && rows[i].1 == idx[rows[i].0])
    && (forall i, j :: 0 <= i < j < |rows| ==> rows[i].0 != rows[j].0)
    && (forall w :: w in idx ==> exists i :: 0 <= i < |rows| && rows[i].0 == w)
  }

  /** The words of `rows`. */
  function RowWords(rows: seq<(string, DocSets.Postings)>): set<string>
  {
    if |rows| == 0 then {} else RowWords(rows[..|rows| - 1]) + {rows[|rows| - 1].0}
  }

  lemma {:induction false} RowWordsIn(rows: seq<(string, DocSets.Postings)>, w: string)
    ensures w in RowWords(rows) <==> exists i :: 0 <= i < |rows| && rows[i].0 == w
    decreases |rows|
  {
    if |rows| > 0 {
      var init := rows[..|rows| - 1];
      RowWordsIn(init, w);
      if exists i :: 0 <= i < |init| && init[i].0 == w {
        var i :| 0 <= i < |init| && init[i].0 == w;
        assert rows[i] == init[i];
      }
      if exists i :: 0 <= i < |rows| && rows[i].0 == w {
        var i :| 0 <= i < |rows| && rows[i].0 == w;
        if i < |init| {
          assert init[i] == rows[i];
        }
      }
    }
  }

  /** The rows written so far and the words still to go, part way through `add_tokens_to_db`. */
  ghost predicate Emitting(emitted: seq<(string, DocSets.Postings)>, rest: set<string>, idx: WordIndex)
  {
    && rest <= idx.Keys
    && (forall i :: 0 <= i < |emitted| ==> emitted[i].0 in idx && emitted[i].1 == idx[emitted[i].0])
    && (forall i, j :: 0 <= i < j < |emitted| ==> emitted[i].0 != emitted[j].0)
    && RowWords(emitted) == idx.Keys - rest
  }

  lemma EmitStep(emitted: seq<(string, DocSets.Postings)>, rest: set<string>, idx: WordIndex, word: string)
    requires Emitting(emitted, rest, idx) && word in rest
    ensures Emitting(emitted + [(word, idx[word])], rest - {word}, idx)
    ensures PairCount(emitted + [(word, idx[word])]) == PairCount(emitted) + |idx[word]|
  {
    var next := emitted + [(word, idx[word])];
    assert next[..|emitted|] == emitted;
    forall i | 0 <= i < |emitted| ensures emitted[i].0 != word {
      RowWordsIn(emitted, emitted[i].0);
    }
  }

  lemma EmitDone(emitted: seq<(string, DocSets.Postings)>, idx: WordIndex)
    requires Emitting(emitted, {}, idx)
    ensures ListsIndex(emitted, idx)
  {
    forall w | w in idx ensures exists i :: 0 <= i < |emitted| && emitted[i].0 == w {
      RowWordsIn(emitted, w);
    }
  }

  /**
   * `add_tokens_to_db`: one token row per word of `idx_dict`, in whatever
   * order the dictionary yields them, and `Indexed`, the number of
   * (word, document) pairs.
   */
  method AddTokensToDb(idxDict: WordIndex) returns (indexed: nat, rows: seq<(string, DocSets.Postings)>)
    ensures ListsIndex(rows, idxDict)
    ensures indexed == PairCount(rows)
  {
    var tokenStore := new SQLmany<(string, DocSets.Postings)>();
    indexed := 0;
    var rest := idxDict.Keys;
    ghost var emitted: seq<(string, DocSets.Postings)> := [];
    while rest != {}
      invariant tokenStore.Valid() && tokenStore.rows + tokenStore.buffer == emitted
      invariant Emitting(emitted, rest, idxDict)
      invariant indexed == PairCount(emitted)
      decreases rest
    {
      var word :| word in rest;
      var docsList := idxDict[word];
      indexed := indexed + |docsList|;
      var _ := tokenStore.Append((word, docsList));
      EmitStep(emitted, rest, idxDict, word);
      emitted := emitted + [(word, docsList)];
      rest := rest - {word};
    }
    EmitDone(emitted, idxDict);
    tokenStore.Finish();
    rows := tokenStore.rows;
  }

  // ---------------------------------------------------------------------
  // create
  // ---------------------------------------------------------------------

  /** The artifact of a build: the `docs` table and the `tokens` table with each docset encoded. */
  datatype Built = Built(index: Reader.Index, tokens: seq<(string, seq<Delta.byte>)>, indexed: nat)

  /** The entries in build order, numbered by their position. */
  function BuildOrder(shard: Shard, source: seq<Entry>): seq<Entry>
    requires AllTitled(source)
  {
    GenOrdered(Bucketize(Compacted(shard, source)))
  }

  /** The token row `cell` is the row `row` with its docset encoded. */
  ghost predicate EncodedRow(row: (string, DocSets.Postings), cell: (string, seq<Delta.byte>))
  {
    cell.0 == row.0 && DocSets.EncodeDocs(row.1) == Success(cell.1)
  }

  ghost predicate Encodable(row: (string, DocSets.Postings))
  {
    DocSets.EncodeDocs(row.1).Success?
  }

  /** `rel` holds between each element of `ys` and the element of `xs` at the same index. */
  ghost predicate Pointwise<A, B>(rel: (A, B) -> bool, xs: seq<A>, ys: seq<B>)
  {
    |ys| <= |xs| && forall j :: 0 <= j < |ys| ==> rel(xs[j], ys[j])
  }

  lemma PointwiseExtend<A, B>(rel: (A, B) -> bool, xs: seq<A>, ys: seq<B>, y: B)
    requires Pointwise(rel, xs, ys) && |ys| < |xs| && rel(xs[|ys|], y)
    ensures Pointwise(rel, xs, ys + [y])
  {
    var next := ys + [y];
    forall j | 0 <= j < |next| ensures rel(xs[j], next[j]) {
      if j < |ys| {
        assert next[j] == ys[j];
      }
    }
  }

  /**
   * The docset adapter of `open_connection`, applied to every token row;
   * the first docset that does not encode stops the build with its error.
   */
  method EncodeRows(rows: seq<(string, DocSets.Postings)>) returns (r: Result<seq<(string, seq<Delta.byte>)>>)
    ensures r.Success? <==> forall i :: 0 <= i < |rows| ==> Encodable(rows[i])
    ensures r.Failure? ==> r.error == InvalidPosition
    ensures r.Success? ==> |r.value| == |rows| && forall i :: 0 <= i < |rows| ==> EncodedRow(rows[i], r.value[i])
  {
    var out: seq<(string, seq<Delta.byte>)> := [];
    var i := 0;
    while i < |rows|
      invariant 0 <= i <= |rows| && |out| == i
      invariant Pointwise(EncodedRow, rows, out)
    {
      var enc := DocSets.EncodePostings(rows[i].1);
      if enc.Failure? {
        DocSets.EncodeFailsIff(rows[i].1);
        return Failure(enc.error);
      }
      PointwiseExtend(EncodedRow, rows, out, (rows[i].0, enc.value));
      out := out + [(rows[i].0, enc.value)];
      i := i + 1;
    }
    r := Success(out);
  }

  /**
   * The `tokens` table holds one row per word of `idx`, and each row's
   * blob decodes, through the docset converter, to that word's docset.
   */
  ghost predicate TokensOf(tokens: seq<(string, seq<Delta.byte>)>, idx: WordIndex)
  {
    && |tokens| == |idx|
    && (forall i :: 0 <= i < |tokens| ==>
          tokens[i].0 in idx && DocSets.DecodeDocs(tokens[i].1) == Success(idx[tokens[i].0]))
    && (forall i, j :: 0 <= i < j < |tokens| ==> tokens[i].0 != tokens[j].0)
    && (forall w :: w in idx ==> exists i :: 0 <= i < |tokens| && tokens[i].0 == w)
  }

  /** The rows of a word index whose word counts fit all encode. */
  lemma RowsEncodable(es: seq<Entry>, rows: seq<(string, DocSets.Postings)>)
    requires WordCountsFit(es) && ListsIndex(rows, WordIndexOf(es))
    ensures forall i :: 0 <= i < |rows| ==> Encodable(rows[i])
  {
    forall i | 0 <= i < |rows| ensures Encodable(rows[i]) {
      WordIndexRoundTrip(es, rows[i].0);
    }
  }

  /** Encoding the rows of the word index gives a `tokens` table that decodes back to it. */
  lemma TokensDecode(es: seq<Entry>, rows: seq<(string, DocSets.Postings)>, tokens: seq<(string, seq<Delta.byte>)>)
    requires WordCountsFit(es) && ListsIndex(rows, WordIndexOf(es))
    requires |tokens| == |rows| && forall i :: 0 <= i < |rows| ==> EncodedRow(rows[i], tokens[i])
    ensures TokensOf(tokens, WordIndexOf(es))
  {
    var idx := WordIndexOf(es);
    RowsCount(rows, idx);
    forall i | 0 <= i < |tokens| ensures tokens[i].0 in idx && DocSets.DecodeDocs(tokens[i].1) == Success(idx[tokens[i].0]) {
      WordIndexRoundTrip(es, rows[i].0);
    }
    forall i, j | 0 <= i < j < |tokens| ensures tokens[i].0 != tokens[j].0 {
      assert tokens[i].0 == rows[i].0 && tokens[j].0 == rows[j].0;
    }
    forall w | w in idx ensures exists i :: 0 <= i < |tokens| && tokens[i].0 == w {
      var i :| 0 <= i < |rows| && rows[i].0 == w;
      assert tokens[i].0 == w;
    }
  }

  /**
   * `Index.create`: order the source, write the documents and the tokens.
   * The build fails exactly when some title is empty (`to_filename`) or has
   * more than 255 words (`word_quants`), and an empty title is reported
   * first, since `order_source` runs before any page is written; a position of 255 or more in a
   * docset, the other failure of the source, cannot then happen.
   */
  method Create(shard: Shard, source: seq<Entry>) returns (r: Result<Built>)
    ensures r.Success? <==> AllTitled(source) && WordCountsFit(source)
    ensures r.Failure? ==> r.error == (if AllTitled(source) then ByteOverflow else InvalidTitle)
    ensures r.Success? ==>
      var order := BuildOrder(shard, source);
      && Fits(Items(order))
      && r.value.index == Reader.Index(Layout(Items(order)))
      && TokensOf(r.value.tokens, WordIndexOf(order))
      && exists rows :: ListsIndex(rows, WordIndexOf(order)) && r.value.indexed == PairCount(rows)
  {
    var ordered := OrderSource(shard, source);
    if ordered.Failure? {
      return Failure(ordered.error);
    }
    var (orderedSource, quantity) := ordered.value;
    var order := GenOrdered(orderedSource);
    OrderedWordCounts(shard, source);
    var docs := AddDocsKeys(order);
    if docs.Failure? {
      return Failure(docs.error);
    }
    var (idxDict, table) := docs.value;
    var indexed, rows := AddTokensToDb(idxDict);
    RowsEncodable(order, rows);
    var tokens := EncodeRows(rows);
    if tokens.Failure? {
      assert false;
    }
    TokensDecode(order, rows, tokens.value);
    FitsItems(order);
    r := Success(Built(Reader.Index(table), tokens.value, indexed));
  }

  /** Every document of the build order has a title, since it is a compacted source entry. */
  lemma BuildTitled(shard: Shard, source: seq<Entry>)
    requires AllTitled(source)
    ensures Reader.Titled(Items(BuildOrder(shard, source)))
  {
    var c := Compacted(shard, source);
    var order := BuildOrder(shard, source);
    var items := Items(order);
    OrderedPermutation(c);
    forall i | 0 <= i < |items| ensures |items[i].1.data.title| > 0 {
      assert order[i] in multiset(c);
      var j :| 0 <= j < |c| && c[j] == order[i];
    }
  }

  /**
   * The build read back: document `k` of the built `docs` table is some
   * source entry, with its score and its record as the source gave it, a
   * dropped file name derived again.
   */
  lemma BuildGetDoc(shard: Shard, source: seq<Entry>, k: nat) returns (i: nat)
    requires AllTitled(source) && WordCountsFit(source) && k < |source|
    ensures var order := BuildOrder(shard, source);
      && i < |source| && k < |order| && order[k] == Compacted(shard, source)[i]
      && Fits(Items(order))
      && var got := Reader.GetDoc(Reader.Index(Layout(Items(order))), shard, k);
         var r := source[i].data;
         && (r.filename.Some? ==> got == Success(Some(Row(r, source[i].score))))
         && (r.filename.None? ==>
               got == Success(Some(Row(r.(filename := Some(ToFilename(shard, r.title).value)), source[i].score))))
  {
    var c := Compacted(shard, source);
    var order := BuildOrder(shard, source);
    OrderedPermutation(c);
    assert |order| == |multiset(order)| == |multiset(c)| == |c|;
    OrderedWordCounts(shard, source);
    FitsItems(order);
    BuildTitled(shard, source);
    assert order[k] in multiset(c);
    i :| 0 <= i < |c| && c[i] == order[k];
    Reader.GetDocStored(Items(order), shard, k);
    CompactRestore(shard, source[i].data, source[i].score);
  }

  /** Build order is a permutation, so its word counts fit exactly when the source's do. */
  lemma OrderedWordCounts(shard: Shard, source: seq<Entry>)
    requires AllTitled(source)
    ensures WordCountsFit(BuildOrder(shard, source)) <==> WordCountsFit(source)
  {
    var c := Compacted(shard, source);
    var order := BuildOrder(shard, source);
    OrderedPermutation(c);
    if WordCountsFit(source) {
      forall i | 0 <= i < |order| ensures |order[i].words| < 256 {
        assert order[i] in multiset(c);
        var j :| 0 <= j < |c| && c[j] == order[i];
      }
    }
    if WordCountsFit(order) {
      forall j | 0 <= j < |source| ensures |source[j].words| < 256 {
        assert c[j] in multiset(order);
        var i :| 0 <= i < |order| && order[i] == c[j];
      }
    }
  }

  /** A listing of the index with distinct words has one row per word. */
  lemma RowsCount(rows: seq<(string, DocSets.Postings)>, idx: WordIndex)
    requires ListsIndex(rows, idx)
    ensures |rows| == |idx|
  {
    var words := set i | 0 <= i < |rows| :: rows[i].0;
    assert words == idx.Keys;
    DistinctCard(rows);
  }

  lemma {:induction false} DistinctCard(rows: seq<(string, DocSets.Postings)>)
    requires forall i, j :: 0 <= i < j < |rows| ==> rows[i].0 != rows[j].0
    ensures |set i | 0 <= i < |rows| :: rows[i].0| == |rows|
    decreases |rows|
  {
    if |rows| > 0 {
      var init := rows[..|rows| - 1];
      DistinctCard(init);
      var s := set i | 0 <= i < |init| :: init[i].0;
      var last := rows[|rows| - 1].0;
      assert (set i | 0 <= i < |rows| :: rows[i].0) == s + {last};
      assert last !in s;
    }
  }
}
