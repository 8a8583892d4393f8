/**
 * The query side of the document store: `Index._get_page`, `Index.get_doc`
 * and `Index.__len__` over the `docs` table, and what they return on a
 * table the build wrote.
 */
module Reader {
  import opened Wrappers
  import opened Sorting
  import opened Filenames
  import opened Records
  import opened Writers

  /** An opened index, as far as documents go: its `docs` table. */
  datatype Index = Index(pages: map<int, Page>)

  /** `_get_page`: the decompressed records of a page, or None when there is no such row. */
  function GetPage(ix: Index, pageId: int): Option<seq<Row>>
  {
    if pageId in ix.pages then Some(ix.pages[pageId].records) else None
  }

  /**
   * `get_doc`. Python's `divmod` by a positive divisor is floor division,
   * which Dafny's `/` and `%` agree with for every `docid`, negative ones
   * included. A missing or empty page gives None; an offset past the end
   * of the page raises `IndexError`; a None file name is derived again.
   */
  function GetDoc(ix: Index, shard: Shard, docid: int): Result<Option<Row>>
  {
    var pageId, relPosition := docid / PAGE_SIZE, docid % PAGE_SIZE;
    var data := GetPage(ix, pageId);
    if data.None? || |data.value| == 0 then Success(None)
    else if relPosition >= |data.value| then Failure(OutOfRange)
    else
      var row := Restore(shard, data.value[relPosition]);
      if row.Failure? then Failure(row.error) else Success(Some(row.value))
  }

  /**
   * `__len__`: the id of the last page times `PAGE_SIZE` plus the length of
   * that page. With no page the query returns no row and the source fails
   * on `None[1]`.
   */
  function Len(ix: Index): Result<int>
  {
    if ix.pages.Keys == {} then Failure(EmptyIndex)
    else
      var last := MaxOf(ix.pages.Keys);
      Success(last * PAGE_SIZE + |ix.pages[last].records|)
  }

  /** Every stored title can be turned into a file name, as the build ensures. */
  predicate Titled(items: seq<Item>)
  {
    forall i :: 0 <= i < |items| ==> |items[i].1.data.title| > 0
  }

  /**
   * A document id the writer returned reads back as the record written
   * under it, with its file name derived again where it was dropped.
   */
  lemma GetDocStored(items: seq<Item>, shard: Shard, k: int)
    requires Fits(items) && Titled(items) && 0 <= k < |items|
    ensures GetDoc(Index(Layout(items)), shard, k) == Success(Some(Restore(shard, items[k].1).value))
    ensures Restore(shard, items[k].1).Success?
  {
    LayoutAddress(items, k);
  }

  /** Negative ids and ids past the last page find no page. */
  lemma GetDocNoPage(items: seq<Item>, shard: Shard, k: int)
    requires Fits(items) && (k < 0 || k >= PageCount(|items|) * PAGE_SIZE)
    ensures GetDoc(Index(Layout(items)), shard, k) == Success(None)
  {
    LayoutKeys(items, k / PAGE_SIZE);
  }

  /** Ids past the end of a partly filled last page raise `IndexError`. */
  lemma GetDocPastEnd(items: seq<Item>, shard: Shard, k: int)
    requires Fits(items) && |items| <= k < PageCount(|items|) * PAGE_SIZE
    ensures GetDoc(Index(Layout(items)), shard, k) == Failure(OutOfRange)
  {
    var p := k / PAGE_SIZE;
    assert p + 1 == PageCount(|items|);
    LayoutPageSizes(items, p);
  }

  /** `__len__` of a written table is the number of appended documents. */
  lemma LenLayout(items: seq<Item>)
    requires Fits(items)
    ensures |items| == 0 ==> Len(Index(Layout(items))) == Failure(EmptyIndex)
    ensures |items| > 0 ==> Len(Index(Layout(items))) == Success(|items|)
  {
    var l := Layout(items);
    var n := PageCount(|items|);
    if |items| == 0 {
      LayoutEmpty();
    } else {
      LayoutKeys(items, n - 1);
      var last := MaxOf(l.Keys);
      LayoutKeys(items, last);
      assert last == n - 1;
      LayoutPageSizes(items, last);
    }
  }

  /** `random`: every id in `[0, len)` reads back a record. */
  lemma RandomInRange(items: seq<Item>, shard: Shard, k: int)
    requires Fits(items) && Titled(items) && |items| > 0
    requires Len(Index(Layout(items))).Success? && 0 <= k < Len(Index(Layout(items))).value
    ensures GetDoc(Index(Layout(items)), shard, k).Success?
    ensures GetDoc(Index(Layout(items)), shard, k).value.Some?
  {
    LenLayout(items);
    GetDocStored(items, shard, k);
  }
}
