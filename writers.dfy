/**
 * The batching writers of `Index.create`: `SQLmany` buffers rows and
 * writes them every `PAGE_SIZE` appends; `Compressed` writes each batch of
 * documents as one page of the `docs` table, labelled with its page number.
 * The database is the in-memory value the writers fill: a list of rows for
 * `SQLmany`, a map from page id to page for `Compressed`. Pickling and
 * compression of a page are the identity here.
 */
module Writers {
  import opened Wrappers
  import opened Delta
  import opened Records

  const PAGE_SIZE: nat := 512

  /** `(len(words), data)`: one document as `add_docs_keys` hands it to `Compressed.append`. */
  type Item = (nat, Row)

  /** One row of the `docs` table: `word_quants` and the records of the page. */
  datatype Page = Page(wordQuants: seq<byte>, records: seq<Row>)

  /** Every word count fits the unsigned byte of `array("B")`. */
  predicate Fits(items: seq<Item>)
  {
    forall i :: 0 <= i < |items| ==> items[i].0 < 256
  }

  /** The page built from a batch of items. */
  function PageFrom(items: seq<Item>): (p: Page)
    requires Fits(items)
    ensures |p.wordQuants| == |items| && |p.records| == |items|
    ensures forall i :: 0 <= i < |items| ==> p.wordQuants[i] == items[i].0 && p.records[i] == items[i].1
  {
    Page(seq(|items|, i requires 0 <= i < |items| => items[i].0 as byte),
         seq(|items|, i requires 0 <= i < |items| => items[i].1))
  }

  /** The number of pages `n` documents fill. */
  function PageCount(n: nat): nat
  {
    (n + PAGE_SIZE - 1) / PAGE_SIZE
  }

  function Min(a: int, b: int): int
  {
    if a < b then a else b
  }

  /** The items of page `p`: the `PAGE_SIZE` items from `p * PAGE_SIZE` on, or fewer at the end. */
  function Chunk(items: seq<Item>, p: nat): (c: seq<Item>)
    requires p < PageCount(|items|)
    ensures 0 < |c| <= PAGE_SIZE && p * PAGE_SIZE + |c| <= |items|
    ensures p + 1 < PageCount(|items|) ==> |c| == PAGE_SIZE
    ensures p + 1 == PageCount(|items|) ==> p * PAGE_SIZE + |c| == |items|
    ensures forall i :: 0 <= i < |c| ==> c[i] == items[p * PAGE_SIZE + i]
  {
    items[p * PAGE_SIZE .. Min((p + 1) * PAGE_SIZE, |items|)]
  }

  /** The `docs` table after every item has been written, page by page. */
  ghost function Layout(items: seq<Item>): map<int, Page>
    requires Fits(items)
  {
    map p: nat | p < PageCount(|items|) :: PageFrom(Chunk(items, p))
  }

  /**
   * The work of `Compressed.persist` before it writes: one pass over the
   * buffer collecting `word_quants` and the records; `array("B").append`
   * raises `OverflowError` on a count above 255.
   */
  method BuildPage(buffer: seq<Item>) returns (r: Result<Page>)
    ensures r.Success? <==> Fits(buffer)
    ensures r.Success? ==> r.value == PageFrom(buffer)
    ensures r.Failure? ==> r.error == ByteOverflow
  {
    var wordQuants: seq<byte> := [];
    var docsData: seq<Row> := [];
    var i := 0;
    while i < |buffer|
      invariant 0 <= i <= |buffer|
      invariant Fits(buffer[..i])
      invariant wordQuants == PageFrom(buffer[..i]).wordQuants
      invariant docsData == PageFrom(buffer[..i]).records
    {
      var (wordQuant, data) := buffer[i];
      if wordQuant > 255 {
        return Failure(ByteOverflow);
      }
      wordQuants := wordQuants + [wordQuant];
      docsData := docsData + [data];
      assert buffer[..i + 1] == buffer[..i] + [buffer[i]];
      i := i + 1;
    }
    assert buffer[..i] == buffer;
    r := Success(Page(wordQuants, docsData));
  }

  /** Page `p` is full, except the last page, which holds the rest. */
  lemma LayoutPageSizes(items: seq<Item>, p: nat)
    requires Fits(items) && p < PageCount(|items|)
    ensures p in Layout(items)
    ensures p + 1 < PageCount(|items|) ==> |Layout(items)[p].records| == PAGE_SIZE
    ensures p + 1 == PageCount(|items|) ==> |Layout(items)[p].records| == |items| - p * PAGE_SIZE
  {
  }

  /** The pages are numbered 0, 1, 2, ... without gaps. */
  lemma LayoutKeys(items: seq<Item>, p: int)
    requires Fits(items)
    ensures p in Layout(items) <==> 0 <= p < PageCount(|items|)
  {
  }

  /** Document `k` is record `k % PAGE_SIZE` of page `k / PAGE_SIZE`. */
  lemma LayoutAddress(items: seq<Item>, k: nat)
    requires Fits(items) && k < |items|
    ensures k / PAGE_SIZE in Layout(items)
    ensures k % PAGE_SIZE < |Layout(items)[k / PAGE_SIZE].records|
    ensures Layout(items)[k / PAGE_SIZE].records[k % PAGE_SIZE] == items[k].1
    ensures Layout(items)[k / PAGE_SIZE].wordQuants[k % PAGE_SIZE] == items[k].0
  {
    var p := k / PAGE_SIZE;
    assert p * PAGE_SIZE + k % PAGE_SIZE == k;
    assert p < PageCount(|items|);
  }

  lemma FitsSplit(a: seq<Item>, b: seq<Item>)
    ensures Fits(a + b) <==> Fits(a) && Fits(b)
  {
    if Fits(a + b) {
      assert forall i :: 0 <= i < |a| ==> (a + b)[i] == a[i];
      assert forall i :: 0 <= i < |b| ==> (a + b)[|a| + i] == b[i];
    }
  }

  /** Writing one more batch after whole pages adds exactly one page, with the next id. */
  lemma LayoutSnoc(a: seq<Item>, c: seq<Item>)
    requires |a| % PAGE_SIZE == 0 && 0 < |c| <= PAGE_SIZE && Fits(a) && Fits(c)
    ensures Fits(a + c)
    ensures Layout(a + c) == Layout(a)[|a| / PAGE_SIZE := PageFrom(c)]
  {
    FitsSplit(a, c);
    var n := |a| / PAGE_SIZE;
    PageCountSnoc(|a|, |c|);
    var l, l' := Layout(a)[n := PageFrom(c)], Layout(a + c);
    forall p | p in l' ensures p in l && l'[p] == l[p] {
      if p < n {
        ChunkPrefix(a, c, p);
      } else {
        ChunkLast(a, c);
      }
    }
    forall p | p in l ensures p in l' {
    }
    assert l' == l;
  }

  lemma PageCountSnoc(n: nat, m: nat)
    requires n % PAGE_SIZE == 0 && 0 < m <= PAGE_SIZE
    ensures PageCount(n) == n / PAGE_SIZE && PageCount(n + m) == n / PAGE_SIZE + 1
  {
  }

  lemma ChunkPrefix(a: seq<Item>, c: seq<Item>, p: nat)
    requires |a| % PAGE_SIZE == 0 && p < |a| / PAGE_SIZE
    ensures p < PageCount(|a|) && p < PageCount(|a + c|)
    ensures Chunk(a + c, p) == Chunk(a, p)
  {
    assert (p + 1) * PAGE_SIZE <= |a|;
    assert (a + c)[p * PAGE_SIZE .. (p + 1) * PAGE_SIZE] == a[p * PAGE_SIZE .. (p + 1) * PAGE_SIZE];
  }

  lemma ChunkLast(a: seq<Item>, c: seq<Item>)
    requires |a| % PAGE_SIZE == 0 && 0 < |c| <= PAGE_SIZE
    ensures |a| / PAGE_SIZE < PageCount(|a + c|)
    ensures Chunk(a + c, |a| / PAGE_SIZE) == c
  {
    PageCountSnoc(|a|, |c|);
    assert |a| / PAGE_SIZE * PAGE_SIZE == |a|;
    assert (a + c)[|a|..] == c;
  }

  lemma LayoutEmpty()
    ensures Layout([]) == map[]
  {
  }

  /**
   * The state of a `Compressed` writer after the appends `appended`: the
   * table holds the `pages` full pages, the buffer the fewer than
   * `PAGE_SIZE` items after them.
   */
  ghost predicate ValidState(pages: nat, count: nat, buffer: seq<Item>, table: map<int, Page>, appended: seq<Item>)
  {
    && count == |appended|
    && |buffer| < PAGE_SIZE
    && count == pages * PAGE_SIZE + |buffer|
    && buffer == appended[pages * PAGE_SIZE..]
    && Fits(appended[..pages * PAGE_SIZE])
    && table == Layout(appended[..pages * PAGE_SIZE])
  }

  /** Counting in whole pages and a remainder. */
  lemma PageArith(pages: nat, rest: nat)
    requires rest < PAGE_SIZE
    ensures (pages * PAGE_SIZE + rest) % PAGE_SIZE == rest
    ensures (pages * PAGE_SIZE + rest) / PAGE_SIZE == pages
  {
  }

  /** An append that does not complete a page only grows the buffer. */
  lemma StepNoFlush(pages: nat, count: nat, buffer: seq<Item>, table: map<int, Page>, appended: seq<Item>, item: Item)
    requires ValidState(pages, count, buffer, table, appended) && (count + 1) % PAGE_SIZE != 0
    ensures ValidState(pages, count + 1, buffer + [item], table, appended + [item])
  {
    var done := appended[..pages * PAGE_SIZE];
    if |buffer| + 1 == PAGE_SIZE {
      PageArith(pages + 1, 0);
    }
    assert (appended + [item])[..pages * PAGE_SIZE] == done;
    assert (appended + [item])[pages * PAGE_SIZE..] == buffer + [item];
  }

  /** An append that completes a page writes it as page `count / PAGE_SIZE` and empties the buffer. */
  lemma StepFlush(pages: nat, count: nat, buffer: seq<Item>, table: map<int, Page>, appended: seq<Item>, item: Item)
    requires ValidState(pages, count, buffer, table, appended) && (count + 1) % PAGE_SIZE == 0
    requires Fits(buffer + [item])
    ensures ValidState(pages + 1, count + 1, [], table[count / PAGE_SIZE := PageFrom(buffer + [item])], appended + [item])
  {
    var done := appended[..pages * PAGE_SIZE];
    var all := appended + [item];
    if |buffer| + 1 < PAGE_SIZE {
      PageArith(pages, |buffer| + 1);
    }
    PageArith(pages, |buffer|);
    PageArith(pages, 0);
    assert |buffer| == PAGE_SIZE - 1;
    assert |done| == pages * PAGE_SIZE;
    assert all == done + (buffer + [item]);
    LayoutSnoc(done, buffer + [item]);
    assert all[..(pages + 1) * PAGE_SIZE] == all;
  }

  /** Writing the leftover buffer completes the layout of everything appended. */
  lemma FinishState(pages: nat, count: nat, buffer: seq<Item>, table: map<int, Page>, appended: seq<Item>)
    requires ValidState(pages, count, buffer, table, appended)
    ensures Fits(appended) <==> Fits(buffer)
    ensures Fits(appended) ==>
      Layout(appended) == if buffer == [] then table else table[(count - 1) / PAGE_SIZE := PageFrom(buffer)]
  {
    var done := appended[..pages * PAGE_SIZE];
    assert appended == done + buffer;
    FitsSplit(done, buffer);
    if buffer == [] {
      assert appended == done;
    } else if Fits(buffer) {
      FinishPage(pages, count, buffer, done);
      LayoutSnoc(done, buffer);
    }
  }

  lemma FinishPage(pages: nat, count: nat, buffer: seq<Item>, done: seq<Item>)
    requires |done| == pages * PAGE_SIZE && count == |done| + |buffer| && 0 < |buffer| < PAGE_SIZE
    ensures |done| % PAGE_SIZE == 0 && (count - 1) / PAGE_SIZE == |done| / PAGE_SIZE
  {
    PageArith(pages, 0);
    PageArith(pages, |buffer| - 1);
  }

  /** `SQLmany`: buffered `executemany` into one table. */
  class SQLmany<T> {
    var count: nat
    var buffer: seq<T>
    /** The rows `persist` has written to the table. */
    var rows: seq<T>

    ghost predicate Valid()
      reads this
    {
      |buffer| == count % PAGE_SIZE && |rows| + |buffer| == count
    }

    constructor ()
      ensures Valid() && count == 0 && buffer == [] && rows == []
    {
      count, buffer, rows := 0, [], [];
    }

    /** Returns the zero-based index of the appended row; after a multiple of `PAGE_SIZE` appends the buffer is written and emptied. */
    method Append(data: T) returns (id: nat)
      requires Valid()
      modifies this
      ensures Valid()
      ensures id == old(count) && count == old(count) + 1
      ensures rows + buffer == old(rows) + old(buffer) + [data]
      ensures count % PAGE_SIZE == 0 ==> rows == old(rows) + old(buffer) + [data] && buffer == []
      ensures count % PAGE_SIZE != 0 ==> rows == old(rows) && buffer == old(buffer) + [data]
    {
      buffer := buffer + [data];
      count := count + 1;
      if count % PAGE_SIZE == 0 {
        Persist();
        buffer := [];
      }
      id := count - 1;
    }

    /** Writes a non-empty leftover buffer; the buffer itself is left as it is. */
    method Finish()
      requires Valid()
      modifies this
      ensures rows == old(rows) + old(buffer) && |rows| == count
      ensures count == old(count) && buffer == old(buffer)
    {
      if buffer != [] {
        Persist();
      }
    }

    method Persist()
      modifies this
      ensures rows == old(rows) + buffer
      ensures count == old(count) && buffer == old(buffer)
    {
      rows := rows + buffer;
    }
  }

  /** `Compressed`: `SQLmany` whose `persist` writes the buffer as one numbered page. */
  class Compressed {
    var count: nat
    var buffer: seq<Item>
    /** The `docs` table: page id to page. */
    var table: map<int, Page>
    /** Every item appended so far. */
    ghost var appended: seq<Item>
    /** The number of pages written. */
    ghost var pages: nat

    /** The table holds the full pages of what was appended; the buffer holds the rest. */
    ghost predicate Valid()
      reads this
    {
      ValidState(pages, count, buffer, table, appended)
    }

    constructor ()
      ensures Valid() && appended == [] && table == map[]
    {
      count, buffer, table := 0, [], map[];
      appended, pages := [], 0;
      LayoutEmpty();
    }

    /**
     * `append`: the returned id is the number of earlier appends. When the
     * append fills a page, the page is written, unless a word count in it
     * overflows its byte; then the exception leaves the buffer full and
     * the table unchanged.
     */
    method Append(item: Item) returns (r: Result<nat>)
      requires Valid()
      modifies this
      ensures appended == old(appended) + [item] && count == old(count) + 1
      ensures r.Failure? <==> count % PAGE_SIZE == 0 && !Fits(old(buffer) + [item])
      ensures r.Success? ==> Valid() && r.value == old(count)
      ensures r.Failure? ==> r.error == ByteOverflow && table == old(table) && buffer == old(buffer) + [item]
    {
      ghost var (pages0, count0, buffer0, table0, appended0) := (pages, count, buffer, table, appended);
      buffer := buffer + [item];
      count := count + 1;
      appended := appended + [item];
      if count % PAGE_SIZE == 0 {
        var ok := Persist();
        if ok.Failure? {
          return Failure(ok.error);
        }
        StepFlush(pages0, count0, buffer0, table0, appended0, item);
        buffer := [];
        pages := pages + 1;
      } else {
        StepNoFlush(pages0, count0, buffer0, table0, appended0, item);
      }
      r := Success(count - 1);
    }

    /** `finish`: writes the leftover page, if any; it fails only on a word count above 255. */
    method Finish() returns (r: Result<()>)
      requires Valid()
      modifies this`table
      ensures r.Success? <==> Fits(appended)
      ensures r.Success? ==> table == Layout(appended)
      ensures r.Failure? ==> r.error == ByteOverflow && table == old(table)
    {
      ghost var (p0, c0, b0, t0, a0) := (pages, count, buffer, table, appended);
      FinishState(p0, c0, b0, t0, a0);
      if buffer != [] {
        var ok := Persist();
        if ok.Failure? {
          return Failure(ok.error);
        }
      }
      r := Success(());
    }

    /** `persist`: the page id is `(count - 1) // PAGE_SIZE`. */
    method Persist() returns (r: Result<()>)
      requires count > 0
      modifies this`table
      ensures r.Success? <==> Fits(buffer)
      ensures r.Success? ==> table == old(table)[(count - 1) / PAGE_SIZE := PageFrom(buffer)]
      ensures r.Failure? ==> r.error == ByteOverflow && table == old(table)
    {
      var page := BuildPage(buffer);
      if page.Failure? {
        return Failure(page.error);
      }
      var pageId := (count - 1) / PAGE_SIZE;
      table := table[pageId := page.value];
      r := Success(());
    }
  }
}
