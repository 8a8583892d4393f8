/**
 * The document records the index stores, and the storage trick around
 * their file names: the build drops a file name that `to_filename` can
 * derive from the title (`order_source`), and `get_doc` derives it again
 * when it reads the record back.
 */
module Records {
  import opened Wrappers
  import opened Filenames

  /**
   * The `data` of one source entry: the file name (or None), the title,
   * then payload fields the index only carries along.
   */
  datatype Record = Record(filename: Option<string>, title: string, payload: seq<string>)

  /** One item of the build's `source`: `(words, page_score, data)`. */
  datatype Entry = Entry(words: seq<string>, score: int, data: Record)

  /** What `add_docs_keys` stores per document: `list(data) + [page_score]`. */
  datatype Row = Row(data: Record, score: int)

  /**
   * `order_source`'s normalisation of one record: the file name becomes
   * None exactly when it equals `to_filename(title)`. `to_filename` is
   * called for every record, so an empty title fails.
   */
  function Compact(shard: Shard, r: Record): (c: Result<Record>)
    ensures c.Failure? <==> |r.title| == 0
    ensures c.Success? ==> c.value.title == r.title && c.value.payload == r.payload
    ensures c.Success? ==>
      (c.value.filename.None? <==> r.filename.None? || r.filename == Some(ToFilename(shard, r.title).value))
    ensures c.Success? && c.value.filename.Some? ==> c.value.filename == r.filename
  {
    ToFilenameSpec(shard, r.title);
    var expected := ToFilename(shard, r.title);
    if expected.Failure? then Failure(expected.error)
    else if r.filename == Some(expected.value) then Success(r.(filename := None))
    else Success(r)
  }

  /**
   * `get_doc`'s repair of a stored row: a None file name is replaced by
   * `to_filename(title)`.
   */
  function Restore(shard: Shard, row: Row): (r: Result<Row>)
    ensures r.Failure? <==> row.data.filename.None? && |row.data.title| == 0
    ensures r.Success? ==> r.value.data.filename.Some? && r.value.score == row.score
    ensures r.Success? ==> r.value.data.title == row.data.title && r.value.data.payload == row.data.payload
    ensures row.data.filename.Some? ==> r == Success(row)
  {
    ToFilenameSpec(shard, row.data.title);
    if row.data.filename.Some? then Success(row)
    else
      var name := ToFilename(shard, row.data.title);
      if name.Failure? then Failure(name.error)
      else Success(row.(data := row.data.(filename := Some(name.value))))
  }

  /**
   * The file name read back is the one the source gave, and a record that
   * came without a file name reads back with the derived one.
   */
  lemma CompactRestore(shard: Shard, r: Record, score: int)
    requires Compact(shard, r).Success?
    ensures Restore(shard, Row(Compact(shard, r).value, score)).Success?
    ensures r.filename.Some? ==> Restore(shard, Row(Compact(shard, r).value, score)) == Success(Row(r, score))
    ensures r.filename.None? ==>
      Restore(shard, Row(Compact(shard, r).value, score))
        == Success(Row(r.(filename := Some(ToFilename(shard, r.title).value)), score))
  {
    ToFilenameSpec(shard, r.title);
  }

  /** Compacting twice is compacting once. */
  lemma CompactIdempotent(shard: Shard, r: Record)
    requires Compact(shard, r).Success?
    ensures Compact(shard, Compact(shard, r).value) == Compact(shard, r)
  {
  }
}
