/**
 * The posting-list codec, `DocSet` in `sqlite_index.py`: a mapping from
 * document id to the positions at which a word occurs in that document's
 * title, and its binary form
 *
 *     position bytes (one per (docid, position) pair, pairs in ascending order)
 *     0xFF
 *     delta_encode(the docids of the same pairs)
 */
module DocSets {
  import opened Wrappers
  import opened Delta
  import opened Sorting

  /** `DocSet.SEPARATOR`. */
  const SEPARATOR: byte := 0xFF

  /** The value of `DocSet._docs_list`: docid -> positions, in append order. */
  type Postings = map<nat, seq<nat>>

  /** One `(docid, position)` tuple of `encode`'s `docs_list`. */
  type Pair = (nat, nat)

  /** Python's tuple comparison on `(docid, position)`. */
  predicate PairLe(a: Pair, b: Pair)
  {
    a.0 < b.0 || (a.0 == b.0 && a.1 <= b.1)
  }

  predicate NatLe(a: nat, b: nat)
  {
    a <= b
  }

  lemma PairLeOrder()
    ensures TotalPreorder(PairLe) && Antisymmetric(PairLe)
  {
  }

  lemma NatLeOrder()
    ensures TotalPreorder(NatLe) && Antisymmetric(NatLe)
  {
  }

  /** What `DocSet.append` does to `_docs_list` (a `defaultdict(list)`). */
  function Insert(d: Postings, docid: nat, position: nat): Postings
  {
    d[docid := Get(d, docid) + [position]]
  }

  function Get(d: Postings, docid: nat): seq<nat>
  {
    if docid in d then d[docid] else []
  }

  /** Every list is non-empty: a key only exists once something was appended to it. */
  predicate NonEmptyLists(d: Postings)
  {
    forall k :: k in d ==> |d[k]| > 0
  }

  /** Every position fits below the separator. */
  predicate PositionsFit(d: Postings)
  {
    forall k, i :: k in d && 0 <= i < |d[k]| ==> d[k][i] < 255
  }

  function SortPositions(s: seq<nat>): seq<nat>
  {
    SortBy(s, NatLe)
  }

  /** The docset with every position list in ascending order. */
  ghost function Normalize(d: Postings): Postings
  {
    map k | k in d :: SortPositions(d[k])
  }

  /** `[(docid, p) for p in s]`. */
  function Tag(docid: nat, s: seq<nat>): (r: seq<Pair>)
    ensures |r| == |s|
    ensures forall i :: 0 <= i < |s| ==> r[i] == (docid, s[i])
  {
    if |s| == 0 then [] else [(docid, s[0])] + Tag(docid, s[1..])
  }

  /** The pairs of the docids `ks`, each with its positions sorted. */
  function BlocksOf(ks: seq<nat>, d: Postings): seq<Pair>
    requires forall i :: 0 <= i < |ks| ==> ks[i] in d
  {
    if |ks| == 0 then [] else Tag(ks[0], SortPositions(d[ks[0]])) + BlocksOf(ks[1..], d)
  }

  /** `docs_list` after `docs_list.sort()`: every pair of `d`, in ascending order. */
  ghost function SortedPairs(d: Postings): seq<Pair>
  {
    BlocksOf(SortedKeys(d), d)
  }

  /** The docids of `d` in increasing order. */
  ghost function SortedKeys(d: Postings): (r: seq<nat>)
    ensures forall k :: k in r <==> k in d
    ensures forall i, j :: 0 <= i < j < |r| ==> r[i] < r[j]
  {
    var a := Ascending(d.Keys);
    assert forall i :: 0 <= i < |a| ==> a[i] in d.Keys;
    var r: seq<nat> := a;
    r
  }

  function DocIds(ps: seq<Pair>): (r: seq<nat>)
    ensures |r| == |ps| && forall i :: 0 <= i < |ps| ==> r[i] == ps[i].0
  {
    seq(|ps|, i requires 0 <= i < |ps| => ps[i].0)
  }

  function Positions(ps: seq<Pair>): (r: seq<nat>)
    ensures |r| == |ps| && forall i :: 0 <= i < |ps| ==> r[i] == ps[i].1
  {
    seq(|ps|, i requires 0 <= i < |ps| => ps[i].1)
  }

  /** `array.array("B", position)`, once every position is known to be below 255. */
  function PositionBytes(ps: seq<Pair>): (r: seq<byte>)
    requires forall i :: 0 <= i < |ps| ==> ps[i].1 < 255
    ensures |r| == |ps| && forall i :: 0 <= i < |ps| ==> r[i] == ps[i].1
  {
    seq(|ps|, i requires 0 <= i < |ps| => ps[i].1 as byte)
  }

  /** The docids of a sorted pair list do not decrease. */
  lemma SortedDocIds(ps: seq<Pair>)
    requires SortedBy(ps, PairLe)
    ensures NonDecreasing(DocIds(ps))
  {
  }

  /** `DocSet.encode` on `_docs_list == d`. An empty docset encodes as empty. */
  ghost function EncodeDocs(d: Postings): Result<seq<byte>>
  {
    if |d| == 0 then Success([])
    else
      var ps := SortedPairs(d);
      if HasBadPair(ps) then Failure(InvalidPosition)
      else
        SortedPairsOrdered(d);
        SortedDocIds(ps);
        Success(PositionBytes(ps) + [SEPARATOR] + DeltaBytes(DocIds(ps)))
  }

  /** `bytes.index(x)`: the first index holding `x`. */
  function IndexOf(bs: seq<byte>, x: byte): (i: nat)
    requires x in bs
    ensures i < |bs| && bs[i] == x && x !in bs[..i]
  {
    if bs[0] == x then 0
    else
      assert bs == [bs[0]] + bs[1..];
      var j := IndexOf(bs[1..], x);
      assert bs[1..][..j] == bs[1..j + 1];
      assert bs[..j + 1] == [bs[0]] + bs[1..j + 1];
      j + 1
  }

  /** `zip(docsid, positions)`: pairs up to the shorter of the two. */
  function Zip(ids: seq<nat>, positions: seq<byte>): (r: seq<Pair>)
    ensures |r| == if |ids| < |positions| then |ids| else |positions|
    ensures forall i :: 0 <= i < |r| ==> r[i] == (ids[i], positions[i])
  {
    var n := if |ids| < |positions| then |ids| else |positions|;
    seq(n, i requires 0 <= i < n => (ids[i], positions[i] as nat))
  }

  /** The `defaultdict` that `decode` fills: one `append` per pair, in order. */
  function AddPairs(d: Postings, ps: seq<Pair>): Postings
    decreases |ps|
  {
    if |ps| == 0 then d else AddPairs(Insert(d, ps[0].0, ps[0].1), ps[1..])
  }

  /** `DocSet.decode`: one or no byte decodes to an empty docset. */
  ghost function DecodeDocs(bs: seq<byte>): (r: Result<Postings>)
    ensures r.Failure? <==> |bs| > 1 && SEPARATOR !in bs
    ensures |bs| <= 1 ==> r == Success(map[])
  {
    if |bs| <= 1 then Success(map[])
    else if SEPARATOR !in bs then Failure(NoSeparator)
    else
      var limit := IndexOf(bs, SEPARATOR);
      Success(AddPairs(map[], Zip(DeltaDecoded(bs[limit + 1..]), bs[..limit])))
  }

  // ---------------------------------------------------------------------
  // Facts about the pair lists
  // ---------------------------------------------------------------------

  lemma {:induction false} TagCount(docid: nat, s: seq<nat>, q: Pair)
    ensures multiset(Tag(docid, s))[q] == if q.0 == docid then multiset(s)[q.1] else 0
  {
    if |s| > 0 {
      TagCount(docid, s[1..], q);
      assert Tag(docid, s) == [(docid, s[0])] + Tag(docid, s[1..]);
      assert s == [s[0]] + s[1..];
    }
  }

  /** How often each pair occurs among the blocks of the distinct docids `ks`. */
  lemma {:induction false} BlocksCount(ks: seq<nat>, d: Postings, q: Pair)
    requires forall i :: 0 <= i < |ks| ==> ks[i] in d
    requires forall i, j :: 0 <= i < j < |ks| ==> ks[i] < ks[j]
    ensures multiset(BlocksOf(ks, d))[q] == if q.0 in ks then multiset(d[q.0])[q.1] else 0
  {
    if |ks| > 0 {
      var k := ks[0];
      BlocksCount(ks[1..], d, q);
      TagCount(k, SortPositions(d[k]), q);
      SortBySorted(d[k], NatLe);
      assert q.0 in ks <==> q.0 == k || q.0 in ks[1..];
      assert k !in ks[1..];
    }
  }

  /** Every docid of a block list is one of `ks`. */
  lemma {:induction false} BlocksDocIds(ks: seq<nat>, d: Postings, i: nat)
    requires forall i :: 0 <= i < |ks| ==> ks[i] in d
    requires i < |BlocksOf(ks, d)|
    ensures BlocksOf(ks, d)[i].0 in ks
  {
    var k := ks[0];
    var t := Tag(k, SortPositions(d[k]));
    if i >= |t| {
      BlocksDocIds(ks[1..], d, i - |t|);
    }
  }

  lemma TagSorted(docid: nat, s: seq<nat>)
    requires SortedBy(s, NatLe)
    ensures SortedBy(Tag(docid, s), PairLe)
  {
  }

  /** Blocks of ascending docids, each with sorted positions, form a sorted pair list. */
  lemma {:induction false} BlocksSorted(ks: seq<nat>, d: Postings)
    requires forall i :: 0 <= i < |ks| ==> ks[i] in d
    requires forall i, j :: 0 <= i < j < |ks| ==> ks[i] < ks[j]
    ensures SortedBy(BlocksOf(ks, d), PairLe)
  {
    if |ks| > 0 {
      var k := ks[0];
      var t := Tag(k, SortPositions(d[k]));
      var rest := BlocksOf(ks[1..], d);
      NatLeOrder();
      SortBySorted(d[k], NatLe);
      TagSorted(k, SortPositions(d[k]));
      BlocksSorted(ks[1..], d);
      forall j | 0 <= j < |rest| ensures k < rest[j].0 {
        BlocksDocIds(ks[1..], d, j);
      }
      var all := t + rest;
      forall a, b | 0 <= a < b < |all| ensures PairLe(all[a], all[b]) {
        if b < |t| {
          assert all[a] == t[a] && all[b] == t[b];
        } else if a >= |t| {
          assert all[a] == rest[a - |t|] && all[b] == rest[b - |t|];
        } else {
          assert all[a] == t[a] && all[b] == rest[b - |t|];
        }
      }
    }
  }

  /** The pairs `encode` writes are in ascending (docid, position) order. */
  lemma SortedPairsOrdered(d: Postings)
    ensures SortedBy(SortedPairs(d), PairLe)
  {
    BlocksSorted(SortedKeys(d), d);
  }

  /** The pairs `encode` writes hold each (docid, position) as often as `d` does. */
  lemma SortedPairsCount(d: Postings, q: Pair)
    ensures multiset(SortedPairs(d))[q] == if q.0 in d then multiset(d[q.0])[q.1] else 0
  {
    BlocksCount(SortedKeys(d), d, q);
  }

  /** The sorted pair list is a permutation of the pairs of `d`: (k, p) occurs iff p is listed for k. */
  lemma SortedPairsMembers(d: Postings, q: Pair)
    ensures q in SortedPairs(d) <==> q.0 in d && q.1 in d[q.0]
  {
    SortedPairsCount(d, q);
    assert q in SortedPairs(d) <==> q in multiset(SortedPairs(d));
    if q.0 in d {
      assert q.1 in d[q.0] <==> q.1 in multiset(d[q.0]);
    }
  }

  // ---------------------------------------------------------------------
  // encode
  // ---------------------------------------------------------------------

  /** Some position of `d` does not fit in a byte below the separator. */
  predicate BadPosition(d: Postings)
  {
    exists k, i :: k in d && 0 <= i < |d[k]| && d[k][i] >= 255
  }

  /** The pair-list form of `any(x >= 255 for x in positions)`. */
  predicate HasBadPair(ps: seq<Pair>)
  {
    exists j :: 0 <= j < |ps| && ps[j].1 >= 255
  }

  lemma BadPositionPair(d: Postings, k: nat, i: nat)
    requires k in d && i < |d[k]| && d[k][i] >= 255
    ensures HasBadPair(SortedPairs(d))
  {
    var ps := SortedPairs(d);
    SortedPairsMembers(d, (k, d[k][i]));
    var j :| 0 <= j < |ps| && ps[j] == (k, d[k][i]);
    assert ps[j].1 >= 255;
  }

  lemma BadPairPosition(ps: seq<Pair>, d: Postings, j: nat)
    requires ps == SortedPairs(d) && j < |ps| && ps[j].1 >= 255
    ensures BadPosition(d)
  {
    var q := ps[j];
    assert q in ps;
    SortedPairsMembers(d, q);
    var i :| 0 <= i < |d[q.0]| && d[q.0][i] == q.1;
  }

  lemma BadPairIff(d: Postings)
    ensures HasBadPair(SortedPairs(d)) <==> BadPosition(d)
  {
    var ps := SortedPairs(d);
    if BadPosition(d) {
      var k, i :| k in d && 0 <= i < |d[k]| && d[k][i] >= 255;
      BadPositionPair(d, k, i);
    }
    if HasBadPair(ps) {
      var j :| 0 <= j < |ps| && ps[j].1 >= 255;
      BadPairPosition(ps, d, j);
    }
  }

  lemma KeyCount(d: Postings, k: nat)
    requires k in d
    ensures |d| > 0
  {
    assert k in d.Keys;
  }

  /** `encode` fails exactly when some position is 255 or more. */
  lemma EncodeFailsIff(d: Postings)
    ensures EncodeDocs(d).Failure? <==> BadPosition(d)
  {
    BadPairIff(d);
    if BadPosition(d) {
      var k, i :| k in d && 0 <= i < |d[k]| && d[k][i] >= 255;
      KeyCount(d, k);
    }
  }

  /**
   * Layout of a non-empty encoding over the n pairs of `d`: the positions of
   * the sorted pairs, then 0xFF at index n (its first occurrence), then the
   * delta-encoded docids.
   */
  lemma EncodeLayout(d: Postings)
    requires |d| > 0 && EncodeDocs(d).Success?
    ensures var ps, bs := SortedPairs(d), EncodeDocs(d).value;
      && SortedBy(ps, PairLe)
      && |bs| > |ps|
      && bs[..|ps|] == Positions(ps)
      && bs[|ps|] == SEPARATOR
      && SEPARATOR in bs && IndexOf(bs, SEPARATOR) == |ps|
      && NonDecreasing(DocIds(ps))
      && bs[|ps| + 1..] == DeltaBytes(DocIds(ps))
  {
    var ps := SortedPairs(d);
    SortedPairsOrdered(d);
    SortedDocIds(ps);
    SeparatedLayout(PositionBytes(ps), DeltaBytes(DocIds(ps)));
  }

  /** Positions below 255, the separator, then any tail: the separator is found right after the positions. */
  lemma SeparatedLayout(p: seq<byte>, t: seq<byte>)
    requires forall i :: 0 <= i < |p| ==> p[i] < SEPARATOR
    ensures var bs := p + [SEPARATOR] + t;
      && bs[..|p|] == p && bs[|p|] == SEPARATOR && bs[|p| + 1..] == t
      && SEPARATOR in bs && IndexOf(bs, SEPARATOR) == |p|
  {
    var bs := p + [SEPARATOR] + t;
    assert bs[..|p|] == p;
    assert bs[|p| + 1..] == t;
    IndexOfFirst(bs, SEPARATOR, |p|);
  }

  lemma IndexOfFirst(bs: seq<byte>, x: byte, i: nat)
    requires i < |bs| && bs[i] == x && x !in bs[..i]
    ensures x in bs && IndexOf(bs, x) == i
  {
  }

  /** `list` holds exactly the pairs of the docids in `done`. */
  ghost predicate Gathered(docs: Postings, done: set<nat>, list: seq<Pair>)
    requires done <= docs.Keys
  {
    forall q :: multiset(list)[q] == if q.0 in done then multiset(docs[q.0])[q.1] else 0
  }

  lemma GatherStep(docs: Postings, done: set<nat>, list: seq<Pair>, key: nat)
    requires done <= docs.Keys && key in docs && key !in done && Gathered(docs, done, list)
    ensures Gathered(docs, done + {key}, list + Tag(key, docs[key]))
  {
    forall q ensures multiset(list + Tag(key, docs[key]))[q]
                  == if q.0 in done + {key} then multiset(docs[q.0])[q.1] else 0 {
      TagCount(key, docs[key], q);
    }
  }

  /** Sorting the gathered pairs, whatever order they were gathered in, gives the sorted pair list. */
  lemma GatheredSorts(docs: Postings, list: seq<Pair>)
    requires Gathered(docs, docs.Keys, list)
    ensures SortBy(list, PairLe) == SortedPairs(docs)
  {
    var sorted, ps := SortBy(list, PairLe), SortedPairs(docs);
    PairLeOrder();
    SortBySorted(list, PairLe);
    SortedPairsOrdered(docs);
    forall q ensures multiset(sorted)[q] == multiset(ps)[q] {
      SortedPairsCount(docs, q);
    }
    assert multiset(sorted) == multiset(ps);
    SortedUnique(sorted, ps, PairLe);
  }

  /**
   * `DocSet.encode` as the source writes it: gather every pair of
   * `_docs_list` (in whatever order the dictionary yields its keys), sort,
   * split into docids and positions, check the positions.
   */
  method EncodePostings(docs: Postings) returns (r: Result<seq<byte>>)
    ensures r == EncodeDocs(docs)
  {
    if |docs| == 0 {
      return Success([]);
    }
    var docsList: seq<Pair> := [];
    var rest := docs.Keys;
    while rest != {}
      invariant rest <= docs.Keys
      invariant Gathered(docs, docs.Keys - rest, docsList)
      decreases rest
    {
      var key :| key in rest;
      GatherStep(docs, docs.Keys - rest, docsList, key);
      assert docs.Keys - rest + {key} == docs.Keys - (rest - {key});
      docsList := docsList + Tag(key, docs[key]);
      rest := rest - {key};
    }
    assert docs.Keys - rest == docs.Keys;
    EncodeGathered(docs, docsList);
    docsList := SortBy(docsList, PairLe);
    var ids := DocIds(docsList);
    var docsEnc := DeltaEncode(ids);
    var position := Positions(docsList);
    BadPositions(docsList);
    if exists i :: 0 <= i < |position| && position[i] >= SEPARATOR as nat {
      return Failure(InvalidPosition);
    }
    r := Success(PositionBytes(docsList) + [SEPARATOR] + docsEnc);
  }

  /** What `encode` returns, in terms of the sorted gathered pairs. */
  lemma EncodeGathered(docs: Postings, list: seq<Pair>)
    requires |docs| > 0 && Gathered(docs, docs.Keys, list)
    ensures var sorted := SortBy(list, PairLe);
      && NonDecreasing(DocIds(sorted))
      && (HasBadPair(sorted) ==> EncodeDocs(docs) == Failure(InvalidPosition))
      && (!HasBadPair(sorted) ==> EncodeDocs(docs) == Success(PositionBytes(sorted) + [SEPARATOR] + DeltaBytes(DocIds(sorted))))
  {
    GatheredSorts(docs, list);
    SortedPairsOrdered(docs);
    SortedDocIds(SortedPairs(docs));
  }

  lemma BadPositions(ps: seq<Pair>)
    ensures (exists i :: 0 <= i < |Positions(ps)| && Positions(ps)[i] >= SEPARATOR as nat) <==> HasBadPair(ps)
  {
    if HasBadPair(ps) {
      var j :| 0 <= j < |ps| && ps[j].1 >= 255;
      assert Positions(ps)[j] >= SEPARATOR as nat;
    }
  }

  // ---------------------------------------------------------------------
  // decode
  // ---------------------------------------------------------------------

  lemma {:induction false} AddPairsConcat(d: Postings, a: seq<Pair>, b: seq<Pair>)
    ensures AddPairs(d, a + b) == AddPairs(AddPairs(d, a), b)
    decreases |a|
  {
    if |a| > 0 {
      assert (a + b)[0] == a[0] && (a + b)[1..] == a[1..] + b;
      AddPairsConcat(Insert(d, a[0].0, a[0].1), a[1..], b);
    } else {
      assert a + b == b;
    }
  }

  /** Appending the pairs of one docid extends that docid's list by the positions. */
  lemma {:induction false} AddPairsTag(d: Postings, docid: nat, s: seq<nat>)
    requires |s| > 0
    ensures AddPairs(d, Tag(docid, s)) == d[docid := Get(d, docid) + s]
    decreases |s|
  {
    var d' := Insert(d, docid, s[0]);
    AddPairsHead(d, docid, s);
    if |s| == 1 {
      assert [s[0]] == s;
    } else {
      AddPairsTag(d', docid, s[1..]);
      InsertThenUpdate(d, docid, s[0], s[1..]);
      assert [s[0]] + s[1..] == s;
    }
  }

  lemma AddPairsHead(d: Postings, docid: nat, s: seq<nat>)
    requires |s| > 0
    ensures AddPairs(d, Tag(docid, s)) == AddPairs(Insert(d, docid, s[0]), Tag(docid, s[1..]))
  {
  }

  lemma InsertThenUpdate(d: Postings, docid: nat, x: nat, s: seq<nat>)
    ensures Insert(d, docid, x)[docid := Get(Insert(d, docid, x), docid) + s] == d[docid := Get(d, docid) + ([x] + s)]
  {
    assert Get(d, docid) + [x] + s == Get(d, docid) + ([x] + s);
  }

  /** The docset decoding the blocks of `ks` adds: each docid with its sorted positions. */
  ghost function KeyMap(ks: seq<nat>, d: Postings): Postings
  {
    map k | k in ks && k in d :: SortPositions(d[k])
  }

  lemma KeyMapStep(m: Postings, ks: seq<nat>, d: Postings)
    requires |ks| > 0 && ks[0] in d
    ensures m[ks[0] := SortPositions(d[ks[0]])] + KeyMap(ks[1..], d) == m + KeyMap(ks, d)
  {
    assert forall k :: k in ks <==> k == ks[0] || k in ks[1..];
  }

  lemma BlocksStep(m: Postings, ks: seq<nat>, d: Postings)
    requires |ks| > 0 && ks[0] !in m
    requires forall i :: 0 <= i < |ks| ==> ks[i] in d
    requires NonEmptyLists(d)
    ensures AddPairs(m, BlocksOf(ks, d)) == AddPairs(m[ks[0] := SortPositions(d[ks[0]])], BlocksOf(ks[1..], d))
  {
    var k := ks[0];
    var s := SortPositions(d[k]);
    SortBySorted(d[k], NatLe);
    AddPairsConcat(m, Tag(k, s), BlocksOf(ks[1..], d));
    AddPairsTag(m, k, s);
    assert Get(m, k) + s == s;
  }

  /** Decoding the blocks of fresh, ascending docids adds each docid with its sorted positions. */
  lemma {:induction false} AddBlocks(m: Postings, ks: seq<nat>, d: Postings)
    requires forall i :: 0 <= i < |ks| ==> ks[i] in d && ks[i] !in m
    requires forall i, j :: 0 <= i < j < |ks| ==> ks[i] < ks[j]
    requires NonEmptyLists(d)
    ensures AddPairs(m, BlocksOf(ks, d)) == m + KeyMap(ks, d)
    decreases |ks|
  {
    if |ks| == 0 {
      assert KeyMap(ks, d) == map[];
      assert m + map[] == m;
    } else {
      var m' := m[ks[0] := SortPositions(d[ks[0]])];
      BlocksStep(m, ks, d);
      assert forall i :: 0 <= i < |ks[1..]| ==> ks[1..][i] == ks[i + 1];
      AddBlocks(m', ks[1..], d);
      KeyMapStep(m, ks, d);
    }
  }

  /** Decoding the sorted pairs of a docset gives the docset with sorted positions. */
  lemma AddSortedPairs(d: Postings)
    requires NonEmptyLists(d)
    ensures AddPairs(map[], SortedPairs(d)) == Normalize(d)
  {
    var ks := SortedKeys(d);
    AddBlocks(map[], ks, d);
    EmptyUnion(KeyMap(ks, d));
    KeyMapAll(d);
  }

  lemma EmptyUnion(m: Postings)
    ensures map[] + m == m
  {
  }

  lemma KeyMapAll(d: Postings)
    ensures KeyMap(SortedKeys(d), d) == Normalize(d)
  {
  }

  /**
   * The round trip: for a docset built by appends with positions below 255,
   * `decode(encode(d))` holds the same docids, and for each the same
   * positions in ascending order.
   */
  lemma RoundTrip(d: Postings)
    requires NonEmptyLists(d) && PositionsFit(d)
    ensures EncodeDocs(d).Success?
    ensures DecodeDocs(EncodeDocs(d).value) == Success(Normalize(d))
  {
    EncodeFailsIff(d);
    if |d| == 0 {
      assert d == map[];
      assert Normalize(d) == map[];
    } else {
      var ps := SortedPairs(d);
      var bs := EncodeDocs(d).value;
      PairsNonEmpty(d);
      DecodeLayout(d);
      ZipLayout(d);
      AddSortedPairs(d);
    }
  }

  /** A docset with a non-empty list has a pair. */
  lemma PairsNonEmpty(d: Postings)
    requires |d| > 0 && NonEmptyLists(d)
    ensures |SortedPairs(d)| > 0
  {
    var k := PickKey(d);
    SortedPairsMembers(d, (k, d[k][0]));
  }

  /** `decode` splits an encoding at the separator that follows the positions. */
  lemma DecodeLayout(d: Postings)
    requires |d| > 0 && EncodeDocs(d).Success? && |SortedPairs(d)| > 0
    ensures var ps, bs := SortedPairs(d), EncodeDocs(d).value;
      DecodeDocs(bs) == Success(AddPairs(map[], Zip(DeltaDecoded(bs[|ps| + 1..]), bs[..|ps|])))
  {
    EncodeLayout(d);
  }

  /** Zipping the decoded docids with the position bytes gives back the sorted pairs. */
  lemma ZipLayout(d: Postings)
    requires |d| > 0 && EncodeDocs(d).Success?
    ensures var ps, bs := SortedPairs(d), EncodeDocs(d).value;
      |bs| > |ps| && Zip(DeltaDecoded(bs[|ps| + 1..]), bs[..|ps|]) == ps
  {
    var ps, bs := SortedPairs(d), EncodeDocs(d).value;
    EncodeLayout(d);
    DeltaRoundTrip(DocIds(ps));
    ZipPairs(ps, DeltaDecoded(bs[|ps| + 1..]), bs[..|ps|]);
  }

  lemma ZipPairs(ps: seq<Pair>, ids: seq<nat>, positions: seq<byte>)
    requires ids == DocIds(ps) && positions == Positions(ps)
    ensures Zip(ids, positions) == ps
  {
  }

  lemma PickKey(d: Postings) returns (k: nat)
    requires |d| > 0
    ensures k in d
  {
    assert d.Keys != {};
    k :| k in d.Keys;
  }

  /** Decoding never yields an empty list or a position of 255. */
  lemma {:induction false} AddPairsShape(d: Postings, ps: seq<Pair>)
    requires NonEmptyLists(d) && PositionsFit(d)
    requires forall i :: 0 <= i < |ps| ==> ps[i].1 < 255
    ensures NonEmptyLists(AddPairs(d, ps)) && PositionsFit(AddPairs(d, ps))
    decreases |ps|
  {
    if |ps| > 0 {
      AddPairsShape(Insert(d, ps[0].0, ps[0].1), ps[1..]);
    }
  }

  /** Whatever `decode` returns is a docset some sequence of appends builds, with positions below 255. */
  lemma DecodeShape(bs: seq<byte>)
    requires DecodeDocs(bs).Success?
    ensures NonEmptyLists(DecodeDocs(bs).value) && PositionsFit(DecodeDocs(bs).value)
  {
    if |bs| > 1 {
      var limit := IndexOf(bs, SEPARATOR);
      var z := Zip(DeltaDecoded(bs[limit + 1..]), bs[..limit]);
      forall i | 0 <= i < |z| ensures z[i].1 < 255 {
        assert bs[..limit][i] in bs[..limit];
      }
      AddPairsShape(map[], z);
    }
  }

  // ---------------------------------------------------------------------
  // __len__ and __eq__ across the round trip
  // ---------------------------------------------------------------------

  /** Normalising keeps the docids, and holds each docid's positions sorted and as the same multiset. */
  lemma NormalizeSpec(d: Postings)
    ensures Normalize(d).Keys == d.Keys && |Normalize(d)| == |d|
    ensures forall k :: k in d ==> SortedBy(Normalize(d)[k], NatLe)
    ensures forall k :: k in d ==> multiset(Normalize(d)[k]) == multiset(d[k])
  {
    NatLeOrder();
    forall k | k in d ensures SortedBy(Normalize(d)[k], NatLe) && multiset(Normalize(d)[k]) == multiset(d[k]) {
      SortBySorted(d[k], NatLe);
    }
    assert Normalize(d).Keys == d.Keys;
  }

  /** `len(decode(encode(d))) == len(d)`. */
  lemma RoundTripLen(d: Postings)
    requires NonEmptyLists(d) && PositionsFit(d)
    ensures EncodeDocs(d).Success? && DecodeDocs(EncodeDocs(d).value).Success?
    ensures |DecodeDocs(EncodeDocs(d).value).value| == |d|
  {
    RoundTrip(d);
    NormalizeSpec(d);
  }

  /** `decode(encode(d)) == d` exactly when every docid's positions were appended in ascending order. */
  lemma RoundTripEqualIff(d: Postings)
    requires NonEmptyLists(d) && PositionsFit(d)
    ensures EncodeDocs(d).Success? && DecodeDocs(EncodeDocs(d).value).Success?
    ensures DecodeDocs(EncodeDocs(d).value).value == d <==> forall k :: k in d ==> SortedBy(d[k], NatLe)
  {
    RoundTrip(d);
    NormalizeSpec(d);
    NatLeOrder();
    if forall k :: k in d ==> SortedBy(d[k], NatLe) {
      NormalizeSorted(d);
    }
  }

  lemma NormalizeSorted(d: Postings)
    requires forall k :: k in d ==> SortedBy(d[k], NatLe)
    ensures Normalize(d) == d
  {
    NatLeOrder();
    forall k | k in d ensures Normalize(d)[k] == d[k] {
      SortBySortedInput(d[k], NatLe);
    }
  }

  // ---------------------------------------------------------------------
  // The DocSet object
  // ---------------------------------------------------------------------

  class DocSet {
    /** `_docs_list`. */
    var docs: Postings

    constructor ()
      ensures docs == map[]
    {
      docs := map[];
    }

    method Append(docid: nat, position: nat)
      modifies this
      ensures docs == Insert(old(docs), docid, position)
    {
      docs := docs[docid := Get(docs, docid) + [position]];
    }

    /** `__len__`: the number of distinct docids. */
    function Len(): nat
      reads this
    {
      |docs|
    }

    /** `__eq__`. */
    predicate Equals(other: DocSet)
      reads this, other
    {
      docs == other.docs
    }

    method Encode() returns (r: Result<seq<byte>>)
      ensures r == EncodeDocs(docs)
    {
      r := EncodePostings(docs);
    }

    /** `DocSet.decode`, a class method building a new object. */
    static method Decode(encoded: seq<byte>) returns (r: Result<DocSet>)
      ensures DecodeDocs(encoded).Failure? ==> r == Failure(DecodeDocs(encoded).error)
      ensures DecodeDocs(encoded).Success? ==> r.Success? && fresh(r.value) && r.value.docs == DecodeDocs(encoded).value
    {
      var docset := new DocSet();
      if |encoded| > 1 {
        if SEPARATOR !in encoded {
          return Failure(NoSeparator);
        }
        var limit := IndexOf(encoded, SEPARATOR);
        var docsid := DeltaDecode(encoded[limit + 1..]);
        var positions := encoded[..limit];
        var z := Zip(docsid, positions);
        docset.docs := map[];
        var i := 0;
        while i < |z|
          invariant 0 <= i <= |z|
          invariant docset.docs == AddPairs(map[], z[..i])
        {
          AddPairsConcat(map[], z[..i], [z[i]]);
          assert z[..i + 1] == z[..i] + [z[i]];
          docset.Append(z[i].0, z[i].1);
          i := i + 1;
        }
        assert z[..|z|] == z;
      }
      r := Success(docset);
    }
  }
}
