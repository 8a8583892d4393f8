/**
 * The docid stream of a posting list: `DocSet.delta_encode` and
 * `DocSet.delta_decode`. Each number is stored as the difference from the
 * previous one, and each difference as unsigned base-128 bytes (the byte
 * layout of unsigned LEB128, section 7.6 of the DWARF 4 standard): seven
 * data bits per byte, low bits first, high bit set on every byte but the last.
 *
 * The bit operations of the source are written arithmetically: for a
 * non-negative `n`, `n & 0x7F` is `n % 128`, `n >> 7` is `n / 128`, and
 * `b | 0x80` is `b + 128` when `b < 128`.
 */
module Delta {

  /** One byte of a Python `bytes` object or `array('B')`. */
  type byte = b: int | 0 <= b < 256

  function Pow2(n: nat): (r: nat)
    ensures r > 0
  {
    if n == 0 then 1 else 2 * Pow2(n - 1)
  }

  lemma Pow2Add7(n: nat)
    ensures Pow2(n + 7) == 128 * Pow2(n)
  {
    var k := n + 7;
    assert Pow2(k) == 2 * Pow2(k - 1);
    assert Pow2(k - 1) == 2 * Pow2(k - 2);
    assert Pow2(k - 2) == 2 * Pow2(k - 3);
    assert Pow2(k - 3) == 2 * Pow2(k - 4);
    assert Pow2(k - 4) == 2 * Pow2(k - 5);
    assert Pow2(k - 5) == 2 * Pow2(k - 6);
    assert Pow2(k - 6) == 2 * Pow2(k - 7);
  }

  predicate NonDecreasing(s: seq<nat>)
  {
    forall i, j :: 0 <= i < j < |s| ==> s[i] <= s[j]
  }

  /** `x << shift` for a non-negative `x`. */
  function Shifted(x: nat, shift: nat): nat
  {
    x * Pow2(shift)
  }

  lemma ShiftedStep(x: nat, shift: nat)
    ensures Shifted(x, shift + 7) == Shifted(128 * x, shift)
  {
    Pow2Add7(shift);
    assert x * (128 * Pow2(shift)) == (128 * x) * Pow2(shift);
  }

  lemma ShiftedSum(x: nat, y: nat, shift: nat)
    ensures Shifted(x, shift) + Shifted(y, shift) == Shifted(x + y, shift)
  {
    assert x * Pow2(shift) + y * Pow2(shift) == (x + y) * Pow2(shift);
  }

  /** The number of bytes below 0x80, i.e. the number of numbers a byte stream ends. */
  function Terminators(bs: seq<byte>): nat
  {
    if |bs| == 0 then 0 else (if bs[0] < 128 then 1 else 0) + Terminators(bs[1..])
  }

  lemma TerminatorsAppend(a: seq<byte>, b: seq<byte>)
    ensures Terminators(a + b) == Terminators(a) + Terminators(b)
  {
    if |a| > 0 {
      assert (a + b)[1..] == a[1..] + b;
      TerminatorsAppend(a[1..], b);
    } else {
      assert a + b == b;
    }
  }

  /**
   * The bytes the inner `while True` loop of `delta_encode` emits for one
   * difference `n`: zero or more bytes with 0x80 set, then exactly one byte
   * below 0x80.
   */
  function Varint(n: nat): seq<byte>
    decreases n
  {
    if n < 128 then [n] else [n % 128 + 128] + Varint(n / 128)
  }

  lemma {:induction false} VarintShape(n: nat)
    ensures var r := Varint(n); |r| > 0 && r[|r| - 1] < 128
    ensures var r := Varint(n); forall i :: 0 <= i < |r| - 1 ==> r[i] >= 128
    decreases n
  {
    if n >= 128 {
      VarintShape(n / 128);
    }
  }

  /**
   * The output of `delta_encode` for `s[i..]`, when the previous number is
   * `prev`. The differences are non-negative only because `s` does not
   * decrease; on a decreasing input the source never terminates.
   */
  function DeltaBytesFrom(s: seq<nat>, i: nat, prev: nat): seq<byte>
    requires i <= |s| && NonDecreasing(s) && (i < |s| ==> prev <= s[i])
    decreases |s| - i
  {
    if i == |s| then [] else Varint(s[i] - prev) + DeltaBytesFrom(s, i + 1, s[i])
  }

  /** `delta_encode(s)`: the previous number starts at 0. */
  function DeltaBytes(s: seq<nat>): seq<byte>
    requires NonDecreasing(s)
  {
    DeltaBytesFrom(s, 0, 0)
  }

  /**
   * What `delta_decode` appends for the bytes `bs`, from the state
   * `prev_doc == prev`, `doc == doc`, `shift == shift`. A trailing number
   * whose last byte still has 0x80 set is dropped, as in the source.
   */
  function DecodeFrom(bs: seq<byte>, prev: nat, doc: nat, shift: nat): (r: seq<nat>)
    ensures |r| == Terminators(bs)
  {
    if |bs| == 0 then []
    else
      var doc' := doc + Shifted(bs[0] % 128, shift);
      if bs[0] < 128 then [prev + doc'] + DecodeFrom(bs[1..], prev + doc', 0, 0)
      else DecodeFrom(bs[1..], prev, doc', shift + 7)
  }

  /** Decoding adds non-negative differences, so what it yields never decreases. */
  lemma {:induction false} DecodeFromSorted(bs: seq<byte>, prev: nat, doc: nat, shift: nat)
    ensures var r := DecodeFrom(bs, prev, doc, shift);
      (forall i :: 0 <= i < |r| ==> prev <= r[i]) && NonDecreasing(r)
    decreases |bs|
  {
    if |bs| > 0 {
      var doc' := doc + Shifted(bs[0] % 128, shift);
      if bs[0] < 128 {
        DecodeFromSorted(bs[1..], prev + doc', 0, 0);
      } else {
        DecodeFromSorted(bs[1..], prev, doc', shift + 7);
      }
    }
  }

  lemma DeltaDecodedSorted(bs: seq<byte>)
    ensures NonDecreasing(DeltaDecoded(bs))
  {
    DecodeFromSorted(bs, 0, 0, 0);
  }

  /** `delta_decode(bs)`: decoding from the initial state. */
  function DeltaDecoded(bs: seq<byte>): seq<nat>
  {
    DecodeFrom(bs, 0, 0, 0)
  }

  /** Decoding the bytes of one number `n` adds `n << shift` to `doc` and ends the number. */
  lemma {:induction false} VarintDecode(n: nat, rest: seq<byte>, prev: nat, doc: nat, shift: nat)
    ensures DecodeFrom(Varint(n) + rest, prev, doc, shift)
         == [prev + doc + Shifted(n, shift)] + DecodeFrom(rest, prev + doc + Shifted(n, shift), 0, 0)
    decreases n
  {
    var bs := Varint(n) + rest;
    if n < 128 {
      assert bs[0] == n && bs[1..] == rest;
    } else {
      var doc' := doc + Shifted(n % 128, shift);
      VarintDecodeStep(n, rest, prev, doc, shift);
      VarintDecode(n / 128, rest, prev, doc', shift + 7);
      ShiftedSplit(n, shift);
    }
  }

  /** A continuation byte adds its seven bits at `shift` and moves on to the next group. */
  lemma VarintDecodeStep(n: nat, rest: seq<byte>, prev: nat, doc: nat, shift: nat)
    requires n >= 128
    ensures DecodeFrom(Varint(n) + rest, prev, doc, shift)
         == DecodeFrom(Varint(n / 128) + rest, prev, doc + Shifted(n % 128, shift), shift + 7)
  {
    var x: byte := n % 128 + 128;
    assert Varint(n) + rest == [x] + (Varint(n / 128) + rest);
    DecodeCons(x, Varint(n / 128) + rest, prev, doc, shift);
    assert x % 128 == n % 128;
  }

  lemma DecodeCons(x: byte, t: seq<byte>, prev: nat, doc: nat, shift: nat)
    ensures var d := doc + Shifted(x % 128, shift);
      DecodeFrom([x] + t, prev, doc, shift)
        == if x < 128 then [prev + d] + DecodeFrom(t, prev + d, 0, 0)
           else DecodeFrom(t, prev, d, shift + 7)
  {
    assert ([x] + t)[0] == x;
    assert ([x] + t)[1..] == t;
  }

  lemma ShiftedSplit(n: nat, shift: nat)
    ensures Shifted(n % 128, shift) + Shifted(n / 128, shift + 7) == Shifted(n, shift)
  {
    ShiftedStep(n / 128, shift);
    ShiftedSum(n % 128, 128 * (n / 128), shift);
  }

  /** A 7-bit group placed above the bits of `doc` keeps it below `2^(shift + 7)`. */
  lemma ShiftedBound(doc: nat, x: nat, shift: nat)
    requires doc < Pow2(shift) && x < 128
    ensures doc + Shifted(x, shift) < Pow2(shift + 7)
  {
    Pow2Add7(shift);
    assert x * Pow2(shift) <= 127 * Pow2(shift);
  }

  /** Delta round trip: decoding what `delta_encode` wrote gives the input back. */
  lemma {:induction false} DeltaRoundTripFrom(s: seq<nat>, i: nat, prev: nat)
    requires i <= |s| && NonDecreasing(s) && (i < |s| ==> prev <= s[i])
    ensures DecodeFrom(DeltaBytesFrom(s, i, prev), prev, 0, 0) == s[i..]
    decreases |s| - i
  {
    if i < |s| {
      VarintDecode(s[i] - prev, DeltaBytesFrom(s, i + 1, s[i]), prev, 0, 0);
      DeltaRoundTripFrom(s, i + 1, s[i]);
      assert s[i..] == [s[i]] + s[i + 1..];
    }
  }

  lemma DeltaRoundTrip(s: seq<nat>)
    requires NonDecreasing(s)
    ensures DeltaDecoded(DeltaBytes(s)) == s
  {
    DeltaRoundTripFrom(s, 0, 0);
  }

  /** Every number of `s[i..]` ends with exactly one byte below 0x80. */
  lemma {:induction false} DeltaTerminators(s: seq<nat>, i: nat, prev: nat)
    requires i <= |s| && NonDecreasing(s) && (i < |s| ==> prev <= s[i])
    ensures Terminators(DeltaBytesFrom(s, i, prev)) == |s| - i
    ensures |DeltaBytesFrom(s, i, prev)| >= |s| - i
    decreases |s| - i
  {
    if i < |s| {
      var v := Varint(s[i] - prev);
      DeltaTerminators(s, i + 1, s[i]);
      TerminatorsAppend(v, DeltaBytesFrom(s, i + 1, s[i]));
      VarintShape(s[i] - prev);
      VarintTerminators(v);
    }
  }

  lemma VarintTerminators(v: seq<byte>)
    requires |v| > 0 && v[|v| - 1] < 128
    requires forall i :: 0 <= i < |v| - 1 ==> v[i] >= 128
    ensures Terminators(v) == 1
  {
    if |v| > 1 {
      VarintTerminators(v[1..]);
    }
  }

  lemma DeltaBytesStep(s: seq<nat>, i: nat, prev: nat, done: seq<byte>)
    requires i < |s| && NonDecreasing(s) && prev <= s[i]
    ensures done + DeltaBytesFrom(s, i, prev) == (done + Varint(s[i] - prev)) + DeltaBytesFrom(s, i + 1, s[i])
  {
  }

  /** `DocSet.delta_encode`. */
  method DeltaEncode(ordered: seq<nat>) returns (result: seq<byte>)
    requires NonDecreasing(ordered)
    ensures result == DeltaBytes(ordered)
  {
    result := [];
    var prevDoc: nat := 0;
    var i := 0;
    while i < |ordered|
      invariant 0 <= i <= |ordered|
      invariant prevDoc == if i == 0 then 0 else ordered[i - 1]
      invariant i < |ordered| ==> prevDoc <= ordered[i]
      invariant result + DeltaBytesFrom(ordered, i, prevDoc) == DeltaBytes(ordered)
    {
      var doc: nat := ordered[i] - prevDoc;
      prevDoc := ordered[i];
      ghost var before, delta := result, doc;
      while true
        invariant before + Varint(delta) == result + Varint(doc)
        decreases doc
      {
        var b := doc % 128;
        ghost var was := doc;
        doc := doc / 128;
        if doc != 0 {
          assert Varint(was) == [b + 128] + Varint(doc);
          assert result + Varint(was) == (result + [b + 128]) + Varint(doc);
          result := result + [b + 128];
        } else {
          assert Varint(was) == [b];
          result := result + [b];
          break;
        }
      }
      assert result == before + Varint(delta);
      DeltaBytesStep(ordered, i, if i == 0 then 0 else ordered[i - 1], before);
      i := i + 1;
    }
  }

  /** One step of decoding, at position `i` of `bs`. */
  lemma DecodeAt(bs: seq<byte>, i: nat, prev: nat, doc: nat, shift: nat)
    requires i < |bs|
    ensures var d := doc + Shifted(bs[i] % 128, shift);
      DecodeFrom(bs[i..], prev, doc, shift)
        == if bs[i] < 128 then [prev + d] + DecodeFrom(bs[i + 1..], prev + d, 0, 0)
           else DecodeFrom(bs[i + 1..], prev, d, shift + 7)
  {
    assert bs[i..][0] == bs[i];
    assert bs[i..][1..] == bs[i + 1..];
  }

  /** `DocSet.delta_decode`. */
  method DeltaDecode(ordered: seq<byte>) returns (result: seq<nat>)
    ensures result == DeltaDecoded(ordered)
  {
    result := [];
    var prevDoc: nat, doc: nat, shift: nat := 0, 0, 0;
    var i := 0;
    while i < |ordered|
      invariant 0 <= i <= |ordered|
      invariant doc < Pow2(shift)
      invariant result + DecodeFrom(ordered[i..], prevDoc, doc, shift) == DeltaDecoded(ordered)
    {
      var b := ordered[i];
      DecodeAt(ordered, i, prevDoc, doc, shift);
      ShiftedBound(doc, b % 128, shift);
      // `doc |= (b & 0x7F) << shift`: the new bits lie above those of `doc`
      doc := doc + Shifted(b % 128, shift);
      shift := shift + 7;
      if b < 128 {
        prevDoc := prevDoc + doc;
        result := result + [prevDoc];
        doc, shift := 0, 0;
      }
      i := i + 1;
    }
  }
}
