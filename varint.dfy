/** The multiformats unsigned varint used for every length prefix and CID
    field: unsigned LEB128, seven data bits per byte, least significant group
    first, continuation bit set on every byte but the last, at most nine
    bytes (so values below 2^63), and minimally encoded. */
module Varint {
  import opened Base

  const MaxBytes: nat := 9

  /** 2^63: the first value `varint.encode` refuses. */
  const Bound: nat := 0x8000_0000_0000_0000

  function Pow128(k: nat): nat
  {
    if k == 0 then 1 else 128 * Pow128(k - 1)
  }

  /** `varint.encode(n)`. */
  function Encode(n: nat): (r: seq<byte>)
    ensures 1 <= |r|
    decreases n
  {
    if n < 128 then [n] else [n % 128 + 128] + Encode(n / 128)
  }

  /** Reads the groups of the varint that starts at `buf[start]`, from
      `buf[i]` on: the value of the groups from `i` and the cursor just past
      the varint. Running off the buffer is a truncation, a tenth byte makes
      the varint too long, and a final zero byte after the first makes it
      not minimal. */
  function GroupsAt(buf: seq<byte>, start: nat, i: nat): (r: Result<(nat, nat), Error>)
    requires start <= i <= start + MaxBytes
    ensures r.Ok? ==> i < r.value.1 <= |buf| && r.value.1 <= start + MaxBytes
    decreases |buf| - i
  {
    if i == start + MaxBytes then Err(VarintTooLong)
    else if i >= |buf| then Err(VarintTruncated)
    else if buf[i] < 128 then
      if buf[i] == 0 && i > start then Err(VarintNotMinimal) else Ok((buf[i], i + 1))
    else
      var rest :- GroupsAt(buf, start, i + 1);
      Ok((buf[i] - 128 + 128 * rest.0, rest.1))
  }

  /** `varint.decode_raw(buf[i:])` followed by `i += n`: the value and the
      advanced cursor. */
  function DecodeAt(buf: seq<byte>, i: nat): (r: Result<(nat, nat), Error>)
    ensures r.Ok? ==> i < r.value.1 <= |buf| && r.value.1 <= i + MaxBytes
  {
    GroupsAt(buf, i, i)
  }

  lemma PowBound()
    ensures Pow128(9) == Bound
  {
    calc {
      Pow128(9);
      128 * Pow128(8);
      128 * (128 * Pow128(7));
      128 * (128 * (128 * Pow128(6)));
      128 * (128 * (128 * (128 * Pow128(5))));
      128 * (128 * (128 * (128 * (128 * Pow128(4)))));
      { assert Pow128(4) == 128 * (128 * (128 * (128 * Pow128(0)))); }
      Bound;
    }
  }

  lemma {:induction false} PowMonotone(j: nat, k: nat)
    requires j <= k
    ensures Pow128(j) <= Pow128(k)
    decreases k
  {
    if j < k {
      PowMonotone(j, k - 1);
    }
  }

  /** The encoding has minimal length: `n` needs all of its bytes, and would
      not fit in one byte fewer. */
  lemma {:induction false} EncodeMinimal(n: nat)
    ensures n < Pow128(|Encode(n)|)
    ensures |Encode(n)| > 1 ==> Pow128(|Encode(n)| - 1) <= n
    decreases n
  {
    if n >= 128 {
      EncodeMinimal(n / 128);
      assert |Encode(n)| == 1 + |Encode(n / 128)|;
    }
  }

  lemma {:induction false} EncodeLengthBound(n: nat, k: nat)
    requires 1 <= k && n < Pow128(k)
    ensures |Encode(n)| <= k
    decreases k
  {
    if n >= 128 {
      assert k >= 2;
      EncodeLengthBound(n / 128, k - 1);
    }
  }

  lemma {:induction false} GroupsAtEncoded(buf: seq<byte>, start: nat, i: nat, n: nat)
    requires start <= i && i + |Encode(n)| <= start + MaxBytes
    requires i + |Encode(n)| <= |buf| && buf[i..i + |Encode(n)|] == Encode(n)
    requires i > start && |Encode(n)| == 1 ==> n != 0
    ensures GroupsAt(buf, start, i) == Ok((n, i + |Encode(n)|))
    decreases n
  {
    var run := buf[i..i + |Encode(n)|];
    assert buf[i] == run[0];
    if n >= 128 {
      var tail := Encode(n / 128);
      assert buf[i + 1..i + 1 + |tail|] == run[1..];
      GroupsAtEncoded(buf, start, i + 1, n / 128);
    }
  }

  /** Decoding, at any position, the encoding of a value below 2^63 gives the
      value back and moves the cursor exactly past the encoding. */
  lemma DecodeAtEncoded(buf: seq<byte>, i: nat, n: nat)
    requires n < Bound && HasAt(buf, i, Encode(n))
    ensures DecodeAt(buf, i) == Ok((n, i + |Encode(n)|))
  {
    PowBound();
    EncodeLengthBound(n, MaxBytes);
    GroupsAtEncoded(buf, i, i, n);
  }

  /** Decoding the encoding of a value below 2^63 gives the value back and
      consumes exactly the encoding. */
  lemma DecodeEncoded(n: nat)
    requires n < Bound
    ensures DecodeAt(Encode(n), 0) == Ok((n, |Encode(n)|))
  {
    HasAtWhole(Encode(n));
    DecodeAtEncoded(Encode(n), 0, n);
  }

  lemma {:induction false} GroupsAtCanonical(buf: seq<byte>, start: nat, i: nat, v: nat, j: nat)
    requires start <= i <= start + MaxBytes
    requires GroupsAt(buf, start, i) == Ok((v, j))
    ensures buf[i..j] == Encode(v)
    ensures v < Pow128(j - i)
    ensures i > start ==> v != 0
    decreases start + MaxBytes - i
  {
    if buf[i] >= 128 {
      var rest := GroupsAt(buf, start, i + 1).value;
      GroupsAtCanonical(buf, start, i + 1, rest.0, rest.1);
      assert v % 128 == buf[i] - 128 && v / 128 == rest.0;
      assert buf[i..j] == [buf[i]] + buf[i + 1..j];
    }
  }

  /** A successful decode read the minimal encoding of the value it returns:
      the bytes stepped over are exactly `Encode(v)`, and `v` is below 2^63. */
  lemma DecodeAtCanonical(buf: seq<byte>, i: nat, v: nat, j: nat)
    ensures DecodeAt(buf, i) == Ok((v, j)) ==> v < Bound && buf[i..j] == Encode(v)
  {
    if DecodeAt(buf, i) == Ok((v, j)) {
      GroupsAtCanonical(buf, i, i, v, j);
      PowMonotone(j - i, MaxBytes);
      PowBound();
    }
  }

  // Runs of varints, one after the other, as a CID lays out its fields.

  /** The encodings of `ns`, one after the other. */
  function EncodeAll(ns: seq<nat>): seq<byte>
  {
    if |ns| == 0 then [] else Encode(ns[0]) + EncodeAll(ns[1..])
  }

  /** Reads `count` varints one after the other from `buf[i]` on: their
      values and the cursor after the last; the first error stops it. */
  function DecodeAll(buf: seq<byte>, i: nat, count: nat): (r: Result<(seq<nat>, nat), Error>)
    ensures r.Ok? ==> |r.value.0| == count && i <= r.value.1
    ensures r.Ok? && count > 0 ==> r.value.1 <= |buf|
    decreases count
  {
    if count == 0 then Ok(([], i))
    else
      var first :- DecodeAt(buf, i);
      var rest :- DecodeAll(buf, first.1, count - 1);
      Ok(([first.0] + rest.0, rest.1))
  }

  /** The errors a varint reader raises are its own. */
  predicate VarintError(e: Error)
  {
    e == VarintTooLong || e == VarintTruncated || e == VarintNotMinimal
  }

  lemma {:induction false} GroupsAtErrors(buf: seq<byte>, start: nat, i: nat)
    requires start <= i <= start + MaxBytes
    ensures GroupsAt(buf, start, i).Err? ==> VarintError(GroupsAt(buf, start, i).error)
    decreases |buf| - i
  {
    if i < start + MaxBytes && i < |buf| && buf[i] >= 128 {
      GroupsAtErrors(buf, start, i + 1);
    }
  }

  /** Reading several varints fails only with a varint error. */
  lemma {:induction false} DecodeAllErrors(buf: seq<byte>, i: nat, count: nat)
    ensures DecodeAll(buf, i, count).Err? ==> VarintError(DecodeAll(buf, i, count).error)
    decreases count
  {
    if count > 0 {
      GroupsAtErrors(buf, i, i);
      if DecodeAt(buf, i).Ok? {
        DecodeAllErrors(buf, DecodeAt(buf, i).value.1, count - 1);
      }
    }
  }

  /** Varints below 2^63 written one after the other read back, in order,
      from wherever they lie, and the cursor moves exactly past them. */
  lemma {:induction false} DecodeAllAt(buf: seq<byte>, i: nat, ns: seq<nat>)
    requires forall k :: 0 <= k < |ns| ==> ns[k] < Bound
    requires HasAt(buf, i, EncodeAll(ns))
    ensures DecodeAll(buf, i, |ns|) == Ok((ns, i + |EncodeAll(ns)|))
    decreases |ns|
  {
    if |ns| > 0 {
      var e := Encode(ns[0]);
      HasAtSplit(buf, i, e, EncodeAll(ns[1..]));
      DecodeAtEncoded(buf, i, ns[0]);
      DecodeAllAt(buf, i + |e|, ns[1..]);
      DecodeAllStep(buf, i, ns, i + |e|, i + |EncodeAll(ns)|);
    }
  }

  lemma {:induction false} DecodeAllStep(buf: seq<byte>, i: nat, ns: seq<nat>, j: nat, k: nat)
    requires |ns| > 0 && DecodeAt(buf, i) == Ok((ns[0], j))
    requires DecodeAll(buf, j, |ns| - 1) == Ok((ns[1..], k))
    ensures DecodeAll(buf, i, |ns|) == Ok((ns, k))
  {
    assert [ns[0]] + ns[1..] == ns;
  }

  /** A successful run of reads stepped over the minimal encodings of the
      values it returns, each below 2^63. */
  lemma {:induction false} DecodeAllCanonical(buf: seq<byte>, i: nat, count: nat, ns: seq<nat>, j: nat)
    requires i <= |buf| && DecodeAll(buf, i, count) == Ok((ns, j))
    ensures j <= |buf| && buf[i..j] == EncodeAll(ns)
    ensures forall k :: 0 <= k < |ns| ==> ns[k] < Bound
    decreases count
  {
    if count > 0 {
      var first := DecodeAt(buf, i).value;
      DecodeAtCanonical(buf, i, first.0, first.1);
      var rest := DecodeAll(buf, first.1, count - 1).value;
      DecodeAllCanonical(buf, first.1, count - 1, rest.0, rest.1);
      assert ns[1..] == rest.0;
      SliceJoin(buf, i, first.1, j, Encode(ns[0]), EncodeAll(ns[1..]));
    }
  }
}
