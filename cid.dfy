/** Content identifiers as the CAR codec sees them: their binary form
    (`bytes(cid)`, used by `encode`) and the hand-written parser inside
    `decode`, which tells the two versions apart by a leading varint. */
module CidCodec {
  import opened Base
  import Varint

  /** Leading varint of a CIDv1. */
  const V1Marker: nat := 1
  /** Multicodec code of sha2-256; as a leading varint it announces a legacy CIDv0. */
  const Sha2_256: nat := 0x12
  /** Multicodec code of dag-pb, the implicit content codec of a CIDv0. */
  const DagPb: nat := 0x70
  /** Digest length of sha2-256, the only hash a CIDv0 may use. */
  const V0DigestSize: nat := 32

  /** A CIDv0 carries only its digest (dag-pb and sha2-256 are implicit);
      a CIDv1 carries its content codec and hash function as numeric codes. */
  datatype Cid =
    | CidV0(digest: seq<byte>)
    | CidV1(codec: nat, hash: nat, digest: seq<byte>)
  {
    function Version(): nat { if CidV0? then 0 else 1 }
    function CodecCode(): nat { if CidV0? then DagPb else codec }
    function HashCode(): nat { if CidV0? then Sha2_256 else hash }
  }

  /** What a CID object of the multiformats library always satisfies: a
      CIDv0 holds a 32-byte sha2-256 digest; every code and the digest length
      of a CIDv1 fit a varint. */
  predicate WellFormed(c: Cid)
  {
    match c
    case CidV0(d) => |d| == V0DigestSize
    case CidV1(codec, hash, d) => codec < Varint.Bound && hash < Varint.Bound && |d| < Varint.Bound
  }

  /** The varints in front of the digest in `bytes(cid)`. A CIDv0 is its
      bare multihash: hash code, digest length. A CIDv1 is the version
      marker and the content codec followed by the multihash. */
  function Fields(c: Cid): seq<nat>
  {
    match c
    case CidV0(d) => [Sha2_256, |d|]
    case CidV1(codec, hash, d) => [V1Marker, codec, hash, |d|]
  }

  /** `bytes(cid)`: the fields, then the digest. */
  function ToBytes(c: Cid): seq<byte>
  {
    Varint.EncodeAll(Fields(c)) + c.digest
  }

  /** Which CIDv0 branch a CID parse runs: the one `decode` has, or the
      corrected one. The record loop of `decode` is stated for both, so
      that the round trip can be proved of each. */
  datatype CidParser = AsWritten | Corrected

  /** The CID parser of `decode`, started at `buf[i]`: the CID read and the
      cursor after it. The leading varint is the version marker 1 of a
      CIDv1, then come the content codec, hash code and digest length
      varints and the digest; or it is the sha2-256 code that starts the
      multihash of a CIDv0. As written, the parser then takes the next 32
      bytes as the digest; the corrected parser reads the digest length
      varint first, as a multihash lays it out. Digests are sliced
      Python-style, so a buffer that ends early yields a short digest
      rather than an error. */
  function ReadCid(p: CidParser, buf: seq<byte>, i: nat): Result<(Cid, nat), Error>
  {
    var marker :- Varint.DecodeAt(buf, i);
    var index := marker.1;
    if marker.0 == V1Marker then
      var fields :- Varint.DecodeAll(buf, index, 3);
      var (codec, hash, size, at) := (fields.0[0], fields.0[1], fields.0[2], fields.1);
      Ok((CidV1(codec, hash, PySlice(buf, at, at + size)), at + size))
    else if marker.0 == Sha2_256 then
      if p.AsWritten? then
        Ok((CidV0(PySlice(buf, index, index + V0DigestSize)), index + V0DigestSize))
      else
        var fields :- Varint.DecodeAll(buf, index, 1);
        var (size, at) := (fields.0[0], fields.1);
        Ok((CidV0(PySlice(buf, at, at + size)), at + size))
    else
      Err(InvalidCidVersion)
  }

  /** A leading varint other than 1 and 0x12 makes both parsers raise
      "invalid CID version", whatever follows it. */
  lemma ReadCidRejects(p: CidParser, buf: seq<byte>, i: nat)
    requires Varint.DecodeAt(buf, i).Ok?
    ensures var m := Varint.DecodeAt(buf, i).value.0;
      ReadCid(p, buf, i) == Err(InvalidCidVersion) <==> m != V1Marker && m != Sha2_256
  {
    Varint.DecodeAllErrors(buf, Varint.DecodeAt(buf, i).value.1, 3);
    Varint.DecodeAllErrors(buf, Varint.DecodeAt(buf, i).value.1, 1);
  }

  /** Where the bytes of a CID lie, its leading varint `m` lies, then the
      other fields `rest` from `j` on, then its digest from `at` on. */
  lemma CidPartsAt(buf: seq<byte>, i: nat, c: Cid) returns (m: nat, rest: seq<nat>, j: nat, at: nat)
    requires HasAt(buf, i, ToBytes(c))
    ensures Fields(c) == [m] + rest
    ensures j == i + |Varint.Encode(m)| && at == j + |Varint.EncodeAll(rest)|
    ensures HasAt(buf, i, Varint.Encode(m)) && HasAt(buf, j, Varint.EncodeAll(rest))
    ensures HasAt(buf, at, c.digest) && at + |c.digest| == i + |ToBytes(c)|
  {
    var fs := Fields(c);
    m, rest := fs[0], fs[1..];
    assert fs == [m] + rest;
    j := i + |Varint.Encode(m)|;
    at := j + |Varint.EncodeAll(rest)|;
    assert Varint.EncodeAll(fs) == Varint.Encode(m) + Varint.EncodeAll(rest);
    HasAtSplit(buf, i, Varint.EncodeAll(fs), c.digest);
    HasAtSplit(buf, i, Varint.Encode(m), Varint.EncodeAll(rest));
  }

  /** Both parsers read every well-formed CIDv1 back from its bytes,
      wherever they lie in a buffer, and stop right after them; the
      corrected parser does the same for every well-formed CIDv0. */
  lemma ReadCidAt(p: CidParser, buf: seq<byte>, i: nat, c: Cid)
    requires WellFormed(c) && (p.Corrected? || c.CidV1?) && HasAt(buf, i, ToBytes(c))
    ensures ReadCid(p, buf, i) == Ok((c, i + |ToBytes(c)|))
  {
    var m, rest, j, at := CidPartsAt(buf, i, c);
    ReadCidFields(p, buf, i, c, m, rest, j, at, i + |ToBytes(c)|);
  }

  /** Every field of a well-formed CID fits a varint. */
  lemma FieldsBound(c: Cid, m: nat, rest: seq<nat>)
    requires WellFormed(c) && Fields(c) == [m] + rest
    ensures m < Varint.Bound && forall k :: 0 <= k < |rest| ==> rest[k] < Varint.Bound
  {
    var fs := Fields(c);
    assert fs[0] == m && fs[1..] == rest;
    assert forall k :: 0 <= k < |fs| ==> fs[k] < Varint.Bound;
  }

  lemma ReadCidFields(p: CidParser, buf: seq<byte>, i: nat, c: Cid, m: nat, rest: seq<nat>, j: nat, at: nat, end: nat)
    requires WellFormed(c) && (p.Corrected? || c.CidV1?) && Fields(c) == [m] + rest
    requires HasAt(buf, i, Varint.Encode(m)) && HasAt(buf, j, Varint.EncodeAll(rest)) && HasAt(buf, at, c.digest)
    requires j == i + |Varint.Encode(m)| && at == j + |Varint.EncodeAll(rest)| && end == at + |c.digest|
    ensures ReadCid(p, buf, i) == Ok((c, end))
  {
    FieldsBound(c, m, rest);
    Varint.DecodeAtEncoded(buf, i, m);
    Varint.DecodeAllAt(buf, j, rest);
    PySliceAt(buf, at, c.digest, end);
    ReadCidFrom(p, buf, i, c, m, rest, j, at, end);
  }

  lemma {:induction false} ReadCidFrom(p: CidParser, buf: seq<byte>, i: nat, c: Cid, m: nat, rest: seq<nat>, j: nat, at: nat, end: nat)
    requires p.Corrected? || c.CidV1?
    requires Fields(c) == [m] + rest
    requires Varint.DecodeAt(buf, i) == Ok((m, j))
    requires Varint.DecodeAll(buf, j, |rest|) == Ok((rest, at))
    requires end == at + |c.digest| && PySlice(buf, at, end) == c.digest
    ensures ReadCid(p, buf, i) == Ok((c, end))
  {
    assert m == Fields(c)[0] && rest == Fields(c)[1..];
    if c.CidV1? {
      assert m == V1Marker && rest == [c.codec, c.hash, |c.digest|];
    } else {
      assert m == Sha2_256 && rest == [|c.digest|];
    }
  }

  /** The bytes of a well-formed CIDv0: `0x12 0x20`, then the digest. */
  lemma V0Bytes(c: Cid)
    requires c.CidV0? && WellFormed(c)
    ensures ToBytes(c) == [Sha2_256, V0DigestSize] + c.digest
  {
    var fs := Fields(c);
    assert fs[1..] == [V0DigestSize] && fs[1..][1..] == [];
    assert Varint.EncodeAll(fs[1..]) == [V0DigestSize];
  }

  /** Wherever the bytes `0x12 0x20 d` of a well-formed CIDv0 lie in a
      buffer, the parser as written returns a CIDv0 whose digest is the
      length byte 0x20 followed by the first 31 bytes of `d`, and stops one
      byte short of the end of the CID, leaving the last digest byte for
      whatever the caller reads next. */
  lemma ReadCidAtV0(buf: seq<byte>, i: nat, c: Cid)
    requires c.CidV0? && WellFormed(c) && HasAt(buf, i, ToBytes(c))
    ensures ReadCid(AsWritten, buf, i) ==
      Ok((CidV0([V0DigestSize] + c.digest[..V0DigestSize - 1]), i + |ToBytes(c)| - 1))
    ensures ReadCid(AsWritten, buf, i) != Ok((c, i + |ToBytes(c)|))
  {
    V0Bytes(c);
    var read: seq<byte> := [V0DigestSize] + c.digest[..V0DigestSize - 1];
    var marker: seq<byte>, last: seq<byte> := [Sha2_256], [c.digest[V0DigestSize - 1]];
    assert ToBytes(c) == marker + (read + last);
    HasAtSplit(buf, i, marker, read + last);
    HasAtSplit(buf, i + 1, read, last);
    Varint.DecodeAtEncoded(buf, i, Sha2_256);
    PySliceAt(buf, i + 1, read, i + 1 + V0DigestSize);
    ReadCidV0From(buf, i, read);
  }

  lemma {:induction false} ReadCidV0From(buf: seq<byte>, i: nat, read: seq<byte>)
    requires Varint.DecodeAt(buf, i) == Ok((Sha2_256, i + 1))
    requires PySlice(buf, i + 1, i + 1 + V0DigestSize) == read
    ensures ReadCid(AsWritten, buf, i) == Ok((CidV0(read), i + 1 + V0DigestSize))
  {
  }

  /** A concrete witness: the CIDv0 of an all-zero digest. */
  lemma ReadCidV0Counterexample()
    ensures var c := CidV0(seq(V0DigestSize, _ => 0));
      ToBytes(c) == [0x12, 0x20] + c.digest &&
      ReadCid(AsWritten, ToBytes(c), 0) == Ok((CidV0([0x20] + seq(V0DigestSize - 1, _ => 0)), 33))
  {
    var c := CidV0(seq(V0DigestSize, _ => 0));
    V0Bytes(c);
    HasAtWhole(ToBytes(c));
    ReadCidAtV0(ToBytes(c), 0, c);
    assert c.digest[..V0DigestSize - 1] == seq(V0DigestSize - 1, _ => 0);
  }

  /** Whatever the corrected parser accepts inside the buffer is the byte
      form of the CID it returns: a CIDv1 that is well formed, or a CIDv0
      whose digest length fits a varint. */
  lemma ReadCidCanonical(buf: seq<byte>, i: nat, c: Cid, k: nat)
    requires ReadCid(Corrected, buf, i) == Ok((c, k)) && k <= |buf|
    ensures i < k && buf[i..k] == ToBytes(c)
    ensures c.CidV1? ==> WellFormed(c)
    ensures c.CidV0? ==> |c.digest| < Varint.Bound
  {
    var m, fs, at := ReadCidParts(buf, i, c, k);
    Varint.DecodeAtCanonical(buf, i, m, Varint.DecodeAt(buf, i).value.1);
    Varint.DecodeAllCanonical(buf, Varint.DecodeAt(buf, i).value.1, |fs|, fs, at);
    CanonicalJoin(buf, i, Varint.DecodeAt(buf, i).value.1, at, k, c, m, fs);
  }

  /** What a successful corrected parse consists of: the leading varint,
      the other fields, and the digest sliced after them. */
  lemma {:induction false} ReadCidParts(buf: seq<byte>, i: nat, c: Cid, k: nat) returns (m: nat, fs: seq<nat>, at: nat)
    requires ReadCid(Corrected, buf, i) == Ok((c, k)) && k <= |buf|
    ensures Varint.DecodeAt(buf, i).Ok? && Varint.DecodeAt(buf, i).value.0 == m
    ensures Varint.DecodeAll(buf, Varint.DecodeAt(buf, i).value.1, |fs|) == Ok((fs, at))
    ensures Fields(c) == [m] + fs && at <= k && c.digest == buf[at..k]
  {
    var marker := Varint.DecodeAt(buf, i).value;
    var count := if marker.0 == V1Marker then 3 else 1;
    var fields := Varint.DecodeAll(buf, marker.1, count).value;
    m, fs, at := marker.0, fields.0, fields.1;
    if m == V1Marker {
      assert c == CidV1(fs[0], fs[1], PySlice(buf, at, at + fs[2])) && k == at + fs[2];
    } else {
      assert c == CidV0(PySlice(buf, at, at + fs[0])) && k == at + fs[0];
    }
    PySliceInside(buf, at, k);
  }

  lemma CanonicalJoin(buf: seq<byte>, i: nat, j: nat, at: nat, k: nat, c: Cid, m: nat, rest: seq<nat>)
    requires i <= j <= at <= k <= |buf| && Fields(c) == [m] + rest
    requires buf[i..j] == Varint.Encode(m) && buf[j..at] == Varint.EncodeAll(rest)
    requires buf[at..k] == c.digest
    ensures buf[i..k] == ToBytes(c)
  {
    assert Fields(c)[1..] == rest;
    SliceJoin(buf, i, j, at, Varint.Encode(m), Varint.EncodeAll(rest));
    SliceJoin(buf, i, at, k, Varint.EncodeAll(Fields(c)), c.digest);
  }
}
