/** The CAR v1 codec of `ipld_car`: `encode` writes a length-prefixed
    DAG-CBOR header followed by one length-prefixed record (CID bytes, then
    block bytes) per block; `decode` reads the header, checks it, and reads
    records until the buffer ends. */
module IpldCar {
  import opened Base
  import Varint
  import opened CidCodec
  import opened CarHeader

  /** An IPLD block: its CID and its bytes. */
  datatype Block = Block(cid: Cid, data: seq<byte>)

  /** The `block_len` of a record: CID bytes plus block bytes. */
  function RecordLength(b: Block): nat
  {
    |ToBytes(b.cid)| + |b.data|
  }

  /** The record `encode` appends for a block. */
  function Record(b: Block): seq<byte>
  {
    Varint.Encode(RecordLength(b)) + (ToBytes(b.cid) + b.data)
  }

  /** The records of a list of blocks, in order. */
  function Records(blocks: seq<Block>): seq<byte>
  {
    if |blocks| == 0 then [] else Record(blocks[0]) + Records(blocks[1..])
  }

  /** The record of a block of which only the first `k` bytes are there. */
  function CutRecord(b: Block, k: nat): seq<byte>
    requires k <= |b.data|
  {
    Varint.Encode(RecordLength(b)) + (ToBytes(b.cid) + b.data[..k])
  }

  /** What a block must satisfy for its record to read back: a well-formed
      CID and a length that `varint.encode` accepts. */
  predicate Encodable(b: Block)
  {
    WellFormed(b.cid) && RecordLength(b) < Varint.Bound
  }

  // ---------------------------------------------------------------- encode

  /** The block loop of `encode`, from block `k` on, appending to `buffer`:
      a record whose length does not fit a varint makes `varint.encode`
      raise. */
  function AppendRecords(buffer: seq<byte>, blocks: seq<Block>, k: nat): Result<seq<byte>, Error>
    requires k <= |blocks|
    decreases |blocks| - k
  {
    if k == |blocks| then Ok(buffer)
    else if RecordLength(blocks[k]) >= Varint.Bound then Err(VarintTooLarge)
    else AppendRecords(buffer + Record(blocks[k]), blocks, k + 1)
  }

  /** What `encode(roots, blocks)` returns or raises. */
  function EncodeSpec(codec: HeaderCodec, roots: seq<Cid>, blocks: seq<Block>): Result<seq<byte>, Error>
  {
    var headerBytes := codec.encode(HeaderValue(roots));
    if |headerBytes| >= Varint.Bound then Err(VarintTooLarge)
    else AppendRecords(Varint.Encode(|headerBytes|) + headerBytes, blocks, 0)
  }

  /** `encode`: the header, then a record per block, appended to one buffer. */
  method Encode(codec: HeaderCodec, roots: seq<Cid>, blocks: seq<Block>) returns (r: Result<seq<byte>, Error>)
    ensures r == EncodeSpec(codec, roots, blocks)
  {
    var buffer: seq<byte> := [];
    var headerBytes := codec.encode(HeaderValue(roots));
    if |headerBytes| >= Varint.Bound {
      return Err(VarintTooLarge);
    }
    var headerLen := Varint.Encode(|headerBytes|);
    buffer := buffer + headerLen;
    buffer := buffer + headerBytes;
    assert buffer == headerLen + headerBytes;
    for k := 0 to |blocks|
      invariant AppendRecords(buffer, blocks, k) == EncodeSpec(codec, roots, blocks)
    {
      var b := blocks[k];
      var cidBytes := ToBytes(b.cid);
      var blockBytes := b.data;
      if |cidBytes| + |blockBytes| >= Varint.Bound {
        return Err(VarintTooLarge);
      }
      var blockLen := Varint.Encode(|cidBytes| + |blockBytes|);
      AppendRecordStep(buffer, blocks, k);
      buffer := buffer + blockLen;
      buffer := buffer + cidBytes;
      buffer := buffer + blockBytes;
    }
    return Ok(buffer);
  }

  /** Appending a record field by field, as `encode` does, is appending the
      record. */
  lemma AppendRecordStep(buffer: seq<byte>, blocks: seq<Block>, k: nat)
    requires k < |blocks| && RecordLength(blocks[k]) < Varint.Bound
    ensures var b := blocks[k];
      AppendRecords(((buffer + Varint.Encode(RecordLength(b))) + ToBytes(b.cid)) + b.data, blocks, k + 1)
      == AppendRecords(buffer, blocks, k)
  {
    var b := blocks[k];
    assert ((buffer + Varint.Encode(RecordLength(b))) + ToBytes(b.cid)) + b.data == buffer + Record(b);
  }

  // ---------------------------------------------------------------- decode

  /** One iteration of the record loop of `decode`, at `buf[i]`: the block
      length varint, the CID, and the block bytes up to the end the length
      announces (fewer if the buffer ends first). The cursor moves to that
      end, so it always moves forward. */
  function ReadRecord(p: CidParser, buf: seq<byte>, i: nat): (r: Result<(Block, nat), Error>)
    ensures r.Ok? ==> i < r.value.1
  {
    var blockLen :- Varint.DecodeAt(buf, i);
    var cidStart := blockLen.1;
    var cid :- ReadCid(p, buf, cidStart);
    var stop := cidStart + blockLen.0;
    Ok((Block(cid.0, PySlice(buf, cid.1, stop)), stop))
  }

  /** The record loop of `decode` from `buf[i]` on, with the blocks read so
      far in `acc`: it ends when the cursor reaches the end of the buffer. */
  function RecordsFrom(p: CidParser, buf: seq<byte>, i: nat, acc: seq<Block>): Result<seq<Block>, Error>
    decreases if i <= |buf| then |buf| - i else 0
  {
    if i >= |buf| then Ok(acc)
    else
      var rec :- ReadRecord(p, buf, i);
      RecordsFrom(p, buf, rec.1, acc + [rec.0])
  }

  /** The header part of `decode`: the header length varint, the DAG-CBOR
      header, its checks; the roots and the cursor after the header. */
  function DecodeHeader(codec: HeaderCodec, buf: seq<byte>): Result<(seq<Cid>, nat), Error>
  {
    var headerLen :- Varint.DecodeAt(buf, 0);
    var n := headerLen.1;
    var decoded := codec.decode(PySlice(buf, n, n + headerLen.0));
    if decoded.None? then Err(HeaderUndecodable)
    else
      var roots :- ValidateHeader(decoded.value);
      Ok((roots, n + headerLen.0))
  }

  /** What `decode(buffer)` returns or raises, with the CID parser `p`; the
      source runs `AsWritten`. */
  function DecodeSpec(codec: HeaderCodec, buf: seq<byte>, p: CidParser): Result<(seq<Cid>, seq<Block>), Error>
  {
    var header :- DecodeHeader(codec, buf);
    var blocks :- RecordsFrom(p, buf, header.1, []);
    Ok((header.0, blocks))
  }

  /** `decode`: the header and its checks, then the record loop. */
  method Decode(codec: HeaderCodec, buffer: seq<byte>) returns (r: Result<(seq<Cid>, seq<Block>), Error>)
    ensures r == DecodeSpec(codec, buffer, AsWritten)
  {
    var header := ReadHeader(codec, buffer);
    if header.Err? {
      return Err(header.error);
    }
    var blocks := ReadRecords(buffer, header.value.1);
    if blocks.Err? {
      return Err(blocks.error);
    }
    return Ok((header.value.0, blocks.value));
  }

  /** The header part of `decode`, with its loop over the roots. */
  method ReadHeader(codec: HeaderCodec, buffer: seq<byte>) returns (r: Result<(seq<Cid>, nat), Error>)
    ensures r == DecodeHeader(codec, buffer)
  {
    var headerLen := Varint.DecodeAt(buffer, 0);
    if headerLen.Err? {
      return Err(headerLen.error);
    }
    var n := headerLen.value.1;
    var decoded := codec.decode(PySlice(buffer, n, n + headerLen.value.0));
    if decoded.None? {
      return Err(HeaderUndecodable);
    }
    var header := decoded.value;
    if !header.Map? {
      return Err(HeaderNotMap);
    }
    if !PyEqualsOne(PyGet(header.entries, "version")) {
      return Err(UnsupportedCarVersion);
    }
    var rawRoots := PyGet(header.entries, "roots");
    if !rawRoots.List? {
      return Err(RootsNotList);
    }
    var roots: seq<Cid> := [];
    for k := 0 to |rawRoots.items|
      invariant RootsFrom(rawRoots.items, k, roots) == ValidateHeader(header)
    {
      var item := rawRoots.items[k];
      if !item.Link? {
        return Err(RootNotCid);
      }
      roots := roots + [item.cid];
    }
    return Ok((roots, n + headerLen.value.0));
  }

  /** The record loop of `decode`, from `start` until the cursor reaches the
      end of the buffer. */
  method ReadRecords(buffer: seq<byte>, start: nat) returns (r: Result<seq<Block>, Error>)
    ensures r == RecordsFrom(AsWritten, buffer, start, [])
  {
    var blocks: seq<Block> := [];
    var index := start;
    while index < |buffer|
      invariant RecordsFrom(AsWritten, buffer, index, blocks) == RecordsFrom(AsWritten, buffer, start, [])
      decreases |buffer| - index
    {
      var record := ReadRecordAt(buffer, index);
      if record.Err? {
        return Err(record.error);
      }
      blocks := blocks + [record.value.0];
      index := record.value.1;
    }
    return Ok(blocks);
  }

  /** One pass of the record loop of `decode`: block length, CID, block bytes. */
  method ReadRecordAt(buffer: seq<byte>, start: nat) returns (r: Result<(Block, nat), Error>)
    ensures r == ReadRecord(AsWritten, buffer, start)
  {
    var blockLen := Varint.DecodeAt(buffer, start);
    if blockLen.Err? {
      return Err(blockLen.error);
    }
    var index := blockLen.value.1;
    var cidStart := index;
    var cid := ParseCidAt(buffer, index);
    if cid.Err? {
      return Err(cid.error);
    }
    index := cid.value.1;
    var bytesLen: int := blockLen.value.0 - (index - cidStart);
    var data := PySlice(buffer, index, index + bytesLen);
    index := index + bytesLen;
    return Ok((Block(cid.value.0, data), index));
  }

  /** The CID parse inside the record loop of `decode`, field by field. */
  method ParseCidAt(buffer: seq<byte>, start: nat) returns (r: Result<(Cid, nat), Error>)
    ensures r == ReadCid(AsWritten, buffer, start)
  {
    var version := Varint.DecodeAt(buffer, start);
    if version.Err? {
      return Err(version.error);
    }
    var index := version.value.1;
    if version.value.0 == V1Marker {
      var codecCode := Varint.DecodeAt(buffer, index);
      if codecCode.Err? {
        return Err(codecCode.error);
      }
      index := codecCode.value.1;
      var hashCode := Varint.DecodeAt(buffer, index);
      if hashCode.Err? {
        return Err(hashCode.error);
      }
      index := hashCode.value.1;
      var digestSize := Varint.DecodeAt(buffer, index);
      if digestSize.Err? {
        return Err(digestSize.error);
      }
      index := digestSize.value.1;
      var digest := PySlice(buffer, index, index + digestSize.value.0);
      index := index + digestSize.value.0;
      return Ok((CidV1(codecCode.value.0, hashCode.value.0, digest), index));
    } else if version.value.0 == Sha2_256 {
      var digest := PySlice(buffer, index, index + V0DigestSize);
      index := index + V0DigestSize;
      return Ok((CidV0(digest), index));
    } else {
      return Err(InvalidCidVersion);
    }
  }

  // ----------------------------------------------------------- the records

  /** The records of `blocks` followed by the record of `b`. */
  lemma {:induction false} RecordsAppend(blocks: seq<Block>, b: Block)
    ensures Records(blocks + [b]) == Records(blocks) + Record(b)
    decreases |blocks|
  {
    if |blocks| == 0 {
      assert blocks + [b] == [b];
    } else {
      assert (blocks + [b])[1..] == blocks[1..] + [b];
      RecordsAppend(blocks[1..], b);
      AppendAssoc(Record(blocks[0]), Records(blocks[1..]), Record(b));
    }
  }

  // ------------------------------------------------------------ round trip

  /** What the record loop gives back for the record of `b`. The corrected
      parser gives back `b`. The parser as written takes the digest length
      byte 0x20 of a CIDv0 multihash as the first digest byte; the last
      digest byte then lies after the 32 bytes it reads, so the block bytes
      it slices start with that byte. CIDv1 blocks come back unchanged. */
  function ReadBack(p: CidParser, b: Block): Block
  {
    if p.AsWritten? && b.cid.CidV0? && |b.cid.digest| == V0DigestSize then
      Block(CidV0([V0DigestSize] + b.cid.digest[..V0DigestSize - 1]), [b.cid.digest[V0DigestSize - 1]] + b.data)
    else b
  }

  /** What the record loop gives back for each block, in order. */
  function ReadBacks(p: CidParser, blocks: seq<Block>): (r: seq<Block>)
    ensures |r| == |blocks|
  {
    if |blocks| == 0 then [] else [ReadBack(p, blocks[0])] + ReadBacks(p, blocks[1..])
  }

  /** Every block reads back as itself, under the corrected parser, or
      under the parser as written when no CID is a CIDv0. */
  lemma {:induction false} ReadBacksUnchanged(p: CidParser, blocks: seq<Block>)
    requires forall j :: 0 <= j < |blocks| ==> p.Corrected? || blocks[j].cid.CidV1?
    ensures ReadBacks(p, blocks) == blocks
    decreases |blocks|
  {
    if |blocks| > 0 {
      ReadBacksUnchanged(p, blocks[1..]);
    }
  }

  /** The block loop of `encode` raises exactly when some record length does
      not fit a varint; otherwise it appends the records in order. */
  lemma {:induction false} AppendRecordsOk(buffer: seq<byte>, blocks: seq<Block>, k: nat)
    requires k <= |blocks|
    ensures AppendRecords(buffer, blocks, k).Ok? <==>
      forall j :: k <= j < |blocks| ==> RecordLength(blocks[j]) < Varint.Bound
    ensures AppendRecords(buffer, blocks, k).Ok? ==>
      AppendRecords(buffer, blocks, k).value == buffer + Records(blocks[k..])
    decreases |blocks| - k
  {
    if k == |blocks| {
      assert buffer + Records(blocks[k..]) == buffer;
    } else if RecordLength(blocks[k]) < Varint.Bound {
      AppendRecordsOk(buffer + Record(blocks[k]), blocks, k + 1);
      assert blocks[k..][1..] == blocks[k + 1..];
      AppendAssoc(buffer, Record(blocks[k]), Records(blocks[k + 1..]));
    }
  }

  /** `encode` raises exactly when the header or some record is too long
      for a varint length, and otherwise returns the header length, the
      header and the records of all blocks, in order. */
  lemma EncodeSpecOk(codec: HeaderCodec, roots: seq<Cid>, blocks: seq<Block>)
    ensures var h := codec.encode(HeaderValue(roots));
      EncodeSpec(codec, roots, blocks).Ok? <==>
        |h| < Varint.Bound && forall j :: 0 <= j < |blocks| ==> RecordLength(blocks[j]) < Varint.Bound
    ensures var h := codec.encode(HeaderValue(roots));
      EncodeSpec(codec, roots, blocks).Ok? ==>
        EncodeSpec(codec, roots, blocks).value == Varint.Encode(|h|) + (h + Records(blocks))
  {
    var h := codec.encode(HeaderValue(roots));
    if |h| < Varint.Bound {
      AppendRecordsOk(Varint.Encode(|h|) + h, blocks, 0);
      assert blocks[0..] == blocks;
      AppendAssoc(Varint.Encode(|h|), h, Records(blocks));
    }
  }

  lemma {:induction false} ReadRecordFrom(p: CidParser, buf: seq<byte>, i: nat, len: nat, j: nat, b: Block, k: nat, end: nat)
    requires Varint.DecodeAt(buf, i) == Ok((len, j))
    requires ReadCid(p, buf, j) == Ok((b.cid, k))
    requires end == j + len && PySlice(buf, k, end) == b.data
    ensures ReadRecord(p, buf, i) == Ok((b, end))
  {
  }

  /** Where the record of `b` lies, its length varint reads back as the
      record length, and its CID bytes and block bytes follow. */
  lemma RecordPartsAt(buf: seq<byte>, i: nat, b: Block)
    requires Encodable(b) && HasAt(buf, i, Record(b))
    ensures var j := i + |Varint.Encode(RecordLength(b))|;
      Varint.DecodeAt(buf, i) == Ok((RecordLength(b), j)) &&
      HasAt(buf, j, ToBytes(b.cid)) && HasAt(buf, j + |ToBytes(b.cid)|, b.data) &&
      i + |Record(b)| == j + RecordLength(b)
  {
    var e := Varint.Encode(RecordLength(b));
    HasAtSplit(buf, i, e, ToBytes(b.cid) + b.data);
    HasAtSplit(buf, i + |e|, ToBytes(b.cid), b.data);
    Varint.DecodeAtEncoded(buf, i, RecordLength(b));
  }

  /** The same for a record of which only `k` block bytes are there. */
  lemma CutRecordPartsAt(buf: seq<byte>, i: nat, b: Block, k: nat)
    requires Encodable(b) && k <= |b.data| && HasAt(buf, i, CutRecord(b, k))
    ensures var j := i + |Varint.Encode(RecordLength(b))|;
      Varint.DecodeAt(buf, i) == Ok((RecordLength(b), j)) &&
      HasAt(buf, j, ToBytes(b.cid)) && HasAt(buf, j + |ToBytes(b.cid)|, b.data[..k]) &&
      i + |CutRecord(b, k)| == j + |ToBytes(b.cid)| + k && i + |Record(b)| == j + RecordLength(b)
  {
    var e := Varint.Encode(RecordLength(b));
    HasAtSplit(buf, i, e, ToBytes(b.cid) + b.data[..k]);
    HasAtSplit(buf, i + |e|, ToBytes(b.cid), b.data[..k]);
    Varint.DecodeAtEncoded(buf, i, RecordLength(b));
  }

  /** What the parser as written leaves of a CIDv0 record, its last digest
      byte and the block bytes, lies right after the 32 bytes it reads. */
  lemma V0TailAt(buf: seq<byte>, j: nat, c: Cid, data: seq<byte>)
    requires c.CidV0? && WellFormed(c)
    requires HasAt(buf, j, ToBytes(c)) && HasAt(buf, j + |ToBytes(c)|, data)
    ensures |ToBytes(c)| == 2 + V0DigestSize
    ensures HasAt(buf, j + 1 + V0DigestSize, [c.digest[V0DigestSize - 1]] + data)
  {
    V0Bytes(c);
    var t := ToBytes(c);
    assert t == t[..|t| - 1] + [c.digest[V0DigestSize - 1]];
    HasAtSplit(buf, j, t[..|t| - 1], [c.digest[V0DigestSize - 1]]);
    HasAtJoin(buf, j + |t| - 1, [c.digest[V0DigestSize - 1]], data);
  }

  /** A record whose CID the parser reads back whole reads back as that CID
      and the block bytes that are there, and the cursor moves to where the
      length varint says the record ends. */
  lemma {:induction false} ReadRecordKept(p: CidParser, buf: seq<byte>, i: nat, j: nat, len: nat, b: Block, end: nat)
    requires WellFormed(b.cid) && (p.Corrected? || b.cid.CidV1?)
    requires Varint.DecodeAt(buf, i) == Ok((len, j))
    requires HasAt(buf, j, ToBytes(b.cid)) && SliceGives(buf, j + |ToBytes(b.cid)|, j + len, b.data)
    requires end == j + len
    ensures ReadRecord(p, buf, i) == Ok((b, end))
  {
    var k := j + |ToBytes(b.cid)|;
    ReadCidAt(p, buf, j, b.cid);
    PySliceGives(buf, k, end, b.data);
    ReadRecordFrom(p, buf, i, len, j, b, k, end);
  }

  /** A CIDv0 record under the parser as written: the CID comes back
      shifted and the block bytes gain the last digest byte. */
  lemma {:induction false} ReadRecordV0(buf: seq<byte>, i: nat, j: nat, len: nat, b: Block, end: nat)
    requires WellFormed(b.cid) && b.cid.CidV0?
    requires Varint.DecodeAt(buf, i) == Ok((len, j))
    requires HasAt(buf, j, ToBytes(b.cid)) && SliceGives(buf, j + |ToBytes(b.cid)|, j + len, b.data)
    requires end == j + len
    ensures ReadRecord(AsWritten, buf, i) == Ok((ReadBack(AsWritten, b), end))
  {
    var r := ReadBack(AsWritten, b);
    var k := j + 1 + V0DigestSize;
    ReadCidAtV0(buf, j, b.cid);
    V0TailAt(buf, j, b.cid, b.data);
    PySliceGives(buf, k, end, r.data);
    ReadRecordFrom(AsWritten, buf, i, len, j, r, k, end);
  }

  /** A record lying at `i`, whole or cut short by the end of the buffer,
      reads back as `ReadBack` says. */
  lemma ReadRecordLying(p: CidParser, buf: seq<byte>, i: nat, j: nat, len: nat, b: Block, end: nat)
    requires WellFormed(b.cid)
    requires Varint.DecodeAt(buf, i) == Ok((len, j))
    requires HasAt(buf, j, ToBytes(b.cid)) && SliceGives(buf, j + |ToBytes(b.cid)|, j + len, b.data)
    requires end == j + len
    ensures ReadRecord(p, buf, i) == Ok((ReadBack(p, b), end))
  {
    if p.Corrected? || b.cid.CidV1? {
      ReadRecordKept(p, buf, i, j, len, b, end);
    } else {
      ReadRecordV0(buf, i, j, len, b, end);
    }
  }

  /** The record of a block reads back, wherever it lies in a buffer, as
      `ReadBack` says, and the cursor moves right past it. */
  lemma ReadRecordAtRecord(p: CidParser, buf: seq<byte>, i: nat, b: Block)
    requires Encodable(b) && HasAt(buf, i, Record(b))
    ensures i < |buf| && ReadRecord(p, buf, i) == Ok((ReadBack(p, b), i + |Record(b)|))
  {
    RecordPartsAt(buf, i, b);
    ReadRecordLying(p, buf, i, i + |Varint.Encode(RecordLength(b))|, RecordLength(b), b, i + |Record(b)|);
  }

  /** A record at the end of the buffer whose block bytes are cut short
      reads back as the block with the bytes that are there; no error is
      raised, and the cursor moves to where the record should have ended,
      past the end of the buffer. */
  lemma ReadRecordCut(p: CidParser, buf: seq<byte>, i: nat, b: Block, k: nat, end: nat)
    requires Encodable(b) && k <= |b.data|
    requires HasAt(buf, i, CutRecord(b, k)) && i + |CutRecord(b, k)| == |buf|
    requires end == i + |Record(b)|
    ensures i < |buf|
    ensures ReadRecord(p, buf, i) == Ok((ReadBack(p, Block(b.cid, b.data[..k])), end))
  {
    CutRecordPartsAt(buf, i, b, k);
    var cut := Block(b.cid, b.data[..k]);
    ReadRecordLying(p, buf, i, i + |Varint.Encode(RecordLength(b))|, RecordLength(b), cut, end);
  }

  /** Whatever record the loop reads, the cursor moves past the block
      length varint and then exactly as many bytes as that varint says,
      however many of them the CID took. */
  lemma ReadRecordCursor(p: CidParser, buf: seq<byte>, i: nat)
    ensures ReadRecord(p, buf, i).Ok? ==>
      var len := Varint.DecodeAt(buf, i).value;
      buf[i..len.1] == Varint.Encode(len.0) && ReadRecord(p, buf, i).value.1 == i + |Varint.Encode(len.0)| + len.0
  {
    if ReadRecord(p, buf, i).Ok? {
      var len := Varint.DecodeAt(buf, i).value;
      Varint.DecodeAtCanonical(buf, i, len.0, len.1);
    }
  }

  lemma {:induction false} RecordsFromStep(p: CidParser, buf: seq<byte>, i: nat, acc: seq<Block>, b: Block, j: nat)
    requires i < |buf| && ReadRecord(p, buf, i) == Ok((b, j))
    ensures RecordsFrom(p, buf, i, acc) == RecordsFrom(p, buf, j, acc + [b])
  {
  }

  lemma RecordsFromRecord(p: CidParser, buf: seq<byte>, i: nat, acc: seq<Block>, b: Block, j: nat)
    requires Encodable(b) && HasAt(buf, i, Record(b)) && j == i + |Record(b)|
    ensures RecordsFrom(p, buf, i, acc) == RecordsFrom(p, buf, j, acc + [ReadBack(p, b)])
  {
    ReadRecordAtRecord(p, buf, i, b);
    RecordsFromStep(p, buf, i, acc, ReadBack(p, b), j);
  }

  /** Where the records of several blocks lie, the first record lies, and
      the records of the others right after it. */
  lemma RecordsSplitAt(buf: seq<byte>, i: nat, blocks: seq<Block>)
    requires |blocks| > 0 && HasAt(buf, i, Records(blocks))
    ensures HasAt(buf, i, Record(blocks[0])) && HasAt(buf, i + |Record(blocks[0])|, Records(blocks[1..]))
    ensures |Records(blocks)| == |Record(blocks[0])| + |Records(blocks[1..])|
  {
    HasAtSplit(buf, i, Record(blocks[0]), Records(blocks[1..]));
  }

  lemma ReadBacksCons(p: CidParser, acc: seq<Block>, blocks: seq<Block>)
    requires |blocks| > 0
    ensures (acc + [ReadBack(p, blocks[0])]) + ReadBacks(p, blocks[1..]) == acc + ReadBacks(p, blocks)
  {
    AppendAssoc(acc, [ReadBack(p, blocks[0])], ReadBacks(p, blocks[1..]));
  }

  /** The record loop reads the records of encodable blocks back as
      `ReadBacks` says, in order, after the blocks `acc` read so far, and
      goes on right after them: `end` and `out` name that position and that
      list. */
  lemma {:induction false} RecordsFromAt(p: CidParser, buf: seq<byte>, i: nat, blocks: seq<Block>, acc: seq<Block>, end: nat, out: seq<Block>)
    requires forall j :: 0 <= j < |blocks| ==> Encodable(blocks[j])
    requires HasAt(buf, i, Records(blocks))
    requires end == i + |Records(blocks)| && out == acc + ReadBacks(p, blocks)
    ensures RecordsFrom(p, buf, i, acc) == RecordsFrom(p, buf, end, out)
    decreases |blocks|
  {
    if |blocks| == 0 {
      assert end == i && out == acc;
    } else {
      var b := blocks[0];
      var next := i + |Record(b)|;
      RecordsSplitAt(buf, i, blocks);
      RecordsFromRecord(p, buf, i, acc, b, next);
      ReadBacksCons(p, acc, blocks);
      RecordsFromAt(p, buf, next, blocks[1..], acc + [ReadBack(p, b)], end, out);
    }
  }

  lemma {:induction false} DecodeSpecFrom(codec: HeaderCodec, buf: seq<byte>, p: CidParser, roots: seq<Cid>, j: nat, blocks: seq<Block>)
    requires DecodeHeader(codec, buf) == Ok((roots, j))
    requires RecordsFrom(p, buf, j, []) == Ok(blocks)
    ensures DecodeSpec(codec, buf, p) == Ok((roots, blocks))
  {
  }

  /** The header `encode` writes reads back as its roots, whatever follows
      it, when the codec round-trips. */
  lemma {:induction false} DecodeHeaderAt(codec: HeaderCodec, buf: seq<byte>, roots: seq<Cid>, n: nat)
    requires RoundTrips(codec)
    requires var h := codec.encode(HeaderValue(roots));
      |h| < Varint.Bound && HasAt(buf, 0, Varint.Encode(|h|)) && HasAt(buf, |Varint.Encode(|h|)|, h) &&
      n == |Varint.Encode(|h|)| + |h|
    ensures DecodeHeader(codec, buf) == Ok((roots, n))
  {
    var h := codec.encode(HeaderValue(roots));
    var e := Varint.Encode(|h|);
    Varint.DecodeAtEncoded(buf, 0, |h|);
    PySliceAt(buf, |e|, h, |e| + |h|);
    assert codec.decode(h) == Some(HeaderValue(roots));
    ValidateHeaderOf(roots);
  }

  /** A buffer starting with the header `encode` writes decodes to its
      roots and to what the record loop reads after it. */
  lemma DecodeHeaderThen(codec: HeaderCodec, p: CidParser, roots: seq<Cid>, buf: seq<byte>, n: nat, blocks: seq<Block>)
    requires RoundTrips(codec)
    requires |codec.encode(HeaderValue(roots))| < Varint.Bound
    requires HasAt(buf, 0, Varint.Encode(|codec.encode(HeaderValue(roots))|))
    requires HasAt(buf, |Varint.Encode(|codec.encode(HeaderValue(roots))|)|, codec.encode(HeaderValue(roots)))
    requires n == |Varint.Encode(|codec.encode(HeaderValue(roots))|)| + |codec.encode(HeaderValue(roots))|
    requires RecordsFrom(p, buf, n, []) == Ok(blocks)
    ensures DecodeSpec(codec, buf, p) == Ok((roots, blocks))
  {
    DecodeHeaderAt(codec, buf, roots, n);
    DecodeSpecFrom(codec, buf, p, roots, n, blocks);
  }

  /** Where the parts of the output of `encode` lie: the header length
      varint, the header, then the records up to the end. */
  lemma EncodedLayout(codec: HeaderCodec, roots: seq<Cid>, blocks: seq<Block>)
    requires EncodeSpec(codec, roots, blocks).Ok?
    ensures var out, h := EncodeSpec(codec, roots, blocks).value, codec.encode(HeaderValue(roots));
      var n := |Varint.Encode(|h|)| + |h|;
      |h| < Varint.Bound && HasAt(out, 0, Varint.Encode(|h|)) && HasAt(out, |Varint.Encode(|h|)|, h) &&
      HasAt(out, n, Records(blocks)) && n + |Records(blocks)| == |out|
    ensures forall j :: 0 <= j < |blocks| ==> RecordLength(blocks[j]) < Varint.Bound
  {
    EncodeSpecOk(codec, roots, blocks);
    var h := codec.encode(HeaderValue(roots));
    var e := Varint.Encode(|h|);
    HasAtFirst(e, h + Records(blocks));
    HasAtMiddle(e, h, Records(blocks));
    AppendAssoc(e, h, Records(blocks));
    HasAtLast(e + h, Records(blocks));
  }

  /** The record loop run from the first record to the end of a buffer
      holding exactly the records of `blocks` returns `ReadBacks` of them. */
  lemma RecordsFromWhole(p: CidParser, buf: seq<byte>, i: nat, blocks: seq<Block>)
    requires forall j :: 0 <= j < |blocks| ==> Encodable(blocks[j])
    requires HasAt(buf, i, Records(blocks)) && i + |Records(blocks)| == |buf|
    ensures RecordsFrom(p, buf, i, []) == Ok(ReadBacks(p, blocks))
  {
    RecordsFromAt(p, buf, i, blocks, [], i + |Records(blocks)|, ReadBacks(p, blocks));
  }

  /** The same when the buffer ends inside the block bytes of one more
      record: that record comes last, with the bytes that are there. */
  lemma RecordsFromCut(p: CidParser, buf: seq<byte>, i: nat, blocks: seq<Block>, b: Block, k: nat)
    requires forall j :: 0 <= j < |blocks| ==> Encodable(blocks[j])
    requires Encodable(b) && k <= |b.data|
    requires HasAt(buf, i, Records(blocks)) && HasAt(buf, i + |Records(blocks)|, CutRecord(b, k))
    requires i + |Records(blocks)| + |CutRecord(b, k)| == |buf|
    ensures RecordsFrom(p, buf, i, []) == Ok(ReadBacks(p, blocks) + [ReadBack(p, Block(b.cid, b.data[..k]))])
  {
    var at, acc := i + |Records(blocks)|, ReadBacks(p, blocks);
    RecordsFromAt(p, buf, i, blocks, [], at, acc);
    RecordsFromLast(p, buf, at, acc, b, k);
  }

  /** A record cut short by the end of the buffer is the last one read. */
  lemma RecordsFromLast(p: CidParser, buf: seq<byte>, at: nat, acc: seq<Block>, b: Block, k: nat)
    requires Encodable(b) && k <= |b.data|
    requires HasAt(buf, at, CutRecord(b, k)) && at + |CutRecord(b, k)| == |buf|
    ensures RecordsFrom(p, buf, at, acc) == Ok(acc + [ReadBack(p, Block(b.cid, b.data[..k]))])
  {
    var last, end := ReadBack(p, Block(b.cid, b.data[..k])), at + |Record(b)|;
    ReadRecordCut(p, buf, at, b, k, end);
    RecordsFromStep(p, buf, at, acc, last, end);
  }

  /** Decoding what `encode` returns gives back its roots and, in order,
      what `ReadBacks` says of its blocks, when the header codec round-trips
      and every CID is well formed. */
  lemma DecodeEncoded(codec: HeaderCodec, p: CidParser, roots: seq<Cid>, blocks: seq<Block>)
    requires RoundTrips(codec)
    requires forall j :: 0 <= j < |blocks| ==> WellFormed(blocks[j].cid)
    requires EncodeSpec(codec, roots, blocks).Ok?
    ensures DecodeSpec(codec, EncodeSpec(codec, roots, blocks).value, p) == Ok((roots, ReadBacks(p, blocks)))
  {
    var out := EncodeSpec(codec, roots, blocks).value;
    var h := codec.encode(HeaderValue(roots));
    var n := |Varint.Encode(|h|)| + |h|;
    EncodedLayout(codec, roots, blocks);
    RecordsFromWhole(p, out, n, blocks);
    DecodeHeaderThen(codec, p, roots, out, n, ReadBacks(p, blocks));
  }

  /** `decode(encode(roots, blocks)) == (roots, blocks)` for blocks with
      CIDv1s, as the source's round-trip test expects. */
  lemma DecodeEncodedV1(codec: HeaderCodec, roots: seq<Cid>, blocks: seq<Block>)
    requires RoundTrips(codec)
    requires forall j :: 0 <= j < |blocks| ==> blocks[j].cid.CidV1? && WellFormed(blocks[j].cid)
    requires EncodeSpec(codec, roots, blocks).Ok?
    ensures DecodeSpec(codec, EncodeSpec(codec, roots, blocks).value, AsWritten) == Ok((roots, blocks))
  {
    DecodeEncoded(codec, AsWritten, roots, blocks);
    ReadBacksUnchanged(AsWritten, blocks);
  }

  /** With the corrected CID parser, `decode(encode(roots, blocks)) ==
      (roots, blocks)` for every well-formed CID, CIDv0 included. */
  lemma DecodeEncodedCorrected(codec: HeaderCodec, roots: seq<Cid>, blocks: seq<Block>)
    requires RoundTrips(codec)
    requires forall j :: 0 <= j < |blocks| ==> WellFormed(blocks[j].cid)
    requires EncodeSpec(codec, roots, blocks).Ok?
    ensures DecodeSpec(codec, EncodeSpec(codec, roots, blocks).value, Corrected) == Ok((roots, blocks))
  {
    DecodeEncoded(codec, Corrected, roots, blocks);
    ReadBacksUnchanged(Corrected, blocks);
  }

  /** The round trip fails for a CIDv0 block under the parser as written:
      one block with the all-zero sha2-256 digest and no bytes comes back
      with the digest `0x20 0 ... 0` and the single block byte 0. */
  lemma DecodeEncodedV0Counterexample(codec: HeaderCodec, roots: seq<Cid>)
    requires RoundTrips(codec)
    requires |codec.encode(HeaderValue(roots))| < Varint.Bound
    ensures var b := Block(CidV0(seq(V0DigestSize, _ => 0)), []);
      EncodeSpec(codec, roots, [b]).Ok? &&
      DecodeSpec(codec, EncodeSpec(codec, roots, [b]).value, AsWritten) ==
        Ok((roots, [Block(CidV0([0x20] + seq(V0DigestSize - 1, _ => 0)), [0])]))
  {
    var b := Block(CidV0(seq(V0DigestSize, _ => 0)), []);
    V0Bytes(b.cid);
    assert RecordLength(b) == 34;
    EncodeSpecOk(codec, roots, [b]);
    DecodeEncoded(codec, AsWritten, roots, [b]);
    assert b.cid.digest[..V0DigestSize - 1] == seq(V0DigestSize - 1, _ => 0);
    assert [b.cid.digest[V0DigestSize - 1]] + b.data == [0];
    assert ReadBacks(AsWritten, [b]) == [ReadBack(AsWritten, b)];
  }

  /** Truncation goes unnoticed: cutting the output of `encode` inside the
      bytes of its last block decodes without error, the last block holding
      only the bytes that are left. */
  lemma DecodeTruncated(codec: HeaderCodec, p: CidParser, roots: seq<Cid>, blocks: seq<Block>, b: Block, k: nat)
    requires RoundTrips(codec)
    requires forall j :: 0 <= j < |blocks| ==> WellFormed(blocks[j].cid)
    requires WellFormed(b.cid) && k <= |b.data|
    requires EncodeSpec(codec, roots, blocks + [b]).Ok?
    ensures var out := EncodeSpec(codec, roots, blocks + [b]).value;
      |b.data| - k <= |out| &&
      DecodeSpec(codec, out[..|out| - (|b.data| - k)], p) ==
        Ok((roots, ReadBacks(p, blocks) + [ReadBack(p, Block(b.cid, b.data[..k]))]))
  {
    AppendedLayout(codec, roots, blocks, b);
    DecodeCut(codec, p, roots, blocks, b, k, EncodeSpec(codec, roots, blocks + [b]).value);
  }

  /** `EncodedLayout` with the last block set apart. */
  lemma AppendedLayout(codec: HeaderCodec, roots: seq<Cid>, blocks: seq<Block>, b: Block)
    requires forall j :: 0 <= j < |blocks| ==> WellFormed(blocks[j].cid)
    requires WellFormed(b.cid)
    requires EncodeSpec(codec, roots, blocks + [b]).Ok?
    ensures forall j :: 0 <= j < |blocks| ==> Encodable(blocks[j])
    ensures Encodable(b)
    ensures var out, h := EncodeSpec(codec, roots, blocks + [b]).value, codec.encode(HeaderValue(roots));
      var n := |Varint.Encode(|h|)| + |h|;
      |h| < Varint.Bound && HasAt(out, 0, Varint.Encode(|h|)) && HasAt(out, |Varint.Encode(|h|)|, h) &&
      HasAt(out, n, Records(blocks) + Record(b)) && n + |Records(blocks) + Record(b)| == |out|
  {
    var all := blocks + [b];
    EncodedLayout(codec, roots, all);
    RecordsAppend(blocks, b);
    assert forall j :: 0 <= j < |blocks| ==> blocks[j] == all[j];
    assert b == all[|blocks|];
  }

  /** `DecodeTruncated` for any buffer laid out as `encode` lays it out. */
  lemma DecodeCut(codec: HeaderCodec, p: CidParser, roots: seq<Cid>, blocks: seq<Block>, b: Block, k: nat, out: seq<byte>)
    requires RoundTrips(codec)
    requires forall j :: 0 <= j < |blocks| ==> Encodable(blocks[j])
    requires Encodable(b) && k <= |b.data|
    requires var h := codec.encode(HeaderValue(roots));
      var n := |Varint.Encode(|h|)| + |h|;
      |h| < Varint.Bound && HasAt(out, 0, Varint.Encode(|h|)) && HasAt(out, |Varint.Encode(|h|)|, h) &&
      HasAt(out, n, Records(blocks) + Record(b)) && n + |Records(blocks) + Record(b)| == |out|
    ensures |b.data| - k <= |out| &&
      DecodeSpec(codec, out[..|out| - (|b.data| - k)], p) ==
        Ok((roots, ReadBacks(p, blocks) + [ReadBack(p, Block(b.cid, b.data[..k]))]))
  {
    var h := codec.encode(HeaderValue(roots));
    var e := Varint.Encode(|h|);
    var n := |e| + |h|;
    TruncatedLayout(out, e, h, blocks, b, k);
    var cut := out[..|out| - (|b.data| - k)];
    RecordsFromCut(p, cut, n, blocks, b, k);
    DecodeHeaderThen(codec, p, roots, cut, n, ReadBacks(p, blocks) + [ReadBack(p, Block(b.cid, b.data[..k]))]);
  }

  /** Cutting the output of `encode` inside the block bytes of its last
      record leaves the header and the other records where they were, and
      the last record cut there. */
  lemma TruncatedLayout(out: seq<byte>, e: seq<byte>, h: seq<byte>, blocks: seq<Block>, b: Block, k: nat)
    requires k <= |b.data|
    requires HasAt(out, 0, e) && HasAt(out, |e|, h)
    requires HasAt(out, |e| + |h|, Records(blocks) + Record(b))
    requires |e| + |h| + |Records(blocks) + Record(b)| == |out|
    ensures |b.data| - k <= |out|
    ensures var cut := out[..|out| - (|b.data| - k)];
      HasAt(cut, 0, e) && HasAt(cut, |e|, h) && HasAt(cut, |e| + |h|, Records(blocks)) &&
      HasAt(cut, |e| + |h| + |Records(blocks)|, CutRecord(b, k)) &&
      |e| + |h| + |Records(blocks)| + |CutRecord(b, k)| == |cut|
  {
    assert Record(b) == CutRecord(b, k) + b.data[k..];
    var t := b.data[k..];
    assert |t| == |b.data| - k;
    CutLayout(out, e, h, Records(blocks), CutRecord(b, k), t);
  }

  /** Dropping the tail `t` of a buffer laid out as `e`, `h`, `r`, `c`, `t`
      leaves the other parts where they were. */
  lemma CutLayout(out: seq<byte>, e: seq<byte>, h: seq<byte>, r: seq<byte>, c: seq<byte>, t: seq<byte>)
    requires HasAt(out, 0, e) && HasAt(out, |e|, h) && HasAt(out, |e| + |h|, r + (c + t))
    requires |e| + |h| + |r| + |c| + |t| == |out|
    ensures var cut := out[..|out| - |t|];
      HasAt(cut, 0, e) && HasAt(cut, |e|, h) && HasAt(cut, |e| + |h|, r) &&
      HasAt(cut, |e| + |h| + |r|, c) && |e| + |h| + |r| + |c| == |cut|
  {
    var n := |e| + |h|;
    var m := |out| - |t|;
    HasAtSplit(out, n, r, c + t);
    HasAtSplit(out, n + |r|, c, t);
    HasAtPrefix(out, 0, e, m);
    HasAtPrefix(out, |e|, h, m);
    HasAtPrefix(out, n, r, m);
    HasAtPrefix(out, n + |r|, c, m);
  }

  /** A header that fails one of the checks makes `decode` raise that
      check's error before any record is read, whatever the records. */
  lemma DecodeRejectsHeader(codec: HeaderCodec, buf: seq<byte>, p: CidParser, len: nat, n: nat, header: Ipld)
    requires Varint.DecodeAt(buf, 0) == Ok((len, n))
    requires codec.decode(PySlice(buf, n, n + len)) == Some(header)
    requires ValidateHeader(header).Err?
    ensures DecodeSpec(codec, buf, p) == Err(ValidateHeader(header).error)
  {
  }

  /** Header bytes the codec cannot decode stop `decode` with the codec's
      error, before any record is read. */
  lemma DecodeRejectsUndecodable(codec: HeaderCodec, buf: seq<byte>, p: CidParser, len: nat, n: nat)
    requires Varint.DecodeAt(buf, 0) == Ok((len, n))
    requires codec.decode(PySlice(buf, n, n + len)) == None
    ensures DecodeSpec(codec, buf, p) == Err(HeaderUndecodable)
  {
  }

  /** A buffer that ends where the header ends yields no blocks. */
  lemma DecodeHeaderOnly(codec: HeaderCodec, buf: seq<byte>, p: CidParser)
    requires DecodeHeader(codec, buf).Ok? && DecodeHeader(codec, buf).value.1 >= |buf|
    ensures DecodeSpec(codec, buf, p) == Ok((DecodeHeader(codec, buf).value.0, []))
  {
  }
}
