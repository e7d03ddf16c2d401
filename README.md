# ipld_car — a Dafny model of the CAR v1 codec

This project models `ipld_car`, the Python codec for the IPLD CAR v1
container format, and proves properties of the model. A CAR v1 buffer is
a varint-length-prefixed DAG-CBOR header `{"version": 1, "roots": [...]}`
followed by one record per block: a varint length, the CID bytes, then the
block bytes.

- `encode(roots, blocks)` writes the header and appends one record per
  block to a growing buffer.
- `decode(buffer)` reads and checks the header. Then it walks the buffer
  with a cursor, one record at a time, until the cursor reaches the end.
  It parses each CID by hand: a leading varint 1 starts a CIDv1, a leading
  0x12 starts a CIDv0, and anything else is an error.

Modules, one per file:

- `base.dfy` (`Base`): bytes, `Option`/`Result`, the error kinds, and
  Python slicing (`PySlice`), which silently stops at the end of a buffer.
  Also `HasAt`, which says where a byte string lies inside a buffer.
- `varint.dfy` (`Varint`): the multiformats unsigned varint. It is
  unsigned LEB128, at most nine bytes, minimally encoded. `Encode` models
  `varint.encode` and `DecodeAt` models `varint.decode_raw(buf[i:])`
  followed by the cursor advance.
- `cid.dfy` (`CidCodec`): the `Cid` datatype, `bytes(cid)` as `ToBytes`,
  and the CID parser inside `decode` as `ReadCid`. `ReadCid` comes in two
  variants, chosen by `CidParser`. `AsWritten` is the branch the source
  has. `Corrected` reads the CIDv0 multihash length byte (see Findings).
- `header.dfy` (`CarHeader`): IPLD values and the header checks of
  `decode`. `dag_cbor` is a `HeaderCodec` parameter: a pair of functions.
  The round-trip lemmas require `RoundTrips(codec)`, the promise that
  decoding the encoding of a CAR header gives that header back.
- `car.dfy` (`IpldCar`): `Encode` and `Decode` as methods with the
  source's loops. Each method is proved equal to a specification function
  (`EncodeSpec`, `DecodeSpec`). The lemmas about those functions state
  the layout, the header checks, the cursor accounting, the round trip
  and truncation.

`Decode` runs the parser as written. `DecodeSpec` takes the parser as a
parameter, so the round trip is proved for both parsers. Under the parser
as written it holds for CIDv1 blocks. Under the corrected parser it holds
for every well-formed CID. `ReadBack` says exactly what the parser as
written returns for a CIDv0 block.

Two behaviours of the code are worth knowing, and the model keeps both:

- `decode` raises no truncation error. Python slicing stops silently at
  the end of the buffer, so a record or digest that runs past the end is
  returned short (`IpldCar.DecodeTruncated`).
- `encode` writes `bytes(cid)`, which for a CIDv0 is the bare multihash
  `0x12 0x20 <digest>` rather than a v1-style layout. `CidCodec.ToBytes`
  follows this.

## Model

| member | source | states |
|---|---|---|
| Base.PySlice | ipld_car/__init__.py:50-99 | Python's `buffer[lo:hi]`: the bytes from `lo` up to `hi` or the end of the buffer, whichever comes first, and nothing when `hi <= lo` or `lo` is past the end; its length is stated in those terms |
| Varint.Encode | ipld_car/__init__.py:23 | `varint.encode(n)`: seven bits per byte, least significant group first, the continuation bit on every byte but the last; never empty |
| Varint.GroupsAt | ipld_car/__init__.py:74-87 | the byte loop of `varint.decode_raw`: truncated when the buffer ends first, too long at a tenth byte, not minimal when a final byte after the first is zero; on success the cursor stays inside the buffer and within nine bytes |
| Varint.DecodeAt | ipld_car/__init__.py:49 | `varint.decode_raw(buf[i:])` with the cursor moved past what it read; on success the cursor moved forward by one to nine bytes, inside the buffer |
| Varint.DecodeAll | ipld_car/__init__.py:82-87 | the varint reads of the CID fields one after the other, stopping at the first error; on success it returns as many values as asked and the cursor has not moved back |
| CidCodec.ToBytes | ipld_car/__init__.py:31 | `bytes(cid)`: for a CIDv0 the multihash `0x12`, digest length, digest; for a CIDv1 the marker 1, content codec, hash code, digest length and digest |
| CidCodec.ReadCid | ipld_car/__init__.py:77-96 | the CID parse of the record loop: marker 1 reads three varints and slices the digest, marker 0x12 slices 32 bytes (as written) or reads the digest length first (corrected), any other marker raises "invalid CID version" |
| CarHeader.HeaderValue | ipld_car/__init__.py:22 | the header `encode` builds: `{"version": 1, "roots": [...]}` with the roots as links |
| CarHeader.PyGet | ipld_car/__init__.py:55-58 | `dict.get`: the value at the key, `None` when the key is absent |
| CarHeader.PyEqualsOne | ipld_car/__init__.py:55 | Python's `v == 1`, true for `1`, `True` and `1.0` |
| CarHeader.RootsFrom | ipld_car/__init__.py:62-66 | the loop over `raw_roots`: every item must be a CID, collected in order |
| CarHeader.ValidateHeader | ipld_car/__init__.py:52-66 | the four header checks of `decode` in their order, returning the roots |
| IpldCar.Record | ipld_car/__init__.py:37-40 | the bytes `encode` appends for one block: the varint of CID length plus block length, the CID bytes, the block bytes |
| IpldCar.AppendRecords | ipld_car/__init__.py:27-40 | the block loop of `encode`: one record per block, in order, raising when a record length does not fit a varint |
| IpldCar.EncodeSpec | ipld_car/__init__.py:20-42 | `encode`: the header length varint, the header, then the block loop |
| IpldCar.ReadRecord | ipld_car/__init__.py:74-100 | one pass of the record loop: length varint, CID, then the block bytes up to `cid_start + block_len`; on success the cursor moved forward |
| IpldCar.RecordsFrom | ipld_car/__init__.py:68-100 | the record loop: stops when the cursor reaches the end of the buffer, appends the blocks in the order read, stops at the first error |
| IpldCar.DecodeHeader | ipld_car/__init__.py:49-66 | the header length varint, the `dag_cbor` decode of the sliced header, its checks; the roots and the cursor after the header |
| IpldCar.DecodeSpec | ipld_car/__init__.py:45-102 | `decode`: the header, then the record loop from the cursor after it |
| IpldCar.ReadBack | ipld_car/__init__.py:91-99 | what the record loop returns for the record of a block: the block itself, except that the parser as written shifts a CIDv0 digest by one byte into the block bytes |
| Varint.DecodeAtEncoded | ipld_car/__init__.py:74-87 | reading the encoding of any n < 2^63, wherever it lies in a buffer, gives n back and moves the cursor exactly past the encoding |
| Varint.DecodeEncoded | ipld_car/__init__.py:49 | `decode_raw(encode(n))` is `(n, len(encode(n)))` for every n < 2^63 |
| Varint.EncodeMinimal | ipld_car/__init__.py:23 | the encoding of n uses as few 7-bit groups as n needs: n fits in its length and not in one byte fewer |
| Varint.DecodeAtCanonical | ipld_car/__init__.py:74-87 | a successful read stepped over exactly the minimal encoding of the value it returns, and that value is below 2^63 |
| Varint.DecodeAllAt | ipld_car/__init__.py:82-87 | several varints written one after the other read back in order, with the cursor right after the last |
| Varint.DecodeAllCanonical | ipld_car/__init__.py:82-87 | a successful run of reads stepped over exactly the encodings of the values it returns |
| Varint.DecodeAllErrors | ipld_car/__init__.py:82-87 | reading several varints can only fail with a varint error (truncated, too long, not minimal) |
| CidCodec.ReadCidAt | ipld_car/__init__.py:77-90 | both parsers read every well-formed CIDv1 back from its bytes, wherever they lie, and stop right after them; the corrected parser does the same for CIDv0 |
| CidCodec.ReadCidRejects | ipld_car/__init__.py:77-96 | once the leading varint reads, the parse fails with "invalid CID version" exactly when that varint is neither 1 nor 0x12 |
| CidCodec.ReadCidAtV0 | ipld_car/__init__.py:91-94 | the parser as written reads the bytes of a CIDv0 as a CID whose digest is 0x20 followed by the first 31 digest bytes, and stops one byte early; it never returns the CID that was written |
| CidCodec.ReadCidV0Counterexample | ipld_car/__init__.py:91-94 | for the all-zero CIDv0, `bytes(cid)` is `0x12 0x20 0...0` and the parser as written returns the digest `0x20 0...0` with the cursor at 33 |
| CidCodec.ReadCidCanonical | ipld_car/__init__.py:77-96 | whatever the corrected parser accepts inside the buffer is exactly the byte form of the CID it returns, and a CIDv1 it returns is well formed |
| CarHeader.RootsFromLinks | ipld_car/__init__.py:62-66 | the root loop succeeds with the given CIDs, after those collected so far, exactly when the remaining items are those CIDs as links, in order |
| CarHeader.RootsFromRejects | ipld_car/__init__.py:63-65 | a root list with a non-CID item anywhere fails with "unexpected root type" |
| CarHeader.ValidateHeaderAccepts | ipld_car/__init__.py:52-66 | the header checks accept exactly a map whose version equals 1 and whose roots are a list of CIDs, and return those CIDs in header order |
| CarHeader.ValidateHeaderRejects | ipld_car/__init__.py:52-65 | each failed check raises its own error, in the order the checks are made: not a map, version not 1, roots not a list, a root not a CID |
| CarHeader.ValidateHeaderOf | ipld_car/__init__.py:22-66 | the header `encode` builds passes every check and gives back its roots |
| CarHeader.VersionCheckQuirk | ipld_car/__init__.py:55-56 | the version test is Python `!=`: `True` and `1.0` pass, while `2` and a missing version fail |
| IpldCar.Encode | ipld_car/__init__.py:16-42 | the method with the source's block loop returns what `EncodeSpec` says, error included |
| IpldCar.AppendRecordsOk | ipld_car/__init__.py:27-40 | the block loop raises exactly when some record length does not fit a varint; otherwise it appends every record, in input order |
| IpldCar.EncodeSpecOk | ipld_car/__init__.py:20-42 | `encode` succeeds exactly when the header and every record length fit a varint, and then returns `varint(len(H)) ++ H ++` the records of all blocks, in order |
| IpldCar.RecordsAppend | ipld_car/__init__.py:27-40 | the records of `blocks + [b]` are the records of `blocks` followed by the record of `b` |
| IpldCar.Decode | ipld_car/__init__.py:45-102 | the method with the source's loops returns what `DecodeSpec` says under the parser as written, error included |
| IpldCar.ReadHeader | ipld_car/__init__.py:49-66 | the header part of `decode`, with its loop over the roots, returns what `DecodeHeader` says |
| IpldCar.ReadRecords | ipld_car/__init__.py:68-100 | the `while True` record loop returns what `RecordsFrom` says |
| IpldCar.ReadRecordAt | ipld_car/__init__.py:74-100 | one pass of the record loop returns what `ReadRecord` says |
| IpldCar.ParseCidAt | ipld_car/__init__.py:77-96 | the field-by-field CID parse of the loop returns what `ReadCid` says under the parser as written |
| IpldCar.ReadRecordCursor | ipld_car/__init__.py:74-100 | after a record the cursor has moved by exactly `len(varint(block_len)) + block_len`, and the bytes stepped over first are the minimal encoding of `block_len` |
| IpldCar.ReadRecordAtRecord | ipld_car/__init__.py:74-100 | the record of a block, wherever it lies, reads back as `ReadBack` says, with the cursor right after it |
| IpldCar.ReadBacksUnchanged | ipld_car/__init__.py:81-90 | every block reads back as itself under the corrected parser, and under the parser as written when every CID is a CIDv1 |
| IpldCar.RecordsFromAt | ipld_car/__init__.py:68-100 | the record loop reads the records of a list of blocks back in order, appended to the blocks read so far, and goes on right after them |
| IpldCar.DecodeEncoded | ipld_car/__init__.py:16-102 | decoding what `encode` returns gives back its roots and, in order, what `ReadBack` says of each block, for either parser |
| IpldCar.DecodeEncodedV1 | ipld_car/__init__.py:16-102 | `decode(encode(roots, blocks)) == (roots, blocks)` when every CID is a well-formed CIDv1 |
| IpldCar.DecodeEncodedCorrected | ipld_car/__init__.py:16-102 | with the corrected CID parser, `decode(encode(roots, blocks)) == (roots, blocks)` for every well-formed CID |
| IpldCar.DecodeEncodedV0Counterexample | ipld_car/__init__.py:91-94 | one block with the all-zero CIDv0 and no bytes comes back from `decode(encode(...))` with the digest `0x20 0...0` and the block bytes `[0]` |
| IpldCar.DecodeTruncated | ipld_car/__init__.py:88-100 | cutting the output of `encode` inside the bytes of its last block decodes without error, and the last block holds only the bytes left |
| IpldCar.DecodeRejectsHeader | ipld_car/__init__.py:52-66 | a header that fails a check makes `decode` raise that check's error, whatever the records after it |
| IpldCar.DecodeRejectsUndecodable | ipld_car/__init__.py:50 | header bytes that `dag_cbor` cannot decode make `decode` fail before any record is read |
| IpldCar.DecodeHeaderOnly | ipld_car/__init__.py:69-72 | a buffer that ends where the header ends decodes to its roots and no blocks |

## Left out

- `dag_cbor` is not part of this model. It is the `HeaderCodec` parameter. The round-trip lemmas require only that it gives back every header `encode` builds (`CarHeader.RoundTrips`); `dag_cbor` does not round-trip every IPLD value, so nothing more is asked of it. A codec failure is the single error `HeaderUndecodable`.
- The internals of the multiformats `CID` class are not part of this model: multibase strings ("base32", "base58btc"), name tables such as "dag-pb" and "sha2-256", and digest validation. CIDs are the `Cid` datatype with numeric codes. `CidCodec.WellFormed` states what a CID object guarantees: a 32-byte digest for a CIDv0, and codes and lengths that fit a varint.
- Hash computation is not modelled. The digest is whatever bytes the CID holds.
- The `multiformats.varint` module is not part of this model. `Varint` follows the multiformats unsigned-varint rules: at most nine bytes, minimal encoding, and values of 2^63 or more refused by `encode`.
- `bytes`, `bytearray` and `memoryview` are all `seq<byte>`. Zero-copy views and aliasing of the returned slices are not modelled.
- The `TypeError` checks of `encode` (ipld_car/__init__.py:29-35) are discharged by the types: a `Block` always holds a `Cid` and bytes.
- Python exceptions are `Err` values of one `Error` type. The exception classes and messages are not modelled, only which check raised.
- IpldCar.DecodeTruncated: states truncation only inside the bytes of the last block. A cut elsewhere may instead raise a varint error or give other short reads; those cases are not stated.

## Findings

| source | as written | input that shows it | evidently intended | confidence | as-written member | corrected member |
|---|---|---|---|---|---|---|
| ipld_car/__init__.py:91-94 | after the leading 0x12 of a CIDv0, `decode` takes the next 32 bytes as the digest. But `bytes(cid)` of a CIDv0 is the multihash `0x12 0x20 <32-byte digest>`, so the digest read starts with the length byte 0x20, and the last digest byte is left at the front of the block bytes | `encode([], [(CIDv0 of the all-zero sha2-256 digest, b"")])` decodes to the digest `0x20 0...0` and the block bytes `b"\x00"` | read the multihash length varint after 0x12, then that many digest bytes, so that `decode(encode(x)) == x` holds for CIDv0 blocks too | not executed | CidCodec.ReadCidAtV0, IpldCar.DecodeEncodedV0Counterexample | CidCodec.ReadCidAt, IpldCar.DecodeEncodedCorrected |
