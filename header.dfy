/** The CAR v1 header: the IPLD map `{"version": 1, "roots": [...]}` that
    `encode` writes through `dag_cbor.encode` and that `decode` reads back
    through `dag_cbor.decode` and then checks field by field. */
module CarHeader {
  import opened Base
  import opened CidCodec

  /** An IPLD data model value as `dag_cbor` hands it to Python: `None`,
      `bool`, `int`, `float`, `str`, `bytes`, a `CID`, a `list` or a `dict`
      with string keys. */
  datatype Ipld =
    | Null
    | Bool(b: bool)
    | Int(i: int)
    | Float(f: real)
    | Text(s: string)
    | Bytes(bytes: seq<byte>)
    | Link(cid: Cid)
    | List(items: seq<Ipld>)
    | Map(entries: map<string, Ipld>)

  /** The DAG-CBOR codec of the `dag_cbor` package, which this model does
      not contain: `encode` turns a value into bytes, `decode` gives the
      value back or `None` where the package raises. */
  datatype HeaderCodec = HeaderCodec(encode: Ipld -> seq<byte>, decode: seq<byte> -> Option<Ipld>)

  /** What the round-trip lemmas ask of the codec: decoding the encoding of
      any header `encode` builds gives that header back. Only header values
      are asked for; `dag_cbor` does not round-trip every IPLD value (ints
      beyond 64 bits and reals that are not doubles are lost). */
  ghost predicate RoundTrips(codec: HeaderCodec)
  {
    forall roots: seq<Cid> :: codec.decode(codec.encode(HeaderValue(roots))) == Some(HeaderValue(roots))
  }

  /** `list[IPLDKind](roots)`: the roots as IPLD links, in order. */
  function Links(roots: seq<Cid>): (r: seq<Ipld>)
    ensures |r| == |roots|
    ensures forall k :: 0 <= k < |r| ==> r[k] == Link(roots[k])
  {
    seq(|roots|, k requires 0 <= k < |roots| => Link(roots[k]))
  }

  /** The header `encode` writes: version 1 and the roots. */
  function HeaderValue(roots: seq<Cid>): Ipld
  {
    Map(map["version" := Int(1), "roots" := List(Links(roots))])
  }

  /** `dict.get(key)`: the value at the key, or `None` when it is absent. */
  function PyGet(entries: map<string, Ipld>, key: string): (r: Ipld)
    ensures key !in entries ==> r == Null
    ensures key in entries ==> r == entries[key]
  {
    if key in entries then entries[key] else Null
  }

  /** Python's `v == 1` on an IPLD value: `True` and `1.0` compare equal to
      `1` as well. */
  predicate PyEqualsOne(v: Ipld)
  {
    v == Int(1) || v == Bool(true) || v == Float(1.0)
  }

  /** The loop over `raw_roots`, from position `k` on, with the CIDs
      collected so far in `acc`: every item must be a link. */
  function RootsFrom(items: seq<Ipld>, k: nat, acc: seq<Cid>): Result<seq<Cid>, Error>
    requires k <= |items|
    decreases |items| - k
  {
    if k == |items| then Ok(acc)
    else if !items[k].Link? then Err(RootNotCid)
    else RootsFrom(items, k + 1, acc + [items[k].cid])
  }

  /** The checks `decode` makes of the decoded header, in their order: a
      map, a version equal to 1, a list of roots, each root a CID. */
  function ValidateHeader(header: Ipld): Result<seq<Cid>, Error>
  {
    if !header.Map? then Err(HeaderNotMap)
    else if !PyEqualsOne(PyGet(header.entries, "version")) then Err(UnsupportedCarVersion)
    else
      var raw := PyGet(header.entries, "roots");
      if !raw.List? then Err(RootsNotList)
      else RootsFrom(raw.items, 0, [])
  }

  /** The root loop accepts exactly a list of links, and returns their CIDs
      after those already collected. */
  lemma {:induction false} RootsFromLinks(items: seq<Ipld>, k: nat, acc: seq<Cid>, roots: seq<Cid>)
    requires k <= |items|
    ensures RootsFrom(items, k, acc) == Ok(acc + roots) <==> items[k..] == Links(roots)
    decreases |items| - k
  {
    if k == |items| {
      assert acc + roots == acc <==> roots == [];
    } else if !items[k].Link? {
    } else {
      var c := items[k].cid;
      if roots == [] {
        assert |items[k..]| > 0;
        if RootsFrom(items, k + 1, acc + [c]) == Ok(acc + roots) {
          RootsFromLength(items, k + 1, acc + [c]);
        }
      } else {
        RootsFromLinks(items, k + 1, acc + [c], roots[1..]);
        assert acc + roots == (acc + [roots[0]]) + roots[1..];
        if items[k..] == Links(roots) {
          assert items[k] == items[k..][0];
          assert items[k + 1..] == items[k..][1..];
          assert Links(roots)[1..] == Links(roots[1..]);
        }
        if items[k + 1..] == Links(roots[1..]) && c == roots[0] {
          assert items[k..] == [items[k]] + items[k + 1..];
        }
        if RootsFrom(items, k + 1, acc + [c]) == Ok(acc + roots) {
          RootsFromLength(items, k + 1, acc + [c]);
          assert (acc + roots)[|acc|] == c;
        }
      }
    }
  }

  lemma {:induction false} RootsFromLength(items: seq<Ipld>, k: nat, acc: seq<Cid>)
    requires k <= |items|
    ensures RootsFrom(items, k, acc).Ok? ==>
      |RootsFrom(items, k, acc).value| == |acc| + |items| - k && RootsFrom(items, k, acc).value[..|acc|] == acc
    decreases |items| - k
  {
    if k < |items| && items[k].Link? {
      RootsFromLength(items, k + 1, acc + [items[k].cid]);
    }
  }

  /** `decode` accepts a header exactly when it is a map whose "version"
      compares equal to 1 and whose "roots" is a list of links, and then
      returns the CIDs of those links in order. Other keys are ignored. */
  lemma ValidateHeaderAccepts(header: Ipld, roots: seq<Cid>)
    ensures ValidateHeader(header) == Ok(roots) <==>
      header.Map? && PyEqualsOne(PyGet(header.entries, "version")) &&
      PyGet(header.entries, "roots") == List(Links(roots))
  {
    if header.Map? && PyEqualsOne(PyGet(header.entries, "version")) {
      var raw := PyGet(header.entries, "roots");
      if raw.List? {
        RootsFromLinks(raw.items, 0, [], roots);
        assert raw.items[0..] == raw.items;
        assert [] + roots == roots;
      }
    }
  }

  /** The root loop refuses a list with an item that is not a link, wherever
      that item is, after the CIDs collected so far. */
  lemma {:induction false} RootsFromRejects(items: seq<Ipld>, k: nat, acc: seq<Cid>, j: nat)
    requires k <= j < |items| && !items[j].Link?
    ensures RootsFrom(items, k, acc) == Err(RootNotCid)
    decreases j - k
  {
    if k < j && items[k].Link? {
      RootsFromRejects(items, k + 1, acc + [items[k].cid], j);
    }
  }

  /** Each check of `decode` raises its own error, in the order the checks
      are made: not a map, then a version other than 1, then roots that are
      not a list, then a root that is not a CID. */
  lemma ValidateHeaderRejects(header: Ipld)
    ensures !header.Map? ==> ValidateHeader(header) == Err(HeaderNotMap)
    ensures header.Map? && !PyEqualsOne(PyGet(header.entries, "version")) ==>
      ValidateHeader(header) == Err(UnsupportedCarVersion)
    ensures (header.Map? && PyEqualsOne(PyGet(header.entries, "version")) &&
             !PyGet(header.entries, "roots").List?) ==>
      ValidateHeader(header) == Err(RootsNotList)
    ensures (header.Map? && PyEqualsOne(PyGet(header.entries, "version")) &&
             PyGet(header.entries, "roots").List? &&
             exists j :: 0 <= j < |PyGet(header.entries, "roots").items| && !PyGet(header.entries, "roots").items[j].Link?) ==>
      ValidateHeader(header) == Err(RootNotCid)
  {
    if header.Map? && PyEqualsOne(PyGet(header.entries, "version")) && PyGet(header.entries, "roots").List? {
      var items := PyGet(header.entries, "roots").items;
      if exists j :: 0 <= j < |items| && !items[j].Link? {
        var j :| 0 <= j < |items| && !items[j].Link?;
        RootsFromRejects(items, 0, [], j);
      }
    }
  }

  /** The header `encode` writes passes every check of `decode` and gives
      back the roots it was written from. */
  lemma ValidateHeaderOf(roots: seq<Cid>)
    ensures ValidateHeader(HeaderValue(roots)) == Ok(roots)
  {
    ValidateHeaderAccepts(HeaderValue(roots), roots);
  }

  /** The version check is Python's `!=`: a header whose version is `True`
      or `1.0` is accepted as a CAR v1 header, while `2` and a missing
      version are refused. */
  lemma VersionCheckQuirk(roots: seq<Cid>)
    ensures ValidateHeader(Map(map["version" := Bool(true), "roots" := List(Links(roots))])) == Ok(roots)
    ensures ValidateHeader(Map(map["version" := Float(1.0), "roots" := List(Links(roots))])) == Ok(roots)
    ensures ValidateHeader(Map(map["version" := Int(2), "roots" := List(Links(roots))])) == Err(UnsupportedCarVersion)
    ensures ValidateHeader(Map(map["roots" := List(Links(roots))])) == Err(UnsupportedCarVersion)
  {
    ValidateHeaderAccepts(Map(map["version" := Bool(true), "roots" := List(Links(roots))]), roots);
    ValidateHeaderAccepts(Map(map["version" := Float(1.0), "roots" := List(Links(roots))]), roots);
  }
}
