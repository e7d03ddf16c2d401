/** Shared vocabulary of the CAR codec model: bytes, failure-compatible
    wrappers, the error taxonomy, and Python's forgiving slice operators. */
module Base {

  /** One octet of a bytes-like buffer. */
  type byte = x: int | 0 <= x < 256

  datatype Option<+T> = None | Some(value: T)

  datatype Result<+T, +E> = Ok(value: T) | Err(error: E) {
    predicate IsFailure() { Err? }

    function PropagateFailure<U>(): Result<U, E>
      requires Err?
    {
      Err(error)
    }

    function Extract(): T
      requires Ok?
    {
      value
    }
  }

  /** Every way `encode` or `decode` can raise. */
  datatype Error =
    | VarintTruncated        // the input ends before a byte without the continuation bit
    | VarintTooLong          // a varint longer than nine bytes
    | VarintNotMinimal       // a multi-byte varint whose last byte is zero
    | VarintTooLarge         // `varint.encode` of a value of 2^63 or more
    | HeaderUndecodable      // `dag_cbor.decode` rejected the header bytes
    | HeaderNotMap           // "unexpected header type"
    | UnsupportedCarVersion  // "unexpected CAR version"
    | RootsNotList           // "unexpected roots type"
    | RootNotCid             // "unexpected root type"
    | InvalidCidVersion      // "invalid CID version"

  function Min(a: int, b: int): int { if a <= b then a else b }

  /** Python's `s[lo:hi]` for non-negative bounds: the elements at
      positions `lo, lo + 1, ...` that lie both before `hi` and inside `s`.
      A slice past the end is short or empty, never an error. */
  function PySlice<T>(s: seq<T>, lo: nat, hi: nat): (r: seq<T>)
    ensures |r| == if lo <= hi && lo <= |s| then Min(hi, |s|) - lo else 0
    decreases hi - lo
  {
    if lo < hi && lo < |s| then [s[lo]] + PySlice(s, lo + 1, hi) else []
  }

  /** A slice that lies inside the sequence is the plain Dafny slice. */
  lemma {:induction false} PySliceInside<T>(s: seq<T>, lo: nat, hi: nat)
    requires lo <= hi <= |s|
    ensures PySlice(s, lo, hi) == s[lo..hi]
    decreases hi - lo
  {
    if lo < hi {
      PySliceInside(s, lo + 1, hi);
      assert s[lo..hi] == [s[lo]] + s[lo + 1..hi];
    }
  }

  /** Prepending `pre` to a sequence shifts every slice of it by `|pre|`. */
  lemma {:induction false} PySliceShift<T>(pre: seq<T>, s: seq<T>, lo: nat, hi: nat)
    ensures PySlice(pre + s, |pre| + lo, |pre| + hi) == PySlice(s, lo, hi)
    decreases hi - lo
  {
    if lo < hi && lo < |s| {
      assert (pre + s)[|pre| + lo] == s[lo];
      PySliceShift(pre, s, lo + 1, hi);
    }
  }

  /** Appending `post` does not change a slice that ends inside the sequence. */
  lemma {:induction false} PySliceExtend<T>(s: seq<T>, post: seq<T>, lo: nat, hi: nat)
    requires hi <= |s|
    ensures PySlice(s + post, lo, hi) == PySlice(s, lo, hi)
    decreases hi - lo
  {
    if lo < hi {
      PySliceExtend(s, post, lo + 1, hi);
    }
  }

  /** A slice that runs past the end stops at the end. */
  lemma {:induction false} PySliceToEnd<T>(s: seq<T>, lo: nat, hi: nat)
    requires lo <= |s| <= hi
    ensures PySlice(s, lo, hi) == s[lo..]
    decreases hi - lo
  {
    if lo < |s| {
      PySliceToEnd(s, lo + 1, hi);
      assert s[lo..] == [s[lo]] + s[lo + 1..];
    }
  }

  /** `x` lies in `s` from position `i` on. */
  predicate HasAt<T(==)>(s: seq<T>, i: nat, x: seq<T>)
  {
    i + |x| <= |s| && s[i..i + |x|] == x
  }

  /** Two adjacent slices join into one. */
  lemma SliceJoin<T>(s: seq<T>, i: nat, j: nat, k: nat, x: seq<T>, y: seq<T>)
    requires i <= j <= k <= |s| && s[i..j] == x && s[j..k] == y
    ensures s[i..k] == x + y
  {
    assert s[i..k] == s[i..j] + s[j..k];
  }

  /** Where a concatenation lies, each of its two parts lies. */
  lemma HasAtSplit<T>(s: seq<T>, i: nat, x: seq<T>, y: seq<T>)
    requires HasAt(s, i, x + y)
    ensures HasAt(s, i, x) && HasAt(s, i + |x|, y)
  {
    var w := s[i..i + |x| + |y|];
    assert s[i..i + |x|] == w[..|x|] && s[i + |x|..i + |x| + |y|] == w[|x|..];
  }

  /** Two parts lying one after the other make their concatenation lie. */
  lemma HasAtJoin<T>(s: seq<T>, i: nat, x: seq<T>, y: seq<T>)
    requires HasAt(s, i, x) && HasAt(s, i + |x|, y)
    ensures HasAt(s, i, x + y)
  {
    SliceJoin(s, i, i + |x|, i + |x| + |y|, x, y);
  }

  /** The middle part of a concatenation lies after the first part. */
  lemma HasAtMiddle<T>(pre: seq<T>, x: seq<T>, post: seq<T>)
    ensures HasAt(pre + (x + post), |pre|, x)
  {
    var s := pre + (x + post);
    assert s[|pre|..|pre| + |x|] == x;
  }

  /** The first part of a concatenation lies at its start. */
  lemma HasAtFirst<T>(x: seq<T>, post: seq<T>)
    ensures HasAt(x + post, 0, x)
  {
    assert (x + post)[0..|x|] == x;
  }

  /** The last part of a concatenation lies after the first part. */
  lemma HasAtLast<T>(pre: seq<T>, x: seq<T>)
    ensures HasAt(pre + x, |pre|, x)
  {
    assert (pre + x)[|pre|..|pre| + |x|] == x;
  }

  /** Cutting a sequence after what lies in it keeps it lying there. */
  lemma HasAtPrefix<T>(s: seq<T>, i: nat, x: seq<T>, m: nat)
    requires HasAt(s, i, x) && i + |x| <= m <= |s|
    ensures HasAt(s[..m], i, x)
  {
    assert s[..m][i..i + |x|] == s[i..i + |x|];
  }

  /** A whole sequence lies at its start. */
  lemma HasAtWhole<T>(x: seq<T>)
    ensures HasAt(x, 0, x)
  {
    assert x[0..|x|] == x;
  }

  /** Slicing out what lies at a position gives it back. */
  lemma PySliceAt<T>(s: seq<T>, lo: nat, x: seq<T>, hi: nat)
    requires HasAt(s, lo, x) && hi == lo + |x|
    ensures PySlice(s, lo, hi) == x
  {
    PySliceInside(s, lo, hi);
  }

  /** Slicing past the end from where the last part lies gives that part. */
  lemma PySliceAtEnd<T>(s: seq<T>, lo: nat, x: seq<T>, hi: nat)
    requires HasAt(s, lo, x) && lo + |x| == |s| <= hi
    ensures PySlice(s, lo, hi) == x
  {
    PySliceToEnd(s, lo, hi);
  }

  /** `x` is what `s[lo:hi]` gives: it lies at `lo`, and it either ends at
      `hi` or is cut short by the end of `s`. */
  predicate SliceGives<T(==)>(s: seq<T>, lo: nat, hi: nat, x: seq<T>)
  {
    HasAt(s, lo, x) && (lo + |x| == hi || lo + |x| == |s| <= hi)
  }

  lemma PySliceGives<T>(s: seq<T>, lo: nat, hi: nat, x: seq<T>)
    requires SliceGives(s, lo, hi, x)
    ensures PySlice(s, lo, hi) == x
  {
    if lo + |x| == hi {
      PySliceAt(s, lo, x, hi);
    } else {
      PySliceAtEnd(s, lo, x, hi);
    }
  }

  lemma AppendAssoc<T>(a: seq<T>, b: seq<T>, c: seq<T>)
    ensures (a + b) + c == a + (b + c)
  {
  }
}
