/** The byte codec of the `packet` crate generation.

    Values are written to an `io::Write` and read back from an `io::Read`.
    Decoding a slice of bytes is modelled as a function from the input to
    `Parsed<T>`: the decoded value and the bytes left unread, or the error
    together with the bytes left unread (reading a slice consumes bytes
    before it fails, and the callers that recover from `NoDataAvailable`
    carry on from there). */
module Wire {
  import opened Bytes
  import opened Wrappers

  /** The `io::ErrorKind`s the codec and the clients tell apart. */
  datatype IoKind = UnexpectedEof | WriteZero | Interrupted | Other

  /** Decode errors of both crate generations. `NoDataAvailable`, `Io` and
      `UnexpectedValue` belong to the `packet` crate; `Overflow` and
      `Unexpected` to the `btmgmt` crate. */
  datatype Error =
    | NoDataAvailable
    | Io(kind: IoKind)
    | UnexpectedValue(value: int)
    | Overflow
    | Unexpected

  datatype Parsed<T> = Ok(value: T, rest: bytes) | Err(error: Error, rest: bytes)

  function Min(a: nat, b: nat): nat
  {
    if a <= b then a else b
  }

  // ---------------------------------------------------------------------
  // `fill`: reading a whole fixed-size buffer from a reader
  // ---------------------------------------------------------------------

  /** How a reader answers one `read` call: with at most `max` bytes of
      its stream, or with an error of the given kind. */
  datatype ReadStep = Give(max: nat) | Fail(kind: IoKind)

  /** A reader: the bytes it can still deliver, and the answers it gives
      to the next reads. Once `script` runs out it behaves like a slice and
      hands over as many bytes as are asked for. */
  datatype Reader = Reader(stream: bytes, script: seq<ReadStep>)

  datatype ReadAnswer = Got(chunk: bytes) | Failed(kind: IoKind)

  /** One call `read(buf)` with a buffer of `want` bytes. A chunk of zero
      bytes is `Ok(0)`, the end of the stream. */
  function ReadOnce(r: Reader, want: nat): (res: (ReadAnswer, Reader))
    ensures res.0.Got? ==> |res.0.chunk| <= want && r.stream == res.0.chunk + res.1.stream
    ensures res.0.Failed? ==> res.1.stream == r.stream
    ensures |r.script| > 0 ==> res.1.script == r.script[1..]
    ensures |r.script| == 0 ==>
              res.1.script == [] && res.0.Got? && |res.0.chunk| == Min(want, |r.stream|)
  {
    if |r.script| == 0 then
      var n := Min(want, |r.stream|);
      (Got(r.stream[..n]), Reader(r.stream[n..], []))
    else
      match r.script[0]
      case Give(m) =>
        var n := Min(Min(m, want), |r.stream|);
        (Got(r.stream[..n]), Reader(r.stream[n..], r.script[1..]))
      case Fail(k) => (Failed(k), Reader(r.stream, r.script[1..]))
  }

  datatype FillStatus = Filled | FillFailed(error: Error)

  /** What `fill` reports once its loop has stopped, having read `total`
      bytes with `remaining` bytes of the buffer still unfilled. Nothing
      read at all is `NoDataAvailable` -- also for a buffer of length 0. */
  function FillVerdict(total: nat, remaining: nat): FillStatus
  {
    if total == 0 then FillFailed(NoDataAvailable)
    else if remaining > 0 then FillFailed(Io(UnexpectedEof))
    else Filled
  }

  /** Reference semantics of the `fill` loop, one `read` per step:
      `Ok(0)` stops the loop, `Interrupted` is retried, any other error is
      returned as it is. */
  function FillLoop(r: Reader, remaining: nat, total: nat): (res: (FillStatus, Reader))
    decreases |r.script|, remaining
  {
    if remaining == 0 then (FillVerdict(total, 0), r)
    else
      var (ans, r') := ReadOnce(r, remaining);
      match ans
      case Got(c) =>
        if |c| == 0 then (FillVerdict(total, remaining), r')
        else FillLoop(r', remaining - |c|, total + |c|)
      case Failed(k) =>
        if k == Interrupted then FillLoop(r', remaining, total)
        else (FillFailed(Io(k)), r')
  }

  /** `fill(reader, buf)` for a buffer of `n` bytes. Returns the verdict,
      the bytes written into the buffer and the reader afterwards. The
      buffer is either filled completely or the call fails: a caller never
      receives a partly filled buffer as a value. */
  method Fill(r0: Reader, n: nat) returns (status: FillStatus, filled: bytes, r: Reader)
    ensures (status, r) == FillLoop(r0, n, 0)
    ensures r0.stream == filled + r.stream
    ensures |filled| <= n
    ensures status == Filled <==> n > 0 && |filled| == n
    ensures status == FillFailed(NoDataAvailable) ==> filled == []
    ensures status != FillFailed(Io(Interrupted))
  {
    r := r0;
    filled := [];
    var remaining: nat := n;
    while remaining > 0
      invariant |filled| + remaining == n
      invariant r0.stream == filled + r.stream
      invariant FillLoop(r0, n, 0) == FillLoop(r, remaining, |filled|)
      decreases |r.script|, remaining
    {
      var (ans, r') := ReadOnce(r, remaining);
      match ans {
        case Got(c) =>
          if |c| == 0 {
            r := r';
            status := FillVerdict(|filled|, remaining);
            return;
          }
          assert filled + r.stream == (filled + c) + r'.stream;
          filled := filled + c;
          remaining := remaining - |c|;
          r := r';
        case Failed(k) =>
          r := r';
          if k != Interrupted {
            status := FillFailed(Io(k));
            return;
          }
      }
    }
    status := FillVerdict(|filled|, 0);
  }

  /** `fill` on a byte slice used as the reader, in closed form: the slice
      hands over everything that is asked for, or all it has. */
  function SliceFill(n: nat, s: bytes): (res: (FillStatus, bytes))
  {
    if n == 0 || |s| == 0 then (FillFailed(NoDataAvailable), s)
    else if |s| < n then (FillFailed(Io(UnexpectedEof)), [])
    else (Filled, s[n..])
  }

  /** The closed form agrees with the `fill` loop run on a slice reader. */
  lemma SliceFillAgrees(n: nat, s: bytes)
    ensures FillLoop(Reader(s, []), n, 0) == (SliceFill(n, s).0, Reader(SliceFill(n, s).1, []))
  {
    if n > 0 && |s| > 0 {
      var k := Min(n, |s|);
      assert ReadOnce(Reader(s, []), n) == (Got(s[..k]), Reader(s[k..], []));
      if |s| < n {
        assert ReadOnce(Reader([], []), n - k) == (Got([]), Reader([], []));
      }
    }
  }

  /** A reader that is interrupted once and then fails: `fill` retries the
      interrupted read and returns the second error (the `test_some_io_err`
      case). */
  lemma InterruptedIsRetried()
    ensures FillLoop(Reader([], [Fail(Interrupted), Fail(Other)]), 1, 0)
            == (FillFailed(Io(Other)), Reader([], []))
  {
    var r1 := Reader([], [Fail(Other)]);
    assert ReadOnce(Reader([], [Fail(Interrupted), Fail(Other)]), 1) == (Failed(Interrupted), r1);
    assert ReadOnce(r1, 1) == (Failed(Other), Reader([], []));
  }

  // ---------------------------------------------------------------------
  // Fixed-size values read from a slice
  // ---------------------------------------------------------------------

  /** `<[u8; N]>::unpack` on a slice: `NoDataAvailable` when nothing could
      be read, `UnexpectedEof` when some but not all `n` bytes were there. */
  function DecodeArray(n: nat, s: bytes): (r: Parsed<bytes>)
    ensures r.Ok? <==> 0 < n <= |s|
    ensures r.Ok? ==> |r.value| == n && s == r.value + r.rest
    ensures r.Err? && r.error == NoDataAvailable <==> n == 0 || s == []
    ensures r.Err? && r.error == NoDataAvailable ==> r.rest == s
    ensures r.Err? && r.error != NoDataAvailable ==>
              r.error == Io(UnexpectedEof) && 0 < |s| < n && r.rest == []
  {
    match SliceFill(n, s)
    case (Filled, rest) => Ok(s[..n], rest)
    case (FillFailed(e), rest) => Err(e, rest)
  }

  /** `[u8; N]::pack`: the bytes as they are. */
  function EncodeArray(b: bytes): (r: bytes)
    ensures |r| == |b|
  {
    b
  }

  /** A fixed array of positive length reads back exactly, whatever follows it. */
  lemma ArrayRoundTrip(b: bytes, t: bytes)
    requires |b| > 0
    ensures DecodeArray(|b|, EncodeArray(b) + t) == Ok(b, t)
  {
    assert (b + t)[..|b|] == b;
    assert (b + t)[|b|..] == t;
  }

  /** A zero-length array never decodes: `fill` of an empty buffer reads
      nothing and reports `NoDataAvailable`. */
  lemma EmptyArrayNeverDecodes(s: bytes)
    ensures DecodeArray(0, s) == Err(NoDataAvailable, s)
  {
  }

  /** An unsigned little-endian integer `width` bytes wide. */
  function DecodeUInt(width: nat, s: bytes): (r: Parsed<nat>)
    ensures r.Ok? ==> r.value < Pow256(width) && s == ToLE(r.value, width) + r.rest
    ensures r.Ok? <==> DecodeArray(width, s).Ok?
  {
    match DecodeArray(width, s)
    case Ok(b, rest) =>
      ToFromLE(b);
      Ok(FromLE(b), rest)
    case Err(e, rest) => Err(e, rest)
  }

  lemma UIntRoundTrip(v: nat, width: nat, t: bytes)
    requires 0 < width && v < Pow256(width)
    ensures DecodeUInt(width, ToLE(v, width) + t) == Ok(v, t)
  {
    ArrayRoundTrip(ToLE(v, width), t);
    FromToLE(v, width);
  }

  function EncodeU8(v: byte): (r: bytes)
    ensures |r| == 1 && r[0] == v
  {
    [v]
  }

  function DecodeU8(s: bytes): (r: Parsed<byte>)
    ensures r.Ok? <==> |s| >= 1
    ensures r.Ok? ==> r.value == s[0] && r.rest == s[1..]
    ensures r.Err? ==> r == Err(NoDataAvailable, [])
  {
    match DecodeUInt(1, s)
    case Ok(v, rest) =>
      assert s[..1] == ToLE(v, 1);
      Ok(v, rest)
    case Err(e, rest) => Err(e, rest)
  }

  function EncodeU16(v: u16): (r: bytes)
    ensures |r| == 2 && r == [v % 256, v / 256]
  {
    U16LE(v)
  }

  function DecodeU16(s: bytes): (r: Parsed<u16>)
    ensures r.Ok? <==> |s| >= 2
    ensures r.Ok? ==> s == EncodeU16(r.value) + r.rest
    ensures r.Err? ==> r.rest == [] && (r.error == NoDataAvailable <==> s == [])
    ensures r.Err? && r.error != NoDataAvailable ==> r.error == Io(UnexpectedEof) && |s| == 1
  {
    assert Pow256(2) == 0x1_0000;
    match DecodeUInt(2, s)
    case Ok(v, rest) => Ok(v, rest)
    case Err(e, rest) => Err(e, rest)
  }

  lemma U16RoundTrip(v: u16, t: bytes)
    ensures DecodeU16(EncodeU16(v) + t) == Ok(v, t)
  {
    assert Pow256(2) == 0x1_0000;
    UIntRoundTrip(v, 2, t);
  }

  function EncodeU32(v: u32): (r: bytes)
    ensures |r| == 4 && FromLE(r) == v
  {
    U32LE(v)
  }

  function DecodeU32(s: bytes): (r: Parsed<u32>)
    ensures r.Ok? <==> |s| >= 4
    ensures r.Ok? ==> s == EncodeU32(r.value) + r.rest
  {
    assert Pow256(4) == 0x1_0000_0000;
    match DecodeUInt(4, s)
    case Ok(v, rest) => Ok(v, rest)
    case Err(e, rest) => Err(e, rest)
  }

  lemma U32RoundTrip(v: u32, t: bytes)
    ensures DecodeU32(EncodeU32(v) + t) == Ok(v, t)
  {
    assert Pow256(4) == 0x1_0000_0000;
    UIntRoundTrip(v, 4, t);
  }

  function EncodeU128(v: u128): (r: bytes)
    ensures |r| == 16 && FromLE(r) == v
  {
    U128LE(v)
  }

  function DecodeU128(s: bytes): (r: Parsed<u128>)
    ensures r.Ok? <==> |s| >= 16
    ensures r.Ok? ==> s == EncodeU128(r.value) + r.rest
  {
    Pow256Sum(8, 8);
    assert Pow256(8) == 0x1_0000_0000_0000_0000;
    match DecodeUInt(16, s)
    case Ok(v, rest) => Ok(v, rest)
    case Err(e, rest) => Err(e, rest)
  }

  lemma U128RoundTrip(v: u128, t: bytes)
    ensures DecodeU128(EncodeU128(v) + t) == Ok(v, t)
  {
    Pow256Sum(8, 8);
    assert Pow256(8) == 0x1_0000_0000_0000_0000;
    UIntRoundTrip(v, 16, t);
  }

  /** The unit tests' fixed-width vectors. */
  lemma IntegerExamples()
    ensures EncodeU16(0x00FF) == [0xFF, 0x00]
    ensures EncodeU32(0x00FF_FFFF) == [0xFF, 0xFF, 0xFF, 0x00]
  {
    var w := EncodeU32(0x00FF_FFFF);
    ToFromLE(w);
    assert Pow256(4) == 0x1_0000_0000;
    assert ToLE(0x00FF_FFFF, 4) == [0xFF, 0xFF, 0xFF, 0x00];
  }

  /** `bool::pack`: one byte, 1 for true and 0 for false. */
  function EncodeBool(b: bool): (r: bytes)
    ensures |r| == 1 && (r[0] == 1 <==> b) && (r[0] == 0 <==> !b)
  {
    if b then [1] else [0]
  }

  /** `bool::unpack`: any non-zero byte is true. */
  function DecodeBool(s: bytes): (r: Parsed<bool>)
    ensures r.Ok? <==> |s| >= 1
    ensures r.Ok? ==> (r.value <==> s[0] != 0) && r.rest == s[1..]
    ensures r.Err? ==> r.error == NoDataAvailable
  {
    match DecodeU8(s)
    case Ok(v, rest) => Ok(v != 0, rest)
    case Err(e, rest) => Err(e, rest)
  }

  lemma BoolRoundTrip(b: bool, t: bytes)
    ensures DecodeBool(EncodeBool(b) + t) == Ok(b, t)
  {
    assert (EncodeBool(b) + t)[1..] == t;
  }

  /** `()`: nothing on the wire. */
  function EncodeUnit(): (r: bytes)
    ensures r == []
  {
    []
  }

  function DecodeUnit(s: bytes): (r: Parsed<()>)
    ensures r == Ok((), s)
  {
    Ok((), s)
  }

  // ---------------------------------------------------------------------
  // Addresses: an opaque 6-byte value, wire order
  // ---------------------------------------------------------------------

  type Address = s: bytes | |s| == 6 witness [0, 0, 0, 0, 0, 0]

  function EncodeAddress(a: Address): (r: bytes)
    ensures |r| == 6
  {
    EncodeArray(a)
  }

  function DecodeAddress(s: bytes): (r: Parsed<Address>)
    ensures r.Ok? <==> |s| >= 6
    ensures r.Ok? ==> s == EncodeAddress(r.value) + r.rest
  {
    match DecodeArray(6, s)
    case Ok(b, rest) =>
      var a: Address := b;
      Ok(a, rest)
    case Err(e, rest) => Err(e, rest)
  }

  lemma AddressRoundTrip(a: Address, t: bytes)
    ensures DecodeAddress(EncodeAddress(a) + t) == Ok(a, t)
  {
    ArrayRoundTrip(a, t);
  }

  // ---------------------------------------------------------------------
  // Generic combinators: Option, Box<[u8]>, tuples, Vec
  // ---------------------------------------------------------------------

  /** `dec` reads back what `enc` wrote for `v`, leaving the suffix `t`. */
  ghost predicate RoundTripAt<T>(enc: T -> bytes, dec: bytes -> Parsed<T>, v: T, t: bytes)
  {
    dec(enc(v) + t) == Ok(v, t)
  }

  /** `dec` inverts `enc` whatever follows the encoding: the encoding is
      self-delimiting. */
  ghost predicate Inverse<T(!new)>(enc: T -> bytes, dec: bytes -> Parsed<T>)
  {
    forall v: T, t: bytes :: RoundTripAt(enc, dec, v, t)
  }

  /** `Option<T>::pack`: `None` writes nothing, `Some(v)` writes `v`. */
  function EncodeOption<T>(enc: T -> bytes, o: Option<T>): (r: bytes)
    ensures o.None? ==> r == []
    ensures o.Some? ==> r == enc(o.value)
  {
    match o
    case None => []
    case Some(v) => enc(v)
  }

  /** `Option<T>::unpack`: `None` exactly when the inner decode reports
      `NoDataAvailable`; any other error is passed on. */
  function DecodeOption<T>(dec: bytes -> Parsed<T>, s: bytes): (r: Parsed<Option<T>>)
    ensures r.rest == dec(s).rest
    ensures r.Ok? && r.value.None? <==> dec(s).Err? && dec(s).error == NoDataAvailable
    ensures r.Ok? && r.value.Some? <==> dec(s).Ok?
    ensures r.Ok? && r.value.Some? ==> r.value.value == dec(s).value
    ensures r.Err? ==> dec(s).Err? && r.error == dec(s).error && r.error != NoDataAvailable
  {
    match dec(s)
    case Ok(v, rest) => Ok(Some(v), rest)
    case Err(e, rest) =>
      if e == NoDataAvailable then Ok(None, rest) else Err(e, rest)
  }

  lemma OptionSomeRoundTrip<T>(enc: T -> bytes, dec: bytes -> Parsed<T>, v: T, t: bytes)
    requires RoundTripAt(enc, dec, v, t)
    ensures DecodeOption(dec, EncodeOption(enc, Some(v)) + t) == Ok(Some(v), t)
  {
  }

  /** `None` reads back only at the end of the input, and only when the
      inner decoder reports `NoDataAvailable` there. */
  lemma OptionNoneRoundTrip<T>(enc: T -> bytes, dec: bytes -> Parsed<T>)
    requires dec([]) == Err(NoDataAvailable, [])
    ensures DecodeOption(dec, EncodeOption(enc, None)) == Ok(None, [])
  {
  }

  /** `None` cannot be followed by anything: the next bytes are taken for
      the inner value. With `u8` inside, `None` then `[7]` reads `Some(7)`. */
  lemma OptionNoneNotDelimited()
    ensures DecodeOption(DecodeU8, EncodeOption(EncodeU8, None) + [7]) == Ok(Some(7), [])
  {
  }

  /** `Box<[u8]>::pack`: the bytes with no length prefix. */
  function EncodeRaw(b: bytes): (r: bytes)
    ensures |r| == |b|
  {
    b
  }

  /** `Box<[u8]>::unpack`: `read_to_end`, which never fails on a slice. */
  function DecodeRaw(s: bytes): (r: Parsed<bytes>)
    ensures r.Ok? && r.rest == []
  {
    Ok(s, [])
  }

  /** A blob reads back only when nothing follows it: whatever follows
      becomes part of the blob. */
  lemma RawAbsorbsSuffix(b: bytes, t: bytes)
    ensures DecodeRaw(EncodeRaw(b) + t) == Ok(b + t, [])
    ensures DecodeRaw(EncodeRaw(b)) == Ok(b, [])
  {
  }

  function EncodePair<A, B>(encA: A -> bytes, encB: B -> bytes, p: (A, B)): (r: bytes)
    ensures r == encA(p.0) + encB(p.1)
  {
    encA(p.0) + encB(p.1)
  }

  /** `(P1, P2)::unpack`: the components in order, the first failure
      aborting the decode. */
  function DecodePair<A, B>(decA: bytes -> Parsed<A>, decB: bytes -> Parsed<B>, s: bytes): (r: Parsed<(A, B)>)
    ensures r.Ok? <==> decA(s).Ok? && decB(decA(s).rest).Ok?
    ensures r.Ok? ==> r.value == (decA(s).value, decB(decA(s).rest).value)
                      && r.rest == decB(decA(s).rest).rest
    ensures decA(s).Err? ==> r == Err(decA(s).error, decA(s).rest)
  {
    match decA(s)
    case Err(e, rest) => Err(e, rest)
    case Ok(a, rest) =>
      match decB(rest)
      case Err(e, rest2) => Err(e, rest2)
      case Ok(b, rest2) => Ok((a, b), rest2)
  }

  lemma PairRoundTrip<A, B>(encA: A -> bytes, decA: bytes -> Parsed<A>,
                            encB: B -> bytes, decB: bytes -> Parsed<B>, p: (A, B), t: bytes)
    requires RoundTripAt(encA, decA, p.0, encB(p.1) + t)
    requires RoundTripAt(encB, decB, p.1, t)
    ensures DecodePair(decA, decB, EncodePair(encA, encB, p) + t) == Ok(p, t)
  {
    assert EncodePair(encA, encB, p) + t == encA(p.0) + (encB(p.1) + t);
  }

  function EncodeTriple<A, B, C>(encA: A -> bytes, encB: B -> bytes, encC: C -> bytes, p: (A, B, C)): (r: bytes)
    ensures r == encA(p.0) + encB(p.1) + encC(p.2)
  {
    encA(p.0) + encB(p.1) + encC(p.2)
  }

  function DecodeTriple<A, B, C>(decA: bytes -> Parsed<A>, decB: bytes -> Parsed<B>,
                                 decC: bytes -> Parsed<C>, s: bytes): (r: Parsed<(A, B, C)>)
    ensures r.Ok? <==> decA(s).Ok? && decB(decA(s).rest).Ok? && decC(decB(decA(s).rest).rest).Ok?
    ensures r.Ok? ==> r.value == (decA(s).value, decB(decA(s).rest).value, decC(decB(decA(s).rest).rest).value)
                      && r.rest == decC(decB(decA(s).rest).rest).rest
    ensures decA(s).Err? ==> r == Err(decA(s).error, decA(s).rest)
    ensures decA(s).Ok? && decB(decA(s).rest).Err? ==>
              r == Err(decB(decA(s).rest).error, decB(decA(s).rest).rest)
    ensures decA(s).Ok? && decB(decA(s).rest).Ok? && decC(decB(decA(s).rest).rest).Err? ==>
              r == Err(decC(decB(decA(s).rest).rest).error, decC(decB(decA(s).rest).rest).rest)
  {
    match decA(s)
    case Err(e, rest) => Err(e, rest)
    case Ok(a, rest) =>
      match decB(rest)
      case Err(e, rest2) => Err(e, rest2)
      case Ok(b, rest2) =>
        match decC(rest2)
        case Err(e, rest3) => Err(e, rest3)
        case Ok(c, rest3) => Ok((a, b, c), rest3)
  }

  lemma TripleRoundTrip<A, B, C>(encA: A -> bytes, decA: bytes -> Parsed<A>,
                                 encB: B -> bytes, decB: bytes -> Parsed<B>,
                                 encC: C -> bytes, decC: bytes -> Parsed<C>, p: (A, B, C), t: bytes)
    requires RoundTripAt(encA, decA, p.0, encB(p.1) + encC(p.2) + t)
    requires RoundTripAt(encB, decB, p.1, encC(p.2) + t)
    requires RoundTripAt(encC, decC, p.2, t)
    ensures DecodeTriple(decA, decB, decC, EncodeTriple(encA, encB, encC, p) + t) == Ok(p, t)
  {
    assert EncodeTriple(encA, encB, encC, p) + t == encA(p.0) + (encB(p.1) + encC(p.2) + t);
    assert encB(p.1) + encC(p.2) + t == encB(p.1) + (encC(p.2) + t);
  }

  /** The items of a sequence, encoded one after the other. */
  function EncodeAll<T>(enc: T -> bytes, xs: seq<T>): (r: bytes)
    decreases |xs|
  {
    if |xs| == 0 then [] else enc(xs[0]) + EncodeAll(enc, xs[1..])
  }

  lemma {:induction false} EncodeAllAppend<T>(enc: T -> bytes, xs: seq<T>, ys: seq<T>)
    ensures EncodeAll(enc, xs + ys) == EncodeAll(enc, xs) + EncodeAll(enc, ys)
    decreases |xs|
  {
    if |xs| == 0 {
      assert xs + ys == ys;
    } else {
      assert (xs + ys)[1..] == xs[1..] + ys;
      EncodeAllAppend(enc, xs[1..], ys);
    }
  }

  /** Reads exactly `count` items one after the other; the first failing
      item aborts the decode (`collect::<Result<_, _>>()`). */
  function DecodeItems<T>(dec: bytes -> Parsed<T>, count: nat, s: bytes): (r: Parsed<seq<T>>)
    ensures r.Ok? ==> |r.value| == count
    ensures count == 0 ==> r == Ok([], s)
    decreases count
  {
    if count == 0 then Ok([], s)
    else
      match dec(s)
      case Err(e, rest) => Err(e, rest)
      case Ok(v, rest) =>
        match DecodeItems(dec, count - 1, rest)
        case Err(e, rest2) => Err(e, rest2)
        case Ok(vs, rest2) => Ok([v] + vs, rest2)
  }

  lemma {:induction false} ItemsRoundTrip<T(!new)>(enc: T -> bytes, dec: bytes -> Parsed<T>, xs: seq<T>, t: bytes)
    requires Inverse(enc, dec)
    ensures DecodeItems(dec, |xs|, EncodeAll(enc, xs) + t) == Ok(xs, t)
    decreases |xs|
  {
    if |xs| > 0 {
      var tail := EncodeAll(enc, xs[1..]) + t;
      assert EncodeAll(enc, xs) + t == enc(xs[0]) + tail;
      assert RoundTripAt(enc, dec, xs[0], tail);
      ItemsRoundTrip(enc, dec, xs[1..], t);
      assert [xs[0]] + xs[1..] == xs;
    }
  }

  /** `Vec<T>::pack`: the item count as a u16 -- `len() as u16`, so the
      count wraps at 65536 -- then every item. */
  function EncodeVec<T>(enc: T -> bytes, xs: seq<T>): (r: bytes)
    ensures |r| >= 2 && r[..2] == EncodeU16(|xs| % 0x1_0000)
    ensures r[2..] == EncodeAll(enc, xs)
  {
    EncodeU16(|xs| % 0x1_0000) + EncodeAll(enc, xs)
  }

  /** `Vec<T>::unpack`: the u16 count, then exactly that many items. */
  function DecodeVec<T>(dec: bytes -> Parsed<T>, s: bytes): (r: Parsed<seq<T>>)
    ensures r.Ok? ==> |s| >= 2 && |r.value| == FromLE(s[..2])
    ensures |s| < 2 ==> r.Err?
  {
    match DecodeU16(s)
    case Err(e, rest) => Err(e, rest)
    case Ok(n, rest) =>
      assert s[..2] == EncodeU16(n);
      ToFromLE(s[..2]);
      assert Pow256(2) == 0x1_0000;
      FromToLE(n, 2);
      DecodeItems(dec, n, rest)
  }

  lemma VecRoundTrip<T(!new)>(enc: T -> bytes, dec: bytes -> Parsed<T>, xs: seq<T>, t: bytes)
    requires Inverse(enc, dec)
    requires |xs| < 0x1_0000
    ensures DecodeVec(dec, EncodeVec(enc, xs) + t) == Ok(xs, t)
  {
    var body := EncodeAll(enc, xs) + t;
    assert EncodeVec(enc, xs) + t == EncodeU16(|xs|) + body;
    U16RoundTrip(|xs|, body);
    ItemsRoundTrip(enc, dec, xs, t);
  }

  /** With 65536 items or more the count wraps: decoding stops after
      `|xs| % 65536` items and leaves the remaining items' bytes unread. */
  lemma VecCountWraps<T(!new)>(enc: T -> bytes, dec: bytes -> Parsed<T>, xs: seq<T>)
    requires Inverse(enc, dec)
    ensures var k := |xs| % 0x1_0000;
            DecodeVec(dec, EncodeVec(enc, xs)) == Ok(xs[..k], EncodeAll(enc, xs[k..]))
  {
    var k := |xs| % 0x1_0000;
    assert xs == xs[..k] + xs[k..];
    EncodeAllAppend(enc, xs[..k], xs[k..]);
    var body := EncodeAll(enc, xs);
    assert EncodeVec(enc, xs) == EncodeU16(k) + body;
    assert EncodeVec(enc, xs) == EncodeU16(k) + body + [];
    U16RoundTrip(k, body);
    ItemsRoundTrip(enc, dec, xs[..k], EncodeAll(enc, xs[k..]));
  }

  /** The unit tests' vector: `vec![2, 5]` of `u8` is `02 00 02 05`. */
  lemma VecExample()
    ensures EncodeVec(EncodeU8, [2, 5]) == [0x02, 0x00, 0x02, 0x05]
    ensures DecodeVec(DecodeU8, [0x02, 0x00, 0x02, 0x05]) == Ok([2, 5], [])
  {
    VecOfTwoBytes(2, 5);
  }

  /** A two-byte vector: the count 2 as a little-endian u16, then the
      bytes. */
  lemma VecOfTwoBytes(a: byte, b: byte)
    ensures EncodeVec(EncodeU8, [a, b]) == [0x02, 0x00, a, b]
    ensures DecodeVec(DecodeU8, [0x02, 0x00, a, b]) == Ok([a, b], [])
  {
    var xs: seq<byte> := [a, b];
    assert xs[1..] == [b];
    assert EncodeAll(EncodeU8, [b]) == [b];
    assert EncodeAll(EncodeU8, xs) == [a, b];
    var s: bytes := [0x02, 0x00, a, b];
    assert s == EncodeU16(2) + [a, b];
    U16RoundTrip(2, [a, b]);
    var r := [a, b];
    assert DecodeU8(r) == Ok(a, [b]);
    assert DecodeU8([b]) == Ok(b, []);
    assert DecodeItems(DecodeU8, 1, [b]) == Ok([b], []);
  }

  // ---------------------------------------------------------------------
  // Closed code sets: derived unit enums such as ErrorCode or EventCode
  // ---------------------------------------------------------------------

  /** The generated `unpack` of a unit-only enum whose discriminants are
      the values `known` accepts: an integer of the declared width, and
      `UnexpectedValue` carrying any other integer. */
  function DecodeKnown(width: nat, known: nat -> bool, s: bytes): (r: Parsed<nat>)
    ensures r.Ok? ==> known(r.value) && r.value < Pow256(width) && s == ToLE(r.value, width) + r.rest
    ensures r.Err? && r.error.UnexpectedValue? <==> DecodeUInt(width, s).Ok? && !known(DecodeUInt(width, s).value)
    ensures DecodeUInt(width, s).Err? ==> r == Err(DecodeUInt(width, s).error, DecodeUInt(width, s).rest)
  {
    match DecodeUInt(width, s)
    case Err(e, rest) => Err(e, rest)
    case Ok(v, rest) => if known(v) then Ok(v, rest) else Err(UnexpectedValue(v), rest)
  }

  lemma KnownRoundTrip(width: nat, known: nat -> bool, v: nat, t: bytes)
    requires 0 < width && v < Pow256(width) && known(v)
    ensures DecodeKnown(width, known, ToLE(v, width) + t) == Ok(v, t)
  {
    UIntRoundTrip(v, width, t);
  }
}
