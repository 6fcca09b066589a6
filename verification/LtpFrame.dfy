/** LTP frames: a fixed prefix, length-prefixed metadata and a length-prefixed payload. The
    metadata codec is a parameter; only its own round-trip law is used. */
module LtpFrame {
  import opened Bytes

  const MAGIC: seq<byte> := [76, 84, 80, 0]
  const VERSION: byte := 1
  const PREFIX_SIZE: nat := 9
  const MAX_META_LEN: nat := 64 * 1024
  const MAX_PAYLOAD_LEN: nat := 16 * 1024 * 1024

  datatype FrameError =
    | BadMagic
    | Version(version: byte)
    | MetaTooLarge(len: nat)
    | PayloadTooLarge(len: nat)
    | Truncated
    | Trailing
    | MetaDecode

  datatype Result<+T> = Ok(value: T) | Err(error: FrameError)

  /** The wire image of raw metadata and payload. */
  function Frame(meta: seq<byte>, payload: seq<byte>): seq<byte>
    requires |meta| <= MAX_META_LEN && |payload| <= MAX_PAYLOAD_LEN
  {
    MAGIC + [VERSION] + ToBe32(|meta|) + meta + ToBe32(|payload|) + payload
  }

  method EncodeFrame<M>(encode: M -> seq<byte>, meta: M, payload: seq<byte>) returns (r: Result<seq<byte>>)
    ensures r.Ok? <==> |encode(meta)| <= MAX_META_LEN && |payload| <= MAX_PAYLOAD_LEN
    ensures r.Ok? ==> r.value == Frame(encode(meta), payload)
    ensures r.Err? ==> r.error == if |encode(meta)| > MAX_META_LEN then MetaTooLarge(|encode(meta)|) else PayloadTooLarge(|payload|)
  {
    var metaLen := |encode(meta)|;
    if metaLen > MAX_META_LEN {
      return Err(MetaTooLarge(metaLen));
    }
    if |payload| > MAX_PAYLOAD_LEN {
      return Err(PayloadTooLarge(|payload|));
    }
    var frame := MAGIC;
    frame := frame + [VERSION];
    frame := frame + ToBe32(metaLen);
    frame := frame + encode(meta);
    frame := frame + ToBe32(|payload|);
    frame := frame + payload;
    return Ok(frame);
  }

  function DecodeFrame<M>(decode: seq<byte> -> Option<M>, frame: seq<byte>): Result<(M, seq<byte>)> {
    if |frame| < |MAGIC| then Err(Truncated)
    else if frame[..|MAGIC|] != MAGIC then Err(BadMagic)
    else if |frame| < |MAGIC| + 1 then Err(Truncated)
    else if frame[|MAGIC|] != VERSION then Err(Version(frame[|MAGIC|]))
    else if |frame| < PREFIX_SIZE then Err(Truncated)
    else
      var metaLen := FromBe32(frame[|MAGIC| + 1..PREFIX_SIZE]);
      if metaLen > MAX_META_LEN then Err(MetaTooLarge(metaLen))
      else
        var metaEnd := PREFIX_SIZE + metaLen;
        if |frame| < metaEnd + 4 then Err(Truncated)
        else
          var payloadLen := FromBe32(frame[metaEnd..metaEnd + 4]);
          if payloadLen > MAX_PAYLOAD_LEN then Err(PayloadTooLarge(payloadLen))
          else if |frame| < metaEnd + 4 + payloadLen then Err(Truncated)
          else if |frame| > metaEnd + 4 + payloadLen then Err(Trailing)
          else match decode(frame[PREFIX_SIZE..metaEnd])
            case None => Err(MetaDecode)
            case Some(meta) => Ok((meta, frame[metaEnd + 4..]))
  }

  /** Where the parts of a frame, or of a longer buffer that starts with one, lie. */
  lemma Layout(meta: seq<byte>, payload: seq<byte>, rest: seq<byte>)
    requires |meta| <= MAX_META_LEN && |payload| <= MAX_PAYLOAD_LEN
    ensures var f := Frame(meta, payload) + rest; var e := PREFIX_SIZE + |meta|;
            && |Frame(meta, payload)| == e + 4 + |payload|
            && f[..4] == MAGIC && f[4] == VERSION
            && f[5..9] == ToBe32(|meta|) && f[9..e] == meta
            && f[e..e + 4] == ToBe32(|payload|) && f[e + 4..] == payload + rest
  {
    var a, b := MAGIC + [VERSION], ToBe32(|meta|);
    var c := ToBe32(|payload|);
    assert Frame(meta, payload) + rest == a + (b + (meta + (c + (payload + rest))));
    Slices(a, b, meta, c, payload + rest);
    assert a[..4] == MAGIC && a[4] == VERSION;
  }

  lemma Slices(a: seq<byte>, b: seq<byte>, c: seq<byte>, d: seq<byte>, e: seq<byte>)
    requires |a| == 5 && |b| == 4 && |d| == 4
    ensures var f := a + (b + (c + (d + e))); var n := 9 + |c|;
            f[..5] == a && f[..4] == a[..4] && f[4] == a[4] && f[5..9] == b && f[9..n] == c && f[n..n + 4] == d && f[n + 4..] == e
  {
  }

  /** Decoding an encoded frame returns its inputs; with bytes after it, it is Trailing. */
  lemma RoundTrip<M>(encode: M -> seq<byte>, decode: seq<byte> -> Option<M>, meta: M, payload: seq<byte>, rest: seq<byte>)
    requires |encode(meta)| <= MAX_META_LEN && |payload| <= MAX_PAYLOAD_LEN
    requires decode(encode(meta)) == Some(meta)
    ensures DecodeFrame(decode, Frame(encode(meta), payload) + rest) == if rest == [] then Ok((meta, payload)) else Err(Trailing)
  {
    Layout(encode(meta), payload, rest);
    assert payload + [] == payload;
  }

  /** Every proper prefix of a frame is Truncated. */
  lemma PrefixIsTruncated<M>(decode: seq<byte> -> Option<M>, meta: seq<byte>, payload: seq<byte>, n: nat)
    requires |meta| <= MAX_META_LEN && |payload| <= MAX_PAYLOAD_LEN && n < |Frame(meta, payload)|
    ensures DecodeFrame(decode, Frame(meta, payload)[..n]) == Err(Truncated)
  {
    var f := Frame(meta, payload);
    var p := f[..n];
    Layout(meta, payload, []);
    assert f + [] == f;
    if n >= 4 {
      assert p[..4] == f[..4];
    }
    if n >= 9 {
      assert p[5..9] == f[5..9];
    }
    var e := PREFIX_SIZE + |meta|;
    if n >= e + 4 {
      assert p[e..e + 4] == f[e..e + 4];
    }
  }

  /** An accepted buffer is exactly the frame of its own metadata bytes and payload. */
  lemma AcceptedIsFrame<M>(decode: seq<byte> -> Option<M>, frame: seq<byte>) returns (meta: seq<byte>)
    requires DecodeFrame(decode, frame).Ok?
    ensures var payload := DecodeFrame(decode, frame).value.1;
            && |meta| <= MAX_META_LEN && |payload| <= MAX_PAYLOAD_LEN
            && frame == Frame(meta, payload) && decode(meta) == Some(DecodeFrame(decode, frame).value.0)
  {
    var e := PREFIX_SIZE + FromBe32(frame[5..9]);
    meta := frame[9..e];
    var payload := frame[e + 4..];
    Be32Unique(frame[5..9]);
    Be32Unique(frame[e..e + 4]);
    assert frame == frame[..4] + [frame[4]] + frame[5..9] + frame[9..e] + frame[e..e + 4] + frame[e + 4..];
  }

  // ---- what each error says about the buffer

  ghost predicate HasHeader(b: seq<byte>, metaLen: nat) {
    metaLen < TWO_TO_THE_32 && MAGIC + [VERSION] + ToBe32(metaLen) <= b
  }

  /** The buffer names its payload length after all of its metadata. */
  ghost predicate HasMeta(b: seq<byte>, meta: seq<byte>, payloadLen: nat) {
    && |meta| <= MAX_META_LEN && payloadLen < TWO_TO_THE_32
    && MAGIC + [VERSION] + ToBe32(|meta|) + meta + ToBe32(payloadLen) <= b
  }

  ghost predicate StartsWithFrame(b: seq<byte>, meta: seq<byte>, payload: seq<byte>) {
    |meta| <= MAX_META_LEN && |payload| <= MAX_PAYLOAD_LEN && Frame(meta, payload) <= b
  }

  /** What is wrong with the buffer, for every error but `Truncated`. */
  ghost predicate Diagnosed<M(!new)>(decode: seq<byte> -> Option<M>, b: seq<byte>, e: FrameError) {
    match e
    case BadMagic => |b| >= |MAGIC| && !(MAGIC <= b)
    case Version(v) => v != VERSION && MAGIC + [v] <= b
    case MetaTooLarge(n) => n > MAX_META_LEN && HasHeader(b, n)
    case PayloadTooLarge(n) => n > MAX_PAYLOAD_LEN && exists meta :: HasMeta(b, meta, n)
    case Trailing => exists meta, payload :: StartsWithFrame(b, meta, payload) && Frame(meta, payload) != b
    case MetaDecode => exists meta, payload :: StartsWithFrame(b, meta, payload) && Frame(meta, payload) == b && decode(meta).None?
    case Truncated => false
  }

  lemma HeaderFound(b: seq<byte>)
    requires |b| >= PREFIX_SIZE && b[..|MAGIC|] == MAGIC && b[|MAGIC|] == VERSION
    ensures HasHeader(b, FromBe32(b[5..9]))
  {
    Be32Unique(b[5..9]);
    assert b[..9] == b[..4] + [b[4]] + b[5..9];
  }

  lemma HeaderIs(b: seq<byte>, metaLen: nat)
    requires HasHeader(b, metaLen)
    ensures |b| >= PREFIX_SIZE && b[..|MAGIC|] == MAGIC && b[|MAGIC|] == VERSION && FromBe32(b[5..9]) == metaLen
  {
    var h := MAGIC + [VERSION] + ToBe32(metaLen);
    assert b[..9] == h && b[..4] == h[..4] && b[4] == h[4] && b[5..9] == h[5..9];
  }

  lemma MetaFound(b: seq<byte>, e: nat) returns (meta: seq<byte>)
    requires |b| >= PREFIX_SIZE && b[..|MAGIC|] == MAGIC && b[|MAGIC|] == VERSION
    requires FromBe32(b[5..9]) <= MAX_META_LEN && e == PREFIX_SIZE + FromBe32(b[5..9]) && e + 4 <= |b|
    ensures meta == b[9..e] && HasMeta(b, meta, FromBe32(b[e..e + 4]))
  {
    meta := b[9..e];
    Be32Unique(b[5..9]);
    Be32Unique(b[e..e + 4]);
    assert b[..e + 4] == b[..4] + [b[4]] + b[5..9] + b[9..e] + b[e..e + 4];
  }

  lemma MetaIs(b: seq<byte>, meta: seq<byte>, payloadLen: nat)
    requires HasMeta(b, meta, payloadLen)
    ensures var e := PREFIX_SIZE + |meta|;
            HasHeader(b, |meta|) && e + 4 <= |b| && b[9..e] == meta && FromBe32(b[e..e + 4]) == payloadLen
  {
    var h := MAGIC + [VERSION] + ToBe32(|meta|) + meta + ToBe32(payloadLen);
    var e := PREFIX_SIZE + |meta|;
    assert b[..e + 4] == h;
    assert b[..9] == h[..9] == MAGIC + [VERSION] + ToBe32(|meta|);
    assert b[9..e] == h[9..e] && b[e..e + 4] == h[e..e + 4];
  }

  lemma FrameFound(b: seq<byte>, meta: seq<byte>, n: nat) returns (payload: seq<byte>)
    requires HasMeta(b, meta, n) && n <= MAX_PAYLOAD_LEN && PREFIX_SIZE + |meta| + 4 + n <= |b|
    ensures StartsWithFrame(b, meta, payload) && |payload| == n
  {
    var e := PREFIX_SIZE + |meta| + 4;
    payload := b[e..e + n];
    assert b[..e + n] == b[..e] + payload == Frame(meta, payload);
  }

  lemma FrameIs(b: seq<byte>, meta: seq<byte>, payload: seq<byte>)
    requires StartsWithFrame(b, meta, payload)
    ensures HasMeta(b, meta, |payload|) && |Frame(meta, payload)| == PREFIX_SIZE + |meta| + 4 + |payload| <= |b|
  {
    assert b[..|Frame(meta, payload)|] == Frame(meta, payload);
  }

  /** Each of these errors is returned exactly for the buffers it fits. */
  lemma ErrorIsDiagnosis<M(!new)>(decode: seq<byte> -> Option<M>, b: seq<byte>, e: FrameError)
    requires e != Truncated
    ensures DecodeFrame(decode, b) == Err(e) <==> Diagnosed(decode, b, e)
  {
    if DecodeFrame(decode, b) == Err(e) {
      ErrorFits(decode, b, e);
    }
    if Diagnosed(decode, b, e) {
      FittingError(decode, b, e);
    }
  }

  lemma ErrorFits<M(!new)>(decode: seq<byte> -> Option<M>, b: seq<byte>, e: FrameError)
    requires e != Truncated && DecodeFrame(decode, b) == Err(e)
    ensures Diagnosed(decode, b, e)
  {
    if e.Version? {
      assert b[..5] == b[..4] + [e.version];
    } else if e.MetaTooLarge? {
      HeaderFound(b);
    } else if e.PayloadTooLarge? {
      var meta := MetaFound(b, PREFIX_SIZE + FromBe32(b[5..9]));
    } else if e.Trailing? || e.MetaDecode? {
      FrameErrorFits(decode, b, e);
    }
  }

  lemma FrameErrorFits<M(!new)>(decode: seq<byte> -> Option<M>, b: seq<byte>, e: FrameError)
    requires (e == Trailing || e == MetaDecode) && DecodeFrame(decode, b) == Err(e)
    ensures Diagnosed(decode, b, e)
  {
    var end := PREFIX_SIZE + FromBe32(b[5..9]);
    var meta := MetaFound(b, end);
    var payload := FrameFound(b, meta, FromBe32(b[end..end + 4]));
    FrameIs(b, meta, payload);
    assert |b| == |Frame(meta, payload)| ==> b == Frame(meta, payload);
  }

  lemma FittingError<M(!new)>(decode: seq<byte> -> Option<M>, b: seq<byte>, e: FrameError)
    requires Diagnosed(decode, b, e)
    ensures DecodeFrame(decode, b) == Err(e)
  {
    match e
    case BadMagic =>
    case Version(v) => assert b[..5] == MAGIC + [v] && b[..4] == b[..5][..4];
    case MetaTooLarge(n) => HeaderIs(b, n);
    case PayloadTooLarge(n) =>
      var meta :| HasMeta(b, meta, n);
      MetaIs(b, meta, n);
      HeaderIs(b, |meta|);
    case Trailing =>
      var meta, payload :| StartsWithFrame(b, meta, payload) && Frame(meta, payload) != b;
      DecodesStart(decode, b, meta, payload);
    case MetaDecode =>
      var meta, payload :| StartsWithFrame(b, meta, payload) && Frame(meta, payload) == b && decode(meta).None?;
      DecodesStart(decode, b, meta, payload);
  }

  /** What follows the first frame of a buffer, or its metadata, decides. */
  lemma DecodesStart<M>(decode: seq<byte> -> Option<M>, b: seq<byte>, meta: seq<byte>, payload: seq<byte>)
    requires StartsWithFrame(b, meta, payload)
    ensures Frame(meta, payload) != b ==> DecodeFrame(decode, b) == Err(Trailing)
    ensures Frame(meta, payload) == b && decode(meta).None? ==> DecodeFrame(decode, b) == Err(MetaDecode)
  {
    FrameIs(b, meta, payload);
    MetaIs(b, meta, |payload|);
    HeaderIs(b, |meta|);
    assert |b| == |Frame(meta, payload)| ==> b == Frame(meta, payload);
  }

  /** No accepted frame is a proper prefix of another: a stream of frames splits in one way. */
  lemma PrefixFree<M>(decode: seq<byte> -> Option<M>, a: seq<byte>, b: seq<byte>)
    requires DecodeFrame(decode, a).Ok? && DecodeFrame(decode, b).Ok? && a <= b
    ensures a == b
  {
    var meta := AcceptedIsFrame(decode, b);
    assert a == b[..|a|];
    if |a| < |b| {
      PrefixIsTruncated(decode, meta, DecodeFrame(decode, b).value.1, |a|);
    }
  }
}
