/** The control-request wire format as pure data: what a sequence of accepted data
    blocks looks like on the wire, and what a byte-at-a-time reader makes of any
    wire prefix. `ControlPipe` proves the poll-based code against these. */
module RequestWire {
  import opened Bytes
  import opened Ordering

  const MAX_FRAME: nat := 65536

  ghost predicate IsFrame(f: seq<byte>) {
    0 < |f| <= MAX_FRAME
  }

  ghost predicate AreFrames(frames: seq<seq<byte>>) {
    forall i :: 0 <= i < |frames| ==> IsFrame(frames[i])
  }

  function EncodeFrame(f: seq<byte>): seq<byte>
    requires |f| <= MAX_FRAME
  {
    ToBe32(|f|) + f
  }

  /** The wire image of the data blocks, closed by the zero-length END block or not. */
  ghost function Encode(frames: seq<seq<byte>>, ended: bool): seq<byte>
    requires AreFrames(frames)
  {
    if frames == [] then if ended then ToBe32(0) else []
    else EncodeFrame(frames[0]) + Encode(frames[1..], ended)
  }

  /** A reader between bytes. `header` is the partial length field. */
  datatype ReaderState = ReaderState(header: seq<byte>, remaining: nat, ended: bool, delivered: seq<byte>)

  const INITIAL := ReaderState([], 0, false, [])

  ghost predicate Between(st: ReaderState) {
    |st.header| < 4 && (st.remaining > 0 ==> st.header == []) && (st.ended ==> st.remaining == 0 && st.header == [])
  }

  /** One more byte off the wire. */
  function Feed(st: ReaderState, b: byte): ReaderState {
    if st.ended then st
    else if st.remaining > 0 then st.(remaining := st.remaining - 1, delivered := st.delivered + [b])
    else
      var header := st.header + [b];
      if |header| != 4 then st.(header := header)
      else if FromBe32(header) == 0 then st.(header := [], ended := true)
      else st.(header := [], remaining := FromBe32(header))
  }

  function ScanFrom(st: ReaderState, bytes: seq<byte>): ReaderState
    decreases |bytes|
  {
    if bytes == [] then st else ScanFrom(Feed(st, bytes[0]), bytes[1..])
  }

  function Scan(bytes: seq<byte>): ReaderState {
    ScanFrom(INITIAL, bytes)
  }

  /** Fragmentation is invisible: reading a then b is reading a + b. */
  lemma {:induction false} ScanConcat(st: ReaderState, a: seq<byte>, b: seq<byte>)
    ensures ScanFrom(st, a + b) == ScanFrom(ScanFrom(st, a), b)
    decreases |a|
  {
    if a == [] {
      assert a + b == b;
    } else {
      assert (a + b)[1..] == a[1..] + b;
      ScanConcat(Feed(st, a[0]), a[1..], b);
    }
  }

  /** Bytes that stay inside the current data block are delivered as they are. */
  lemma {:induction false} ScanData(st: ReaderState, bytes: seq<byte>)
    requires !st.ended && |bytes| <= st.remaining
    ensures ScanFrom(st, bytes) ==
            st.(remaining := st.remaining - |bytes|, delivered := st.delivered + bytes)
    decreases |bytes|
  {
    if bytes == [] {
      assert st.delivered + bytes == st.delivered;
    } else {
      assert st.delivered + [bytes[0]] + bytes[1..] == st.delivered + bytes;
      ScanData(Feed(st, bytes[0]), bytes[1..]);
    }
  }

  /** Bytes that stay inside the length field are collected; the fourth one decides. */
  lemma {:induction false} ScanHeader(st: ReaderState, bytes: seq<byte>)
    requires !st.ended && st.remaining == 0 && |st.header| < 4 && |st.header + bytes| <= 4
    ensures |st.header + bytes| < 4 ==> ScanFrom(st, bytes) == st.(header := st.header + bytes)
    ensures |st.header + bytes| == 4 ==>
              var n := FromBe32(st.header + bytes);
              ScanFrom(st, bytes) == st.(header := [], remaining := n, ended := n == 0)
    decreases |bytes|
  {
    if bytes == [] {
      assert st.header + bytes == st.header;
    } else {
      assert st.header + [bytes[0]] + bytes[1..] == st.header + bytes;
      if |st.header| < 3 {
        ScanHeader(Feed(st, bytes[0]), bytes[1..]);
      } else {
        assert bytes[1..] == [];
      }
    }
  }

  /** The last of these bytes completed END. */
  ghost predicate EndsThere(bytes: seq<byte>) {
    bytes != [] && Scan(bytes).ended && !Scan(bytes[..|bytes| - 1]).ended
  }

  /** A length field that turns out to be END was completed by its last byte. */
  lemma EndIsLast(read: seq<byte>, bytes: seq<byte>)
    requires var st := Scan(read);
             !st.ended && st.remaining == 0 && |st.header| < 4 && |st.header + bytes| <= 4
    ensures Scan(read + bytes).ended ==> EndsThere(read + bytes)
  {
    ScanConcat(INITIAL, read, bytes);
    if bytes != [] {
      var all := bytes[..|bytes| - 1];
      assert (read + bytes)[..|read + bytes| - 1] == read + all;
      ScanConcat(INITIAL, read, all);
      ScanHeader(Scan(read), all);
    }
  }

  ghost function Ready(delivered: seq<byte>): ReaderState {
    ReaderState([], 0, false, delivered)
  }

  lemma ScanHeaderField(done: seq<byte>, n: nat)
    requires n < TWO_TO_THE_32
    ensures ScanFrom(Ready(done), ToBe32(n)) == Ready(done).(remaining := n, ended := n == 0)
  {
    assert [] + ToBe32(n) == ToBe32(n);
    ScanHeader(Ready(done), ToBe32(n));
  }

  lemma ScanPartialHeader(done: seq<byte>, w: seq<byte>)
    requires |w| < 4
    ensures ScanFrom(Ready(done), w) == Ready(done).(header := w)
  {
    assert [] + w == w;
    ScanHeader(Ready(done), w);
  }

  lemma ScanPartialData(done: seq<byte>, f: seq<byte>, part: seq<byte>)
    requires IsFrame(f) && part <= f
    ensures ScanFrom(Ready(done), ToBe32(|f|) + part) ==
            ReaderState([], |f| - |part|, false, done + part)
  {
    ScanConcat(Ready(done), ToBe32(|f|), part);
    ScanHeaderField(done, |f|);
    ScanData(Ready(done).(remaining := |f|), part);
  }

  lemma ScanFrame(done: seq<byte>, f: seq<byte>)
    requires IsFrame(f)
    ensures ScanFrom(Ready(done), EncodeFrame(f)) == Ready(done + f)
  {
    ScanPartialData(done, f, f);
  }

  lemma PrefixSplits(h: seq<byte>, f: seq<byte>, w: seq<byte>)
    requires w <= h + f && |h| <= |w|
    ensures w == h + f[..|w| - |h|]
  {
    assert w == (h + f)[..|w|];
  }

  /** A reader that holds the first `n` bytes of a block after `done`. */
  ghost predicate Holds(st: ReaderState, done: seq<byte>, f: seq<byte>, n: nat) {
    n <= |f| && !st.ended && st.remaining <= |f| && st.delivered == done + f[..n]
  }

  lemma HoldsWithin(st: ReaderState, done: seq<byte>, f: seq<byte>, n: nat)
    requires IsFrame(f) && Holds(st, done, f, n)
    ensures done <= st.delivered <= done + f && st.remaining <= MAX_FRAME && !st.ended
  {
  }

  lemma PartialFrameHolds(done: seq<byte>, f: seq<byte>, w: seq<byte>)
    requires IsFrame(f) && w <= EncodeFrame(f) && |w| < |EncodeFrame(f)|
    ensures Holds(ScanFrom(Ready(done), w), done, f, if |w| < 4 then 0 else |w| - 4)
  {
    if |w| < 4 {
      ScanPartialHeader(done, w);
      assert done + f[..0] == done;
    } else {
      PrefixSplits(ToBe32(|f|), f, w);
      ScanPartialData(done, f, f[..|w| - 4]);
    }
  }

  /** Scanning a proper prefix of one encoded block. */
  lemma ScanPartialFrame(done: seq<byte>, f: seq<byte>, w: seq<byte>)
    requires IsFrame(f) && w <= EncodeFrame(f) && |w| < |EncodeFrame(f)|
    ensures var st := ScanFrom(Ready(done), w);
            done <= st.delivered <= done + f && st.remaining <= MAX_FRAME && !st.ended
  {
    PartialFrameHolds(done, f, w);
    HoldsWithin(ScanFrom(Ready(done), w), done, f, if |w| < 4 then 0 else |w| - 4);
  }

  /** Any prefix of any well-formed wire: the reader has a prefix of the data, never sees an
      oversized block, and is at END exactly when the whole closed wire has been read. */
  lemma {:induction false} ScanPrefix(done: seq<byte>, frames: seq<seq<byte>>, ended: bool, w: seq<byte>)
    requires AreFrames(frames) && w <= Encode(frames, ended)
    ensures var st := ScanFrom(Ready(done), w);
            && done <= st.delivered <= done + Flatten(frames)
            && st.remaining <= MAX_FRAME
            && (st.ended <==> ended && w == Encode(frames, ended))
            && (w == Encode(frames, ended) ==> st.delivered == done + Flatten(frames))
    decreases |frames|
  {
    if frames == [] {
      assert Flatten(frames) == [] && done + [] == done;
      if ended {
        assert [] + w == w;
        assert |w| == 4 ==> w == ToBe32(0);
        ScanHeader(Ready(done), w);
      } else {
        assert w == [];
      }
    } else {
      var f, rest := frames[0], frames[1..];
      var e := EncodeFrame(f);
      assert done + Flatten(frames) == (done + f) + Flatten(rest);
      assert Encode(frames, ended) == e + Encode(rest, ended);
      if |w| < |e| {
        assert w == (e + Encode(rest, ended))[..|w|] == e[..|w|];
        ScanPartialFrame(done, f, w);
        assert done + f <= done + Flatten(frames);
      } else {
        var tail := w[|e|..];
        assert w == e + tail;
        assert tail == (e + Encode(rest, ended))[|e|..][..|tail|] == Encode(rest, ended)[..|tail|];
        ScanConcat(Ready(done), e, tail);
        ScanFrame(done, f);
        ScanPrefix(done + f, rest, ended, tail);
      }
    }
  }

  /** The reader's promise on any prefix of an encoder's output. */
  lemma EndToEnd(frames: seq<seq<byte>>, ended: bool, w: seq<byte>)
    requires AreFrames(frames) && w <= Encode(frames, ended)
    ensures Scan(w).delivered <= Flatten(frames)
    ensures Scan(w).remaining <= MAX_FRAME
    ensures Scan(w).ended <==> ended && w == Encode(frames, ended)
    ensures w == Encode(frames, ended) ==> Scan(w).delivered == Flatten(frames)
  {
    ScanPrefix([], frames, ended, w);
    assert [] + Flatten(frames) == Flatten(frames);
  }

  lemma {:induction false} EncodeAppend(frames: seq<seq<byte>>, f: seq<byte>)
    requires AreFrames(frames) && IsFrame(f)
    ensures AreFrames(frames + [f])
    ensures Encode(frames + [f], false) == Encode(frames, false) + EncodeFrame(f)
    ensures Flatten(frames + [f]) == Flatten(frames) + f
    decreases |frames|
  {
    if frames == [] {
      assert frames + [f] == [f] && [f][1..] == [];
      assert EncodeFrame(f) + [] == EncodeFrame(f) && f + [] == f;
    } else {
      assert (frames + [f])[1..] == frames[1..] + [f];
      EncodeAppend(frames[1..], f);
    }
  }

  lemma {:induction false} EncodeEnd(frames: seq<seq<byte>>)
    requires AreFrames(frames)
    ensures Encode(frames, true) == Encode(frames, false) + ToBe32(0)
    decreases |frames|
  {
    if frames != [] {
      EncodeEnd(frames[1..]);
    }
  }

  /** The wire is uniquely decodable: data blocks can be recovered only as one byte sequence. */
  lemma WireDeterminesData(a: seq<seq<byte>>, b: seq<seq<byte>>, endA: bool, endB: bool)
    requires AreFrames(a) && AreFrames(b) && Encode(a, endA) == Encode(b, endB)
    ensures Flatten(a) == Flatten(b) && endA == endB
  {
    EndToEnd(a, endA, Encode(a, endA));
    EndToEnd(b, endB, Encode(b, endB));
  }
}
