/** The poll-based `Writer` and `Reader` and the blocking `Client`, over a byte stream that
    may stall, fragment or fail at every call. Each step is proved to stay inside the wire
    format of `RequestWire`; `Converse` then runs any schedule of them end to end. */
module ControlPipe {
  import opened Bytes
  import opened Ordering
  import opened RequestWire

  datatype IoError = Inner | UnexpectedEof | InvalidData | WriteZero | BrokenPipe | Unsupported

  datatype Poll<+T> = Pending | Failed(error: IoError) | Done(value: T)

  datatype Unit = Unit

  /** One call on the stream: what was asked of it and what it answered. `unread` is how much
      there was to read. */
  datatype Event =
    | Wrote(asked: seq<byte>, count: Poll<nat>)
    | WroteAll(ok: bool)
    | Flushed(outcome: Poll<Unit>)
    | Gave(capacity: nat, unread: nat, bytes: Poll<seq<byte>>)

  /** The call neither failed nor stalled: a write or a read that could move bytes moved some. */
  ghost predicate Smooth(e: Event) {
    match e
    case Wrote(asked, count) => count.Done? && (asked != [] ==> count.value > 0)
    case WroteAll(ok) => ok
    case Flushed(outcome) => outcome.Done?
    case Gave(capacity, unread, bytes) => capacity > 0 && unread > 0 ==> bytes.Done? && bytes.value != []
  }

  /** How many calls there were, the last one, and whether all were smooth. */
  datatype Record = Record(calls: nat, last: Event, smooth: bool)

  ghost function Noted(r: Record, e: Event): Record {
    Record(r.calls + 1, e, r.smooth && Smooth(e))
  }

  ghost predicate Later(before: Record, after: Record) {
    before.calls <= after.calls && (after.smooth ==> before.smooth) && (before.calls == after.calls ==> after == before)
  }

  /** One direction of a pipe: everything written so far and how much of it was read. The
      outcome of each call is the environment's choice. */
  class Stream {
    var sent: seq<byte>
    var consumed: nat
    ghost var record: Record

    ghost predicate Valid()
      reads this
    {
      consumed <= |sent| && (record.smooth ==> Smooth(record.last))
    }

    ghost function Read(): seq<byte>
      requires Valid()
      reads this
    {
      sent[..consumed]
    }

    constructor ()
      ensures Valid() && sent == [] && consumed == 0 && record.smooth
    {
      sent, consumed := [], 0;
      record := Record(0, Flushed(Done(Unit)), true);
    }

    method PollWrite(bytes: seq<byte>) returns (r: Poll<nat>)
      requires Valid()
      modifies this`sent, this`record
      ensures Valid() && record == Noted(old(record), Wrote(bytes, r))
      ensures r.Failed? ==> r.error == Inner
      ensures r.Done? ==> r.value <= |bytes| && sent == old(sent) + bytes[..r.value]
      ensures !r.Done? ==> sent == old(sent)
    {
      if * {
        r := Pending;
      } else if * {
        r := Failed(Inner);
      } else {
        var count: nat :| count <= |bytes|;
        sent := sent + bytes[..count];
        r := Done(count);
      }
      record := Noted(record, Wrote(bytes, r));
    }

    method PollFlush() returns (r: Poll<Unit>)
      requires Valid()
      modifies this`record
      ensures Valid() && record == Noted(old(record), Flushed(r))
      ensures r.Failed? ==> r.error == Inner
    {
      if * {
        r := Pending;
      } else if * {
        r := Failed(Inner);
      } else {
        r := Done(Unit);
      }
      record := Noted(record, Flushed(r));
    }

    /** `write_all`: an error leaves part of the bytes on the wire. */
    method WriteAll(bytes: seq<byte>) returns (ok: bool)
      requires Valid()
      modifies this`sent, this`record
      ensures Valid() && record == Noted(old(record), WroteAll(ok))
      ensures ok ==> sent == old(sent) + bytes
      ensures !ok ==> exists k :: 0 <= k < |bytes| && sent == old(sent) + bytes[..k]
    {
      ok := *;
      if bytes == [] || ok {
        ok, sent := true, sent + bytes;
      } else {
        var k :| 0 <= k < |bytes|;
        sent := sent + bytes[..k];
      }
      record := Noted(record, WroteAll(ok));
    }

    /** No bytes means the physical end of the stream. */
    method PollRead(capacity: nat) returns (r: Poll<seq<byte>>)
      requires Valid()
      modifies this`consumed, this`record
      ensures Valid() && record == Noted(old(record), Gave(capacity, |sent| - old(consumed), r))
      ensures r.Done? ==> |r.value| <= capacity && consumed == old(consumed) + |r.value|
      ensures r.Done? ==> r.value == sent[old(consumed)..consumed] && Read() == old(Read()) + r.value
      ensures !r.Done? ==> consumed == old(consumed)
      ensures r.Failed? ==> r.error == Inner
    {
      if * {
        r := Pending;
      } else if * {
        r := Failed(Inner);
      } else {
        var count: nat :| count <= capacity && consumed + count <= |sent| by {
          assert 0 <= capacity && consumed + 0 <= |sent|;
        }
        r := Done(sent[consumed..consumed + count]);
        consumed := consumed + count;
      }
      record := Noted(record, Gave(capacity, |sent| - old(consumed), r));
    }
  }

  /** What one write call can take: the longest prefix that fits one frame. */
  function FirstBlock(bytes: seq<byte>): seq<byte> {
    bytes[..if |bytes| < MAX_FRAME then |bytes| else MAX_FRAME]
  }

  /** No longer prefix of the bytes fits into one frame. */
  lemma FirstBlockIsLongest(bytes: seq<byte>, block: seq<byte>)
    requires block <= bytes && |block| <= 65536
    ensures block <= FirstBlock(bytes) <= bytes && |FirstBlock(bytes)| <= 65536
  {
  }

  /** Moving bytes from the buffer to the wire changes neither. */
  lemma Transfer(sent: seq<byte>, pending: seq<byte>, offset: nat, count: nat)
    requires offset + count <= |pending|
    ensures sent + pending[offset..] == sent + pending[offset..][..count] + pending[offset + count..]
    ensures count == 0 ==> sent + pending[offset..][..count] == sent
  {
    assert pending[offset..] == pending[offset..][..count] + pending[offset + count..];
  }

  /** A write-side call that did not complete ended with the answer of an inner call it made. */
  ghost predicate Stopped<T>(r: Poll<T>, before: Record, after: Record) {
    before.calls < after.calls &&
    match after.last
    case Wrote(asked, count) =>
      || (count == Pending && r == Pending)
      || (count == Failed(Inner) && r == Failed(Inner))
      || (count == Done(0) && asked != [] && r == Failed(WriteZero))
    case Flushed(outcome) => (outcome == Pending && r == Pending) || (outcome == Failed(Inner) && r == Failed(Inner))
    case _ => false
  }

  /** `request::Writer`: one buffered frame, resumed from `offset`. */
  class Writer {
    const inner: Stream
    var pending: seq<byte>
    var offset: nat
    var ended: bool
    ghost var frames: seq<seq<byte>>

    ghost predicate Valid()
      reads this, inner
    {
      && inner.Valid()
      && offset <= |pending| <= MAX_FRAME + 4
      && AreFrames(frames)
      && inner.sent + pending[offset..] == Encode(frames, ended)
    }

    constructor (inner: Stream)
      requires inner.Valid() && inner.sent == []
      ensures Valid() && this.inner == inner && frames == [] && !ended
    {
      this.inner := inner;
      pending, offset, ended, frames := [], 0, false, [];
    }

    method Drain() returns (r: Poll<Unit>)
      requires Valid()
      modifies this`pending, this`offset, inner`sent, inner`record
      ensures Valid() && Later(old(inner.record), inner.record)
      ensures !r.Done? ==> Stopped(r, old(inner.record), inner.record) && inner.record.last.Wrote?
      ensures !r.Done? ==> pending == old(pending) && inner.record.last.asked == pending[offset..]
      ensures old(offset) == |old(pending)| ==> r.Done? && inner.record == old(inner.record)
      ensures old(inner.sent) <= inner.sent
      ensures r.Done? ==> pending == [] && offset == 0 && inner.sent == Encode(frames, ended)
    {
      ghost var image := inner.sent + pending[offset..];
      while offset < |pending|
        invariant inner.Valid() && offset <= |pending| && pending == old(pending)
        invariant old(inner.sent) <= inner.sent
        invariant inner.sent + pending[offset..] == image
        invariant Later(old(inner.record), inner.record)
        invariant old(offset) == |pending| ==> offset == old(offset) && inner.record == old(inner.record)
      {
        ghost var sent := inner.sent;
        var written := inner.PollWrite(pending[offset..]);
        match written
        case Pending => return Pending;
        case Failed(e) => return Failed(e);
        case Done(count) =>
          Transfer(sent, pending, offset, count);
          if count == 0 {
            return Failed(WriteZero);
          }
          offset := offset + count;
      }
      assert inner.sent + pending[offset..] == inner.sent;
      pending, offset := [], 0;
      return Done(Unit);
    }

    /** Put one frame into the empty buffer. */
    method Buffer(f: seq<byte>)
      requires Valid() && !ended && pending == [] && IsFrame(f)
      modifies this`pending, this`frames
      ensures Valid()
      ensures frames == old(frames) + [f]
    {
      EncodeAppend(frames, f);
      assert inner.sent + pending[offset..] == inner.sent;
      pending := pending + ToBe32(|f|);
      pending := pending + f;
      frames := frames + [f];
      assert pending[offset..] == EncodeFrame(f);
    }

    /** A completed call accepts exactly the longest allowed prefix of `bytes` as one frame. */
    method PollWrite(bytes: seq<byte>) returns (r: Poll<nat>)
      requires Valid()
      modifies this`pending, this`offset, this`frames, inner`sent, inner`record
      ensures Valid() && Later(old(inner.record), inner.record)
      ensures old(inner.sent) <= inner.sent
      ensures old(ended) ==> r == Failed(BrokenPipe) && inner.sent == old(inner.sent) && inner.record == old(inner.record)
      ensures !old(ended) && !r.Done? ==> Stopped(r, old(inner.record), inner.record) && inner.record.last.Wrote?
      ensures old(offset) == |old(pending)| ==> inner.record == old(inner.record)
      ensures r.Done? ==> inner.sent == Encode(old(frames), false)
      ensures r.Done? ==> r.value == |FirstBlock(bytes)|
      ensures frames == if r.Done? && bytes != [] then old(frames) + [FirstBlock(bytes)] else old(frames)
    {
      if ended {
        return Failed(BrokenPipe);
      }
      var drained := Drain();
      match drained
      case Pending => return Pending;
      case Failed(e) => return Failed(e);
      case Done(_) =>
        var count := if |bytes| < MAX_FRAME then |bytes| else MAX_FRAME;
        if count != 0 {
          Buffer(bytes[..count]);
        }
        return Done(count);
    }

    method PollFlush() returns (r: Poll<Unit>)
      requires Valid()
      modifies this`pending, this`offset, inner`sent, inner`record
      ensures Valid() && Later(old(inner.record), inner.record)
      ensures old(inner.sent) <= inner.sent
      ensures !r.Done? ==> Stopped(r, old(inner.record), inner.record)
      ensures r.Done? ==> inner.sent == Encode(frames, ended)
      ensures r.Done? ==> old(inner.record).calls < inner.record.calls && inner.record.last.Flushed?
    {
      r := Drain();
      if r.Done? {
        r := inner.PollFlush();
      }
    }

    /** END is encoded once, however often shutdown is retried. */
    method PollShutdown() returns (r: Poll<Unit>)
      requires Valid()
      modifies this`pending, this`offset, this`ended, inner`sent, inner`record
      ensures Valid() && Later(old(inner.record), inner.record)
      ensures old(inner.sent) <= inner.sent
      ensures old(ended) ==> ended
      ensures !r.Done? ==> Stopped(r, old(inner.record), inner.record)
      ensures r.Done? ==> ended && inner.sent == Encode(frames, true)
      ensures r.Done? ==> old(inner.record).calls < inner.record.calls && inner.record.last.Flushed?
    {
      r := Drain();
      if !r.Done? {
        return;
      }
      if !ended {
        EncodeEnd(frames);
        pending := pending + ToBe32(0);
        ended := true;
        assert pending[offset..] == ToBe32(0);
      }
      r := Drain();
      if r.Done? {
        r := inner.PollFlush();
      }
    }
  }

  /** What a read that looked at the stream makes of the last answer it got. */
  ghost predicate Answers(r: Poll<seq<byte>>, e: Event, ended: bool, remaining: nat) {
    e.Gave? && e.capacity > 0 &&
    match e.bytes
    case Pending => r == Pending
    case Failed(error) => r == Failed(error)
    case Done(bytes) =>
      if bytes == [] then r == Failed(UnexpectedEof)
      else r == Done(bytes) || (r == Done([]) && ended) || (r == Failed(InvalidData) && remaining > MAX_FRAME)
  }

  /** `request::Reader`: a partial header, a remaining count and an END flag. */
  class Reader {
    const inner: Stream
    const header: array<byte>
    var headerLen: nat
    var remaining: nat
    var ended: bool
    ghost var delivered: seq<byte>
    ghost var read: seq<byte> // every byte taken off the stream

    ghost function State(): ReaderState
      requires headerLen <= header.Length
      reads this, header
    {
      ReaderState(header[..headerLen], remaining, ended, delivered)
    }

    /** The fields are what scanning the consumed wire gives, whatever the chunks were, and
        nothing is consumed past END. */
    ghost predicate Valid()
      reads this, header, inner
    {
      && inner.Valid()
      && header.Length == 4
      && headerLen < 4
      && read == inner.Read()
      && State() == Scan(read)
      && Between(State())
      && (ended ==> EndsThere(read))
    }

    constructor (inner: Stream)
      requires inner.Valid() && inner.consumed == 0
      ensures Valid() && this.inner == inner && fresh(header) && delivered == []
    {
      this.inner := inner;
      header := new byte[4](_ => 0);
      headerLen, remaining, ended, delivered, read := 0, 0, false, [], [];
    }

    /** The inner read writes `bytes` into the unused part of the length field. */
    method AppendHeader(bytes: seq<byte>)
      requires headerLen + |bytes| <= header.Length
      modifies this`headerLen, header
      ensures headerLen == old(headerLen) + |bytes| <= header.Length
      ensures header[..headerLen] == old(header[..headerLen]) + bytes
    {
      forall i | 0 <= i < |bytes| {
        header[headerLen + i] := bytes[i];
      }
      headerLen := headerLen + |bytes|;
    }

    /** Read into the rest of the length field and, once it is complete, decode it. */
    method FillHeader() returns (r: Poll<nat>)
      requires Valid() && !ended && remaining == 0
      modifies this`headerLen, this`remaining, this`ended, this`read, header, inner`consumed, inner`record
      ensures Valid() && inner.record.calls > old(inner.record.calls) && Later(old(inner.record), inner.record)
      ensures inner.record.last.Gave? && inner.record.last.capacity == 4 - old(headerLen)
      ensures match inner.record.last.bytes
              case Pending => r == Pending
              case Failed(e) => r == Failed(e)
              case Done(bytes) => r == Done(|bytes|)
      ensures !r.Done? || r.value == 0 ==> inner.record.last.unread == |inner.sent| - inner.consumed
      ensures inner.consumed == old(inner.consumed) + if r.Done? then r.value else 0
      ensures !r.Done? || r.value == 0 ==> State() == old(State())
      ensures r.Failed? ==> r.error == Inner
    {
      var got := inner.PollRead(4 - headerLen);
      match got
      case Pending => return Pending;
      case Failed(e) => return Failed(e);
      case Done(bytes) =>
        ghost var st := State();
        ScanConcat(INITIAL, read, bytes);
        read := read + bytes;
        ScanHeader(st, bytes);
        EndIsLast(old(read), bytes);
        AppendHeader(bytes);
        if headerLen == 4 {
          assert header[..] == st.header + bytes;
          remaining, headerLen := FromBe32(header[..]), 0;
          ended := remaining == 0;
        }
        return Done(|bytes|);
    }

    /** Read from the current data block, no further than its end. */
    method ReadData(capacity: nat) returns (r: Poll<seq<byte>>)
      requires Valid() && !ended && remaining > 0 && capacity > 0
      modifies this`remaining, this`delivered, this`read, inner`consumed, inner`record
      ensures Valid() && inner.record.calls > old(inner.record.calls) && Later(old(inner.record), inner.record)
      ensures Answers(r, inner.record.last, false, 0)
      ensures inner.record.last.capacity == if capacity < old(remaining) then capacity else old(remaining)
      ensures !r.Done? ==> inner.record.last.unread == |inner.sent| - inner.consumed
      ensures remaining + (if r.Done? then |r.value| else 0) == old(remaining)
      ensures old(inner.consumed) <= inner.consumed
      ensures r.Done? ==> 0 < |r.value| <= capacity && delivered == old(delivered) + r.value
      ensures !r.Done? ==> delivered == old(delivered)
      ensures r != Failed(InvalidData)
    {
      ghost var st := State();
      var got := inner.PollRead(if capacity < remaining then capacity else remaining);
      match got
      case Pending => return Pending;
      case Failed(e) => return Failed(e);
      case Done(bytes) =>
        if bytes == [] {
          return Failed(UnexpectedEof);
        }
        ScanConcat(INITIAL, read, bytes);
        read := read + bytes;
        ScanData(st, bytes);
        delivered := delivered + bytes;
        remaining := remaining - |bytes|;
        return Done(bytes);
    }

    method PollRead(capacity: nat) returns (r: Poll<seq<byte>>)
      requires Valid()
      modifies this`headerLen, this`remaining, this`ended, this`delivered, this`read, header, inner`consumed, inner`record
      ensures Valid() && Later(old(inner.record), inner.record)
      ensures old(ended) || capacity == 0 ==> inner.record == old(inner.record)
      ensures !old(ended) && capacity > 0 ==> inner.record.calls > old(inner.record.calls)
      ensures !old(ended) && capacity > 0 ==> Answers(r, inner.record.last, ended, remaining)
      ensures r.Done? && r.value != [] ==>
                var asked := if capacity < remaining + |r.value| then capacity else remaining + |r.value|;
                inner.record.last.Gave? && inner.record.last.capacity == asked
      ensures !r.Done? && r != Failed(InvalidData) && inner.record.smooth ==> inner.consumed == |inner.sent|
      ensures old(inner.consumed) <= inner.consumed
      ensures r.Done? ==> |r.value| <= capacity && delivered == old(delivered) + r.value
      ensures !r.Done? ==> delivered == old(delivered)
      ensures old(ended) ==> ended && inner.consumed == old(inner.consumed) && r == Done([])
      ensures capacity > 0 ==> (ended <==> r == Done([]))
      ensures r == Failed(InvalidData) ==> remaining > MAX_FRAME
      ensures old(remaining) == 0 && remaining > MAX_FRAME ==> r == Failed(InvalidData)
      ensures old(remaining) == 0 && r.Done? ==> remaining + |r.value| <= MAX_FRAME
      ensures capacity == 0 ==> r == Done([]) && inner.consumed == old(inner.consumed)
    {
      if ended || capacity == 0 {
        return Done([]);
      }
      while remaining == 0
        invariant Valid() && !ended && Later(old(inner.record), inner.record)
        invariant remaining == old(remaining) || remaining <= MAX_FRAME
        invariant delivered == old(delivered)
        invariant old(inner.consumed) <= inner.consumed
        decreases remaining == 0, |inner.sent| - inner.consumed
      {
        var got := FillHeader();
        match got
        case Pending => return Pending;
        case Failed(e) => return Failed(e);
        case Done(count) =>
          if count == 0 {
            return Failed(UnexpectedEof);
          }
          if remaining > MAX_FRAME {
            return Failed(InvalidData);
          }
          if ended {
            return Done([]);
          }
      }
      r := ReadData(capacity);
    }
  }

  /** A blocking write in between broke off. */
  ghost predicate BrokeOff(before: Record, after: Record) {
    before.calls < after.calls && after.last == WroteAll(false)
  }

  datatype Half = ReadHalf | WriteHalf | BothHalves

  /** `pipe::Client`: the same wire format written by blocking calls, with a poison flag. */
  class Client {
    const file: Stream
    var ended: bool
    var poisoned: bool
    ghost var frames: seq<seq<byte>> // the blocks written, the last one cut short if poisoned
    ghost var missing: seq<byte>     // what a broken write left unwritten

    ghost predicate Valid()
      reads this, file
    {
      && file.Valid()
      && AreFrames(frames)
      && file.sent + missing == Encode(frames, ended)
      && (poisoned <==> missing != [])
      && (poisoned ==> !file.record.smooth)
    }

    constructor (file: Stream)
      requires file.Valid() && file.sent == []
      ensures Valid() && this.file == file && frames == [] && !ended && !poisoned
    {
      this.file := file;
      ended, poisoned, frames, missing := false, false, [], [];
    }

    method Shutdown(how: Half) returns (r: Poll<Unit>)
      requires Valid()
      modifies this`ended, this`poisoned, this`missing, file`sent, file`record
      ensures Valid() && Later(old(file.record), file.record)
      ensures how != WriteHalf || old(poisoned) || old(ended) ==> file.record == old(file.record)
      ensures r == Failed(Inner) ==> BrokeOff(old(file.record), file.record)
      ensures how == WriteHalf && old(poisoned) ==> r == Failed(BrokenPipe)
      ensures how == WriteHalf && !old(poisoned) && !r.Done? ==> r == Failed(Inner)
      ensures old(file.sent) <= file.sent
      ensures old(poisoned) ==> poisoned && file.sent == old(file.sent)
      ensures how != WriteHalf ==> r == Failed(Unsupported) && file.sent == old(file.sent) && ended == old(ended)
      ensures how == WriteHalf ==> (r.Done? <==> !poisoned)
      ensures r.Done? ==> ended && file.sent == Encode(frames, true)
      ensures old(ended) ==> ended && file.sent == old(file.sent)
    {
      if how != WriteHalf {
        return Failed(Unsupported);
      }
      if poisoned {
        return Failed(BrokenPipe);
      }
      if ended {
        return Done(Unit);
      }
      ended := true;
      var ok := SendEnd();
      if !ok {
        return Failed(Inner);
      }
      return Done(Unit);
    }

    /** Write END; a client that breaks off is poisoned. */
    method SendEnd() returns (ok: bool)
      requires file.Valid() && AreFrames(frames) && file.sent == Encode(frames, false) && ended && !poisoned
      modifies this`poisoned, this`missing, file`sent, file`record
      ensures Valid() && Later(old(file.record), file.record)
      ensures old(file.sent) <= file.sent
      ensures poisoned == !ok
      ensures if ok then file.sent == Encode(frames, true) else BrokeOff(old(file.record), file.record)
    {
      EncodeEnd(frames);
      ghost var rest;
      ok, rest := WriteAll(ToBe32(0));
      missing := rest;
      poisoned := !ok;
    }

    /** Write one block; the same. */
    method SendBlock(f: seq<byte>) returns (ok: bool)
      requires Valid() && IsFrame(f) && !ended && !poisoned
      modifies this`poisoned, this`frames, this`missing, file`sent, file`record
      ensures Valid() && Later(old(file.record), file.record)
      ensures old(file.sent) <= file.sent
      ensures poisoned == !ok && frames == old(frames) + [f]
      ensures !ok ==> BrokeOff(old(file.record), file.record)
    {
      EncodeAppend(frames, f);
      ghost var rest;
      ok, rest := WriteBlock(f);
      frames := frames + [f];
      missing := rest;
      poisoned := !ok;
    }

    /** `write_all` on the file, with what it left unwritten. */
    method WriteAll(bytes: seq<byte>) returns (ok: bool, ghost rest: seq<byte>)
      requires file.Valid()
      modifies file`sent, file`record
      ensures file.Valid() && Later(old(file.record), file.record)
      ensures !ok ==> BrokeOff(old(file.record), file.record)
      ensures old(file.sent) <= file.sent && file.sent + rest == old(file.sent) + bytes
      ensures ok <==> rest == []
    {
      ok := file.WriteAll(bytes);
      if ok {
        rest := [];
      } else {
        ghost var k :| 0 <= k < |bytes| && file.sent == old(file.sent) + bytes[..k];
        rest := bytes[k..];
      }
    }

    method WriteBlock(f: seq<byte>) returns (ok: bool, ghost rest: seq<byte>)
      requires file.Valid() && IsFrame(f)
      modifies file`sent, file`record
      ensures file.Valid() && Later(old(file.record), file.record)
      ensures !ok ==> BrokeOff(old(file.record), file.record)
      ensures old(file.sent) <= file.sent && file.sent + rest == old(file.sent) + EncodeFrame(f)
      ensures ok <==> rest == []
    {
      ok, rest := WriteAll(ToBe32(|f|));
      if ok {
        assert file.sent + [] == file.sent;
        assert file.sent + f == old(file.sent) + EncodeFrame(f);
        ok, rest := WriteAll(f);
      } else {
        assert file.sent + (rest + f) == (file.sent + rest) + f;
        assert old(file.sent) + ToBe32(|f|) + f == old(file.sent) + EncodeFrame(f);
        rest := rest + f;
      }
    }

    /** Whether or not the block reaches the wire whole, it is the next block of the encoding. */
    method Write(bytes: seq<byte>) returns (r: Poll<nat>)
      requires Valid()
      modifies this`poisoned, this`frames, this`missing, file`sent, file`record
      ensures Valid() && Later(old(file.record), file.record)
      ensures old(ended) || old(poisoned) || bytes == [] ==> file.record == old(file.record)
      ensures !old(ended) && !old(poisoned) && !r.Done? ==>
                r == Failed(Inner) && BrokeOff(old(file.record), file.record)
      ensures old(file.sent) <= file.sent
      ensures old(ended) || old(poisoned) ==>
                r == Failed(BrokenPipe) && file.sent == old(file.sent) && poisoned == old(poisoned)
      ensures r.Done? <==> !old(ended) && !poisoned
      ensures r.Done? ==> r.value == |FirstBlock(bytes)|
      ensures frames == if old(ended) || old(poisoned) || bytes == [] then old(frames) else old(frames) + [FirstBlock(bytes)]
    {
      if ended || poisoned {
        return Failed(BrokenPipe);
      }
      var count := if |bytes| < MAX_FRAME then |bytes| else MAX_FRAME;
      if count == 0 {
        return Done(0);
      }
      var ok := SendBlock(bytes[..count]);
      if !ok {
        return Failed(Inner);
      }
      return Done(count);
    }
  }

  // ------------------------------------------------------------------------
  // End to end.

  /** One connection: an encoder and a decoder on the two ends of a stream, with what their
      callers have been told. */
  class Session {
    const stream: Stream
    const writer: Writer
    const reader: Reader
    var accepted: seq<byte>
    var delivered: seq<byte>
    var shut: bool
    var clean: bool

    ghost predicate Valid()
      reads this, stream, writer, reader, reader.header
    {
      && writer.inner == stream && reader.inner == stream
      && writer.Valid() && reader.Valid()
      && accepted == Flatten(writer.frames) && delivered == reader.delivered
      && (clean ==> reader.ended)
      && (writer.ended ==> shut)
      && (shut && stream.record.smooth ==> writer.ended && stream.sent == Encode(writer.frames, true))
    }

    constructor ()
      ensures Valid() && fresh(stream) && fresh(writer) && fresh(reader) && fresh(reader.header)
      ensures accepted == delivered == [] && !shut && !clean && stream.record.smooth
    {
      var s := new Stream();
      stream := s;
      writer := new Writer(s);
      reader := new Reader(s);
      accepted, delivered, shut, clean := [], [], false, false;
    }

    method Write(bytes: seq<byte>)
      requires Valid()
      modifies this`accepted, stream`sent, stream`record, writer
      ensures Valid() && Later(old(stream.record), stream.record)
      ensures stream.record.smooth ==> accepted == old(accepted) + if shut then [] else FirstBlock(bytes)
    {
      ghost var frames := writer.frames;
      var r := writer.PollWrite(bytes);
      assert stream.Read() == reader.read;
      if r.Done? && bytes != [] {
        EncodeAppend(frames, FirstBlock(bytes));
        accepted := accepted + bytes[..r.value];
      }
    }

    method Flush()
      requires Valid()
      modifies stream`sent, stream`record, writer
      ensures Valid() && Later(old(stream.record), stream.record)
    {
      var _ := writer.PollFlush();
      assert stream.Read() == reader.read;
    }

    method Shutdown()
      requires Valid()
      modifies this`shut, stream`sent, stream`record, writer
      ensures Valid() && shut && Later(old(stream.record), stream.record)
    {
      var _ := writer.PollShutdown();
      assert stream.Read() == reader.read;
      shut := true;
    }

    method Read(capacity: nat) returns (rejected: bool)
      requires Valid()
      modifies this`delivered, this`clean, stream`consumed, stream`record, reader, reader.header
      ensures Valid() && !rejected && Later(old(stream.record), stream.record)
      ensures old(clean) ==> clean
      ensures |old(delivered)| <= |delivered|
      ensures capacity > 0 && shut && stream.record.smooth ==> clean || |old(delivered)| < |delivered|
    {
      var r := reader.PollRead(capacity);
      NeverOversized();
      if capacity > 0 && shut && stream.record.smooth && !r.Done? {
        AllRead();
        assert false;
      }
      if r.Done? {
        delivered := delivered + r.value;
        clean := clean || (capacity > 0 && r.value == []);
      }
      rejected := r == Failed(InvalidData);
    }

    /** One call of the schedule. */
    method Make(call: Call) returns (rejected: bool)
      requires Valid()
      modifies this`accepted, this`delivered, this`shut, this`clean, stream`sent, stream`consumed, stream`record
      modifies writer, reader, reader.header
      ensures Valid() && !rejected && Later(old(stream.record), stream.record)
      ensures shut <==> old(shut) || call == Call.Shutdown
      ensures |old(delivered)| <= |delivered| && (old(clean) ==> clean)
      ensures stream.record.smooth ==>
                accepted == old(accepted) + if call.Write? && !old(shut) then FirstBlock(call.bytes) else []
      ensures stream.record.smooth && call.Read? && call.capacity > 0 && old(shut) ==> clean || |old(delivered)| < |delivered|
    {
      rejected := false;
      match call
      case Write(bytes) => Write(bytes);
      case Flush => Flush();
      case Shutdown => Shutdown();
      case Read(capacity) => rejected := Read(capacity);
    }

    /** One call after the other. */
    method Follow(schedule: seq<Call>) returns (rejected: bool)
      requires Valid() && accepted == delivered == [] && !shut && !clean
      modifies this`accepted, this`delivered, this`shut, this`clean, stream`sent, stream`consumed, stream`record
      modifies writer, reader, reader.header
      ensures Valid() && !rejected
      ensures shut <==> Call.Shutdown in schedule
      ensures stream.record.smooth ==> OnTime(schedule, accepted, |delivered|, clean)
    {
      rejected := false;
      for i := 0 to |schedule|
        invariant Valid() && !rejected
        invariant shut <==> Call.Shutdown in schedule[..i]
        invariant stream.record.smooth ==> OnTime(schedule[..i], accepted, |delivered|, clean)
      {
        ghost var taken, given, done := accepted, |delivered|, clean;
        var bad := Make(schedule[i]);
        rejected := rejected || bad;
        if stream.record.smooth {
          OneMoreCall(schedule, i, taken, given, done, accepted, |delivered|, clean);
        }
      }
      assert schedule[..|schedule|] == schedule;
    }

    /** What the session has achieved, whenever it is looked at. */
    lemma Concludes()
      requires Valid()
      ensures delivered <= accepted
      ensures clean ==> shut && delivered == accepted && writer.offset == |writer.pending| && stream.consumed == |stream.sent|
      ensures writer.offset == |writer.pending| && stream.consumed == |stream.sent| ==> delivered == accepted
    {
      EndToEnd(writer.frames, writer.ended, stream.Read());
      if writer.offset == |writer.pending| && stream.consumed == |stream.sent| {
        assert stream.Read() == stream.sent + writer.pending[writer.offset..];
      }
    }

    /** Behind END there is nothing left to wait for. */
    lemma AllRead()
      requires writer.inner == stream && reader.inner == stream && writer.Valid() && reader.Valid()
      requires writer.ended && stream.sent == Encode(writer.frames, true) && stream.consumed == |stream.sent|
      ensures reader.ended
    {
      assert stream.Read() == stream.sent;
      EndToEnd(writer.frames, true, stream.Read());
    }

    lemma NeverOversized()
      requires writer.inner == stream && reader.inner == stream && writer.Valid() && reader.Valid()
      ensures reader.remaining <= MAX_FRAME
    {
      EndToEnd(writer.frames, writer.ended, stream.Read());
    }
  }

  datatype Call = Write(bytes: seq<byte>) | Flush | Shutdown | Read(capacity: nat)

  /** What the writer is due to accept if nothing stalls: one block per write before shutdown. */
  function Due(schedule: seq<Call>): seq<byte>
    decreases |schedule|
  {
    if schedule == [] then []
    else
      var before, call := schedule[..|schedule| - 1], schedule[|schedule| - 1];
      if call.Write? && Shutdown !in before then Due(before) + FirstBlock(call.bytes) else Due(before)
  }

  /** Reads into some buffer from position `k` on. */
  function ReadsFrom(schedule: seq<Call>, k: nat): nat
    decreases |schedule|
  {
    if |schedule| <= k then 0
    else
      var n := |schedule| - 1;
      ReadsFrom(schedule[..n], k) + if schedule[n].Read? && schedule[n].capacity > 0 then 1 else 0
  }

  /** A run without stalls is where it should be: every write accepted, and one byte at least
      delivered per read after a shutdown, unless the end has been reported. */
  ghost predicate OnTime(schedule: seq<Call>, accepted: seq<byte>, delivered: nat, clean: bool) {
    && accepted == Due(schedule)
    && forall k :: 0 <= k < |schedule| && schedule[k] == Shutdown ==> clean || ReadsFrom(schedule, k) <= delivered
  }

  lemma OneMoreCall(schedule: seq<Call>, i: nat, accepted: seq<byte>, delivered: nat, clean: bool,
                    acceptedNow: seq<byte>, deliveredNow: nat, cleanNow: bool)
    requires i < |schedule| && OnTime(schedule[..i], accepted, delivered, clean)
    requires delivered <= deliveredNow && (clean ==> cleanNow)
    requires acceptedNow == accepted + if schedule[i].Write? && Shutdown !in schedule[..i] then FirstBlock(schedule[i].bytes) else []
    requires schedule[i].Read? && schedule[i].capacity > 0 && Shutdown in schedule[..i] ==> cleanNow || delivered < deliveredNow
    ensures OnTime(schedule[..i + 1], acceptedNow, deliveredNow, cleanNow)
  {
    var s := schedule[..i + 1];
    assert s[..i] == schedule[..i];
    forall k | 0 <= k < |s| && s[k] == Shutdown ensures cleanNow || ReadsFrom(s, k) <= deliveredNow {
      if k < i {
        assert schedule[..i][k] == Shutdown;
      } else {
        NoReadsYet(s[..i], k);
      }
    }
  }

  lemma NoReadsYet(schedule: seq<Call>, k: nat)
    requires |schedule| <= k
    ensures ReadsFrom(schedule, k) == 0
  {
  }

  /** Every schedule of writer and reader polls over one stream, with every outcome of every
      inner call. `accepted` is what the writer's callers were told was taken, `delivered`
      what the reader's callers were given, `clean` that the reader reported end of stream.
      If no inner call stalls or fails, every write is accepted, and after a shutdown one read
      more than there are bytes is enough to reach the end. */
  method Converse(schedule: seq<Call>)
    returns (accepted: seq<byte>, delivered: seq<byte>, clean: bool, rejected: bool, buffered: nat, unread: nat, ghost smooth: bool)
    ensures delivered <= accepted
    ensures clean ==> Shutdown in schedule && delivered == accepted && buffered == 0 && unread == 0
    ensures buffered == 0 && unread == 0 ==> delivered == accepted
    ensures !rejected
    ensures smooth ==> accepted == Due(schedule)
    ensures smooth ==> forall k :: 0 <= k < |schedule| && schedule[k] == Shutdown && ReadsFrom(schedule, k) > |accepted| ==> clean
  {
    var session := new Session();
    rejected := session.Follow(schedule);
    session.Concludes();
    buffered, unread := |session.writer.pending| - session.writer.offset, |session.stream.sent| - session.stream.consumed;
    return session.accepted, session.delivered, session.clean, rejected, buffered, unread, session.stream.record.smooth;
  }

  /** One connection of the blocking client. `broken` is the block whose write failed, `[]` if
      none did. */
  class BlockingSession {
    const stream: Stream
    const client: Client
    const reader: Reader
    var accepted: seq<byte>
    var delivered: seq<byte>
    var broken: seq<byte>
    var closed: bool
    var clean: bool

    /** Both ends are in order, on the same stream. */
    ghost predicate Wired()
      reads stream, client, reader, reader.header
    {
      && client.file == stream && reader.inner == stream
      && client.Valid() && reader.Valid()
    }

    ghost predicate Valid()
      reads this, stream, client, reader, reader.header
    {
      && Wired()
      && accepted + broken == Flatten(client.frames) && delivered == reader.delivered
      && (broken != [] ==> client.poisoned)
      && (clean ==> reader.ended)
      && (client.ended ==> closed)
      && (closed && stream.record.smooth ==> client.ended)
    }

    constructor ()
      ensures Valid() && fresh(stream) && fresh(client) && fresh(reader) && fresh(reader.header)
      ensures !closed && !clean && accepted == delivered == [] && stream.record.smooth
    {
      var s := new Stream();
      stream := s;
      client := new Client(s);
      reader := new Reader(s);
      accepted, delivered, broken, closed, clean := [], [], [], false, false;
    }

    method Send(bytes: seq<byte>)
      requires Valid()
      modifies this`accepted, this`broken, stream`sent, stream`record, client
      ensures Valid() && Later(old(stream.record), stream.record)
      ensures stream.record.smooth ==> accepted == old(accepted) + if closed then [] else FirstBlock(bytes)
    {
      var taken, lost := WriteBlock(bytes);
      SplitBlock(accepted, broken, taken, lost);
      accepted, broken := accepted + taken, broken + lost;
    }

    /** A client that has broken off accepts no more. */
    lemma SplitBlock(accepted: seq<byte>, broken: seq<byte>, taken: seq<byte>, lost: seq<byte>)
      requires broken == [] || taken == []
      ensures accepted + taken + (broken + lost) == accepted + broken + (taken + lost)
    {
      assert broken == [] ==> broken + lost == lost;
      assert taken == [] ==> accepted + taken == accepted && taken + lost == lost;
    }

    /** One write of the client: what it took, or what of it broke off. */
    method WriteBlock(bytes: seq<byte>) returns (taken: seq<byte>, lost: seq<byte>)
      requires Wired()
      modifies stream`sent, stream`record, client
      ensures Wired() && client.ended == old(client.ended) && Later(old(stream.record), stream.record)
      ensures old(client.poisoned) ==> client.poisoned && taken == []
      ensures lost != [] ==> client.poisoned
      ensures stream.record.smooth ==> taken == (if client.ended then [] else FirstBlock(bytes)) && lost == []
      ensures Flatten(client.frames) == Flatten(old(client.frames)) + (taken + lost)
    {
      ghost var frames := client.frames;
      var idle := client.ended || client.poisoned;
      var r := client.Write(bytes);
      assert stream.Read() == reader.read;
      if client.frames != frames {
        EncodeAppend(frames, FirstBlock(bytes));
      }
      var block := if idle then [] else FirstBlock(bytes);
      assert Flatten(client.frames) == Flatten(frames) + block;
      taken, lost := if r.Done? then block else [], if r.Done? then [] else block;
      assert taken + lost == block;
    }

    method Close(how: Half)
      requires Valid()
      modifies this`closed, stream`sent, stream`record, client
      ensures Valid() && Later(old(stream.record), stream.record)
      ensures closed == (old(closed) || how == WriteHalf)
    {
      var _ := client.Shutdown(how);
      assert stream.Read() == reader.read;
      closed := closed || how == WriteHalf;
    }

    method Receive(capacity: nat) returns (rejected: bool)
      requires Valid()
      modifies this`delivered, this`clean, stream`consumed, stream`record, reader, reader.header
      ensures Valid() && !rejected && Later(old(stream.record), stream.record)
      ensures old(clean) ==> clean
      ensures |old(delivered)| <= |delivered|
      ensures capacity > 0 && closed && stream.record.smooth ==> clean || |old(delivered)| < |delivered|
    {
      var r := PollReader(capacity);
      var bytes := if r.Done? then r.value else [];
      var atEnd := capacity > 0 && r == Done([]);
      delivered, clean := delivered + bytes, clean || atEnd;
      rejected := r == Failed(InvalidData);
    }

    /** One poll of the reader: no frame of this client is ever oversized. */
    method PollReader(capacity: nat) returns (r: Poll<seq<byte>>)
      requires Wired()
      modifies stream`consumed, stream`record, reader, reader.header
      ensures Wired() && Later(old(stream.record), stream.record)
      ensures client.ended && stream.record.smooth ==> r.Done?
      ensures reader.delivered == old(reader.delivered) + if r.Done? then r.value else []
      ensures old(reader.ended) || (capacity > 0 && r == Done([])) ==> reader.ended
      ensures r != Failed(InvalidData)
    {
      r := reader.PollRead(capacity);
      NeverOversized();
      if client.ended && stream.record.smooth && !r.Done? {
        AllRead();
        assert false;
      }
    }

    /** Behind END there is nothing left to wait for. */
    lemma AllRead()
      requires Wired() && client.ended && stream.record.smooth && stream.consumed == |stream.sent|
      ensures reader.ended
    {
      assert stream.Read() == stream.sent && stream.sent + client.missing == stream.sent;
      EndToEnd(client.frames, true, stream.Read());
    }

    /** What the session has achieved, whenever it is looked at. */
    lemma Concludes()
      requires Valid()
      ensures delivered <= accepted + broken
      ensures clean ==> closed && delivered == accepted && broken == []
      ensures stream.record.smooth ==> broken == []
    {
      EndToEnd(client.frames, client.ended, stream.Read());
    }

    /** One call after the other. */
    method Follow(schedule: seq<BlockingCall>) returns (rejected: bool)
      requires Valid() && accepted == delivered == [] && !closed && !clean
      modifies this`accepted, this`delivered, this`broken, this`closed, this`clean, stream`sent, stream`consumed, stream`record
      modifies client, reader, reader.header
      ensures Valid() && !rejected
      ensures closed <==> Shutdown in Map(AsPoll, schedule)
      ensures stream.record.smooth ==> OnTime(Map(AsPoll, schedule), accepted, |delivered|, clean)
    {
      ghost var calls := Map(AsPoll, schedule);
      rejected := false;
      for i := 0 to |schedule|
        invariant Valid() && !rejected
        invariant closed <==> Shutdown in calls[..i]
        invariant stream.record.smooth ==> OnTime(calls[..i], accepted, |delivered|, clean)
      {
        ghost var taken, given, done := accepted, |delivered|, clean;
        var bad := Make(schedule[i]);
        rejected := rejected || bad;
        NextCall(schedule, i);
        if stream.record.smooth {
          OneMoreCall(calls, i, taken, given, done, accepted, |delivered|, clean);
        }
      }
      AllCalls(schedule);
    }

    /** One call of the schedule. */
    method Make(call: BlockingCall) returns (rejected: bool)
      requires Valid()
      modifies this`accepted, this`delivered, this`broken, this`closed, this`clean, stream`sent, stream`consumed, stream`record
      modifies client, reader, reader.header
      ensures Valid() && !rejected && Later(old(stream.record), stream.record)
      ensures closed <==> old(closed) || AsPoll(call) == Shutdown
      ensures |old(delivered)| <= |delivered| && (old(clean) ==> clean)
      ensures stream.record.smooth ==>
                accepted == old(accepted) + if AsPoll(call).Write? && !old(closed) then FirstBlock(AsPoll(call).bytes) else []
      ensures stream.record.smooth && AsPoll(call).Read? && AsPoll(call).capacity > 0 && old(closed) ==>
                clean || |old(delivered)| < |delivered|
    {
      rejected := false;
      match call
      case Send(bytes) => Send(bytes);
      case Close(how) => Close(how);
      case Receive(capacity) => rejected := Receive(capacity);
    }

    lemma NeverOversized()
      requires Wired()
      ensures reader.remaining <= MAX_FRAME
    {
      EndToEnd(client.frames, client.ended, stream.Read());
    }
  }

  datatype BlockingCall = Send(bytes: seq<byte>) | Close(how: Half) | Receive(capacity: nat)

  /** The call of the poll-based schedule that a blocking call corresponds to. */
  function AsPoll(call: BlockingCall): Call {
    match call
    case Send(bytes) => Write(bytes)
    case Close(how) => if how == WriteHalf then Shutdown else Flush
    case Receive(capacity) => Read(capacity)
  }

  lemma NextCall(schedule: seq<BlockingCall>, i: nat)
    requires i < |schedule|
    ensures var calls := Map(AsPoll, schedule);
            && calls[i] == AsPoll(schedule[i])
            && (Shutdown in calls[..i + 1] <==> Shutdown in calls[..i] || AsPoll(schedule[i]) == Shutdown)
  {
    var calls := Map(AsPoll, schedule);
    assert calls[..i + 1] == calls[..i] + [calls[i]];
  }

  lemma AllCalls(schedule: seq<BlockingCall>)
    ensures Map(AsPoll, schedule)[..|schedule|] == Map(AsPoll, schedule)
  {
  }

  lemma EndInTime(schedule: seq<BlockingCall>, accepted: seq<byte>, delivered: seq<byte>, clean: bool)
    requires OnTime(Map(AsPoll, schedule), accepted, |delivered|, clean) && delivered <= accepted
    ensures forall k :: 0 <= k < |schedule| && schedule[k] == Close(WriteHalf) && ReadsFrom(Map(AsPoll, schedule), k) > |accepted| ==> clean
  {
    forall k | 0 <= k < |schedule| && schedule[k] == Close(WriteHalf) ensures clean || ReadsFrom(Map(AsPoll, schedule), k) <= |accepted| {
      assert Map(AsPoll, schedule)[k] == Shutdown;
    }
  }

  lemma ClosedBySchedule(schedule: seq<BlockingCall>)
    ensures Shutdown in Map(AsPoll, schedule) ==> Close(WriteHalf) in schedule
  {
    if Shutdown in Map(AsPoll, schedule) {
      var k :| 0 <= k < |schedule| && Map(AsPoll, schedule)[k] == Shutdown;
      assert schedule[k] == Close(WriteHalf);
    }
  }

  /** The blocking client against the same reader: a reader may see the beginning of a block
      whose write failed, but can never take a broken request for a complete one. Without stalls
      and failures the same is due as from the poll-based writer. */
  method ConverseBlocking(schedule: seq<BlockingCall>)
    returns (accepted: seq<byte>, delivered: seq<byte>, broken: seq<byte>, clean: bool, rejected: bool, ghost smooth: bool)
    ensures delivered <= accepted + broken
    ensures clean ==> Close(WriteHalf) in schedule && delivered == accepted && broken == []
    ensures !rejected
    ensures smooth ==> accepted == Due(Map(AsPoll, schedule)) && broken == []
    ensures smooth ==> forall k :: 0 <= k < |schedule| && schedule[k] == Close(WriteHalf) && ReadsFrom(Map(AsPoll, schedule), k) > |accepted| ==> clean
  {
    var session := new BlockingSession();
    rejected := session.Follow(schedule);
    session.Concludes();
    if session.stream.record.smooth {
      EndInTime(schedule, session.accepted, session.delivered, session.clean);
    }
    ClosedBySchedule(schedule);
    return session.accepted, session.delivered, session.broken, session.clean, rejected, session.stream.record.smooth;
  }
}
