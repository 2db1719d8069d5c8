/** SLIP decoding of a byte stream that may arrive in arbitrary chunks.

    The decoder keeps a growable message buffer, a write index and an escape flag
    across calls. The state is modelled twice: as a value (`DecoderState`, with the
    pure transition `Step` and its iteration `Feed`), and as the `SlipDecoder`
    class whose methods update the buffer in place and are proved to follow the
    value-level transition. The `onMessage` and `onError` callbacks are modelled as
    an event log. */
module SlipDecoder {
  import opened Common
  import opened SlipConstants
  import opened SlipEncoder

  const DEFAULT_MAX_MESSAGE_SIZE: int := 10485760
  const DEFAULT_BUFFER_SIZE: int := 1024

  /** A callback invocation: `onMessage(msg)` or `onError(buffer, text)`; the
      error text is not modelled, the whole buffer array is. */
  datatype DecoderEvent = Message(bytes: seq<byte>) | TooLarge(buffer: seq<byte>)

  /** The decoder's parameters. `resetBuffer` selects the corrected overflow handling
      (see `Overflowed`); the class follows the code as written, with it false. */
  datatype Config = Config(maxMessageSize: int, bufferSize: int, resetBuffer: bool)

  /** The buffer array's contents, the write index and the escape flag. */
  datatype DecoderState = DecoderState(buffer: seq<byte>, idx: nat, escape: bool)

  /** A decoder state, the callback log so far, and the value a `DecodeBytes` call
      would return now: `None` stands for null; a call starts with `Some([])`. */
  datatype Decoded = Decoded(state: DecoderState, events: seq<DecoderEvent>, last: Option<seq<byte>>)

  predicate ValidConfig(cfg: Config) {
    cfg.bufferSize > 0
  }

  predicate ValidState(s: DecoderState) {
    s.idx <= |s.buffer| && |s.buffer| > 0
  }

  function Initial(cfg: Config): (s: DecoderState)
    requires ValidConfig(cfg)
    ensures ValidState(s) && s.idx == 0 && !s.escape && |s.buffer| == cfg.bufferSize
  {
    DecoderState(seq(cfg.bufferSize, _ => 0), 0, false)
  }

  /** `AddByte`: doubles the buffer when it is full, stores the byte, clears the
      escape flag, and answers whether the buffer is still below the maximum size. */
  function AddByteSpec(cfg: Config, s: DecoderState, val: byte): (r: (DecoderState, bool))
    requires ValidState(s)
    ensures ValidState(r.0) && r.0.idx == s.idx + 1 && !r.0.escape
    ensures r.0.buffer[s.idx] == val
    ensures r.0.buffer[..s.idx] == s.buffer[..s.idx]
    ensures |r.0.buffer| == if s.idx == |s.buffer| then 2 * |s.buffer| else |s.buffer|
    ensures r.1 <==> |r.0.buffer| < cfg.maxMessageSize
  {
    var grown := if s.idx > |s.buffer| - 1 then s.buffer + seq(|s.buffer|, _ => 0) else s.buffer;
    var written := grown[s.idx := val];
    (DecoderState(written, s.idx + 1, false), |written| < cfg.maxMessageSize)
  }

  /** `HandleMessageMaxError` after the error callback. As written, the index and the
      flag are reset and the grown buffer is kept; the corrected handling also
      replaces the buffer by a fresh one of the configured size. */
  function Overflowed(cfg: Config, s: DecoderState): (r: DecoderState)
    requires ValidConfig(cfg) && ValidState(s)
    ensures ValidState(r) && r.idx == 0 && !r.escape
    ensures !cfg.resetBuffer ==> r.buffer == s.buffer
    ensures cfg.resetBuffer ==> r == Initial(cfg)
  {
    if cfg.resetBuffer then Initial(cfg) else s.(idx := 0, escape := false)
  }

  /** `HandleEnd`: an END with nothing buffered yields null; otherwise the buffered
      bytes are delivered and the index is cleared. The `onMessage` callback is an
      event here and cannot fail; in the code an exception from it skips the reset
      of the index and abandons the rest of the chunk. */
  function HandleEndSpec(d: Decoded): (r: Decoded)
    requires ValidState(d.state)
    ensures ValidState(r.state) && r.state.idx == 0 && r.state.buffer == d.state.buffer
    ensures d.state.idx == 0 ==> r.events == d.events && r.last.None?
    ensures d.state.idx > 0 ==> r.events == d.events + [Message(d.state.buffer[..d.state.idx])]
    ensures d.state.idx > 0 ==> r.last == Some(d.state.buffer[..d.state.idx])
  {
    var s := d.state;
    if s.idx == 0 then d.(last := None)
    else Decoded(s.(idx := 0), d.events + [Message(s.buffer[..s.idx])], Some(s.buffer[..s.idx]))
  }

  /** One iteration of the `DecodeBytes` loop. */
  function Step(cfg: Config, d: Decoded, val: byte): (r: Decoded)
    requires ValidConfig(cfg) && ValidState(d.state)
    ensures ValidState(r.state)
  {
    var s := d.state;
    if !s.escape && val == ESC then d.(state := s.(escape := true))
    else if !s.escape && val == END then HandleEndSpec(d)
    else
      var v := if s.escape then Unescape(val) else val;
      var (s', more) := AddByteSpec(cfg, s, v);
      if more then d.(state := s')
      else Decoded(Overflowed(cfg, s'), d.events + [TooLarge(s'.buffer)], d.last)
  }

  /** The loop over a whole chunk, from its last byte backwards. */
  function Feed(cfg: Config, d: Decoded, bytes: seq<byte>): (r: Decoded)
    requires ValidConfig(cfg) && ValidState(d.state)
    ensures ValidState(r.state)
    decreases |bytes|
  {
    if bytes == [] then d else Step(cfg, Feed(cfg, d, bytes[..|bytes| - 1]), bytes[|bytes| - 1])
  }

  /** Decoding a chunk of one call: the state and the log carry over, the returned
      value starts as the empty array. */
  function DecodeChunk(cfg: Config, s: DecoderState, events: seq<DecoderEvent>, bytes: seq<byte>): (r: Decoded)
    requires ValidConfig(cfg) && ValidState(s)
  {
    Feed(cfg, Decoded(s, events, Some([])), bytes)
  }

  class SlipDecoder {
    const maxMessageSize: int
    const bufferSize: int
    var msgBuffer: array<byte>
    var msgBufferIdx: nat
    var escape: bool
    /** The `onMessage` and `onError` invocations so far, in order. */
    var events: seq<DecoderEvent>

    function Cfg(): Config {
      Config(maxMessageSize, bufferSize, false)
    }

    ghost predicate Valid()
      reads this
    {
      bufferSize > 0 && msgBufferIdx <= msgBuffer.Length && msgBuffer.Length > 0
    }

    function State(): DecoderState
      reads this, msgBuffer
    {
      DecoderState(msgBuffer[..], msgBufferIdx, escape)
    }

    /** A buffer of `bufferSize` zero bytes, index 0, no escape pending. A buffer size
        of zero or less makes the first stored byte (or the allocation) fault, so it
        is not accepted here. */
    constructor(maxMessageSize: int := DEFAULT_MAX_MESSAGE_SIZE, bufferSize: int := DEFAULT_BUFFER_SIZE)
      requires bufferSize > 0
      ensures Valid() && fresh(msgBuffer)
      ensures this.maxMessageSize == maxMessageSize && this.bufferSize == bufferSize
      ensures State() == Initial(Cfg()) && events == []
    {
      this.maxMessageSize := maxMessageSize;
      this.bufferSize := bufferSize;
      msgBuffer := new byte[bufferSize](_ => 0);
      msgBufferIdx := 0;
      events := [];
      escape := false;
      new;
      assert msgBuffer[..] == seq(bufferSize, _ => 0);
    }

    method AddByte(val: byte) returns (more: bool)
      requires Valid()
      modifies this, msgBuffer
      ensures Valid() && events == old(events)
      ensures (State(), more) == AddByteSpec(Cfg(), old(State()), val)
      ensures msgBuffer == old(msgBuffer) || fresh(msgBuffer)
    {
      ghost var before := State();
      if msgBufferIdx > msgBuffer.Length - 1 {
        var tmp := new byte[msgBuffer.Length * 2](_ => 0);
        forall k | 0 <= k < msgBuffer.Length {
          tmp[k] := msgBuffer[k];
        }
        assert tmp[..] == msgBuffer[..] + seq(msgBuffer.Length, _ => 0);
        msgBuffer := tmp;
      }
      ghost var grown := msgBuffer[..];
      assert grown == if before.idx > |before.buffer| - 1
                      then before.buffer + seq(|before.buffer|, _ => 0) else before.buffer;
      msgBuffer[msgBufferIdx] := val;
      assert msgBuffer[..] == grown[before.idx := val];
      msgBufferIdx := msgBufferIdx + 1;
      escape := false;
      more := msgBuffer.Length < maxMessageSize;
    }

    method HandleMessageMaxError()
      requires Valid()
      modifies this
      ensures Valid() && msgBuffer == old(msgBuffer)
      ensures events == old(events) + [TooLarge(old(msgBuffer[..]))]
      ensures State() == Overflowed(Cfg(), old(State()))
    {
      events := events + [TooLarge(msgBuffer[..])];
      msgBufferIdx := 0;
      escape := false;
    }

    method HandleEnd() returns (msg: Option<seq<byte>>)
      requires Valid()
      modifies this
      ensures Valid() && msgBuffer == old(msgBuffer)
      ensures HandleEndSpec(Decoded(old(State()), old(events), None)) == Decoded(State(), events, msg)
    {
      if msgBufferIdx == 0 {
        return None;
      }
      var m := msgBuffer[..msgBufferIdx];
      events := events + [Message(m)];
      msgBufferIdx := 0;
      msg := Some(m);
    }

    /** `DecodeBytes`: runs the chunk through the decoder and returns what the last
        END of the chunk yielded (null when it closed nothing, the empty array when
        the chunk held no END). */
    method DecodeBytes(bytes: seq<byte>) returns (msg: Option<seq<byte>>)
      requires Valid()
      modifies this, msgBuffer
      ensures Valid()
      ensures msgBuffer == old(msgBuffer) || fresh(msgBuffer)
      ensures Decoded(State(), events, msg) == DecodeChunk(Cfg(), old(State()), old(events), bytes)
    {
      msg := Some([]);
      for i := 0 to |bytes|
        invariant Valid()
        invariant msgBuffer == old(msgBuffer) || fresh(msgBuffer)
        invariant Decoded(State(), events, msg) == Feed(Cfg(), Decoded(old(State()), old(events), Some([])), bytes[..i])
      {
        assert bytes[..i + 1][..i] == bytes[..i];
        var val := bytes[i];
        if !escape && val == ESC {
          escape := true;
        } else if !escape && val == END {
          msg := HandleEnd();
        } else {
          if escape {
            val := Unescape(val);
          }
          var more := AddByte(val);
          if !more {
            HandleMessageMaxError();
          }
        }
      }
      assert bytes[..|bytes|] == bytes;
    }
  }

  // ---------------------------------------------------------------------------
  // Properties of the decoder.

  lemma FeedOne(cfg: Config, d: Decoded, b: byte)
    requires ValidConfig(cfg) && ValidState(d.state)
    ensures Feed(cfg, d, [b]) == Step(cfg, d, b)
  {
    assert [b][..0] == [];
  }

  lemma FeedSnoc(cfg: Config, d: Decoded, bytes: seq<byte>, b: byte)
    requires ValidConfig(cfg) && ValidState(d.state)
    ensures Feed(cfg, d, bytes + [b]) == Step(cfg, Feed(cfg, d, bytes), b)
  {
    assert (bytes + [b])[..|bytes|] == bytes;
  }

  /** Feeding two pieces one after the other is feeding their concatenation. */
  lemma {:induction false} FeedAppend(cfg: Config, d: Decoded, a: seq<byte>, b: seq<byte>)
    requires ValidConfig(cfg) && ValidState(d.state)
    ensures Feed(cfg, d, a + b) == Feed(cfg, Feed(cfg, d, a), b)
    decreases |b|
  {
    if b == [] {
      assert a + b == a;
    } else {
      assert (a + b)[..|a + b| - 1] == a + b[..|b| - 1];
      assert (a + b)[|a + b| - 1] == b[|b| - 1];
      FeedAppend(cfg, d, a, b[..|b| - 1]);
    }
  }

  /** The pending return value never influences the state or the log. */
  lemma {:induction false} FeedIgnoresLast(cfg: Config, d: Decoded, x: Option<seq<byte>>, bytes: seq<byte>)
    requires ValidConfig(cfg) && ValidState(d.state)
    ensures Feed(cfg, d, bytes).state == Feed(cfg, d.(last := x), bytes).state
    ensures Feed(cfg, d, bytes).events == Feed(cfg, d.(last := x), bytes).events
    decreases |bytes|
  {
    if bytes != [] {
      FeedIgnoresLast(cfg, d, x, bytes[..|bytes| - 1]);
    }
  }

  /** How the stream is split into `DecodeBytes` calls does not change the decoder's
      state or the messages it delivers. */
  lemma ChunkingInvariant(cfg: Config, s: DecoderState, events: seq<DecoderEvent>, a: seq<byte>, b: seq<byte>)
    requires ValidConfig(cfg) && ValidState(s)
    ensures var first := DecodeChunk(cfg, s, events, a);
            var second := DecodeChunk(cfg, first.state, first.events, b);
            var whole := DecodeChunk(cfg, s, events, a + b);
            whole.state == second.state && whole.events == second.events
  {
    var d := Decoded(s, events, Some([]));
    FeedAppend(cfg, d, a, b);
    var first := Feed(cfg, d, a);
    FeedIgnoresLast(cfg, first, Some([]), b);
  }

  /** Ready to take the body of a frame: nothing buffered, no escape pending, and a
      buffer below the maximum size. */
  predicate Clean(cfg: Config, s: DecoderState) {
    ValidState(s) && s.idx == 0 && !s.escape && |s.buffer| < cfg.maxMessageSize
  }

  /** Decoding the escape of one byte on top of `k` stored bytes stores it as the
      next byte. */
  lemma FeedEscapeByte(cfg: Config, d: Decoded, b: byte, total: nat)
    requires ValidConfig(cfg) && ValidState(d.state) && !d.state.escape
    requires d.state.idx < total && 2 * total <= cfg.maxMessageSize
    requires |d.state.buffer| < cfg.maxMessageSize
    ensures var r := Feed(cfg, d, EscapeByte(b));
            r.events == d.events && r.last == d.last && r.state.idx == d.state.idx + 1 && !r.state.escape
            && r.state.buffer[..d.state.idx] == d.state.buffer[..d.state.idx]
            && r.state.buffer[d.state.idx] == b && |r.state.buffer| < cfg.maxMessageSize
  {
    if IsReserved(b) {
      assert EscapeByte(b) == [ESC] + [EscapeCode(b)];
      FeedOne(cfg, d, ESC);
      FeedSnoc(cfg, d, [ESC], EscapeCode(b));
      UnescapeEscapeCode(b);
    } else {
      FeedOne(cfg, d, b);
    }
  }

  /** Decoding the escaped body of a message stores the message in the buffer. */
  lemma {:induction false} FeedEscaped(cfg: Config, d: Decoded, m: seq<byte>, total: nat)
    requires ValidConfig(cfg) && Clean(cfg, d.state)
    requires |m| <= total && 2 * total <= cfg.maxMessageSize
    ensures var r := Feed(cfg, d, Escaped(m));
            r.events == d.events && r.last == d.last && r.state.idx == |m| && !r.state.escape
            && r.state.buffer[..|m|] == m && |r.state.buffer| < cfg.maxMessageSize
    decreases |m|
  {
    if m != [] {
      var m' := m[..|m| - 1];
      var b := m[|m| - 1];
      FeedEscaped(cfg, d, m', total);
      var mid := Feed(cfg, d, Escaped(m'));
      assert Escaped(m) == Escaped(m') + EscapeByte(b);
      FeedAppend(cfg, d, Escaped(m'), EscapeByte(b));
      var r := Feed(cfg, mid, EscapeByte(b));
      FeedEscapeByte(cfg, mid, b, total);
      StoredSnoc(r.state.buffer, m', b);
      assert m == m' + [b];
    }
  }

  /** A buffer holding `m` and then `b` holds `m + [b]`. */
  lemma StoredSnoc(buffer: seq<byte>, m: seq<byte>, b: byte)
    requires |m| < |buffer| && buffer[..|m|] == m && buffer[|m|] == b
    ensures buffer[..|m| + 1] == m + [b]
  {
    assert buffer[..|m| + 1] == buffer[..|m|] + [buffer[|m|]];
  }

  /** The round trip: a frame of a non-empty message, fed to a decoder that is between
      frames, delivers exactly that message, returns it, and leaves the decoder between
      frames again. It holds for the code as written and for the corrected handling. */
  lemma RoundTrip(cfg: Config, d: Decoded, m: seq<byte>)
    requires ValidConfig(cfg) && Clean(cfg, d.state)
    requires 0 < |m| && 2 * |m| <= cfg.maxMessageSize
    ensures var r := Feed(cfg, d, Framed(m));
            r.events == d.events + [Message(m)] && r.last == Some(m) && Clean(cfg, r.state)
  {
    var open := Feed(cfg, d, [END]);
    FeedOne(cfg, d, END);
    FeedEscaped(cfg, open, m, |m|);
    var body := Feed(cfg, open, Escaped(m));
    FeedAppend(cfg, d, [END], Escaped(m));
    FeedAppend(cfg, d, [END] + Escaped(m), [END]);
    FeedOne(cfg, body, END);
  }

  /** The frame without its opening END, as the serial transport sends commands,
      round-trips as well: the decoder is between frames already. */
  lemma RoundTripWithoutLeadingEnd(cfg: Config, d: Decoded, m: seq<byte>)
    requires ValidConfig(cfg) && Clean(cfg, d.state)
    requires 0 < |m| && 2 * |m| <= cfg.maxMessageSize
    ensures Framed(m)[1..] == Escaped(m) + [END]
    ensures var r := Feed(cfg, d, Framed(m)[1..]);
            r.events == d.events + [Message(m)] && r.last == Some(m) && Clean(cfg, r.state)
  {
    assert Framed(m)[1..] == Escaped(m) + [END];
    FeedEscaped(cfg, d, m, |m|);
    var body := Feed(cfg, d, Escaped(m));
    FeedSnoc(cfg, d, Escaped(m), END);
  }

  /** The empty message's frame delivers nothing: both ENDs close an empty buffer. */
  lemma RoundTripEmpty(cfg: Config, d: Decoded)
    requires ValidConfig(cfg) && Clean(cfg, d.state)
    ensures Feed(cfg, d, Framed([])) == d.(last := None)
  {
    FramedEmpty();
    FeedOne(cfg, d, END);
    FeedSnoc(cfg, d, [END], END);
  }

  /** An END that follows ESC is message data, not a frame boundary. */
  lemma EscapedEndIsData(cfg: Config, d: Decoded)
    requires ValidConfig(cfg) && Clean(cfg, d.state) && cfg.maxMessageSize > 2
    ensures var r := Feed(cfg, d, [ESC, END]);
            r.events == d.events && r.state.idx == 1 && r.state.buffer[0] == END
  {
    FeedOne(cfg, d, ESC);
    FeedSnoc(cfg, d, [ESC], END);
  }

  // ---------------------------------------------------------------------------
  // Overflow handling.

  /** As written, the buffer never shrinks. */
  lemma {:induction false} BufferNeverShrinks(cfg: Config, d: Decoded, bytes: seq<byte>)
    requires ValidConfig(cfg) && ValidState(d.state) && !cfg.resetBuffer
    ensures |Feed(cfg, d, bytes).state.buffer| >= |d.state.buffer|
    decreases |bytes|
  {
    if bytes != [] {
      BufferNeverShrinks(cfg, d, bytes[..|bytes| - 1]);
    }
  }

  /** As written, once the buffer has reached the maximum size no message is ever
      delivered again: every stored byte reports an overflow and empties the buffer,
      so every END finds it empty. */
  lemma {:induction false} OverflowIsPermanent(cfg: Config, d: Decoded, bytes: seq<byte>)
    requires ValidConfig(cfg) && ValidState(d.state) && !cfg.resetBuffer
    requires |d.state.buffer| >= cfg.maxMessageSize && d.state.idx == 0
    ensures var r := Feed(cfg, d, bytes);
            |r.events| >= |d.events| && r.events[..|d.events|] == d.events
            && r.state.idx == 0 && |r.state.buffer| >= cfg.maxMessageSize
            && forall i :: |d.events| <= i < |r.events| ==> r.events[i].TooLarge?
    decreases |bytes|
  {
    if bytes != [] {
      OverflowIsPermanent(cfg, d, bytes[..|bytes| - 1]);
    }
  }

  /** The four steps of the overflowing frame `[END, 1, 2, END]` with a 1-byte
      buffer and a 2-byte maximum: the second data byte doubles the buffer to the
      maximum size, which is reported, and the grown buffer is kept. */
  lemma OverflowSteps()
    ensures var cfg := Config(2, 1, false);
            var d := Decoded(Initial(cfg), [], Some([]));
            Feed(cfg, d, [END, 1, 2, END])
              == Decoded(DecoderState([1, 2], 0, false), [TooLarge([1, 2])], None)
  {
    var cfg := Config(2, 1, false);
    var d := Decoded(Initial(cfg), [], Some([]));
    assert Initial(cfg).buffer == [0];
    var d1 := Decoded(DecoderState([0], 0, false), [], None);
    var d2 := Decoded(DecoderState([1], 1, false), [], None);
    var d3 := Decoded(DecoderState([1, 2], 0, false), [TooLarge([1, 2])], None);
    FeedOne(cfg, d, END);
    FeedSnoc(cfg, d, [END], 1);
    assert [END] + [1] == [END, 1];
    FeedSnoc(cfg, d, [END, 1], 2);
    assert [END, 1] + [2] == [END, 1, 2];
    FeedSnoc(cfg, d, [END, 1, 2], END);
    assert [END, 1, 2] + [END] == [END, 1, 2, END];
    assert Feed(cfg, d, [END]) == d1;
    assert [0][0 := 1] == [1];
    assert AddByteSpec(cfg, d1.state, 1) == (DecoderState([1], 1, false), true);
    assert Feed(cfg, d, [END, 1]) == d2;
    assert d2.state.buffer + seq(1, _ => 0) == [1, 0];
    assert [1, 0][1 := 2] == [1, 2];
    assert AddByteSpec(cfg, d2.state, 2) == (DecoderState([1, 2], 2, false), false);
    assert Feed(cfg, d, [END, 1, 2]) == d3;
  }

  /** With a 1-byte buffer and a 2-byte maximum, the two-byte message `[1, 2]`
      overflows; afterwards even the one-byte message `[3]` is lost. */
  lemma OverflowLosesNextFrame()
    ensures var cfg := Config(2, 1, false);
            var d := Decoded(Initial(cfg), [], Some([]));
            var after := Feed(cfg, d, [END, 1, 2, END]);
            var r := Feed(cfg, after, Framed([3]));
            forall i :: 0 <= i < |r.events| ==> r.events[i].TooLarge?
  {
    var cfg := Config(2, 1, false);
    OverflowSteps();
    var after := Decoded(DecoderState([1, 2], 0, false), [TooLarge([1, 2])], None);
    OnlyOverflowsAfter(cfg, after, Framed([3]));
  }

  /** From a full buffer whose log holds only overflow reports, any input leaves a
      log of overflow reports only. */
  lemma OnlyOverflowsAfter(cfg: Config, d: Decoded, bytes: seq<byte>)
    requires ValidConfig(cfg) && ValidState(d.state) && !cfg.resetBuffer
    requires |d.state.buffer| >= cfg.maxMessageSize && d.state.idx == 0
    requires forall i :: 0 <= i < |d.events| ==> d.events[i].TooLarge?
    ensures var r := Feed(cfg, d, bytes);
            forall i :: 0 <= i < |r.events| ==> r.events[i].TooLarge?
  {
    OverflowIsPermanent(cfg, d, bytes);
  }

  lemma StepPrefixLog(cfg: Config, d: Decoded, val: byte)
    requires ValidConfig(cfg) && ValidState(d.state)
    ensures var r := Step(cfg, d, val);
            var r0 := Step(cfg, d.(events := []), val);
            r.events == d.events + r0.events && r.state == r0.state && r.last == r0.last
  {
  }

  /** The log only grows, and what is appended does not depend on what was logged. */
  lemma {:induction false} FeedPrefixLog(cfg: Config, d: Decoded, bytes: seq<byte>)
    requires ValidConfig(cfg) && ValidState(d.state)
    ensures var r := Feed(cfg, d, bytes);
            var r0 := Feed(cfg, d.(events := []), bytes);
            r.events == d.events + r0.events && r.state == r0.state && r.last == r0.last
    decreases |bytes|
  {
    if bytes != [] {
      var init := bytes[..|bytes| - 1];
      FeedPrefixLog(cfg, d, init);
      var mid := Feed(cfg, d, init);
      var mid0 := Feed(cfg, d.(events := []), init);
      var val := bytes[|bytes| - 1];
      assert Feed(cfg, d, bytes) == Step(cfg, mid, val);
      assert Feed(cfg, d.(events := []), bytes) == Step(cfg, mid0, val);
      StepPrefixLog(cfg, mid, val);
      StepPrefixLog(cfg, mid0, val);
      assert mid.(events := []) == mid0.(events := []);
      var added := Step(cfg, mid0.(events := []), val).events;
      assert d.events + (mid0.events + added) == d.events + mid0.events + added;
    }
  }

  /** Corrected handling: when the configured buffer size is below the maximum, a
      byte that reports an overflow leaves the decoder between frames, so the next
      frame that fits is delivered. */
  lemma OverflowResynchronises(cfg: Config, d: Decoded, val: byte, m: seq<byte>)
    requires ValidConfig(cfg) && ValidState(d.state) && cfg.resetBuffer
    requires cfg.bufferSize < cfg.maxMessageSize
    requires |Step(cfg, d, val).events| > |d.events| && Step(cfg, d, val).events[|d.events|].TooLarge?
    requires 0 < |m| && 2 * |m| <= cfg.maxMessageSize
    ensures var r := Step(cfg, d, val);
            Feed(cfg, r, Framed(m)).events == r.events + [Message(m)]
  {
    var r := Step(cfg, d, val);
    assert r.state == Initial(cfg);
    RoundTrip(cfg, r, m);
  }
}
