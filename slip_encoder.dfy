/** SLIP encoding of one message: every END and ESC in the message is replaced
    by its two-octet escape, and the result is wrapped in END delimiters. */
module SlipEncoder {
  import opened Common
  import opened SlipConstants

  /** The octets one message byte becomes. */
  function EscapeByte(b: byte): (r: seq<byte>)
    ensures 1 <= |r| <= 2
  {
    if IsReserved(b) then [ESC, EscapeCode(b)] else [b]
  }

  /** The escaped body of a message, byte by byte in order. */
  function Escaped(m: seq<byte>): seq<byte>
    decreases |m|
  {
    if m == [] then [] else Escaped(m[..|m| - 1]) + EscapeByte(m[|m| - 1])
  }

  /** The complete frame: END, the escaped body, END. */
  function Framed(m: seq<byte>): seq<byte> {
    [END] + Escaped(m) + [END]
  }

  /** How many reserved octets the message holds. */
  function CountReserved(m: seq<byte>): nat
    decreases |m|
  {
    if m == [] then 0 else CountReserved(m[..|m| - 1]) + (if IsReserved(m[|m| - 1]) then 1 else 0)
  }

  /** The encoder's first buffer size, `(length + 4) & ~3`: the length plus four,
      rounded down to a multiple of four. */
  function InitialCapacity(n: nat): (r: nat)
    ensures n + 1 <= r <= n + 4 && r % 4 == 0
  {
    (n + 4) / 4 * 4
  }

  /** The buffer growth step: a fresh array of twice the length holding the
      first `j` bytes of the old one. */
  method Grow(buffer: array<byte>, j: nat) returns (grown: array<byte>)
    requires j <= buffer.Length
    ensures fresh(grown) && grown.Length == 2 * buffer.Length
    ensures grown[..j] == buffer[..j]
  {
    grown := new byte[buffer.Length * 2](_ => 0);
    forall k | 0 <= k < buffer.Length {
      grown[k] := buffer[k];
    }
    assert forall k :: 0 <= k < j ==> grown[k] == buffer[k];
  }

  /** One pass of the encoder's loop body: an END or ESC is written as ESC then
      its escape code, any other byte as itself. */
  method PutEscaped(buffer: array<byte>, j: nat, b: byte) returns (next: nat)
    requires j + 2 <= buffer.Length
    modifies buffer
    ensures next == j + |EscapeByte(b)|
    ensures buffer[..next] == old(buffer[..j]) + EscapeByte(b)
  {
    var val := b;
    next := j;
    if val == END {
      buffer[next] := ESC;
      next := next + 1;
      val := ESC_END;
    } else if val == ESC {
      buffer[next] := ESC;
      next := next + 1;
      val := ESC_ESC;
    }
    buffer[next] := val;
    next := next + 1;
  }

  /** `SLIPEncoder.Encode`: fills a buffer through a write index, doubling the
      buffer whenever fewer than three free slots remain. */
  method Encode(bytes: seq<byte>) returns (encoded: seq<byte>)
    ensures encoded == Framed(bytes)
  {
    var bufLen := InitialCapacity(|bytes|);
    var buffer := new byte[bufLen](_ => 0);
    var j := 1;
    buffer[0] := END;
    for i := 0 to |bytes|
      invariant fresh(buffer)
      invariant 1 <= j <= buffer.Length - 1 && buffer.Length >= 4
      invariant buffer[..j] == [END] + Escaped(bytes[..i])
    {
      if j > buffer.Length - 3 {
        buffer := Grow(buffer, j);
      }
      ghost var before := buffer[..j];
      j := PutEscaped(buffer, j, bytes[i]);
      assert buffer[..j] == before + EscapeByte(bytes[i]);
      EscapedStep(bytes, i);
      assert buffer[..j] == [END] + (Escaped(bytes[..i]) + EscapeByte(bytes[i]));
    }
    buffer[j] := END;
    assert bytes[..|bytes|] == bytes;
    encoded := buffer[..j + 1];
    assert encoded == buffer[..j] + [END];
  }

  lemma EscapedStep(bytes: seq<byte>, i: nat)
    requires i < |bytes|
    ensures Escaped(bytes[..i + 1]) == Escaped(bytes[..i]) + EscapeByte(bytes[i])
  {
    assert bytes[..i + 1][..i] == bytes[..i];
  }

  /** Escaping distributes over concatenation. */
  lemma {:induction false} EscapedAppend(a: seq<byte>, b: seq<byte>)
    ensures Escaped(a + b) == Escaped(a) + Escaped(b)
    decreases |b|
  {
    if b == [] {
      assert a + b == a;
    } else {
      var b' := b[..|b| - 1];
      assert (a + b)[..|a + b| - 1] == a + b';
      assert (a + b)[|a + b| - 1] == b[|b| - 1];
      EscapedAppend(a, b');
    }
  }

  /** The length law: two delimiters plus one extra octet per reserved byte. */
  lemma {:induction false} FramedLength(m: seq<byte>)
    ensures |Framed(m)| == |m| + 2 + CountReserved(m)
    ensures |Framed(m)| >= |m| + 2
    decreases |m|
  {
    if m != [] {
      FramedLength(m[..|m| - 1]);
    }
  }

  /** No END inside the escaped body. */
  lemma {:induction false} EscapedHasNoEnd(m: seq<byte>)
    ensures forall i :: 0 <= i < |Escaped(m)| ==> Escaped(m)[i] != END
    decreases |m|
  {
    if m != [] {
      EscapedHasNoEnd(m[..|m| - 1]);
    }
  }

  /** A frame starts and ends with END and holds no other END. */
  lemma FramedDelimited(m: seq<byte>)
    ensures |Framed(m)| >= 2 && Framed(m)[0] == END && Framed(m)[|Framed(m)| - 1] == END
    ensures forall i :: 0 < i < |Framed(m)| - 1 ==> Framed(m)[i] != END
  {
    EscapedHasNoEnd(m);
    var f := Framed(m);
    forall i | 0 < i < |f| - 1 ensures f[i] != END {
      assert f[i] == Escaped(m)[i - 1];
    }
  }

  /** The empty message encodes to two ENDs. */
  lemma FramedEmpty()
    ensures Framed([]) == [END, END]
  {
  }

  /** A single byte is escaped exactly as the encoder's branches say. */
  lemma FramedSingle(b: byte)
    ensures b == END ==> Framed([b]) == [END, ESC, ESC_END, END]
    ensures b == ESC ==> Framed([b]) == [END, ESC, ESC_ESC, END]
    ensures !IsReserved(b) ==> Framed([b]) == [END, b, END]
  {
    assert [b][..0] == [];
    assert Escaped([b]) == EscapeByte(b);
  }
}
