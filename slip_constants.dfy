/** The four control octets of SLIP framing (RFC 1055). */
module SlipConstants {
  import opened Common

  const END: byte := 0xC0
  const ESC: byte := 0xDB
  const ESC_END: byte := 0xDC
  const ESC_ESC: byte := 0xDD

  /** The two octets the framing reserves. */
  predicate IsReserved(b: byte) {
    b == END || b == ESC
  }

  /** The octet that follows ESC to stand for a reserved octet. */
  function EscapeCode(b: byte): (r: byte)
    requires IsReserved(b)
    ensures !IsReserved(r)
  {
    if b == END then ESC_END else ESC_ESC
  }

  /** The decoder's reading of the octet after an ESC: the two escape codes stand
      for END and ESC, every other octet stands for itself. */
  function Unescape(b: byte): byte {
    if b == ESC_ESC then ESC else if b == ESC_END then END else b
  }

  /** The constants are the ones RFC 1055 assigns and are pairwise distinct. */
  lemma ConstantsDistinct()
    ensures END as int == 192 && ESC as int == 219 && ESC_END as int == 220 && ESC_ESC as int == 221
    ensures END != ESC && END != ESC_END && END != ESC_ESC
    ensures ESC != ESC_END && ESC != ESC_ESC && ESC_END != ESC_ESC
  {
  }

  /** Un-escaping inverts escaping, so the two escape codes are unambiguous. */
  lemma UnescapeEscapeCode(b: byte)
    requires IsReserved(b)
    ensures Unescape(EscapeCode(b)) == b
    ensures forall c :: IsReserved(c) && EscapeCode(c) == EscapeCode(b) ==> c == b
  {
  }
}
