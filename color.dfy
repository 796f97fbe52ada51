// parse_hex_color of src/lib.rs: the fill colour as an RGBA u32.
//
// The input is the raw byte string handed over from the host.  The source
// first decodes it as UTF-8 (an undecodable string is replaced by "747474"),
// drops one leading '#', and parses the rest with u32::from_str_radix(_, 16),
// falling back to 0x747474 on any error; the 24-bit colour is then shifted
// into the top three bytes and the alpha byte is set to 0xFF.
//
// The UTF-8 decoding step is not modelled as a branch of its own: an
// undecodable byte string always holds a byte of 0x80 or more, such a byte is
// never a hex digit, so the parse on the raw bytes falls back to 0x747474 too
// and the result is the same (NonAsciiFallsBack below).

module HexColor {
  import opened Maybe
  import opened Shapes

  newtype byte = b: int | 0 <= b < 256

  /** The colour used when the string does not parse. */
  const Fallback: u32 := 0x747474

  /** The default fill colour of a new polygon (Polygon::new): the fallback, opaque. */
  const DefaultColor: u32 := 0x747474FF

  /** A hexadecimal digit in either case, or None. */
  function DigitValue(c: byte): (d: Option<nat>)
    ensures d.Some? ==> d.value < 16
    ensures c >= 0x80 ==> d.None?
  {
    if '0' as byte <= c <= '9' as byte then Some((c - '0' as byte) as nat)
    else if 'a' as byte <= c <= 'f' as byte then Some((c - 'a' as byte) as nat + 10)
    else if 'A' as byte <= c <= 'F' as byte then Some((c - 'A' as byte) as nat + 10)
    else None
  }

  predicate AllDigits(s: seq<byte>)
  {
    forall i :: 0 <= i < |s| ==> DigitValue(s[i]).Some?
  }

  /** The value of a string of hex digits, most significant first. */
  function Value(s: seq<byte>): nat
    requires AllDigits(s)
  {
    if |s| == 0 then 0
    else Value(s[..|s| - 1]) * 16 + DigitValue(s[|s| - 1]).value
  }

  /**
   * u32::from_str_radix(s, 16): an optional '+', then at least one hex digit,
   * and a value that fits in 32 bits; anything else is an error (None).
   */
  function FromStrRadix16(s: seq<byte>): (r: Option<u32>)
  {
    var digits := if |s| > 0 && s[0] == '+' as byte then s[1..] else s;
    if |digits| == 0 || !AllDigits(digits) then None
    else if Value(digits) < 0x1_0000_0000 then Some(Value(digits) as u32)
    else None
  }

  /** The string without its leading '#', if it has one. */
  function Trimmed(hex: seq<byte>): (t: seq<byte>)
  {
    if |hex| > 0 && hex[0] == '#' as byte then hex[1..] else hex
  }

  /**
   * parse_hex_color: (colour << 8) | 0xFF on u32, the colour falling back to
   * 0x747474.  The alpha byte is always 0xFF, and the three colour bytes are
   * the low 24 bits of the parsed value (its top byte is shifted out).
   */
  function ParseHexColor(hex: seq<byte>): (r: u32)
    ensures r % 0x100 == 0xFF
  {
    var color := match FromStrRadix16(Trimmed(hex)) case Some(v) => v case None => Fallback;
    Pack(color)
  }

  /**
   * A colour shifted into the top three bytes, alpha byte 0xFF: (colour << 8)
   * | 0xFF on u32.  The shift is a multiplication by 0x100 that wraps at 2^32,
   * which leaves the low byte zero, so or-ing in 0xFF adds it.
   */
  function Pack(color: u32): (r: u32)
    ensures r % 0x100 == 0xFF
    ensures r / 0x100 == color % 0x100_0000
  {
    var shifted := (color as int * 0x100) % 0x1_0000_0000;
    ShiftedBytes(color as int);
    (shifted + 0xFF) as u32
  }

  /** A shift by 8 on u32 keeps the low 24 bits, moved up one byte. */
  lemma ShiftedBytes(c: int)
    requires 0 <= c < 0x1_0000_0000
    ensures (c * 0x100) % 0x1_0000_0000 == (c % 0x100_0000) * 0x100
  {
    var q := c / 0x100_0000;
    assert c == q * 0x100_0000 + c % 0x100_0000;
    assert c * 0x100 == q * 0x1_0000_0000 + (c % 0x100_0000) * 0x100;
  }

  // ---------------------------------------------------------------------
  // Properties

  /** A parsed value is packed into the colour, alpha last; an unparsable string gives the default. */
  lemma ColorBytes(hex: seq<byte>)
    ensures FromStrRadix16(Trimmed(hex)).Some? ==>
              ParseHexColor(hex) == Pack(FromStrRadix16(Trimmed(hex)).value)
    ensures FromStrRadix16(Trimmed(hex)).None? ==> ParseHexColor(hex) == DefaultColor
  {
    var p := FromStrRadix16(Trimmed(hex));
    if p.None? {
      assert ParseHexColor(hex) == Pack(Fallback);
      assert Pack(Fallback) == DefaultColor;
    }
  }

  /** A string holding a byte of 0x80 or more (every undecodable one does) gives the default. */
  lemma NonAsciiFallsBack(hex: seq<byte>, i: nat)
    requires i < |hex| && hex[i] >= 0x80
    ensures ParseHexColor(hex) == DefaultColor
  {
    var t := Trimmed(hex);
    var digits := if |t| > 0 && t[0] == '+' as byte then t[1..] else t;
    if |hex| > 0 && hex[0] == '#' as byte {
      assert i > 0 && hex[i] == t[i - 1];
      if |t| > 0 && t[0] == '+' as byte {
        assert i > 1 && digits[i - 2] == hex[i];
      } else {
        assert digits[i - 1] == hex[i];
      }
    } else {
      if |t| > 0 && t[0] == '+' as byte {
        assert i > 0 && digits[i - 1] == hex[i];
      } else {
        assert digits[i] == hex[i];
      }
    }
    assert !AllDigits(digits);
  }

  // ---------------------------------------------------------------------
  // Rendering: the inverse direction

  /** The upper-case hex digit of d. */
  function Digit(d: nat): (c: byte)
    requires d < 16
    ensures DigitValue(c) == Some(d)
  {
    if d < 10 then '0' as byte + d as byte else 'A' as byte + (d - 10) as byte
  }

  function Pow16(n: nat): (p: nat)
    ensures p > 0
  {
    if n == 0 then 1 else 16 * Pow16(n - 1)
  }

  /** v written with exactly n hex digits (leading zeros kept). */
  function Render(v: nat, n: nat): (s: seq<byte>)
    ensures |s| == n && AllDigits(s)
  {
    if n == 0 then [] else Render(v / 16, n - 1) + [Digit(v % 16)]
  }

  /** Parsing a rendered value gives the value back. */
  lemma {:induction false} ValueRender(v: nat, n: nat)
    requires v < Pow16(n)
    ensures Value(Render(v, n)) == v
  {
    if n > 0 {
      var s := Render(v, n);
      assert s[..n - 1] == Render(v / 16, n - 1);
      ValueRender(v / 16, n - 1);
    }
  }

  /** The digits of "#RRGGBB" parse to the 24-bit colour. */
  lemma RenderParses(rgb: nat)
    requires rgb < 0x100_0000
    ensures FromStrRadix16(Trimmed(['#' as byte] + Render(rgb, 6))) == Some(rgb as u32)
  {
    var s := ['#' as byte] + Render(rgb, 6);
    assert Trimmed(s) == Render(rgb, 6);
    assert Pow16(6) == 0x100_0000;
    ValueRender(rgb, 6);
    assert Render(rgb, 6)[0] != '+' as byte by {
      assert DigitValue(Render(rgb, 6)[0]).Some?;
    }
  }

  /** "#RRGGBB" parses to the 24-bit colour with the alpha byte 0xFF appended. */
  lemma RenderRoundTrip(rgb: nat)
    requires rgb < 0x100_0000
    ensures ParseHexColor(['#' as byte] + Render(rgb, 6)) == Pack(rgb as u32)
  {
    RenderParses(rgb);
  }
}
