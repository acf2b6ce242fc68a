/** `URLDecoder.decode(s, UTF_8)`: `+` becomes a space, every run of `%XY`
  * escapes is gathered into bytes that are decoded as UTF-8, and any other
  * char is kept. An escape that is cut short or whose two chars are not a
  * non-negative hexadecimal number makes it throw. */
module UrlDecoder {
  import opened Wrappers
  import opened JavaIntegers
  import Utf8

  /** The two `IllegalArgumentException`s the decoder throws. */
  datatype DecodeError = IllegalHex | IncompleteEscape

  /** `Character.digit(c, 16)`: a decimal digit of any script keeps its value,
    * and `a`-`f` and `A`-`F`, in ASCII or in their fullwidth forms, stand for
    * 10 to 15. */
  function HexDigitValue(c: char): (r: Option<nat>)
    ensures r.Some? ==> r.value < 16
    ensures IsDigit(c) ==> r == DecimalDigit(c)
  {
    if IsDigit(c) then DecimalDigit(c)
    else if 'a' <= c <= 'f' then Some(c as int - 'a' as int + 10)
    else if 'A' <= c <= 'F' then Some(c as int - 'A' as int + 10)
    else if '\U{FF41}' <= c <= '\U{FF46}' then Some(c as int - 0xFF41 + 10)
    else if '\U{FF21}' <= c <= '\U{FF26}' then Some(c as int - 0xFF21 + 10)
    else None
  }

  /** `Integer.parseInt` of the two chars after a `%` in radix 16, then the
    * decoder's own check that the value is not negative. `parseInt` accepts a
    * leading sign, so `%+7` is the byte 7 and `%-0` the byte 0, while `%-7`
    * is rejected as negative. */
  function EscapeValue(h: char, l: char): (r: Option<Utf8.Byte>)
  {
    match (HexDigitValue(h), HexDigitValue(l))
    case (Some(a), Some(b)) => Some(a * 16 + b)
    case (None, Some(b)) =>
      if h == '+' then Some(b)
      else if h == '-' && b == 0 then Some(0)
      else None
    case _ => None
  }

  /** The decoder's inner loop at a `%`: the bytes of the run of escapes at the
    * start of `s` and the number of chars they take. */
  function CollectEscapes(s: string): (r: Result<(seq<Utf8.Byte>, nat), DecodeError>)
    ensures r.Ok? ==> r.value.1 == 3 * |r.value.0| <= |s|
    ensures r.Ok? ==> (s != [] && s[0] == '%' <==> r.value.1 >= 3)
    ensures r.Ok? ==> r.value.1 == |s| || s[r.value.1] != '%'
    decreases |s|
  {
    if |s| >= 3 && s[0] == '%' then
      match EscapeValue(s[1], s[2])
      case None => Err(IllegalHex)
      case Some(v) =>
        match CollectEscapes(s[3..])
        case Err(e) => Err(e)
        case Ok((bs, n)) => Ok(([v] + bs, n + 3))
    else if s != [] && s[0] == '%' then Err(IncompleteEscape)
    else Ok(([], 0))
  }

  /** Decoding never makes a string longer. */
  function UrlDecode(s: string): (r: Result<string, DecodeError>)
    ensures r.Ok? ==> |r.value| <= |s|
    decreases |s|
  {
    if s == [] then Ok("")
    else if s[0] == '%' then
      match CollectEscapes(s)
      case Err(e) => Err(e)
      case Ok((bs, n)) =>
        match UrlDecode(s[n..])
        case Err(e) => Err(e)
        case Ok(t) => Ok(Utf8.Decode(bs) + t)
    else
      var c := if s[0] == '+' then ' ' else s[0];
      match UrlDecode(s[1..])
      case Err(e) => Err(e)
      case Ok(t) => Ok([c] + t)
  }

  /** A `%` at `i` that does not start a well-formed escape: it is cut short,
    * or the two chars after it are not a value `EscapeValue` accepts. */
  predicate BadEscapeAt(s: string, i: nat)
  {
    i < |s| && s[i] == '%' && (i + 2 >= |s| || EscapeValue(s[i + 1], s[i + 2]).None?)
  }

  predicate HasBadEscape(s: string)
  {
    exists i :: 0 <= i < |s| && BadEscapeAt(s, i)
  }

  /** Decoding throws exactly when the text holds a bad escape: `%`, `%z1`
    * and `%-7` throw, and a text whose every `%` starts a valid escape is
    * decoded. */
  lemma {:induction false} UrlDecodeFails(s: string)
    ensures UrlDecode(s).Err? <==> HasBadEscape(s)
    decreases |s|
  {
    if s == [] {
    } else if s[0] == '%' {
      if CollectEscapes(s).Err? {
        CollectErr(s);
      } else {
        var n := CollectEscapes(s).value.1;
        CollectOk(s);
        UrlDecodeFails(s[n..]);
        Shift(s, n);
      }
    } else {
      UrlDecodeFails(s[1..]);
      Shift(s, 1);
      assert !BadEscapeAt(s, 0);
    }
  }

  /** The three malformed escapes the decoder rejects. */
  lemma MalformedEscapes()
    ensures UrlDecode("%").Err?
    ensures UrlDecode("%z1").Err?
    ensures UrlDecode("%-7").Err?
  {
    UrlDecodeFails("%");
    assert BadEscapeAt("%", 0);
    UrlDecodeFails("%z1");
    assert BadEscapeAt("%z1", 0);
    UrlDecodeFails("%-7");
    assert BadEscapeAt("%-7", 0);
  }

  lemma Shift(s: string, n: nat)
    requires n <= |s|
    ensures HasBadEscape(s[n..]) <==> exists i :: n <= i < |s| && BadEscapeAt(s, i)
  {
    forall j | 0 <= j < |s| - n
      ensures BadEscapeAt(s[n..], j) <==> BadEscapeAt(s, j + n)
    {
    }
    if exists i :: n <= i < |s| && BadEscapeAt(s, i) {
      var i :| n <= i < |s| && BadEscapeAt(s, i);
      assert BadEscapeAt(s[n..], i - n);
    }
  }

  /** A run of escapes that is collected holds no bad escape. */
  lemma {:induction false} CollectOk(s: string)
    requires CollectEscapes(s).Ok?
    ensures forall i :: 0 <= i < CollectEscapes(s).value.1 ==> !BadEscapeAt(s, i)
    decreases |s|
  {
    if |s| >= 3 && s[0] == '%' {
      var t := s[3..];
      CollectOk(t);
      PercentNotEscapeChar(s[1], s[2]);
      forall i | 3 <= i < CollectEscapes(s).value.1
        ensures !BadEscapeAt(s, i)
      {
        assert !BadEscapeAt(t, i - 3);
      }
    }
  }

  /** When the run of escapes throws, one of them is bad. */
  lemma {:induction false} CollectErr(s: string)
    requires CollectEscapes(s).Err?
    ensures HasBadEscape(s)
    decreases |s|
  {
    if |s| >= 3 && s[0] == '%' && EscapeValue(s[1], s[2]).Some? {
      CollectErr(s[3..]);
      var j :| 0 <= j < |s| - 3 && BadEscapeAt(s[3..], j);
      assert BadEscapeAt(s, j + 3);
    } else {
      assert BadEscapeAt(s, 0);
    }
  }

  /** A `%` is never one of the two chars of a valid escape. */
  lemma PercentNotEscapeChar(h: char, l: char)
    requires EscapeValue(h, l).Some?
    ensures h != '%' && l != '%'
  {
    assert DecimalDigit('%').None?;
  }

  /** Text without `%` and `+` is left as it is. */
  lemma {:induction false} UrlDecodePlain(s: string)
    requires '%' !in s && '+' !in s
    ensures UrlDecode(s) == Ok(s)
  {
    if s != [] {
      UrlDecodePlain(s[1..]);
      assert s == [s[0]] + s[1..];
    }
  }

  /** Every `+` becomes a space. */
  lemma {:induction false} UrlDecodePlus(s: string)
    requires '%' !in s
    ensures UrlDecode(s).Ok?
    ensures |UrlDecode(s).value| == |s|
    ensures forall i :: 0 <= i < |s| ==> UrlDecode(s).value[i] == if s[i] == '+' then ' ' else s[i]
  {
    if s != [] {
      UrlDecodePlus(s[1..]);
    }
  }

  function HexChar(d: nat): (c: char)
    requires d < 16
    ensures HexDigitValue(c) == Some(d)
  {
    if d < 10 then ('0' as int + d) as char else ('A' as int + d - 10) as char
  }

  /** Percent-encodes every byte as `%XY` with upper-case hex digits, the way a
    * client writes a non-ASCII query parameter. */
  function PercentEncode(bs: seq<Utf8.Byte>): (s: string)
    ensures |s| == 3 * |bs|
  {
    if bs == [] then "" else ['%', HexChar(bs[0] / 16), HexChar(bs[0] % 16)] + PercentEncode(bs[1..])
  }

  lemma {:induction false} CollectPercentEncoded(bs: seq<Utf8.Byte>)
    ensures CollectEscapes(PercentEncode(bs)) == Ok((bs, 3 * |bs|))
  {
    if bs != [] {
      var s := PercentEncode(bs);
      assert s[3..] == PercentEncode(bs[1..]);
      assert EscapeValue(s[1], s[2]) == Some(bs[0]);
      CollectPercentEncoded(bs[1..]);
      assert bs == [bs[0]] + bs[1..];
    }
  }

  /** Percent-encoding the UTF-8 bytes of a string and decoding gives the
    * string back (`Jo%C3%A3o` is `João`). */
  lemma PercentRoundTrip(s: string)
    ensures UrlDecode(PercentEncode(Utf8.Encode(s))) == Ok(s)
  {
    var bs := Utf8.Encode(s);
    var e := PercentEncode(bs);
    Utf8.DecodeEncode(s);
    if bs != [] {
      CollectPercentEncoded(bs);
      assert e[0] == '%';
      assert e[3 * |bs|..] == "";
      assert UrlDecode(e) == Ok(Utf8.Decode(bs) + "");
      assert Utf8.Decode(bs) + "" == s;
    } else {
      assert s == "";
    }
  }

  /** The two hex digits of an escape may be digits of any script or fullwidth
    * letters: `%٤١` (ARABIC-INDIC FOUR, ONE) and `%４ａ` (FULLWIDTH FOUR,
    * FULLWIDTH SMALL A) are the bytes 0x41 and 0x4A. */
  lemma OtherDigitEscapes()
    ensures UrlDecode("%\U{0664}\U{0661}") == Ok("A")
    ensures UrlDecode("%\U{FF14}\U{FF41}") == Ok("J")
  {
    assert EscapeValue('\U{0664}', '\U{0661}') == Some(0x41);
    SingleEscape('\U{0664}', '\U{0661}', 0x41);
    AsciiByte('A');
    assert EscapeValue('\U{FF14}', '\U{FF41}') == Some(0x4A);
    SingleEscape('\U{FF14}', '\U{FF41}', 0x4A);
    AsciiByte('J');
  }

  lemma SingleEscape(h: char, l: char, v: Utf8.Byte)
    requires EscapeValue(h, l) == Some(v)
    ensures UrlDecode(['%', h, l]) == Ok(Utf8.Decode([v]))
  {
    var s := ['%', h, l];
    assert s[0] == '%' && s[1] == h && s[2] == l;
    assert s[3..] == [];
    assert CollectEscapes(s[3..]) == Ok(([], 0));
    assert [v] + [] == [v];
    assert CollectEscapes(s) == Ok(([v], 3));
    assert UrlDecode(s[3..]) == Ok("");
    assert Utf8.Decode([v]) + "" == Utf8.Decode([v]);
  }

  lemma AsciiByte(c: char)
    requires c as int < 0x80
    ensures Utf8.Decode([c as int as Utf8.Byte]) == [c]
  {
    assert Utf8.Encode([c]) == Utf8.EncodeScalar(c) + Utf8.Encode([]);
    Utf8.DecodeEncode([c]);
  }
}
