/** `URLDecoder.decode(s, UTF_8)`: decoding of `application/x-www-form-urlencoded`
    text. A `+` stands for a space and `%XY` for the byte with hexadecimal value
    XY (section 2.1 of RFC 3986). Consecutive escapes form one byte run, which
    is turned into characters as a whole by the charset. The charset is a
    parameter of the model; the lemmas only need it to map ASCII bytes to the
    characters with the same code. A malformed escape makes the decoder throw
    `IllegalArgumentException`, modelled as a `Failure`. */
module UrlDecoding {
  import opened Wrappers
  import opened JavaText
  import opened Bytes

  /** The two messages of the `IllegalArgumentException` the decoder throws. */
  datatype DecodeError = IncompleteTrailingEscape | IllegalHexCharacters

  // ---------------------------------------------------------------------
  // One escape
  // ---------------------------------------------------------------------

  predicate IsHexDigit(c: char) {
    '0' <= c <= '9' || 'a' <= c <= 'f' || 'A' <= c <= 'F'
  }

  function HexValue(c: char): (v: int)
    requires IsHexDigit(c)
    ensures 0 <= v < 16
  {
    if '0' <= c <= '9' then c as int - '0' as int
    else if 'a' <= c <= 'f' then c as int - 'a' as int + 10
    else c as int - 'A' as int + 10
  }

  /** The two characters after a `%`, read as the JDK does with
      `Integer.parseInt(s, i + 1, i + 3, 16)`: two hex digits, or a sign and
      one hex digit. A negative value is refused like a non-hex character, so
      `%-0` still decodes to byte 0 and `%+A` to byte 10. */
  function EscapeByte(c1: char, c2: char): (r: Option<Byte>)
    ensures r.Some? <==> IsHexDigit(c2) && (IsHexDigit(c1) || c1 == '+' || (c1 == '-' && HexValue(c2) == 0))
    ensures IsHexDigit(c1) && IsHexDigit(c2) ==> r == Some(16 * HexValue(c1) + HexValue(c2))
  {
    if IsHexDigit(c1) && IsHexDigit(c2) then Some(16 * HexValue(c1) + HexValue(c2))
    else if (c1 == '+' || c1 == '-') && IsHexDigit(c2) then
      var v := if c1 == '-' then -HexValue(c2) else HexValue(c2);
      if v < 0 then None else Some(v)
    else None
  }

  // ---------------------------------------------------------------------
  // The decoder
  // ---------------------------------------------------------------------

  /** The scanner's verdict alone: the first malformed escape met when reading
      `s` from the left, if any. It does not depend on any charset. */
  function FirstError(s: string): Option<DecodeError>
    decreases |s|
  {
    if |s| == 0 then None
    else if s[0] == '%' then
      if |s| < 3 then Some(IncompleteTrailingEscape)
      else if EscapeByte(s[1], s[2]).None? then Some(IllegalHexCharacters)
      else FirstError(s[3..])
    else FirstError(s[1..])
  }

  /** Text for a finished byte run; no run, no call to the charset. */
  function Flush(pending: seq<Byte>, charset: Charset): string {
    if pending == [] then [] else charset(pending)
  }

  /** The decoding loop of the JDK with `pending` the bytes of the escape run
      read so far: a run ends at the first character that is not `%` or at the
      end of the input, and an error anywhere discards all output. */
  function DecodeFrom(s: string, pending: seq<Byte>, charset: Charset): (r: Result<string, DecodeError>)
    ensures r.Failure? <==> FirstError(s).Some?
    ensures r.Failure? ==> r.error == FirstError(s).value
    decreases |s|
  {
    if |s| == 0 then Success(Flush(pending, charset))
    else if s[0] == '%' then
      if |s| < 3 then Failure(IncompleteTrailingEscape)
      else match EscapeByte(s[1], s[2])
        case None => Failure(IllegalHexCharacters)
        case Some(b) => DecodeFrom(s[3..], pending + [b], charset)
    else
      match DecodeFrom(s[1..], [], charset)
      case Failure(e) => Failure(e)
      case Success(t) => Success(Flush(pending, charset) + [if s[0] == '+' then ' ' else s[0]] + t)
  }

  /** `URLDecoder.decode(s, charset)`. Whether it throws, and which message it
      throws, is decided by the escapes alone, whatever the charset. */
  function FormDecode(s: string, charset: Charset): (r: Result<string, DecodeError>)
    ensures r.Failure? <==> FirstError(s).Some?
    ensures r.Failure? ==> r.error == FirstError(s).value
  {
    DecodeFrom(s, [], charset)
  }

  // ---------------------------------------------------------------------
  // Reference: escape-by-escape decoding of ASCII text
  // ---------------------------------------------------------------------

  predicate AllAscii(bs: seq<Byte>) {
    forall i :: 0 <= i < |bs| ==> bs[i] < 0x80
  }

  /** ASCII bytes read as characters of the same code. */
  function AsciiText(bs: seq<Byte>): (t: string)
    requires AllAscii(bs)
    ensures |t| == |bs|
    ensures forall i :: 0 <= i < |bs| ==> t[i] as int == bs[i]
  {
    if |bs| == 0 then [] else [bs[0] as char] + AsciiText(bs[1..])
  }

  /** A charset that decodes ASCII byte runs to the same characters, as UTF-8
      and every ASCII-compatible charset do. */
  ghost predicate AsciiTransparent(charset: Charset) {
    forall bs :: AllAscii(bs) ==> charset(bs) == AsciiText(bs)
  }

  /** Independent reference decoder: each escape stands for one ASCII
      character on its own. `None` for a malformed or a non-ASCII escape. */
  function RefDecode(s: string): Option<string>
    decreases |s|
  {
    if |s| == 0 then Some([])
    else if s[0] == '%' then
      if |s| < 3 || EscapeByte(s[1], s[2]).None? || EscapeByte(s[1], s[2]).value >= 0x80 then None
      else match RefDecode(s[3..])
        case None => None
        case Some(t) => Some([EscapeByte(s[1], s[2]).value as char] + t)
    else
      match RefDecode(s[1..])
      case None => None
      case Some(t) => Some([if s[0] == '+' then ' ' else s[0]] + t)
  }

  lemma AsciiTextSnoc(bs: seq<Byte>, b: Byte)
    requires AllAscii(bs) && b < 0x80
    ensures AllAscii(bs + [b])
    ensures AsciiText(bs + [b]) == AsciiText(bs) + [b as char]
  {
    var l := AsciiText(bs + [b]);
    var r := AsciiText(bs) + [b as char];
    assert |l| == |r|;
    forall i | 0 <= i < |l|
      ensures l[i] == r[i]
    {
      assert l[i] as int == (bs + [b])[i];
    }
  }

  lemma FlushAscii(pending: seq<Byte>, charset: Charset)
    requires AsciiTransparent(charset)
    requires AllAscii(pending)
    ensures Flush(pending, charset) == AsciiText(pending)
  {
  }

  lemma DecodeFromEscapeStep(s: string, pending: seq<Byte>, charset: Charset)
    requires |s| >= 3 && s[0] == '%' && EscapeByte(s[1], s[2]).Some?
    ensures DecodeFrom(s, pending, charset) == DecodeFrom(s[3..], pending + [EscapeByte(s[1], s[2]).value], charset)
  {
  }

  lemma DecodeFromLiteralStep(s: string, pending: seq<Byte>, charset: Charset)
    requires |s| > 0 && s[0] != '%' && DecodeFrom(s[1..], [], charset).Success?
    ensures DecodeFrom(s, pending, charset)
         == Success(Flush(pending, charset) + [if s[0] == '+' then ' ' else s[0]] + DecodeFrom(s[1..], [], charset).value)
  {
  }

  lemma RefDecodeEscapeStep(s: string)
    requires |s| >= 3 && s[0] == '%' && EscapeByte(s[1], s[2]).Some? && EscapeByte(s[1], s[2]).value < 0x80
    requires RefDecode(s[3..]).Some?
    ensures RefDecode(s) == Some([EscapeByte(s[1], s[2]).value as char] + RefDecode(s[3..]).value)
  {
  }

  lemma RefDecodeLiteralStep(s: string)
    requires |s| > 0 && s[0] != '%' && RefDecode(s[1..]).Some?
    ensures RefDecode(s) == Some([if s[0] == '+' then ' ' else s[0]] + RefDecode(s[1..]).value)
  {
  }

  lemma AppendAssoc<T>(a: seq<T>, b: seq<T>, c: seq<T>)
    ensures (a + b) + c == a + (b + c)
  {
  }

  lemma {:induction false} DecodeFromAgrees(s: string, pending: seq<Byte>, charset: Charset)
    requires AsciiTransparent(charset)
    requires AllAscii(pending)
    requires RefDecode(s).Some?
    ensures DecodeFrom(s, pending, charset) == Success(AsciiText(pending) + RefDecode(s).value)
    decreases |s|
  {
    if |s| == 0 {
      FlushAscii(pending, charset);
      assert AsciiText(pending) + [] == AsciiText(pending);
    } else if s[0] == '%' {
      var b := EscapeByte(s[1], s[2]).value;
      var t := RefDecode(s[3..]).value;
      AsciiTextSnoc(pending, b);
      DecodeFromAgrees(s[3..], pending + [b], charset);
      DecodeFromEscapeStep(s, pending, charset);
      RefDecodeEscapeStep(s);
      AppendAssoc(AsciiText(pending), [b as char], t);
    } else {
      var c := if s[0] == '+' then ' ' else s[0];
      var t := RefDecode(s[1..]).value;
      DecodeFromAgrees(s[1..], [], charset);
      assert AsciiText([]) + t == t;
      FlushAscii(pending, charset);
      DecodeFromLiteralStep(s, pending, charset);
      RefDecodeLiteralStep(s);
      AppendAssoc(AsciiText(pending), [c], t);
    }
  }

  /** The JDK's run-wise decoding agrees with escape-by-escape decoding on
      every input whose escapes are well formed and ASCII. */
  lemma FormDecodeMatchesReference(s: string, charset: Charset)
    requires AsciiTransparent(charset)
    requires RefDecode(s).Some?
    ensures FormDecode(s, charset) == Success(RefDecode(s).value)
  {
    DecodeFromAgrees(s, [], charset);
    assert AsciiText([]) + RefDecode(s).value == RefDecode(s).value;
  }

  /** Decoding a text made of three well-formed ASCII parts. */
  lemma DecodeThreeParts(a: string, b: string, c: string, charset: Charset)
    requires AsciiTransparent(charset)
    requires RefDecode(a).Some? && RefDecode(b).Some? && RefDecode(c).Some?
    ensures FormDecode(a + b + c, charset) == Success(RefDecode(a).value + RefDecode(b).value + RefDecode(c).value)
  {
    RefDecodeConcat(b, c);
    RefDecodeConcat(a, b + c);
    AppendAssoc(a, b, c);
    AppendAssoc(RefDecode(a).value, RefDecode(b).value, RefDecode(c).value);
    FormDecodeMatchesReference(a + b + c, charset);
  }

  /** Text the reference accepts has no malformed escape. */
  lemma {:induction false} RefDecodeWellFormed(s: string)
    requires RefDecode(s).Some?
    ensures FirstError(s).None?
    decreases |s|
  {
    if |s| > 0 {
      if s[0] == '%' {
        RefDecodeWellFormed(s[3..]);
      } else {
        RefDecodeWellFormed(s[1..]);
      }
    }
  }

  /** A prefix the reference accepts ends on an escape boundary, so decoding
      a concatenation decodes the two parts independently. */
  lemma {:induction false} RefDecodeConcat(a: string, b: string)
    requires RefDecode(a).Some?
    ensures RefDecode(a + b) == (match RefDecode(b)
                                 case None => None
                                 case Some(t) => Some(RefDecode(a).value + t))
    decreases |a|
  {
    var ab := a + b;
    if |a| == 0 {
      assert ab == b;
      if RefDecode(b).Some? {
        assert RefDecode(a).value + RefDecode(b).value == RefDecode(b).value;
      }
    } else if a[0] == '%' {
      assert ab[0] == '%' && ab[1] == a[1] && ab[2] == a[2];
      assert ab[3..] == a[3..] + b;
      RefDecodeConcat(a[3..], b);
      RefDecodeEscapeStep(a);
      if RefDecode(b).Some? {
        RefDecodeEscapeStep(ab);
        AppendAssoc([EscapeByte(a[1], a[2]).value as char], RefDecode(a[3..]).value, RefDecode(b).value);
      }
    } else {
      assert ab[0] == a[0];
      assert ab[1..] == a[1..] + b;
      RefDecodeConcat(a[1..], b);
      RefDecodeLiteralStep(a);
      if RefDecode(b).Some? {
        RefDecodeLiteralStep(ab);
        AppendAssoc([if a[0] == '+' then ' ' else a[0]], RefDecode(a[1..]).value, RefDecode(b).value);
      }
    }
  }

  /** Likewise for the scanner: a well-formed prefix cannot hide an error. */
  lemma {:induction false} FirstErrorConcat(a: string, b: string)
    requires FirstError(a).None?
    ensures FirstError(a + b) == FirstError(b)
    decreases |a|
  {
    if |a| == 0 {
      assert a + b == b;
    } else if a[0] == '%' {
      assert (a + b)[1] == a[1] && (a + b)[2] == a[2];
      assert (a + b)[3..] == a[3..] + b;
      FirstErrorConcat(a[3..], b);
    } else {
      assert (a + b)[1..] == a[1..] + b;
      FirstErrorConcat(a[1..], b);
    }
  }

  /** A malformed escape stays malformed when more escapes follow it: a `%`
      cannot complete a cut-off escape. */
  lemma {:induction false} FirstErrorBeforeEscape(s: string, tail: string)
    requires FirstError(s).Some?
    requires tail == [] || tail[0] == '%'
    ensures FirstError(s + tail).Some?
    decreases |s|
  {
    var st := s + tail;
    if tail == [] {
      assert st == s;
    } else if s[0] == '%' {
      if |s| < 3 {
        if |st| >= 3 {
          assert st[|s|] == '%';
          assert EscapeByte(st[1], st[2]).None?;
        }
      } else if EscapeByte(s[1], s[2]).Some? {
        assert st[1] == s[1] && st[2] == s[2];
        assert st[3..] == s[3..] + tail;
        FirstErrorBeforeEscape(s[3..], tail);
      } else {
        assert st[1] == s[1] && st[2] == s[2];
      }
    } else {
      assert st[1..] == s[1..] + tail;
      FirstErrorBeforeEscape(s[1..], tail);
    }
  }

  /** Without escapes, form decoding only turns `+` into a space: a literal
      `+` of base64 text is lost. */
  lemma {:induction false} RefDecodeWithoutEscapes(s: string)
    requires '%' !in s
    ensures RefDecode(s) == Some(ReplaceChar(s, '+', ' '))
    decreases |s|
  {
    if |s| > 0 {
      assert s == [s[0]] + s[1..];
      RefDecodeWithoutEscapes(s[1..]);
      assert ReplaceChar(s, '+', ' ') == [if s[0] == '+' then ' ' else s[0]] + ReplaceChar(s[1..], '+', ' ');
    }
  }

  // ---------------------------------------------------------------------
  // The encoding a reverse proxy applies before forwarding a certificate
  // ---------------------------------------------------------------------

  /** Escapes a proxy writes for a PEM text: space and line feed as in the
      recognised markers, and `%` and `+` because the decoder treats them
      specially. Every other character is sent as it is. */
  function EncodeChar(c: char): (e: string)
    ensures e == [c] <==> c !in " \n%+"
  {
    if c == ' ' then "%20"
    else if c == '\n' then "%0A"
    else if c == '%' then "%25"
    else if c == '+' then "%2B"
    else [c]
  }

  function PercentEncode(s: string): string
    decreases |s|
  {
    if |s| == 0 then [] else EncodeChar(s[0]) + PercentEncode(s[1..])
  }

  lemma {:induction false} PercentEncodeConcat(a: string, b: string)
    ensures PercentEncode(a + b) == PercentEncode(a) + PercentEncode(b)
    decreases |a|
  {
    if |a| == 0 {
      assert a + b == b;
    } else {
      assert (a + b)[1..] == a[1..] + b;
      PercentEncodeConcat(a[1..], b);
    }
  }

  /** Text with nothing to escape is sent unchanged. */
  lemma {:induction false} PercentEncodePlain(s: string)
    requires forall i :: 0 <= i < |s| ==> s[i] !in " \n%+"
    ensures PercentEncode(s) == s
    decreases |s|
  {
    if |s| > 0 {
      PercentEncodePlain(s[1..]);
      assert [s[0]] + s[1..] == s;
    }
  }

  /** One encoded character decodes back to itself, whatever follows it. */
  lemma EncodeCharRoundTrip(c: char, rest: string)
    requires RefDecode(rest).Some?
    ensures RefDecode(EncodeChar(c) + rest) == Some([c] + RefDecode(rest).value)
  {
    var e := EncodeChar(c) + rest;
    if c in " \n%+" {
      assert e[0] == '%' && e[3..] == rest;
      assert EscapeByte(e[1], e[2]) == Some(c as int);
      RefDecodeEscapeStep(e);
    } else {
      assert e[0] == c && e[1..] == rest;
      RefDecodeLiteralStep(e);
    }
  }

  /** Round trip: decoding what the proxy encoded gives back the original
      text, for every text. */
  lemma {:induction false} PercentEncodeRoundTrip(s: string)
    ensures RefDecode(PercentEncode(s)) == Some(s)
    decreases |s|
  {
    if |s| > 0 {
      PercentEncodeRoundTrip(s[1..]);
      EncodeCharRoundTrip(s[0], PercentEncode(s[1..]));
      assert s == [s[0]] + s[1..];
    }
  }

  /** The same round trip through the JDK's decoder. */
  lemma FormDecodeRoundTrip(s: string, charset: Charset)
    requires AsciiTransparent(charset)
    ensures FormDecode(PercentEncode(s), charset) == Success(s)
  {
    PercentEncodeRoundTrip(s);
    FormDecodeMatchesReference(PercentEncode(s), charset);
  }
}
