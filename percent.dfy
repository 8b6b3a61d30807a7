/** Percent-encoding as in section 2.1 of RFC 3986: an octet written as `%`
    followed by two hexadecimal digits. `Decode` stands for Foundation's
    `removingPercentEncoding`; an escape `%HH` decodes to the character whose
    code is the octet `HH` (UTF-8 re-assembly of multi-octet characters is
    not modelled). `Encode` is its inverse, used to state round trips. */
module PercentEncoding {
  import opened Optional

  predicate IsHexDigit(c: char) {
    '0' <= c <= '9' || 'a' <= c <= 'f' || 'A' <= c <= 'F'
  }

  function HexValue(c: char): (v: nat)
    requires IsHexDigit(c)
    ensures v < 16
  {
    if '0' <= c <= '9' then c as nat - '0' as nat
    else if 'a' <= c <= 'f' then c as nat - 'a' as nat + 10
    else c as nat - 'A' as nat + 10
  }

  /** Upper-case hexadecimal digit of a value below 16. */
  function HexDigit(v: nat): (c: char)
    requires v < 16
    ensures IsHexDigit(c) && HexValue(c) == v
  {
    if v < 10 then ('0' as nat + v) as char else ('A' as nat + v - 10) as char
  }

  /** Every `%` at index `i` starts a complete escape: two hex digits follow it. */
  ghost predicate WellEscaped(s: string) {
    forall i :: 0 <= i < |s| && s[i] == '%' ==> i + 2 < |s| && IsHexDigit(s[i + 1]) && IsHexDigit(s[i + 2])
  }

  /** `removingPercentEncoding`: `None` on an incomplete or non-hexadecimal escape. */
  function Decode(s: string): (r: Option<string>)
    ensures r.Some? ==> |r.value| <= |s|
    decreases |s|
  {
    if s == [] then Some([])
    else if s[0] == '%' then
      if |s| >= 3 && IsHexDigit(s[1]) && IsHexDigit(s[2]) then
        match Decode(s[3..])
        case None => None
        case Some(rest) => Some([(HexValue(s[1]) * 16 + HexValue(s[2])) as char] + rest)
      else None
    else
      match Decode(s[1..])
      case None => None
      case Some(rest) => Some([s[0]] + rest)
  }

  /** Decoding fails exactly on the strings holding a malformed escape. */
  lemma {:induction false} DecodeSucceedsIff(s: string)
    ensures Decode(s).Some? <==> WellEscaped(s)
    decreases |s|
  {
    if s == [] {
    } else if s[0] == '%' {
      if |s| >= 3 && IsHexDigit(s[1]) && IsHexDigit(s[2]) {
        DecodeSucceedsIff(s[3..]);
        assert WellEscaped(s) <==> WellEscaped(s[3..]) by {
          if WellEscaped(s[3..]) {
            forall i | 0 <= i < |s| && s[i] == '%'
              ensures i + 2 < |s| && IsHexDigit(s[i + 1]) && IsHexDigit(s[i + 2])
            {
              if i >= 3 { assert s[3..][i - 3] == '%'; }
              else { assert i == 0; }
            }
          }
          if WellEscaped(s) {
            forall i | 0 <= i < |s[3..]| && s[3..][i] == '%'
              ensures i + 2 < |s[3..]| && IsHexDigit(s[3..][i + 1]) && IsHexDigit(s[3..][i + 2])
            {
              assert s[i + 3] == '%';
            }
          }
        }
      } else {
        assert !WellEscaped(s) by { assert s[0] == '%'; }
      }
    } else {
      DecodeSucceedsIff(s[1..]);
      assert WellEscaped(s) <==> WellEscaped(s[1..]) by {
        if WellEscaped(s[1..]) {
          forall i | 0 <= i < |s| && s[i] == '%'
            ensures i + 2 < |s| && IsHexDigit(s[i + 1]) && IsHexDigit(s[i + 2])
          {
            assert s[1..][i - 1] == '%';
          }
        }
        if WellEscaped(s) {
          forall i | 0 <= i < |s[1..]| && s[1..][i] == '%'
            ensures i + 2 < |s[1..]| && IsHexDigit(s[1..][i + 1]) && IsHexDigit(s[1..][i + 2])
          {
            assert s[i + 1] == '%';
          }
        }
      }
    }
  }

  /** Text without `%` decodes to itself. */
  lemma {:induction false} DecodeWithoutEscapes(s: string)
    requires '%' !in s
    ensures Decode(s) == Some(s)
    decreases |s|
  {
    if s != [] {
      DecodeWithoutEscapes(s[1..]);
      assert s == [s[0]] + s[1..];
    }
  }

  /** The unreserved characters of section 2.3 of RFC 3986, which are never escaped. */
  predicate IsUnreserved(c: char) {
    'a' <= c <= 'z' || 'A' <= c <= 'Z' || '0' <= c <= '9' || c == '-' || c == '.' || c == '_' || c == '~'
  }

  /** Characters that `Encode` writes as `%HH`: every other ASCII character.
      Other characters stay raw, since a lone octet of 128 or more is not
      UTF-8 and would not decode. */
  predicate NeedsEscape(c: char) {
    c as int < 128 && !IsUnreserved(c)
  }

  /** The delimiters of `application/x-www-form-urlencoded` keys and pairs. */
  predicate IsFormDelimiter(c: char) {
    c == '&' || c == '=' || c == '+' || c == '[' || c == ']'
  }

  function EncodeChar(c: char): (r: string)
    ensures |r| > 0 && (r[0] == '%' <==> NeedsEscape(c))
    ensures forall i :: 0 <= i < |r| ==> !IsFormDelimiter(r[i])
  {
    if NeedsEscape(c) then ['%', HexDigit(c as nat / 16), HexDigit(c as nat % 16)] else [c]
  }

  /** Escapes every ASCII character outside the unreserved set. */
  function Encode(s: string): (r: string)
    ensures |r| == 0 <==> |s| == 0
    ensures forall i :: 0 <= i < |r| ==> !IsFormDelimiter(r[i])
  {
    if s == [] then [] else EncodeChar(s[0]) + Encode(s[1..])
  }

  /** Decoding undoes encoding. */
  lemma {:induction false} DecodeEncode(s: string)
    ensures Decode(Encode(s)) == Some(s)
  {
    if s != [] {
      var c := s[0];
      var e := Encode(s[1..]);
      DecodeEncode(s[1..]);
      if NeedsEscape(c) {
        var t := EncodeChar(c) + e;
        assert t[3..] == e;
        assert (HexValue(t[1]) * 16 + HexValue(t[2])) as char == c;
      } else {
        assert (EncodeChar(c) + e)[1..] == e;
      }
      assert s == [c] + s[1..];
    }
  }
}
