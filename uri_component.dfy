/** `encodeURIComponent` of ECMA-262 (section 19.2.6, "URI Handling Functions")
    on ASCII text, and the matching percent-decoder (`decodeURIComponent` on
    ASCII). Every character outside the kept set is written as `%` and two
    upper-case hexadecimal digits of its code, as section 2.1 of RFC 3986
    describes percent-encoding. */
module UriComponent {
  import opened Wrappers

  predicate IsAscii(s: string)
  {
    forall i :: 0 <= i < |s| ==> s[i] as int < 128
  }

  /** The characters `encodeURIComponent` writes as they are: letters, digits
      and `- _ . ! ~ * ' ( )`. */
  predicate Unreserved(c: char)
  {
    ('A' <= c <= 'Z') || ('a' <= c <= 'z') || ('0' <= c <= '9') ||
    c == '-' || c == '_' || c == '.' || c == '!' || c == '~' ||
    c == '*' || c == '\'' || c == '(' || c == ')'
  }

  predicate IsHexDigit(c: char)
  {
    ('0' <= c <= '9') || ('A' <= c <= 'F') || ('a' <= c <= 'f')
  }

  /** The digits the encoder writes: only the upper-case ones. */
  predicate IsUpperHexDigit(c: char)
  {
    ('0' <= c <= '9') || ('A' <= c <= 'F')
  }

  function HexValue(c: char): (n: nat)
    requires IsHexDigit(c)
    ensures n < 16
  {
    if '0' <= c <= '9' then c as int - '0' as int
    else if 'A' <= c <= 'F' then c as int - 'A' as int + 10
    else c as int - 'a' as int + 10
  }

  /** The upper-case digit of a value below 16; it reads back as that value. */
  function HexDigit(n: nat): (c: char)
    requires n < 16
    ensures IsUpperHexDigit(c) && HexValue(c) == n
  {
    if n < 10 then ('0' as int + n) as char else ('A' as int + n - 10) as char
  }

  /** One character encoded: itself when kept, otherwise a `%XX` triple whose
      digits read back as its code. */
  function EncodeChar(c: char): (t: string)
    requires c as int < 128
    ensures Unreserved(c) ==> t == [c]
    ensures !Unreserved(c) ==>
      |t| == 3 && t[0] == '%' && IsUpperHexDigit(t[1]) && IsUpperHexDigit(t[2]) &&
      16 * HexValue(t[1]) + HexValue(t[2]) == c as int
  {
    if Unreserved(c) then [c]
    else ['%', HexDigit(c as int / 16), HexDigit(c as int % 16)]
  }

  /** `encodeURIComponent` of an ASCII string. */
  function Encode(s: string): string
    requires IsAscii(s)
  {
    if s == [] then [] else EncodeChar(s[0]) + Encode(s[1..])
  }

  /** `decodeURIComponent` on the ASCII range: a `%` must be followed by two
      hexadecimal digits (either case) of a code below 128, and every other
      character stands for itself; anything else is a `URIError` (`None`). */
  function Decode(t: string): (r: Option<string>)
    ensures r.Some? ==> |r.value| <= |t|
    decreases |t|
  {
    if t == [] then Some([])
    else if t[0] != '%' then
      match Decode(t[1..])
      case Some(rest) => Some([t[0]] + rest)
      case None => None
    else if |t| >= 3 && IsHexDigit(t[1]) && IsHexDigit(t[2]) then
      var code := 16 * HexValue(t[1]) + HexValue(t[2]);
      if code < 128 then
        match Decode(t[3..])
        case Some(rest) => Some([code as char] + rest)
        case None => None
      else None
    else None
  }

  /** The shape of an encoder output: kept characters and `%XX` triples with
      upper-case digits, nothing else. */
  predicate Encoded(t: string)
    decreases |t|
  {
    if t == [] then true
    else if Unreserved(t[0]) then Encoded(t[1..])
    else |t| >= 3 && t[0] == '%' && IsUpperHexDigit(t[1]) && IsUpperHexDigit(t[2]) && Encoded(t[3..])
  }

  /** A text without `%` decodes to itself. */
  lemma {:induction false} DecodeUnescaped(t: string)
    requires '%' !in t
    ensures Decode(t) == Some(t)
    decreases |t|
  {
    if t != [] {
      assert '%' !in t[1..];
      DecodeUnescaped(t[1..]);
      assert [t[0]] + t[1..] == t;
    }
  }

  /** Decoding the encoding gives back the original text. */
  lemma {:induction false} DecodeEncode(s: string)
    requires IsAscii(s)
    ensures Decode(Encode(s)) == Some(s)
    decreases |s|
  {
    if s != [] {
      var e, rest := EncodeChar(s[0]), Encode(s[1..]);
      var t := e + rest;
      assert Encode(s) == t;
      DecodeEncode(s[1..]);
      if Unreserved(s[0]) {
        assert t[0] == s[0] && t[0] != '%';
        assert t[1..] == rest;
      } else {
        assert t[0] == '%' && t[1] == e[1] && t[2] == e[2];
        assert t[3..] == rest;
        assert (s[0] as int) as char == s[0];
      }
      assert [s[0]] + s[1..] == s;
    }
  }

  /** The encoder only writes kept characters and well-formed `%XX` triples. */
  lemma {:induction false} EncodeIsEncoded(s: string)
    requires IsAscii(s)
    ensures Encoded(Encode(s))
    decreases |s|
  {
    if s != [] {
      var e, rest := EncodeChar(s[0]), Encode(s[1..]);
      var t := e + rest;
      assert Encode(s) == t;
      EncodeIsEncoded(s[1..]);
      if Unreserved(s[0]) {
        assert t[0] == s[0] && t[1..] == rest;
      } else {
        assert t[0] == '%' && !Unreserved(t[0]) && t[1] == e[1] && t[2] == e[2];
        assert t[3..] == rest;
      }
    }
  }

  /** Every character of an encoded text is kept, a `%`, or an upper-case digit. */
  lemma {:induction false} EncodedAlphabet(t: string)
    requires Encoded(t)
    ensures forall i :: 0 <= i < |t| ==> Unreserved(t[i]) || t[i] == '%' || IsUpperHexDigit(t[i])
    decreases |t|
  {
    if t != [] {
      if Unreserved(t[0]) {
        EncodedAlphabet(t[1..]);
        assert forall i :: 1 <= i < |t| ==> t[i] == t[1..][i - 1];
      } else {
        EncodedAlphabet(t[3..]);
        assert forall i :: 3 <= i < |t| ==> t[i] == t[3..][i - 3];
      }
    }
  }

  /** The characters that delimit a URL, its query or a parameter, and the
      two a form decoder would turn into a space. */
  predicate Delimiter(c: char)
  {
    c == '&' || c == '=' || c == '?' || c == '#' || c == '/' || c == '+' || c == ' '
  }

  /** The encoding holds none of the characters that delimit a URL or its
      query, and neither `+` nor a space. */
  lemma EncodeAvoidsDelimiters(s: string)
    requires IsAscii(s)
    ensures forall i :: 0 <= i < |Encode(s)| ==> !Delimiter(Encode(s)[i])
    ensures '&' !in Encode(s) && '=' !in Encode(s) && '?' !in Encode(s) && '#' !in Encode(s)
  {
    EncodeIsEncoded(s);
    EncodedAlphabet(Encode(s));
  }

  /** The encoding is never shorter than the text nor more than three times
      as long, and it is the text itself
      exactly when every character is kept. */
  lemma {:induction false} EncodeFixesUnreserved(s: string)
    requires IsAscii(s)
    ensures |s| <= |Encode(s)| <= 3 * |s|
    ensures (Encode(s) == s) <==> (forall i :: 0 <= i < |s| ==> Unreserved(s[i]))
    decreases |s|
  {
    if s != [] {
      var e, rest := EncodeChar(s[0]), Encode(s[1..]);
      assert Encode(s) == e + rest;
      EncodeFixesUnreserved(s[1..]);
      assert forall i :: 1 <= i < |s| ==> s[i] == s[1..][i - 1];
      if Unreserved(s[0]) {
        assert [s[0]] + s[1..] == s;
        if Encode(s) == s {
          assert rest == (e + rest)[1..] == s[1..];
        }
      } else {
        assert |Encode(s)| > |s|;
      }
    }
  }
}
