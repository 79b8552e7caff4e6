/**
 * The path-to-URI transformation of the renderer's `togglePlay`: every
 * backslash becomes '/', `encodeURI` is applied, then '#' becomes "%23"
 * and '?' becomes "%3F", and the result is put after "file:///".
 *
 * `encodeURI` keeps the ASCII letters and digits and the marks
 * `- _ . ! ~ * ' ( ) ; , / ? : @ & = + $ #`, and writes every other
 * character as the UTF-8 bytes of its scalar value, each as '%' and two
 * upper-case hexadecimal digits.
 */
module Uri {

  /** A character `encodeURI` leaves as it is. */
  predicate IsUriUnescaped(c: char)
  {
    || ('A' <= c <= 'Z') || ('a' <= c <= 'z') || ('0' <= c <= '9')
    || c == '-' || c == '_' || c == '.' || c == '!' || c == '~' || c == '*' || c == '\'' || c == '(' || c == ')'
    || c == ';' || c == ',' || c == '/' || c == '?' || c == ':' || c == '@' || c == '&' || c == '=' || c == '+'
    || c == '$' || c == '#'
  }

  // ------------------------------------------------------------------
  // Bytes and hexadecimal digits
  // ------------------------------------------------------------------

  /** The UTF-8 encoding of one Unicode scalar value. */
  function Utf8(c: char): (r: seq<nat>)
    ensures 1 <= |r| <= 4
    ensures forall k :: 0 <= k < |r| ==> r[k] < 256
    ensures (r[0] < 0x80) <==> (c as int) < 0x80
    ensures (c as int) < 0x80 ==> r == [c as int]
    ensures forall k :: 1 <= k < |r| ==> 0x80 <= r[k] < 0xC0
  {
    var n := c as int;
    if n < 0x80 then [n]
    else if n < 0x800 then [0xC0 + n / 64, 0x80 + n % 64]
    else if n < 0x1_0000 then [0xE0 + n / 4096, 0x80 + (n / 64) % 64, 0x80 + n % 64]
    else [0xF0 + n / 262144, 0x80 + (n / 4096) % 64, 0x80 + (n / 64) % 64, 0x80 + n % 64]
  }

  /** The scalar value read back from a 1- to 4-byte encoding. */
  function Utf8Value(r: seq<nat>): int
  {
    var b := seq(|r|, k requires 0 <= k < |r| => r[k] as int);
    if |b| == 1 then b[0]
    else if |b| == 2 then (b[0] - 0xC0) * 64 + (b[1] - 0x80)
    else if |b| == 3 then (b[0] - 0xE0) * 4096 + (b[1] - 0x80) * 64 + (b[2] - 0x80)
    else if |b| == 4 then (b[0] - 0xF0) * 262144 + (b[1] - 0x80) * 4096 + (b[2] - 0x80) * 64 + (b[3] - 0x80)
    else 0
  }

  /** Reading an encoding back gives the scalar value encoded. */
  lemma Utf8Decodes(c: char)
    ensures Utf8Value(Utf8(c)) == c as int
  {
    var n := c as int;
    if n < 0x80 {
    } else if n < 0x800 {
      assert n == (n / 64) * 64 + n % 64;
    } else if n < 0x1_0000 {
      assert n / 64 == (n / 4096) * 64 + (n / 64) % 64;
      assert n == (n / 64) * 64 + n % 64;
    } else {
      assert n / 4096 == (n / 262144) * 64 + (n / 4096) % 64;
      assert n / 64 == (n / 4096) * 64 + (n / 64) % 64;
      assert n == (n / 64) * 64 + n % 64;
    }
  }

  /** Two characters with the same encoding are the same character. */
  lemma Utf8Injective(a: char, b: char)
    ensures Utf8(a) == Utf8(b) ==> a == b
  {
    Utf8Decodes(a);
    Utf8Decodes(b);
  }

  const HexDigits: string := "0123456789ABCDEF"

  predicate IsHexDigit(c: char)
  {
    ('0' <= c <= '9') || ('A' <= c <= 'F') || ('a' <= c <= 'f')
  }

  function HexValue(c: char): (v: nat)
    requires IsHexDigit(c)
    ensures v < 16
  {
    if '0' <= c <= '9' then (c as int) - ('0' as int)
    else if 'A' <= c <= 'F' then (c as int) - ('A' as int) + 10
    else (c as int) - ('a' as int) + 10
  }

  /** The upper-case hexadecimal digit of `v`; reading it back gives `v`. */
  function HexDigit(v: nat): (c: char)
    requires v < 16
    ensures IsHexDigit(c) && HexValue(c) == v
    ensures ('0' <= c <= '9') || ('A' <= c <= 'F')
  {
    HexDigits[v]
  }

  /** Each byte as '%' and two upper-case hexadecimal digits. */
  function PercentBytes(bytes: seq<nat>): (r: string)
    requires forall k :: 0 <= k < |bytes| ==> bytes[k] < 256
    ensures |r| == 3 * |bytes|
  {
    if bytes == [] then []
    else ['%', HexDigit(bytes[0] / 16), HexDigit(bytes[0] % 16)] + PercentBytes(bytes[1..])
  }

  // ------------------------------------------------------------------
  // The three steps, as the renderer writes them
  // ------------------------------------------------------------------

  /** `path.replace(/\\/g, '/')`. */
  function SlashPath(p: string): (r: string)
    ensures |r| == |p|
    ensures '\\' !in r
    ensures forall i :: 0 <= i < |p| ==> r[i] == (if p[i] == '\\' then '/' else p[i])
  {
    seq(|p|, i requires 0 <= i < |p| => if p[i] == '\\' then '/' else p[i])
  }

  /**
   * What `encodeURI` writes for one character: the character itself when
   * it is kept, else a '%' escape; either way only '%' and kept characters.
   */
  function EncodeUriChar(c: char): (r: string)
    ensures r != [] && forall x :: x in r ==> x == '%' || IsUriUnescaped(x)
    ensures IsUriUnescaped(c) ==> r == [c]
    ensures !IsUriUnescaped(c) ==> r[0] == '%'
  {
    if IsUriUnescaped(c) then [c]
    else
      PercentBytesAlphabet(Utf8(c));
      PercentBytes(Utf8(c))
  }

  /**
   * `encodeURI(s)`, one character after another: never shorter than `s`,
   * made of '%' and kept characters, and the identity on a text of kept
   * characters.
   */
  function EncodeUri(s: string): (r: string)
    ensures |s| <= |r|
    ensures forall x :: x in r ==> x == '%' || IsUriUnescaped(x)
    ensures (forall k :: 0 <= k < |s| ==> IsUriUnescaped(s[k])) ==> r == s
  {
    if s == [] then [] else EncodeUriChar(s[0]) + EncodeUri(s[1..])
  }

  /** `s.replace(/c/g, t)` for a one-character pattern `c`: every character left is one of `s` other than `c`, or one of `t`. */
  function ReplaceAll(s: string, c: char, t: string): (r: string)
    ensures forall x :: x in r ==> (x in s && x != c) || x in t
  {
    if s == [] then [] else (if s[0] == c then t else [s[0]]) + ReplaceAll(s[1..], c, t)
  }

  /**
   * `encodeURI(cleanPath).replace(/#/g, '%23').replace(/\?/g, '%3F')`: the
   * normalised path written character by character as its escape.
   */
  function EncodedPath(p: string): (r: string)
    ensures r == Escape(SlashPath(p))
  {
    EncodeThenReplaceIsEscape(SlashPath(p));
    ReplaceAll(ReplaceAll(EncodeUri(SlashPath(p)), '#', "%23"), '?', "%3F")
  }

  /** The source given to the audio element: `file:///` and the encoded path. */
  function FileUri(p: string): (r: string)
    ensures |r| == 8 + |EncodedPath(p)| && r[..8] == "file:///" && r[8..] == EncodedPath(p)
  {
    "file:///" + EncodedPath(p)
  }

  // ------------------------------------------------------------------
  // The reference view: one piece per character
  // ------------------------------------------------------------------

  /** A character that survives all three steps unchanged. */
  predicate IsKept(c: char)
  {
    IsUriUnescaped(c) && c != '#' && c != '?'
  }

  /** The text each character of the normalised path becomes: itself, or its UTF-8 bytes percent-encoded. */
  function Piece(c: char): string
  {
    if IsKept(c) then [c] else PercentBytes(Utf8(c))
  }

  function Escape(s: string): string
  {
    if s == [] then [] else Piece(s[0]) + Escape(s[1..])
  }

  lemma {:induction false} ReplaceAllConcat(a: string, b: string, c: char, t: string)
    ensures ReplaceAll(a + b, c, t) == ReplaceAll(a, c, t) + ReplaceAll(b, c, t)
    decreases |a|
  {
    if a == [] {
      assert a + b == b;
    } else {
      assert (a + b)[0] == a[0];
      assert (a + b)[1..] == a[1..] + b;
      ReplaceAllConcat(a[1..], b, c, t);
    }
  }

  lemma {:induction false} ReplaceAllAbsent(s: string, c: char, t: string)
    requires c !in s
    ensures ReplaceAll(s, c, t) == s
    decreases |s|
  {
    if s != [] {
      assert s[1..] + [] == s[1..];
      assert c !in s[1..] by { assert forall x :: x in s[1..] ==> x in s; }
      ReplaceAllAbsent(s[1..], c, t);
      assert [s[0]] + s[1..] == s;
    }
  }

  /** Percent-encoded bytes consist of '%' and hexadecimal digits only. */
  lemma {:induction false} PercentBytesAlphabet(bytes: seq<nat>)
    requires forall k :: 0 <= k < |bytes| ==> bytes[k] < 256
    ensures forall x :: x in PercentBytes(bytes) ==> x == '%' || ('0' <= x <= '9') || ('A' <= x <= 'F')
    decreases |bytes|
  {
    if bytes != [] {
      PercentBytesAlphabet(bytes[1..]);
    }
  }

  /** The percent form of '#', '?' and ' '. */
  lemma PercentOfAscii(c: char)
    requires c == '#' || c == '?' || c == ' '
    ensures PercentBytes(Utf8(c)) == ['%', HexDigits[(c as int) / 16], HexDigits[(c as int) % 16]]
    ensures c == '#' ==> PercentBytes(Utf8(c)) == "%23"
    ensures c == '?' ==> PercentBytes(Utf8(c)) == "%3F"
    ensures c == ' ' ==> PercentBytes(Utf8(c)) == "%20"
  {
    assert Utf8(c) == [c as int];
    assert PercentBytes([c as int]) == ['%', HexDigit((c as int) / 16), HexDigit((c as int) % 16)] + PercentBytes([]);
  }

  /** After the two replacements, each character's `encodeURI` text is its piece. */
  lemma PieceOfChar(c: char)
    ensures ReplaceAll(ReplaceAll(EncodeUriChar(c), '#', "%23"), '?', "%3F") == Piece(c)
  {
    if c == '#' {
      assert ReplaceAll(['#'], '#', "%23") == "%23" + ReplaceAll([], '#', "%23");
      PercentOfAscii(c);
      ReplaceAllAbsent("%23", '?', "%3F");
    } else if c == '?' {
      assert ReplaceAll(['?'], '#', "%23") == ['?'] + ReplaceAll([], '#', "%23");
      assert ReplaceAll(['?'], '?', "%3F") == "%3F" + ReplaceAll([], '?', "%3F");
      PercentOfAscii(c);
    } else if IsUriUnescaped(c) {
      ReplaceAllAbsent([c], '#', "%23");
      ReplaceAllAbsent([c], '?', "%3F");
    } else {
      PercentBytesAlphabet(Utf8(c));
      ReplaceAllAbsent(PercentBytes(Utf8(c)), '#', "%23");
      ReplaceAllAbsent(PercentBytes(Utf8(c)), '?', "%3F");
    }
  }

  lemma {:induction false} EscapeConcat(a: string, b: string)
    ensures Escape(a + b) == Escape(a) + Escape(b)
    decreases |a|
  {
    if a == [] {
      assert a + b == b;
    } else {
      assert (a + b)[0] == a[0];
      assert (a + b)[1..] == a[1..] + b;
      EscapeConcat(a[1..], b);
    }
  }

  /** Text made only of kept characters is its own escape. */
  lemma {:induction false} EscapeKept(s: string)
    requires forall k :: 0 <= k < |s| ==> IsKept(s[k])
    ensures Escape(s) == s
    decreases |s|
  {
    if s != [] {
      EscapeKept(s[1..]);
      assert [s[0]] + s[1..] == s;
    }
  }

  lemma {:induction false} EncodeThenReplaceIsEscape(s: string)
    ensures ReplaceAll(ReplaceAll(EncodeUri(s), '#', "%23"), '?', "%3F") == Escape(s)
    decreases |s|
  {
    if s != [] {
      var head := EncodeUriChar(s[0]);
      var tail := EncodeUri(s[1..]);
      ReplaceAllConcat(head, tail, '#', "%23");
      ReplaceAllConcat(ReplaceAll(head, '#', "%23"), ReplaceAll(tail, '#', "%23"), '?', "%3F");
      PieceOfChar(s[0]);
      EncodeThenReplaceIsEscape(s[1..]);
    }
  }

  // ------------------------------------------------------------------
  // What the encoded path contains
  // ------------------------------------------------------------------

  /** A character that may appear in an escaped text. */
  predicate IsEscapedChar(x: char)
  {
    IsKept(x) || x == '%'
  }

  lemma {:induction false} EscapeAlphabet(s: string)
    ensures forall x :: x in Escape(s) ==> IsEscapedChar(x)
    decreases |s|
  {
    if s != [] {
      if !IsKept(s[0]) {
        PercentBytesAlphabet(Utf8(s[0]));
      }
      EscapeAlphabet(s[1..]);
    }
  }

  /**
   * The encoded path holds no backslash, '#', '?' or space, so the URI
   * built from it has no fragment or query and no separator other than '/'.
   */
  lemma EncodedPathIsClean(p: string)
    ensures forall x :: x in EncodedPath(p) ==> x != '\\' && x != '#' && x != '?' && x != ' '
    ensures forall x :: x in EncodedPath(p) ==> x == '%' || IsKept(x)
  {
    EscapeAlphabet(SlashPath(p));
  }

  // ------------------------------------------------------------------
  // Round trip: percent-decoding gives back the UTF-8 bytes of the path
  // ------------------------------------------------------------------

  /** Percent-decoding into bytes: "%XY" is one byte, any other character stands for its code. */
  function PercentDecode(s: string): (r: seq<int>)
    decreases |s|
  {
    if s == [] then []
    else if s[0] == '%' && |s| >= 3 && IsHexDigit(s[1]) && IsHexDigit(s[2]) then
      [HexValue(s[1]) * 16 + HexValue(s[2])] + PercentDecode(s[3..])
    else [s[0] as int] + PercentDecode(s[1..])
  }

  /** The UTF-8 bytes of a whole string. */
  function Utf8String(s: string): seq<int>
  {
    if s == [] then [] else Utf8(s[0]) + Utf8String(s[1..])
  }

  lemma DecodeOneByte(b: nat, more: string)
    requires b < 256
    ensures PercentDecode(['%', HexDigit(b / 16), HexDigit(b % 16)] + more) == [b] + PercentDecode(more)
  {
    var hi, lo := HexDigit(b / 16), HexDigit(b % 16);
    var s := ['%', hi, lo] + more;
    assert s[0] == '%' && s[1] == hi && s[2] == lo && s[3..] == more;
    assert HexValue(hi) * 16 + HexValue(lo) == b;
  }

  lemma {:induction false} DecodePercentBytes(bytes: seq<nat>, rest: string)
    requires forall k :: 0 <= k < |bytes| ==> bytes[k] < 256
    ensures PercentDecode(PercentBytes(bytes) + rest) == bytes + PercentDecode(rest)
    decreases |bytes|
  {
    if bytes != [] {
      var b := bytes[0];
      var more := PercentBytes(bytes[1..]) + rest;
      assert PercentBytes(bytes) + rest == ['%', HexDigit(b / 16), HexDigit(b % 16)] + more;
      DecodeOneByte(b, more);
      DecodePercentBytes(bytes[1..], rest);
      assert bytes == [b] + bytes[1..];
    } else {
      assert PercentBytes(bytes) + rest == rest;
    }
  }

  lemma DecodePiece(c: char, rest: string)
    ensures PercentDecode(Piece(c) + rest) == Utf8(c) + PercentDecode(rest)
  {
    if IsKept(c) {
      var s := [c] + rest;
      assert s[1..] == rest;
    } else {
      DecodePercentBytes(Utf8(c), rest);
    }
  }

  lemma {:induction false} DecodeEscape(s: string)
    ensures PercentDecode(Escape(s)) == Utf8String(s)
    decreases |s|
  {
    if s != [] {
      DecodePiece(s[0], Escape(s[1..]));
      DecodeEscape(s[1..]);
    }
  }

  /**
   * Decoding the encoded path gives the UTF-8 bytes of the path with its
   * backslashes turned into '/'; by `Utf8Injective`, the bytes of each
   * character determine that character.
   */
  lemma EncodedPathRoundTrip(p: string)
    ensures PercentDecode(EncodedPath(p)) == Utf8String(SlashPath(p))
  {
    DecodeEscape(SlashPath(p));
  }

  /** A path made only of characters the encoding keeps is its own encoding. */
  lemma EncodedPlainPath(p: string)
    requires forall k :: 0 <= k < |p| ==> IsKept(p[k])
    ensures EncodedPath(p) == p
  {
    assert SlashPath(p) == p;
    EscapeKept(p);
  }
}
