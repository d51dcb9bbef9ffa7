/** `enc(name)` (generate.py), which is `urllib.parse.quote(name)` with the
    default `safe="/"`: the name is encoded as UTF-8 and every byte outside
    `A-Za-z0-9_.-~` and `/` is written `%XX` with upper-case hexadecimal
    digits. Its partner here is a decoder that accepts exactly the strings
    `quote` produces and gives back the name. */
module Quote {
  import opened Types
  import opened Text

  // ---- UTF-8 (section 3 of RFC 3629) ----

  /** The UTF-8 bytes of one character. */
  function Utf8Char(c: char): (b: seq<byte>)
    ensures 1 <= |b| <= 4
  {
    var n := c as int;
    if n < 0x80 then [n as byte]
    else if n < 0x800 then [(0xC0 + n / 64) as byte, (0x80 + n % 64) as byte]
    else if n < 0x10000 then
      [(0xE0 + n / 64 / 64) as byte, (0x80 + n / 64 % 64) as byte, (0x80 + n % 64) as byte]
    else
      [(0xF0 + n / 64 / 64 / 64) as byte, (0x80 + n / 64 / 64 % 64) as byte,
       (0x80 + n / 64 % 64) as byte, (0x80 + n % 64) as byte]
  }

  /** `s.encode("utf-8")`. */
  function Utf8(s: string): seq<byte> {
    if s == [] then [] else Utf8Char(s[0]) + Utf8(s[1..])
  }

  predicate IsCont(b: byte) { 0x80 <= b < 0xC0 }

  /** The code points a `char` can hold: everything up to U+10FFFF except
      the surrogates. */
  predicate IsScalar(n: int) { 0 <= n < 0xD800 || 0xE000 <= n < 0x110000 }

  /** Decodes the character at the front of `b`: the character and the
      number of bytes it takes. Over-long forms, surrogates and code points
      above U+10FFFF are refused. */
  function DecodeChar(b: seq<byte>): (r: Option<(char, nat)>)
    requires b != []
    ensures r.Some? ==> 1 <= r.value.1 <= |b| && r.value.1 <= 4
  {
    var b0 := b[0] as int;
    if b0 < 0x80 then Some((b0 as char, 1))
    else if 0xC0 <= b0 < 0xE0 then
      if |b| >= 2 && IsCont(b[1]) then
        var n := (b0 - 0xC0) * 64 + (b[1] as int - 0x80);
        if 0x80 <= n then Some((n as char, 2)) else None
      else None
    else if 0xE0 <= b0 < 0xF0 then
      if |b| >= 3 && IsCont(b[1]) && IsCont(b[2]) then
        var n := ((b0 - 0xE0) * 64 + (b[1] as int - 0x80)) * 64 + (b[2] as int - 0x80);
        if 0x800 <= n && IsScalar(n) then Some((n as char, 3)) else None
      else None
    else if 0xF0 <= b0 < 0xF8 then
      if |b| >= 4 && IsCont(b[1]) && IsCont(b[2]) && IsCont(b[3]) then
        var n := (((b0 - 0xF0) * 64 + (b[1] as int - 0x80)) * 64 + (b[2] as int - 0x80)) * 64 + (b[3] as int - 0x80);
        if 0x10000 <= n < 0x110000 then Some((n as char, 4)) else None
      else None
    else None
  }

  /** Strict UTF-8 decoding: `None` for any ill-formed byte sequence. */
  function Utf8Decode(b: seq<byte>): Option<string>
    decreases |b|
  {
    if b == [] then Some([])
    else match DecodeChar(b)
      case None => None
      case Some((c, k)) =>
        match Utf8Decode(b[k..])
        case None => None
        case Some(s) => Some([c] + s)
  }

  lemma DivMod64(n: int)
    requires n >= 0
    ensures n == n / 64 * 64 + n % 64 && 0 <= n % 64 < 64
  {
  }

  /** The decoder reads back the bytes of one character, whatever follows. */
  lemma DecodeEncodeChar(c: char, rest: seq<byte>)
    ensures DecodeChar(Utf8Char(c) + rest) == Some((c, |Utf8Char(c)|))
  {
    var n := c as int;
    var b := Utf8Char(c) + rest;
    assert b[..|Utf8Char(c)|] == Utf8Char(c);
    DivMod64(n);
    DivMod64(n / 64);
    DivMod64(n / 64 / 64);
    if n < 0x80 {
    } else if n < 0x800 {
      assert b[0] as int == 0xC0 + n / 64 && b[1] as int == 0x80 + n % 64;
    } else if n < 0x10000 {
      assert b[0] as int == 0xE0 + n / 64 / 64;
      assert b[1] as int == 0x80 + n / 64 % 64 && b[2] as int == 0x80 + n % 64;
    } else {
      assert b[0] as int == 0xF0 + n / 64 / 64 / 64;
      assert b[1] as int == 0x80 + n / 64 / 64 % 64;
      assert b[2] as int == 0x80 + n / 64 % 64 && b[3] as int == 0x80 + n % 64;
    }
  }

  /** Whatever the decoder accepts at the front is exactly the encoding of
      the character it returns. */
  lemma EncodeDecodeChar(b: seq<byte>)
    requires b != [] && DecodeChar(b).Some?
    ensures b[..DecodeChar(b).value.1] == Utf8Char(DecodeChar(b).value.0)
  {
    var b0 := b[0] as int;
    var (c, k) := DecodeChar(b).value;
    var n := c as int;
    if b0 < 0x80 {
    } else if 0xC0 <= b0 < 0xE0 {
      var x1 := b[1] as int - 0x80;
      assert n == (b0 - 0xC0) * 64 + x1;
      assert n / 64 == b0 - 0xC0 && n % 64 == x1;
    } else if 0xE0 <= b0 < 0xF0 {
      var x1, x2 := b[1] as int - 0x80, b[2] as int - 0x80;
      var m := (b0 - 0xE0) * 64 + x1;
      assert n == m * 64 + x2;
      assert n / 64 == m && n % 64 == x2;
      assert m / 64 == b0 - 0xE0 && m % 64 == x1;
    } else {
      var x1, x2, x3 := b[1] as int - 0x80, b[2] as int - 0x80, b[3] as int - 0x80;
      var m1 := (b0 - 0xF0) * 64 + x1;
      var m2 := m1 * 64 + x2;
      assert n == m2 * 64 + x3;
      assert n / 64 == m2 && n % 64 == x3;
      assert m2 / 64 == m1 && m2 % 64 == x2;
      assert m1 / 64 == b0 - 0xF0 && m1 % 64 == x1;
    }
  }

  /** Decoding undoes encoding. */
  lemma {:induction false} Utf8RoundTrip(s: string)
    ensures Utf8Decode(Utf8(s)) == Some(s)
  {
    if s != [] {
      var b := Utf8(s);
      var e := Utf8Char(s[0]);
      DecodeEncodeChar(s[0], Utf8(s[1..]));
      assert b[|e|..] == Utf8(s[1..]);
      Utf8RoundTrip(s[1..]);
      assert [s[0]] + s[1..] == s;
    }
  }

  /** The decoder accepts only what the encoder produces. */
  lemma {:induction false} Utf8DecodeExact(b: seq<byte>)
    ensures Utf8Decode(b).Some? ==> Utf8(Utf8Decode(b).value) == b
    decreases |b|
  {
    if b != [] && Utf8Decode(b).Some? {
      var c, k, t := DecodeFront(b);
      Utf8DecodeExact(b[k..]);
      Utf8Cons(c, t);
      assert b == b[..k] + b[k..];
    }
  }

  /** The first step of a successful decoding: the bytes of one character,
      then the decoding of the rest. */
  lemma DecodeFront(b: seq<byte>) returns (c: char, k: nat, t: string)
    requires b != [] && Utf8Decode(b).Some?
    ensures 1 <= k <= |b| && b[..k] == Utf8Char(c)
    ensures Utf8Decode(b[k..]) == Some(t) && Utf8Decode(b).value == [c] + t
  {
    c, k := DecodeChar(b).value.0, DecodeChar(b).value.1;
    t := Utf8Decode(b[k..]).value;
    EncodeDecodeChar(b);
  }

  lemma Utf8Cons(c: char, t: string)
    ensures Utf8([c] + t) == Utf8Char(c) + Utf8(t)
  {
    assert ([c] + t)[0] == c && ([c] + t)[1..] == t;
  }

  // ---- percent-encoding ----

  /** The characters `quote` keeps: `_ALWAYS_SAFE` and the default safe `/`. */
  predicate IsSafeChar(c: char) {
    IsAsciiLetter(c) || IsDigit(c) || c == '_' || c == '.' || c == '-' || c == '~' || c == '/'
  }

  predicate IsSafeByte(b: byte) { IsSafeChar(b as int as char) }

  const HexDigits: string := "0123456789ABCDEF"

  predicate IsUpperHex(c: char) { IsDigit(c) || 'A' <= c <= 'F' }

  function HexValue(c: char): (v: nat)
    requires IsUpperHex(c)
    ensures v < 16 && HexDigits[v] == c
  {
    if IsDigit(c) then c as int - '0' as int else c as int - 'A' as int + 10
  }

  /** One byte as `quote` writes it: the byte's character when it is safe,
      otherwise `'%{:02X}'.format(b)`. */
  function QuoteByte(b: byte): string {
    if IsSafeByte(b) then [b as int as char]
    else ['%', HexDigits[b as int / 16], HexDigits[b as int % 16]]
  }

  /** `quote_from_bytes(b, safe="/")`. */
  function QuoteBytes(b: seq<byte>): string {
    if b == [] then [] else QuoteByte(b[0]) + QuoteBytes(b[1..])
  }

  /** `enc(name)`. */
  function Enc(name: string): string {
    QuoteBytes(Utf8(name))
  }

  /** Reads back the bytes of a string `quote` could have written: safe
      characters stand for themselves, `%XX` with upper-case digits stands for
      a byte that is not safe; anything else is refused. */
  function PercentDecode(s: string): Option<seq<byte>>
    decreases |s|
  {
    if s == [] then Some([])
    else if s[0] == '%' then
      if |s| >= 3 && IsUpperHex(s[1]) && IsUpperHex(s[2]) then
        var b := (HexValue(s[1]) * 16 + HexValue(s[2])) as byte;
        if IsSafeByte(b) then None
        else match PercentDecode(s[3..])
          case None => None
          case Some(rest) => Some([b] + rest)
      else None
    else if IsSafeChar(s[0]) then
      match PercentDecode(s[1..])
      case None => None
      case Some(rest) => Some([s[0] as int as byte] + rest)
    else None
  }

  /** The inverse of `enc`. */
  function Unquote(s: string): Option<string> {
    match PercentDecode(s)
    case None => None
    case Some(b) => Utf8Decode(b)
  }

  lemma HexOfByte(b: byte)
    ensures HexDigits[b as int / 16] != '%' && IsUpperHex(HexDigits[b as int / 16])
    ensures IsUpperHex(HexDigits[b as int % 16])
    ensures HexValue(HexDigits[b as int / 16]) * 16 + HexValue(HexDigits[b as int % 16]) == b as int
  {
    var hi, lo := b as int / 16, b as int % 16;
    assert HexValue(HexDigits[hi]) == hi by {
      assert HexDigits[HexValue(HexDigits[hi])] == HexDigits[hi];
    }
    assert HexValue(HexDigits[lo]) == lo by {
      assert HexDigits[HexValue(HexDigits[lo])] == HexDigits[lo];
    }
  }

  /** The decoder reads back one written byte, whatever follows. */
  lemma DecodeQuoteByte(b: byte, rest: string)
    requires PercentDecode(rest).Some?
    ensures PercentDecode(QuoteByte(b) + rest) == Some([b] + PercentDecode(rest).value)
  {
    var s := QuoteByte(b) + rest;
    if IsSafeByte(b) {
      assert s[0] == b as int as char && s[1..] == rest;
    } else {
      HexOfByte(b);
      assert s[0] == '%' && s[3..] == rest;
    }
  }

  /** Percent-decoding undoes `quote_from_bytes`. */
  lemma {:induction false} PercentRoundTrip(b: seq<byte>)
    ensures PercentDecode(QuoteBytes(b)) == Some(b)
  {
    if b != [] {
      PercentRoundTrip(b[1..]);
      DecodeQuoteByte(b[0], QuoteBytes(b[1..]));
      assert [b[0]] + b[1..] == b;
    }
  }

  /** Percent-decoding accepts only what `quote_from_bytes` writes. */
  lemma {:induction false} PercentDecodeExact(s: string)
    ensures PercentDecode(s).Some? ==> QuoteBytes(PercentDecode(s).value) == s
    decreases |s|
  {
    if s != [] && PercentDecode(s).Some? {
      var x, k, rest := PercentFront(s);
      PercentDecodeExact(s[k..]);
      assert QuoteBytes([x] + rest) == QuoteByte(x) + QuoteBytes(rest) by {
        assert ([x] + rest)[0] == x && ([x] + rest)[1..] == rest;
      }
      assert s == s[..k] + s[k..];
    }
  }

  /** The first step of a successful percent-decoding: one byte as `quote`
      writes it, then the decoding of the rest. */
  lemma PercentFront(s: string) returns (x: byte, k: nat, rest: seq<byte>)
    requires s != [] && PercentDecode(s).Some?
    ensures 1 <= k <= |s| && s[..k] == QuoteByte(x)
    ensures PercentDecode(s[k..]) == Some(rest) && PercentDecode(s).value == [x] + rest
  {
    var b := PercentDecode(s).value;
    x := b[0];
    if s[0] == '%' {
      k := 3;
      assert x as int == HexValue(s[1]) * 16 + HexValue(s[2]);
      assert x as int / 16 == HexValue(s[1]) && x as int % 16 == HexValue(s[2]);
    } else {
      k := 1;
    }
    rest := PercentDecode(s[k..]).value;
  }

  /** What `enc` writes: safe characters, `%` and upper-case hexadecimal
      digits, nothing else. So the result needs no further escaping in a URL
      path. */
  predicate IsEncodedChar(c: char) { IsSafeChar(c) || c == '%' || IsUpperHex(c) }

  lemma {:induction false} QuoteBytesAlphabet(b: seq<byte>)
    ensures forall k :: 0 <= k < |QuoteBytes(b)| ==> IsEncodedChar(QuoteBytes(b)[k])
  {
    if b != [] {
      QuoteBytesAlphabet(b[1..]);
      HexOfByte(b[0]);
      var q, r := QuoteByte(b[0]), QuoteBytes(b[1..]);
      forall k | 0 <= k < |q + r| ensures IsEncodedChar((q + r)[k]) {
        if k >= |q| { assert (q + r)[k] == r[k - |q|]; }
      }
    }
  }

  /** `enc` and its inverse: every name comes back from its encoding, the
      encoding uses only URL-safe characters, and so no two names share an
      encoding. */
  lemma EncRoundTrip(name: string)
    ensures Unquote(Enc(name)) == Some(name)
    ensures forall k :: 0 <= k < |Enc(name)| ==> IsEncodedChar(Enc(name)[k])
  {
    PercentRoundTrip(Utf8(name));
    Utf8RoundTrip(name);
    QuoteBytesAlphabet(Utf8(name));
  }

  /** The decoder accepts exactly the encodings of names. */
  lemma UnquoteExact(s: string)
    ensures Unquote(s).Some? ==> Enc(Unquote(s).value) == s
  {
    if Unquote(s).Some? {
      PercentDecodeExact(s);
      Utf8DecodeExact(PercentDecode(s).value);
    }
  }

  lemma EncInjective(a: string, b: string)
    ensures Enc(a) == Enc(b) ==> a == b
  {
    EncRoundTrip(a);
    EncRoundTrip(b);
  }

  /** `enc` works character by character. */
  lemma {:induction false} EncAppend(a: string, b: string)
    ensures Enc(a + b) == Enc(a) + Enc(b)
  {
    Utf8Append(a, b);
    QuoteBytesAppend(Utf8(a), Utf8(b));
  }

  lemma {:induction false} Utf8Append(a: string, b: string)
    ensures Utf8(a + b) == Utf8(a) + Utf8(b)
  {
    if a == [] {
      assert a + b == b;
    } else {
      assert (a + b)[0] == a[0] && (a + b)[1..] == a[1..] + b;
      Utf8Append(a[1..], b);
    }
  }

  lemma {:induction false} QuoteBytesAppend(a: seq<byte>, b: seq<byte>)
    ensures QuoteBytes(a + b) == QuoteBytes(a) + QuoteBytes(b)
  {
    if a == [] {
      assert a + b == b;
    } else {
      assert (a + b)[0] == a[0] && (a + b)[1..] == a[1..] + b;
      QuoteBytesAppend(a[1..], b);
    }
  }

  /** A name made only of safe characters is its own encoding. */
  lemma {:induction false} EncKeepsSafe(name: string)
    requires forall k :: 0 <= k < |name| ==> IsSafeChar(name[k])
    ensures Enc(name) == name
  {
    if name != [] {
      EncKeepsSafe(name[1..]);
      assert Utf8Char(name[0]) == [name[0] as int as byte];
      assert Utf8(name) == [name[0] as int as byte] + Utf8(name[1..]);
      assert QuoteBytes(Utf8(name)) == QuoteByte(name[0] as int as byte) + QuoteBytes(Utf8(name[1..]));
      assert [name[0]] + name[1..] == name;
    }
  }

  /** A space is written `%20`, so the file names of the gallery, which
      contain spaces, reach the browser as, for example,
      `2024-03-05%20at%2014.30.00%20in%20Glasgow.jpg`. */
  lemma EncSpace(a: string, b: string)
    requires forall k :: 0 <= k < |a| ==> IsSafeChar(a[k])
    requires forall k :: 0 <= k < |b| ==> IsSafeChar(b[k])
    ensures Enc(a + " " + b) == a + "%20" + b
  {
    EncAppend(a + " ", b);
    EncAppend(a, " ");
    EncKeepsSafe(a);
    EncKeepsSafe(b);
    assert Utf8(" ") == [32 as byte] by {
      assert " "[1..] == [];
    }
    assert QuoteBytes([32 as byte]) == QuoteByte(32 as byte) by {
      assert [32 as byte][1..] == [];
    }
    assert Enc(" ") == "%20";
  }
}
