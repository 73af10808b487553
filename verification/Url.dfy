/**
 URLs: the RFC 1738 encoding of src/libmhe/strq.c, url_parse of src/ftp/url.c, and the command of
 src/commands.c that prints the current URL.

 Bytes are characters below 256.
 */
module Url {
  import opened CString
  import opened Sequences
  import CommandLine

  // ----- the encoding

  predicate Bytes(s: string) {
    forall k :: 0 <= k < |s| ==> s[k] as int < 256
  }

  predicate IsSpecial(c: char) {
    || c == ' ' || c == '<' || c == '>' || c == '"' || c == '#' || c == '%' || c == '{' || c == '}' || c == '|'
    || c == '\\' || c == '^' || c == '~' || c == '[' || c == ']' || c == '`'
  }

  predicate MustEncode(c: char, xtra: string) {
    c as int >= 0x80 || c as int <= 0x1F || c as int == 0x7F || IsSpecial(c) || c in xtra
  }

  function HexDigit(n: nat): char
    requires n < 16
  {
    if n < 10 then '0' + n as char else 'A' + (n - 10) as char
  }

  predicate IsHex(c: char) {
    '0' <= c <= '9' || 'a' <= c <= 'f' || 'A' <= c <= 'F'
  }

  function HexValue(c: char): (n: nat)
    requires IsHex(c)
    ensures n < 16
  {
    if c <= '9' then (c - '0') as nat else if c <= 'F' then 10 + (c - 'A') as nat else 10 + (c - 'a') as nat
  }

  lemma HexRoundTrip(n: nat)
    requires n < 16
    ensures IsHex(HexDigit(n)) && HexValue(HexDigit(n)) == n
  {
  }

  function EncodedChar(c: char, xtra: string): (e: string)
    requires c as int < 256
    ensures e != []
  {
    if MustEncode(c, xtra) then ['%', HexDigit(c as int / 16), HexDigit(c as int % 16)] else [c]
  }

  /** encode_rfc1738. */
  function Encoded(s: string, xtra: string): string
    requires Bytes(s)
  {
    if s == [] then [] else EncodedChar(s[0], xtra) + Encoded(s[1..], xtra)
  }

  /** decode_rfc1738. */
  function Decoded(s: string): string {
    if s == [] then []
    else if s[0] == '%' && |s| > 2 && IsHex(s[1]) && IsHex(s[2]) then
      [(HexValue(s[1]) * 16 + HexValue(s[2])) as char] + Decoded(s[3..])
    else [s[0]] + Decoded(s[1..])
  }

  lemma DecodedChar(c: char, xtra: string, rest: string)
    requires c as int < 256
    ensures Decoded(EncodedChar(c, xtra) + rest) == [c] + Decoded(rest)
  {
    var e := EncodedChar(c, xtra);
    assert (e + rest)[|e|..] == rest;
    if MustEncode(c, xtra) {
      var n := c as int;
      HexRoundTrip(n / 16);
      HexRoundTrip(n % 16);
      hide HexDigit, IsHex, HexValue, MustEncode;
      assert (n / 16) * 16 + n % 16 == n;
    }
  }

  /** Whatever else is to be encoded, decoding gives the text back. */
  lemma {:induction false} DecodeEncoded(s: string, xtra: string)
    requires Bytes(s)
    ensures Decoded(Encoded(s, xtra)) == s
  {
    if s != [] {
      DecodeEncoded(s[1..], xtra);
      DecodedChar(s[0], xtra, Encoded(s[1..], xtra));
    }
  }

  /** A character that a URL may hold (section 2.2 of RFC 1738). */
  predicate UrlSafe(c: char) {
    '!' <= c <= '~' && c !in {'<', '>', '"', '#', '{', '}', '|', '\\', '^', '~', '[', ']', '`'}
  }

  predicate Unreserved(c: char) {
    || 'a' <= c <= 'z' || 'A' <= c <= 'Z' || '0' <= c <= '9'
    || c in {'$', '-', '_', '.', '+', '!', '*', '\'', '(', ')', ','}
  }

  /** An encoded text holds characters that a URL may hold, and nothing of what is to be encoded besides. */
  lemma {:induction false} EncodedIsSafe(s: string, xtra: string, c: char)
    requires Bytes(s) && c in Encoded(s, xtra)
    ensures UrlSafe(c) && (c in xtra ==> c == '%' || '0' <= c <= '9' || 'A' <= c <= 'F')
  {
    if c in EncodedChar(s[0], xtra) {
      CharIsSafe(s[0], xtra, c);
    } else {
      EncodedIsSafe(s[1..], xtra, c);
    }
  }

  lemma CharIsSafe(a: char, xtra: string, c: char)
    requires a as int < 256 && c in EncodedChar(a, xtra)
    ensures UrlSafe(c) && (c in xtra ==> c == '%' || '0' <= c <= '9' || 'A' <= c <= 'F')
  {
    var n := a as int;
    if MustEncode(a, xtra) {
      HexDigits(n / 16);
      HexDigits(n % 16);
      hide HexDigit;
    }
  }

  lemma HexDigits(n: nat)
    requires n < 16
    ensures '0' <= HexDigit(n) <= '9' || 'A' <= HexDigit(n) <= 'F'
  {
  }

  /** Unreserved characters stay as they are. */
  lemma {:induction false} UnreservedKept(s: string, xtra: string)
    requires forall k :: 0 <= k < |s| ==> Unreserved(s[k]) && s[k] !in xtra
    ensures Bytes(s) && Encoded(s, xtra) == s
  {
    if s != [] {
      UnreservedKept(s[1..], xtra);
      assert EncodedChar(s[0], xtra) == [s[0]];
    }
  }

  /** The digit of a number, in either case. */
  predicate IsDigitOf(h: char, n: nat) {
    (n < 10 && h as int == 48 + n) || (10 <= n < 16 && (h as int == 55 + n || h as int == 87 + n))
  }

  /** Both cases of hexadecimal digits are decoded. */
  lemma HexPairs(n: nat, m: nat, h: char, l: char, rest: string)
    requires IsDigitOf(h, n) && IsDigitOf(l, m)
    ensures Decoded(['%', h, l] + rest) == [(16 * n + m) as char] + Decoded(rest)
  {
    var s := ['%', h, l] + rest;
    assert s[3..] == rest && s[1] == h && s[2] == l;
    assert IsHex(h) && HexValue(h) == n && IsHex(l) && HexValue(l) == m;
  }

  /** What may not be left in an encoded text. */
  lemma {:induction false} EncodedFree(s: string, xtra: string, c: char)
    requires Bytes(s) && MustEncode(c, xtra) && c != '%' && !IsHex(c)
    ensures c !in Encoded(s, xtra)
  {
    if s != [] {
      EncodedFree(s[1..], xtra, c);
      var n := s[0] as int;
      HexRoundTrip(n / 16);
      HexRoundTrip(n % 16);
      hide HexDigit, IsHex, IsSpecial;
      assert c !in EncodedChar(s[0], xtra);
    }
  }

  /** encode_url_directory: a leading slash is encoded too. */
  function EncodedDirectory(s: string): string
    requires Bytes(s)
  {
    var e := Encoded(s, ";");
    if e != [] && e[0] == '/' then "%2F" + e[1..] else e
  }

  // ----- what unquoting does to an encoded text

  /** The text without its apostrophes. */
  function NoApostrophes(s: string): (t: string)
    ensures Bytes(s) ==> Bytes(t)
  {
    if s == [] then []
    else if s[0] == '\'' then NoApostrophes(s[1..])
    else [s[0]] + NoApostrophes(s[1..])
  }

  lemma {:induction false} NoApostrophesSame(s: string)
    ensures |NoApostrophes(s)| <= |s|
    ensures NoApostrophes(s) == s <==> '\'' !in s
  {
    if s != [] {
      NoApostrophesSame(s[1..]);
      assert s == [s[0]] + s[1..];
      if s[0] == '\'' {
        assert |NoApostrophes(s)| < |s|;
      } else {
        assert NoApostrophes(s)[1..] == NoApostrophes(s[1..]);
      }
    }
  }

  function Unquoted(s: string): string {
    CommandLine.Dequoted(s, NUL)
  }

  /** A character that is no quote and no backslash passes. */
  lemma PlainPasses(c: char, rest: string, open: char)
    requires c != '\\' && c != '"' && c != '\''
    ensures CommandLine.Dequoted([c] + rest, open) == [c] + CommandLine.Dequoted(rest, open)
  {
    assert ([c] + rest)[1..] == rest;
  }

  lemma HexIsPlain(c: char)
    requires IsHex(c)
    ensures c != '\\' && c != '"' && c != '\''
  {
  }

  lemma CharUnquoted(c: char, xtra: string, rest: string, open: char)
    requires c as int < 256 && c != '\''
    ensures CommandLine.Dequoted(EncodedChar(c, xtra) + rest, open)
              == EncodedChar(c, xtra) + CommandLine.Dequoted(rest, open)
  {
    if MustEncode(c, xtra) {
      var n := c as int;
      HexRoundTrip(n / 16);
      HexRoundTrip(n % 16);
      var h, l := HexDigit(n / 16), HexDigit(n % 16);
      HexIsPlain(h);
      HexIsPlain(l);
      hide HexDigit, IsHex, MustEncode;
      assert ['%', h, l] + rest == ['%'] + ([h] + ([l] + rest));
      PlainPasses('%', [h] + ([l] + rest), open);
      PlainPasses(h, [l] + rest, open);
      PlainPasses(l, rest, open);
    } else {
      PlainPasses(c, rest, open);
    }
  }

  /** Quotes and backslashes are encoded but for the apostrophe; unquoting takes all of those out. */
  lemma {:induction false} UnquoteEncoded(s: string, xtra: string, open: char)
    requires Bytes(s) && '\'' !in xtra && (open == NUL || open == '\'')
    ensures CommandLine.Dequoted(Encoded(s, xtra), open) == Encoded(NoApostrophes(s), xtra)
  {
    if s != [] {
      var rest := Encoded(s[1..], xtra);
      if s[0] == '\'' {
        assert EncodedChar(s[0], xtra) == ['\''];
        assert (['\''] + rest)[1..] == rest;
        UnquoteEncoded(s[1..], xtra, if open == NUL then '\'' else NUL);
      } else {
        UnquoteEncoded(s[1..], xtra, open);
        CharUnquoted(s[0], xtra, rest, open);
        assert NoApostrophes(s)[1..] == NoApostrophes(s[1..]);
      }
    }
  }

  /** The way of a text through encoding, unquoting and decoding. */
  lemma TextArrives(s: string, xtra: string)
    requires Bytes(s) && '\'' !in xtra
    ensures Decoded(Unquoted(Encoded(s, xtra))) == NoApostrophes(s)
  {
    UnquoteEncoded(s, xtra, NUL);
    DecodeEncoded(NoApostrophes(s), xtra);
  }

  /** The same for a directory; a leading slash goes as %2F and comes back. */
  lemma DirectoryArrives(s: string)
    requires Bytes(s)
    ensures Decoded(Unquoted(EncodedDirectory(s))) == NoApostrophes(s)
  {
    if s != [] && s[0] == '/' {
      SlashEncoded(s);
      var rest, t := Encoded(s[1..], ";"), Encoded(NoApostrophes(s[1..]), ";");
      CharUnquoted('/', "/", rest, NUL);
      UnquoteEncoded(s[1..], ";", NUL);
      DecodedChar('/', "/", t);
      DecodeEncoded(NoApostrophes(s[1..]), ";");
      hide Encoded, EncodedChar, Decoded;
    } else {
      if s != [] {
        FirstEncoded(s[0]);
      }
      TextArrives(s, ";");
      hide EncodedChar, Decoded;
      assert EncodedDirectory(s) == Encoded(s, ";");
    }
  }

  lemma SlashEncoded(s: string)
    requires Bytes(s) && s != [] && s[0] == '/'
    ensures EncodedDirectory(s) == EncodedChar('/', "/") + Encoded(s[1..], ";") && EncodedChar('/', "/") == "%2F"
    ensures NoApostrophes(s) == ['/'] + NoApostrophes(s[1..])
  {
    var rest := Encoded(s[1..], ";");
    SlashChars();
    assert Encoded(s, ";") == "/" + rest;
    hide EncodedChar, Encoded, MustEncode, IsSpecial;
    assert ("/" + rest)[1..] == rest;
  }

  lemma SlashChars()
    ensures EncodedChar('/', ";") == "/" && EncodedChar('/', "/") == "%2F"
  {
  }

  lemma FirstEncoded(c: char)
    requires c as int < 256
    ensures EncodedChar(c, ";")[0] == '/' <==> c == '/'
  {
  }

  // ----- searching

  /** strqchr: the first character of that kind without a backslash before it; the length if there is none. */
  function Find(s: string, ch: char): (n: nat)
    ensures n <= |s|
  {
    if s == [] || (s[0] == ch && ch != '\\') then 0
    else if s[0] == '\\' then (if |s| == 1 then 1 else 2 + Find(s[2..], ch))
    else 1 + Find(s[1..], ch)
  }

  /** There is an odd number of backslashes in front of this place. */
  predicate Escaped(s: string, k: nat)
    requires k <= |s|
  {
    k > 0 && s[k - 1] == '\\' && !Escaped(s, k - 1)
  }

  predicate Stops(s: string, ch: char, k: nat) {
    k < |s| && s[k] == ch && !Escaped(s, k)
  }

  /** The search ends at the first character of its kind that is not escaped. */
  lemma {:induction false} FindIs(s: string, ch: char)
    requires ch != '\\'
    ensures Find(s, ch) < |s| ==> Stops(s, ch, Find(s, ch))
    ensures forall k :: 0 <= k < Find(s, ch) ==> !Stops(s, ch, k)
    decreases |s|
  {
    if s != [] && s[0] != ch && s != ['\\'] {
      var j := if s[0] == '\\' then 2 else 1;
      assert !Escaped(s, 0) && Escaped(s, 1) == (s[0] == '\\') && !Escaped(s, j);
      FindIs(s[j..], ch);
      forall k | j <= k <= |s|
        ensures Stops(s, ch, k) == Stops(s[j..], ch, k - j)
      {
        EscapedFrom(s, j, k);
      }
    }
  }

  lemma {:induction false} EscapedFrom(s: string, j: nat, k: nat)
    requires j <= k <= |s| && !Escaped(s, j)
    ensures Escaped(s, k) == Escaped(s[j..], k - j)
    decreases k
  {
    if k > j {
      EscapedFrom(s, j, k - 1);
    }
  }

  /** Behind the quote that closes this one. */
  function BehindQuote(s: string, quote: char): (t: string)
    ensures |t| <= |s|
  {
    if s == [] then []
    else if s[0] == '\\' then (if |s| == 1 then [] else BehindQuote(s[2..], quote))
    else if s[0] == quote then s[1..]
    else BehindQuote(s[1..], quote)
  }

  /** strqnchr: how many there are outside quotes and without a backslash. */
  function Count(s: string, c: char): nat
    decreases |s|
  {
    if s == [] then 0
    else
      var t := if s[0] == '"' || s[0] == '\'' then BehindQuote(s[1..], s[0]) else s;
      if t == [] || t == ['\\'] then 0
      else
        var u := if t[0] == '\\' then t[2..] else t;
        if u == [] then 0 else (if u[0] == c then 1 else 0) + Count(u[1..], c)
  }

  lemma {:induction false} FindBehind(a: string, ch: char, b: string)
    requires '\\' !in a && ch !in a && ch != '\\'
    ensures Find(a + [ch] + b, ch) == |a| && Find(a, ch) == |a|
  {
    if a != [] {
      FindBehind(a[1..], ch, b);
      assert (a + [ch] + b)[1..] == a[1..] + [ch] + b;
    }
  }

  lemma {:induction false} FindFirst(a: string, ch: char)
    requires '\\' !in a && ch in a && ch != '\\'
    ensures Find(a, ch) < |a|
  {
    if a[0] != ch {
      FindFirst(a[1..], ch);
    }
  }

  lemma {:induction false} CountNone(a: string, ch: char)
    requires Straight(a) && ch !in a
    ensures Count(a, ch) == 0
  {
    if a != [] {
      CountNone(a[1..], ch);
    }
  }

  lemma {:induction false} CountOne(a: string, ch: char, b: string)
    requires Straight(a) && Straight(b) && ch !in a && ch !in b && !Unquotable(ch)
    ensures Count(a + [ch] + b, ch) == 1
  {
    if a == [] {
      CountNone(b, ch);
      assert ([] + [ch] + b)[1..] == b;
    } else {
      CountOne(a[1..], ch, b);
      assert (a + [ch] + b)[1..] == a[1..] + [ch] + b;
    }
  }

  // ----- numbers

  function DigitValue(c: char): nat {
    if '0' <= c <= '9' then (c - '0') as nat
    else if 'a' <= c <= 'z' then 10 + (c - 'a') as nat
    else if 'A' <= c <= 'Z' then 10 + (c - 'A') as nat
    else 99
  }

  function Number(s: string, base: nat, value: nat): nat {
    if s == [] || DigitValue(s[0]) >= base then value else Number(s[1..], base, value * base + DigitValue(s[0]))
  }

  /** The digits of strtol to base 0. */
  function AnyBase(s: string): nat {
    if |s| > 2 && s[0] == '0' && (s[1] == 'x' || s[1] == 'X') && DigitValue(s[2]) < 16 then Number(s[2..], 16, 0)
    else if s != [] && s[0] == '0' then Number(s, 8, 0)
    else Number(s, 10, 0)
  }

  /** strtol(3) to base 0. */
  function Strtol(s: string): int {
    if s == [] then 0
    else if IsSpace(s[0]) then Strtol(s[1..])
    else if s[0] == '-' then
      (if AnyBase(s[1..]) > 0x8000_0000_0000_0000 then -0x8000_0000_0000_0000 else -(AnyBase(s[1..]) as int))
    else
      var n := AnyBase(if s[0] == '+' then s[1..] else s);
      if n > 0x7FFF_FFFF_FFFF_FFFF then 0x7FFF_FFFF_FFFF_FFFF else n
  }

  /** The conversion to a 32-bit int. */
  function ToInt(n: int): int {
    (n + 0x8000_0000) % 0x1_0000_0000 - 0x8000_0000
  }

  predicate IsInt(n: int) {
    -0x8000_0000 <= n < 0x8000_0000
  }

  /** An int as %u takes it. */
  function Unsigned(n: int): (u: nat)
    requires IsInt(n)
    ensures u < 0x1_0000_0000
  {
    if n >= 0 then n else n + 0x1_0000_0000
  }

  lemma IntRoundTrip(n: int)
    requires IsInt(n)
    ensures ToInt(Unsigned(n)) == n
  {
  }

  /** What %u prints. */
  function Decimal(n: nat): (s: string)
    ensures s != []
  {
    (if n < 10 then [] else Decimal(n / 10)) + ['0' + (n % 10) as char]
  }

  lemma {:induction false} NumberAppend(s: string, c: char, value: nat)
    requires forall k :: 0 <= k < |s| ==> DigitValue(s[k]) < 10
    requires DigitValue(c) < 10
    ensures Number(s + [c], 10, value) == Number(s, 10, value) * 10 + DigitValue(c)
    decreases |s|
  {
    if s == [] {
      assert ([] + [c])[1..] == [];
    } else {
      assert (s + [c])[1..] == s[1..] + [c];
      NumberAppend(s[1..], c, value * 10 + DigitValue(s[0]));
    }
  }

  lemma {:induction false} DecimalIs(n: nat)
    ensures forall k :: 0 <= k < |Decimal(n)| ==> '0' <= Decimal(n)[k] <= '9'
    ensures Number(Decimal(n), 10, 0) == n
    ensures n > 0 ==> Decimal(n)[0] != '0'
    ensures n == 0 ==> Decimal(n) == "0"
  {
    var c := '0' + (n % 10) as char;
    if n < 10 {
      assert Decimal(n) == [c];
      assert Decimal(n)[1..] == [];
    } else {
      DecimalIs(n / 10);
      NumberAppend(Decimal(n / 10), c, 0);
    }
  }

  lemma StrtolDecimal(n: nat)
    requires n < 0x1_0000_0000
    ensures Strtol(Decimal(n)) == n
  {
    DecimalIs(n);
    var d := Decimal(n);
    assert '0' <= d[0] <= '9';
    if n == 0 {
      assert d[1..] == [];
      assert Number(d, 8, 0) == 0;
    }
    assert AnyBase(d) == n;
  }

  // ----- parsing

  /** What url_parse sets; None is a null pointer. */
  datatype Url = Url(
    protocol: Option<string>,
    username: Option<string>,
    password: Option<string>,
    hostname: Option<string>,
    port: int,
    directory: Option<string>)

  /** NotModelled: base64 passwords, and more than one colon in the host part. */
  datatype Parsed = Parsed(url: Url) | NotModelled

  function Lower(s: string): string {
    if s == [] then []
    else [if 'A' <= s[0] <= 'Z' then s[0] - 'A' + 'a' else s[0]] + Lower(s[1..])
  }

  /** strstr(s, "://"). */
  function FindScheme(s: string): (n: nat)
    ensures n <= |s| && (n < |s| ==> n + 3 <= |s|)
  {
    if s == [] || (|s| >= 3 && s[..3] == "://") then 0
    else
      var n := FindScheme(s[1..]);
      1 + n
  }

  /** A field set from a decoded text; a C string ends at a NUL. */
  function Field(s: string): Option<string> {
    Some(Visible(Decoded(s)))
  }

  function Port(n: int): int {
    if n <= 0 then -1 else n
  }

  function ParseHost(url: Url, adr: string): Parsed {
    var colons := Count(adr, ':');
    if colons > 1 then NotModelled
    else
      var p := Find(adr, ':');
      if colons == 1 && p < |adr| then
        Parsed(url.(hostname := Field(Unquoted(adr[..p])), port := Port(ToInt(Strtol(adr[p + 1..])))))
      else Parsed(url.(hostname := Field(Unquoted(adr))))
  }

  function ParsePath(url: Url, adr: string): Parsed {
    var p := Find(adr, '/');
    if p == |adr| then ParseHost(url, adr)
    else
      var path := Unquoted(adr[p..]);
      ParseHost(url.(directory := Field(if path == [] then [] else path[1..])), adr[..p])
  }

  /** The user and the password in front of the at sign. */
  function WithLogin(url: Url, info: string): Parsed {
    var p := Find(info, ':');
    var password := if p == |info| then [] else Unquoted(info[p + 1..]);
    if "[base64]" <= password then NotModelled
    else Parsed(url.(
      username := Field(Unquoted(info[..p])),
      password := if password == [] then url.password else Field(password)))
  }

  function ParseLogin(url: Url, adr: string): Parsed {
    var e := Find(adr, '@');
    if e == |adr| then ParsePath(url, adr)
    else
      match WithLogin(url, adr[..e])
      case NotModelled => NotModelled
      case Parsed(named) => ParsePath(named, adr[e + 1..])
  }

  /** url_parse: the fields that the text does not name stay as they are. */
  function ParseOnto(url: Url, str: string): Parsed {
    var start := url.(port := -1);
    var e := FindScheme(str);
    if e < |str| then ParseLogin(start.(protocol := Some(Lower(Unquoted(str[..e])))), str[e + 3..])
    else ParseLogin(start, if "//" <= str then str[2..] else str)
  }

  /** url_init. */
  function Parse(str: string): Parsed {
    ParseOnto(Url(None, None, None, None, -1, None), str)
  }

  // ----- printing

  /** What cmd_url looks at: the connection's user, host and port, the current and the home directory. */
  datatype Current = Current(username: string, hostname: string, port: int, curdir: string, homedir: string)

  predicate IsAnon(c: Current) {
    c.username == "ftp" || c.username == "anonymous"
  }

  function UserPart(c: Current): string
    requires Bytes(c.username)
  {
    if IsAnon(c) then [] else Encoded(c.username, ":@/") + "@"
  }

  function PortPart(c: Current): string
    requires IsInt(c.port)
  {
    if c.port == 21 then [] else ":" + Decimal(Unsigned(c.port))
  }

  function PathPart(c: Current): string
    requires Bytes(c.curdir)
  {
    if c.curdir == c.homedir then [] else "/" + EncodedDirectory(c.curdir)
  }

  predicate TextOk(s: string) {
    Bytes(s) && NoNul(s)
  }

  /** A connection with a host name of plain characters and an int for a port. */
  predicate CurrentOk(c: Current) {
    && TextOk(c.username) && TextOk(c.curdir) && PlainHost(c.hostname)
    && IsInt(c.port)
  }

  predicate PlainHost(h: string) {
    && Straight(h) && NoNul(h)
    && forall k :: 0 <= k < |h| ==> h[k] != ':' && h[k] != '@' && h[k] != '/' && h[k] != '%'
  }

  /** The text cmd_url prints. */
  function Printed(c: Current): string
    requires CurrentOk(c)
  {
    "ftp://" + (UserPart(c) + (c.hostname + (PortPart(c) + PathPart(c))))
  }

  /** The standard port is not printed, and what is not positive counts as none. */
  function ReopenedPort(port: int): int {
    if port == 21 || port < 1 then -1 else port
  }

  /** The two names of an anonymous user are not printed. */
  lemma AnonymousHidden(c: Current)
    requires Bytes(c.username)
    ensures UserPart(c) == [] <==> c.username in {"ftp", "anonymous"}
  {
  }

  /** What parsing the printed text should give, as far as apostrophes are concerned. */
  function Expected(c: Current): Url {
    Url(Some("ftp"),
        if IsAnon(c) then None else Some(NoApostrophes(c.username)),
        None,
        Some(c.hostname),
        ReopenedPort(c.port),
        if c.curdir == c.homedir then None else Some(NoApostrophes(c.curdir)))
  }

  // ----- the printed text is parsed back

  lemma {:induction false} VisibleWhole(s: string)
    requires NoNul(s)
    ensures Visible(s) == s
  {
    if s != [] {
      VisibleWhole(s[1..]);
    }
  }

  lemma {:induction false} NoApostrophesClean(s: string)
    requires NoNul(s)
    ensures NoNul(NoApostrophes(s))
  {
    if s != [] {
      NoApostrophesClean(s[1..]);
    }
  }

  lemma FieldArrives(s: string, xtra: string)
    requires TextOk(s) && '\'' !in xtra
    ensures Field(Unquoted(Encoded(s, xtra))) == Some(NoApostrophes(s))
  {
    TextArrives(s, xtra);
    NoApostrophesClean(s);
    VisibleWhole(NoApostrophes(s));
  }

  lemma DirectoryField(s: string)
    requires TextOk(s)
    ensures Field(Unquoted(EncodedDirectory(s))) == Some(NoApostrophes(s))
  {
    DirectoryArrives(s);
    NoApostrophesClean(s);
    VisibleWhole(NoApostrophes(s));
  }

  lemma {:induction false} PlainHostIsItself(h: string, open: char)
    requires PlainHost(h)
    ensures CommandLine.Dequoted(h, open) == h && Decoded(h) == h
  {
    if h != [] {
      assert PlainHost(h[1..]);
      PlainHostIsItself(h[1..], open);
      assert h == [h[0]] + h[1..];
      PlainPasses(h[0], h[1..], open);
    }
  }

  lemma HostField(h: string)
    requires PlainHost(h)
    ensures Field(Unquoted(h)) == Some(h)
  {
    PlainHostIsItself(h, NUL);
    VisibleWhole(h);
  }

  lemma PortRoundTrip(port: int)
    requires IsInt(port)
    ensures ToInt(Strtol(Decimal(Unsigned(port)))) == port
  {
    StrtolDecimal(Unsigned(port));
    IntRoundTrip(port);
    hide ToInt, Strtol, Decimal, Unsigned;
  }

  lemma HostParsed(url: Url, c: Current)
    requires CurrentOk(c) && url.port == -1
    ensures ParseHost(url, c.hostname + PortPart(c))
              == Parsed(url.(hostname := Some(c.hostname), port := ReopenedPort(c.port)))
  {
    HostAlone(url, c.hostname);
    HostWithPort(url, c.hostname, c.port);
    hide ParseHost, Decimal, PlainHost, Unsigned;
    PortBehind(c.hostname, Decimal(Unsigned(c.port)));
  }

  lemma PortBehind(h: string, d: string)
    ensures h + [':'] + d == h + (":" + d) && h + [] == h
  {
    assert ":" == [':'];
  }

  lemma HostAlone(url: Url, h: string)
    requires PlainHost(h)
    ensures ParseHost(url, h) == Parsed(url.(hostname := Some(h)))
  {
    HostField(h);
    CountNone(h, ':');
    hide Count, Find, Field, PlainHost, Unquoted;
  }

  lemma HostWithPort(url: Url, h: string, port: int)
    requires PlainHost(h) && IsInt(port)
    ensures ParseHost(url, h + [':'] + Decimal(Unsigned(port))) == Parsed(url.(hostname := Some(h), port := Port(port)))
  {
    var d := Decimal(Unsigned(port));
    HostField(h);
    DecimalIs(Unsigned(port));
    PortRoundTrip(port);
    CountOne(h, ':', d);
    FindBehind(h, ':', d);
    hide ParseHost, Count, Find, Strtol, ToInt, Decimal, Field, PlainHost, Unquoted, Unsigned;
    HostAndPort(url, h, d);
  }

  lemma HostAndPort(url: Url, h: string, d: string)
    requires Count(h + [':'] + d, ':') == 1 && Find(h + [':'] + d, ':') == |h|
    ensures ParseHost(url, h + [':'] + d)
              == Parsed(url.(hostname := Field(Unquoted(h)), port := Port(ToInt(Strtol(d)))))
  {
    hide Count, Find, Strtol, ToInt, Field;
    var adr := h + [':'] + d;
    assert adr[..|h|] == h && adr[|h| + 1..] == d;
  }

  /** Host and port hold nothing that the search for a login or a path could stop at. */
  lemma HostPortPlain(c: Current)
    requires CurrentOk(c)
    ensures var h := c.hostname + PortPart(c); '\\' !in h && '@' !in h && '/' !in h
  {
    DecimalIs(Unsigned(c.port));
  }

  lemma PathParsed(url: Url, c: Current)
    requires CurrentOk(c) && url.port == -1 && url.directory == None
    ensures ParsePath(url, c.hostname + (PortPart(c) + PathPart(c))) == Parsed(url.(
              hostname := Some(c.hostname),
              port := ReopenedPort(c.port),
              directory := if c.curdir == c.homedir then None else Some(NoApostrophes(c.curdir))))
  {
    var h, path := c.hostname + PortPart(c), PathPart(c);
    HostPortPlain(c);
    assert c.hostname + (PortPart(c) + path) == h + path;
    if c.curdir == c.homedir {
      FindBehind(h, '/', []);
      assert h + path == h;
      HostParsed(url, c);
      assert url.(directory := None) == url;
    } else {
      var e := EncodedDirectory(c.curdir);
      assert h + path == h + ['/'] + e;
      DirectoryField(c.curdir);
      HostParsed(url.(directory := Some(NoApostrophes(c.curdir))), c);
      hide ParseHost, Field, CommandLine.Dequoted, EncodedDirectory, CurrentOk;
      PathCut(url, h, e);
    }
  }

  /** The path is cut off at the first slash. */
  lemma PathCut(url: Url, h: string, e: string)
    requires '\\' !in h && '/' !in h
    ensures ParsePath(url, h + ['/'] + e) == ParseHost(url.(directory := Field(Unquoted(e))), h)
  {
    FindBehind(h, '/', e);
    PlainPasses('/', e, NUL);
    hide ParseHost, Find, Field, CommandLine.Dequoted;
    var adr := h + ['/'] + e;
    assert adr[|h|..] == ['/'] + e && adr[..|h|] == h;
    assert (['/'] + Unquoted(e))[1..] == Unquoted(e);
  }

  lemma LoginParsed(url: Url, c: Current, rest: string)
    requires CurrentOk(c) && !IsAnon(c) && url.password == None
    ensures ParseLogin(url, UserPart(c) + rest) == ParsePath(url.(username := Some(NoApostrophes(c.username))), rest)
  {
    var e := Encoded(c.username, ":@/");
    EncodedFree(c.username, ":@/", '@');
    EncodedFree(c.username, ":@/", ':');
    EncodedFree(c.username, ":@/", '\\');
    FindBehind(e, '@', rest);
    FindBehind(e, ':', []);
    FieldArrives(c.username, ":@/");
    hide ParsePath, Find, Field, Encoded;
    var adr := UserPart(c) + rest;
    assert adr == e + ['@'] + rest;
    assert adr[..|e|] == e && adr[|e| + 1..] == rest;
    assert e[..|e|] == e;
    assert url.(username := Some(NoApostrophes(c.username)), password := None)
             == url.(username := Some(NoApostrophes(c.username)));
  }

  lemma {:induction false} EncodedKeeps(s: string, xtra: string, c: char)
    requires Bytes(s) && c as int < 256 && !MustEncode(c, xtra) && c in s
    ensures c in Encoded(s, xtra)
  {
    if s[0] == c {
      assert EncodedChar(s[0], xtra) == [c];
      assert Encoded(s, xtra)[0] == c;
    } else {
      EncodedKeeps(s[1..], xtra, c);
    }
  }

  lemma {:induction false} EncodedAdds(s: string, xtra: string, c: char)
    requires Bytes(s) && c != '%' && !IsHex(c) && c !in s
    ensures c !in Encoded(s, xtra)
  {
    if s != [] {
      EncodedAdds(s[1..], xtra, c);
      var n := s[0] as int;
      HexRoundTrip(n / 16);
      HexRoundTrip(n % 16);
      hide HexDigit, IsHex, IsSpecial;
      assert c !in EncodedChar(s[0], xtra);
    }
  }

  /** An at sign in the directory goes on the wire as it is. */
  lemma AtSigns(c: Current)
    requires CurrentOk(c)
    ensures var adr := c.hostname + (PortPart(c) + PathPart(c));
            '\\' !in adr && ('@' in adr <==> c.curdir != c.homedir && '@' in c.curdir)
  {
    HostPortPlain(c);
    if c.curdir != c.homedir {
      var s, e := c.curdir, Encoded(c.curdir, ";");
      EncodedFree(s, ";", '\\');
      if '@' in s {
        EncodedKeeps(s, ";", '@');
      } else {
        EncodedAdds(s, ";", '@');
      }
      hide Encoded;
      assert e != [] ==> e == [e[0]] + e[1..];
      assert '@' in EncodedDirectory(s) <==> '@' in e;
      assert '\\' !in EncodedDirectory(s);
    }
  }

  /** Without a user in the text, an at sign in the directory is taken for the end of one. */
  predicate AtSignTaken(c: Current) {
    IsAnon(c) && c.curdir != c.homedir && '@' in c.curdir
  }

  lemma SchemeParsed(rest: string)
    ensures Parse("ftp://" + rest) == ParseLogin(Url(Some("ftp"), None, None, None, -1, None), rest)
  {
    SchemeOnto(Url(None, None, None, None, -1, None), rest);
    hide ParseLogin, ParseOnto;
  }

  lemma FindsScheme(str: string)
    requires "ftp://" <= str
    ensures FindScheme(str) == 3
  {
    assert str[1..][1..] == str[2..] && str[2..][1..] == str[3..];
    assert str[3..][..3] == "://" && str[..3] != "://" && str[1..][..3] != "://" && str[2..][..3] != "://" by {
      assert str[0] == 'f' && str[1] == 't' && str[2] == 'p' && str[3] == ':' && str[4] == '/' && str[5] == '/';
    }
    assert FindScheme(str[3..]) == 0;
    assert FindScheme(str[2..]) == 1;
    assert FindScheme(str[1..]) == 2;
  }

  lemma LowerFtp()
    ensures Lower(['f'] + (['t'] + (['p'] + []))) == "ftp"
  {
    assert (['f'] + (['t'] + (['p'] + [])))[1..] == ['t', 'p'];
    assert ['t', 'p'][1..] == ['p'] && ['p'][1..] == [];
  }

  /**
   Parsing what was printed gives back the protocol, the user, the host, the port and the directory,
   but for the apostrophes; a user is found that is none when an at sign is taken for its end.
   */
  lemma PrintedParses(c: Current)
    requires CurrentOk(c)
    ensures !AtSignTaken(c) ==> Parse(Printed(c)) == Parsed(Expected(c))
    ensures AtSignTaken(c) && Parse(Printed(c)).Parsed? ==> Parse(Printed(c)).url.username.Some?
  {
    var rest := c.hostname + (PortPart(c) + PathPart(c));
    var start := Url(Some("ftp"), None, None, None, -1, None);
    SchemeParsed(UserPart(c) + rest);
    if !IsAnon(c) {
      LoginParsed(start, c, rest);
      PathParsed(start.(username := Some(NoApostrophes(c.username))), c);
      hide ParseLogin, ParsePath, Parse, CurrentOk;
    } else {
      assert UserPart(c) + rest == rest;
      AtSigns(c);
      if AtSignTaken(c) {
        FindFirst(rest, '@');
        UserFound(start, rest);
        hide ParseLogin, ParsePath, Parse, CurrentOk;
      } else {
        FindBehind(rest, '@', []);
        PathParsed(start, c);
        hide ParsePath, Parse, CurrentOk, Find;
      }
    }
  }

  lemma UserFound(url: Url, adr: string)
    requires Find(adr, '@') < |adr|
    ensures ParseLogin(url, adr).Parsed? ==> ParseLogin(url, adr).url.username.Some?
  {
    var info, rest := adr[..Find(adr, '@')], adr[Find(adr, '@') + 1..];
    LoginSetsUser(url, info);
    hide Find, ParsePath, WithLogin;
    if WithLogin(url, info).Parsed? {
      PathKeepsUser(WithLogin(url, info).url, rest);
    }
  }

  lemma LoginSetsUser(url: Url, info: string)
    ensures WithLogin(url, info).Parsed? ==> WithLogin(url, info).url.username.Some?
  {
  }

  lemma PathKeepsUser(url: Url, adr: string)
    ensures ParsePath(url, adr).Parsed? ==> ParsePath(url, adr).url.username == url.username
  {
  }

  // ----- a URL with a login

  /** A user and a password as they are written in front of the at sign. */
  function Login(user: string, password: string): string
    requires Bytes(user) && Bytes(password)
  {
    Encoded(user, ":@/") + ":" + (Encoded(password, ":@/") + "@")
  }

  /**
   A URL that names user and password: both arrive, but for their apostrophes, with host, port and directory. A
   password that is empty, or of apostrophes only, leaves the old one in place.
   */
  lemma LoginArrives(former: Url, user: string, password: string, c: Current)
    requires TextOk(user) && TextOk(password) && CurrentOk(c) && former.directory == None
    ensures ParseOnto(former, "ftp://" + (Login(user, password) + (c.hostname + (PortPart(c) + PathPart(c))))) ==
              Parsed(Expected(c).(
                username := Some(NoApostrophes(user)),
                password := if NoApostrophes(password) == [] then former.password else Some(NoApostrophes(password))))
  {
    hide ParseOnto, ParseLogin, ParsePath, WithLogin, Encoded, Expected, PlainHost, Decimal, NoApostrophes, Login,
         PathPart, PortPart;
    var rest := c.hostname + (PortPart(c) + PathPart(c));
    var start := former.(port := -1, protocol := Some("ftp"));
    SchemeOnto(former, Login(user, password) + rest);
    LoginCut(start, user, password, rest);
    var named := start.(username := Some(NoApostrophes(user)),
      password := if NoApostrophes(password) == [] then former.password else Some(NoApostrophes(password)));
    LoginNames(start, user, password);
    PathParsed(named, c);
    ExpectedIs(c);
  }

  /** User, password and host of a URL without anything else. */
  lemma LoginRoundTrip(user: string, password: string, host: string)
    requires TextOk(user) && TextOk(password) && PlainHost(host)
    requires '\'' !in user && '\'' !in password && password != []
    ensures Parse("ftp://" + (Login(user, password) + host))
              == Parsed(Url(Some("ftp"), Some(user), Some(password), Some(host), -1, None))
  {
    hide ParseOnto, Encoded, PlainHost, NoApostrophes, Login;
    var c := Current("ftp", host, 21, [], []);
    assert PortPart(c) + PathPart(c) == [];
    NothingBehind(host);
    NoApostrophesSame(user);
    NoApostrophesSame(password);
    LoginArrives(Url(None, None, None, None, -1, None), user, password, c);
  }

  lemma NothingBehind(host: string)
    ensures host + [] == host
  {
  }

  lemma ExpectedIs(c: Current)
    ensures var e := Expected(c);
            && e.protocol == Some("ftp") && e.hostname == Some(c.hostname)
            && e.port == ReopenedPort(c.port)
            && e.directory == if c.curdir == c.homedir then None else Some(NoApostrophes(c.curdir))
  {
  }

  lemma LoginCut(url: Url, user: string, password: string, rest: string)
    requires TextOk(user) && TextOk(password)
    ensures ParseLogin(url, Login(user, password) + rest) ==
              match WithLogin(url, Encoded(user, ":@/") + ":" + Encoded(password, ":@/"))
              case NotModelled => NotModelled
              case Parsed(named) => ParsePath(named, rest)
  {
    var u, p := Encoded(user, ":@/"), Encoded(password, ":@/");
    EncodedFree(user, ":@/", '@');
    EncodedFree(user, ":@/", '\\');
    EncodedFree(password, ":@/", '@');
    EncodedFree(password, ":@/", '\\');
    hide ParsePath, Find, WithLogin, Encoded;
    var info := u + ":" + p;
    FindBehind(info, '@', rest);
    CutAt(u, p, rest);
    assert Login(user, password) + rest == info + ['@'] + rest;
  }

  lemma CutAt(u: string, p: string, rest: string)
    ensures var info := u + ":" + p; var adr := info + ['@'] + rest;
            && u + ":" + (p + "@") + rest == adr && adr[..|info|] == info && adr[|info| + 1..] == rest
  {
  }

  lemma LoginNames(url: Url, user: string, password: string)
    requires TextOk(user) && TextOk(password)
    ensures WithLogin(url, Encoded(user, ":@/") + ":" + Encoded(password, ":@/")) == Parsed(url.(
              username := Some(NoApostrophes(user)),
              password := if NoApostrophes(password) == [] then url.password else Some(NoApostrophes(password))))
  {
    var u, p := Encoded(user, ":@/"), Encoded(password, ":@/");
    EncodedFree(user, ":@/", ':');
    EncodedFree(user, ":@/", '\\');
    FieldArrives(user, ":@/");
    FieldArrives(password, ":@/");
    UnquotedPassword(password);
    hide Find, Field, Encoded, Unquoted;
    var info := u + ":" + p;
    FindBehind(u, ':', p);
    CutAtColon(u, p);
  }

  lemma CutAtColon(u: string, p: string)
    ensures var info := u + ":" + p;
            info == u + [':'] + p && |u| < |info| && info[..|u|] == u && info[|u| + 1..] == p
  {
  }

  /** What is unquoted of an encoded password is not taken for base64. */
  lemma UnquotedPassword(password: string)
    requires TextOk(password)
    ensures var secret := Unquoted(Encoded(password, ":@/"));
            !("[base64]" <= secret) && (secret == [] <==> NoApostrophes(password) == [])
  {
    UnquoteEncoded(password, ":@/", NUL);
    var secret := Encoded(NoApostrophes(password), ":@/");
    EncodedFree(NoApostrophes(password), ":@/", '[');
    assert secret != [] ==> secret[0] != '[';
    FirstOf("[base64]", secret);
    hide Encoded, Unquoted;
  }

  lemma FirstOf(a: string, s: string)
    requires a != []
    ensures a <= s ==> s != [] && s[0] == a[0]
  {
  }

  lemma SchemeOnto(former: Url, rest: string)
    ensures ParseOnto(former, "ftp://" + rest) == ParseLogin(former.(port := -1, protocol := Some("ftp")), rest)
  {
    var str := "ftp://" + rest;
    FindsScheme(str);
    assert str[6..] == rest && str[..3] == ['f'] + (['t'] + (['p'] + []));
    PlainPasses('f', ['t'] + (['p'] + []), NUL);
    PlainPasses('t', ['p'] + [], NUL);
    PlainPasses('p', [], NUL);
    LowerFtp();
    hide FindScheme, ParseLogin, CommandLine.Dequoted, Lower;
  }

  // ----- schemes

  predicate IsLetter(c: char) {
    'a' <= c <= 'z' || 'A' <= c <= 'Z'
  }

  /** The same letters in lower case. */
  predicate LowerCaseOf(low: string, s: string) {
    |low| == |s| && forall k :: 0 <= k < |s| ==> low[k] as int == s[k] as int + if 'A' <= s[k] <= 'Z' then 32 else 0
  }

  lemma {:induction false} LowerIs(s: string)
    requires forall k :: 0 <= k < |s| ==> IsLetter(s[k])
    ensures LowerCaseOf(Lower(s), s)
  {
    if s != [] {
      LowerIs(s[1..]);
      var low := Lower(s);
      assert low[1..] == Lower(s[1..]);
      assert forall k :: 1 <= k < |s| ==> low[k] == low[1..][k - 1] && s[k] == s[1..][k - 1];
    }
  }

  lemma {:induction false} FindsAnyScheme(s: string, rest: string)
    requires ':' !in s
    ensures FindScheme(s + "://" + rest) == |s|
  {
    var str := s + "://" + rest;
    if s != [] {
      FindsAnyScheme(s[1..], rest);
      assert str[1..] == s[1..] + "://" + rest && str[0] != ':';
    } else {
      assert str[..3] == "://";
    }
  }

  /** Any scheme is stored in lower case. */
  lemma SchemeArrives(former: Url, scheme: string, rest: string)
    requires scheme != [] && forall k :: 0 <= k < |scheme| ==> IsLetter(scheme[k])
    ensures var r := ParseOnto(former, scheme + "://" + rest);
            r.Parsed? ==> r.url.protocol.Some? && LowerCaseOf(r.url.protocol.value, scheme)
  {
    var str := scheme + "://" + rest;
    FindsAnyScheme(scheme, rest);
    assert PlainHost(scheme);
    PlainHostIsItself(scheme, NUL);
    LowerIs(scheme);
    hide FindScheme, CommandLine.Dequoted, Lower, LowerCaseOf, PlainHost, ParseLogin;
    SchemeCut(scheme, rest);
    LoginKeepsProtocol(former.(port := -1, protocol := Some(Lower(scheme))), rest);
  }

  lemma SchemeCut(scheme: string, rest: string)
    ensures var str := scheme + "://" + rest;
            |scheme| < |str| && str[..|scheme|] == scheme && str[|scheme| + 3..] == rest
  {
  }

  lemma LoginKeepsProtocol(url: Url, adr: string)
    ensures ParseLogin(url, adr).Parsed? ==> ParseLogin(url, adr).url.protocol == url.protocol
  {
    hide Find, Count, Field, Unquoted;
  }

  /** A bare host name, or one behind two slashes, sets the host and nothing else. */
  lemma HostOnly(host: string)
    requires PlainHost(host)
    ensures Parse(host) == Parsed(Url(None, None, None, Some(host), -1, None)) == Parse("//" + host)
  {
    var start := Url(None, None, None, None, -1, None);
    NoScheme(host);
    NoScheme("//" + host);
    FindBehind(host, '@', []);
    FindBehind(host, '/', []);
    HostAlone(start, host);
    hide FindScheme, Find, ParseHost;
    assert ("//" + host)[2..] == host && (host != [] ==> host[0] != '/');
    FirstOf("//", host);
  }

  lemma {:induction false} NoScheme(s: string)
    requires ':' !in s
    ensures FindScheme(s) == |s|
  {
    if s != [] {
      NoScheme(s[1..]);
      assert |s| >= 3 ==> s[..3][0] == s[0];
    }
  }

  /** What should come back. */
  function Recovered(c: Current): Url {
    Expected(c).(
      username := if IsAnon(c) then None else Some(c.username),
      directory := if c.curdir == c.homedir then None else Some(c.curdir))
  }

  /** The round trip is exact for texts without apostrophes, and without an at sign that is taken. */
  lemma PrintedParsesExactly(c: Current)
    requires CurrentOk(c)
    ensures Parse(Printed(c)) == Parsed(Recovered(c)) <==>
              && !AtSignTaken(c)
              && (IsAnon(c) || '\'' !in c.username)
              && (c.curdir == c.homedir || '\'' !in c.curdir)
  {
    PrintedParses(c);
    NoApostrophesSame(c.username);
    NoApostrophesSame(c.curdir);
    hide Parse, Printed, CurrentOk, NoApostrophes;
  }

  /** The user o'b comes back as ob. */
  lemma ApostropheLost()
    ensures var c := Current("o'b", "h", 21, "/", "/");
            CurrentOk(c) && Parse(Printed(c)) == Parsed(Url(Some("ftp"), Some("ob"), None, Some("h"), -1, None))
  {
    var c := Current("o'b", "h", 21, "/", "/");
    NoMiddle(c.username);
    hide Parse, Printed, NoApostrophes;
    PrintedParses(c);
  }

  lemma NoMiddle(name: string)
    requires |name| == 3 && name[0] != '\'' && name[1] == '\'' && name[2] != '\''
    ensures NoApostrophes(name) == [name[0], name[2]]
  {
    assert name[1..][1..] == [name[2]] && name[1..][0] == name[1] && [name[2]][1..] == [];
    assert NoApostrophes([name[2]]) == [name[2]];
  }

  /** In the URL of an anonymous user an at sign in the directory makes one that is none. */
  lemma AtSignMistaken()
    ensures var c := Current("ftp", "h", 21, "/a@b", "/");
            && CurrentOk(c) && Parse(Printed(c)) != Parsed(Recovered(c)) && Recovered(c).username == None
            && (Parse(Printed(c)).Parsed? ==> Parse(Printed(c)).url.username.Some?)
  {
    var c := Current("ftp", "h", 21, "/a@b", "/");
    assert c.curdir[2] == '@' && |c.curdir| == 4 && |c.homedir| == 1;
    hide Parse, Printed;
    PrintedParses(c);
  }

  // ----- the code

  method EncodeRfc1738(str: string, xtra: string) returns (xstr: string)
    requires Bytes(str)
    ensures xstr == Encoded(str, xtra) && |xstr| <= 3 * |str|
  {
    xstr := [];
    for i := 0 to |str|
      invariant xstr + Encoded(str[i..], xtra) == Encoded(str, xtra) && |xstr| <= 3 * i
    {
      var c := str[i];
      assert str[i..][1..] == str[i + 1..];
      Associate(xstr, EncodedChar(c, xtra), Encoded(str[i + 1..], xtra));
      if c as int >= 0x80 || c as int <= 0x1F || c as int == 0x7F || IsSpecial(c) || c in xtra {
        xstr := xstr + ['%', HexDigit(c as int / 16), HexDigit(c as int % 16)];
      } else {
        xstr := xstr + [c];
      }
    }
    assert str[|str|..] == [];
  }

  method DecodeRfc1738(str: string) returns (xstr: string)
    ensures xstr == Decoded(str) && |xstr| <= |str|
  {
    xstr := [];
    var i := 0;
    while i < |str|
      invariant i <= |str| && xstr + Decoded(str[i..]) == Decoded(str) && |xstr| <= i
    {
      ghost var rest := str[i..];
      assert rest[1..] == str[i + 1..];
      if str[i] == '%' && i + 2 < |str| && IsHex(str[i + 1]) && IsHex(str[i + 2]) {
        var c := (HexValue(str[i + 1]) * 16 + HexValue(str[i + 2])) as char;
        assert rest[3..] == str[i + 3..] && rest[1] == str[i + 1] && rest[2] == str[i + 2];
        Associate(xstr, [c], Decoded(rest[3..]));
        xstr := xstr + [c];
        i := i + 2;
      } else {
        assert |rest| > 2 ==> rest[1] == str[i + 1] && rest[2] == str[i + 2];
        Associate(xstr, [str[i]], Decoded(rest[1..]));
        xstr := xstr + [str[i]];
      }
      i := i + 1;
    }
  }

  method StrQChr(s: string, ch: char) returns (n: nat)
    requires ch != '\\'
    ensures n == Find(s, ch)
  {
    n := 0;
    while n < |s|
      invariant n <= |s| && Find(s, ch) == n + Find(s[n..], ch)
    {
      ghost var rest := s[n..];
      assert rest[1..] == s[n + 1..];
      if s[n] == '\\' {
        n := n + 1;
        if n == |s| {
          return;
        }
        assert rest[2..] == s[n + 1..];
      } else if s[n] == ch {
        return;
      }
      n := n + 1;
    }
  }

  /** strqnchr. */
  method StrQNChr(str: string, c: char) returns (n: nat)
    ensures n == Count(str, c)
  {
    n := 0;
    var s := str;
    while s != []
      invariant Count(str, c) == n + Count(s, c)
      decreases |s|
    {
      var dq := s[0] == '"';
      if dq || s[0] == '\'' {
        var quote := s[0];
        s := s[1..];
        ghost var inside := s;
        var closed := false;
        while s != [] && !closed
          invariant |s| <= |inside| && (if closed then s else BehindQuote(s, quote)) == BehindQuote(inside, quote)
          decreases |s|, !closed
        {
          if s[0] == '\\' {
            if |s| == 1 {
              s := [];
            } else {
              s := s[2..];
            }
          } else if s[0] == quote {
            s, closed := s[1..], true;
          } else {
            s := s[1..];
          }
        }
      }
      if s == [] {
        return;
      }
      if s[0] == '\\' {
        if |s| == 1 {
          return;
        }
        s := s[2..];
        if s == [] {
          return;
        }
      }
      if s[0] == c {
        n := n + 1;
      }
      s := s[1..];
    }
  }

  /** A decoded copy, read as a C string. */
  method DecodeField(text: string) returns (f: Option<string>)
    ensures f == Field(text)
  {
    var d := DecodeRfc1738(text);
    f := Some(Visible(d));
  }

  /** url_t, as far as url_parse sets it. */
  class UrlRecord {
    var protocol: Option<string>
    var username: Option<string>
    var password: Option<string>
    var hostname: Option<string>
    var port: int
    var directory: Option<string>

    /** url_create. */
    constructor ()
      ensures Contents() == Url(None, None, None, None, -1, None)
    {
      protocol, username, password, hostname, port, directory := None, None, None, None, -1, None;
    }

    function Contents(): Url
      reads this
    {
      Url(protocol, username, password, hostname, port, directory)
    }

    /** url_parse; false for the texts that are not modelled. */
    method UrlParse(str: string) returns (ok: bool)
      modifies this
      ensures match ParseOnto(old(Contents()), str)
              case Parsed(url) => ok && Contents() == url
              case NotModelled => !ok
    {
      hide FindScheme, ParseLogin, Lower;
      port := -1;
      var adr := str;
      var e := FindScheme(str);
      if e < |str| {
        var scheme := CommandLine.DequoteFilename(adr[..e]);
        protocol := Some(Lower(scheme));
        adr := adr[e + 3..];
      } else if "//" <= adr {
        adr := adr[2..];
      }
      ok := TakeLogin(adr);
    }

    /** From the at sign on. */
    method TakeLogin(str: string) returns (ok: bool)
      modifies this
      ensures match ParseLogin(old(Contents()), str)
              case Parsed(url) => ok && Contents() == url
              case NotModelled => !ok
    {
      hide Find, ParsePath, CommandLine.Dequoted, Field;
      var adr := str;
      var e := StrQChr(adr, '@');
      if e < |adr| {
        var info := adr[..e];
        var p := StrQChr(info, ':');
        if p < |info| {
          var secret := CommandLine.DequoteFilename(info[p + 1..]);
          if "[base64]" <= secret {
            return false;
          }
          if secret != [] {
            password := DecodeField(secret);
          }
        }
        var user := CommandLine.DequoteFilename(info[..p]);
        username := DecodeField(user);
        adr := adr[e + 1..];
      }
      ok := TakePath(adr);
    }

    /** The directory, then port and host. */
    method TakePath(str: string) returns (ok: bool)
      modifies this
      ensures match ParsePath(old(Contents()), str)
              case Parsed(url) => ok && Contents() == url
              case NotModelled => !ok
    {
      hide Find, Count, CommandLine.Dequoted, Field, Strtol, ToInt;
      var adr := str;
      var p := StrQChr(adr, '/');
      if p < |adr| {
        var path := CommandLine.DequoteFilename(adr[p..]);
        directory := DecodeField(if path == [] then [] else path[1..]);
        adr := adr[..p];
      } else {
        assert adr == str;
      }
      var cnt := StrQNChr(adr, ':');
      if cnt > 1 {
        return false;
      }
      if cnt == 1 {
        p := StrQChr(adr, ':');
        if p < |adr| {
          port := Port(ToInt(Strtol(adr[p + 1..])));
          adr := adr[..p];
        }
      }
      var host := CommandLine.DequoteFilename(adr);
      hostname := DecodeField(host);
      ok := true;
    }
  }

  method PrintUser(c: Current) returns (text: string)
    requires Bytes(c.username)
    ensures text == UserPart(c)
  {
    text := [];
    if !IsAnon(c) {
      var e := EncodeRfc1738(c.username, ":@/");
      text := e + "@";
    }
  }

  method PrintPath(c: Current) returns (text: string)
    requires Bytes(c.curdir)
    ensures text == PathPart(c)
  {
    text := [];
    if c.curdir != c.homedir {
      var d := EncodeRfc1738(c.curdir, ";");
      if d != [] && d[0] == '/' {
        d := "%2F" + d[1..];
      }
      text := "/" + d;
    }
  }

  /** cmd_url, with encoding. */
  method CmdUrl(c: Current) returns (output: string)
    requires CurrentOk(c)
    ensures output == Printed(c)
  {
    var user := PrintUser(c);
    var port := if c.port != 21 then ":" + Decimal(Unsigned(c.port)) else "";
    var path := PrintPath(c);
    assert port == PortPart(c);
    hide UserPart, PortPart, PathPart;
    FiveParts("ftp://", user, c.hostname, port, path);
    output := "ftp://" + user + c.hostname + port + path;
  }

  lemma FiveParts(a: string, b: string, c: string, d: string, e: string)
    ensures a + b + c + d + e == a + (b + (c + (d + e)))
  {
  }

  /** The URL of a connection is printed and opened again. */
  method Reopen(c: Current) returns (url: UrlRecord, ok: bool)
    requires CurrentOk(c)
    ensures !AtSignTaken(c) ==> ok && url.Contents() == Expected(c)
  {
    hide Printed, ParseOnto, CurrentOk, Expected;
    var text := CmdUrl(c);
    url := new UrlRecord();
    PrintedParses(c);
    ok := url.UrlParse(text);
  }
}
