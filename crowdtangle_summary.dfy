/** The CrowdTangle link summary of minet/crowdtangle/summary.py: the
    request URL, the percent-encoding of the link inside it, the argument
    guards, the classification of HTTP statuses and the shape of each
    result. The HTTP exchange is a function parameter. */
module CrowdTangleSummary {
  import opened Wrappers
  import opened PyStr
  import opened MinetUtils

  type Byte = b: int | 0 <= b < 256

  /** The UTF-8 encoding of one character (Unicode scalar value). */
  function Utf8Char(c: char): (r: seq<Byte>)
    ensures 1 <= |r| <= 4
    ensures |r| == 1 <==> c as int < 0x80
    ensures |r| == 2 <==> 0x80 <= c as int < 0x800
    ensures |r| == 3 <==> 0x800 <= c as int < 0x10000
    ensures |r| == 1 ==> r[0] == c as int
    ensures |r| == 2 ==> 0xC2 <= r[0] <= 0xDF
    ensures |r| == 3 ==> 0xE0 <= r[0] <= 0xEF
    ensures |r| == 4 ==> 0xF0 <= r[0] <= 0xF4
    ensures forall k :: 1 <= k < |r| ==> IsContinuation(r[k])
  {
    var n := c as int;
    if n < 0x80 then [n]
    else if n < 0x800 then [0xC0 + n / 64, 0x80 + n % 64]
    else if n < 0x10000 then [0xE0 + n / 4096, 0x80 + (n / 64) % 64, 0x80 + n % 64]
    else [0xF0 + n / 262144, 0x80 + (n / 4096) % 64, 0x80 + (n / 64) % 64, 0x80 + n % 64]
  }

  /** `s.encode('utf-8')`. */
  function Utf8(s: string): seq<Byte>
  {
    if s == [] then [] else Utf8Char(s[0]) + Utf8(s[1..])
  }

  /** A UTF-8 continuation byte, `10xxxxxx`. */
  predicate IsContinuation(b: Byte)
  {
    0x80 <= b <= 0xBF
  }

  /** The character of code point `n`, taking `k` bytes, when `n` is a
      Unicode scalar value of at least `lo`, the least code point that
      needs `k` bytes (a smaller one would be an overlong form). */
  function ScalarOf(n: int, k: nat, lo: int): (r: Option<(char, nat)>)
    ensures r.Some? ==> r.value.1 == k && r.value.0 as int == n && lo <= n
  {
    if lo <= n && (0 <= n < 0xD800 || 0xE000 <= n < 0x11_0000) then Some((n as char, k)) else None
  }

  /** UTF-8 decoding of the character at the start of `bs`: the character
      and the number of bytes it takes, or `None` when the lead byte is not
      followed by the continuation bytes it announces, or when they encode
      a surrogate, a code point beyond U+10FFFF or an overlong form. */
  function Utf8DecodeChar(bs: seq<Byte>): (r: Option<(char, nat)>)
    ensures r.Some? ==> 1 <= r.value.1 <= |bs|
  {
    if bs == [] then None
    else if bs[0] < 0x80 then Some((bs[0] as char, 1))
    else if 0xC0 <= bs[0] < 0xE0 && |bs| >= 2 && IsContinuation(bs[1]) then
      ScalarOf((bs[0] as int - 0xC0) * 64 + (bs[1] as int - 0x80), 2, 0x80)
    else if 0xE0 <= bs[0] < 0xF0 && |bs| >= 3 && IsContinuation(bs[1]) && IsContinuation(bs[2]) then
      ScalarOf((bs[0] as int - 0xE0) * 4096 + (bs[1] as int - 0x80) * 64 + (bs[2] as int - 0x80), 3, 0x800)
    else if 0xF0 <= bs[0] < 0xF8 && |bs| >= 4 && IsContinuation(bs[1]) && IsContinuation(bs[2]) && IsContinuation(bs[3]) then
      ScalarOf((bs[0] as int - 0xF0) * 262144 + (bs[1] as int - 0x80) * 4096 + (bs[2] as int - 0x80) * 64 + (bs[3] as int - 0x80), 4, 0x1_0000)
    else None
  }

  /** Dividing `a * 64 + b` by 64 gives back its digits. */
  lemma Digit64(a: int, b: int)
    requires 0 <= b < 64
    ensures (a * 64 + b) / 64 == a && (a * 64 + b) % 64 == b
  {
  }

  /** A two-byte form of a code point from U+0080 up is its encoding. */
  lemma Canonical2(c: char, b0: Byte, b1: Byte)
    requires 0xC0 <= b0 < 0xE0 && IsContinuation(b1)
    requires c as int == (b0 as int - 0xC0) * 64 + (b1 as int - 0x80) && 0x80 <= c as int
    ensures Utf8Char(c) == [b0, b1]
  {
    Digit64(b0 as int - 0xC0, b1 as int - 0x80);
  }

  /** A three-byte form of a code point from U+0800 up is its encoding. */
  lemma Canonical3(c: char, b0: Byte, b1: Byte, b2: Byte)
    requires 0xE0 <= b0 < 0xF0 && IsContinuation(b1) && IsContinuation(b2)
    requires c as int == (b0 as int - 0xE0) * 4096 + (b1 as int - 0x80) * 64 + (b2 as int - 0x80)
    requires 0x800 <= c as int
    ensures Utf8Char(c) == [b0, b1, b2]
  {
    var n := c as int;
    var hi := (b0 as int - 0xE0) * 64 + (b1 as int - 0x80);
    assert n == hi * 64 + (b2 as int - 0x80);
    Digit64(hi, b2 as int - 0x80);
    Digit64(b0 as int - 0xE0, b1 as int - 0x80);
    Digits3(n);
  }

  /** A four-byte form of a code point from U+10000 up is its encoding. */
  lemma Canonical4(c: char, b0: Byte, b1: Byte, b2: Byte, b3: Byte)
    requires 0xF0 <= b0 < 0xF8 && IsContinuation(b1) && IsContinuation(b2) && IsContinuation(b3)
    requires c as int == (b0 as int - 0xF0) * 262144 + (b1 as int - 0x80) * 4096 + (b2 as int - 0x80) * 64 + (b3 as int - 0x80)
    requires 0x1_0000 <= c as int
    ensures Utf8Char(c) == [b0, b1, b2, b3]
  {
    var n := c as int;
    var top := (b0 as int - 0xF0) * 64 + (b1 as int - 0x80);
    var hi := top * 64 + (b2 as int - 0x80);
    assert n == hi * 64 + (b3 as int - 0x80);
    Digit64(hi, b3 as int - 0x80);
    Digit64(top, b2 as int - 0x80);
    Digit64(b0 as int - 0xF0, b1 as int - 0x80);
    assert n / 4096 == top;
    assert n / 262144 == b0 as int - 0xF0;
  }

  /** Only the shortest encoding of a character decodes: the bytes a
      character is read from are exactly its encoding. */
  lemma Utf8DecodeCharCanonical(bs: seq<Byte>)
    requires Utf8DecodeChar(bs).Some?
    ensures Utf8Char(Utf8DecodeChar(bs).value.0) == bs[..Utf8DecodeChar(bs).value.1]
  {
    var c := Utf8DecodeChar(bs).value.0;
    if bs[0] < 0x80 {
      assert bs[..1] == [bs[0]];
    } else if bs[0] < 0xE0 {
      assert bs[..2] == [bs[0], bs[1]];
      Canonical2(c, bs[0], bs[1]);
    } else if bs[0] < 0xF0 {
      assert bs[..3] == [bs[0], bs[1], bs[2]];
      Canonical3(c, bs[0], bs[1], bs[2]);
    } else {
      assert bs[..4] == [bs[0], bs[1], bs[2], bs[3]];
      Canonical4(c, bs[0], bs[1], bs[2], bs[3]);
    }
  }

  /** The overlong two-byte form of U+0000 is rejected. */
  lemma OverlongRejected()
    ensures Utf8DecodeChar([0xC0, 0x80]).None? && Utf8Decode([0xC0, 0x80]).None?
  {
  }

  /** Strict UTF-8 decoding, `bs.decode('utf-8')`: `None` when `bs` is not
      a sequence of shortest-form encodings of Unicode scalar values. */
  function Utf8Decode(bs: seq<Byte>): Option<string>
    decreases |bs|
  {
    if bs == [] then Some([])
    else match Utf8DecodeChar(bs)
      case None => None
      case Some((c, k)) =>
        match Utf8Decode(bs[k..])
        case None => None
        case Some(rest) => Some([c] + rest)
  }

  /** The base-64 digits of a code point of up to three digits. */
  lemma Digits3(n: nat)
    ensures n / 4096 == (n / 64) / 64
    ensures (n / 4096) * 4096 + ((n / 64) % 64) * 64 + n % 64 == n
  {
    var q := n / 64;
    assert n == q * 64 + n % 64;
    assert q == (q / 64) * 64 + q % 64;
  }

  /** The base-64 digits of a code point of up to four digits. */
  lemma Digits4(n: nat)
    ensures (n / 262144) * 262144 + ((n / 4096) % 64) * 4096 + ((n / 64) % 64) * 64 + n % 64 == n
  {
    var q := n / 4096;
    Digits3(n);
    Digits3(q * 64);
    assert q == (q / 64) * 64 + q % 64;
    assert n / 262144 == q / 64;
  }

  /** Decoding reads back the character an encoding starts with. */
  lemma Utf8DecodeCharOf(c: char, rest: seq<Byte>)
    ensures Utf8DecodeChar(Utf8Char(c) + rest) == Some((c, |Utf8Char(c)|))
  {
    var n := c as int;
    if n < 0x80 {
    } else if n < 0x800 {
      assert (n / 64) * 64 + n % 64 == n;
    } else if n < 0x10000 {
      Digits3(n);
    } else {
      Digits4(n);
    }
  }

  /** Decoding the UTF-8 encoding of a text gives the text back. */
  lemma {:induction false} Utf8RoundTrip(s: string)
    ensures Utf8Decode(Utf8(s)) == Some(s)
  {
    if s != [] {
      var rest := Utf8(s[1..]);
      Utf8DecodeCharOf(s[0], rest);
      assert (Utf8Char(s[0]) + rest)[|Utf8Char(s[0])|..] == rest;
      Utf8RoundTrip(s[1..]);
      assert [s[0]] + s[1..] == s;
    }
  }

  /** A decoded text encodes back to the bytes it came from. */
  lemma {:induction false} Utf8DecodeEncodes(bs: seq<Byte>)
    requires Utf8Decode(bs).Some?
    ensures Utf8(Utf8Decode(bs).value) == bs
    decreases |bs|
  {
    if bs != [] {
      var k, rest := Utf8DecodeFirst(bs);
      Utf8DecodeEncodes(bs[k..]);
      assert bs == bs[..k] + bs[k..];
    }
  }

  /** A successful decoding splits into the first character, read from
      the `k` bytes that encode it, and the decoding `rest` of the bytes
      after them. */
  lemma Utf8DecodeFirst(bs: seq<Byte>) returns (k: nat, rest: string)
    requires bs != [] && Utf8Decode(bs).Some?
    ensures 1 <= k <= |bs| && Utf8Decode(bs[k..]) == Some(rest)
    ensures Utf8(Utf8Decode(bs).value) == bs[..k] + Utf8(rest)
  {
    var ck := Utf8DecodeChar(bs).value;
    k, rest := ck.1, Utf8Decode(bs[ck.1..]).value;
    assert Utf8Decode(bs).value == [ck.0] + rest;
    Utf8DecodeCharCanonical(bs);
    Utf8Cons(ck.0, rest);
  }

  /** Encoding a text that starts with `c` starts with the encoding of `c`. */
  lemma Utf8Cons(c: char, rest: string)
    ensures Utf8([c] + rest) == Utf8Char(c) + Utf8(rest)
  {
    assert ([c] + rest)[1..] == rest;
  }

  /** Different texts have different encodings. */
  lemma Utf8Injective(s: string, t: string)
    requires Utf8(s) == Utf8(t)
    ensures s == t
  {
    Utf8RoundTrip(s);
    Utf8RoundTrip(t);
  }

  /** The bytes `quote` always leaves alone: ASCII letters, digits and
      `_.-~`, the unreserved characters of section 2.3 of RFC 3986. */
  predicate IsUnreservedByte(b: Byte)
  {
    || ('A' as int <= b <= 'Z' as int)
    || ('a' as int <= b <= 'z' as int)
    || ('0' as int <= b <= '9' as int)
    || b == '_' as int || b == '.' as int || b == '-' as int || b == '~' as int
  }

  predicate IsUnreservedChar(c: char)
  {
    c as int < 0x80 && IsUnreservedByte(c as int)
  }

  /** An upper-case hexadecimal digit. */
  function HexDigit(n: nat): (c: char)
    requires n < 16
    ensures IsUnreservedChar(c)
  {
    "0123456789ABCDEF"[n]
  }

  /** The value of a hexadecimal digit, either case. */
  function HexValue(c: char): (r: Option<nat>)
    ensures r.Some? ==> r.value < 16
  {
    if '0' <= c <= '9' then Some(c as int - '0' as int)
    else if 'A' <= c <= 'F' then Some(c as int - 'A' as int + 10)
    else if 'a' <= c <= 'f' then Some(c as int - 'a' as int + 10)
    else None
  }

  lemma HexValueDigit(n: nat)
    requires n < 16
    ensures HexValue(HexDigit(n)) == Some(n)
  {
  }

  /** One byte as `quote` writes it: literally when unreserved, otherwise
      as a percent-encoded octet with upper-case digits (section 2.1 of RFC 3986). */
  function QuoteByte(b: Byte): (r: string)
    ensures IsUnreservedByte(b) ==> r == [b as char]
    ensures !IsUnreservedByte(b) ==> |r| == 3 && r[0] == '%'
  {
    if IsUnreservedByte(b) then [b as char]
    else ['%', HexDigit(b / 16), HexDigit(b % 16)]
  }

  function QuoteBytes(bs: seq<Byte>): string
  {
    if bs == [] then "" else QuoteByte(bs[0]) + QuoteBytes(bs[1..])
  }

  /** `quote(link, safe='')`. */
  function Quote(s: string): string
  {
    QuoteBytes(Utf8(s))
  }

  /** Percent-decoding to bytes, refusing anything `quote` cannot produce. */
  function Unquote(t: string): (r: Option<seq<Byte>>)
    decreases |t|
  {
    if t == [] then Some([])
    else if t[0] == '%' then
      if |t| >= 3 && HexValue(t[1]).Some? && HexValue(t[2]).Some? then
        match Unquote(t[3..])
        case None => None
        case Some(rest) => Some([HexValue(t[1]).value * 16 + HexValue(t[2]).value] + rest)
      else None
    else if IsUnreservedChar(t[0]) then
      match Unquote(t[1..])
      case None => None
      case Some(rest) => Some([t[0] as int] + rest)
    else None
  }

  /** Decoding one quoted byte in front of a decodable rest. */
  lemma UnquoteByte(b: Byte, rest: string)
    requires Unquote(rest).Some?
    ensures Unquote(QuoteByte(b) + rest) == Some([b] + Unquote(rest).value)
  {
    if IsUnreservedByte(b) {
      UnquoteLiteral(b, rest);
    } else {
      UnquoteEscape(b, rest);
    }
  }

  lemma UnquoteLiteral(b: Byte, rest: string)
    requires Unquote(rest).Some? && IsUnreservedByte(b)
    ensures Unquote([b as char] + rest) == Some([b] + Unquote(rest).value)
  {
    var t := [b as char] + rest;
    assert t[0] == b as char && t[1..] == rest;
    assert IsUnreservedChar(t[0]);
  }

  lemma UnquoteEscape(b: Byte, rest: string)
    requires Unquote(rest).Some? && !IsUnreservedByte(b)
    ensures Unquote(QuoteByte(b) + rest) == Some([b] + Unquote(rest).value)
  {
    var hi, lo := b / 16, b % 16;
    HexValueDigit(hi);
    HexValueDigit(lo);
    UnquotePercent(HexDigit(hi), HexDigit(lo), rest);
  }

  /** Decoding a percent escape in front of a decodable rest. */
  lemma UnquotePercent(c1: char, c2: char, rest: string)
    requires HexValue(c1).Some? && HexValue(c2).Some? && Unquote(rest).Some?
    ensures Unquote(['%', c1, c2] + rest) == Some([HexValue(c1).value * 16 + HexValue(c2).value] + Unquote(rest).value)
  {
    var head := ['%', c1, c2];
    var t := head + rest;
    assert |t| == |rest| + 3;
    assert t[0] == head[0] == '%';
    assert t[1] == head[1] == c1;
    assert t[2] == head[2] == c2;
    assert t[3..] == rest;
  }

  /** Percent-decoding undoes `quote`: the link's UTF-8 bytes come back. */
  lemma {:induction false} UnquoteQuoteBytes(bs: seq<Byte>)
    ensures Unquote(QuoteBytes(bs)) == Some(bs)
  {
    if bs != [] {
      UnquoteQuoteBytes(bs[1..]);
      UnquoteByte(bs[0], QuoteBytes(bs[1..]));
      assert [bs[0]] + bs[1..] == bs;
    }
  }

  lemma UnquoteQuote(s: string)
    ensures Unquote(Quote(s)) == Some(Utf8(s))
  {
    UnquoteQuoteBytes(Utf8(s));
  }

  /** The quoted link determines the link: percent-decoding and then
      UTF-8 decoding it gives the link back. */
  lemma QuoteDecodes(s: string)
    ensures Unquote(Quote(s)).Some? && Utf8Decode(Unquote(Quote(s)).value) == Some(s)
  {
    UnquoteQuote(s);
    Utf8RoundTrip(s);
  }

  /** Every character of the quoted text is unreserved or `%`. */
  lemma {:induction false} QuoteBytesAlphabet(bs: seq<Byte>)
    ensures forall i :: 0 <= i < |QuoteBytes(bs)| ==> IsUnreservedChar(QuoteBytes(bs)[i]) || QuoteBytes(bs)[i] == '%'
  {
    if bs != [] {
      QuoteBytesAlphabet(bs[1..]);
      var q := QuoteByte(bs[0]);
      var rest := QuoteBytes(bs[1..]);
      forall i | 0 <= i < |q + rest| ensures IsUnreservedChar((q + rest)[i]) || (q + rest)[i] == '%' {
        if i >= |q| {
          assert (q + rest)[i] == rest[i - |q|];
        }
      }
    }
  }

  /** In particular the link's `/`, `&`, `=`, `?` and `#` never appear raw
      in its parameter. */
  lemma QuoteHasNoDelimiters(s: string)
    ensures '/' !in Quote(s) && '&' !in Quote(s) && '=' !in Quote(s) && '?' !in Quote(s) && '#' !in Quote(s)
  {
    QuoteBytesAlphabet(Utf8(s));
  }

  /** A link made of unreserved characters only is left as it is. */
  lemma {:induction false} QuoteUnreserved(s: string)
    requires forall i :: 0 <= i < |s| ==> IsUnreservedChar(s[i])
    ensures Quote(s) == s
  {
    if s != [] {
      QuoteUnreserved(s[1..]);
      assert Utf8(s) == [s[0] as int] + Utf8(s[1..]);
      assert ([s[0] as int] + Utf8(s[1..]))[1..] == Utf8(s[1..]);
      assert [s[0]] + s[1..] == s;
    }
  }

  /** The links endpoint `URL_TEMPLATE` starts with. */
  const LinksEndpoint: string := "https://api.crowdtangle.com/links"

  /** The `count` parameter: one post, or a hundred top posts. */
  function CountText(includePosts: bool): string
  {
    if includePosts then "100" else "1"
  }

  /** The placeholders of `URL_TEMPLATE` filled in, in template order:
      `token`, `count`, `startDate`, the constant `includeSummary=true`,
      `link` and `sortBy`. */
  function QueryParams(link: string, token: string, startDate: string, sortBy: string, includePosts: bool): seq<string>
  {
    ["token=" + token, "count=" + CountText(includePosts), "startDate=" + startDate,
     "includeSummary=true", "link=" + Quote(link), "sortBy=" + sortBy]
  }

  /** `forge_url(link, token, start_date, sort_by, include_posts)`: the
      endpoint, `?`, then the parameters joined by `&`. */
  function ForgeUrl(link: string, token: string, startDate: string, sortBy: string, includePosts: bool): string
  {
    LinksEndpoint + "?" + Join(QueryParams(link, token, startDate, sortBy, includePosts), "&")
  }

  /** When the token, the start date and the sort key hold no `&`, the
      query splits back into its six parameters, in order: the token,
      the start date and the sort key verbatim, the count, and the
      quoted link. */
  lemma ForgeUrlQuery(link: string, token: string, startDate: string, sortBy: string, includePosts: bool)
    requires '&' !in token && '&' !in startDate && '&' !in sortBy
    ensures var url := ForgeUrl(link, token, startDate, sortBy, includePosts);
      && StartsWith(url, LinksEndpoint + "?")
      && Split(url[|LinksEndpoint| + 1..], "&") == QueryParams(link, token, startDate, sortBy, includePosts)
  {
    var url := ForgeUrl(link, token, startDate, sortBy, includePosts);
    var ps := QueryParams(link, token, startDate, sortBy, includePosts);
    QuoteHasNoDelimiters(link);
    assert url[..|LinksEndpoint| + 1] == LinksEndpoint + "?";
    assert url[|LinksEndpoint| + 1..] == Join(ps, "&");
    forall k | 0 <= k < |ps| ensures '&' !in ps[k] {
      if k == 4 {
        assert forall c :: c in ps[4] ==> c in "link=" || c in Quote(link);
      }
    }
    SplitJoin(ps, '&');
  }

  /** The link parameter percent-decodes to the link's UTF-8 bytes. */
  lemma ForgeUrlLink(link: string, token: string, startDate: string, sortBy: string, includePosts: bool)
    requires '&' !in token && '&' !in startDate && '&' !in sortBy
    ensures var query := ForgeUrl(link, token, startDate, sortBy, includePosts)[|LinksEndpoint| + 1..];
      var ps := Split(query, "&");
      && |ps| == 6
      && ps[1] == "count=" + CountText(includePosts)
      && |ps[4]| >= 5 && ps[4][..5] == "link="
      && Unquote(ps[4][5..]) == Some(Utf8(link))
  {
    ForgeUrlQuery(link, token, startDate, sortBy, includePosts);
    var p := "link=" + Quote(link);
    assert p[5..] == Quote(link);
    UnquoteQuote(link);
  }

  /** The exceptions `crowdtangle_summary` raises. */
  datatype SummaryError =
    | MissingTokenError
    | InvalidTokenError
    | InvalidRequest(url: string)
    | TypeError(msg: string)
    | RequestError(reason: string)

  /** The keyword arguments of `crowdtangle_summary`; a `start_date` that
      is not a string is `None` here. */
  datatype SummaryArgs = SummaryArgs(
    token: Option<string>,
    startDate: Option<string>,
    withTopPosts: bool,
    sortBy: string,
    format: string)

  /** The guards of `crowdtangle_summary`, checked in source order before
      any request. `CROWDTANGLE_OUTPUT_FORMATS` and
      `CROWDTANGLE_SUMMARY_SORT_TYPES` are parameters. */
  function CheckArguments(args: SummaryArgs, outputFormats: set<string>, sortTypes: set<string>): (r: Option<SummaryError>)
    ensures r.None? <==> args.token.Some? && args.format in outputFormats && args.startDate.Some? && args.sortBy in sortTypes
    ensures args.token.None? ==> r == Some(MissingTokenError)
    ensures r.Some? && r.value.TypeError? ==> args.token.Some?
    ensures args.token.Some? && args.format !in outputFormats ==> r == Some(TypeError("minet.crowdtangle.summary: unkown `format`."))
  {
    if args.token.None? then Some(MissingTokenError)
    else if args.format !in outputFormats then Some(TypeError("minet.crowdtangle.summary: unkown `format`."))
    else if args.startDate.None? then Some(TypeError("minet.crowdtangle.summary: expecting a `start_date` kwarg."))
    else if args.sortBy !in sortTypes then Some(TypeError("minet.crowdtangle.summary: unknown `sort_by`."))
    else None
  }

  /** The later guards report only when the earlier ones pass. */
  lemma GuardOrder(args: SummaryArgs, outputFormats: set<string>, sortTypes: set<string>)
    ensures args.token.Some? && args.format in outputFormats && args.startDate.None? ==>
      CheckArguments(args, outputFormats, sortTypes) == Some(TypeError("minet.crowdtangle.summary: expecting a `start_date` kwarg."))
    ensures args.token.Some? && args.format in outputFormats && args.startDate.Some? && args.sortBy !in sortTypes ==>
      CheckArguments(args, outputFormats, sortTypes) == Some(TypeError("minet.crowdtangle.summary: unknown `sort_by`."))
  {
  }

  /** The HTTP status check after each request. */
  function ClassifyStatus(status: int, url: string): (r: Option<SummaryError>)
    ensures r == Some(InvalidTokenError) <==> status == 401
    ensures r == Some(InvalidRequest(url)) <==> status >= 400 && status != 401
    ensures r.None? <==> status < 400
  {
    if status == 401 then Some(InvalidTokenError)
    else if status >= 400 then Some(InvalidRequest(url))
    else None
  }

  /** What `request_json` gives back: a transport error, or a status with
      the decoded body. */
  datatype Response = Failed(reason: string) | Answered(status: int, data: Value)

  /** An item of the iterator: a link, or a row from which `key` extracts one. */
  datatype Item = TextItem(text: string) | RowItem(cells: seq<string>)

  /** `format_summary` and `format_post`, as dictionaries and as rows. */
  datatype Formatters = Formatters(
    summaryDict: Value -> Value,
    summaryRow: Value -> Value,
    postDict: Value -> Value,
    postRow: Value -> Value)

  /** The two result tuples. */
  datatype SummaryResult =
    | Summary(link: string, item: Item, stats: Value)
    | SummaryWithPosts(link: string, item: Item, stats: Value, posts: Value)

  /** The link of an item: `key(item)` when a key is given, the item
      itself otherwise; `quote` refuses an item that is not a string. */
  function LinkOf(item: Item, key: Option<Item -> string>): (r: Result<string, SummaryError>)
    ensures key.Some? ==> r == Ok(key.value(item))
    ensures key.None? && item.TextItem? ==> r == Ok(item.text)
    ensures key.None? && item.RowItem? ==> r.Err? && r.error.TypeError?
  {
    if key.Some? then Ok(key.value(item))
    else if item.TextItem? then Ok(item.text)
    else Err(TypeError("quote_from_bytes() expected bytes"))
  }

  /** Formatting of the summary statistics, when there are some. */
  function FormatStats(stats: Value, format: string, f: Formatters): Value
  {
    if stats.VNone? then stats
    else if format == "csv_dict_row" then f.summaryDict(stats)
    else if format == "csv_row" then f.summaryRow(stats)
    else stats
  }

  /** Formatting of the top posts, post by post, when there are some. */
  function FormatPosts(posts: Value, format: string, f: Formatters): Value
  {
    if posts.VList? && (format == "csv_dict_row" || format == "csv_row") then
      var fmt := if format == "csv_dict_row" then f.postDict else f.postRow;
      VList(seq(|posts.items|, k requires 0 <= k < |posts.items| => fmt(posts.items[k])))
    else posts
  }

  /** The request, status check and result of one item, for arguments that
      passed the guards. */
  function SummaryStep(item: Item, key: Option<Item -> string>, args: SummaryArgs, fetch: string -> Response, f: Formatters): (r: Result<SummaryResult, SummaryError>)
    requires args.token.Some? && args.startDate.Some?
  {
    match LinkOf(item, key)
    case Err(e) => Err(e)
    case Ok(link) =>
      var url := ForgeUrl(link, args.token.value, args.startDate.value, args.sortBy, args.withTopPosts);
      match fetch(url)
      case Failed(reason) => Err(RequestError(reason))
      case Answered(status, data) =>
        if ClassifyStatus(status, url).Some? then Err(ClassifyStatus(status, url).value)
        else
          var stats := FormatStats(NestedGet(["result", "summary", "facebook"], data, VNone), args.format, f);
          if !args.withTopPosts then Ok(Summary(link, item, stats))
          else Ok(SummaryWithPosts(link, item, stats, FormatPosts(NestedGet(["result", "posts"], data, VNone), args.format, f)))
  }

  /** A result has three fields without top posts and four with them,
      and carries its item and its link; a 401 is an invalid token and any
      other status from 400 up is an invalid request for the forged URL. */
  lemma SummaryStepShape(item: Item, key: Option<Item -> string>, args: SummaryArgs, fetch: string -> Response, f: Formatters)
    requires args.token.Some? && args.startDate.Some?
    ensures var r := SummaryStep(item, key, args, fetch, f);
      && (r.Ok? ==> (r.value.SummaryWithPosts? <==> args.withTopPosts))
      && (r.Ok? ==> r.value.item == item && LinkOf(item, key) == Ok(r.value.link))
      && (LinkOf(item, key).Ok? ==>
            var url := ForgeUrl(LinkOf(item, key).value, args.token.value, args.startDate.value, args.sortBy, args.withTopPosts);
            && (fetch(url).Answered? && fetch(url).status == 401 ==> r == Err(InvalidTokenError))
            && (fetch(url).Answered? && fetch(url).status >= 400 && fetch(url).status != 401 ==> r == Err(InvalidRequest(url))))
  {
  }

  /** The results yielded for `items`, and the error that stops the
      generator, if any. */
  function SummaryRun(items: seq<Item>, key: Option<Item -> string>, args: SummaryArgs, fetch: string -> Response, f: Formatters): (r: (seq<SummaryResult>, Option<SummaryError>))
    requires args.token.Some? && args.startDate.Some?
    decreases |items|
  {
    if items == [] then ([], None)
    else
      var prev := SummaryRun(items[..|items| - 1], key, args, fetch, f);
      if prev.1.Some? then prev
      else match SummaryStep(items[|items| - 1], key, args, fetch, f)
        case Ok(res) => (prev.0 + [res], None)
        case Err(e) => (prev.0, Some(e))
  }

  /** `rs` holds one result per leading item of `items`, in order, each
      carrying its item and the requested shape. */
  predicate ResultsFollow(rs: seq<SummaryResult>, items: seq<Item>, withTopPosts: bool)
  {
    |rs| <= |items|
    && forall k :: 0 <= k < |rs| ==> rs[k].item == items[k] && (rs[k].SummaryWithPosts? <==> withTopPosts)
  }

  /** Results for some leading items still follow when an item is added. */
  lemma ResultsFollowLonger(rs: seq<SummaryResult>, items: seq<Item>, item: Item, withTopPosts: bool)
    requires ResultsFollow(rs, items, withTopPosts)
    ensures ResultsFollow(rs, items + [item], withTopPosts)
  {
    forall k | 0 <= k < |rs| ensures (items + [item])[k] == items[k] {
    }
  }

  /** A result for every item, followed by one for a new item. */
  lemma ResultsFollowSnoc(rs: seq<SummaryResult>, items: seq<Item>, res: SummaryResult, item: Item, withTopPosts: bool)
    requires ResultsFollow(rs, items, withTopPosts) && |rs| == |items|
    requires res.item == item && (res.SummaryWithPosts? <==> withTopPosts)
    ensures ResultsFollow(rs + [res], items + [item], withTopPosts)
  {
    forall k | 0 <= k < |rs| ensures (rs + [res])[k] == rs[k] && (items + [item])[k] == items[k] {
    }
  }

  /** One result per item, in order, each carrying its item and the
      requested shape; without an error every item has its result. */
  lemma {:induction false} SummaryRunResults(items: seq<Item>, key: Option<Item -> string>, args: SummaryArgs, fetch: string -> Response, f: Formatters)
    requires args.token.Some? && args.startDate.Some?
    ensures var (rs, err) := SummaryRun(items, key, args, fetch, f);
      ResultsFollow(rs, items, args.withTopPosts) && (err.None? ==> |rs| == |items|)
    decreases |items|
  {
    if items != [] {
      var init, last := items[..|items| - 1], items[|items| - 1];
      assert items == init + [last];
      SummaryRunResults(init, key, args, fetch, f);
      var prev := SummaryRun(init, key, args, fetch, f);
      if prev.1.None? {
        SummaryStepShape(last, key, args, fetch, f);
        var step := SummaryStep(last, key, args, fetch, f);
        if step.Ok? {
          ResultsFollowSnoc(prev.0, init, step.value, last, args.withTopPosts);
        } else {
          ResultsFollowLonger(prev.0, init, last, args.withTopPosts);
        }
      } else {
        ResultsFollowLonger(prev.0, init, last, args.withTopPosts);
      }
    }
  }

  /** An item that does not fail, after a run without error, adds its own
      result at the end. */
  lemma SummaryRunOkStep(init: seq<Item>, last: Item, key: Option<Item -> string>, args: SummaryArgs, fetch: string -> Response, f: Formatters)
    requires args.token.Some? && args.startDate.Some?
    requires SummaryRun(init, key, args, fetch, f).1.None?
    requires SummaryStep(last, key, args, fetch, f).Ok?
    ensures SummaryRun(init + [last], key, args, fetch, f) ==
      (SummaryRun(init, key, args, fetch, f).0 + [SummaryStep(last, key, args, fetch, f).value], None)
  {
    assert (init + [last])[..|init|] == init;
  }

  /** An item that fails, after a run without error, ends the run with its
      error and adds no result. */
  lemma SummaryRunErrStep(init: seq<Item>, last: Item, key: Option<Item -> string>, args: SummaryArgs, fetch: string -> Response, f: Formatters)
    requires args.token.Some? && args.startDate.Some?
    requires SummaryRun(init, key, args, fetch, f).1.None?
    requires SummaryStep(last, key, args, fetch, f).Err?
    ensures SummaryRun(init + [last], key, args, fetch, f) ==
      (SummaryRun(init, key, args, fetch, f).0, Some(SummaryStep(last, key, args, fetch, f).error))
  {
    assert (init + [last])[..|init|] == init;
  }

  /** When no item fails, the run yields each item's own result, in item
      order, and ends without error. */
  lemma {:induction false} SummaryRunAllOk(items: seq<Item>, key: Option<Item -> string>, args: SummaryArgs, fetch: string -> Response, f: Formatters)
    requires args.token.Some? && args.startDate.Some?
    requires forall k :: 0 <= k < |items| ==> SummaryStep(items[k], key, args, fetch, f).Ok?
    ensures var (rs, err) := SummaryRun(items, key, args, fetch, f);
      && err.None? && |rs| == |items|
      && forall k :: 0 <= k < |items| ==> rs[k] == SummaryStep(items[k], key, args, fetch, f).value
    decreases |items|
  {
    if items != [] {
      var init, last := items[..|items| - 1], items[|items| - 1];
      assert items == init + [last];
      assert forall k :: 0 <= k < |init| ==> init[k] == items[k];
      SummaryRunAllOk(init, key, args, fetch, f);
      SummaryRunOkStep(init, last, key, args, fetch, f);
    }
  }

  /** When item `j` is the first to fail, the run yields exactly the results
      of the items before it and ends with that item's error. */
  lemma SummaryRunFirstError(items: seq<Item>, key: Option<Item -> string>, args: SummaryArgs, fetch: string -> Response, f: Formatters, j: nat)
    requires args.token.Some? && args.startDate.Some?
    requires j < |items|
    requires forall k :: 0 <= k < j ==> SummaryStep(items[k], key, args, fetch, f).Ok?
    requires SummaryStep(items[j], key, args, fetch, f).Err?
    ensures var (rs, err) := SummaryRun(items, key, args, fetch, f);
      && err == Some(SummaryStep(items[j], key, args, fetch, f).error) && |rs| == j
      && forall k :: 0 <= k < j ==> rs[k] == SummaryStep(items[k], key, args, fetch, f).value
  {
    var pre := items[..j];
    assert forall k :: 0 <= k < |pre| ==> pre[k] == items[k];
    SummaryRunAllOk(pre, key, args, fetch, f);
    SummaryRunErrAt(items, key, args, fetch, f, j);
  }

  /** After a run of leading items without error, a failing item `j` ends
      the whole run with its error and what those leading items yielded. */
  lemma SummaryRunErrAt(items: seq<Item>, key: Option<Item -> string>, args: SummaryArgs, fetch: string -> Response, f: Formatters, j: nat)
    requires args.token.Some? && args.startDate.Some?
    requires j < |items|
    requires SummaryRun(items[..j], key, args, fetch, f).1.None?
    requires SummaryStep(items[j], key, args, fetch, f).Err?
    ensures SummaryRun(items, key, args, fetch, f) ==
      (SummaryRun(items[..j], key, args, fetch, f).0, Some(SummaryStep(items[j], key, args, fetch, f).error))
  {
    assert items[..j + 1] == items[..j] + [items[j]];
    SummaryRunErrStep(items[..j], items[j], key, args, fetch, f);
    SummaryRunStops(items, key, args, fetch, f, j + 1);
  }

  /** `crowdtangle_summary(iterator, ...)`: the guards, then one request
      per item; the rate limiter and the connection pool are not part of
      this model. Returns what the generator yields and the exception it
      ends with. */
  method CrowdTangleSummaryRun(
    items: seq<Item>, key: Option<Item -> string>, args: SummaryArgs,
    outputFormats: set<string>, sortTypes: set<string>,
    fetch: string -> Response, f: Formatters)
    returns (results: seq<SummaryResult>, err: Option<SummaryError>)
    ensures CheckArguments(args, outputFormats, sortTypes).Some? ==>
      results == [] && err == CheckArguments(args, outputFormats, sortTypes)
    ensures CheckArguments(args, outputFormats, sortTypes).None? ==>
      (results, err) == SummaryRun(items, key, args, fetch, f)
  {
    var guard := CheckArguments(args, outputFormats, sortTypes);
    if guard.Some? {
      return [], guard;
    }
    results := [];
    for i := 0 to |items|
      invariant SummaryRun(items[..i], key, args, fetch, f) == (results, None)
    {
      assert items[..i + 1][..i] == items[..i];
      var step := SummaryStep(items[i], key, args, fetch, f);
      if step.Err? {
        SummaryRunStops(items, key, args, fetch, f, i + 1);
        return results, Some(step.error);
      }
      results := results + [step.value];
    }
    assert items[..|items|] == items;
    err := None;
  }

  /** Once the generator has stopped on an error, later items change nothing. */
  lemma {:induction false} SummaryRunStops(items: seq<Item>, key: Option<Item -> string>, args: SummaryArgs, fetch: string -> Response, f: Formatters, j: nat)
    requires args.token.Some? && args.startDate.Some?
    requires j <= |items|
    requires SummaryRun(items[..j], key, args, fetch, f).1.Some?
    ensures SummaryRun(items, key, args, fetch, f) == SummaryRun(items[..j], key, args, fetch, f)
    decreases |items| - j
  {
    if j < |items| {
      assert items[..j + 1][..j] == items[..j];
      SummaryRunStops(items, key, args, fetch, f, j + 1);
    } else {
      assert items[..j] == items;
    }
  }
}
