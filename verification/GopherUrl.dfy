/** parseurl.c: the URL parser, a state machine over a mutable string, and the URL printer. Plain
    char is taken as signed, as on the program's targets. */
module GopherUrl {
  import opened CStrings

  const GOPHER := 1
  const HTTP := 2
  const TELNET := 3
  const ERROR := 0xff

  /* ---------- what the parser computes ---------- */

  datatype Parsed = Error | Url(protocol: int, host: string, port: int, itemtype: char, selector: string)

  predicate Delimiter(c: char) {
    c == ':' || c == '/'
  }

  // Where the first ':' or '/' is, or the length.
  function FirstDelimiter(s: string): (i: nat)
    ensures i <= |s|
    ensures forall k :: 0 <= k < i ==> !Delimiter(s[k])
    ensures i < |s| ==> Delimiter(s[i])
  {
    if s == "" || Delimiter(s[0]) then 0 else 1 + FirstDelimiter(s[1..])
  }

  predicate PlainHost(s: string) {
    forall k :: 0 <= k < |s| ==> !Delimiter(s[k])
  }

  // The first ':' or '/' begins "://".
  predicate HasScheme(url: string) {
    var i := FirstDelimiter(url);
    i + 2 < |url| && url[i] == ':' && url[i + 1] == '/' && url[i + 2] == '/'
  }

  // The selector must fit its buffer.
  function Finish(protocol: int, host: string, port: int, itemtype: char, selector: string, selectorlen: int): Parsed {
    if |selector| >= selectorlen then Error else Url(protocol, host, port, itemtype, selector)
  }

  // What follows the '/' behind host and port: item type and selector, or for other protocols
  // than gopher only a selector.
  function ParsePath(path: string, protocol: int, host: string, port: int, itemtype: char, selectorlen: int): Parsed {
    if protocol == GOPHER && path != "" then Finish(protocol, host, port, path[0], path[1..], selectorlen)
    else Finish(protocol, host, port, itemtype, path, selectorlen)
  }

  // What follows the ':' behind the host.
  function ParsePort(s: string, protocol: int, host: string, itemtype: char, selectorlen: int): Parsed {
    var q := IndexOf(s, '/');
    var port := Atoi(s[..q]) % 0x1_0000;
    if q == |s| then Url(protocol, host, port, itemtype, "")
    else ParsePath(s[q + 1..], protocol, host, port, itemtype, selectorlen)
  }

  // A URL without its scheme.
  function ParseRest(s: string, protocol: int, port: int, itemtype: char, hostlen: int, selectorlen: int): Parsed {
    var h := FirstDelimiter(s);
    if h >= hostlen then Error
    else if h == |s| then Url(protocol, s, port, itemtype, "")
    else if s[h] == '/' then ParsePath(s[h + 1..], protocol, s[..h], port, itemtype, selectorlen)
    else ParsePort(s[h + 1..], protocol, s[..h], itemtype, selectorlen)
  }

  // Protocol, default port and default item type of a scheme.
  datatype Scheme = NoScheme | UnknownScheme | Known(protocol: int, port: int, itemtype: char)

  function SchemeNamed(name: string): Scheme {
    if SameNoCase(name, "gopher") then Known(GOPHER, 70, '1')
    else if SameNoCase(name, "http") then Known(HTTP, 80, 'h')
    else if SameNoCase(name, "telnet") then Known(TELNET, 23, '8')
    else UnknownScheme
  }

  // What the text says in front of "://".
  function SchemeOf(url: string): Scheme {
    if HasScheme(url) then SchemeNamed(url[..FirstDelimiter(url)]) else NoScheme
  }

  function ParseUrl(url: string, hostlen: int, selectorlen: int): Parsed {
    match SchemeOf(url)
    case NoScheme => ParseRest(url, GOPHER, 70, '1', hostlen, selectorlen)
    case UnknownScheme => Error
    case Known(protocol, port, itemtype) =>
      ParseRest(url[FirstDelimiter(url) + 3..], protocol, port, itemtype, hostlen, selectorlen)
  }

  /* ---------- what the printer computes ---------- */

  predicate StartsWith(s: string, t: string) {
    |t| <= |s| && s[..|t|] == t
  }

  predicate HurlLink(itemtype: char, selector: string) {
    itemtype == 'h' && (StartsWith(selector, "URL:") || StartsWith(selector, "/URL:"))
  }

  // Bytes the printer writes as they are.
  predicate SafeChar(c: char) {
    0x1F < c as int < 0x80
  }

  predicate Safe(s: string) {
    forall k :: 0 <= k < |s| ==> SafeChar(s[k])
  }

  // The bytes of C strings.
  predicate Bytes(s: string) {
    forall k :: 0 <= k < |s| ==> 0 < s[k] as int < 256
  }

  // '%' and two characters computed from the signed value of the byte.
  function EscapeChar(c: char): string {
    if SafeChar(c) then [c] else
      var v := if c as int < 128 then c as int else c as int - 256;
      ['%', ((48 + v / 16) % 256) as char, ((48 + v % 16) % 256) as char]
  }

  function Escape(s: string): string {
    if s == "" then "" else EscapeChar(s[0]) + Escape(s[1..])
  }

  // The part of an escaped text that fits into so many cells, no escape cut through.
  function EscapeFit(s: string, room: nat): string {
    if s == "" || |EscapeChar(s[0])| > room then ""
    else EscapeChar(s[0]) + EscapeFit(s[1..], room - |EscapeChar(s[0])|)
  }

  function PortSuffix(port: nat, standard: nat): string {
    if port == standard then "" else ":" + Decimal(port)
  }

  // What follows host and port: nothing for the main menu.
  function PathText(itemtype: char, selector: string, escaped: string): string {
    if itemtype == '1' && selector == "" then "" else "/" + ([itemtype] + escaped)
  }

  function GopherText(host: string, port: nat, itemtype: char, selector: string): string {
    if host == "" then "gopher://"
    else "gopher://" + (host + (PortSuffix(port, 70) + PathText(itemtype, selector, Escape(selector))))
  }

  // The printed URL; None for the error return.
  function BuildUrl(protocol: int, host: string, port: nat, itemtype: char, selector: string): Option<string> {
    if protocol == HTTP then Some("http://" + (host + (PortSuffix(port, 80) + ("/" + selector))))
    else if port < 1 || itemtype as int < 33 || itemtype as int > 127 then None
    else if HurlLink(itemtype, selector) then Some(if selector[0] == '/' then selector[5..] else selector[4..])
    else if itemtype == '8' then Some("telnet://" + (host + (":" + Decimal(port))))
    else Some(GopherText(host, port, itemtype, selector))
  }

  /* ---------- round trips ---------- */

  lemma {:induction false} EscapeSafe(s: string)
    ensures |Escape(s)| >= |s| && (Safe(s) <==> |Escape(s)| == |s|)
    ensures Safe(s) ==> Escape(s) == s
  {
    if s != "" {
      EscapeSafe(s[1..]);
      assert Safe(s) <==> SafeChar(s[0]) && Safe(s[1..]);
    }
  }

  // The value of a hexadecimal digit of either case, or -1.
  function HexValue(h: char): int {
    if '0' <= h <= '9' then (h - '0') as int
    else if 'A' <= h <= 'F' then (h - 'A') as int + 10
    else if 'a' <= h <= 'f' then (h - 'a') as int + 10
    else -1
  }

  // '%' and the two hexadecimal digits of the byte.
  predicate IsHexEscape(text: string, c: char) {
    |text| == 3 && text[0] == '%' && HexValue(text[1]) == c as int / 16 && HexValue(text[2]) == c as int % 16
  }

  /** Of the bytes that have to be encoded, those below 0x20 and from 0x7F on, the printer encodes
      exactly those below 0x20 whose low half is at most 9 as '%' and their two hexadecimal digits. A
      line feed is written as %0: instead of %0A, and 0x7F is left as it is. */
  lemma EscapeIsHex(c: char)
    requires c as int < 256 && (c as int < 0x20 || c as int >= 0x7F)
    ensures IsHexEscape(EscapeChar(c), c) <==> c as int < 0x20 && c as int % 16 <= 9
    ensures EscapeChar('\n') == "%0:" && EscapeChar(0x7F as char) == [0x7F as char]
  {
    var v := if c as int < 128 then c as int else c as int - 256;
    assert c as int >= 0x80 ==> -8 <= v / 16 <= -1;
    assert !SafeChar(c) ==> EscapeChar(c)[1] as int == 48 + v / 16 && EscapeChar(c)[2] as int == 48 + v % 16;
  }

  /** The byte is the signed number that the two characters behind '%' stand for, counted from '0'. */
  lemma EscapeIsReversible(c: char)
    requires c as int < 256 && (c as int < 0x20 || c as int >= 0x80)
    ensures var e := EscapeChar(c);
            |e| == 3 && e[0] == '%' && 0 <= e[2] as int - 48 < 16 &&
            16 * (e[1] as int - 48) + (e[2] as int - 48) == if c as int < 0x80 then c as int else c as int - 256
    ensures forall d :: 0x20 <= d as int < 0x80 ==> EscapeChar(d) == [d]
  {
    var v := if c as int < 128 then c as int else c as int - 256;
    assert -8 <= v / 16 < 8 && v == 16 * (v / 16) + v % 16;
    assert EscapeChar(c)[1] as int == 48 + v / 16 && EscapeChar(c)[2] as int == 48 + v % 16;
  }

  /** A text is escaped character by character. */
  lemma {:induction false} EscapeConcat(a: string, b: string)
    ensures Escape(a + b) == Escape(a) + Escape(b)
    ensures |a| == 1 ==> Escape(a) == EscapeChar(a[0])
  {
    if a == "" {
      assert a + b == b;
    } else {
      assert (a + b)[1..] == a[1..] + b;
      EscapeConcat(a[1..], b);
    }
  }

  /** What fits is the beginning of the escaped text, all of it if there is room, and otherwise
      the next character does not fit. */
  lemma {:induction false} FitLaws(s: string, room: nat)
    ensures |EscapeFit(s, room)| <= room && EscapeFit(s, room) <= Escape(s)
    ensures EscapeFit(s, room) == Escape(s) <==> |Escape(s)| <= room
    ensures EscapeFit(s, room) != Escape(s) ==> |EscapeFit(s, room)| + 3 > room
  {
    if s != "" && |EscapeChar(s[0])| <= room {
      FitLaws(s[1..], room - |EscapeChar(s[0])|);
    }
  }

  lemma {:induction false} FitIsMaximal(s: string, room: nat) returns (k: nat)
    ensures k <= |s| && EscapeFit(s, room) == Escape(s[..k])
    ensures k < |s| ==> |Escape(s[..k])| + |EscapeChar(s[k])| > room
  {
    if s == "" || |EscapeChar(s[0])| > room {
      return 0;
    }
    var e := EscapeChar(s[0]);
    var j := FitIsMaximal(s[1..], room - |e|);
    k := j + 1;
    assert s[..k][0] == s[0] && s[..k][1..] == s[1..][..j];
  }

  lemma FirstDelimiterOf(host: string, rest: string)
    requires PlainHost(host) && (rest == "" || Delimiter(rest[0]))
    ensures FirstDelimiter(host + rest) == |host|
    ensures (host + rest)[..|host|] == host
  {
    var s := host + rest;
    assert forall k :: 0 <= k < |host| ==> s[k] == host[k];
    assert rest != "" ==> s[|host|] == rest[0];
  }

  // A URL that begins with a scheme.
  lemma SchemeSplits(scheme: string, rest: string)
    requires PlainHost(scheme)
    ensures var url := scheme + ("://" + rest);
            HasScheme(url) && FirstDelimiter(url) == |scheme| && url[..|scheme|] == scheme &&
            url[|scheme| + 3..] == rest
  {
    var tail := "://" + rest;
    var url := scheme + tail;
    FirstDelimiterOf(scheme, tail);
    assert url[|scheme|] == tail[0] && url[|scheme| + 1] == tail[1] && url[|scheme| + 2] == tail[2];
    assert url[|scheme| + 3..] == tail[3..];
  }

  lemma SlashBehind(p: string, tail: string)
    requires '/' !in p && (tail == "" || tail[0] == '/')
    ensures var s := p + tail;
            IndexOf(s, '/') == |p| && s[..|p|] == p && (tail != "" ==> s[|p| + 1..] == tail[1..])
  {
    var s := p + tail;
    forall k | 0 <= k < |p|
      ensures s[k] != '/'
    {
      assert s[k] == p[k] && p[k] in p;
    }
    assert tail != "" ==> s[|p|] == tail[0];
  }

  lemma ParsePrintedPort(port: nat, tail: string, protocol: int, host: string, itemtype: char, selectorlen: int)
    requires port < 0x1_0000 && (tail == "" || tail[0] == '/')
    ensures ParsePort(Decimal(port) + tail, protocol, host, itemtype, selectorlen)
         == if tail == "" then Url(protocol, host, port, itemtype, "")
            else ParsePath(tail[1..], protocol, host, port, itemtype, selectorlen)
  {
    assert '/' !in Decimal(port);
    SlashBehind(Decimal(port), tail);
    AtoiOfDecimal(port);
  }

  lemma SplitHost(host: string, rest: string, protocol: int, port: int, itemtype: char, hostlen: int, selectorlen: int)
    requires PlainHost(host) && |host| < hostlen && (rest == "" || Delimiter(rest[0]))
    ensures ParseRest(host + rest, protocol, port, itemtype, hostlen, selectorlen)
         == if rest == "" then Url(protocol, host, port, itemtype, "")
            else if rest[0] == '/' then ParsePath(rest[1..], protocol, host, port, itemtype, selectorlen)
            else ParsePort(rest[1..], protocol, host, itemtype, selectorlen)
  {
    var s := host + rest;
    FirstDelimiterOf(host, rest);
    if rest == "" {
      assert s == host;
    } else {
      assert s[|host|] == rest[0] && s[|host| + 1..] == rest[1..];
    }
  }

  // What the parser makes of host, port and the rest as the printer writes them.
  lemma ParseAuthority(host: string, port: nat, standard: nat, tail: string, protocol: int, itemtype: char,
                       hostlen: int, selectorlen: int)
    requires PlainHost(host) && |host| < hostlen && port < 0x1_0000 && (tail == "" || tail[0] == '/')
    ensures ParseRest(host + (PortSuffix(port, standard) + tail), protocol, standard, itemtype, hostlen, selectorlen)
         == if tail == "" then Url(protocol, host, port, itemtype, "")
            else ParsePath(tail[1..], protocol, host, port, itemtype, selectorlen)
  {
    var rest := PortSuffix(port, standard) + tail;
    if port == standard {
      assert rest == tail;
    } else {
      assert rest == [':'] + (Decimal(port) + tail);
      assert rest[1..] == Decimal(port) + tail;
      ParsePrintedPort(port, tail, protocol, host, itemtype, selectorlen);
    }
    SplitHost(host, rest, protocol, standard, itemtype, hostlen, selectorlen);
  }

  // All characters of a field come from the text.
  ghost predicate Within(field: string, text: string) {
    forall c :: c in field ==> c in text
  }

  lemma PathFields(path: string, protocol: int, host: string, port: int, itemtype: char, selectorlen: int)
    requires selectorlen > 0
    ensures var r := ParsePath(path, protocol, host, port, itemtype, selectorlen);
            r.Url? ==> r.host == host && r.port == port && |r.selector| < selectorlen && Within(r.selector, path) &&
                       (r.itemtype == itemtype || r.itemtype in path)
  {
  }

  lemma PortFields(s: string, protocol: int, host: string, itemtype: char, selectorlen: int)
    requires selectorlen > 0
    ensures var r := ParsePort(s, protocol, host, itemtype, selectorlen);
            r.Url? ==> r.host == host && 0 <= r.port < 0x1_0000 && |r.selector| < selectorlen &&
                       Within(r.selector, s) && (r.itemtype == itemtype || r.itemtype in s)
  {
    var q := IndexOf(s, '/');
    if q < |s| {
      PathFields(s[q + 1..], protocol, host, Atoi(s[..q]) % 0x1_0000, itemtype, selectorlen);
    }
  }

  // The host the parser returns holds no ':' and no '/', the fields fit their buffers, and what
  // they hold comes from the text.
  lemma RestFields(s: string, protocol: int, port: int, itemtype: char, hostlen: int, selectorlen: int)
    requires selectorlen > 0 && 0 <= port < 0x1_0000
    ensures var r := ParseRest(s, protocol, port, itemtype, hostlen, selectorlen);
            r.Url? ==> PlainHost(r.host) && |r.host| < hostlen && |r.selector| < selectorlen &&
                       0 <= r.port < 0x1_0000 && Within(r.host, s) && Within(r.selector, s) &&
                       (r.itemtype == itemtype || r.itemtype in s)
  {
    var h := FirstDelimiter(s);
    var host := s[..h];
    assert PlainHost(host);
    if h == |s| {
      assert host == s;
    } else {
      PathFields(s[h + 1..], protocol, host, port, itemtype, selectorlen);
      PortFields(s[h + 1..], protocol, host, itemtype, selectorlen);
    }
  }

  lemma {:induction false} ParsedFields(url: string, hostlen: int, selectorlen: int)
    requires selectorlen > 0
    ensures var r := ParseUrl(url, hostlen, selectorlen);
            r.Url? ==> PlainHost(r.host) && |r.host| < hostlen && |r.selector| < selectorlen &&
                       0 <= r.port < 0x1_0000 && Within(r.host, url) && Within(r.selector, url) &&
                       (r.itemtype in {'1', 'h', '8'} || r.itemtype in url)
  {
    match SchemeOf(url)
    case NoScheme => RestFields(url, GOPHER, 70, '1', hostlen, selectorlen);
    case UnknownScheme =>
    case Known(protocol, port, itemtype) =>
      RestFields(url[FirstDelimiter(url) + 3..], protocol, port, itemtype, hostlen, selectorlen);
  }

  lemma SchemeNames()
    ensures SchemeNamed("gopher") == Known(GOPHER, 70, '1')
    ensures SchemeNamed("http") == Known(HTTP, 80, 'h')
    ensures SchemeNamed("telnet") == Known(TELNET, 23, '8')
  {
    assert |Fold("gopher")| == 6 && |Fold("http")| == 4 && |Fold("telnet")| == 6;
    assert Fold("gopher")[0] == 'g' && Fold("telnet")[0] == 't';
  }

  // A URL with one of the three schemes.
  lemma ParseScheme(scheme: string, prefix: string, rest: string, hostlen: int, selectorlen: int)
    requires PlainHost(scheme) && prefix == scheme + "://"
    ensures ParseUrl(prefix + rest, hostlen, selectorlen) ==
            match SchemeNamed(scheme)
            case Known(protocol, port, itemtype) => ParseRest(rest, protocol, port, itemtype, hostlen, selectorlen)
            case _ => Error
  {
    SchemeSplits(scheme, rest);
    assert prefix + rest == scheme + ("://" + rest);
  }

  lemma ParseGopherScheme(rest: string, hostlen: int, selectorlen: int)
    ensures ParseUrl("gopher://" + rest, hostlen, selectorlen) == ParseRest(rest, GOPHER, 70, '1', hostlen, selectorlen)
  {
    SchemeNames();
    ParseScheme("gopher", "gopher://", rest, hostlen, selectorlen);
  }

  lemma ParseHttpScheme(rest: string, hostlen: int, selectorlen: int)
    ensures ParseUrl("http://" + rest, hostlen, selectorlen) == ParseRest(rest, HTTP, 80, 'h', hostlen, selectorlen)
  {
    SchemeNames();
    ParseScheme("http", "http://", rest, hostlen, selectorlen);
  }

  lemma ParseTelnetScheme(rest: string, hostlen: int, selectorlen: int)
    ensures ParseUrl("telnet://" + rest, hostlen, selectorlen) == ParseRest(rest, TELNET, 23, '8', hostlen, selectorlen)
  {
    SchemeNames();
    ParseScheme("telnet", "telnet://", rest, hostlen, selectorlen);
  }

  // An ordinary gopher location: not a telnet link, not a hURL link.
  ghost predicate GopherLocation(port: nat, itemtype: char, selector: string) {
    1 <= port < 0x1_0000 && 33 <= itemtype as int <= 127 && itemtype != '8' && !HurlLink(itemtype, selector)
  }

  // The fields that survive printing and parsing.
  ghost predicate Printable(host: string, port: nat, itemtype: char, selector: string) {
    PlainHost(host) && Safe(selector) && (host == "" ==> port == 70 && itemtype == '1' && selector == "")
  }

  lemma ParseGopherText(host: string, port: nat, itemtype: char, selector: string, hostlen: int, selectorlen: int)
    requires GopherLocation(port, itemtype, selector) && PlainHost(host) && host != ""
    requires |host| < hostlen && |Escape(selector)| < selectorlen
    ensures ParseUrl(GopherText(host, port, itemtype, selector), hostlen, selectorlen)
         == Url(GOPHER, host, port, itemtype, Escape(selector))
  {
    var tail := PathText(itemtype, selector, Escape(selector));
    ParseGopherScheme(host + (PortSuffix(port, 70) + tail), hostlen, selectorlen);
    ParseAuthority(host, port, 70, tail, GOPHER, '1', hostlen, selectorlen);
    if tail != "" {
      assert tail[1..] == [itemtype] + Escape(selector);
      assert tail[1..][1..] == Escape(selector);
    }
  }

  /** Round trip of gopher locations: parsing what the printer wrote gives back all the fields
      exactly when the host holds no ':' and no '/', the selector only bytes 0x20 to 0x7F, and an
      empty host comes with the default port, type and selector. */
  lemma {:induction false} GopherRoundTrip(host: string, port: nat, itemtype: char, selector: string, hostlen: int,
                                           selectorlen: int)
    requires GopherLocation(port, itemtype, selector)
    requires |host| < hostlen && |Escape(selector)| < selectorlen
    ensures BuildUrl(GOPHER, host, port, itemtype, selector).Some?
    ensures Printable(host, port, itemtype, selector) <==>
            ParseUrl(BuildUrl(GOPHER, host, port, itemtype, selector).value, hostlen, selectorlen)
            == Url(GOPHER, host, port, itemtype, selector)
  {
    var text := BuildUrl(GOPHER, host, port, itemtype, selector).value;
    EscapeSafe(selector);
    if host == "" {
      ParseGopherScheme("", hostlen, selectorlen);
      assert "gopher://" + "" == text;
    } else if PlainHost(host) {
      ParseGopherText(host, port, itemtype, selector, hostlen, selectorlen);
    } else {
      ParsedFields(text, hostlen, selectorlen);
    }
  }

  /** Round trip of HTTP locations: host, port and selector come back, with item type 'h', exactly
      when the host holds no ':' and no '/'. */
  lemma HttpRoundTrip(host: string, port: nat, itemtype: char, selector: string, hostlen: int, selectorlen: int)
    requires port < 0x1_0000 && |host| < hostlen && |selector| < selectorlen
    ensures BuildUrl(HTTP, host, port, itemtype, selector).Some?
    ensures PlainHost(host) <==>
            ParseUrl(BuildUrl(HTTP, host, port, itemtype, selector).value, hostlen, selectorlen)
            == Url(HTTP, host, port, 'h', selector)
  {
    var tail := "/" + selector;
    var rest := host + (PortSuffix(port, 80) + tail);
    var text := BuildUrl(HTTP, host, port, itemtype, selector).value;
    assert tail[1..] == selector;
    if PlainHost(host) {
      ParseHttpScheme(rest, hostlen, selectorlen);
      ParseAuthority(host, port, 80, tail, HTTP, 'h', hostlen, selectorlen);
    } else {
      ParsedFields(text, hostlen, selectorlen);
    }
  }

  /** A telnet link keeps host and port and loses its selector. */
  lemma TelnetRoundTrip(host: string, port: nat, selector: string, hostlen: int, selectorlen: int)
    requires 1 <= port < 0x1_0000 && |host| < hostlen && selectorlen > 0
    ensures BuildUrl(GOPHER, host, port, '8', selector).Some?
    ensures PlainHost(host) <==>
            ParseUrl(BuildUrl(GOPHER, host, port, '8', selector).value, hostlen, selectorlen)
            == Url(TELNET, host, port, '8', "")
  {
    var text := BuildUrl(GOPHER, host, port, '8', selector).value;
    if PlainHost(host) {
      // the port is always written out
      var rest := host + (":" + Decimal(port));
      ParseTelnetScheme(rest, hostlen, selectorlen);
      SplitHost(host, ":" + Decimal(port), TELNET, 23, '8', hostlen, selectorlen);
      assert (":" + Decimal(port))[1..] == Decimal(port) + "";
      ParsePrintedPort(port, "", TELNET, host, '8', selectorlen);
    } else {
      ParsedFields(text, hostlen, selectorlen);
    }
  }

  /** Canonical form: the text rebuilt from an accepted gopher URL parses to the same fields, and
      rebuilding once more changes nothing. */
  lemma CanonicalForm(url: string, hostlen: int, selectorlen: int)
    requires selectorlen > 0 && ParseUrl(url, hostlen, selectorlen).Url?
    requires var u := ParseUrl(url, hostlen, selectorlen);
             u.protocol == GOPHER && u.port >= 0 && GopherLocation(u.port, u.itemtype, u.selector) &&
             Safe(u.selector) &&
             (u.host == "" ==> u.port == 70 && u.itemtype == '1' && u.selector == "")
    ensures var u := ParseUrl(url, hostlen, selectorlen);
            BuildUrl(u.protocol, u.host, u.port, u.itemtype, u.selector).Some? &&
            var text := BuildUrl(u.protocol, u.host, u.port, u.itemtype, u.selector).value;
            var v := ParseUrl(text, hostlen, selectorlen);
            v == u && BuildUrl(v.protocol, v.host, v.port, v.itemtype, v.selector) == Some(text)
  {
    var u := ParseUrl(url, hostlen, selectorlen);
    ParsedFields(url, hostlen, selectorlen);
    EscapeSafe(u.selector);
    GopherRoundTrip(u.host, u.port, u.itemtype, u.selector, hostlen, selectorlen);
  }

  lemma RestProtocol(s: string, protocol: int, port: int, itemtype: char, hostlen: int, selectorlen: int)
    ensures var r := ParseRest(s, protocol, port, itemtype, hostlen, selectorlen);
            r.Url? ==> r.protocol == protocol && (s != "" ==> |r.selector| < |s|) && (s == "" ==> r.port == port)
  {
  }

  lemma EmptyPort(s: string, host: string, itemtype: char, selectorlen: int)
    requires |s| >= 2 && s[0] == '/' && s[1] == '/' && |s| < selectorlen
    ensures ParsePort(s, GOPHER, host, itemtype, selectorlen) == Url(GOPHER, host, 0, '/', s[2..])
  {
    assert IndexOf(s, '/') == 0;
    assert s[..0] == "";
    assert s[1..][1..] == s[2..];
  }

  lemma ParseRestAtColon(s: string, protocol: int, port: int, itemtype: char, hostlen: int, selectorlen: int)
    requires var h := FirstDelimiter(s); h < |s| && h < hostlen && s[h] == ':'
    ensures var h := FirstDelimiter(s);
            ParseRest(s, protocol, port, itemtype, hostlen, selectorlen)
            == ParsePort(s[h + 1..], protocol, s[..h], itemtype, selectorlen)
  {
  }

  // A scheme read as a host: its ':' begins an empty port, and the next two characters are '/'.
  lemma SchemeAsHost(url: string, hostlen: int, selectorlen: int)
    requires HasScheme(url) && hostlen > |url| && selectorlen > |url|
    ensures var i := FirstDelimiter(url);
            ParseRest(url, GOPHER, 70, '1', hostlen, selectorlen) == Url(GOPHER, url[..i], 0, '/', url[i + 3..])
  {
    var i := FirstDelimiter(url);
    var s := url[i + 1..];
    assert s[0] == url[i + 1] && s[1] == url[i + 2] && s[2..] == url[i + 3..];
    EmptyPort(s, url[..i], '1', selectorlen);
    ParseRestAtColon(url, GOPHER, 70, '1', hostlen, selectorlen);
  }

  /** The scheme is optional: leaving "gopher://" away gives the same result exactly when the first
      ':' or '/' does not begin "://" (the buffers being large enough for the other direction). */
  lemma SchemeIsOptional(url: string, hostlen: int, selectorlen: int)
    ensures !HasScheme(url) ==>
              ParseUrl("gopher://" + url, hostlen, selectorlen) == ParseUrl(url, hostlen, selectorlen)
    ensures HasScheme(url) && hostlen > |url| && selectorlen > |url| ==>
              ParseUrl("gopher://" + url, hostlen, selectorlen) != ParseUrl(url, hostlen, selectorlen)
  {
    ParseGopherScheme(url, hostlen, selectorlen);
    if HasScheme(url) && hostlen > |url| && selectorlen > |url| {
      SchemeCounts(url, hostlen, selectorlen);
    }
  }

  lemma SchemeCounts(url: string, hostlen: int, selectorlen: int)
    requires HasScheme(url) && hostlen > |url| && selectorlen > |url|
    ensures ParseUrl(url, hostlen, selectorlen) != ParseRest(url, GOPHER, 70, '1', hostlen, selectorlen)
  {
    var rest := url[FirstDelimiter(url) + 3..];
    SchemeAsHost(url, hostlen, selectorlen);
    if SchemeOf(url).Known? {
      var scheme := SchemeOf(url);
      RestProtocol(rest, scheme.protocol, scheme.port, scheme.itemtype, hostlen, selectorlen);
      assert scheme.protocol == GOPHER ==> scheme.port == 70;
    }
  }

  /* ---------- what is printed, and what is read, case by case ---------- */

  /** An item with an hURL selector stands for the text behind URL: in it. */
  lemma HurlIsItsText(u: string, host: string, port: nat)
    requires port >= 1
    ensures BuildUrl(GOPHER, host, port, 'h', "URL:" + u) == Some(u)
    ensures BuildUrl(GOPHER, host, port, 'h', "/URL:" + u) == Some(u)
  {
    assert ("URL:" + u)[..4] == "URL:" && ("URL:" + u)[4..] == u;
    assert ("/URL:" + u)[..5] == "/URL:" && ("/URL:" + u)[5..] == u;
  }

  /** A web link of a menu leads to the web page: its URL is read as an HTTP location. */
  lemma {:induction false} HurlLeadsToWeb(web: string, selector: string, host: string, port: nat, hostlen: int,
                                          selectorlen: int)
    requires port >= 1 && PlainHost(web) && |web| < hostlen && |selector| < selectorlen
    ensures var u := "http://" + (web + ("/" + selector));
            BuildUrl(GOPHER, host, port, 'h', "URL:" + u) == Some(u) &&
            ParseUrl(u, hostlen, selectorlen) == Url(HTTP, web, 80, 'h', selector)
  {
    var rest := "/" + selector;
    HurlIsItsText("http://" + (web + rest), host, port);
    ParseHttpScheme(web + rest, hostlen, selectorlen);
    SplitHost(web, rest, HTTP, 80, 'h', hostlen, selectorlen);
    assert rest[1..] == selector;
  }

  /** Only a gopher location can be refused: port 0, or an item type that is no printable character. */
  lemma BuildFails(protocol: int, host: string, port: nat, itemtype: char, selector: string)
    ensures BuildUrl(protocol, host, port, itemtype, selector) == None <==>
            protocol != 2 && (port == 0 || itemtype as int <= 32 || itemtype as int >= 128)
  {
  }

  /** A gopher URL: port 70 and the main menu are left out, everything else is written out. */
  lemma PrintedGopher(host: string, port: nat, itemtype: char, selector: string)
    requires host != "" && GopherLocation(port, itemtype, selector) && Safe(selector)
    ensures var path := "/" + ([itemtype] + selector);
            BuildUrl(1, host, port, itemtype, selector) ==
            Some("gopher://" + (host +
              (if port == 70 && itemtype == '1' && selector == "" then ""
               else if port == 70 then path
               else if itemtype == '1' && selector == "" then ":" + Decimal(port)
               else ":" + (Decimal(port) + path))))
  {
    EscapeSafe(selector);
    PrintedTail(port, itemtype, selector);
  }

  lemma PrintedTail(port: nat, itemtype: char, selector: string)
    ensures var path, p := "/" + ([itemtype] + selector), ":" + Decimal(port);
            PortSuffix(port, 70) + PathText(itemtype, selector, selector) ==
            if port == 70 && itemtype == '1' && selector == "" then ""
            else if port == 70 then path
            else if itemtype == '1' && selector == "" then p
            else ":" + (Decimal(port) + path)
  {
    var path, d := "/" + ([itemtype] + selector), Decimal(port);
    assert "" + path == path && (":" + d) + "" == ":" + d && (":" + d) + path == ":" + (d + path);
  }

  /** An HTTP URL leaves out port 80; a telnet link names its port; without a host only the scheme is
      printed. */
  lemma PrintedOthers(host: string, port: nat, itemtype: char, selector: string)
    ensures BuildUrl(2, host, port, itemtype, selector) ==
            Some("http://" + (host + (if port == 80 then "/" + selector else ":" + (Decimal(port) + ("/" + selector)))))
    ensures port >= 1 ==> BuildUrl(1, host, port, '8', selector) == Some("telnet://" + (host + (":" + Decimal(port))))
    ensures GopherLocation(port, itemtype, selector) ==> BuildUrl(1, "", port, itemtype, selector) == Some("gopher://")
  {
    var path := "/" + selector;
    assert "" + path == path && (":" + Decimal(port)) + path == ":" + (Decimal(port) + path);
  }

  /** The names of the schemes are recognised in any case; no other name is. */
  lemma SchemeInAnyCase(name: string)
    ensures SchemeNamed(name) ==
            if LooksLike(name, "gopher") then Known(1, 70, '1')
            else if LooksLike(name, "http") then Known(2, 80, 'h')
            else if LooksLike(name, "telnet") then Known(3, 23, '8')
            else UnknownScheme
    ensures SchemeNamed("GOPHER") == Known(1, 70, '1')
  {
    SameNoCaseIs(name, "gopher");
    SameNoCaseIs(name, "http");
    SameNoCaseIs(name, "telnet");
    SameNoCaseIs("GOPHER", "gopher");
  }

  function PortPart(port: Option<string>): string {
    match port case None => "" case Some(p) => ":" + p
  }

  function PathPart(path: Option<string>): string {
    match path case None => "" case Some(p) => "/" + p
  }

  // Where the path begins with an item type.
  predicate HasType(protocol: int, path: Option<string>) {
    protocol == 1 && path.Some? && path.value != ""
  }

  function SelectorOf(protocol: int, path: Option<string>): string {
    if path == None then "" else if HasType(protocol, path) then path.value[1..] else path.value
  }

  /** What is read from a host, a port and a path, each in its place: the port in 16 bits or the
      default, for gopher the item type in front of the selector, and an error when host or selector
      do not fit their buffers. */
  lemma {:induction false} RestParts(host: string, port: Option<string>, path: Option<string>, protocol: int,
                                     standard: int, itemtype: char, hostlen: int, selectorlen: int)
    requires PlainHost(host) && (port.Some? ==> '/' !in port.value)
    ensures ParseRest(host + (PortPart(port) + PathPart(path)), protocol, standard, itemtype, hostlen, selectorlen) ==
            if |host| >= hostlen || (path.Some? && |SelectorOf(protocol, path)| >= selectorlen) then Error
            else Url(protocol, host, if port == None then standard else Atoi(port.value) % 0x1_0000,
                     if HasType(protocol, path) then path.value[0] else itemtype, SelectorOf(protocol, path))
  {
    var rest := PortPart(port) + PathPart(path);
    if |host| >= hostlen {
      FirstDelimiterOf(host, rest);
    } else {
      SplitHost(host, rest, protocol, standard, itemtype, hostlen, selectorlen);
      RestBehindHost(host, port, path, protocol, standard, itemtype, selectorlen);
    }
  }

  // What is read from a path, once host and port are known.
  function PathUrl(path: Option<string>, protocol: int, host: string, port: int, itemtype: char,
                   selectorlen: int): Parsed
  {
    if path.Some? && |SelectorOf(protocol, path)| >= selectorlen then Error
    else Url(protocol, host, port, if HasType(protocol, path) then path.value[0] else itemtype,
             SelectorOf(protocol, path))
  }

  lemma RestBehindHost(host: string, port: Option<string>, path: Option<string>, protocol: int, standard: int,
                       itemtype: char, selectorlen: int)
    requires port.Some? ==> '/' !in port.value
    ensures var rest := PortPart(port) + PathPart(path);
            PathUrl(path, protocol, host, if port == None then standard else Atoi(port.value) % 0x1_0000, itemtype,
                    selectorlen)
            == if rest == "" then Url(protocol, host, standard, itemtype, "")
               else if rest[0] == '/' then ParsePath(rest[1..], protocol, host, standard, itemtype, selectorlen)
               else ParsePort(rest[1..], protocol, host, itemtype, selectorlen)
  {
    if port.Some? {
      Behind(':', port.value, PathPart(path));
      PortThenPath(port.value, path, protocol, host, itemtype, selectorlen);
    } else {
      assert "" + PathPart(path) == PathPart(path);
      if path.Some? {
        Behind('/', path.value, "");
        assert path.value + "" == path.value && PathPart(path) + "" == PathPart(path);
      }
    }
  }

  lemma Behind(c: char, front: string, back: string)
    ensures var s := ([c] + front) + back;
            s != "" && s[0] == c && s[1..] == front + back
  {
  }

  lemma PortThenPath(p: string, path: Option<string>, protocol: int, host: string, itemtype: char, selectorlen: int)
    requires '/' !in p
    ensures ParsePort(p + PathPart(path), protocol, host, itemtype, selectorlen) ==
            PathUrl(path, protocol, host, Atoi(p) % 0x1_0000, itemtype, selectorlen)
  {
    SlashBehind(p, PathPart(path));
    if path.Some? {
      assert PathPart(path)[1..] == path.value;
    }
  }

  /** A text names a scheme when an empty port is followed by a path that begins with a '/'; any other
      text is a gopher location without its scheme. */
  lemma {:induction false} NamesScheme(host: string, port: Option<string>, path: Option<string>, hostlen: int,
                                       selectorlen: int)
    requires PlainHost(host) && (port.Some? ==> '/' !in port.value)
    ensures var url := host + (PortPart(port) + PathPart(path));
            (HasScheme(url) <==> port == Some("") && path.Some? && path.value != "" && path.value[0] == '/') &&
            (!HasScheme(url) ==>
               ParseUrl(url, hostlen, selectorlen) == ParseRest(url, 1, 70, '1', hostlen, selectorlen))
  {
    SchemeBehind(host, PortPart(port) + PathPart(path));
    BeginsWithSlashes(port, path);
  }

  lemma BeginsWithSlashes(port: Option<string>, path: Option<string>)
    requires port.Some? ==> '/' !in port.value
    ensures var rest := PortPart(port) + PathPart(path);
            (|rest| >= 3 && rest[0] == ':' && rest[1] == '/' && rest[2] == '/') <==>
            (port == Some("") && path.Some? && path.value != "" && path.value[0] == '/')
  {
    var rest := PortPart(port) + PathPart(path);
    if port.Some? && port.value != "" {
      assert rest[1] == port.value[0] && port.value[0] in port.value;
    }
  }

  lemma SchemeBehind(host: string, rest: string)
    requires PlainHost(host) && (rest == "" || Delimiter(rest[0]))
    ensures HasScheme(host + rest) <==> |rest| >= 3 && rest[0] == ':' && rest[1] == '/' && rest[2] == '/'
  {
    FirstDelimiterOf(host, rest);
  }

  lemma {:induction false} PortAndPath(t: string) returns (port: string, path: Option<string>)
    ensures '/' !in port && t == port + PathPart(path)
  {
    var q := IndexOf(t, '/');
    port, path := t[..q], None;
    if q < |t| {
      path := Some(t[q + 1..]);
      assert t == t[..q] + ("/" + t[q + 1..]);
    } else {
      assert t == t[..q] + "";
    }
  }

  /** Every text behind a scheme has these parts. */
  lemma {:induction false} EveryRest(s: string) returns (host: string, port: Option<string>, path: Option<string>)
    ensures PlainHost(host) && (port.Some? ==> '/' !in port.value) && s == host + (PortPart(port) + PathPart(path))
  {
    var h := FirstDelimiter(s);
    host, port, path := s[..h], None, None;
    if h == |s| {
      assert s == host + ("" + "");
      return;
    }
    var t := s[h + 1..];
    assert s == host + ([s[h]] + t);
    if s[h] == '/' {
      path := Some(t);
      assert "" + ("/" + t) == [s[h]] + t;
    } else {
      var p;
      p, path := PortAndPath(t);
      port := Some(p);
      assert (":" + p) + PathPart(path) == ":" + t;
    }
  }
}
