/** parseurl.c as it runs: the parser's two loops over a NUL-terminated string, and the printer
    writing into a buffer. */
module UrlMachine {
  import opened CStrings
  import opened GopherUrl

  /* ---------- the states of the parser ---------- */

  const FAILED := -1

  // The text behind the scheme, its protocol, and what should come out of it.
  datatype Goal = Goal(rest: string, protocol: int, result: Parsed)

  // The parser's variables: k characters are read, the port started at tok, and si characters of
  // the selector are stored.
  datatype Regs = Regs(k: nat, tok: nat, port: int, itemtype: char, host: string, selector: string, si: nat)

  // Reading the host: what has been read of it is in its buffer.
  ghost predicate AtHost(g: Goal, r: Regs) {
    r.k <= |g.rest| && r.k < |r.host| && r.host[..r.k] == g.rest[..r.k] && PlainHost(g.rest[..r.k]) &&
    g.result == ParseRest(g.rest, g.protocol, r.port, r.itemtype, |r.host|, |r.selector|)
  }

  // Reading the port.
  ghost predicate AtPort(g: Goal, r: Regs) {
    r.tok <= r.k <= |g.rest| && (forall j :: r.tok <= j < r.k ==> g.rest[j] != '/') &&
    g.result == ParsePort(g.rest[r.tok..], g.protocol, Content(r.host), r.itemtype, |r.selector|)
  }

  // In front of the item type.
  ghost predicate AtType(g: Goal, r: Regs) {
    r.k <= |g.rest| &&
    g.result == ParsePath(g.rest[r.k..], g.protocol, Content(r.host), r.port, r.itemtype, |r.selector|)
  }

  // Reading the selector.
  ghost predicate AtSelector(g: Goal, r: Regs) {
    r.k <= |g.rest| && r.si < |r.selector| && NUL !in r.selector[..r.si] &&
    g.result ==
    Finish(g.protocol, Content(r.host), r.port, r.itemtype, r.selector[..r.si] + g.rest[r.k..], |r.selector|)
  }

  ghost predicate Finished(g: Goal, r: Regs) {
    g.result == Url(g.protocol, Content(r.host), r.port, r.itemtype, Content(r.selector))
  }

  // What holds in each state of the machine.
  ghost predicate InState(state: int, g: Goal, r: Regs) {
    |r.selector| > 0 && (0 <= state < 3 ==> Content(r.selector) == "" && r.si == 0) &&
    if state == 0 then AtHost(g, r)
    else if state == 1 then AtPort(g, r)
    else if state == 2 then AtType(g, r)
    else if state == 3 then AtSelector(g, r)
    else if state == 4 then Finished(g, r)
    else state == FAILED && g.result == Error
  }

  lemma FirstDelimiterIs(rest: string, k: nat)
    requires k <= |rest| && PlainHost(rest[..k]) && (k == |rest| || Delimiter(rest[k]))
    ensures FirstDelimiter(rest) == k
  {
    assert forall j :: 0 <= j < k ==> rest[j] == rest[..k][j];
  }

  lemma HostStored(g: Goal, r: Regs, host: string)
    requires NUL !in g.rest && AtHost(g, r) && host == r.host[r.k := NUL]
    ensures Content(host) == g.rest[..r.k]
  {
    assert host[..r.k] == g.rest[..r.k];
    forall j | 0 <= j < r.k
      ensures host[j] != NUL
    {
      assert host[..r.k][j] == g.rest[j] && g.rest[j] in g.rest;
    }
    ContentIs(host, r.k);
  }

  lemma HostEnds(g: Goal, r: Regs, host: string)
    requires NUL !in g.rest && InState(0, g, r) && (r.k == |g.rest| || Delimiter(g.rest[r.k]))
    requires host == r.host[r.k := NUL]
    ensures var state := if r.k == |g.rest| then 4 else if g.rest[r.k] == ':' then 1 else 2;
            InState(state, g, r.(k := r.k + 1, tok := r.k + 1, host := host))
  {
    HostStored(g, r, host);
    FirstDelimiterIs(g.rest, r.k);
    assert g.rest[..|g.rest|] == g.rest;
  }

  lemma HostGoesOn(g: Goal, r: Regs, host: string)
    requires InState(0, g, r) && r.k < |g.rest| && !Delimiter(g.rest[r.k])
    requires host == r.host[r.k := g.rest[r.k]]
    ensures InState(if r.k + 1 == |host| then FAILED else 0, g, r.(k := r.k + 1, tok := r.k + 1, host := host))
  {
    var k := r.k + 1;
    assert host[..k] == r.host[..r.k] + [g.rest[r.k]] == g.rest[..k];
    assert PlainHost(g.rest[..k]);
    if k == |host| {
      assert forall j :: 0 <= j < k ==> g.rest[..k][j] == g.rest[j];
      assert FirstDelimiter(g.rest) >= k;
    }
  }

  lemma PortEnds(g: Goal, r: Regs)
    requires InState(1, g, r) && (r.k == |g.rest| || g.rest[r.k] == '/')
    ensures var port := Atoi(g.rest[r.tok..r.k]) % 0x1_0000;
            InState(if r.k == |g.rest| then 4 else 2, g, r.(k := r.k + 1, port := port))
  {
    var s, n := g.rest[r.tok..], r.k - r.tok;
    assert forall j :: 0 <= j < n ==> s[j] == g.rest[r.tok + j];
    assert IndexOf(s, '/') == n;
    assert s[..n] == g.rest[r.tok..r.k];
    if r.k < |g.rest| {
      assert s[n + 1..] == g.rest[r.k + 1..];
    }
  }

  // One character of the port, or its end.
  lemma PortStep(g: Goal, r: Regs, c: char)
    requires NUL !in g.rest && InState(1, g, r) && c == CharAt(g.rest, r.k)
    ensures var ends := c == NUL || c == '/';
            var port := if ends then Atoi(g.rest[r.tok..r.k]) % 0x1_0000 else r.port;
            InState(if c == NUL then 4 else if c == '/' then 2 else 1, g, r.(k := r.k + 1, port := port))
  {
    assert r.k < |g.rest| ==> g.rest[r.k] in g.rest;
    if c == NUL || c == '/' {
      PortEnds(g, r);
    } else {
      assert r.(k := r.k + 1, port := r.port) == r.(k := r.k + 1);
    }
  }

  lemma TypeRead(g: Goal, r: Regs)
    requires InState(2, g, r)
    ensures var typed := g.protocol == GOPHER && r.k < |g.rest|;
            InState(3, g, if typed then r.(k := r.k + 1, itemtype := g.rest[r.k]) else r)
  {
    var path := g.rest[r.k..];
    assert r.selector[..0] + path == path;
    if r.k < |g.rest| {
      assert path[1..] == g.rest[r.k + 1..];
      assert r.selector[..0] + g.rest[r.k + 1..] == g.rest[r.k + 1..];
    }
  }

  lemma SelectorEnds(g: Goal, r: Regs, selector: string)
    requires AtSelector(g, r) && r.k == |g.rest| && selector == r.selector[r.si := NUL]
    ensures Finished(g, r.(selector := selector))
  {
    assert selector[..r.si] == r.selector[..r.si];
    forall j | 0 <= j < r.si
      ensures selector[j] != NUL
    {
      assert r.selector[..r.si][j] == selector[j];
    }
    ContentIs(selector, r.si);
    assert r.selector[..r.si] + g.rest[r.k..] == selector[..r.si];
  }

  lemma SelectorStep(g: Goal, r: Regs, selector: string)
    requires NUL !in g.rest && InState(3, g, r) && selector == r.selector[r.si := CharAt(g.rest, r.k)]
    ensures var state := if r.k == |g.rest| then 4 else if r.si + 1 == |selector| then FAILED else 3;
            InState(state, g, r.(k := r.k + 1, selector := selector, si := r.si + 1))
  {
    if r.k == |g.rest| {
      SelectorEnds(g, r, selector);
    } else {
      assert selector[..r.si + 1] == r.selector[..r.si] + [g.rest[r.k]];
      assert g.rest[r.k] in g.rest;
      assert r.selector[..r.si] + g.rest[r.k..] == selector[..r.si + 1] + g.rest[r.k + 1..];
    }
  }

  // The C string at a position of the memory, with its terminator in place.
  ghost predicate StringAt(mem: string, start: nat, rest: string) {
    NUL !in rest && start + |rest| < |mem| && mem[start..start + |rest|] == rest && mem[start + |rest|] == NUL
  }

  lemma CharOfString(mem: string, start: nat, rest: string, k: nat)
    requires StringAt(mem, start, rest) && k <= |rest|
    ensures mem[start + k] == CharAt(rest, k) && (k < |rest| ==> rest[k] != NUL)
  {
    if k < |rest| {
      assert mem[start..start + |rest|][k] == rest[k];
      assert rest[k] in rest;
    }
  }

  // atoi called on a part of the string that is terminated for the call.
  lemma TokenContent(mem: string, start: nat, rest: string, tok: nat, k: nat)
    requires StringAt(mem, start, rest) && tok <= k <= |rest|
    ensures Content(mem[start + k := NUL][start + tok..]) == rest[tok..k]
  {
    var m := mem[start + k := NUL][start + tok..];
    forall j | 0 <= j < k - tok
      ensures m[j] == rest[tok + j] && m[j] != NUL
    {
      CharOfString(mem, start, rest, tok + j);
    }
    assert m[k - tok] == NUL;
    ContentIs(m, k - tok);
    assert m[..k - tok] == rest[tok..k];
  }

  /** The end of the port, at a '/' or at the end of the text, which is terminated for atoi and
      restored. */
  method ReadPort(url: array<char>, start: nat, ghost rest: string, curtoken: nat, u: nat) returns (port: int)
    requires StringAt(url[..], start, rest) && start <= curtoken <= u <= start + |rest|
    requires url[u] == '/' || url[u] == NUL
    modifies url
    ensures url[..] == old(url[..])
    ensures port == Atoi(rest[curtoken - start..u - start]) % 0x1_0000
  {
    TokenContent(url[..], start, rest, curtoken - start, u - start);
    var was := url[u];
    url[u] := NUL;
    assert url[..] == old(url[..])[u := NUL];
    port := Atoi(Content(url[curtoken..])) % 0x1_0000;
    url[u] := was;
  }

  /** Case 0 of the state machine: one character of the host, or its end. */
  method HostChar(c: char, host: array<char>, hi: nat, ghost g: Goal, ghost r: Regs) returns (state: int)
    requires NUL !in g.rest && InState(0, g, r) && r.host == host[..] && hi == r.k && c == CharAt(g.rest, r.k)
    modifies host
    ensures InState(state, g, r.(k := r.k + 1, tok := r.k + 1, host := host[..])) && state != 3
  {
    assert r.k < |g.rest| ==> g.rest[r.k] in g.rest;
    if c == ':' || c == '/' || c == NUL {
      host[hi] := NUL;
      HostEnds(g, r, host[..]);
      state := if c == ':' then 1 else if c == '/' then 2 else 4;
    } else {
      host[hi] := c;
      HostGoesOn(g, r, host[..]);
      state := if hi + 1 == host.Length then FAILED else 0;
    }
  }

  /** Case 1: the port ends at a '/' or at the end of the text. */
  method PortChar(url: array<char>, u: nat, start: nat, curtoken: nat, port0: int, ghost g: Goal, ghost r: Regs)
    returns (state: int, port: int)
    requires StringAt(url[..], start, g.rest) && u == start + r.k && curtoken == start + r.tok && port0 == r.port
    requires InState(1, g, r)
    modifies url
    ensures url[..] == old(url[..]) && (state == 1 || state == 2 || state == 4)
    ensures InState(state, g, r.(k := r.k + 1, port := port))
  {
    state, port := 1, port0;
    CharOfString(url[..], start, g.rest, r.k);
    PortStep(g, r, url[u]);
    if url[u] == NUL || url[u] == '/' {
      port := ReadPort(url, start, g.rest, curtoken, u);
      state := if url[u] == NUL then 4 else 2;
    }
  }

  /** Case 3: one character of the selector, or its end. */
  method SelectorChar(c: char, selector: array<char>, si: nat, ghost g: Goal, ghost r: Regs) returns (state: int)
    requires NUL !in g.rest && InState(3, g, r) && r.selector == selector[..] && si == r.si && c == CharAt(g.rest, r.k)
    modifies selector
    ensures InState(state, g, r.(k := r.k + 1, selector := selector[..], si := r.si + 1))
    ensures state == 3 || state == 4 || state == FAILED
  {
    assert r.k < |g.rest| ==> g.rest[r.k] in g.rest;
    selector[si] := c;
    SelectorStep(g, r, selector[..]);
    state := if c == NUL then 4 else if si + 1 == selector.Length then FAILED else 3;
  }

  /** Cases 2 and 3: the item type, unless the protocol has none, and then the selector. */
  method PathChar(state0: int, url: array<char>, u0: nat, start: nat, selector: array<char>, si: nat, protocol: int,
                  itemtype0: char, ghost g: Goal, ghost r: Regs)
    returns (state: int, u: nat, itemtype: char, ghost k: nat)
    requires StringAt(url[..], start, g.rest) && url != selector && u0 == start + r.k && protocol == g.protocol
    requires (state0 == 2 || state0 == 3) && InState(state0, g, r)
    requires r.selector == selector[..] && si == r.si && itemtype0 == r.itemtype
    modifies selector
    ensures InState(state, g, r.(k := k, itemtype := itemtype, selector := selector[..], si := r.si + 1))
    ensures u == start + k && r.k < k && (state == 3 || state == 4 || state == FAILED)
  {
    ghost var typed := r;
    u, itemtype := u0, itemtype0;
    if state0 == 2 {
      u, itemtype := TypeChar(url, u0, start, protocol, itemtype0, g, r);
      typed := r.(k := u - start, itemtype := itemtype);
    }
    assert InState(3, g, typed) && u == start + typed.k;
    CharOfString(url[..], start, g.rest, typed.k);
    state := SelectorChar(url[u], selector, si, g, typed);
    u, k := u + 1, typed.k + 1;
    assert typed.(k := k, selector := selector[..], si := r.si + 1)
        == r.(k := k, itemtype := itemtype, selector := selector[..], si := r.si + 1);
  }

  /** Case 2: the item type, if the protocol has one and the text goes on. */
  method TypeChar(url: array<char>, u0: nat, start: nat, protocol: int, itemtype0: char, ghost g: Goal, ghost r: Regs)
    returns (u: nat, itemtype: char)
    requires StringAt(url[..], start, g.rest) && u0 == start + r.k && protocol == g.protocol
    requires InState(2, g, r) && itemtype0 == r.itemtype
    ensures if g.protocol == GOPHER && r.k < |g.rest| then u == u0 + 1 && itemtype == g.rest[r.k]
            else u == u0 && itemtype == itemtype0
    ensures InState(3, g, r.(k := u - start, itemtype := itemtype))
  {
    u, itemtype := u0, itemtype0;
    CharOfString(url[..], start, g.rest, r.k);
    TypeRead(g, r);
    if protocol == GOPHER && url[u] != NUL {
      itemtype := url[u];
      u := u + 1;
    }
  }

  // What a finished parse leaves in its out-parameters.
  ghost predicate Delivered(e: Parsed, protocol: int, host: string, port: int, itemtype: char, selector: string) {
    match e
    case Error => protocol == ERROR
    case Url(p, h, po, it, s) =>
      protocol == p && Content(host) == h && port == po && itemtype == it && Content(selector) == s
  }

  /** The second loop: reads host, port, item type and selector from position start on. */
  method ReadFields(url: array<char>, start: nat, ghost rest: string, host: array<char>, selector: array<char>,
                    protocol0: int, port0: int, itemtype0: char)
    returns (protocol: int, port: int, itemtype: char)
    requires StringAt(url[..], start, rest)
    requires url != host && url != selector && host != selector
    requires host.Length > 0 && selector.Length > 0 && selector[0] == NUL && protocol0 != ERROR
    modifies url, host, selector
    ensures url[..] == old(url[..])
    ensures Delivered(ParseRest(rest, protocol0, port0, itemtype0, host.Length, selector.Length),
                      protocol, host[..], port, itemtype, selector[..])
  {
    ghost var g := Goal(rest, protocol0, ParseRest(rest, protocol0, port0, itemtype0, host.Length, selector.Length));
    ghost var mem := url[..];
    protocol, port, itemtype := protocol0, port0, itemtype0;
    var parserstate, u, curtoken, si := 0, start, start, 0;
    ghost var k, tok := 0, 0;
    ContentIs(selector[..], 0);
    while 0 <= parserstate < 4
      invariant u == start + k && curtoken == start + tok && url[..] == mem && protocol == protocol0
      invariant FAILED <= parserstate <= 4
      invariant InState(parserstate, g, Regs(k, tok, port, itemtype, host[..], selector[..], si))
      decreases |rest| + 1 - k
    {
      ghost var r := Regs(k, tok, port, itemtype, host[..], selector[..], si);
      if parserstate == 0 {
        CharOfString(mem, start, rest, k);
        parserstate := HostChar(url[u], host, u - start, g, r);
        curtoken, tok := u + 1, k + 1;
        u, k := u + 1, k + 1;
      } else if parserstate == 1 {
        parserstate, port := PortChar(url, u, start, curtoken, port, g, r);
        u, k := u + 1, k + 1;
      } else {
        parserstate, u, itemtype, k := PathChar(parserstate, url, u, start, selector, si, protocol, itemtype, g, r);
        si := si + 1;
      }
    }
    if parserstate == FAILED { protocol := ERROR; }
  }

  /** The first loop: looks for a scheme, and cuts the string off behind its name. */
  method ReadScheme(url: array<char>, ghost text: string) returns (scheme: Scheme, start: nat)
    requires StringAt(url[..], 0, text)
    modifies url
    ensures scheme == SchemeOf(text)
    ensures if HasScheme(text) then
              start == FirstDelimiter(text) + 3 && url[..] == old(url[..])[FirstDelimiter(text) := NUL]
            else start == 0 && url[..] == old(url[..])
  {
    var x := SchemeEnd(url, text);
    if url[x] == ':' {
      CharOfString(url[..], 0, text, x + 1);
      if url[x + 1] == '/' {
        CharOfString(url[..], 0, text, x + 2);
        if url[x + 2] == '/' {
          scheme := CutScheme(url, text, x);
          return scheme, x + 3;
        }
      }
    }
    scheme, start := NoScheme, 0;
  }

  /** Where the loop stops: at the first ':' or '/', or at the end. */
  method SchemeEnd(url: array<char>, ghost text: string) returns (x: nat)
    requires StringAt(url[..], 0, text)
    ensures x == FirstDelimiter(text) && url[x] == CharAt(text, x)
  {
    CharOfString(url[..], 0, text, 0);
    x := 0;
    while url[x] != NUL && url[x] != '/' && url[x] != ':'
      invariant 0 <= x <= |text| && PlainHost(text[..x]) && url[x] == CharAt(text, x)
      decreases |text| - x
    {
      CharOfString(url[..], 0, text, x);
      assert text[..x + 1] == text[..x] + [text[x]];
      x := x + 1;
      CharOfString(url[..], 0, text, x);
    }
    CharOfString(url[..], 0, text, x);
    FirstDelimiterIs(text, x);
  }

  /** The comparison of the scheme's name, which is terminated in place. */
  method CutScheme(url: array<char>, ghost text: string, x: nat) returns (scheme: Scheme)
    requires StringAt(url[..], 0, text) && x < |text|
    modifies url
    ensures url[..] == old(url[..])[x := NUL] && scheme == SchemeNamed(text[..x])
  {
    TokenContent(url[..], 0, text, 0, x);
    url[x] := NUL;
    assert url[..] == old(url[..])[x := NUL];
    assert url[..][0..] == url[..];
    var protostr := Content(url[..]);
    if SameNoCase(protostr, "gopher") {
      scheme := Known(GOPHER, 70, '1');
    } else if SameNoCase(protostr, "http") {
      scheme := Known(HTTP, 80, 'h');
    } else if SameNoCase(protostr, "telnet") {
      scheme := Known(TELNET, 23, '8');
    } else {
      scheme := UnknownScheme;
    }
  }

  lemma ContentAt(mem: string)
    requires NUL in mem
    ensures StringAt(mem, 0, Content(mem))
  {
    var i :| 0 <= i < |mem| && mem[i] == NUL;
    assert IndexOf(mem, NUL) <= i;
  }

  // Cutting the string at the colon of its scheme leaves the rest readable.
  lemma RestAt(mem: string, text: string, i: nat)
    requires StringAt(mem, 0, text) && i + 3 <= |text|
    ensures StringAt(mem[i := NUL], i + 3, text[i + 3..])
  {
    var rest := text[i + 3..];
    assert forall k :: 0 <= k < |text| ==> mem[k] == mem[0..|text|][k];
    assert mem[i := NUL][i + 3..i + 3 + |rest|] == rest;
  }

  /** parsegopherurl: the parsed fields are those of ParseUrl for buffers of these sizes. As a
      side effect the string is cut off at the colon of its scheme, if it has one. */
  method ParseGopherUrl(url: array<char>, host: array<char>, selector: array<char>)
    returns (protocol: int, port: int, itemtype: char)
    requires NUL in url[..] && url != host && url != selector && host != selector
    requires 0 < host.Length < 0x1_0000 && 0 < selector.Length < 0x1_0000
    modifies url, host, selector
    ensures Delivered(ParseUrl(Content(old(url[..])), host.Length, selector.Length),
                      protocol, host[..], port, itemtype, selector[..])
    ensures var text := Content(old(url[..]));
            url[..] == if HasScheme(text) then old(url[..])[FirstDelimiter(text) := NUL] else old(url[..])
  {
    ghost var mem := url[..];
    ghost var text := Content(mem);
    ContentAt(mem);
    protocol, port, itemtype := GOPHER, 70, '1';
    selector[0] := NUL;
    assert url[..] == mem;
    var scheme, start := ReadScheme(url, text);
    match scheme {
      case NoScheme =>
        assert text[0..] == text;
        protocol, port, itemtype := ReadFields(url, start, text, host, selector, GOPHER, 70, '1');
      case UnknownScheme =>
        protocol := ERROR;
      case Known(p, po, it) =>
        RestAt(mem, text, FirstDelimiter(text));
        protocol, port, itemtype := ReadFields(url, start, text[start..], host, selector, p, po, it);
    }
  }

  /* ---------- the printer ---------- */

  /** snprintf of s into size cells at x: as much as fits in front of a terminator. The result is
      the length of the whole text. */
  method Snprintf(res: array<char>, x: nat, size: nat, s: string) returns (len: nat)
    requires x + size <= res.Length && NUL !in s
    modifies res
    ensures len == |s| && res[..x] == old(res[..x])
    ensures size > 0 ==> var m := Min(|s|, size - 1); res[..x + m] == old(res[..x]) + s[..m] && res[x + m] == NUL
    ensures size == 0 ==> res[..] == old(res[..])
  {
    len := |s|;
    if size == 0 { return; }
    ghost var was := res[..x];
    var k := 0;
    while k < |s| && k < size - 1
      invariant 0 <= k <= |s| && k < size && res[..x + k] == was + s[..k]
    {
      res[x + k] := s[k];
      assert s[..k + 1] == s[..k] + [s[k]];
      k := k + 1;
    }
    assert res[..x + k][..x] == was;
    res[x + k] := NUL;
  }

  // What one snprintf of a text into size cells at the front leaves.
  ghost predicate Printed(mem: string, size: int, text: string) {
    size <= |mem| &&
    (size > 0 ==> var m := Min(|text|, size - 1); mem[..m] == text[..m] && mem[m] == NUL)
  }

  /** snprintf at the front of the buffer, with the size buildgopherurl gives. */
  method PrintAll(res: array<char>, maxlen: nat, text: string) returns (x: nat)
    requires maxlen <= res.Length && NUL !in text
    modifies res
    ensures x == |text| && Printed(res[..], maxlen, text)
  {
    x := Snprintf(res, 0, maxlen, text);
    assert maxlen > 0 ==> res[..][..Min(|text|, maxlen - 1)] == text[..Min(|text|, maxlen - 1)];
  }

  /** snprintf behind what has been written, with room for all of it. */
  method Append(res: array<char>, x: nat, maxlen: nat, s: string) returns (end: nat)
    requires x + |s| < maxlen <= res.Length && NUL !in s
    modifies res
    ensures end == x + |s| && res[..end] == old(res[..x]) + s && res[end] == NUL
  {
    var len := Snprintf(res, x, maxlen - x, s);
    assert s[..|s|] == s;
    end := x + len;
  }

  /** One character of the selector, as it is or escaped, if the buffer has room for it. */
  method AppendEscapedChar(res: array<char>, x: nat, maxlen: nat, c: char) returns (end: nat, ok: bool)
    requires x <= maxlen < res.Length
    modifies res
    ensures ok <==> |EscapeChar(c)| <= maxlen - x
    ensures end == x + (if ok then |EscapeChar(c)| else 0)
    ensures res[..end] == old(res[..x]) + if ok then EscapeChar(c) else ""
  {
    if x == maxlen { return x, false; }
    if c as int <= 0x1F || c as int >= 0x80 {
      if x + 3 > maxlen { return x, false; }
      var v := if c as int < 128 then c as int else c as int - 256;
      res[x] := '%';
      res[x + 1] := ((48 + v / 16) % 256) as char;
      res[x + 2] := ((48 + v % 16) % 256) as char;
      end := x + 3;
    } else {
      res[x] := c;
      end := x + 1;
    }
    ok := true;
  }

  /** The loop of buildgopherurl over the selector: it stops where the buffer ends, or in front of an
      escape that does not fit. */
  method AppendEscaped(res: array<char>, x0: nat, maxlen: nat, selector: string) returns (x: nat)
    requires Bytes(selector) && x0 <= maxlen < res.Length
    modifies res
    ensures var fit := EscapeFit(selector, maxlen - x0);
            x == x0 + |fit| <= maxlen && res[..x] == old(res[..x0]) + fit && res[x] == NUL
  {
    ghost var whole := old(res[..x0]) + EscapeFit(selector, maxlen - x0);
    FitLaws(selector, maxlen - x0);
    x := x0;
    var i := 0;
    assert selector[0..] == selector;
    while i < |selector|
      invariant 0 <= i <= |selector| && x0 <= x <= maxlen
      invariant res[..x] + EscapeFit(selector[i..], maxlen - x) == whole
    {
      ghost var was, later, room := res[..x], selector[i..], maxlen - x;
      assert later[0] == selector[i] && later[1..] == selector[i + 1..];
      var ok;
      x, ok := AppendEscapedChar(res, x, maxlen, selector[i]);
      if !ok { break; }
      FitStep(was, res[..x], later, selector[i], room);
      i := i + 1;
    }
    assert res[..x] + "" == res[..x];
    res[x] := NUL;
  }

  lemma FitStep(was: string, now: string, later: string, c: char, room: nat)
    requires later != "" && later[0] == c && |EscapeChar(c)| <= room && now == was + EscapeChar(c)
    ensures was + EscapeFit(later, room) == now + EscapeFit(later[1..], room - |EscapeChar(c)|)
  {
    var fit := EscapeFit(later[1..], room - |EscapeChar(c)|);
    assert was + (EscapeChar(c) + fit) == (was + EscapeChar(c)) + fit;
  }

  lemma BytesNoNul(s: string)
    requires Bytes(s)
    ensures NUL !in s
  {
  }

  lemma DecimalNoNul(n: nat)
    ensures NUL !in Decimal(n) && NUL !in PortSuffix(n, 70) && NUL !in PortSuffix(n, 80)
  {
    assert forall k :: 0 <= k < |Decimal(n)| ==> Decimal(n)[k] != NUL;
  }

  /** An HTTP URL. */
  method BuildHttpText(res: array<char>, maxlen: nat, host: string, port: nat, selector: string) returns (x: nat)
    requires Bytes(host) && Bytes(selector) && maxlen <= res.Length
    modifies res
    ensures var text := "http://" + (host + (PortSuffix(port, 80) + ("/" + selector)));
            x == |text| && Printed(res[..], maxlen, text)
  {
    BytesNoNul(host);
    BytesNoNul(selector);
    DecimalNoNul(port);
    var portstr := "";
    if port != 80 { portstr := ":" + Decimal(port); }
    x := PrintAll(res, maxlen, "http://" + (host + (portstr + ("/" + selector))));
  }

  // What a classic gopher URL consists of, up to the selector.
  function Head(host: string, port: nat, itemtype: char, selector: string): string {
    "gopher://" + (host + (PortSuffix(port, 70) + PathText(itemtype, selector, "")))
  }

  // A gopher URL with something behind "gopher://" and the host.
  predicate HasTail(host: string, port: nat, itemtype: char, selector: string) {
    host != "" && !(port == 70 && itemtype == '1' && selector == "")
  }

  // As much of the selector as fits behind the head.
  function FittedText(host: string, port: nat, itemtype: char, selector: string, maxlen: nat): string
    requires |Head(host, port, itemtype, selector)| <= maxlen
  {
    var head := Head(host, port, itemtype, selector);
    head + if itemtype == '1' && selector == "" then "" else EscapeFit(selector, maxlen - |head|)
  }

  // Every length reached stays within maxlen: no snprintf is given a negative size, and the terminator
  // goes into the buffer. The path is printed in one piece behind host and port.
  ghost predicate StaysInside(host: string, port: nat, itemtype: char, selector: string, maxlen: nat) {
    |"gopher://"| + |host| <= maxlen &&
    (!(itemtype == '1' && selector == "") ==> |Head(host, port, itemtype, selector)| <= maxlen)
  }

  /** A gopher URL that ends in its port. */
  method BuildPort(res: array<char>, maxlen: nat, host: string, port: nat) returns (x: nat)
    requires NUL !in host && 1 <= maxlen <= res.Length && |"gopher://"| + |host| <= maxlen
    modifies res
    ensures var text := "gopher://" + host + (":" + Decimal(port));
            x == |text| && Printed(res[..], maxlen, text)
  {
    DecimalNoNul(port);
    var front, port' := "gopher://" + host, ":" + Decimal(port);
    x := Snprintf(res, 0, maxlen, front);
    ghost var was := res[..];
    var len := Snprintf(res, x, maxlen - x, port');
    if x < maxlen {
      assert front[..|front|] == front && res[..x] == front;
      CutBehind(front, port', maxlen);
    } else {
      assert was[..maxlen - 1] == front[..maxlen - 1] == (front + port')[..maxlen - 1];
    }
    x := x + len;
  }

  lemma CutBehind(a: string, b: string, size: nat)
    requires |a| < size
    ensures var m := Min(|b|, size - |a| - 1);
            a + b[..m] == (a + b)[..Min(|a + b|, size - 1)] && |a| + m == Min(|a + b|, size - 1)
  {
  }

  /** The part of buildgopherurl for classic gopher locations with an item type or a selector to print:
      as much of the selector as fits, or, if there is no room behind the item type, the head cut by
      snprintf. */
  method BuildTail(res: array<char>, maxlen: nat, host: string, port: nat, itemtype: char, selector: string)
    returns (x: nat)
    requires Bytes(host) && Bytes(selector) && 33 <= itemtype as int <= 127 && maxlen < res.Length
    requires !(itemtype == '1' && selector == "") && |Head(host, port, itemtype, selector)| <= maxlen
    modifies res
    ensures var head := Head(host, port, itemtype, selector);
            if |head| == maxlen then x == maxlen && Printed(res[..], maxlen, head)
            else
              var text := FittedText(host, port, itemtype, selector, maxlen);
              x == |text| <= maxlen && res[..x] == text && res[x] == NUL
  {
    x := BuildHead(res, maxlen, host, port, itemtype, selector);
    if x == maxlen {
      KeepsPrinted(res[..], maxlen, Head(host, port, itemtype, selector));
      res[x] := NUL;
    } else {
      x := AppendEscaped(res, x, maxlen, selector);
    }
  }

  /** Host, port and item type. */
  method BuildHead(res: array<char>, maxlen: nat, host: string, port: nat, itemtype: char, selector: string)
    returns (x: nat)
    requires Bytes(host) && itemtype != NUL && maxlen < res.Length
    requires !(itemtype == '1' && selector == "") && |Head(host, port, itemtype, selector)| <= maxlen
    modifies res
    ensures var head := Head(host, port, itemtype, selector);
            x == |head| && Printed(res[..], maxlen, head) && (x < maxlen ==> res[..x] == head)
  {
    BytesNoNul(host);
    HeadParts(host, port, itemtype, selector);
    x := BuildFront(res, maxlen, host, port);
    x := BuildType(res, maxlen, x, itemtype);
  }

  // The cell behind the text does not matter.
  lemma KeepsPrinted(mem: string, maxlen: nat, text: string)
    requires maxlen < |mem| && Printed(mem, maxlen, text)
    ensures Printed(mem[maxlen := NUL], maxlen, text)
  {
    if maxlen > 0 {
      var m := Min(|text|, maxlen - 1);
      assert mem[maxlen := NUL][..m] == mem[..m];
    }
  }

  /** The item type, behind what fits. */
  method BuildType(res: array<char>, maxlen: nat, x: nat, itemtype: char) returns (end: nat)
    requires x + 2 <= maxlen <= res.Length && itemtype != NUL
    modifies res
    ensures var text := old(res[..x]) + ("/" + [itemtype]);
            end == x + 2 == |text| && Printed(res[..], maxlen, text) && (end < maxlen ==> res[..end] == text)
  {
    ghost var front := res[..x];
    var len := Snprintf(res, x, maxlen - x, "/" + [itemtype]);
    CutBehind(front, "/" + [itemtype], maxlen);
    end := x + len;
    assert (front + ("/" + [itemtype]))[..end] == front + ("/" + [itemtype]);
  }

  /** The host, and the port when it is not the standard one. */
  method BuildFront(res: array<char>, maxlen: nat, host: string, port: nat) returns (x: nat)
    requires NUL !in host && maxlen < res.Length && 9 + |host| + |PortSuffix(port, 70)| < maxlen
    modifies res
    ensures var front := "gopher://" + host + PortSuffix(port, 70);
            x == |front| && res[..x] == front && res[x] == NUL
  {
    DecimalNoNul(port);
    x := Append(res, 0, maxlen, "gopher://" + host);
    if port != 70 {
      x := Append(res, x, maxlen, ":" + Decimal(port));
    }
  }

  lemma HeadParts(host: string, port: nat, itemtype: char, selector: string)
    ensures var front := "gopher://" + host + PortSuffix(port, 70);
            if itemtype == '1' && selector == "" then Head(host, port, itemtype, selector) == front
            else Head(host, port, itemtype, selector) == front + ("/" + [itemtype])
    ensures |Head(host, port, itemtype, selector)| ==
            9 + |host| + |PortSuffix(port, 70)| + if itemtype == '1' && selector == "" then 0 else 2
  {
    var a, b, c, d := "gopher://", host, PortSuffix(port, 70), PathText(itemtype, selector, "");
    Regroup(a, b, c, d, "");
    assert "/" + ([itemtype] + "") == "/" + [itemtype];
    assert d + "" == d && ((a + b) + c) + d + "" == ((a + b) + c) + d;
  }

  // The text of BuildUrl is a classic gopher URL.
  predicate Classic(protocol: int, port: nat, itemtype: char, selector: string) {
    protocol != HTTP && port >= 1 && 33 <= itemtype as int <= 127 && !HurlLink(itemtype, selector) && itemtype != '8'
  }

  /** What fits is the beginning of the whole text; all of it, if there is room. */
  lemma FittedIsPrefix(host: string, port: nat, itemtype: char, selector: string, maxlen: nat)
    requires host != "" && |Head(host, port, itemtype, selector)| <= maxlen
    ensures var text := GopherText(host, port, itemtype, selector);
            var fit := FittedText(host, port, itemtype, selector, maxlen);
            fit <= text && |fit| <= maxlen && (fit == text <==> |text| <= maxlen) &&
            (fit != text ==> |fit| + 3 > maxlen)
  {
    var head := Head(host, port, itemtype, selector);
    FitLaws(selector, maxlen - |head|);
    if itemtype == '1' && selector == "" {
      assert head + "" == head;
    } else {
      var fit := EscapeFit(selector, maxlen - |head|);
      TextIsHead(host, port, itemtype, selector);
      assert (head + fit)[..|head|] == head;
      if head + fit == head + Escape(selector) {
        assert fit == (head + fit)[|head|..] == (head + Escape(selector))[|head|..] == Escape(selector);
      }
    }
  }

  lemma Regroup(a: string, b: string, c: string, d: string, e: string)
    ensures a + (b + (c + (d + e))) == (((a + b) + c) + d) + e
  {
  }

  lemma TextIsHead(host: string, port: nat, itemtype: char, selector: string)
    requires host != "" && !(itemtype == '1' && selector == "")
    ensures GopherText(host, port, itemtype, selector) == Head(host, port, itemtype, selector) + Escape(selector)
  {
    var a, b, c, d, e := "gopher://", host, PortSuffix(port, 70), "/" + [itemtype], Escape(selector);
    HeadParts(host, port, itemtype, selector);
    assert "/" + ([itemtype] + e) == d + e;
    Regroup(a, b, c, d, e);
  }

  /** buildgopherurl for a buffer of any size in which the source stays inside of it. The result is -1
      and the buffer left alone on an error. Otherwise the buffer holds the text of BuildUrl,
      terminated: cut to the size that snprintf was given, with the length of the whole text as the
      result; or, for a URL with a selector, cut in front of the first character that does not fit,
      with the length of what is there. */
  method BuildGopherUrl(res: array<char>, protocol: int, host: string, port: nat, itemtype: char, selector: string)
    returns (x: int)
    requires Bytes(host) && Bytes(selector) && res.Length >= 1
    requires res.Length >= 3 && Classic(protocol, port, itemtype, selector) && HasTail(host, port, itemtype, selector)
             ==> StaysInside(host, port, itemtype, selector, res.Length - 1)
    modifies res
    ensures var maxlen := res.Length - 1;
            match BuildUrl(protocol, host, port, itemtype, selector)
            case None => x == -1 && res[..] == old(res[..])
            case Some(text) =>
              if protocol != HTTP && maxlen < 2 then x == -1 && res[..] == old(res[..])
              else if !Classic(protocol, port, itemtype, selector) || !HasTail(host, port, itemtype, selector) ||
                      (itemtype == '1' && selector == "") then
                x == |text| && Printed(res[..], maxlen, text)
              else
                var head := Head(host, port, itemtype, selector);
                if |head| == maxlen then x == maxlen && Printed(res[..], maxlen, head)
                else
                  var fit := FittedText(host, port, itemtype, selector, maxlen);
                  x == |fit| <= maxlen && res[..x] == fit && res[x] == NUL
  {
    var maxlen := res.Length - 1;
    BytesNoNul(host);
    BytesNoNul(selector);
    DecimalNoNul(port);
    if protocol == HTTP {
      x := BuildHttpText(res, maxlen, host, port, selector);
      return;
    }
    if maxlen < 2 { return -1; }
    if port < 1 { return -1; }
    if itemtype as int < 33 || itemtype as int > 127 { return -1; }
    if itemtype == 'h' && (StartsWith(selector, "URL:") || StartsWith(selector, "/URL:")) {
      x := PrintAll(res, maxlen, if selector[0] == '/' then selector[5..] else selector[4..]);
      return;
    }
    if itemtype == '8' {
      x := PrintAll(res, maxlen, "telnet://" + (host + (":" + Decimal(port))));
      return;
    }
    if host == "" || (port == 70 && itemtype == '1' && selector == "") {
      HostOnly(host, port, itemtype, selector);
      x := PrintAll(res, maxlen, "gopher://" + host);
      return;
    }
    if itemtype == '1' && selector == "" {
      PortOnly(host, port);
      x := BuildPort(res, maxlen, host, port);
      return;
    }
    x := BuildTail(res, maxlen, host, port, itemtype, selector);
  }

  lemma PortOnly(host: string, port: nat)
    requires host != "" && port != 70
    ensures GopherText(host, port, '1', "") == "gopher://" + host + (":" + Decimal(port))
  {
    var a, b, c := "gopher://", host, ":" + Decimal(port);
    assert c + "" == c;
    assert a + (b + c) == (a + b) + c;
  }

  lemma HostOnly(host: string, port: nat, itemtype: char, selector: string)
    requires !HasTail(host, port, itemtype, selector)
    ensures GopherText(host, port, itemtype, selector) == "gopher://" + host
  {
    assert "gopher://" + "" == "gopher://";
    assert host + ("" + "") == host;
  }
}
