/** http_skip_headers of gopherus.c: reading a stream in pieces until the blank line that ends
    the headers, and keeping what follows it. */
module HttpHeaders {

  import opened CStrings

  const LF: Byte := 10
  const CR: Byte := 13

  // An empty line starts behind the line feed at b.
  predicate BlankAt(s: seq<Byte>, b: int) {
    0 <= b < |s| - 1 && s[b] == LF &&
    (s[b + 1] == LF || (b + 2 < |s| && s[b + 1] == CR && s[b + 2] == LF))
  }

  // Where the data after that line starts.
  function BodyAt(s: seq<Byte>, b: int): (i: int)
    requires BlankAt(s, b)
    ensures b < i <= |s|
  {
    if s[b + 1] == CR then b + 3 else b + 2
  }

  ghost predicate FirstBlank(s: seq<Byte>, b: int) {
    BlankAt(s, b) && forall k :: 0 <= k < b ==> !BlankAt(s, k)
  }

  // The scan of a buffer holding s finds a blank line: one more byte must follow an LF LF pair.
  predicate FoundAt(s: seq<Byte>, b: int) {
    BlankAt(s, b) && b < |s| - 2
  }

  /** The scanning loop: the start of the data behind the first blank line, or -1. */
  method Scan(buffer: array<Byte>, res: nat) returns (i: int)
    requires res <= buffer.Length
    ensures i == -1 ==> forall b :: !FoundAt(buffer[..res], b)
    ensures i != -1 ==> exists b :: FirstBlank(buffer[..res], b) && FoundAt(buffer[..res], b) &&
                          i == BodyAt(buffer[..res], b)
  {
    ghost var s := buffer[..res];
    i := 0;
    while i < res - 2
      invariant 0 <= i
      invariant forall b :: 0 <= b < i && b < res - 2 ==> !BlankAt(s, b)
      decreases res - i
    {
      if buffer[i] == LF {
        ghost var b := i;
        if buffer[i + 1] == CR { i := i + 1; }
        if buffer[i + 1] == LF {
          i := i + 2;
          assert i <= res;
          assert FirstBlank(s, b) && FoundAt(s, b) && i == BodyAt(s, b);
          return;
        }
      }
      i := i + 1;
    }
    return -1;
  }

  // How the network behaves at each attempt to receive: the timeout has passed, or up to so many
  // bytes have come in (0 for none yet).
  datatype Answer = TimedOut | Arrived(n: nat)

  // How many times something arrives.
  function Arrivals(script: seq<Answer>): nat {
    if script == [] then 0 else (if script[0].Arrived? && script[0].n > 0 then 1 else 0) + Arrivals(script[1..])
  }

  // The server sends for as long as it takes: no timeout, and enough pieces for the whole stream.
  predicate Patient(script: seq<Answer>, len: nat) {
    (forall k :: 0 <= k < |script| ==> script[k].Arrived?) && Arrivals(script) > len
  }

  class Socket {
    const stream: seq<Byte>
    var pos: nat
    var script: seq<Answer>

    constructor (stream: seq<Byte>, script: seq<Answer>)
      ensures this.stream == stream && pos == 0 && this.script == script
    {
      this.stream, this.script, pos := stream, script, 0;
    }

    // The timeout check; a script that ran out counts as a timeout.
    predicate Expired()
      reads this
    {
      script == [] || script[0].TimedOut?
    }

    /** net_recv: stores what has arrived, at most max bytes, from position at of the buffer on;
        -1 at the end of the connection. */
    method Recv(buffer: array<Byte>, at: nat, max: nat) returns (n: int)
      requires !Expired() && pos <= |stream| && at + max <= buffer.Length && max > 0
      modifies this, buffer
      ensures pos <= |stream| && script == old(script)[1..]
      ensures n == -1 <==> old(pos) == |stream|
      ensures n == -1 ==> pos == old(pos) && buffer[..at] == old(buffer[..at])
      ensures n != -1 ==> 0 <= n <= max && pos == old(pos) + n && (old(script)[0].n > 0 ==> n > 0)
      ensures n != -1 ==> buffer[..at + n] == old(buffer[..at]) + stream[old(pos)..pos]
    {
      var most := script[0].n;
      script := script[1..];
      if pos == |stream| { return -1; }
      n := if most < max then most else max;
      if pos + n > |stream| { n := |stream| - pos; }
      var k := 0;
      while k < n
        invariant 0 <= k <= n && pos + n <= |stream|
        invariant buffer[..at + k] == old(buffer[..at]) + stream[pos..pos + k]
        invariant pos == old(pos) && script == old(script)[1..]
      {
        ghost var was := buffer[..at + k];
        buffer[at + k] := stream[pos + k];
        assert buffer[..at + k + 1] == was + [stream[pos + k]];
        k := k + 1;
      }
      pos := pos + n;
    }
  }

  // What has been received does not change where the first blank line is.
  lemma PrefixBlank(s: seq<Byte>, r: nat, b: int)
    requires r <= |s| && FirstBlank(s[..r], b) && FoundAt(s[..r], b)
    ensures FirstBlank(s, b) && BodyAt(s[..r], b) == BodyAt(s, b) <= r
  {
    forall k | 0 <= k < b
      ensures !BlankAt(s, k)
    {
      assert !BlankAt(s[..r], k);
    }
  }

  lemma FoundInPrefix(s: seq<Byte>, r: nat, b: int)
    requires r <= |s|
    ensures FoundAt(s[..r], b) <==> BlankAt(s, b) && b + 2 < r
  {
  }

  // The buffer's leftover and the unread bytes are the body behind the blank line at b.
  ghost predicate IsBody(s: seq<Byte>, b: int, leftover: seq<Byte>, unread: seq<Byte>) {
    FirstBlank(s, b) && leftover + unread == s[BodyAt(s, b)..]
  }

  /** http_skip_headers. Without a timeout it succeeds exactly when the first blank line of the
      stream, with at least one more byte than an LF LF pair, fits the buffer; it then leaves the
      received bytes behind that line in the buffer, so that they and the unread bytes are the
      body, however the stream was cut into pieces. */
  method SkipHeaders(buffer: array<Byte>, sock: Socket) returns (len: int, ghost timedOut: bool)
    requires sock.pos == 0
    modifies buffer, sock
    ensures len == -1 || 0 <= len <= buffer.Length
    ensures sock.pos <= Min(|sock.stream|, buffer.Length)
    ensures len != -1 ==> exists b ::
              IsBody(sock.stream, b, buffer[..len], sock.stream[sock.pos..]) &&
              b + 2 < Min(|sock.stream|, buffer.Length)
    ensures len == -1 && !timedOut ==>
              forall b :: FirstBlank(sock.stream, b) ==> b + 2 >= Min(|sock.stream|, buffer.Length)
    ensures timedOut ==> len == -1 && !Patient(old(sock.script), |sock.stream|)
  {
    ghost var s, script := sock.stream, sock.script;
    var res := 0;
    timedOut := false;
    while true
      invariant 0 <= res <= buffer.Length && sock.pos == res <= |s|
      invariant buffer[..res] == s[..res]
      invariant forall b :: !FoundAt(s[..res], b)
      invariant !timedOut
      invariant Patient(script, |s|) ==> Patient(sock.script, |s| - res)
      decreases |sock.script|
    {
      if sock.Expired() {
        timedOut := true;
        return -1, timedOut;
      }
      if res >= buffer.Length {
        NothingWithin(s, res);
        return -1, timedOut;
      }
      var bytesread := sock.Recv(buffer, res, buffer.Length - res);
      if bytesread < 0 {
        NothingWithin(s, res);
        return -1, timedOut;
      }
      if bytesread > 0 {
        assert s[..res + bytesread] == s[..res] + s[res..res + bytesread];
        res := res + bytesread;
        assert buffer[..res] == s[..res];
        var i := Scan(buffer, res);
        if i != -1 {
          len := TakeBody(buffer, i, res, s);
          return len, timedOut;
        }
      }
    }
  }

  /** The end of http_skip_headers: what is behind the headers is all that is kept. */
  method TakeBody(buffer: array<Byte>, i: nat, res: nat, ghost s: seq<Byte>) returns (len: nat)
    requires i <= res <= buffer.Length && res <= |s| && buffer[..res] == s[..res]
    requires exists b :: FirstBlank(s[..res], b) && FoundAt(s[..res], b) && i == BodyAt(s[..res], b)
    modifies buffer
    ensures len <= buffer.Length && exists b :: IsBody(s, b, buffer[..len], s[res..]) && b + 2 < res
  {
    ghost var b :| FirstBlank(s[..res], b) && FoundAt(s[..res], b) && i == BodyAt(s[..res], b);
    BodyFound(s, res, b);
    assert buffer[i..res] == buffer[..res][i..] == s[..res][i..res];
    len := MoveLeftover(buffer, i, res);
    assert IsBody(s, b, buffer[..len], s[res..]);
  }

  /** The memmove of the data behind the headers to the front of the buffer. */
  method MoveLeftover(buffer: array<Byte>, i: nat, res: nat) returns (len: nat)
    requires i <= res <= buffer.Length
    modifies buffer
    ensures len == res - i && buffer[..len] == old(buffer[i..res])
  {
    len := res - i;
    forall k | 0 <= k < len { buffer[k] := buffer[k + i]; }
  }

  lemma BodyFound(s: seq<Byte>, r: nat, b: int)
    requires r <= |s| && FirstBlank(s[..r], b) && FoundAt(s[..r], b)
    ensures IsBody(s, b, s[..r][BodyAt(s[..r], b)..r], s[r..]) && b + 2 < r
  {
    PrefixBlank(s, r, b);
    var i := BodyAt(s, b);
    assert s[..r][i..r] == s[i..r] && s[i..r] + s[r..] == s[i..];
  }

  lemma NothingWithin(s: seq<Byte>, r: nat)
    requires r <= |s| && forall b :: !FoundAt(s[..r], b)
    ensures forall b :: FirstBlank(s, b) ==> b + 2 >= r
  {
    forall b | FirstBlank(s, b)
      ensures b + 2 >= r
    {
      FoundInPrefix(s, r, b);
    }
  }

  /** However the stream is cut, the body is the same. */
  lemma BodyIsUnique(s: seq<Byte>, b: int, leftover: seq<Byte>, unread: seq<Byte>, b': int, leftover': seq<Byte>,
                     unread': seq<Byte>)
    requires IsBody(s, b, leftover, unread) && IsBody(s, b', leftover', unread')
    ensures leftover + unread == leftover' + unread'
  {
    assert b == b';
  }

  /** The body is what follows the first empty line, which ends in LF or in CR LF. */
  lemma BodyBehindBlank(s: seq<Byte>, b: int, leftover: seq<Byte>, unread: seq<Byte>)
    requires IsBody(s, b, leftover, unread)
    ensures s == s[..b + 1] + [10] + (leftover + unread) || s == s[..b + 1] + [13, 10] + (leftover + unread)
    ensures s[b] == 10
  {
    assert s == s[..b + 1] + s[b + 1..];
  }

  // Lines that all end in LF, none of which but perhaps the first is empty.
  ghost predicate HeaderLines(head: seq<Byte>) {
    head != [] && head[|head| - 1] == 10 &&
    (forall k :: 0 <= k < |head| - 1 && head[k] == 10 ==> head[k + 1] != 10) &&
    forall k :: 0 <= k < |head| - 2 && head[k] == 10 && head[k + 1] == 13 ==> head[k + 2] != 10
  }

  /** For a response of header lines, an empty line in either form, and a body: the first blank line is
      behind the last header line, and what has been left in the buffer, with what has not been read, is
      the body. */
  lemma ResponseBody(head: seq<Byte>, eol: seq<Byte>, body: seq<Byte>, b: int, leftover: seq<Byte>, unread: seq<Byte>)
    requires HeaderLines(head) && (eol == [10] || eol == [13, 10])
    ensures FirstBlank(head + eol + body, |head| - 1)
    ensures IsBody(head + eol + body, b, leftover, unread) <==> b == |head| - 1 && leftover + unread == body
  {
    var s := head + eol + body;
    var n := |head|;
    assert s[n..] == eol + body && s[n] == eol[0] && s[n - 1] == 10;
    assert |eol| == 2 ==> s[n + 1] == 10;
    assert forall k :: 0 <= k < n ==> s[k] == head[k];
    forall k | 0 <= k < n - 1
      ensures !BlankAt(s, k)
    {
    }
    assert BlankAt(s, n - 1) && s[BodyAt(s, n - 1)..] == body;
  }
}
