/** readflin.c, and the file it reads: bytes and a position, as stdio keeps them. */
module TextFile {
  import opened CStrings

  class File {
    var data: string
    var pos: nat

    constructor (data: string)
      ensures this.data == data && pos == 0
    {
      this.data, pos := data, 0;
    }

    /** fgetc; None at the end of the file. */
    method GetC() returns (c: Option<char>)
      modifies this`pos
      ensures if old(pos) < |data| then c == Some(data[old(pos)]) && pos == old(pos) + 1
              else c == None && pos == old(pos)
    {
      if pos >= |data| { return None; }
      c := Some(data[pos]);
      pos := pos + 1;
    }

    /** fread of at most max bytes. */
    method Read(max: nat) returns (chunk: string)
      requires pos <= |data|
      modifies this`pos
      ensures pos == (if old(pos) + max <= |data| then old(pos) + max else |data|)
      ensures chunk == data[old(pos)..pos]
    {
      var end := if pos + max <= |data| then pos + max else |data|;
      chunk := data[pos..end];
      pos := end;
    }

    /** fwrite over what is there. */
    method Write(chunk: string)
      requires pos + |chunk| <= |data|
      modifies this
      ensures data == old(data)[..old(pos)] + chunk + old(data)[old(pos) + |chunk|..] && pos == old(pos) + |chunk|
    {
      data := data[..pos] + chunk + data[pos + |chunk|..];
      pos := pos + |chunk|;
    }

    method Seek(p: nat)
      modifies this`pos
      ensures pos == p
    {
      pos := p;
    }
  }

  // One CR in front of the line feed does not count.
  function Chop(s: string): string {
    if s != "" && s[|s| - 1] == '\r' then s[..|s| - 1] else s
  }

  /** Exactly one CR is dropped, and only at the end. */
  lemma ChopIs(s: string)
    ensures Chop(s + "\r") == s
    ensures s == "" || s[|s| - 1] != '\r' ==> Chop(s) == s
  {
  }

  // What reading a line at p finds: the line and the position behind it, or nothing at the end of
  // the file and when the line does not fit.
  datatype Found = Nothing(next: nat) | Line(text: string, next: nat)

  function LineAt(data: string, p: nat, blen: nat): (r: Found)
    requires p <= |data|
    ensures r.next <= |data| && (r.Line? ==> r.next > p && |r.text| < blen && '\n' !in r.text)
  {
    var l := IndexOf(data[p..], '\n');
    if l >= blen then Nothing(p + blen)
    else if p + l < |data| then Line(Chop(data[p..p + l]), p + l + 1)
    else if l == 0 then Nothing(p)
    else Line(Chop(data[p..p + l]), |data|)
  }

  lemma LineAtIs(data: string, p: nat, l: nat)
    requires p + l <= |data| && (forall k :: p <= k < p + l ==> data[k] != '\n')
    ensures p + l == |data| || data[p + l] == '\n' ==> IndexOf(data[p..], '\n') == l
    ensures IndexOf(data[p..], '\n') >= l
  {
    var s := data[p..];
    assert forall k :: 0 <= k < l ==> s[k] == data[p + k];
    assert p + l < |data| ==> s[l] == data[p + l];
  }

  /** readfline: 0 at the end of the file or for a line that does not fit, the length plus one
      otherwise, with the terminated line in b. */
  method ReadLine(f: File, b: array<char>) returns (r: nat)
    requires f.pos <= |f.data|
    modifies f`pos, b
    ensures f.pos == LineAt(f.data, old(f.pos), b.Length).next
    ensures match LineAt(f.data, old(f.pos), b.Length)
            case Nothing(_) => r == 0
            case Line(text, _) => r == |text| + 1 && b[..r] == text + [NUL]
  {
    ghost var p, data := f.pos, f.data;
    var l := 0;
    while true
      invariant 0 <= l <= b.Length && f.pos == p + l <= |data|
      invariant b[..l] == data[p..p + l]
      invariant forall k :: p <= k < p + l ==> data[k] != '\n'
      decreases b.Length - l
    {
      LineAtIs(data, p, l);
      if l == b.Length { return 0; }
      var c := f.GetC();
      if c == None {
        if l == 0 { return 0; }
        break;
      }
      if c.value == '\n' { break; }
      b[l] := c.value;
      assert data[p..p + l + 1] == data[p..p + l] + [c.value];
      l := l + 1;
    }
    r := Terminate(b, l);
  }

  /** The end of readfline: drops one CR and terminates the line. */
  method Terminate(b: array<char>, len: nat) returns (r: nat)
    requires len < b.Length
    modifies b
    ensures r == |Chop(old(b[..len]))| + 1 && b[..r] == Chop(old(b[..len])) + [NUL]
  {
    var l := len;
    if l > 0 && b[l - 1] == '\r' { l := l - 1; }
    b[l] := NUL;
    r := l + 1;
  }
}
