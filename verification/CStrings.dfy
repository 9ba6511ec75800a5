/** Null-terminated strings inside character arrays, and the C library's functions on them. */
module CStrings {

  const NUL: char := '\0'

  type cstring = s: string | NUL !in s

  /** The part of s before its first c, or all of it. */
  function Before(s: string, c: char): (r: string)
    ensures |r| <= |s| && c !in r
  {
    if s == "" || s[0] == c then "" else [s[0]] + Before(s[1..], c)
  }

  /** The part of s after its first c, or nothing. */
  function After(s: string, c: char): (r: string)
    ensures s != "" ==> |r| < |s|
  {
    if s == "" then "" else if s[0] == c then s[1..] else After(s[1..], c)
  }

  lemma {:induction false} BeforeAfter(s: string, c: char)
    ensures c in s ==> s == Before(s, c) + [c] + After(s, c)
    ensures c !in s ==> Before(s, c) == s && After(s, c) == ""
  {
    if s != "" && s[0] != c {
      BeforeAfter(s[1..], c);
      assert s == [s[0]] + s[1..];
    }
  }

  lemma {:induction false} CutAt(s: string, c: char, k: nat)
    requires k <= |s| && c !in s[..k] && (k < |s| ==> s[k] == c)
    ensures Before(s, c) == s[..k] && After(s, c) == if k < |s| then s[k + 1..] else ""
    decreases k
  {
    if k > 0 {
      assert s[0] == s[..k][0];
      assert s[..k][1..] == s[1..][..k - 1];
      CutAt(s[1..], c, k - 1);
    }
  }

  /** There is a string at p, with its null at n. */
  ghost predicate Ends(b: seq<char>, p: nat, n: nat) {
    p <= n < |b| && b[n] == NUL && forall k :: p <= k < n ==> b[k] != NUL
  }

  ghost predicate Terminated(b: seq<char>, p: nat) {
    exists n: nat :: Ends(b, p, n)
  }

  /** The string at p. */
  ghost function CStr(b: seq<char>, p: nat): string
    requires p <= |b|
  {
    Before(b[p..], NUL)
  }

  lemma CStrEnds(b: seq<char>, p: nat, n: nat)
    requires Ends(b, p, n)
    ensures CStr(b, p) == b[p..n]
  {
    assert b[p..][..n - p] == b[p..n];
    CutAt(b[p..], NUL, n - p);
  }

  method StrLen(buf: array<char>, p: nat) returns (len: nat)
    requires Terminated(buf[..], p)
    ensures Ends(buf[..], p, p + len) && CStr(buf[..], p) == buf[p..p + len]
  {
    ghost var n: nat :| Ends(buf[..], p, n);
    len := 0;
    while buf[p + len] != NUL
      invariant p + len <= n && forall k :: p <= k < p + len ==> buf[k] != NUL
      decreases n - len
    {
      len := len + 1;
    }
    CStrEnds(buf[..], p, p + len);
    assert buf[..][p..p + len] == buf[p..p + len];
  }

  /** The first c of the string at p, if it has one. */
  method StrChr(buf: array<char>, p: nat, c: char) returns (found: bool, pos: nat)
    requires Terminated(buf[..], p) && c != NUL
    ensures found <==> c in CStr(buf[..], p)
    ensures found ==> p <= pos < buf.Length && buf[pos] == c && c !in buf[p..pos] && NUL !in buf[p..pos]
  {
    var len := StrLen(buf, p);
    pos := p;
    while pos < p + len && buf[pos] != c
      invariant p <= pos <= p + len && forall k :: p <= k < pos ==> buf[k] != c
    {
      pos := pos + 1;
    }
    found := pos < p + len;
    if found {
      assert buf[p..p + len][pos - p] == c;
    }
  }

  /** strcpy_sx: copies the string with its null if it fits in the destsz characters from the offset on, and
      otherwise leaves an empty string there. */
  method StrCpySx(dest: array<char>, offset: nat, destsz: nat, src: cstring) returns (code: int)
    requires 0 < destsz && offset + destsz <= dest.Length
    modifies dest
    ensures code == if |src| < destsz then 0 else 1
    ensures Ends(dest[..], offset, offset + if code == 0 then |src| else 0)
    ensures CStr(dest[..], offset) == if code == 0 then src else ""
    ensures forall k :: 0 <= k < dest.Length && (k < offset || k >= offset + destsz) ==> dest[k] == old(dest[k])
  {
    var len := |src|;
    if len >= destsz {
      dest[offset] := NUL;
      CStrEnds(dest[..], offset, offset);
      return 1;
    }
    forall i | 0 <= i < len {
      dest[offset + i] := src[i];
    }
    dest[offset + len] := NUL;
    CStrEnds(dest[..], offset, offset + len);
    assert dest[..][offset..offset + len] == src;
    code := 0;
  }

  // ---------- tokens ----------

  /** The token of s before its first delimiter, and the rest after it. */
  function Cut(s: string, delim: char): (string, string) {
    (Before(s, delim), After(s, delim))
  }

  /** get_token: the string at str is cut in place; what is left of it is at the returned position. */
  method GetToken(buf: array<char>, str: nat, delim: char) returns (rest: nat)
    requires Terminated(buf[..], str) && delim != NUL
    modifies buf
    ensures Terminated(buf[..], str) && Terminated(buf[..], rest) && str <= rest
    ensures (CStr(buf[..], str), CStr(buf[..], rest)) == Cut(old(CStr(buf[..], str)), delim)
    ensures forall k :: 0 <= k < buf.Length && !(str <= k < rest) ==> buf[k] == old(buf[k])
    ensures forall end: nat :: Ends(old(buf[..]), str, end) ==> rest <= end
    ensures exists end: nat :: Ends(buf[..], str, end) && end <= rest
  {
    hide Before, After;
    ghost var s, b := CStr(buf[..], str), buf[..];
    var len := StrLen(buf, str);
    var found, pos := StrChr(buf, str, delim);
    if found {
      TokenFound(b, str, str + len, pos, delim);
      buf[pos] := NUL;
      rest := pos + 1;
      assert buf[..] == b[pos := NUL];
    } else {
      rest := str + len;
      BeforeAfter(s, delim);
      assert Ends(buf[..], rest, rest);
      CStrEnds(buf[..], rest, rest);
    }
  }

  lemma TokenFound(b: seq<char>, str: nat, end: nat, pos: nat, delim: char)
    requires Ends(b, str, end) && str <= pos < |b| && delim != NUL
    requires b[pos] == delim && delim !in b[str..pos] && NUL !in b[str..pos]
    ensures var b' := b[pos := NUL];
      && Ends(b', str, pos) && Ends(b', pos + 1, end)
      && (CStr(b', str), CStr(b', pos + 1)) == Cut(CStr(b, str), delim)
  {
    var b' := b[pos := NUL];
    var s := CStr(b, str);
    CStrEnds(b, str, end);
    forall k | str <= k < pos
      ensures b[k] != NUL
    {
      assert b[str..pos][k - str] == b[k];
    }
    assert pos < end;
    assert s[..pos - str] == b[str..pos] && s[pos - str] == delim;
    CutAt(s, delim, pos - str);
    CStrEnds(b', str, pos);
    CStrEnds(b', pos + 1, end);
    assert b'[str..pos] == b[str..pos] && b'[pos + 1..end] == b[pos + 1..end] == s[pos - str + 1..];
  }
}
