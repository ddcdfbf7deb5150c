/** NUL-terminated strings, as the C code sees them inside a character buffer. */
module CStrings {
  import opened Wrappers

  const NUL: char := '\0'

  /** A C string has no NUL before its terminator. */
  ghost predicate NoNul(s: string) {
    NUL !in s
  }

  /** What a reader of the C string at offset `at` of buffer `b` gets. */
  function CStringAt(b: seq<char>, at: nat): (s: string)
    decreases |b| - at
  {
    if at >= |b| || b[at] == NUL then [] else [b[at]] + CStringAt(b, at + 1)
  }

  /** If `s` and a NUL are stored at `at`, a reader gets exactly `s`. */
  lemma {:induction false} CStringIs(b: seq<char>, at: nat, s: string)
    requires NoNul(s)
    requires at + |s| < |b|
    requires b[at..at + |s|] == s
    requires b[at + |s|] == NUL
    ensures CStringAt(b, at) == s
    decreases |s|
  {
    if s == [] {
    } else {
      assert b[at] == b[at..at + |s|][0] == s[0];
      assert s[0] in s;
      assert b[at + 1..at + 1 + |s[1..]|] == s[1..];
      CStringIs(b, at + 1, s[1..]);
    }
  }

  /** The result of `strcmp` is at most zero. */
  predicate StrLe(a: string, b: string) {
    if a == "" then true
    else if b == "" then false
    else a[0] < b[0] || (a[0] == b[0] && StrLe(a[1..], b[1..]))
  }

  /** The result of `strncmp` over the first `n` characters is at most zero. */
  predicate StrNLe(a: string, b: string, n: nat) {
    StrLe(if |a| <= n then a else a[..n], if |b| <= n then b else b[..n])
  }

  function ToLower(c: char): char {
    if 'A' <= c <= 'Z' then c - 'A' + 'a' else c
  }

  function ToUpper(c: char): char {
    if 'a' <= c <= 'z' then c - 'a' + 'A' else c
  }

  /** The capitals and the small letters. */
  lemma CasesAgree(i: nat)
    requires i < 26
    ensures ToLower("ABCDEFGHIJKLMNOPQRSTUVWXYZ"[i]) == "abcdefghijklmnopqrstuvwxyz"[i]
    ensures ToLower("abcdefghijklmnopqrstuvwxyz"[i]) == "abcdefghijklmnopqrstuvwxyz"[i]
  {
  }

  /** `strcasecmp` returns zero. */
  predicate CaseEqual(a: string, b: string) {
    |a| == |b| && forall i :: 0 <= i < |a| ==> ToLower(a[i]) == ToLower(b[i])
  }

  /** Buffer `b` starts with the C string `s`. */
  ghost predicate Holds(b: seq<char>, s: string) {
    NoNul(s) && |s| < |b| && b[..|s|] == s && b[|s|] == NUL
  }

  /** Buffer `b` holds the C string `s` at offset `at`. */
  ghost predicate HoldsAt(b: seq<char>, at: nat, s: string) {
    at + |s| < |b| && b[at..at + |s|] == s && b[at + |s|] == NUL
  }

  function Truncated(s: string, n: nat): string {
    if |s| <= n then s else s[..n]
  }

  /** `BUF_strlcpy` to offset `at` of `dst`, with room for `size` characters there. */
  method StrLcpy(dst: array<char>, at: nat, src: string, size: nat)
    requires at + size <= dst.Length && size > 0
    modifies dst
    ensures var t := Truncated(src, size - 1); dst[..] == old(dst[..at]) + t + [NUL] + old(dst[at + |t| + 1..])
  {
    var l := 0;
    while l + 1 < size && l < |src|
      invariant l <= |src| && l < size
      invariant forall k :: 0 <= k < l ==> dst[at + k] == src[k]
      invariant forall k :: 0 <= k < dst.Length && !(at <= k < at + l) ==> dst[k] == old(dst[k])
    {
      dst[at + l] := src[l];
      l := l + 1;
    }
    dst[at + l] := NUL;
  }

  /** `BUF_strlcat` onto the C string `cur` that the buffer holds. */
  method StrLcat(dst: array<char>, src: string, size: nat, ghost cur: string)
    requires size <= dst.Length && Holds(dst[..], cur) && |cur| < size && NoNul(src)
    modifies dst
    ensures Holds(dst[..], Truncated(cur + src, size - 1))
  {
    var l := 0;
    assert forall k :: 0 <= k < |cur| ==> dst[k] == dst[..][..|cur|][k] == cur[k] && cur[k] in cur;
    assert dst[|cur|] == dst[..][|cur|];
    while l < size && dst[l] != NUL
      invariant l <= |cur|
    {
      l := l + 1;
    }
    StrLcpy(dst, l, src, size - l);
    ghost var t := Truncated(src, size - l - 1);
    assert old(dst[..l]) == cur;
    assert Truncated(cur + src, size - 1) == cur + t;
  }

  /** `strchr` on the C string `s` that starts at offset `at`. */
  method StrChr(b: array<char>, at: nat, ch: char, ghost s: string) returns (p: nat, found: bool)
    requires at <= b.Length && Holds(b[at..], s) && ch != NUL
    ensures found <==> ch in s
    ensures found ==> at <= p < at + |s| && b[p] == ch && ch !in s[..p - at]
  {
    p := at;
    assert forall k :: 0 <= k < |s| ==> b[at + k] == b[at..][..|s|][k] == s[k] && s[k] in s;
    assert b[at + |s|] == b[at..][|s|] == NUL;
    while b[p] != NUL
      invariant at <= p <= at + |s|
      invariant ch !in s[..p - at]
      decreases at + |s| - p
    {
      if b[p] == ch { return p, true; }
      p := p + 1;
    }
    assert s[..p - at] == s;
    found := false;
  }

  // ---- text around a character ----

  /** The first position from `i` on that holds `ch`; the length of the text if there is none. */
  function FirstAt(s: string, ch: char, i: nat := 0): (p: nat)
    requires i <= |s|
    ensures i <= p <= |s|
    decreases |s| - i
  {
    if i == |s| || s[i] == ch then i else FirstAt(s, ch, i + 1)
  }

  lemma {:induction false} FirstAtIs(s: string, ch: char, i: nat, p: nat)
    requires i <= p <= |s| && (p < |s| ==> s[p] == ch) && forall k :: i <= k < p ==> s[k] != ch
    ensures FirstAt(s, ch, i) == p
    decreases p - i
  {
    if i == p {
    } else {
      FirstAtIs(s, ch, i + 1, p);
    }
  }

  lemma {:induction false} NoneBeforeFirst(s: string, ch: char, i: nat)
    requires i <= |s|
    ensures var p := FirstAt(s, ch, i); (p < |s| ==> s[p] == ch) && forall k :: i <= k < p ==> s[k] != ch
    decreases |s| - i
  {
    if i >= |s| || s[i] == ch {
    } else {
      NoneBeforeFirst(s, ch, i + 1);
    }
  }

  lemma {:induction false} FirstIsLater(s: string, ch: char, i: nat, e: nat)
    requires i <= e <= |s| && forall k :: i <= k < e ==> s[k] != ch
    ensures FirstAt(s, ch, i) >= e
    decreases e - i
  {
    if i == e {
    } else {
      FirstIsLater(s, ch, i + 1, e);
    }
  }

  /** What precedes the first `ch`: everything if there is none. */
  function Before(s: string, ch: char): string {
    if s == "" || s[0] == ch then "" else [s[0]] + Before(s[1..], ch)
  }

  /** What follows the first `ch`. */
  function After(s: string, ch: char): Option<string> {
    if s == "" then None else if s[0] == ch then Some(s[1..]) else After(s[1..], ch)
  }

  lemma {:induction false} AfterShorter(s: string, ch: char)
    ensures After(s, ch).Some? ==> s == Before(s, ch) + [ch] + After(s, ch).value
  {
    if s == "" || s[0] == ch {
    } else {
      AfterShorter(s[1..], ch);
    }
  }

  lemma {:induction false} BeforeAfterAt(s: string, ch: char, p: nat)
    requires p <= |s| && ch !in s[..p] && (p < |s| ==> s[p] == ch)
    ensures Before(s, ch) == s[..p]
    ensures After(s, ch) == if p < |s| then Some(s[p + 1..]) else None
  {
    if p == 0 {
    } else {
      assert s[0] in s[..p];
      assert s[1..][..p - 1] == s[..p][1..];
      BeforeAfterAt(s[1..], ch, p - 1);
    }
  }

  lemma {:induction false} BeforeIsPrefix(s: string, ch: char)
    ensures |Before(s, ch)| <= |s| && Before(s, ch) == s[..|Before(s, ch)|]
  {
    if s == "" || s[0] == ch {
    } else {
      BeforeIsPrefix(s[1..], ch);
    }
  }

  lemma {:induction false} BeforeWithNone(s: string, ch: char)
    ensures After(s, ch).Some? <==> ch in s
  {
    if s == "" || s[0] == ch {
    } else {
      BeforeWithNone(s[1..], ch);
    }
  }

  lemma BeforeWhole(s: string, ch: char)
    requires ch !in s
    ensures Before(s, ch) == s
  {
    assert s[..|s|] == s;
    BeforeAfterAt(s, ch, |s|);
  }

  lemma {:induction false} BeforeExcludes(s: string, ch: char)
    ensures ch !in Before(s, ch)
  {
    if s == "" || s[0] == ch {
    } else {
      BeforeExcludes(s[1..], ch);
    }
  }

  lemma BeforeIsPlain(s: string, ch: char)
    requires NoNul(s)
    ensures NoNul(Before(s, ch)) && (After(s, ch).Some? ==> NoNul(After(s, ch).value))
  {
  }
}
