/**
 * MD5-based password hashing. MD5 is any function that yields 16 bytes. Masks and shifts of a byte are written as
 * remainders and quotients, and the ORs, which join disjoint bits, as sums.
 */
module Md5Crypt {
  import opened Wrappers

  type Bytes = seq<Byte>

  type Hash = Bytes -> Bytes

  const DOLLAR: Byte := 36
  const DIGEST_LENGTH := 16
  const OUT_SIZE := 6 + 9 + 24 + 2

  /** The table `cov_2char`, row by row. */
  const COV_2CHAR: Bytes :=
    [0x2E, 0x2F, 0x30, 0x31, 0x32, 0x33, 0x34, 0x35] +
    [0x36, 0x37, 0x38, 0x39, 0x41, 0x42, 0x43, 0x44] +
    [0x45, 0x46, 0x47, 0x48, 0x49, 0x4A, 0x4B, 0x4C] +
    [0x4D, 0x4E, 0x4F, 0x50, 0x51, 0x52, 0x53, 0x54] +
    [0x55, 0x56, 0x57, 0x58, 0x59, 0x5A, 0x61, 0x62] +
    [0x63, 0x64, 0x65, 0x66, 0x67, 0x68, 0x69, 0x6A] +
    [0x6B, 0x6C, 0x6D, 0x6E, 0x6F, 0x70, 0x71, 0x72] +
    [0x73, 0x74, 0x75, 0x76, 0x77, 0x78, 0x79, 0x7A]

  ghost predicate IsMd5(md5: Hash) {
    forall x :: |md5(x)| == DIGEST_LENGTH
  }

  function Take(s: Bytes, n: nat): Bytes {
    if |s| <= n then s else s[..n]
  }

  // ---- what is fed to the digests ----

  /** `n` bytes, the k-th of which is byte k mod 16 of the digest. */
  ghost function Cyclic(d: Bytes, n: nat): (r: Bytes)
    requires |d| == DIGEST_LENGTH
    ensures |r| == n && forall k :: 0 <= k < n ==> r[k] == d[k % DIGEST_LENGTH]
  {
    seq(n, k requires 0 <= k => d[k % DIGEST_LENGTH])
  }

  /** One byte for each binary digit of `n`, low digit first: 0 for a set bit and `c` for a clear one. */
  ghost function LengthBits(n: nat, c: Byte): Bytes {
    if n == 0 then [] else [if n % 2 == 1 then 0 else c] + LengthBits(n / 2, c)
  }

  /** `n` shifted right `k` times. */
  ghost function Shifted(n: nat, k: nat): nat {
    if k == 0 then n else Shifted(n, k - 1) / 2
  }

  lemma {:induction false} ShiftedHalf(n: nat, k: nat)
    ensures Shifted(n / 2, k) == Shifted(n, k + 1)
  {
    if k == 0 {
    } else {
      ShiftedHalf(n, k - 1);
    }
  }

  /** There are as many bytes as shifts until nothing is left, and byte `k` tells bit `k`. */
  lemma {:induction false} LengthBitsMeaning(n: nat, c: Byte)
    ensures var r := LengthBits(n, c);
      && Shifted(n, |r|) == 0 && (r != [] ==> Shifted(n, |r| - 1) != 0)
      && forall k :: 0 <= k < |r| ==> r[k] == if Shifted(n, k) % 2 == 1 then 0 else c
  {
    if n == 0 {
    } else {
      var r, t := LengthBits(n, c), LengthBits(n / 2, c);
      LengthBitsMeaning(n / 2, c);
      ShiftedHalf(n, |t|);
      if |t| > 0 { ShiftedHalf(n, |t| - 1); }
      forall k | 0 <= k < |r| ensures r[k] == if Shifted(n, k) % 2 == 1 then 0 else c {
        if k > 0 {
          ShiftedHalf(n, k - 1);
          assert r[k] == t[k - 1];
        }
      }
    }
  }

  /** The first digest: the strings, the alternate digest as often as the password is long, and the length bits. */
  ghost function FirstTranscript(passwd: Bytes, magic: Bytes, salt: Bytes, md5: Hash): Bytes
    requires IsMd5(md5)
  {
    passwd + [DOLLAR] + magic + [DOLLAR] + salt + Cyclic(md5(passwd + salt + passwd), |passwd|) +
    LengthBits(|passwd|, if passwd == [] then 0 else passwd[0])
  }

  /** The transcript for a password of two bytes, spelled out: 2 is 10 in binary, low digit first. */
  lemma TranscriptOfTwo(p0: Byte, p1: Byte, magic: Bytes, salt: Bytes, md5: Hash)
    requires IsMd5(md5)
    ensures var d := md5([p0, p1] + salt + [p0, p1]);
      FirstTranscript([p0, p1], magic, salt, md5) == [p0, p1] + [36] + magic + [36] + salt + [d[0], d[1]] + [p0, 0]
  {
    var d := md5([p0, p1] + salt + [p0, p1]);
    assert Cyclic(d, 2) == [d[0], d[1]];
    assert LengthBits(2, p0) == [p0] + LengthBits(1, p0) && LengthBits(1, p0) == [0] + LengthBits(0, p0);
    assert LengthBits(2, p0) == [p0, 0];
  }

  /** The loop that feeds 16 bytes at a time, and the rest. */
  method FeedCyclic(md: Bytes, buf: Bytes, len: nat) returns (r: Bytes)
    requires |buf| == DIGEST_LENGTH
    ensures r == md + Cyclic(buf, len)
  {
    r := md;
    var i := len;
    assert Cyclic(buf, 0) == [];
    while i > DIGEST_LENGTH
      invariant 0 <= i <= len && (len - i) % DIGEST_LENGTH == 0
      invariant r == md + Cyclic(buf, len - i)
    {
      CyclicGrows(buf, len - i, DIGEST_LENGTH);
      assert buf[..DIGEST_LENGTH] == buf;
      r := r + buf;
      i := i - DIGEST_LENGTH;
    }
    CyclicGrows(buf, len - i, i);
    r := r + buf[..i];
  }

  lemma CyclicGrows(d: Bytes, done: nat, more: nat)
    requires |d| == DIGEST_LENGTH && done % DIGEST_LENGTH == 0 && more <= DIGEST_LENGTH
    ensures Cyclic(d, done + more) == Cyclic(d, done) + d[..more]
  {
  }

  /** The loop over the bits of the password length. */
  method FeedBits(md: Bytes, passwd: Bytes) returns (r: Bytes)
    ensures r == md + LengthBits(|passwd|, if passwd == [] then 0 else passwd[0])
  {
    r := md;
    var n: nat := |passwd|;
    ghost var c: Byte := if passwd == [] then 0 else passwd[0];
    while n != 0
      invariant r + LengthBits(n, c) == md + LengthBits(|passwd|, c) && (passwd == [] ==> n == 0)
    {
      r := r + [if n % 2 == 1 then 0 else passwd[0]];
      n := n / 2;
    }
  }

  // ---- the thousand rounds ----

  ghost function RoundInput(i: nat, passwd: Bytes, salt: Bytes, d: Bytes): Bytes {
    (if i % 2 == 1 then passwd else d) + (if i % 3 != 0 then salt else []) +
    (if i % 7 != 0 then passwd else []) + (if i % 2 == 1 then d else passwd)
  }

  /** Each round by its number: odd or even, and divisible by 3 and by 7 or not. */
  lemma RoundTable(i: nat, p: Bytes, s: Bytes, d: Bytes)
    ensures i % 2 == 0 && i % 3 == 0 && i % 7 == 0 ==> RoundInput(i, p, s, d) == d + p
    ensures i % 2 == 1 && i % 3 == 0 && i % 7 == 0 ==> RoundInput(i, p, s, d) == p + d
    ensures i % 2 == 0 && i % 3 != 0 && i % 7 == 0 ==> RoundInput(i, p, s, d) == d + s + p
    ensures i % 2 == 1 && i % 3 != 0 && i % 7 == 0 ==> RoundInput(i, p, s, d) == p + s + d
    ensures i % 2 == 0 && i % 3 == 0 && i % 7 != 0 ==> RoundInput(i, p, s, d) == d + p + p
    ensures i % 2 == 1 && i % 3 == 0 && i % 7 != 0 ==> RoundInput(i, p, s, d) == p + p + d
    ensures i % 2 == 0 && i % 3 != 0 && i % 7 != 0 ==> RoundInput(i, p, s, d) == d + s + p + p
    ensures i % 2 == 1 && i % 3 != 0 && i % 7 != 0 ==> RoundInput(i, p, s, d) == p + s + p + d
  {
    assert d + [] == d && p + [] == p && d + s + [] == d + s && p + s + [] == p + s;
  }

  ghost function Stretched(n: nat, passwd: Bytes, salt: Bytes, d: Bytes, md5: Hash): (r: Bytes)
    requires IsMd5(md5) && |d| == DIGEST_LENGTH
    ensures |r| == DIGEST_LENGTH
  {
    if n == 0 then d else md5(RoundInput(n - 1, passwd, salt, Stretched(n - 1, passwd, salt, d, md5)))
  }

  method Stretch(passwd: Bytes, salt: Bytes, d: Bytes, md5: Hash) returns (buf: Bytes)
    requires IsMd5(md5) && |d| == DIGEST_LENGTH
    ensures buf == Stretched(1000, passwd, salt, d, md5)
  {
    buf := d;
    var i := 0;
    while i < 1000
      invariant i <= 1000 && buf == Stretched(i, passwd, salt, d, md5)
    {
      var md2 := if i % 2 == 1 then passwd else buf;
      if i % 3 != 0 { md2 := md2 + salt; }
      if i % 7 != 0 { md2 := md2 + passwd; }
      md2 := md2 + if i % 2 == 1 then buf else passwd;
      assert md2 == RoundInput(i, passwd, salt, buf) by {
        var a := if i % 2 == 1 then passwd else buf;
        assert a + [] == a && a + salt + [] == a + salt;
      }
      buf := md5(md2);
      i := i + 1;
    }
  }

  // ---- the output ----

  /** Where byte `dest` of the permuted digest comes from. */
  function Source(dest: nat): nat
    requires dest < DIGEST_LENGTH
  {
    if dest < 14 then 6 * dest % 17 else if dest == 14 then 5 else 11
  }

  /** The inverse of `Source`. */
  function Dest(source: nat): nat
    requires source < DIGEST_LENGTH
  {
    if source == 5 then 14 else if source == 11 then 15 else 3 * source % 17
  }

  lemma OneSource(i: nat)
    requires i < DIGEST_LENGTH
    ensures Source(i) < DIGEST_LENGTH && Dest(Source(i)) == i
  {
    if i < 7 {
      assert i == 0 || i == 1 || i == 2 || i == 3 || i == 4 || i == 5 || i == 6;
    } else {
      assert i == 7 || i == 8 || i == 9 || i == 10 || i == 11 || i == 12 || i == 13 || i == 14 || i == 15;
    }
  }

  lemma OneDest(i: nat)
    requires i < DIGEST_LENGTH
    ensures Dest(i) < DIGEST_LENGTH && Source(Dest(i)) == i
  {
    if i < 7 {
      assert i == 0 || i == 1 || i == 2 || i == 3 || i == 4 || i == 5 || i == 6;
    } else {
      assert i == 7 || i == 8 || i == 9 || i == 10 || i == 11 || i == 12 || i == 13 || i == 14 || i == 15;
    }
  }

  /** The output order is a permutation of the sixteen bytes. */
  lemma SourceIsPermutation()
    ensures forall i :: 0 <= i < DIGEST_LENGTH ==> Source(i) < DIGEST_LENGTH && Dest(Source(i)) == i
    ensures forall i :: 0 <= i < DIGEST_LENGTH ==> Dest(i) < DIGEST_LENGTH && Source(Dest(i)) == i
  {
    forall i | 0 <= i < DIGEST_LENGTH ensures Source(i) < DIGEST_LENGTH && Dest(Source(i)) == i { OneSource(i); }
    forall i | 0 <= i < DIGEST_LENGTH ensures Dest(i) < DIGEST_LENGTH && Source(Dest(i)) == i { OneDest(i); }
  }

  function Permuted(d: Bytes): (r: Bytes)
    requires |d| == DIGEST_LENGTH
    ensures |r| == DIGEST_LENGTH
  {
    SourceIsPermutation();
    seq(DIGEST_LENGTH, i requires 0 <= i < DIGEST_LENGTH => d[Source(i)])
  }

  /** The output order, spelled out. */
  lemma OrderIs(d: Bytes)
    requires |d| == DIGEST_LENGTH
    ensures Permuted(d) == [d[0], d[6], d[12], d[1], d[7], d[13], d[2], d[8]] +
                           [d[14], d[3], d[9], d[15], d[4], d[10], d[5], d[11]]
  {
    var p, a := Permuted(d), [d[0], d[6], d[12], d[1], d[7], d[13], d[2], d[8]];
    var b := [d[14], d[3], d[9], d[15], d[4], d[10], d[5], d[11]];
    assert p[..8] == a && p[8..] == b;
    assert p == p[..8] + p[8..];
  }

  /** The radix-64 digit for a value: `.`, `/`, the digits, the capitals, the small letters. */
  function Digit(v: nat): Byte
    requires v < 64
  {
    if v < 12 then 0x2E + v else if v < 38 then 0x41 + v - 12 else 0x61 + v - 38
  }

  /** The table holds these digits in order. */
  lemma TableIs(v: nat)
    requires v < 64
    ensures COV_2CHAR[v] == Digit(v)
  {
    RowIs(v / 8, v % 8);
  }

  const ALPHABET: seq<string> := [
    "./012345", "6789ABCD", "EFGHIJKL", "MNOPQRST", "UVWXYZab", "cdefghij", "klmnopqr", "stuvwxyz"]

  /** The digits as characters. */
  lemma AlphabetIs(row: nat, col: nat)
    requires row < 8 && col < 8
    ensures COV_2CHAR[8 * row + col] as char == ALPHABET[row][col]
  {
    assert row == 0 || row == 1 || row == 2 || row == 3 || row == 4 || row == 5 || row == 6 || row == 7;
    assert col == 0 || col == 1 || col == 2 || col == 3 || col == 4 || col == 5 || col == 6 || col == 7;
  }

  /** Four radix-64 digits for three bytes. */
  function Encode3(a: Byte, b: Byte, c: Byte): (r: Bytes)
    ensures |r| == 4
  {
    [Digit(c % 64), Digit(b % 16 * 4 + c / 64), Digit(a % 4 * 16 + b / 16), Digit(a / 4)]
  }

  /** The digits of the first `n` groups of three bytes. */
  function Groups(p: Bytes, n: nat): (r: Bytes)
    requires |p| == DIGEST_LENGTH && n <= 5
    ensures |r| == 4 * n
  {
    if n == 0 then [] else Groups(p, n - 1) + Encode3(p[3 * n - 3], p[3 * n - 2], p[3 * n - 1])
  }

  function Encoded(d: Bytes): (r: Bytes)
    requires |d| == DIGEST_LENGTH
    ensures |r| == 22
  {
    var p := Permuted(d);
    Groups(p, 5) + [Digit(p[15] % 64)] + [Digit(p[15] / 64)]
  }

  // ---- the decoder ----

  /** The value of a radix-64 digit. */
  function Value(c: Byte): (v: nat)
    ensures v < 64
  {
    if 0x61 <= c <= 0x7A then c - 0x61 + 38
    else if 0x41 <= c <= 0x5A then c - 0x41 + 12
    else if 0x2E <= c <= 0x39 then c - 0x2E
    else 0
  }

  lemma ValueOfDigit(v: nat)
    requires v < 64
    ensures Value(Digit(v)) == v
  {
  }

  lemma RowIs(row: nat, col: nat)
    requires row < 8 && col < 8
    ensures COV_2CHAR[8 * row + col] == Digit(8 * row + col)
  {
    assert row == 0 || row == 1 || row == 2 || row == 3 || row == 4 || row == 5 || row == 6 || row == 7;
    assert col == 0 || col == 1 || col == 2 || col == 3 || col == 4 || col == 5 || col == 6 || col == 7;
  }

  /** Byte `r` of the three that four digits make up. */
  function ThreeBytes(e: Bytes, r: nat): Byte
    requires |e| == 4 && r < 3
  {
    if r == 0 then Value(e[3]) * 4 + Value(e[2]) / 16
    else if r == 1 then Value(e[2]) % 16 * 16 + Value(e[1]) / 4
    else Value(e[1]) % 4 * 64 + Value(e[0])
  }

  /** Byte `r` of group `g` of the permuted digest; the sixteenth byte is a group of its own. */
  function DecodedAt(e: Bytes, g: nat, r: nat): Byte
    requires |e| == 22 && (if g == 5 then r == 0 else g < 5 && r < 3)
  {
    if g == 5 then Value(e[20]) + Value(e[21]) % 4 * 64 else ThreeBytes(e[4 * g..4 * g + 4], r)
  }

  function Decoded(e: Bytes): (d: Bytes)
    requires |e| == 22
    ensures |d| == DIGEST_LENGTH
  {
    SourceIsPermutation();
    seq(DIGEST_LENGTH, i requires 0 <= i < DIGEST_LENGTH => DecodedAt(e, Dest(i) / 3, Dest(i) % 3))
  }

  lemma {:induction false} GroupAt(p: Bytes, n: nat, g: nat)
    requires |p| == DIGEST_LENGTH && g < n <= 5
    ensures Groups(p, n)[4 * g..4 * g + 4] == Encode3(p[3 * g], p[3 * g + 1], p[3 * g + 2])
  {
    var last := Encode3(p[3 * n - 3], p[3 * n - 2], p[3 * n - 1]);
    Slices(Groups(p, n - 1), last, 4 * g);
    if g < n - 1 { GroupAt(p, n - 1, g); }
  }

  lemma Slices(a: Bytes, b: Bytes, at: nat)
    requires |b| == 4 && at <= |a|
    ensures at == |a| ==> (a + b)[at..at + 4] == b
    ensures at + 4 <= |a| ==> (a + b)[at..at + 4] == a[at..at + 4]
  {
  }

  lemma SplitBytes(a: Byte, b: Byte, c: Byte, w: nat, x: nat, y: nat, z: nat)
    requires w == c % 64 && x == b % 16 * 4 + c / 64 && y == a % 4 * 16 + b / 16 && z == a / 4
    ensures w < 64 && x < 64 && y < 64 && z < 64
    ensures z * 4 + y / 16 == a && y % 16 * 16 + x / 4 == b && x % 4 * 64 + w == c
  {
  }

  /** The four digits of three bytes determine them. */
  lemma Decode3(a: Byte, b: Byte, c: Byte, e: Bytes)
    requires e == Encode3(a, b, c)
    ensures ThreeBytes(e, 0) == a && ThreeBytes(e, 1) == b && ThreeBytes(e, 2) == c
  {
    var w, x, y, z := c % 64, b % 16 * 4 + c / 64, a % 4 * 16 + b / 16, a / 4;
    SplitBytes(a, b, c, w, x, y, z);
    ValueOfDigit(w);
    ValueOfDigit(x);
    ValueOfDigit(y);
    ValueOfDigit(z);
  }

  /** The four digits, the lowest first, are the number in base 64 whose bytes these three are, the highest first. */
  lemma GroupIsNumber(a: Byte, b: Byte, c: Byte)
    ensures var e := Encode3(a, b, c);
      Value(e[0]) + 64 * Value(e[1]) + 4096 * Value(e[2]) + 262144 * Value(e[3]) == 65536 * a + 256 * b + c
  {
    var w, x, y, z := c % 64, b % 16 * 4 + c / 64, a % 4 * 16 + b / 16, a / 4;
    SplitBytes(a, b, c, w, x, y, z);
    ValueOfDigit(w);
    ValueOfDigit(x);
    ValueOfDigit(y);
    ValueOfDigit(z);
    assert x == b % 16 * 4 + c / 64 && b == b / 16 * 16 + b % 16 && c == c / 64 * 64 + w && a == 4 * z + a % 4;
  }

  /** The digits of the sixteenth byte, the lower one first. */
  lemma LastIsNumber(d: Bytes)
    requires |d| == DIGEST_LENGTH
    ensures Value(Encoded(d)[20]) + 64 * Value(Encoded(d)[21]) == d[11]
  {
    OrderIs(d);
    var v := Permuted(d)[15];
    ValueOfDigit(v % 64);
    ValueOfDigit(v / 64);
    assert Encoded(d)[20] == Digit(v % 64) && Encoded(d)[21] == Digit(v / 64);
  }

  lemma GroupIs(d: Bytes, g: nat)
    requires |d| == DIGEST_LENGTH && g < 5
    ensures var p := Permuted(d); Encoded(d)[4 * g..4 * g + 4] == Encode3(p[3 * g], p[3 * g + 1], p[3 * g + 2])
  {
    var p := Permuted(d);
    GroupAt(p, 5, g);
    assert Encoded(d)[4 * g..4 * g + 4] == Groups(p, 5)[4 * g..4 * g + 4];
  }

  lemma DecodesGroup(d: Bytes, g: nat)
    requires |d| == DIGEST_LENGTH && g < 5
    ensures var four, p := Encoded(d)[4 * g..4 * g + 4], Permuted(d);
      ThreeBytes(four, 0) == p[3 * g] && ThreeBytes(four, 1) == p[3 * g + 1] && ThreeBytes(four, 2) == p[3 * g + 2]
  {
    GroupIs(d, g);
    var p := Permuted(d);
    Decode3(p[3 * g], p[3 * g + 1], p[3 * g + 2], Encoded(d)[4 * g..4 * g + 4]);
  }

  lemma DecodesLast(v: Byte)
    ensures Value(Digit(v % 64)) + Value(Digit(v / 64)) % 4 * 64 == v
  {
    ValueOfDigit(v % 64);
    ValueOfDigit(v / 64);
  }

  lemma DecodesPermuted(d: Bytes, g: nat, r: nat)
    requires |d| == DIGEST_LENGTH && (if g == 5 then r == 0 else g < 5 && r < 3)
    ensures DecodedAt(Encoded(d), g, r) == Permuted(d)[3 * g + r]
  {
    if g == 5 {
      DecodesLast(Permuted(d)[15]);
    } else {
      DecodesGroup(d, g);
      assert r == 0 || r == 1 || r == 2;
    }
  }

  /** The 22 characters of the output determine the digest. */
  lemma DecodeUndoesEncode(d: Bytes)
    requires |d| == DIGEST_LENGTH
    ensures Decoded(Encoded(d)) == d
  {
    SourceIsPermutation();
    forall i | 0 <= i < DIGEST_LENGTH ensures Decoded(Encoded(d))[i] == d[i] {
      var j := Dest(i);
      assert j == 3 * (j / 3) + j % 3;
      DecodesPermuted(d, j / 3, j % 3);
    }
  }

  // ---- the function itself ----

  ghost function CryptText(magic: Bytes, salt: Bytes, digest: Bytes): Bytes
    requires |digest| == DIGEST_LENGTH
  {
    [DOLLAR] + magic + [DOLLAR] + salt + [DOLLAR] + Encoded(digest)
  }

  /** The text between and after its dollars, from which the digest can be recovered. */
  lemma TextSaysAll(magic: Bytes, salt: Bytes, digest: Bytes)
    requires |digest| == DIGEST_LENGTH
    ensures var t, m, s := CryptText(magic, salt, digest), |magic|, |salt|;
      && |t| == m + s + 25 && t[0] == t[m + 1] == t[m + s + 2] == 36
      && t[1..m + 1] == magic && t[m + 2..m + s + 2] == salt && Decoded(t[m + s + 3..]) == digest
  {
    var t, m, s := CryptText(magic, salt, digest), |magic|, |salt|;
    assert t[m + s + 3..] == Encoded(digest);
    DecodeUndoesEncode(digest);
  }

  /** `strncat` of at most `n` bytes at the end `at` of what is in the buffer. */
  method AppendN(out: array<Byte>, at: nat, src: Bytes, n: nat) returns (end: nat)
    requires at + |Take(src, n)| < out.Length
    modifies out
    ensures end == at + |Take(src, n)| && out[..end] == old(out[..at]) + Take(src, n) && out[end] == 0
  {
    end := at;
    var i := 0;
    while i < n && i < |src|
      invariant i <= |Take(src, n)| && end == at + i
      invariant out[..end] == old(out[..at]) + src[..i]
    {
      out[end] := src[i];
      i, end := i + 1, end + 1;
    }
    out[end] := 0;
  }

  /** Stepping by 6 modulo 17 goes from each source to the next. */
  lemma SourceNext(dest: nat)
    requires dest < 14
    ensures Source(dest) < DIGEST_LENGTH
    ensures dest + 1 < 14 ==> Source(dest + 1) == (Source(dest) + 6) % 17
  {
  }

  /** The "silly output permutation". */
  method Permute(buf: Bytes) returns (perm: array<Byte>)
    requires |buf| == DIGEST_LENGTH
    ensures fresh(perm) && perm[..] == Permuted(buf)
  {
    perm := new Byte[DIGEST_LENGTH];
    var dest, source := 0, 0;
    while dest < 14
      invariant 0 <= dest <= 14 && (dest < 14 ==> source == Source(dest))
      invariant forall i :: 0 <= i < dest ==> Source(i) < DIGEST_LENGTH && perm[i] == buf[Source(i)]
    {
      SourceNext(dest);
      perm[dest] := buf[source];
      dest, source := dest + 1, (source + 6) % 17;
    }
    perm[14] := buf[5];
    perm[15] := buf[11];
  }

  /** `*output++ = c` */
  method Emit(out: array<Byte>, end: nat, c: Byte) returns (next: nat)
    requires end < out.Length
    modifies out
    ensures next == end + 1 && out[..next] == old(out[..end]) + [c]
  {
    out[end] := c;
    next := end + 1;
  }

  /** The digit for `v` comes from the table. */
  method EmitDigit(out: array<Byte>, end: nat, v: nat) returns (next: nat)
    requires end < out.Length && v < 64
    modifies out
    ensures next == end + 1 && out[..next] == old(out[..end]) + [Digit(v)]
  {
    TableIs(v);
    next := Emit(out, end, COV_2CHAR[v]);
  }

  /** One turn of the loop: four digits for three bytes. */
  method WriteGroup(out: array<Byte>, at: nat, p: Bytes, i: nat) returns (end: nat)
    requires |p| == DIGEST_LENGTH && i + 3 <= 15 && at + 4 <= out.Length
    modifies out
    ensures end == at + 4 && out[..end] == old(out[..at]) + Encode3(p[i], p[i + 1], p[i + 2])
  {
    end := EmitDigit(out, at, p[i + 2] % 64);
    end := EmitDigit(out, end, p[i + 1] % 16 * 4 + p[i + 2] / 64);
    end := EmitDigit(out, end, p[i] % 4 * 16 + p[i + 1] / 16);
    end := EmitDigit(out, end, p[i] / 4);
  }

  lemma GroupsStep(head: Bytes, p: Bytes, n: nat)
    requires |p| == DIGEST_LENGTH && n < 5
    ensures head + Groups(p, n + 1) == head + Groups(p, n) + Encode3(p[3 * n], p[3 * n + 1], p[3 * n + 2])
  {
  }

  /** The loop that writes four digits for three bytes. */
  method WriteGroups(out: array<Byte>, at: nat, p: Bytes) returns (end: nat)
    requires |p| == DIGEST_LENGTH && at + 20 <= out.Length
    modifies out
    ensures end == at + 20 && out[..end] == old(out[..at]) + Groups(p, 5)
  {
    end := at;
    var i := 0;
    ghost var g, head := 0, out[..at];
    while i < 15
      invariant 0 <= g <= 5 && i == 3 * g && end == at + 4 * g
      invariant out[..end] == head + Groups(p, g)
    {
      GroupsStep(head, p, g);
      end := WriteGroup(out, end, p, i);
      i, g := i + 3, g + 1;
    }
  }

  /** The whole encoded digest and the terminator. */
  method WriteDigits(out: array<Byte>, at: nat, p: Bytes) returns (end: nat)
    requires |p| == DIGEST_LENGTH && at + 22 < out.Length
    modifies out
    ensures end == at + 22 && out[end] == 0
    ensures out[..end] == old(out[..at]) + (Groups(p, 5) + [Digit(p[15] % 64)] + [Digit(p[15] / 64)])
  {
    end := WriteGroups(out, at, p);
    end := EmitDigit(out, end, p[15] % 64);
    end := EmitDigit(out, end, p[15] / 64);
    out[end] := 0;
  }

  /** `$magic$salt` with at most eight bytes of salt. */
  method WriteHead(out: array<Byte>, magic: Bytes, salt: Bytes) returns (n: nat)
    requires out.Length == OUT_SIZE && |magic| <= 4
    modifies out
    ensures n <= 14 && n == 2 + |magic| + |Take(salt, 8)|
    ensures out[..n] == [DOLLAR] + magic + [DOLLAR] + Take(salt, 8)
  {
    out[0], out[1] := DOLLAR, 0;
    assert out[..1] == [DOLLAR];
    n := AppendN(out, 1, magic, 4);
    assert Take(magic, 4) == magic;
    n := AppendN(out, n, [DOLLAR], 1);
    n := AppendN(out, n, salt, 8);
  }

  /** The first digest. */
  method FirstDigest(passwd: Bytes, magic: Bytes, salt: Bytes, md5: Hash) returns (buf: Bytes)
    requires IsMd5(md5)
    ensures buf == md5(FirstTranscript(passwd, magic, salt, md5))
  {
    var md := passwd + [DOLLAR] + magic + [DOLLAR] + salt;
    buf := md5(passwd + salt + passwd);
    md := FeedCyclic(md, buf, |passwd|);
    md := FeedBits(md, passwd);
    buf := md5(md);
  }

  /**
   * `md5crypt`. The output buffer holds the text for the digest that the prescribed transcript leads to, cut to eight
   * bytes of salt, and a terminator; every write stays inside it.
   */
  method Crypt(passwd: Bytes, magic: Bytes, salt: Bytes, md5: Hash) returns (out: array<Byte>, n: nat)
    requires IsMd5(md5) && |magic| <= 4
    ensures out.Length == OUT_SIZE && n < OUT_SIZE && out[n] == 0
    ensures var s := Take(salt, 8);
      out[..n] == CryptText(magic, s, Stretched(1000, passwd, s, md5(FirstTranscript(passwd, magic, s, md5)), md5))
  {
    out := new Byte[OUT_SIZE];
    n := WriteHead(out, magic, salt);
    var saltOut := out[2 + |magic|..n];
    ghost var head := [DOLLAR] + magic + [DOLLAR];
    assert saltOut == out[..n][|head|..] == Take(salt, 8);
    var buf := FirstDigest(passwd, magic, saltOut, md5);
    buf := Stretch(passwd, saltOut, buf, md5);
    var perm := Permute(buf);
    n := Emit(out, n, DOLLAR);
    n := WriteDigits(out, n, perm[..]);
  }
}
