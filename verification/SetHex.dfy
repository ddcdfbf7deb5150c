/** Keys and initialisation vectors as hexadecimal text: printing them, and reading them back. */
module SetHex {
  import opened CStrings
  import opened Hex
  import opened Wrappers

  /** What `printf("%02X")` writes for each byte. */
  ghost function HexText(bytes: seq<Byte>): string {
    if bytes == [] then ""
    else HexText(bytes[..|bytes| - 1]) + [DIGITS[bytes[|bytes| - 1] / 16], DIGITS[bytes[|bytes| - 1] % 16]]
  }

  /** The value of digit `i`, 0 past the end. */
  ghost function Nibble(s: string, i: nat): nat {
    if i < |s| && IsHex(s[i]) then DigitValue(s[i]) else 0
  }

  /** Byte `k` of the text: digits from the left, zero where there is none. */
  ghost function ByteAt(s: string, k: nat): Byte {
    16 * Nibble(s, 2 * k) + Nibble(s, 2 * k + 1)
  }

  ghost predicate Accepted(s: string, size: nat) {
    |s| <= 2 * size && AllHex(s)
  }

  method PrintHex(bytes: seq<Byte>) returns (s: string)
    ensures s == HexText(bytes)
  {
    s := "";
    var i := 0;
    while i < |bytes|
      invariant i <= |bytes| && s == HexText(bytes[..i])
    {
      assert bytes[..i + 1][..i] == bytes[..i];
      s := s + [DIGITS[bytes[i] / 16], DIGITS[bytes[i] % 16]];
      i := i + 1;
    }
    assert bytes[..i] == bytes;
  }

  /**
   * `set_hex`. The text is wiped as it is read. Shifting a digit and OR-ing the next one into the zero bits it leaves
   * are written as multiplication and sum.
   */
  method ReadHex(input: array<char>, out: array<Byte>, ghost s: string) returns (ok: bool)
    requires Holds(input[..], s)
    modifies input, out
    ensures ok <==> Accepted(s, out.Length)
    ensures ok ==> forall k :: 0 <= k < out.Length ==> out[k] == ByteAt(s, k)
    ensures ok ==> forall i :: 0 <= i < |s| ==> input[i] == NUL
    ensures |s| > 2 * out.Length ==> input[..] == old(input[..]) && out[..] == old(out[..])
  {
    var n := StrLen(input, s);
    var size := out.Length;
    if n > size * 2 { return false; }
    forall k | 0 <= k < size { out[k] := 0; }
    var i := 0;
    while i < n
      invariant i <= n && AllHex(s[..i])
      invariant forall k :: 0 <= k < i ==> input[k] == NUL
      invariant forall k :: i <= k < n ==> input[k] == s[k]
      invariant forall k :: 0 <= k < size ==> out[k] == ByteAt(s[..i], k)
    {
      var c := input[i];
      input[i] := NUL;
      if !IsHex(c) { return false; }
      NibblesGrow(s, i, size);
      if i % 2 == 1 {
        out[i / 2] := out[i / 2] + DigitValue(c);
      } else {
        out[i / 2] := DigitValue(c) * 16;
      }
      i := i + 1;
    }
    assert s[..i] == s;
    return true;
  }

  method StrLen(input: array<char>, ghost s: string) returns (n: nat)
    requires Holds(input[..], s)
    ensures n == |s| && forall k :: 0 <= k < n ==> input[k] == s[k]
  {
    assert forall k :: 0 <= k < |s| ==> input[k] == input[..][..|s|][k] == s[k] && s[k] in s;
    assert input[|s|] == input[..][|s|];
    n := 0;
    while input[n] != NUL
      invariant n <= |s|
      decreases |s| - n
    {
      n := n + 1;
    }
  }

  /** One more digit changes one byte. */
  lemma NibblesGrow(s: string, i: nat, size: nat)
    requires i < |s| && AllHex(s[..i]) && IsHex(s[i])
    ensures AllHex(s[..i + 1])
    ensures forall k: nat :: k < size && k != i / 2 ==> ByteAt(s[..i + 1], k) == ByteAt(s[..i], k)
    ensures i % 2 == 1 ==> ByteAt(s[..i + 1], i / 2) == ByteAt(s[..i], i / 2) + DigitValue(s[i])
    ensures i % 2 == 0 ==> ByteAt(s[..i + 1], i / 2) == DigitValue(s[i]) * 16
  {
    forall j: nat ensures Nibble(s[..i + 1], j) == if j == i then DigitValue(s[i]) else Nibble(s[..i], j) {
      if j < i { assert s[..i + 1][j] == s[..i][j]; }
    }
  }

  lemma {:induction false} TextShape(bytes: seq<Byte>)
    ensures |HexText(bytes)| == 2 * |bytes| && AllUpperHex(HexText(bytes))
  {
    if bytes == [] {
    } else {
      var n := |bytes| - 1;
      TextShape(bytes[..n]);
      LastByteText(HexText(bytes[..n]), n, bytes[n]);
    }
  }

  lemma {:induction false} TextOf(bytes: seq<Byte>, k: nat)
    requires k < |bytes|
    ensures ByteAt(HexText(bytes), k) == bytes[k]
  {
    var n := |bytes| - 1;
    TextShape(bytes[..n]);
    if k < n { TextOf(bytes[..n], k); }
    ByteOfLast(HexText(bytes[..n]), n, bytes[n], HexText(bytes), k);
  }

  lemma ByteOfLast(t: string, n: nat, b: Byte, s: string, k: nat)
    requires |t| == 2 * n && AllUpperHex(t) && s == t + [DIGITS[b / 16], DIGITS[b % 16]] && k <= n
    ensures ByteAt(s, k) == if k < n then ByteAt(t, k) else b
  {
    LastByteText(t, n, b);
  }

  lemma DigitOf(v: nat)
    requires v < 16
    ensures IsUpperHex(DIGITS[v]) && DigitValue(DIGITS[v]) == v
  {
  }

  lemma LastByteText(t: string, n: nat, b: Byte)
    requires |t| == 2 * n && AllUpperHex(t)
    ensures var s := t + [DIGITS[b / 16], DIGITS[b % 16]];
      && AllUpperHex(s) && ByteAt(s, n) == b && forall k: nat :: k < n ==> ByteAt(s, k) == ByteAt(t, k)
  {
    var s := t + [DIGITS[b / 16], DIGITS[b % 16]];
    DigitOf(b / 16);
    DigitOf(b % 16);
    assert s[2 * n] == DIGITS[b / 16] && s[2 * n + 1] == DIGITS[b % 16];
    forall i: nat | i < 2 * n ensures Nibble(s, i) == Nibble(t, i) { assert s[i] == t[i]; }
  }

  /** Every key printed is accepted for a buffer of its size or larger, and comes back, followed by zeros. */
  lemma PrintedComesBack(bytes: seq<Byte>, size: nat)
    requires |bytes| <= size
    ensures Accepted(HexText(bytes), size)
    ensures forall k :: 0 <= k < size ==> ByteAt(HexText(bytes), k) == if k < |bytes| then bytes[k] else 0
  {
    TextShape(bytes);
    forall k | 0 <= k < |bytes| ensures ByteAt(HexText(bytes), k) == bytes[k] { TextOf(bytes, k); }
  }

  /** The number whose bytes these are, the first one highest. */
  ghost function BigEndian(bytes: seq<Byte>): nat {
    if bytes == [] then 0 else 256 * BigEndian(bytes[..|bytes| - 1]) + bytes[|bytes| - 1]
  }

  /** The printed text, read as one number in base 16, is the number with these bytes. */
  lemma {:induction false} TextIsBigEndian(bytes: seq<Byte>)
    ensures AllHex(HexText(bytes)) && HexValue(HexText(bytes)) == BigEndian(bytes)
  {
    TextShape(bytes);
    if bytes == [] {
    } else {
      var n := |bytes| - 1;
      var t, b := HexText(bytes[..n]), bytes[n];
      TextShape(bytes[..n]);
      TextIsBigEndian(bytes[..n]);
      HexAppend(t, b / 16);
      DigitOf(b / 16);
      HexAppend(t + [DIGITS[b / 16]], b % 16);
      assert HexText(bytes) == t + [DIGITS[b / 16]] + [DIGITS[b % 16]];
    }
  }
}
