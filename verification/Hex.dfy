/** Serial numbers as hexadecimal text, and the key under which the serial index files them. */
module Hex {
  import opened CStrings

  const DIGITS := "0123456789ABCDEF"

  predicate IsUpperHex(c: char) {
    '0' <= c <= '9' || 'A' <= c <= 'F'
  }

  predicate IsHex(c: char) {
    IsUpperHex(c) || 'a' <= c <= 'f'
  }

  predicate AllHex(s: string) {
    forall i :: 0 <= i < |s| ==> IsHex(s[i])
  }

  predicate AllUpperHex(s: string) {
    forall i :: 0 <= i < |s| ==> IsUpperHex(s[i])
  }

  function DigitValue(c: char): (v: nat)
    requires IsHex(c)
    ensures v < 16 && DIGITS[v] == ToUpper(c)
  {
    if c <= '9' then (c - '0') as nat
    else if c <= 'F' then (c - 'A') as nat + 10
    else (c - 'a') as nat + 10
  }

  /** The number a string of hexadecimal digits denotes. */
  function HexValue(s: string): nat
    requires AllHex(s)
  {
    if s == "" then 0 else 16 * HexValue(s[..|s| - 1]) + DigitValue(s[|s| - 1])
  }

  /** Two upper-case digits for every byte of `n`, no leading zero byte. */
  function BytesHex(n: nat): (s: string)
  {
    if n == 0 then "" else BytesHex(n / 256) + [DIGITS[n % 256 / 16], DIGITS[n % 16]]
  }

  /** The text a serial number gets in the database: `BN_bn2hex`, except that its callers write "00" for zero. */
  function SerialText(n: int): string {
    if n == 0 then "00" else if n < 0 then "-" + BytesHex(-n) else BytesHex(n)
  }

  function StripZeros(s: string): string {
    if s != "" && s[0] == '0' then StripZeros(s[1..]) else s
  }

  /** The digits of `n` with no leading zero at all. */
  ghost function Canonical(n: nat): string {
    if n == 0 then "" else Canonical(n / 16) + [DIGITS[n % 16]]
  }

  lemma {:induction false} CanonicalValue(n: nat)
    ensures AllUpperHex(Canonical(n)) && HexValue(Canonical(n)) == n
  {
    if n == 0 {
    } else {
      CanonicalValue(n / 16);
      HexAppend(Canonical(n / 16), n % 16);
    }
  }

  lemma {:induction false} StripAppend(s: string, c: char)
    ensures StripZeros(s + [c]) == if StripZeros(s) == "" then StripZeros([c]) else StripZeros(s) + [c]
  {
    if s == "" {
      assert s + [c] == [c];
    } else if s[0] == '0' {
      assert (s + [c])[1..] == s[1..] + [c];
      StripAppend(s[1..], c);
    }
  }

  /** Stripping the zeros of an upper-case number leaves its canonical digits. */
  lemma {:induction false} StripIsCanonical(s: string)
    requires AllUpperHex(s)
    ensures StripZeros(s) == Canonical(HexValue(s))
  {
    if s == "" {
    } else {
      var t, c := s[..|s| - 1], s[|s| - 1];
      assert s == t + [c];
      StripIsCanonical(t);
      StripAppend(t, c);
      var v := HexValue(t);
      CanonicalValue(v);
      assert HexValue(s) / 16 == v && HexValue(s) % 16 == DigitValue(c);
      if v == 0 {
        assert StripZeros([c]) == if c == '0' then "" else [c] by {
          if c == '0' { assert [c][1..] == ""; }
        }
        assert Canonical(DigitValue(c)) == if DigitValue(c) == 0 then "" else [c] by {
          if DigitValue(c) != 0 { assert Canonical(DigitValue(c) / 16) == ""; }
        }
      } else {
        assert Canonical(v) != "";
      }
    }
  }

  /** `index_serial_cmp` answers "equal" on two upper-case serials exactly when they are the same number. */
  lemma {:induction false} SerialCompareIsNumeric(a: string, b: string)
    requires AllUpperHex(a) && AllUpperHex(b)
    ensures StripZeros(a) == StripZeros(b) <==> HexValue(a) == HexValue(b)
  {
    StripIsCanonical(a);
    StripIsCanonical(b);
    CanonicalValue(HexValue(a));
    CanonicalValue(HexValue(b));
  }

  lemma HexAppend(s: string, v: nat)
    requires AllUpperHex(s) && v < 16
    ensures AllUpperHex(s + [DIGITS[v]]) && HexValue(s + [DIGITS[v]]) == 16 * HexValue(s) + v
  {
    assert (s + [DIGITS[v]])[..|s|] == s;
  }

  lemma {:induction false} BytesHexStep(q: nat, r: nat)
    requires r < 256 && q + r > 0
    ensures BytesHex(256 * q + r) == BytesHex(q) + [DIGITS[r / 16]] + [DIGITS[r % 16]]
  {
    Halves(q, r);
  }

  lemma Halves(q: nat, r: nat)
    requires r < 256
    ensures (256 * q + r) / 256 == q && (256 * q + r) % 256 == r && (256 * q + r) % 16 == r % 16
  {
    assert 256 * q + r == 16 * (16 * q + r / 16) + r % 16;
  }

  lemma {:induction false} BytesHexEven(n: nat)
    ensures |BytesHex(n)| % 2 == 0 && (n > 0 ==> |BytesHex(n)| >= 2)
  {
    if n == 0 {
    } else {
      BytesHexEven(n / 256);
    }
  }

  lemma {:induction false} BytesHexUpper(n: nat)
    ensures AllUpperHex(BytesHex(n))
  {
    if n == 0 {
    } else {
      BytesHexUpper(n / 256);
      BytesHexStep(n / 256, n % 256);
    }
  }

  lemma {:induction false} BytesHexValue(n: nat)
    ensures AllUpperHex(BytesHex(n)) && HexValue(BytesHex(n)) == n
  {
    BytesHexUpper(n);
    if n > 0 {
      var q, r, h, l := n / 256, n % 256, n % 256 / 16, n % 256 % 16;
      BytesHexValue(q);
      BytesHexStep(q, r);
      HexAppend(BytesHex(q), h);
      HexAppend(BytesHex(q) + [DIGITS[h]], l);
      assert n == 256 * q + r;
      assert n == 16 * (16 * q + h) + l;
    }
  }

  lemma {:induction false} StripKeepsTail(s: string, c: char)
    requires c in s && c != '0'
    ensures c in StripZeros(s)
  {
    if s[0] != '0' {
    } else {
      assert c in s[1..];
      StripKeepsTail(s[1..], c);
    }
  }

  lemma {:induction false} StripSubset(s: string)
    ensures forall c :: c in StripZeros(s) ==> c in s
  {
    if s == "" || s[0] != '0' {
    } else {
      StripSubset(s[1..]);
    }
  }

  /** A stored serial is found under the number `v` exactly when it denotes `v` and holds no lower-case digit. */
  lemma {:induction false} SerialFoundIff(s: string, v: nat)
    requires AllHex(s)
    ensures StripZeros(s) == StripZeros(SerialText(v)) <==> AllUpperHex(s) && HexValue(s) == v
  {
    SerialTextValue(v);
    if AllUpperHex(s) {
      SerialCompareIsNumeric(s, SerialText(v));
    } else {
      var i :| 0 <= i < |s| && !IsUpperHex(s[i]);
      StripKeepsTail(s, s[i]);
      StripSubset(SerialText(v));
    }
  }

  lemma {:induction false} SerialTextValue(v: nat)
    ensures AllUpperHex(SerialText(v)) && HexValue(SerialText(v)) == v
    ensures |SerialText(v)| % 2 == 0 && |SerialText(v)| >= 2
  {
    BytesHexEven(v);
    BytesHexValue(v);
    if v == 0 {
      assert "00"[..1] == "0" && "0"[..0] == "";
      assert HexValue("0") == 0;
    }
  }

  lemma {:induction false} NegativeSerialText(a: int)
    requires a < 0
    ensures StripZeros(SerialText(a)) == SerialText(a) == "-" + BytesHex(-a)
  {
  }

  lemma {:induction false} BytesHexInjective(a: nat, b: nat)
    requires BytesHex(a) == BytesHex(b)
    ensures a == b
  {
    BytesHexValue(a);
    BytesHexValue(b);
  }

  lemma SameTail(x: string, y: string)
    requires "-" + x == "-" + y
    ensures x == y
  {
    assert x == ("-" + x)[1..] && y == ("-" + y)[1..];
  }

  lemma {:induction false} SignsDiffer(neg: int, pos: nat)
    requires neg < 0
    ensures StripZeros(SerialText(neg)) != StripZeros(SerialText(pos))
  {
    NegativeSerialText(neg);
    SerialTextValue(pos);
    StripSubset(SerialText(pos));
    assert '-' == SerialText(neg)[0];
    assert '-' in StripZeros(SerialText(neg));
  }

  /** Different numbers, negative ones included, never share an index key. */
  lemma {:induction false} SerialTextInjective(a: int, b: int)
    ensures StripZeros(SerialText(a)) == StripZeros(SerialText(b)) <==> a == b
  {
    if a != b && StripZeros(SerialText(a)) == StripZeros(SerialText(b)) {
      if a >= 0 && b >= 0 {
        SerialTextValue(b);
        SerialFoundIff(SerialText(b), a);
      } else if a < 0 && b < 0 {
        NegativeSerialText(a);
        NegativeSerialText(b);
        SameTail(BytesHex(-a), BytesHex(-b));
        BytesHexInjective(-a, -b);
      } else {
        SignsDiffer(if a < 0 then a else b, if a < 0 then b else a);
      }
    }
  }

  /** The key `get_certificate_status` searches for: padded to an even length and upper-cased. */
  function StatusKey(serial: string): string {
    var padded := if |serial| % 2 == 1 then ['0'] + serial else serial;
    seq(|padded|, i requires 0 <= i < |padded| => ToUpper(padded[i]))
  }

  lemma {:induction false} UpperSameValue(s: string, u: string)
    requires AllHex(s) && |u| == |s|
    requires forall i :: 0 <= i < |s| ==> u[i] == ToUpper(s[i])
    ensures AllUpperHex(u) && HexValue(u) == HexValue(s)
  {
    if s == "" {
    } else {
      UpperSameValue(s[..|s| - 1], u[..|u| - 1]);
      assert ToUpper(u[|u| - 1]) == ToUpper(s[|s| - 1]);
    }
  }

  lemma {:induction false} PadSameValue(s: string)
    requires AllHex(s)
    ensures AllHex(['0'] + s) && HexValue(['0'] + s) == HexValue(s)
  {
    if s == "" {
      assert (['0'] + s)[..0] == "";
    } else {
      PadSameValue(s[..|s| - 1]);
      assert (['0'] + s)[..|s|] == ['0'] + s[..|s| - 1];
    }
  }

  /** Any spelling of a number, in any case and with any number of leading zeros, gives the key its serial text has. */
  lemma {:induction false} StatusKeyFindsAnySpelling(serial: string)
    requires AllHex(serial)
    ensures StripZeros(StatusKey(serial)) == StripZeros(SerialText(HexValue(serial)))
  {
    var padded := if |serial| % 2 == 1 then ['0'] + serial else serial;
    PadSameValue(serial);
    UpperSameValue(padded, StatusKey(serial));
    SerialTextValue(HexValue(serial));
    SerialCompareIsNumeric(StatusKey(serial), SerialText(HexValue(serial)));
  }

  /** A serial with a lower-case digit is found under no number, and under no spelling of one. */
  lemma LowerCaseIsNeverFound(s: string, v: int, spelling: string)
    requires AllHex(s) && !AllUpperHex(s)
    ensures StripZeros(s) != StripZeros(SerialText(v))
    ensures AllHex(spelling) ==> StripZeros(s) != StripZeros(StatusKey(spelling))
  {
    if v >= 0 {
      SerialFoundIff(s, v);
    } else {
      NegativeSerialText(v);
      StripSubset(s);
      assert '-' !in StripZeros(s);
      assert SerialText(v)[0] == '-';
    }
    if AllHex(spelling) {
      StatusKeyFindsAnySpelling(spelling);
      SerialFoundIff(s, HexValue(spelling));
    }
  }

  /** The sixteen digits in their order, and that case does not matter. */
  lemma DigitsAreHexadecimal()
    ensures HexValue("0123") == 0x0123 && HexValue("4567") == 0x4567
    ensures HexValue("89AB") == 0x89AB && HexValue("CDEF") == 0xCDEF
    ensures HexValue("89ab") == 0x89AB && HexValue("cdef") == 0xCDEF
  {
    FourDigits('0', '1', '2', '3');
    FourDigits('4', '5', '6', '7');
    FourDigits('8', '9', 'A', 'B');
    FourDigits('C', 'D', 'E', 'F');
    FourDigits('8', '9', 'a', 'b');
    FourDigits('c', 'd', 'e', 'f');
  }

  lemma FourDigits(a: char, b: char, c: char, d: char)
    requires IsHex(a) && IsHex(b) && IsHex(c) && IsHex(d)
    ensures HexValue([a, b, c, d]) == 4096 * DigitValue(a) + 256 * DigitValue(b) + 16 * DigitValue(c) + DigitValue(d)
  {
    assert [a, b, c, d][..3] == [a, b, c] && [a, b, c][..2] == [a, b] && [a, b][..1] == [a] && [a][..0] == [];
    assert HexValue([a]) == DigitValue(a);
    assert HexValue([a, b]) == 16 * DigitValue(a) + DigitValue(b);
    assert HexValue([a, b, c]) == 256 * DigitValue(a) + 16 * DigitValue(b) + DigitValue(c);
  }
}
