/** Subject names given on the command line: /type0=value0/type1=value1+type2=value2, with backslash escapes. */
module ParseName {
  import opened CStrings
  import opened Wrappers

  /** One element; `joined` puts it into the same relative name as the one before. */
  datatype Element = Element(kind: string, value: string, joined: bool)

  /** Where copying stops: the text copied, the position after the stop, and whether it was a `+`. */
  datatype Stop = Stop(text: string, next: nat, joined: bool)

  ghost function Behind(c: char, stop: Option<Stop>): Option<Stop> {
    if stop.None? then None else Some(stop.value.(text := [c] + stop.value.text))
  }

  /** A type that starts at position `i` ends at the first `=` that is not escaped; there must be one. */
  ghost function TypeFrom(s: string, i: nat): (r: Option<Stop>)
    requires i <= |s|
    ensures r.Some? ==> i < r.value.next <= |s|
    decreases |s| - i
  {
    if i == |s| then None
    else if s[i] == '\\' then (if i + 1 == |s| then None else Behind(s[i + 1], TypeFrom(s, i + 2)))
    else if s[i] == '=' then Some(Stop("", i + 1, false))
    else Behind(s[i], TypeFrom(s, i + 1))
  }

  /** A value ends at the first unescaped `/`, at an unescaped `+` if those count, or with the string. */
  ghost function ValueFrom(s: string, i: nat, multi: bool): (r: Option<Stop>)
    requires i <= |s|
    ensures r.Some? ==> i <= r.value.next <= |s| && (i < |s| ==> i < r.value.next)
    decreases |s| - i
  {
    if i == |s| then Some(Stop("", i, false))
    else if s[i] == '\\' then (if i + 1 == |s| then None else Behind(s[i + 1], ValueFrom(s, i + 2, multi)))
    else if s[i] == '/' then Some(Stop("", i + 1, false))
    else if s[i] == '+' && multi then Some(Stop("", i + 1, true))
    else Behind(s[i], ValueFrom(s, i + 1, multi))
  }

  /** The elements from position `i` on. An `=` that ends the string is refused. */
  ghost function Elements(s: string, i: nat, joined: bool, multi: bool): Option<seq<Element>>
    requires i <= |s|
    decreases |s| - i
  {
    if i == |s| then Some([])
    else
      var t := TypeFrom(s, i);
      if t.None? || t.value.next == |s| then None
      else
        var v := ValueFrom(s, t.value.next, multi);
        if v.None? then None
        else Following([Element(t.value.text, v.value.text, joined)], Elements(s, v.value.next, v.value.joined, multi))
  }

  ghost function Following(es: seq<Element>, more: Option<seq<Element>>): Option<seq<Element>> {
    if more.None? then None else Some(es + more.value)
  }

  /** What a subject denotes. */
  ghost function Parsed(subject: string, multi: bool): Option<seq<Element>> {
    if subject == "" || subject[0] != '/' then None else Elements(subject, 1, false, multi)
  }

  // ---- the round trip ----

  ghost function Escaped(s: string, esc: char -> bool): string {
    if s == "" then "" else (if esc(s[0]) then "\\" else "") + [s[0]] + Escaped(s[1..], esc)
  }

  /** Each element closed by `+` if the next one joins it and by `/` if not; the last one by `close`. */
  ghost function Printed(elements: seq<Element>, esc: char -> bool, close: string): string {
    if elements == [] then ""
    else
      Escaped(elements[0].kind, esc) + "=" + (Escaped(elements[0].value, esc) +
      ((if |elements| == 1 then close else if elements[1].joined then "+" else "/") +
       Printed(elements[1..], esc, close)))
  }

  /** The escaping covers every character that would end something; `+` does so only with `multi`. */
  ghost predicate EscapesSpecials(esc: char -> bool, multi: bool) {
    esc('\\') && esc('=') && esc('/') && (multi ==> esc('+'))
  }

  ghost predicate NoneJoined(elements: seq<Element>) {
    forall i :: 0 <= i < |elements| ==> !elements[i].joined
  }

  /** An element can be closed by `/`, with `multi` by `+`, and the last one by the end. */
  ghost predicate Closes(close: string, tail: string, multi: bool) {
    close == "/" || (close == "+" && multi) || (close == "" && tail == "")
  }

  lemma EscapedStep(s: string, esc: char -> bool, x: string)
    requires s != ""
    ensures var t := Escaped(s, esc) + x; var tail := Escaped(s[1..], esc) + x;
      if esc(s[0]) then |t| > 1 && t[0] == '\\' && t[1] == s[0] && t[2..] == tail
      else |t| > 0 && t[0] == s[0] && t[1..] == tail
  {
    var tail := Escaped(s[1..], esc) + x;
    assert Escaped(s, esc) + x == (if esc(s[0]) then "\\" else "") + [s[0]] + tail;
  }

  /** A printed type is taken over character by character, whatever follows it. */
  lemma {:induction false} TakePrintedType(s: string, i: nat, kind: string, esc: char -> bool, x: string)
    requires esc('\\') && esc('=') && i <= |s| && s[i..] == Escaped(kind, esc) + x
    ensures |x| <= |s| && TypeFrom(s, i) == Put(kind, TypeFrom(s, |s| - |x|))
    decreases |kind|
  {
    if kind == "" {
      assert Escaped(kind, esc) + x == x;
      PutNothing(kind, TypeFrom(s, i));
    } else {
      var n := PrintedCharacter(s, i, kind, esc, x);
      TakePrintedType(s, i + n, kind[1..], esc, x);
      BehindPut(kind, TypeFrom(s, |s| - |x|));
    }
  }

  /** The first character of a printed text, with or without a backslash. */
  lemma PrintedCharacter(s: string, i: nat, text: string, esc: char -> bool, x: string) returns (n: nat)
    requires i <= |s| && s[i..] == Escaped(text, esc) + x && text != ""
    ensures n == (if esc(text[0]) then 2 else 1) && i + n <= |s| && s[i + n..] == Escaped(text[1..], esc) + x
    ensures s[i + n - 1] == text[0] && (esc(text[0]) ==> s[i] == '\\')
  {
    EscapedStep(text, esc, x);
    n := if esc(text[0]) then 2 else 1;
    assert s[i] == s[i..][0] && s[i + n - 1] == s[i..][n - 1] && s[i + n..] == s[i..][n..];
  }

  /** So is a printed value. */
  lemma {:induction false} TakePrintedValue(
      s: string, i: nat, value: string, multi: bool, esc: char -> bool, x: string)
    requires EscapesSpecials(esc, multi) && i <= |s| && s[i..] == Escaped(value, esc) + x
    ensures |x| <= |s| && ValueFrom(s, i, multi) == Put(value, ValueFrom(s, |s| - |x|, multi))
    decreases |value|
  {
    if value == "" {
      assert Escaped(value, esc) + x == x;
      PutNothing(value, ValueFrom(s, i, multi));
    } else {
      var n := PrintedCharacter(s, i, value, esc, x);
      TakePrintedValue(s, i + n, value[1..], multi, esc, x);
      BehindPut(value, ValueFrom(s, |s| - |x|, multi));
    }
  }

  lemma BehindPut(text: string, stop: Option<Stop>)
    requires text != ""
    ensures Behind(text[0], Put(text[1..], stop)) == Put(text, stop)
  {
    if stop.Some? {
      assert [text[0]] + (text[1..] + stop.value.text) == [text[0]] + text[1..] + stop.value.text;
      assert [text[0]] + text[1..] == text;
    }
  }

  lemma TakeClose(s: string, i: nat, multi: bool, close: string, rest: string)
    requires i <= |s| && s[i..] == close + rest && Closes(close, rest, multi)
    ensures ValueFrom(s, i, multi) == Some(Stop("", |s| - |rest|, close == "+"))
  {
    if close != "" { assert s[i] == s[i..][0] == close[0]; }
  }

  lemma TakeKind(s: string, i: nat, kind: string, esc: char -> bool, rest: string)
    requires esc('\\') && esc('=') && i <= |s| && s[i..] == Escaped(kind, esc) + "=" + rest
    ensures i < |s| && TypeFrom(s, i) == Some(Stop(kind, |s| - |rest|, false)) && s[|s| - |rest|..] == rest
  {
    var x := "=" + rest;
    assert s[i..] == Escaped(kind, esc) + x && x[0] == '=';
    TakePrintedType(s, i, kind, esc, x);
    Suffix(s, i, Escaped(kind, esc), x);
    Suffix(s, i, Escaped(kind, esc) + "=", rest);
    assert s[|s| - |x|] == s[|s| - |x|..][0];
    PutNothing(kind, TypeFrom(s, |s| - |x|));
  }

  lemma TakeText(s: string, i: nat, value: string, multi: bool, esc: char -> bool, c: string, tail: string)
    requires EscapesSpecials(esc, multi) && Closes(c, tail, multi)
    requires i <= |s| && s[i..] == Escaped(value, esc) + (c + tail)
    ensures ValueFrom(s, i, multi) == Some(Stop(value, |s| - |tail|, c == "+")) && s[|s| - |tail|..] == tail
  {
    var x := c + tail;
    Suffix(s, i, Escaped(value, esc), x);
    Suffix(s, |s| - |x|, c, tail);
    TakeClose(s, |s| - |x|, multi, c, tail);
    TakePrintedValue(s, i, value, multi, esc, x);
    PutNothing(value, ValueFrom(s, |s| - |x|, multi));
  }

  /** One printed element is taken back. */
  lemma TakePrinted(s: string, i: nat, e: Element, multi: bool, esc: char -> bool, c: string, tail: string)
    returns (t: Stop, v: Stop)
    requires EscapesSpecials(esc, multi) && Closes(c, tail, multi)
    requires i <= |s| && s[i..] == Escaped(e.kind, esc) + "=" + (Escaped(e.value, esc) + (c + tail))
    ensures i < |s| && TypeFrom(s, i) == Some(t) && t.text == e.kind
    ensures t.next == |s| <==> e.value == "" && c == ""
    ensures ValueFrom(s, t.next, multi) == Some(v) && v == Stop(e.value, |s| - |tail|, c == "+") && s[v.next..] == tail
  {
    var rest := Escaped(e.value, esc) + (c + tail);
    t, v := Stop(e.kind, |s| - |rest|, false), Stop(e.value, |s| - |tail|, c == "+");
    TakeKind(s, i, e.kind, esc, rest);
    TakeText(s, t.next, e.value, multi, esc, c, tail);
    NotEmpty(e.value, esc);
  }

  lemma NotEmpty(s: string, esc: char -> bool)
    ensures Escaped(s, esc) == "" <==> s == ""
  {
  }

  lemma ElementTaken(s: string, i: nat, joined: bool, multi: bool, t: Stop, v: Stop)
    requires i < |s| && TypeFrom(s, i) == Some(t) && ValueFrom(s, t.next, multi) == Some(v)
    ensures Elements(s, i, joined, multi) ==
      if t.next == |s| then None else Following([Element(t.text, v.text, joined)], Elements(s, v.next, v.joined, multi))
  {
  }

  lemma Suffix(s: string, i: nat, a: string, b: string)
    requires i <= |s| && s[i..] == a + b
    ensures i + |a| == |s| - |b| && s[|s| - |b|..] == b
  {
    assert s[i..][|a|..] == b;
  }

  /** One printed element and what follows it; it is refused only if it is empty and nothing closes it. */
  lemma OneTaken(
      s: string, i: nat, e: Element, multi: bool, esc: char -> bool, c: string, tail: string, at: nat, joins: bool)
    requires EscapesSpecials(esc, multi) && Closes(c, tail, multi) && (joins <==> c == "+") && at + |tail| == |s|
    requires i <= |s| && s[i..] == Escaped(e.kind, esc) + "=" + (Escaped(e.value, esc) + (c + tail))
    ensures s[at..] == tail
    ensures Elements(s, i, e.joined, multi) ==
      if e.value == "" && c == "" then None else Following([e], Elements(s, at, joins, multi))
  {
    var t, v := TakePrinted(s, i, e, multi, esc, c, tail);
    ElementTaken(s, i, e.joined, multi, t, v);
  }

  /** What stands between the first element and the rest. */
  ghost function Separator(elements: seq<Element>, close: string): string
    requires elements != []
  {
    if |elements| == 1 then close else if elements[1].joined then "+" else "/"
  }

  /** The first printed element, and where the rest begins. */
  lemma FirstPrinted(s: string, i: nat, elements: seq<Element>, multi: bool, esc: char -> bool, close: string)
    returns (at: nat, joins: bool)
    requires EscapesSpecials(esc, multi) && (close == "/" || close == "") && elements != []
    requires multi || NoneJoined(elements)
    requires i <= |s| && s[i..] == Printed(elements, esc, close)
    ensures at <= |s| && s[at..] == Printed(elements[1..], esc, close)
    ensures joins == (|elements| > 1 && elements[1].joined)
    ensures Elements(s, i, elements[0].joined, multi) ==
      if elements[0].value == "" && |elements| == 1 && close == "" then None
      else Following([elements[0]], Elements(s, at, joins, multi))
  {
    var c, rest := Separator(elements, close), Printed(elements[1..], esc, close);
    Suffix(s, i, Escaped(elements[0].kind, esc) + "=", Escaped(elements[0].value, esc) + (c + rest));
    at, joins := |s| - |rest|, c == "+";
    OneTaken(s, i, elements[0], multi, esc, c, rest, at, joins);
  }

  /** Parsing a printed name gives the elements back, unless nothing closes a last value that is empty. */
  lemma {:induction false} ElementsPrinted(
      s: string, i: nat, elements: seq<Element>, multi: bool, esc: char -> bool, close: string)
    requires EscapesSpecials(esc, multi) && (close == "/" || close == "") && elements != []
    requires multi || NoneJoined(elements)
    requires i <= |s| && s[i..] == Printed(elements, esc, close)
    ensures Elements(s, i, elements[0].joined, multi) ==
      if close == "" && elements[|elements| - 1].value == "" then None else Some(elements)
    decreases |elements|
  {
    var at, joins := FirstPrinted(s, i, elements, multi, esc, close);
    var next := Elements(s, at, joins, multi);
    if |elements| == 1 {
      assert at == |s|;
      assert next == Some([]) && elements[1..] == [];
    } else {
      ElementsPrinted(s, at, elements[1..], multi, esc, close);
    }
    Whole(elements, next);
  }

  lemma Whole(elements: seq<Element>, next: Option<seq<Element>>)
    requires elements != []
    ensures next == Some(elements[1..]) ==> Following([elements[0]], next) == Some(elements)
    ensures next == None ==> Following([elements[0]], next) == None
  {
    assert [elements[0]] + elements[1..] == elements;
  }

  /**
   * Every list of elements comes back from its printed form, empty types and values included, when the last element
   * is closed by `/`. If it is left open, exactly the lists whose last value is empty are refused. Without `multi` the
   * elements must not be joined, and `+` need not be escaped.
   */
  lemma RoundTrip(elements: seq<Element>, multi: bool, esc: char -> bool)
    requires EscapesSpecials(esc, multi)
    requires if multi then elements != [] ==> !elements[0].joined else NoneJoined(elements)
    ensures Parsed("/" + Printed(elements, esc, "/"), multi) == Some(elements)
    ensures Parsed("/" + Printed(elements, esc, ""), multi) == Some(elements) <==>
      elements == [] || elements[|elements| - 1].value != ""
  {
    PrintedComesBack(elements, multi, esc, "/");
    PrintedComesBack(elements, multi, esc, "");
  }

  lemma PrintedComesBack(elements: seq<Element>, multi: bool, esc: char -> bool, close: string)
    requires EscapesSpecials(esc, multi) && (close == "/" || close == "")
    requires if multi then elements != [] ==> !elements[0].joined else NoneJoined(elements)
    ensures Parsed("/" + Printed(elements, esc, close), multi) ==
      if elements != [] && close == "" && elements[|elements| - 1].value == "" then None else Some(elements)
  {
    var s := "/" + Printed(elements, esc, close);
    assert s[1..] == Printed(elements, esc, close);
    if elements != [] { ElementsPrinted(s, 1, elements, multi, esc, close); }
  }

  lemma {:induction false} PlusIsOrdinary(s: string, i: nat)
    requires i <= |s|
    ensures ValueFrom(s, i, false).Some? ==> !ValueFrom(s, i, false).value.joined
    decreases |s| - i
  {
    if i == |s| || s[i] == '/' || (s[i] == '\\' && i + 1 == |s|) {
    } else {
      PlusIsOrdinary(s, i + if s[i] == '\\' then 2 else 1);
    }
  }

  lemma {:induction false} NothingIsJoined(s: string, i: nat)
    requires i <= |s|
    ensures var es := Elements(s, i, false, false); es.Some? ==> NoneJoined(es.value)
    decreases |s| - i
  {
    if i == |s| || Elements(s, i, false, false).None? {
    } else {
      var t := TypeFrom(s, i).value;
      PlusIsOrdinary(s, t.next);
      NothingIsJoined(s, ValueFrom(s, t.next, false).value.next);
    }
  }

  /** Without `multi` no element of any subject is joined. */
  lemma NoneJoinedWithoutMulti(subject: string)
    ensures Parsed(subject, false).Some? ==> NoneJoined(Parsed(subject, false).value)
  {
    if subject != "" { NothingIsJoined(subject, 1); }
  }

  lemma UnendedType(s: string, i: nat, kind: string, esc: char -> bool, x: string)
    requires esc('\\') && esc('=') && i <= |s| && s[i..] == Escaped(kind, esc) + x && (x == "" || x == "\\")
    ensures TypeFrom(s, i) == None
  {
    Suffix(s, i, Escaped(kind, esc), x);
    TakePrintedType(s, i, kind, esc, x);
    if x != "" { assert s[|s| - 1] == s[|s| - 1..][0]; }
  }

  lemma UnendedValue(s: string, i: nat, value: string, multi: bool, esc: char -> bool)
    requires EscapesSpecials(esc, multi) && i <= |s| && s[i..] == Escaped(value, esc) + "\\"
    ensures ValueFrom(s, i, multi) == None
  {
    Suffix(s, i, Escaped(value, esc), "\\");
    TakePrintedValue(s, i, value, multi, esc, "\\");
    assert s[|s| - 1] == s[|s| - 1..][0];
  }

  /** A type that nothing ends, or a backslash with nothing behind it, in a type or in a value. */
  ghost predicate Broken(last: string, kind: string, value: string, esc: char -> bool) {
    || (last == Escaped(kind, esc) && kind != "")
    || last == Escaped(kind, esc) + "\\"
    || last == Escaped(kind, esc) + "=" + (Escaped(value, esc) + "\\")
  }

  lemma BrokenElement(s: string, i: nat, kind: string, value: string, multi: bool, esc: char -> bool)
    requires EscapesSpecials(esc, multi) && i <= |s| && Broken(s[i..], kind, value, esc)
    ensures Elements(s, i, false, multi) == None
  {
    NotEmpty(kind, esc);
    if s[i..] == Escaped(kind, esc) && kind != "" {
      assert Escaped(kind, esc) + "" == Escaped(kind, esc);
      UnendedType(s, i, kind, esc, "");
    } else if s[i..] == Escaped(kind, esc) + "\\" {
      UnendedType(s, i, kind, esc, "\\");
    } else {
      var rest := Escaped(value, esc) + "\\";
      TakeKind(s, i, kind, esc, rest);
      UnendedValue(s, |s| - |rest|, value, multi, esc);
    }
  }

  /** The first of several elements closed by `/`, and where the rest begins. */
  lemma FirstThen(s: string, i: nat, elements: seq<Element>, multi: bool, esc: char -> bool, tail: string)
    returns (at: nat, joins: bool)
    requires EscapesSpecials(esc, multi) && elements != [] && (multi || NoneJoined(elements))
    requires i <= |s| && s[i..] == Printed(elements, esc, "/") + tail
    ensures at <= |s| && s[at..] == Printed(elements[1..], esc, "/") + tail
    ensures joins == (|elements| > 1 && elements[1].joined)
    ensures Elements(s, i, elements[0].joined, multi) == Following([elements[0]], Elements(s, at, joins, multi))
  {
    var c, rest := Separator(elements, "/"), Printed(elements[1..], esc, "/") + tail;
    PrintedThen(elements, esc, c, tail);
    Suffix(s, i, Escaped(elements[0].kind, esc) + "=", Escaped(elements[0].value, esc) + (c + rest));
    at, joins := |s| - |rest|, c == "+";
    OneTaken(s, i, elements[0], multi, esc, c, rest, at, joins);
  }

  /** Elements closed by `/` are parsed before whatever follows them. */
  lemma {:induction false} ElementsThen(
      s: string, i: nat, elements: seq<Element>, multi: bool, esc: char -> bool, tail: string, end: nat)
    requires EscapesSpecials(esc, multi) && elements != [] && (multi || NoneJoined(elements))
    requires i <= |s| && s[i..] == Printed(elements, esc, "/") + tail && end + |tail| == |s|
    ensures Elements(s, i, elements[0].joined, multi) == Following(elements, Elements(s, end, false, multi))
    decreases |elements|
  {
    var at, joins := FirstThen(s, i, elements, multi, esc, tail);
    if |elements| == 1 {
      assert s[at..] == tail;
      assert at == end && elements == [elements[0]];
    } else {
      ElementsThen(s, at, elements[1..], multi, esc, tail, end);
      Chained(elements, Elements(s, i, elements[0].joined, multi), Elements(s, at, joins, multi),
              Elements(s, end, false, multi));
    }
  }

  lemma PrintedThen(elements: seq<Element>, esc: char -> bool, c: string, tail: string)
    requires elements != [] && c == Separator(elements, "/")
    ensures Printed(elements, esc, "/") + tail ==
      Escaped(elements[0].kind, esc) + "=" +
      (Escaped(elements[0].value, esc) + (c + (Printed(elements[1..], esc, "/") + tail)))
  {
    var a, b := Escaped(elements[0].kind, esc) + "=", Escaped(elements[0].value, esc);
    var d := Printed(elements[1..], esc, "/");
    Associate(a, b + (c + d), tail);
    Associate(b, c + d, tail);
    Associate(c, d, tail);
  }

  lemma Chained(
      elements: seq<Element>, all: Option<seq<Element>>, next: Option<seq<Element>>, end: Option<seq<Element>>)
    requires elements != [] && all == Following([elements[0]], next) && next == Following(elements[1..], end)
    ensures all == Following(elements, end)
  {
    if end.Some? { Associate([elements[0]], elements[1..], end.value); }
    assert [elements[0]] + elements[1..] == elements;
  }

  /** A subject is refused for a broken last element, whatever comes before it. */
  lemma BrokenIsRefused(
      elements: seq<Element>, last: string, kind: string, value: string, multi: bool, esc: char -> bool)
    requires EscapesSpecials(esc, multi) && Broken(last, kind, value, esc)
    requires if multi then elements != [] ==> !elements[0].joined else NoneJoined(elements)
    ensures Parsed("/" + (Printed(elements, esc, "/") + last), multi) == None
  {
    var tail := Printed(elements, esc, "/") + last;
    var s := "/" + tail;
    assert s[1..] == tail;
    var end := |s| - |last|;
    Suffix(s, 1, Printed(elements, esc, "/"), last);
    BrokenElement(s, end, kind, value, multi, esc);
    if elements == [] {
      assert end == 1;
    } else {
      ElementsThen(s, 1, elements, multi, esc, last, end);
    }
  }

  // ---- the parser ----

  ghost function Put(text: string, stop: Option<Stop>): Option<Stop> {
    if stop.None? then None else Some(stop.value.(text := text + stop.value.text))
  }

  lemma PutBehind(text: string, c: char, stop: Option<Stop>)
    ensures Put(text, Behind(c, stop)) == Put(text + [c], stop)
  {
    if stop.Some? { assert text + ([c] + stop.value.text) == text + [c] + stop.value.text; }
  }

  lemma PutNothing(text: string, stop: Option<Stop>)
    ensures Put("", stop) == stop
    ensures stop.Some? && stop.value.text == "" ==> Put(text, stop) == Some(stop.value.(text := text))
  {
    if stop.Some? { assert "" + stop.value.text == stop.value.text && text + "" == text; }
  }

  /** `*bp++ = c` */
  method Store(buf: array<char>, bp: nat, c: char, ghost head: seq<char>, ghost text: string) returns (next: nat)
    requires bp < buf.Length && buf[..bp] == head + text
    modifies buf
    ensures next == bp + 1 && buf[..next] == head + (text + [c]) == head + text + [c]
  {
    buf[bp] := c;
    next := bp + 1;
    assert buf[..next] == buf[..bp] + [c];
  }

  /** Copies a type to the buffer at `bp0` and terminates it. The write offset stays behind the read offset. */
  method CollectType(subject: string, sp0: nat, buf: array<char>, bp0: nat) returns (ok: bool, sp: nat, bp: nat)
    requires bp0 < sp0 < |subject| && buf.Length == |subject| + 1
    modifies buf
    ensures var t := TypeFrom(subject, sp0);
      && (ok <==> t.Some? && t.value.next < |subject|)
      && (ok ==> bp0 < bp < sp < |subject| && sp0 < sp == t.value.next)
      && (ok ==> buf[..bp] == old(buf[..bp0]) + t.value.text + [NUL])
  {
    sp, bp := sp0, bp0;
    ghost var head, text, goal := buf[..bp0], "", TypeFrom(subject, sp0);
    PutNothing("", goal);
    while sp < |subject|
      invariant sp0 <= sp <= |subject| && bp0 <= bp < sp
      invariant goal == Put(text, TypeFrom(subject, sp))
      invariant buf[..bp] == head + text
    {
      if subject[sp] == '\\' {
        sp := sp + 1;
        if sp == |subject| { return false, sp, bp; }
      } else if subject[sp] == '=' {
        sp := sp + 1;
        bp := Store(buf, bp, NUL, head, text);
        PutNothing(text, Some(Stop("", sp, false)));
        return sp < |subject|, sp, bp;
      }
      PutBehind(text, subject[sp], TypeFrom(subject, sp + 1));
      bp := Store(buf, bp, subject[sp], head, text);
      text := text + [subject[sp]];
      sp := sp + 1;
    }
    return false, sp, bp;
  }

  /** Copies a value to the buffer at `bp0` and terminates it. */
  method CollectValue(subject: string, sp0: nat, multi: bool, buf: array<char>, bp0: nat)
    returns (ok: bool, sp: nat, bp: nat, joined: Option<bool>)
    requires bp0 < sp0 < |subject| && buf.Length == |subject| + 1
    modifies buf
    ensures var v := ValueFrom(subject, sp0, multi);
      && (ok <==> v.Some?)
      && (ok ==> sp0 < sp == v.value.next <= |subject| && bp0 < bp <= sp && (sp < |subject| ==> bp < sp))
      && (ok ==> buf[..bp] == old(buf[..bp0]) + v.value.text + [NUL])
      && (ok && joined.Some? ==> v.value.joined == joined.value)
      && (ok && joined.None? ==> sp == |subject|)
  {
    sp, bp, joined := sp0, bp0, None;
    ghost var head, text, goal := buf[..bp0], "", ValueFrom(subject, sp0, multi);
    PutNothing("", goal);
    while sp < |subject|
      invariant sp0 <= sp <= |subject| && bp0 <= bp < sp && joined.None?
      invariant goal == Put(text, ValueFrom(subject, sp, multi))
      invariant buf[..bp] == head + text
    {
      if subject[sp] == '\\' {
        sp := sp + 1;
        if sp == |subject| { return false, sp, bp, None; }
      } else if subject[sp] == '/' || (subject[sp] == '+' && multi) {
        joined := Some(subject[sp] == '+');
        sp := sp + 1;
        break;
      }
      PutBehind(text, subject[sp], ValueFrom(subject, sp + 1, multi));
      bp := Store(buf, bp, subject[sp], head, text);
      text := text + [subject[sp]];
      sp := sp + 1;
    }
    PutNothing(text, Some(Stop("", sp, joined == Some(true))));
    bp := Store(buf, bp, NUL, head, text);
    ok := true;
  }

  ghost predicate Stored(b: seq<char>, kindAt: nat, valueAt: nat, e: Element) {
    HoldsAt(b, kindAt, e.kind) && HoldsAt(b, valueAt, e.value)
  }

  lemma FollowingMore(es: seq<Element>, e: Element, more: Option<seq<Element>>)
    ensures Following(es, Following([e], more)) == Following(es + [e], more)
  {
    if more.Some? { assert es + ([e] + more.value) == es + [e] + more.value; }
  }

  function Flag(joined: bool): int {
    if joined then -1 else 0
  }

  /** The loop body: one type and one value are copied, and described by entry `num` of the arrays. */
  method CollectElement(
      subject: string, sp0: nat, multi: bool, buf: array<char>, bp0: nat,
      kinds: array<nat>, values: array<nat>, mval: array<int>, num: nat)
    returns (ok: bool, sp: nat, bp: nat, ghost t: Stop, ghost v: Stop)
    requires bp0 < sp0 < |subject| && buf.Length == |subject| + 1 && kinds != values
    requires kinds.Length == values.Length == mval.Length == (|subject| + 1) / 2 + 1 && 2 * num + 1 <= sp0
    modifies buf, kinds, values, mval
    ensures !ok ==> Elements(subject, sp0, false, multi) == Elements(subject, sp0, true, multi) == None
    ensures ok ==> TypeFrom(subject, sp0) == Some(t) && t.next < |subject|
    ensures ok ==> ValueFrom(subject, t.next, multi) == Some(v)
    ensures ok ==> sp == v.next && sp0 + 2 <= sp <= |subject| && bp0 < bp <= sp && (sp < |subject| ==> bp < sp)
    ensures ok ==> buf[..bp] == old(buf[..bp0]) + t.text + [NUL] + v.text + [NUL]
    ensures ok ==> kinds[..num + 1] == old(kinds[..num]) + [bp0]
    ensures ok ==> values[..num + 1] == old(values[..num]) + [bp0 + |t.text| + 1]
    ensures ok ==> mval[..num + 1] == old(mval[..num + 1]) && (sp < |subject| ==> mval[num + 1] == Flag(v.joined))
  {
    t, v, bp := Stop("", 0, false), Stop("", 0, false), bp0;
    var joined, valueAt;
    kinds[num] := bp0;
    ok, sp, valueAt := CollectType(subject, sp0, buf, bp0);
    if !ok { return; }
    t := TypeFrom(subject, sp0).value;
    values[num] := valueAt;
    assert |buf[..valueAt]| == valueAt;
    ok, sp, bp, joined := CollectValue(subject, sp, multi, buf, valueAt);
    if !ok { return; }
    v := ValueFrom(subject, t.next, multi).value;
    if joined.Some? { mval[num + 1] := Flag(joined.value); }
  }

  /** The arrays describe the elements `es`, whose text is in `b`. */
  ghost predicate AllStored(b: seq<char>, kinds: seq<nat>, values: seq<nat>, mval: seq<int>, es: seq<Element>) {
    && |kinds| == |values| == |mval| == |es|
    && forall k :: 0 <= k < |es| ==> Stored(b, kinds[k], values[k], es[k]) && mval[k] == Flag(es[k].joined)
  }

  lemma HeldGrows(b: seq<char>, c: seq<char>, at: nat, text: string)
    requires HoldsAt(b, at, text) && b <= c
    ensures HoldsAt(c, at, text)
  {
    assert c[at..at + |text|] == b[at..at + |text|];
  }

  lemma AllStoredGrows(b: seq<char>, c: seq<char>, kinds: seq<nat>, values: seq<nat>, mval: seq<int>, es: seq<Element>)
    requires AllStored(b, kinds, values, mval, es) && b <= c
    ensures AllStored(c, kinds, values, mval, es)
  {
    forall k | 0 <= k < |es| ensures Stored(c, kinds[k], values[k], es[k]) {
      HeldGrows(b, c, kinds[k], es[k].kind);
      HeldGrows(b, c, values[k], es[k].value);
    }
  }

  lemma OneMoreStored(
      b: seq<char>, c: seq<char>, kinds: seq<nat>, values: seq<nat>, mval: seq<int>, es: seq<Element>, e: Element,
      valueAt: nat)
    requires AllStored(b, kinds, values, mval, es)
    requires c == b + e.kind + [NUL] + e.value + [NUL] && valueAt == |b| + |e.kind| + 1
    ensures AllStored(c, kinds + [|b|], values + [valueAt], mval + [Flag(e.joined)], es + [e])
  {
    assert c[|b|..|b| + |e.kind|] == e.kind && c[valueAt..valueAt + |e.value|] == e.value;
    AllStoredGrows(b, c, kinds, values, mval, es);
  }

  lemma FollowingNothing(more: Option<seq<Element>>)
    ensures Following([], more) == more
  {
    if more.Some? { assert [] + more.value == more.value; }
  }

  /** What has been collected when position `sp` is reached, and whether the next element joins the last. */
  ghost predicate Collected(
      subject: string, multi: bool, b: seq<char>, kinds: seq<nat>, values: seq<nat>, mval: seq<int>, es: seq<Element>,
      sp: nat, joining: bool)
    requires sp <= |subject|
  {
    && AllStored(b, kinds, values, mval, es)
    && Parsed(subject, multi) == Following(es, Elements(subject, sp, joining, multi))
  }

  lemma CollectedOne(
      subject: string, multi: bool, b: seq<char>, kinds: seq<nat>, values: seq<nat>, mval: seq<int>, es: seq<Element>,
      sp: nat, joining: bool, t: Stop, v: Stop, c: seq<char>, valueAt: nat)
    requires sp < |subject| && Collected(subject, multi, b, kinds, values, mval, es, sp, joining)
    requires TypeFrom(subject, sp) == Some(t) && t.next < |subject| && ValueFrom(subject, t.next, multi) == Some(v)
    requires c == b + t.text + [NUL] + v.text + [NUL] && valueAt == |b| + |t.text| + 1
    ensures Collected(subject, multi, c, kinds + [|b|], values + [valueAt], mval + [Flag(joining)],
                      es + [Element(t.text, v.text, joining)], v.next, v.joined)
  {
    var e := Element(t.text, v.text, joining);
    FollowingMore(es, e, Elements(subject, v.next, v.joined, multi));
    OneMoreStored(b, c, kinds, values, mval, es, e, valueAt);
  }

  /** One turn of the loop. */
  method NextElement(
      subject: string, sp: nat, multi: bool, buf: array<char>, bp: nat,
      kinds: array<nat>, values: array<nat>, mval: array<int>, num: nat, ghost joining: bool, ghost es: seq<Element>)
    returns (ok: bool, next: nat, end: nat, ghost joins: bool, ghost more: seq<Element>)
    requires bp < sp < |subject| && buf.Length == |subject| + 1 && kinds != values
    requires kinds.Length == values.Length == mval.Length == (|subject| + 1) / 2 + 1 && 2 * num + 1 <= sp
    requires mval[num] == Flag(joining)
    requires Collected(subject, multi, buf[..bp], kinds[..num], values[..num], mval[..num], es, sp, joining)
    modifies buf, kinds, values, mval
    ensures !ok ==> Parsed(subject, multi).None?
    ensures ok ==> sp + 2 <= next <= |subject| && end <= next && (next < |subject| ==> end < next)
    ensures ok && next < |subject| ==> mval[num + 1] == Flag(joins)
    ensures ok ==> Collected(
      subject, multi, buf[..end], kinds[..num + 1], values[..num + 1], mval[..num + 1], more, next, joins)
  {
    ghost var b, ks, vs, ms := buf[..bp], kinds[..num], values[..num], mval[..num];
    assert mval[..num + 1] == ms + [Flag(joining)];
    ghost var t, v;
    ok, next, end, t, v := CollectElement(subject, sp, multi, buf, bp, kinds, values, mval, num);
    joins, more := v.joined, es + [Element(t.text, v.text, joining)];
    if ok {
      CollectedOne(subject, multi, b, ks, vs, ms, es, sp, joining, t, v, buf[..end], bp + |t.text| + 1);
    } else {
      assert Elements(subject, sp, joining, multi) == None;
    }
  }

  /**
   * The first part of `parse_name`. Every write stays inside the buffer of strlen + 1 characters and inside the three
   * arrays of half that many entries and one more; what is left in them are the elements of the subject.
   */
  method Tokenize(subject: string, multi: bool)
    returns (ok: bool, buf: array<char>, kinds: array<nat>, values: array<nat>, mval: array<int>, num: nat)
    ensures kinds.Length == values.Length == mval.Length == (|subject| + 1) / 2 + 1 && buf.Length == |subject| + 1
    ensures ok <==> Parsed(subject, multi).Some?
    ensures ok ==> num < mval.Length
    ensures ok ==> AllStored(buf[..], kinds[..num], values[..num], mval[..num], Parsed(subject, multi).value)
  {
    var max := (|subject| + 1) / 2 + 1;
    buf, kinds, values, mval, num := new char[|subject| + 1], new nat[max], new nat[max], new int[max], 0;
    if subject == "" || subject[0] != '/' { return false, buf, kinds, values, mval, num; }
    var sp: nat, bp: nat := 1, 0;
    mval[num] := 0;
    ghost var es: seq<Element>, joining := [], false;
    FollowingNothing(Elements(subject, 1, false, multi));
    while sp < |subject|
      invariant 1 <= sp <= |subject| && 0 <= bp <= sp && (sp < |subject| ==> bp < sp) && 2 * num + 1 <= sp
      invariant sp < |subject| ==> mval[num] == Flag(joining)
      invariant Collected(subject, multi, buf[..bp], kinds[..num], values[..num], mval[..num], es, sp, joining)
    {
      ok, sp, bp, joining, es := NextElement(subject, sp, multi, buf, bp, kinds, values, mval, num, joining, es);
      if !ok { return; }
      num := num + 1;
    }
    AllStoredGrows(buf[..bp], buf[..], kinds[..num], values[..num], mval[..num], es);
    assert es + [] == es;
    ok := true;
  }

  // ---- the name ----

  datatype NameEntry = NameEntry(nid: int, value: string, joined: bool)

  /** Elements of a type without a number, and elements without a value, are skipped. */
  ghost function Entries(es: seq<Element>, nid: string -> Option<int>): seq<NameEntry> {
    EntriesUpTo(es, |es|, nid)
  }

  ghost function EntriesUpTo(es: seq<Element>, n: nat, nid: string -> Option<int>): seq<NameEntry>
    requires n <= |es|
  {
    if n == 0 then [] else EntriesUpTo(es, n - 1, nid) + EntryOf(es[n - 1], nid)
  }

  ghost function EntryOf(e: Element, nid: string -> Option<int>): seq<NameEntry> {
    if nid(e.kind).Some? && e.value != "" then [NameEntry(nid(e.kind).value, e.value, e.joined)] else []
  }

  lemma {:induction false} EntriesJoin(a: seq<Element>, b: seq<Element>, nid: string -> Option<int>)
    ensures Entries(a + b, nid) == Entries(a, nid) + Entries(b, nid)
    decreases |b|
  {
    if b == [] {
      assert a + b == a;
    } else {
      var n := |b| - 1;
      EntriesJoin(a, b[..n], nid);
      UpToIsPrefix(a + b, |a| + n, nid);
      UpToIsPrefix(b, n, nid);
      assert (a + b)[..|a| + n] == a + b[..n];
      Associate(Entries(a, nid), Entries(b[..n], nid), EntryOf(b[n], nid));
    }
  }

  lemma {:induction false} UpToSame(a: seq<Element>, b: seq<Element>, n: nat, nid: string -> Option<int>)
    requires n <= |a| && n <= |b| && a[..n] == b[..n]
    ensures EntriesUpTo(a, n, nid) == EntriesUpTo(b, n, nid)
  {
    if n == 0 {
    } else {
      assert a[..n - 1] == a[..n][..n - 1] == b[..n][..n - 1] == b[..n - 1];
      assert a[n - 1] == a[..n][n - 1] == b[..n][n - 1] == b[n - 1];
      UpToSame(a, b, n - 1, nid);
    }
  }

  lemma UpToIsPrefix(es: seq<Element>, n: nat, nid: string -> Option<int>)
    requires n <= |es|
    ensures EntriesUpTo(es, n, nid) == Entries(es[..n], nid)
  {
    UpToSame(es, es[..n], n, nid);
  }

  /** An element of an unknown type or without a value leaves no trace. */
  lemma SkippedLeavesNoTrace(a: seq<Element>, e: Element, b: seq<Element>, nid: string -> Option<int>)
    requires nid(e.kind).None? || e.value == ""
    ensures Entries(a + [e] + b, nid) == Entries(a + b, nid)
  {
    EntriesJoin(a + [e], b, nid);
    EntriesJoin(a, [e], nid);
    EntriesJoin(a, b, nid);
    assert EntriesUpTo([e], 0, nid) == [] && Entries([e], nid) == EntryOf(e, nid) == [];
    assert Entries(a, nid) + [] == Entries(a, nid);
  }

  /** Elements of known types with values become entries one by one, and a joined one stays joined. */
  lemma {:induction false} TakenOneByOne(es: seq<Element>, nid: string -> Option<int>)
    requires forall i :: 0 <= i < |es| ==> nid(es[i].kind).Some? && es[i].value != ""
    ensures |Entries(es, nid)| == |es|
    ensures forall i :: 0 <= i < |es| ==>
      Entries(es, nid)[i] == NameEntry(nid(es[i].kind).value, es[i].value, es[i].joined)
  {
    if es == [] {
    } else {
      var n := |es| - 1;
      TakenOneByOne(es[..n], nid);
      UpToIsPrefix(es, n, nid);
    }
  }

  lemma {:induction false} TypePlain(s: string, i: nat)
    requires NoNul(s) && i <= |s|
    ensures TypeFrom(s, i).Some? ==> NoNul(TypeFrom(s, i).value.text)
    decreases |s| - i
  {
    if i >= |s| || s[i] == '=' {
    } else {
      var k := if s[i] == '\\' && i + 1 < |s| then 2 else 1;
      assert s[i + k - 1] in s;
      TypePlain(s, i + k);
    }
  }

  lemma {:induction false} ValuePlain(s: string, i: nat, multi: bool)
    requires NoNul(s) && i <= |s|
    ensures ValueFrom(s, i, multi).Some? ==> NoNul(ValueFrom(s, i, multi).value.text)
    decreases |s| - i
  {
    if i >= |s| || s[i] == '/' {
    } else {
      var k := if s[i] == '\\' && i + 1 < |s| then 2 else 1;
      assert s[i + k - 1] in s;
      ValuePlain(s, i + k, multi);
    }
  }

  ghost predicate PlainElements(es: seq<Element>) {
    forall i :: 0 <= i < |es| ==> NoNul(es[i].kind) && NoNul(es[i].value)
  }

  lemma {:induction false} ElementsPlain(s: string, i: nat, joined: bool, multi: bool)
    requires NoNul(s) && i <= |s|
    ensures var es := Elements(s, i, joined, multi); es.Some? ==> PlainElements(es.value)
    decreases |s| - i
  {
    if Elements(s, i, joined, multi).None? || i == |s| {
    } else {
      TypePlain(s, i);
      var t := TypeFrom(s, i).value;
      ValuePlain(s, t.next, multi);
      var v := ValueFrom(s, t.next, multi).value;
      ElementsPlain(s, v.next, v.joined, multi);
    }
  }

  /** The library takes the values of the elements that are not skipped. */
  ghost predicate Accepted(e: Element, nid: string -> Option<int>, accepts: (int, string) -> bool) {
    nid(e.kind).Some? && e.value != "" ==> accepts(nid(e.kind).value, e.value)
  }

  ghost predicate AllAccepted(es: seq<Element>, nid: string -> Option<int>, accepts: (int, string) -> bool) {
    forall i :: 0 <= i < |es| ==> Accepted(es[i], nid, accepts)
  }

  ghost predicate AllTaken(entries: seq<NameEntry>, accepts: (int, string) -> bool) {
    forall i :: 0 <= i < |entries| ==> accepts(entries[i].nid, entries[i].value)
  }

  /** The library is asked about exactly the entries the name would get. */
  lemma {:induction false} AskedAboutEntries(
      es: seq<Element>, nid: string -> Option<int>, accepts: (int, string) -> bool)
    ensures AllAccepted(es, nid, accepts) <==> AllTaken(Entries(es, nid), accepts)
  {
    if es == [] {
    } else {
      var n := |es| - 1;
      var before, all := Entries(es[..n], nid), Entries(es, nid);
      AskedAboutEntries(es[..n], nid, accepts);
      UpToIsPrefix(es, n, nid);
      assert all == before + EntryOf(es[n], nid);
      assert es == es[..n] + [es[n]];
      if AllTaken(all, accepts) {
        forall i | 0 <= i < |before| ensures accepts(before[i].nid, before[i].value) { assert before[i] == all[i]; }
        if EntryOf(es[n], nid) != [] { assert all[|before|] == EntryOf(es[n], nid)[0]; }
      }
    }
  }

  /** The two C strings of one element. */
  method ReadElement(buf: array<char>, kindAt: nat, valueAt: nat, ghost e: Element)
    returns (kind: string, value: string)
    requires Stored(buf[..], kindAt, valueAt, e) && NoNul(e.kind) && NoNul(e.value)
    ensures kind == e.kind && value == e.value
  {
    CStringIs(buf[..], kindAt, e.kind);
    CStringIs(buf[..], valueAt, e.value);
    kind, value := CStringAt(buf[..], kindAt), CStringAt(buf[..], valueAt);
  }

  /** What one element adds to the name, if the library takes its value. */
  method CollectEntry(
      buf: array<char>, kindAt: nat, valueAt: nat, flag: int, nid: string -> Option<int>,
      accepts: (int, string) -> bool, ghost e: Element)
    returns (ok: bool, more: seq<NameEntry>)
    requires Stored(buf[..], kindAt, valueAt, e) && flag == Flag(e.joined) && NoNul(e.kind) && NoNul(e.value)
    ensures ok <==> Accepted(e, nid, accepts)
    ensures ok ==> more == EntryOf(e, nid)
  {
    var kind, value := ReadElement(buf, kindAt, valueAt, e);
    var n := nid(kind);
    if n.None? || value == "" { return true, []; }
    return accepts(n.value, value), [NameEntry(n.value, value, flag == -1)];
  }

  lemma OneStored(b: seq<char>, kinds: seq<nat>, values: seq<nat>, mval: seq<int>, es: seq<Element>, i: nat)
    requires AllStored(b, kinds, values, mval, es) && PlainElements(es) && i < |es|
    ensures Stored(b, kinds[i], values[i], es[i]) && mval[i] == Flag(es[i].joined)
    ensures NoNul(es[i].kind) && NoNul(es[i].value)
  {
  }

  ghost predicate AcceptedUpTo(es: seq<Element>, n: nat, nid: string -> Option<int>, accepts: (int, string) -> bool)
    requires n <= |es|
  {
    n == 0 || (AcceptedUpTo(es, n - 1, nid, accepts) && Accepted(es[n - 1], nid, accepts))
  }

  lemma {:induction false} AcceptedUpToIs(
      es: seq<Element>, n: nat, nid: string -> Option<int>, accepts: (int, string) -> bool)
    requires n <= |es|
    ensures AcceptedUpTo(es, n, nid, accepts) <==> forall i :: 0 <= i < n ==> Accepted(es[i], nid, accepts)
  {
    if n == 0 {
    } else {
      AcceptedUpToIs(es, n - 1, nid, accepts);
    }
  }

  /** The first `n` elements have been accepted and have added these entries. */
  ghost predicate Gathered(
    entries: seq<NameEntry>, es: seq<Element>, n: nat, nid: string -> Option<int>, accepts: (int, string) -> bool)
    requires n <= |es|
  {
    entries == EntriesUpTo(es, n, nid) && AcceptedUpTo(es, n, nid, accepts)
  }

  lemma GatheredNext(
      entries: seq<NameEntry>, more: seq<NameEntry>, es: seq<Element>, n: nat, nid: string -> Option<int>,
      accepts: (int, string) -> bool)
    requires n < |es| && Gathered(entries, es, n, nid, accepts)
    requires Accepted(es[n], nid, accepts) && more == EntryOf(es[n], nid)
    ensures Gathered(entries + more, es, n + 1, nid, accepts)
  {
  }

  /** The second loop of `parse_name`. */
  method Collect(
      buf: array<char>, kinds: array<nat>, values: array<nat>, mval: array<int>, num: nat, nid: string -> Option<int>,
      accepts: (int, string) -> bool, ghost es: seq<Element>) returns (name: Option<seq<NameEntry>>)
    requires num <= kinds.Length == values.Length == mval.Length
    requires AllStored(buf[..], kinds[..num], values[..num], mval[..num], es) && PlainElements(es)
    ensures name == if AllAccepted(es, nid, accepts) then Some(Entries(es, nid)) else None
  {
    var entries := [];
    var i := 0;
    while i < num
      invariant i <= num && Gathered(entries, es, i, nid, accepts)
    {
      var ok;
      ok, entries := CollectNext(buf, kinds, values, mval, num, i, nid, accepts, es, entries);
      if !ok { return None; }
      i := i + 1;
    }
    AcceptedUpToIs(es, num, nid, accepts);
    return Some(entries);
  }

  /** One turn of it. */
  method CollectNext(
      buf: array<char>, kinds: array<nat>, values: array<nat>, mval: array<int>, num: nat, i: nat,
      nid: string -> Option<int>, accepts: (int, string) -> bool, ghost es: seq<Element>, entries: seq<NameEntry>)
    returns (ok: bool, more: seq<NameEntry>)
    requires i < num <= kinds.Length == values.Length == mval.Length
    requires AllStored(buf[..], kinds[..num], values[..num], mval[..num], es) && PlainElements(es)
    requires Gathered(entries, es, i, nid, accepts)
    ensures !ok ==> !AllAccepted(es, nid, accepts)
    ensures ok ==> Gathered(more, es, i + 1, nid, accepts)
  {
    OneStored(buf[..], kinds[..num], values[..num], mval[..num], es, i);
    ok, more := CollectEntry(buf, kinds[i], values[i], mval[i], nid, accepts, es[i]);
    if ok { GatheredNext(entries, more, es, i, nid, accepts); }
    more := entries + more;
  }

  /** `parse_name`; the library may refuse a value. */
  method ParseName(subject: string, multi: bool, nid: string -> Option<int>, accepts: (int, string) -> bool)
    returns (name: Option<seq<NameEntry>>)
    requires NoNul(subject)
    ensures name == match Parsed(subject, multi)
      case None => None
      case Some(es) => if AllAccepted(es, nid, accepts) then Some(Entries(es, nid)) else None
  {
    var ok, buf, kinds, values, mval, num := Tokenize(subject, multi);
    if !ok { return None; }
    ElementsPlain(subject, 1, false, multi);
    name := Collect(buf, kinds, values, mval, num, nid, accepts, Parsed(subject, multi).value);
  }
}
