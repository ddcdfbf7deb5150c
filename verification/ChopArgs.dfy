/** Cutting a command line into arguments, in place. */
module ChopArgs {
  import opened CStrings
  import opened Wrappers

  predicate IsSpace(c: char) {
    c == ' ' || c == '\t' || c == '\n'
  }

  predicate IsQuote(c: char) {
    c == '\'' || c == '"'
  }

  ghost function Trimmed(s: string): string {
    if s != "" && IsSpace(s[0]) then Trimmed(s[1..]) else s
  }

  ghost function Word(s: string): string {
    if s == "" || IsSpace(s[0]) then "" else [s[0]] + Word(s[1..])
  }

  /** What follows the word and the one space that ends it. */
  ghost function AfterWord(s: string): string {
    if s == "" then "" else if IsSpace(s[0]) then s[1..] else AfterWord(s[1..])
  }

  ghost function Cons(t: string, more: Option<seq<string>>): Option<seq<string>> {
    if more.None? then None else Some([t] + more.value)
  }

  /** The arguments of a line: words, and quoted texts with either quote. `None` if a quote is not closed. */
  ghost function Tokens(line: string): Option<seq<string>>
    decreases |line|
  {
    var s := Trimmed(line);
    TrimShrinks(line);
    if s == "" then Some([])
    else if IsQuote(s[0]) then
      var rest := After(s[1..], s[0]);
      if rest.None? then None
      else
        AfterShrinks(s[1..], s[0]);
        Cons(Before(s[1..], s[0]), Tokens(rest.value))
    else
      AfterWordShrinks(s);
      Cons(Word(s), Tokens(AfterWord(s)))
  }

  lemma {:induction false} TrimShrinks(s: string)
    ensures |Trimmed(s)| <= |s| && (Trimmed(s) != "" ==> !IsSpace(Trimmed(s)[0]))
  {
    if s == "" || !IsSpace(s[0]) {
    } else {
      TrimShrinks(s[1..]);
    }
  }

  lemma {:induction false} AfterShrinks(s: string, ch: char)
    ensures After(s, ch).Some? ==> |After(s, ch).value| < |s|
  {
    if s == "" || s[0] == ch {
    } else {
      AfterShrinks(s[1..], ch);
    }
  }

  lemma {:induction false} AfterWordShrinks(s: string)
    ensures s != "" ==> |AfterWord(s)| < |s|
  {
    if s == "" || IsSpace(s[0]) {
    } else {
      AfterWordShrinks(s[1..]);
    }
  }

  // ---- which argument lists can be written, and how ----

  ghost predicate BareWord(t: string) {
    t != "" && !IsQuote(t[0]) && forall i :: 0 <= i < |t| ==> !IsSpace(t[i])
  }

  ghost predicate Writable(t: string) {
    '"' !in t || '\'' !in t || BareWord(t)
  }

  ghost function Quoted(t: string): string {
    if '"' !in t then "\"" + t + "\"" else if '\'' !in t then "'" + t + "'" else t
  }

  ghost function Line(tokens: seq<string>): string {
    if tokens == [] then "" else Quoted(tokens[0]) + " " + Line(tokens[1..])
  }

  lemma {:induction false} WordThenSpace(t: string, rest: string)
    requires forall i :: 0 <= i < |t| ==> !IsSpace(t[i])
    ensures Word(t + " " + rest) == t && AfterWord(t + " " + rest) == rest
  {
    var s := t + " " + rest;
    if t == "" {
      assert s[1..] == rest;
    } else {
      WordThenSpace(t[1..], rest);
      assert s[1..] == t[1..] + " " + rest;
    }
  }

  lemma {:induction false} QuoteClosed(q: char, t: string, rest: string)
    requires q !in t
    ensures Before(t + [q] + rest, q) == t && After(t + [q] + rest, q) == Some(rest)
  {
    var s := t + [q] + rest;
    assert s[..|t|] == t && s[|t| + 1..] == rest;
    BeforeAfterAt(s, q, |t|);
  }

  lemma TokensOfQuoted(q: char, t: string, rest: string)
    requires IsQuote(q) && q !in t
    ensures Tokens([q] + t + [q] + " " + rest) == Cons(t, Tokens(" " + rest))
  {
    var s := [q] + t + [q] + " " + rest;
    assert s[1..] == t + [q] + (" " + rest);
    QuoteClosed(q, t, " " + rest);
  }

  lemma TokensOfBare(t: string, rest: string)
    requires BareWord(t)
    ensures Tokens(t + " " + rest) == Cons(t, Tokens(rest))
  {
    WordThenSpace(t, rest);
    assert (t + " " + rest)[0] == t[0];
  }

  lemma SpaceSkipped(rest: string)
    ensures Tokens(" " + rest) == Tokens(rest)
  {
  }

  /** Writing a list of writable arguments and cutting the line gives the list back. */
  lemma {:induction false} CutWritten(tokens: seq<string>)
    requires forall i :: 0 <= i < |tokens| ==> Writable(tokens[i])
    ensures Tokens(Line(tokens)) == Some(tokens)
  {
    if tokens == [] {
    } else {
      assert Writable(tokens[0]);
      CutWritten(tokens[1..]);
      CutFirst(tokens[0], Line(tokens[1..]));
      assert [tokens[0]] + tokens[1..] == tokens;
    }
  }

  lemma CutFirst(t: string, rest: string)
    requires Writable(t)
    ensures Tokens(Quoted(t) + " " + rest) == Cons(t, Tokens(rest))
  {
    SpaceSkipped(rest);
    if '"' !in t {
      TokensOfQuoted('"', t, rest);
      assert Quoted(t) + " " + rest == ['"'] + t + ['"'] + " " + rest;
    } else if '\'' !in t {
      TokensOfQuoted('\'', t, rest);
      assert Quoted(t) + " " + rest == ['\''] + t + ['\''] + " " + rest;
    } else {
      TokensOfBare(t, rest);
    }
  }

  lemma {:induction false} WordIsBare(s: string)
    ensures forall i :: 0 <= i < |Word(s)| ==> !IsSpace(Word(s)[i])
    ensures s != "" && !IsSpace(s[0]) ==> Word(s) != "" && Word(s)[0] == s[0]
  {
    if s == "" || IsSpace(s[0]) {
    } else {
      WordIsBare(s[1..]);
    }
  }

  lemma {:induction false} TokensAreWritable(line: string)
    ensures Tokens(line).Some? ==> forall t :: t in Tokens(line).value ==> Writable(t)
    decreases |line|
  {
    var s := Trimmed(line);
    TrimShrinks(line);
    if s != "" && Tokens(line).Some? {
      if IsQuote(s[0]) {
        AfterShrinks(s[1..], s[0]);
        BeforeExcludes(s[1..], s[0]);
        TokensAreWritable(After(s[1..], s[0]).value);
      } else {
        AfterWordShrinks(s);
        WordIsBare(s);
        TokensAreWritable(AfterWord(s));
      }
    }
  }

  /** A list of arguments is the cutting of some line exactly when each lacks one of the quotes or can stand bare. */
  lemma WritableIff(tokens: seq<string>)
    ensures (exists line :: Tokens(line) == Some(tokens)) <==> forall i :: 0 <= i < |tokens| ==> Writable(tokens[i])
  {
    if forall i :: 0 <= i < |tokens| ==> Writable(tokens[i]) { CutWritten(tokens); }
    forall line | Tokens(line) == Some(tokens) ensures forall i :: 0 <= i < |tokens| ==> Writable(tokens[i]) {
      TokensAreWritable(line);
    }
  }

  // ---- what separates and what quotes ----

  ghost predicate Letters(s: string) {
    s != "" && forall i :: 0 <= i < |s| ==> 'a' <= s[i] <= 'z'
  }

  /** A line that starts with neither a separator nor a quote starts with a word. */
  lemma FirstWord(s: string, n: nat)
    requires 0 < n <= |s| && !IsSpace(s[0]) && !IsQuote(s[0])
    requires (forall i :: 0 <= i < n ==> !IsSpace(s[i])) && (n < |s| ==> IsSpace(s[n]))
    ensures Tokens(s) == Cons(s[..n], Tokens(if n < |s| then s[n + 1..] else ""))
  {
    WordAt(s, n);
    assert Trimmed(s) == s;
  }

  lemma OnlyWord(s: string)
    requires s != "" && !IsQuote(s[0]) && forall i :: 0 <= i < |s| ==> !IsSpace(s[i])
    ensures Tokens(s) == Some([s])
  {
    FirstWord(s, |s|);
    assert s[..|s|] == s && Tokens("") == Some([]) && [s] + [] == [s];
  }

  /** Between two words exactly a space, a tab and a newline separate; anything else makes them one word. */
  lemma SeparatorIff(a: string, ch: char, b: string)
    requires Letters(a) && Letters(b)
    ensures Tokens(a + [ch] + b) == Some(if ch in {' ', '\t', '\n'} then [a, b] else [a + [ch] + b])
  {
    var s := a + [ch] + b;
    assert s[0] == a[0] && s[|a|] == ch;
    if IsSpace(ch) {
      FirstWord(s, |a|);
      assert s[..|a|] == a && s[|a| + 1..] == b;
      OnlyWord(b);
      assert [a] + [b] == [a, b];
    } else {
      OnlyWord(s);
    }
  }

  /** Exactly the two quotes keep a space. */
  lemma QuoteIff(q: char)
    requires q !in {' ', '\t', '\n', 'a', 'b'}
    ensures Tokens([q] + "a b" + [q]) == Some(["a b"]) <==> q == '"' || q == '\''
  {
    var s := [q] + "a b" + [q];
    assert s[1..] == "a b" + [q] + "" && s[0] == q && Trimmed(s) == s;
    if IsQuote(q) {
      QuoteClosed(q, "a b", "");
      assert Tokens("") == Some([]) && ["a b"] + [] == ["a b"];
    } else {
      assert s[1] == 'a' && s[2] == ' ';
      FirstWord(s, 2);
      assert Tokens(s).Some? ==> |Tokens(s).value[0]| == 2;
    }
  }

  // ---- in place ----

  /** From offset `p` on the buffer still holds the rest of the line `s`. */
  ghost predicate Rest(b: seq<char>, p: nat, s: string) {
    p <= |s| < |b| && b[p..|s|] == s[p..] && b[|s|] == NUL && NoNul(s)
  }

  lemma RestAt(b: seq<char>, p: nat, s: string, k: nat)
    requires Rest(b, p, s) && p <= k <= |s|
    ensures Rest(b, k, s)
    ensures k < |s| ==> b[k] == s[k] && b[k] != NUL
  {
  }

  method SkipSpaces(buf: array<char>, p: nat, ghost s: string) returns (q: nat)
    requires Rest(buf[..], p, s)
    ensures p <= q <= |s| && Trimmed(s[p..]) == s[q..]
  {
    q := p;
    RestAt(buf[..], p, s, q);
    while buf[q] != NUL && IsSpace(buf[q])
      invariant p <= q <= |s| && Trimmed(s[p..]) == Trimmed(s[q..])
      decreases |s| - q
      invariant q < |s| ==> buf[q] == s[q] != NUL
      invariant q == |s| ==> buf[q] == NUL
    {
      assert s[q..][1..] == s[q + 1..];
      q := q + 1;
      RestAt(buf[..], p, s, q);
    }
  }

  /** Stops at the closing quote, or at the end of the line if there is none. */
  method ScanQuoted(buf: array<char>, p: nat, quote: char, ghost s: string) returns (e: nat)
    requires Rest(buf[..], p, s)
    ensures p <= e <= |s| && quote !in s[p..e]
    ensures e < |s| ==> s[e] == quote
  {
    e := p;
    RestAt(buf[..], p, s, e);
    while buf[e] != NUL && buf[e] != quote
      invariant p <= e <= |s| && quote !in s[p..e]
      decreases |s| - e
      invariant e < |s| ==> buf[e] == s[e] != NUL
      invariant e == |s| ==> buf[e] == NUL
    {
      assert s[p..e + 1] == s[p..e] + [s[e]];
      e := e + 1;
      RestAt(buf[..], p, s, e);
    }
  }

  lemma {:induction false} WordAt(s: string, n: nat)
    requires n <= |s| && (forall i :: 0 <= i < n ==> !IsSpace(s[i])) && (n < |s| ==> IsSpace(s[n]))
    ensures Word(s) == s[..n] && AfterWord(s) == if n < |s| then s[n + 1..] else ""
  {
    if n == 0 {
    } else {
      WordAt(s[1..], n - 1);
      assert s[..n] == [s[0]] + s[1..][..n - 1];
      if n < |s| { assert s[1..][n..] == s[n + 1..]; }
    }
  }

  method ScanWord(buf: array<char>, p: nat, ghost s: string) returns (e: nat)
    requires Rest(buf[..], p, s)
    ensures p <= e <= |s| && Word(s[p..]) == s[p..e] && AfterWord(s[p..]) == if e < |s| then s[e + 1..] else ""
  {
    e := p;
    RestAt(buf[..], p, s, e);
    while buf[e] != NUL && !IsSpace(buf[e])
      invariant p <= e <= |s| && forall i :: p <= i < e ==> !IsSpace(s[i])
      decreases |s| - e
      invariant e < |s| ==> buf[e] == s[e] != NUL
      invariant e == |s| ==> buf[e] == NUL
    {
      e := e + 1;
      RestAt(buf[..], p, s, e);
    }
    WordAt(s[p..], e - p);
    assert s[p..][..e - p] == s[p..e];
    if e < |s| { assert s[p..][e - p + 1..] == s[e + 1..]; }
  }

  const NULL := -1

  class Args {
    var data: array?<int>
    var count: nat

    predicate Sized()
      reads this
    {
      count > 0 ==> data != null && data.Length == count
    }

    constructor ()
      ensures count == 0 && data == null
    {
      data, count := null, 0;
    }

    /** Stores `at` in slot `num`, after growing by 20 if there is no such slot. All later slots are null. */
    method AddSlot(num: nat, at: nat)
      requires data != null && data.Length == count && num <= count && forall k :: num <= k < count ==> data[k] == NULL
      modifies this, data
      ensures data != null && data.Length == count && num < count && (data == old(data) || fresh(data))
      ensures data[..num] == old(data[..num]) && data[num] == at
      ensures forall k :: num < k < count ==> data[k] == NULL
    {
      if num >= count {
        var bigger := new int[count + 20];
        forall k | 0 <= k < count { bigger[k] := data[k]; }
        forall k | num <= k < count + 20 { bigger[k] := NULL; }
        data, count := bigger, count + 20;
      }
      data[num] := at;
    }

    method Reset()
      requires Sized()
      modifies this, data
      ensures data != null && data.Length == count > 0 && (data == old(data) || fresh(data))
      ensures forall k :: 0 <= k < count ==> data[k] == NULL
    {
      if count == 0 {
        count := 20;
        data := new int[20];
      }
      forall k | 0 <= k < count { data[k] := NULL; }
    }
  }

  /** The slots are the offsets `at`, and the buffer holds the tokens there, before `p` unless the line is used up. */
  ghost predicate Cutting(b: seq<char>, p: nat, s: string, at: seq<int>, tokens: seq<string>) {
    && Rest(b, p, s) && |at| == |tokens|
    && forall k :: 0 <= k < |at| ==>
      0 <= at[k] && HoldsAt(b, at[k], tokens[k]) && NoNul(tokens[k]) && (at[k] + |tokens[k]| < p || p == |s|)
  }

  /** Ending a token with a NUL at `e` keeps the earlier ones. */
  lemma CutKeeps(b: seq<char>, p: nat, s: string, at: seq<int>, tokens: seq<string>, from: nat, e: nat)
    requires Cutting(b, p, s, at, tokens) && p <= from <= e <= |s| && p < |s|
    ensures var c := b[e := NUL]; var q := if e < |s| then e + 1 else e;
      Cutting(c, q, s, at + [from], tokens + [s[from..e]])
  {
    var c, q := b[e := NUL], if e < |s| then e + 1 else e;
    RestAt(b, p, s, q);
    RestAt(b, p, s, from);
    assert c[q..|s|] == b[q..|s|];
    assert c[from..e] == b[from..|s|][..e - from] == s[from..][..e - from] == s[from..e];
    assert forall x :: x in s[from..e] ==> x in s;
    forall k | 0 <= k < |at| ensures HoldsAt(c, at[k], tokens[k]) && at[k] + |tokens[k]| < q {
      assert c[at[k]..at[k] + |tokens[k]|] == b[at[k]..at[k] + |tokens[k]|];
    }
  }

  ghost function Ahead(tokens: seq<string>, more: Option<seq<string>>): Option<seq<string>> {
    if more.None? then None else Some(tokens + more.value)
  }

  lemma AheadCons(tokens: seq<string>, t: string, more: Option<seq<string>>)
    ensures Ahead(tokens, Cons(t, more)) == Ahead(tokens + [t], more)
  {
    if more.Some? { assert tokens + ([t] + more.value) == tokens + [t] + more.value; }
  }

  lemma TokensBlank(s: string)
    ensures Trimmed(s) == "" ==> Tokens(s) == Some([])
    ensures Tokens("") == Some([])
  {
  }

  lemma QuotedStep(line: string, s: string, p: nat, e: nat)
    requires p < e <= |s| && Trimmed(line) == s[p..]
    requires IsQuote(s[p]) && s[p] !in s[p + 1..e] && (e < |s| ==> s[e] == s[p])
    ensures Tokens(line) == if e < |s| then Cons(s[p + 1..e], Tokens(s[e + 1..])) else None
  {
    var body := s[p..][1..];
    assert body == s[p + 1..] && body[..e - p - 1] == s[p + 1..e];
    BeforeAfterAt(body, s[p], e - p - 1);
    if e < |s| { assert body[e - p..] == s[e + 1..]; }
  }

  lemma WordStep(line: string, s: string, p: nat, e: nat)
    requires p < e <= |s| && Trimmed(line) == s[p..] && !IsQuote(s[p]) && Word(s[p..]) == s[p..e]
    requires AfterWord(s[p..]) == if e < |s| then s[e + 1..] else ""
    ensures Tokens(line) == Cons(s[p..e], Tokens(if e < |s| then s[e + 1..] else ""))
  {
  }

  /** Ends the quoted token that starts after `a`, and says where to go on. */
  method EndQuoted(buf: array<char>, p: nat, a: nat, ghost s: string, ghost at: seq<int>, ghost tokens: seq<string>)
    returns (overrun: bool, next: nat, ghost token: string)
    requires Cutting(buf[..], p, s, at, tokens)
    requires p <= a < |s| && Trimmed(s[p..]) == s[a..] && IsQuote(s[a])
    modifies buf
    ensures overrun ==> Tokens(s[p..]) == None
    ensures !overrun ==> p < next <= |s| && Tokens(s[p..]) == Cons(token, Tokens(s[next..]))
    ensures !overrun ==> Cutting(buf[..], next, s, at + [a + 1], tokens + [token])
  {
    RestAt(buf[..], p, s, a);
    var e := FindClosing(buf, p, a, s);
    if buf[e] == NUL { return true, e, ""; }
    CutKeeps(buf[..], p, s, at, tokens, a + 1, e);
    buf[e] := NUL;
    return false, e + 1, s[a + 1..e];
  }

  /** From the opening quote to the closing one, or to the end of the line. */
  method FindClosing(buf: array<char>, p: nat, a: nat, ghost s: string) returns (e: nat)
    requires Rest(buf[..], p, s) && p <= a < |s| && Trimmed(s[p..]) == s[a..] && IsQuote(s[a])
    ensures a < e <= |s| && (buf[e] == NUL <==> e == |s|)
    ensures Tokens(s[p..]) == if e < |s| then Cons(s[a + 1..e], Tokens(s[e + 1..])) else None
  {
    RestAt(buf[..], p, s, a);
    RestAt(buf[..], p, s, a + 1);
    e := ScanQuoted(buf, a + 1, buf[a], s);
    QuotedStep(s[p..], s, a, e);
    RestAt(buf[..], p, s, e);
  }

  /** Ends the bare token that starts at `a`. */
  method EndWord(buf: array<char>, p: nat, a: nat, ghost s: string, ghost at: seq<int>, ghost tokens: seq<string>)
    returns (next: nat, ghost token: string)
    requires Cutting(buf[..], p, s, at, tokens)
    requires p <= a < |s| && Trimmed(s[p..]) == s[a..] && !IsSpace(s[a]) && !IsQuote(s[a])
    modifies buf
    ensures p < next <= |s| && Tokens(s[p..]) == Cons(token, Tokens(s[next..]))
    ensures Cutting(buf[..], next, s, at + [a], tokens + [token])
  {
    RestAt(buf[..], p, s, a);
    var e := ScanWord(buf, a, s);
    WordIsBare(s[a..]);
    WordStep(s[p..], s, a, e);
    RestAt(buf[..], p, s, e);
    CutKeeps(buf[..], p, s, at, tokens, a, e);
    if buf[e] == NUL {
      assert buf[..][e := NUL] == buf[..] && s[e..] == "";
      return e, s[a..e];
    }
    buf[e] := NUL;
    return e + 1, s[a..e];
  }

  /** The loop of `chopup_args`. */
  method CutAll(args: Args, buf: array<char>, ghost s: string)
    returns (overrun: bool, num: nat, ghost p: nat, ghost at: seq<int>, ghost tokens: seq<string>)
    requires args.data != null && args.data.Length == args.count
    requires forall k :: 0 <= k < args.count ==> args.data[k] == NULL
    requires Holds(buf[..], s)
    modifies args, args.data, buf
    ensures args.data != null && args.data.Length == args.count && (args.data == old(args.data) || fresh(args.data))
    ensures overrun ==> Tokens(s) == None
    ensures !overrun ==> Tokens(s) == Some(tokens) && Cutting(buf[..], p, s, at, tokens)
    ensures !overrun ==> num == |at| <= args.count && args.data[..num] == at
    ensures !overrun ==> forall k :: num <= k < args.count ==> args.data[k] == NULL
  {
    var q := 0;
    num, tokens, at, p := 0, [], [], 0;
    assert s[0..] == s && Rest(buf[..], 0, s);
    AheadNothing(Tokens(s));
    while true
      invariant args.data != null && args.data.Length == args.count && (args.data == old(args.data) || fresh(args.data))
      invariant num == |at| <= args.count && args.data[..num] == at
      invariant forall k :: num <= k < args.count ==> args.data[k] == NULL
      invariant Cutting(buf[..], q, s, at, tokens)
      invariant Tokens(s) == Ahead(tokens, Tokens(s[q..]))
      decreases |s| - q
    {
      RestAt(buf[..], q, s, q);
      TokensBlank(s[q..]);
      if buf[q] == NUL { break; }
      var a := SkipSpaces(buf, q, s);
      RestAt(buf[..], q, s, a);
      TrimShrinks(s[q..]);
      if buf[a] == NUL { break; }
      var start, next := if IsQuote(buf[a]) then a + 1 else a, 0;
      args.AddSlot(num, start);
      SlotAdded(args.data, num, at);
      ghost var token;
      if IsQuote(buf[a]) {
        overrun, next, token := EndQuoted(buf, q, a, s, at, tokens);
        if overrun { return; }
      } else {
        next, token := EndWord(buf, q, a, s, at, tokens);
      }
      AheadCons(tokens, token, Tokens(s[next..]));
      at, tokens := at + [start], tokens + [token];
      q, num := next, num + 1;
    }
    assert tokens + [] == tokens;
    overrun, p := false, q;
  }

  lemma SlotAdded(a: array<int>, n: nat, was: seq<int>)
    requires n < a.Length && a[..n] == was
    ensures a[..n + 1] == was + [a[n]]
  {
  }

  lemma AheadNothing(more: Option<seq<string>>)
    ensures Ahead([], more) == more
  {
    if more.Some? { assert [] + more.value == more.value; }
  }

  lemma SlotsRead(data: seq<int>, b: seq<char>, p: nat, s: string, num: nat, tokens: seq<string>)
    requires num <= |data| && Cutting(b, p, s, data[..num], tokens)
    ensures forall k :: 0 <= k < num ==> data[k] >= 0 && CStringAt(b, data[k]) == tokens[k]
  {
    forall k | 0 <= k < num ensures data[k] >= 0 && CStringAt(b, data[k]) == tokens[k] {
      assert data[..num][k] == data[k];
      CStringIs(b, data[k], tokens[k]);
    }
  }

  /**
   * `chopup_args`. A quote that is not closed makes the code step over the terminator of the buffer: `overrun`.
   * Otherwise the C string at each slot is the token of the line, and the slots after them are null.
   */
  method Chopup(args: Args, buf: array<char>, ghost s: string) returns (overrun: bool, argc: nat)
    requires args.Sized() && Holds(buf[..], s)
    modifies args, args.data, buf
    ensures args.data != null && args.data.Length == args.count
    ensures overrun <==> Tokens(s).None?
    ensures !overrun ==> var tokens := Tokens(s).value;
      && argc == |tokens| <= args.count
      && (forall k :: 0 <= k < argc ==> args.data[k] >= 0 && CStringAt(buf[..], args.data[k]) == tokens[k])
      && (forall k :: argc <= k < args.count ==> args.data[k] == NULL)
  {
    args.Reset();
    ghost var p, at, tokens;
    overrun, argc, p, at, tokens := CutAll(args, buf, s);
    if !overrun { SlotsRead(args.data[..], buf[..], p, s, argc, tokens); }
  }
}
