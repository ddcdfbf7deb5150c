/** The text form of a database: one line a row, fields separated by tabs, a tab inside a field escaped. */
module TxtDb {
  import opened CStrings
  import opened TextLines
  import opened Wrappers

  type Fields = seq<string>

  function Escape(f: string): string {
    if f == "" then "" else (if f[0] == '\t' then "\\" else "") + [f[0]] + Escape(f[1..])
  }

  /** The escaped fields with a tab between neighbours. */
  function Joined(row: Fields): string {
    if row == [] then "" else Escape(row[0]) + (if |row| == 1 then "" else "\t" + Joined(row[1..]))
  }

  function WriteRows(rows: seq<Fields>): string {
    if rows == [] then "" else Joined(rows[0]) + "\n" + WriteRows(rows[1..])
  }

  /** The fields of a line: `cur` is the field so far and `esc` says that its last character is a backslash. */
  function Split(s: string, cur: string, esc: bool): (r: Fields)
    requires esc ==> cur != ""
    ensures r != []
  {
    if s == "" then [cur]
    else if s[0] == '\t' && !esc then [cur] + Split(s[1..], "", false)
    else if s[0] == '\t' then Split(s[1..], cur[..|cur| - 1] + "\t", false)
    else Split(s[1..], cur + [s[0]], s[0] == '\\')
  }

  /** A line must have `n` fields; one more tab at its very end is let through. */
  function LineFields(line: string, n: nat): Option<Fields> {
    var f := Split(line, "", false);
    if |f| == n then Some(f)
    else if |f| == n + 1 && f[n] == "" then Some(f[..n])
    else None
  }

  /** The rows the lines hold; one bad line spoils them all. */
  function Rows(lines: seq<string>, n: nat): Option<seq<Fields>> {
    if lines == [] then Some([]) else Put(LineFields(lines[0], n), Rows(lines[1..], n))
  }

  function Put(row: Option<Fields>, more: Option<seq<Fields>>): Option<seq<Fields>> {
    if row.None? || more.None? then None else Some([row.value] + more.value)
  }

  /** The rows a text holds. */
  function ReadRows(text: string, n: nat): Option<seq<Fields>> {
    Rows(Lines(text), n)
  }

  lemma RowsStep(line: string, lines: seq<string>, n: nat)
    ensures Rows([line] + lines, n) == Put(LineFields(line, n), Rows(lines, n))
  {
    assert ([line] + lines)[1..] == lines;
  }

  ghost predicate EndsInBackslash(f: string) {
    f != "" && f[|f| - 1] == '\\'
  }

  /** The rows that survive being written and read. */
  ghost predicate Storable(row: Fields, n: nat) {
    && |row| == n
    && (forall i :: 0 <= i < n ==> '\n' !in row[i] && NoNul(row[i]))
    && (forall i :: 0 <= i < n - 1 ==> !EndsInBackslash(row[i]))
    && !(n > 0 && row[0] != "" && row[0][0] == '#')
  }

  ghost predicate AllStorable(rows: seq<Fields>, n: nat) {
    forall i :: 0 <= i < |rows| ==> Storable(rows[i], n)
  }

  lemma SplitTab(rest: string, cur: string, esc: bool)
    requires esc ==> cur != ""
    ensures Split("\\\t" + rest, cur, esc) == Split(rest, cur + "\t", false)
  {
    var s := "\\\t" + rest;
    assert s[1..] == "\t" + rest && ("\t" + rest)[1..] == rest;
    assert (cur + ['\\'])[..|cur|] == cur;
  }

  lemma SplitOther(c: char, rest: string, cur: string, esc: bool)
    requires c != '\t' && (esc ==> cur != "")
    ensures Split([c] + rest, cur, esc) == Split(rest, cur + [c], c == '\\')
  {
    assert ([c] + rest)[1..] == rest;
  }

  /** One character of a field, as the writer puts it. */
  lemma SplitOne(f: string, tail: string, cur: string, esc: bool)
    requires f != "" && (esc ==> cur != "")
    ensures Split(Escape(f) + tail, cur, esc) == Split(Escape(f[1..]) + tail, cur + [f[0]], f[0] == '\\')
  {
    var rest := Escape(f[1..]) + tail;
    if f[0] == '\t' {
      assert Escape(f) + tail == "\\\t" + rest;
      SplitTab(rest, cur, esc);
    } else {
      assert Escape(f) + tail == [f[0]] + rest;
      SplitOther(f[0], rest, cur, esc);
    }
  }

  /** Whether the last character of the field is a backslash, when there was one before it or not. */
  ghost predicate EscAfter(f: string, esc: bool) {
    if f == "" then esc else EndsInBackslash(f)
  }

  lemma {:induction false} SplitEscaped(f: string, tail: string, cur: string, esc: bool)
    requires esc ==> cur != ""
    ensures Split(Escape(f) + tail, cur, esc) == Split(tail, cur + f, EscAfter(f, esc))
    decreases |f|
  {
    if f == "" {
      assert Escape(f) + tail == tail && cur + f == cur;
    } else {
      SplitOne(f, tail, cur, esc);
      SplitEscaped(f[1..], tail, cur + [f[0]], f[0] == '\\');
      assert cur + [f[0]] + f[1..] == cur + f;
    }
  }

  /** The field is over, or its last character escapes the tab. */
  lemma SplitAtTab(rest: string, cur: string, esc: bool)
    requires esc ==> cur != ""
    ensures Split("\t" + rest, cur, esc) ==
      if esc then Split(rest, cur[..|cur| - 1] + "\t", false) else [cur] + Split(rest, "", false)
  {
    assert ("\t" + rest)[1..] == rest;
  }

  lemma {:induction false} SplitJoined(row: Fields)
    requires row != [] && forall i :: 0 <= i < |row| - 1 ==> !EndsInBackslash(row[i])
    ensures Split(Joined(row), "", false) == row
  {
    assert "" + row[0] == row[0] && row == [row[0]] + row[1..];
    if |row| == 1 {
      assert Joined(row) == Escape(row[0]) + "";
      SplitEscaped(row[0], "", "", false);
    } else {
      var rest := Joined(row[1..]);
      assert Joined(row) == Escape(row[0]) + ("\t" + rest);
      SplitEscaped(row[0], "\t" + rest, "", false);
      SplitAtTab(rest, row[0], false);
      SplitJoined(row[1..]);
    }
  }

  lemma {:induction false} EscapeKeeps(f: string, c: char)
    requires c in Escape(f) && c != '\\'
    ensures c in f
  {
    if f[0] == c {
    } else {
      assert c in Escape(f[1..]);
      EscapeKeeps(f[1..], c);
    }
  }

  lemma {:induction false} JoinedKeeps(row: Fields, c: char)
    requires c in Joined(row) && c != '\\' && c != '\t'
    ensures exists i :: 0 <= i < |row| && c in row[i]
  {
    if c in Escape(row[0]) {
      EscapeKeeps(row[0], c);
    } else {
      assert c in Joined(row[1..]);
      JoinedKeeps(row[1..], c);
      var i :| 0 <= i < |row| - 1 && c in row[1..][i];
      assert c in row[i + 1];
    }
  }

  lemma JoinedStart(row: Fields)
    requires row != [] && !(row[0] != "" && row[0][0] == '#')
    ensures !(Joined(row) != "" && Joined(row)[0] == '#')
  {
    if row[0] != "" { assert Joined(row)[0] == Escape(row[0])[0]; }
  }

  lemma {:induction false} ReadWritten(rows: seq<Fields>, size: nat, n: nat)
    requires n > 0 && AllStorable(rows, n) && BUFSIZE <= size
    ensures Rows(LinesFrom(WriteRows(rows), "", size), n) == Some(rows)
  {
    if rows == [] {
    } else {
      var row, more := rows[0], rows[1..];
      assert Storable(row, n);
      assert forall i :: 0 <= i < |more| ==> more[i] == rows[i + 1];
      var later := StorableRead(row, WriteRows(more), size, n);
      ReadWritten(more, later, n);
      assert [row] + more == rows;
    }
  }

  lemma StorableRead(row: Fields, more: string, size: nat, n: nat) returns (later: nat)
    requires n > 0 && Storable(row, n) && BUFSIZE <= size
    ensures BUFSIZE <= later
    ensures Rows(LinesFrom(Joined(row) + "\n" + more, "", size), n) ==
            Put(Some(row), Rows(LinesFrom(more, "", later), n))
  {
    var line := Joined(row);
    JoinedIsLine(row);
    StorableLine(row, n);
    later := LineRead(line, more, "", size);
    assert "" + line == line;
    RowsStep(line, LinesFrom(more, "", later), n);
  }

  lemma JoinedIsLine(row: Fields)
    requires row != [] && !(row[0] != "" && row[0][0] == '#')
    requires forall i :: 0 <= i < |row| ==> '\n' !in row[i] && NoNul(row[i])
    ensures '\n' !in Joined(row) && NoNul(Joined(row)) && !(Joined(row) != "" && Joined(row)[0] == '#')
  {
    JoinedStart(row);
    if '\n' in Joined(row) { JoinedKeeps(row, '\n'); }
    if NUL in Joined(row) { JoinedKeeps(row, NUL); }
  }

  lemma StorableLine(row: Fields, n: nat)
    requires n > 0 && Storable(row, n)
    ensures LineFields(Joined(row), n) == Some(row)
  {
    SplitJoined(row);
  }

  /** How many fields a line may have: as many as wanted, or one more if that is empty. */
  lemma WidthsAccepted(row: Fields, n: nat)
    requires row != [] && forall i :: 0 <= i < |row| - 1 ==> !EndsInBackslash(row[i])
    ensures LineFields(Joined(row), n).Some? <==> |row| == n || (|row| == n + 1 && row[n] == "")
    ensures LineFields(Joined(row), n).Some? ==> LineFields(Joined(row), n).value == row[..n]
  {
    SplitJoined(row);
  }

  lemma {:induction false} NoTabNoChange(f: string)
    requires '\t' !in f
    ensures Escape(f) == f
  {
    if f == "" {
    } else {
      NoTabNoChange(f[1..]);
      assert [f[0]] + f[1..] == f;
    }
  }

  /** What is written for a field: a tab gets a backslash, and everything else is left alone. */
  lemma {:induction false} TabIsEscaped(a: string, b: string)
    requires '\t' !in a
    ensures Escape(a + "\t" + b) == a + "\\\t" + Escape(b)
  {
    var s := a + "\t" + b;
    if a == "" {
      assert s[1..] == b;
    } else {
      TabIsEscaped(a[1..], b);
      assert s[1..] == a[1..] + "\t" + b && [a[0]] + a[1..] == a;
    }
  }

  lemma {:induction false} SplitClean(s: string, cur: string, esc: bool)
    requires esc <==> EndsInBackslash(cur)
    requires '\n' !in s && '\n' !in cur && NoNul(s) && NoNul(cur)
    ensures var r := Split(s, cur, esc);
      && (forall i :: 0 <= i < |r| ==> '\n' !in r[i] && NoNul(r[i]))
      && (forall i :: 0 <= i < |r| - 1 ==> !EndsInBackslash(r[i]))
      && (r[0] != "" && r[0][0] == '#' ==> if cur == "" then s != "" && s[0] == '#' else cur[0] == '#')
    decreases |s|
  {
    if s == "" {
    } else if s[0] == '\t' && !esc {
      assert forall x :: x in s[1..] ==> x in s;
      SplitClean(s[1..], "", false);
    } else if s[0] == '\t' {
      assert forall x :: x in s[1..] ==> x in s;
      SplitClean(s[1..], cur[..|cur| - 1] + "\t", false);
    } else {
      assert forall x :: x in s[1..] ==> x in s;
      assert s[0] in s;
      SplitClean(s[1..], cur + [s[0]], s[0] == '\\');
    }
  }

  lemma {:induction false} RowsStorable(lines: seq<string>, n: nat)
    requires n > 0 && AllPlain(lines)
    ensures Rows(lines, n).Some? ==> AllStorable(Rows(lines, n).value, n)
  {
    if lines == [] {
    } else {
      assert lines[0] in lines && forall line :: line in lines[1..] ==> line in lines;
      LineIsStorable(lines[0], n);
      RowsStorable(lines[1..], n);
    }
  }

  lemma LineIsStorable(line: string, n: nat)
    requires n > 0 && PlainStart(line)
    ensures LineFields(line, n).Some? ==> Storable(LineFields(line, n).value, n)
  {
    SplitClean(line, "", false);
  }

  /** Whatever the text, the rows read from it are storable. */
  lemma RowsReadAreStorable(text: string, n: nat)
    requires n > 0
    ensures ReadRows(text, n).Some? ==> AllStorable(ReadRows(text, n).value, n)
  {
    LinesFromPlain(text, "", BUFSIZE);
    RowsStorable(Lines(text), n);
  }

  /** Writing and reading back gives the same rows exactly when every row is storable. */
  lemma RoundTrip(rows: seq<Fields>, n: nat)
    requires n > 0
    ensures ReadRows(WriteRows(rows), n) == Some(rows) <==> AllStorable(rows, n)
  {
    RowsReadAreStorable(WriteRows(rows), n);
    if AllStorable(rows, n) { ReadWritten(rows, BUFSIZE, n); }
  }

  // ---- rows that are not storable ----

  /** Cutting a written line never makes more fields than the row has, and as many only if it is the row. */
  lemma {:induction false} SplitAtMost(row: Fields, cur: string, esc: bool)
    requires row != [] && (esc ==> cur != "")
    ensures var r := Split(Joined(row), cur, esc); |r| <= |row| && (cur == "" && |r| == |row| ==> r == row)
  {
    var now, e := cur + row[0], EscAfter(row[0], esc);
    assert row == [row[0]] + row[1..] && (cur == "" ==> now == row[0]);
    if |row| == 1 {
      assert Joined(row) == Escape(row[0]) + "";
      SplitEscaped(row[0], "", cur, esc);
    } else {
      var rest := Joined(row[1..]);
      assert Joined(row) == Escape(row[0]) + ("\t" + rest);
      SplitEscaped(row[0], "\t" + rest, cur, esc);
      SplitAtTab(rest, now, e);
      SplitAtMost(row[1..], if e then now[..|now| - 1] + "\t" else "", false);
    }
  }

  lemma {:induction false} BeforeOfSum(a: string, b: string, ch: char)
    ensures Before(a + b, ch) == if ch in a then Before(a, ch) else a + Before(b, ch)
  {
    if a == "" {
      assert a + b == b;
    } else {
      assert (a + b)[0] == a[0] && (a + b)[1..] == a[1..] + b;
      if a[0] != ch {
        BeforeOfSum(a[1..], b, ch);
        assert a == [a[0]] + a[1..];
        assert [a[0]] + (a[1..] + Before(b, ch)) == a + Before(b, ch);
      }
    }
  }

  lemma {:induction false} EscapeCut(f: string, c: char)
    requires c in f && c != '\\' && c != '\t'
    ensures c in Escape(f) && Before(Escape(f), c) == Escape(Before(f, c))
  {
    if f[0] == c {
    } else {
      EscapeCut(f[1..], c);
      var head := (if f[0] == '\t' then "\\" else "") + [f[0]];
      BeforeOfSum(head, Escape(f[1..]), c);
    }
  }

  /** A newline before the last field leaves too few fields on the line it ends. */
  lemma {:induction false} SplitBroken(row: Fields, cur: string, esc: bool)
    requires row != [] && (esc ==> cur != "") && '\n' in Joined(row) && '\n' !in row[|row| - 1]
    ensures |Split(Before(Joined(row), '\n'), cur, esc)| < |row|
  {
    NoneInJoined(row);
    if '\n' in row[0] {
      var g := Before(row[0], '\n');
      BrokenHere(row[0], "\t" + Joined(row[1..]));
      SplitEscaped(g, "", cur, esc);
    } else {
      var u, now, e := Before(Joined(row[1..]), '\n'), cur + row[0], EscAfter(row[0], esc);
      BrokenLater(row[0], Joined(row[1..]));
      SplitEscaped(row[0], "\t" + u, cur, esc);
      SplitAtTab(u, now, e);
      SplitBroken(row[1..], if e then now[..|now| - 1] + "\t" else "", false);
    }
  }

  lemma NoneInJoined(row: Fields)
    requires row != [] && '\n' in Joined(row) && '\n' !in row[|row| - 1]
    ensures |row| > 1 && Joined(row) == Escape(row[0]) + ("\t" + Joined(row[1..]))
    ensures '\n' !in row[0] ==> '\n' in Joined(row[1..])
  {
    if |row| == 1 {
      assert Joined(row) == Escape(row[0]);
      EscapeKeeps(row[0], '\n');
      assert false;
    }
    var rest := Joined(row[1..]);
    assert Joined(row) == Escape(row[0]) + ("\t" + rest);
    if '\n' !in row[0] { NewlineInRest(row[0], rest); }
  }

  lemma NewlineInRest(f: string, rest: string)
    requires '\n' !in f && '\n' in Escape(f) + ("\t" + rest)
    ensures '\n' in rest
  {
    if '\n' in Escape(f) { EscapeKeeps(f, '\n'); }
  }

  lemma BrokenHere(f: string, tail: string)
    requires '\n' in f
    ensures Before(Escape(f) + tail, '\n') == Escape(Before(f, '\n')) + ""
  {
    EscapeCut(f, '\n');
    BeforeOfSum(Escape(f), tail, '\n');
  }

  lemma BrokenLater(f: string, rest: string)
    requires '\n' !in f
    ensures Before(Escape(f) + ("\t" + rest), '\n') == Escape(f) + ("\t" + Before(rest, '\n'))
  {
    if '\n' in Escape(f) { EscapeKeeps(f, '\n'); }
    BeforeOfSum(Escape(f), "\t" + rest, '\n');
    BeforeOfSum("\t", rest, '\n');
  }

  /** C strings, the last on one line, that do not look like a comment. */
  ghost predicate OneLine(row: Fields, n: nat) {
    && |row| == n > 0 && (forall i :: 0 <= i < n ==> NoNul(row[i]))
    && '\n' !in row[n - 1] && !(row[0] != "" && row[0][0] == '#')
  }

  lemma JoinedHasNoNul(row: Fields, n: nat)
    requires OneLine(row, n)
    ensures NoNul(Joined(row))
  {
    if NUL in Joined(row) { JoinedKeeps(row, NUL); }
  }

  /** The first line of a written row reads as nothing or as the row. */
  lemma FirstLine(row: Fields, n: nat)
    requires OneLine(row, n)
    ensures var line := Before(Joined(row), '\n');
      && '\n' !in line && NoNul(line) && !(line != "" && line[0] == '#')
      && if '\n' in Joined(row) then LineFields(line, n) == None
         else line == Joined(row) && (LineFields(line, n) == None || LineFields(line, n) == Some(row))
  {
    var j := Joined(row);
    var line := Before(j, '\n');
    BeforeExcludes(j, '\n');
    BeforeIsPrefix(j, '\n');
    JoinedHasNoNul(row, n);
    JoinedStart(row);
    assert forall c :: c in line ==> c in j;
    if '\n' in j {
      SplitBroken(row, "", false);
    } else {
      BeforeWhole(j, '\n');
      SplitAtMost(row, "", false);
    }
  }

  lemma {:induction false} SavedReadsFrom(rows: seq<Fields>, size: nat, n: nat)
    requires n > 0 && BUFSIZE <= size && forall i :: 0 <= i < |rows| ==> OneLine(rows[i], n)
    ensures var r := Rows(LinesFrom(WriteRows(rows), "", size), n); r == None || r == Some(rows)
  {
    if rows == [] {
    } else {
      var row, more := rows[0], rows[1..];
      assert forall i :: 0 <= i < |more| ==> more[i] == rows[i + 1];
      var later := FirstRead(row, WriteRows(more), size, n);
      SavedReadsFrom(more, later, n);
      assert [row] + more == rows;
    }
  }

  /** The first written row is read back before the others, or the whole text is refused. */
  lemma FirstRead(row: Fields, more: string, size: nat, n: nat) returns (later: nat)
    requires OneLine(row, n) && BUFSIZE <= size
    ensures BUFSIZE <= later
    ensures var r := Rows(LinesFrom(Joined(row) + "\n" + more, "", size), n);
      r == None || r == Put(Some(row), Rows(LinesFrom(more, "", later), n))
  {
    FirstLine(row, n);
    var line, rest := Before(Joined(row), '\n'), more;
    if '\n' in Joined(row) {
      rest := LineAndRest(Joined(row), "\n" + more);
      assert Joined(row) + "\n" + more == Joined(row) + ("\n" + more);
    }
    later := LineRead(line, rest, "", size);
    assert "" + line == line;
    RowsStep(line, LinesFrom(rest, "", later), n);
  }

  lemma LineAndRest(s: string, t: string) returns (rest: string)
    requires '\n' in s
    ensures s + t == Before(s, '\n') + "\n" + rest
  {
    BeforeWithNone(s, '\n');
    AfterShorter(s, '\n');
    var line, after := Before(s, '\n'), After(s, '\n').value;
    rest := after + t;
    assert s + t == line + "\n" + after + t;
  }

  /** A saved database whose last column is on one line is never misread: it reads as the same rows, or not at all. */
  lemma NeverMisread(rows: seq<Fields>, n: nat)
    requires n > 0 && forall i :: 0 <= i < |rows| ==> OneLine(rows[i], n)
    ensures ReadRows(WriteRows(rows), n) == None || ReadRows(WriteRows(rows), n) == Some(rows)
  {
    SavedReadsFrom(rows, BUFSIZE, n);
  }

  /** A field that ends in a backslash swallows the separator after it, so this row does not come back. */
  lemma TrailingBackslashIsLost(row: Fields)
    requires row == ["a\\", "b"]
    ensures ReadRows(WriteRows([row]), 2) != Some([row])
  {
    assert EndsInBackslash(row[0]);
    assert !Storable([row][0], 2);
    RoundTrip([row], 2);
  }

  /** The fields as the writer first lays them out, every one followed by a tab. */
  ghost function TabTerminated(row: Fields): string {
    if row == [] then "" else Escape(row[0]) + "\t" + TabTerminated(row[1..])
  }

  lemma {:induction false} TabTerminatedIsJoined(row: Fields)
    requires row != []
    ensures TabTerminated(row) == Joined(row) + "\t"
  {
    if |row| == 1 {
      assert TabTerminated(row[1..]) == "";
    } else {
      TabTerminatedIsJoined(row[1..]);
      Associate(Escape(row[0]) + "\t", Joined(row[1..]), "\t");
      Associate(Escape(row[0]), "\t", Joined(row[1..]));
    }
  }

  method AppendEscaped(line: string, f: string) returns (r: string)
    ensures r == line + Escape(f)
  {
    r := line;
    var k := 0;
    while k < |f|
      invariant k <= |f| && r + Escape(f[k..]) == line + Escape(f)
    {
      if f[k] == '\t' { r := r + "\\"; }
      r := r + [f[k]];
      assert f[k..][1..] == f[k + 1..];
      k := k + 1;
    }
  }

  method WriteRow(row: Fields) returns (line: string)
    requires row != []
    ensures line == Joined(row) + "\n"
  {
    line := "";
    var j := 0;
    while j < |row|
      invariant j <= |row| && line + TabTerminated(row[j..]) == TabTerminated(row)
    {
      assert row[j..][1..] == row[j + 1..];
      Associate(line + Escape(row[j]), "\t", TabTerminated(row[j + 1..]));
      Associate(line, Escape(row[j]), "\t" + TabTerminated(row[j + 1..]));
      Associate(Escape(row[j]), "\t", TabTerminated(row[j + 1..]));
      line := AppendEscaped(line, row[j]);
      line := line + "\t";
      j := j + 1;
    }
    TabTerminatedIsJoined(row);
    assert line == Joined(row) + "\t";
    line := line[|line| - 1 := '\n'];
  }

  /** `TXT_DB_write`. */
  method Write(rows: seq<Fields>) returns (text: string)
    requires forall i :: 0 <= i < |rows| ==> rows[i] != []
    ensures text == WriteRows(rows)
  {
    text := "";
    var i := 0;
    while i < |rows|
      invariant i <= |rows| && text + WriteRows(rows[i..]) == WriteRows(rows)
    {
      var line := WriteRow(rows[i]);
      text := text + line;
      assert rows[i..][1..] == rows[i + 1..];
      i := i + 1;
    }
  }

  lemma {:induction false} SplitToEmpty(s: string, cur: string, esc: bool)
    requires esc ==> cur != ""
    requires s != "" || cur != ""
    ensures Split(s, cur, esc) != [""]
  {
    if s == "" {
    } else if s[0] == '\t' && !esc {
    } else if s[0] == '\t' {
      SplitToEmpty(s[1..], cur[..|cur| - 1] + "\t", false);
    } else {
      SplitToEmpty(s[1..], cur + [s[0]], s[0] == '\\');
    }
  }

  /** The loop that cuts one line into fields; it stops early at the separator after field `n`. */
  method ParseLine(line: string, n: nat) returns (r: Option<Fields>)
    requires n > 0
    ensures r == LineFields(line, n)
  {
    var fields, cur, esc, f := [], "", false, 0;
    while f < |line|
      invariant f <= |line| && |fields| < n && (esc ==> cur != "")
      invariant Split(line, "", false) == fields + Split(line[f..], cur, esc)
    {
      var c := line[f];
      assert line[f..][1..] == line[f + 1..];
      f := f + 1;
      if c == '\t' && !esc {
        fields, cur := fields + [cur], "";
        if |fields| == n {
          ghost var left := Split(line[f..], "", false);
          if line[f..] != "" { SplitToEmpty(line[f..], "", false); }
          assert Split(line, "", false) == fields + left;
          assert |left| == 1 && left[0] == "" ==> left == [""];
          assert fields == (fields + left)[..n];
          return if f == |line| then Some(fields) else None;
        }
      } else {
        if c == '\t' { cur := cur[..|cur| - 1]; }
        cur := cur + [c];
        esc := c == '\\';
      }
    }
    fields := fields + [cur];
    return if |fields| == n then Some(fields) else None;
  }

  ghost function Prepend(rows: seq<Fields>, more: Option<seq<Fields>>): (r: Option<seq<Fields>>)
    ensures rows == [] ==> r == more
  {
    if more.None? then None
    else
      assert [] + more.value == more.value;
      Some(rows + more.value)
  }

  /** `TXT_DB_read`, on any file. */
  method Read(text: string, n: nat) returns (r: Option<seq<Fields>>)
    requires n > 0
    ensures r == ReadRows(text, n)
  {
    var rows, rest, buf, size := [], text, "", BUFSIZE;
    while true
      invariant |buf| < size
      invariant ReadRows(text, n) == Prepend(rows, Rows(LinesFrom(rest, buf, size), n))
      decreases |rest|
    {
      var turn, len;
      turn, len, size := ReadPiece(rest, buf, size);
      ghost var left := rest[len..];
      match turn {
        case Stop =>
          assert rows + [] == rows;
          return Some(rows);
        case Skip => buf := "";
        case Grow(more) => buf := more;
        case Line(line) =>
          RowsStep(line, LinesFrom(left, "", size), n);
          var row := ParseLine(line, n);
          if row.None? { return None; }
          PrependPut(rows, row.value, Rows(LinesFrom(left, "", size), n));
          rows, buf := rows + [row.value], "";
      }
      rest := rest[len..];
    }
  }

  lemma PrependPut(rows: seq<Fields>, row: Fields, more: Option<seq<Fields>>)
    ensures Prepend(rows, Put(Some(row), more)) == Prepend(rows + [row], more)
  {
    if more.Some? { assert rows + ([row] + more.value) == rows + [row] + more.value; }
  }
}
