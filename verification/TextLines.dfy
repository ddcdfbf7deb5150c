/** The lines of a file as `TXT_DB_read` gathers them, piece by piece, in a buffer that grows. */
module TextLines {
  import opened CStrings

  const BUFSIZE := 512

  /** How much one `fgets` takes that has room for `cap` characters: a line with its newline, as far as it fits. */
  function ChunkLen(text: string, cap: nat): (len: nat)
    ensures len <= |text| && len <= cap
  {
    var p := FirstAt(text, '\n');
    var len := if p < |text| then p + 1 else p;
    if cap < len then cap else len
  }

  /** What of the first `len` characters can be seen in the buffer: those before the first NUL. */
  function Seen(text: string, len: nat): (seen: string)
    requires len <= |text|
    ensures |seen| <= len
  {
    var p := FirstAt(text, NUL);
    if p < len then text[..p] else text[..len]
  }

  /** What becomes of the buffer when `seen` is read behind `buf`. */
  datatype Turn = Stop | Skip | Grow(buf: string) | Line(line: string)

  function TurnOf(buf: string, seen: string): Turn {
    if seen == "" then Stop
    else if buf == "" && seen[0] == '#' then Skip
    else
      var more := buf + seen;
      if more[|more| - 1] == '\n' then Line(more[..|more| - 1]) else Grow(more)
  }

  /** The size of the buffer: it has grown by a step if there is something in it. */
  function Enlarged(buf: string, size: nat): nat {
    if buf == "" then size else size + BUFSIZE
  }

  /**
   * The lines still to be read, with `buf` in the buffer of `size` characters. What follows a NUL is not seen, nothing
   * seen ends the reading, and a piece that starts with `#` is skipped if it is the first of its line. A last line
   * without a newline is dropped.
   */
  function LinesFrom(text: string, buf: string, size: nat): seq<string>
    requires |buf| < size
    decreases |text|, 1
  {
    var bigger := Enlarged(buf, size);
    var len := ChunkLen(text, bigger - |buf| - 1);
    LinesAfter(text, len, TurnOf(buf, Seen(text, len)), bigger)
  }

  /** The same once a turn has taken the first `len` characters. */
  function LinesAfter(text: string, len: nat, turn: Turn, size: nat): seq<string>
    requires len <= |text| && 0 < size && (turn.Grow? ==> |turn.buf| < size) && (turn != Stop ==> 0 < len)
    decreases |text|, 0
  {
    match turn
    case Stop => []
    case Skip => LinesFrom(text[len..], "", size)
    case Grow(buf) => LinesFrom(text[len..], buf, size)
    case Line(line) => [line] + LinesFrom(text[len..], "", size)
  }

  function Lines(text: string): seq<string> {
    LinesFrom(text, "", BUFSIZE)
  }

  /** One turn of the reading loop. */
  lemma OneTurn(text: string, buf: string, size: nat, bigger: nat, len: nat, turn: Turn)
    requires |buf| < size && bigger == Enlarged(buf, size) && len == ChunkLen(text, bigger - |buf| - 1)
    requires turn == TurnOf(buf, Seen(text, len))
    ensures (turn.Grow? ==> |turn.buf| < bigger) && (turn != Stop ==> 0 < len)
    ensures LinesFrom(text, buf, size) == LinesAfter(text, len, turn, bigger)
  {
  }

  // ---- lines that are not comments are read as they are ----

  lemma NothingBefore(line: string, ch: char, text: string)
    requires ch !in line && line <= text
    ensures FirstAt(text, ch) >= |line|
  {
    assert forall k :: 0 <= k < |line| ==> text[k] == line[k] && line[k] in line;
    FirstIsLater(text, ch, 0, |line|);
  }

  lemma FirstNewline(line: string, rest: string)
    requires '\n' !in line
    ensures FirstAt(line + "\n" + rest, '\n') == |line|
  {
    var text := line + "\n" + rest;
    assert forall k :: 0 <= k < |line| ==> text[k] == line[k] && line[k] in line;
    FirstAtIs(text, '\n', 0, |line|);
  }

  /** A line, or what is left of it, that has no NUL and is not taken for a comment. */
  ghost predicate PlainRest(line: string, buf: string) {
    '\n' !in line && NoNul(line) && (buf == "" ==> !(line != "" && line[0] == '#'))
  }

  lemma LastPiece(line: string, rest: string, buf: string, cap: nat)
    requires PlainRest(line, buf) && |line| < cap
    ensures var text, len := line + "\n" + rest, |line| + 1;
      ChunkLen(text, cap) == len && TurnOf(buf, Seen(text, len)) == Line(buf + line) && text[len..] == rest
  {
    var text, len := line + "\n" + rest, |line| + 1;
    assert text[..len] == line + "\n" && text[len..] == rest;
    FirstNewline(line, rest);
    NothingBefore(line + "\n", NUL, text);
    var more := buf + (line + "\n");
    assert more[..|more| - 1] == buf + line;
  }

  lemma MiddlePiece(line: string, rest: string, buf: string, cap: nat) returns (more: string)
    requires PlainRest(line, buf) && 0 < cap <= |line|
    ensures more == buf + line[..cap] && more + line[cap..] == buf + line && more != "" && PlainRest(line[cap..], more)
    ensures var text := line + "\n" + rest;
      && ChunkLen(text, cap) == cap && TurnOf(buf, Seen(text, cap)) == Grow(more)
      && text[cap..] == line[cap..] + "\n" + rest
  {
    var text := line + "\n" + rest;
    more := buf + line[..cap];
    assert text[..cap] == line[..cap] && text[cap..] == line[cap..] + "\n" + rest;
    FirstNewline(line, rest);
    NothingBefore(line, NUL, text);
    assert more[|more| - 1] == line[cap - 1] && line[cap - 1] in line;
    assert line == line[..cap] + line[cap..];
  }

  /** A line is read completely, however often the buffer has to grow for it. */
  lemma {:induction false} LineRead(line: string, rest: string, buf: string, size: nat) returns (later: nat)
    requires PlainRest(line, buf) && |buf| < size && BUFSIZE <= size
    ensures BUFSIZE <= later && LinesFrom(line + "\n" + rest, buf, size) == [buf + line] + LinesFrom(rest, "", later)
    decreases |line|
  {
    later := Enlarged(buf, size);
    var text, cap := line + "\n" + rest, later - |buf| - 1;
    if |line| < cap {
      LastPiece(line, rest, buf, cap);
      OneTurn(text, buf, size, later, |line| + 1, Line(buf + line));
    } else {
      var more := MiddlePiece(line, rest, buf, cap);
      OneTurn(text, buf, size, later, cap, Grow(more));
      later := LineRead(line[cap..], rest, more, later);
    }
  }

  /** A comment is skipped as far as it fits the buffer; the rest of a longer one is read as if it were a line. */
  lemma CommentIsCut(line: string, rest: string)
    requires '\n' !in line && NoNul(line) && line != "" && line[0] == '#'
    ensures var room := 511;
      Lines(line + "\n" + rest) == if |line| < room then Lines(rest) else Lines(line[room..] + "\n" + rest)
  {
    var text, room := line + "\n" + rest, BUFSIZE - 1;
    var len := ChunkLen(text, room);
    FirstNewline(line, rest);
    NothingBefore(line + "\n", NUL, text);
    if |line| < room {
      assert text[len..] == rest;
    } else {
      assert text[len..] == line[room..] + "\n" + rest;
    }
    OneTurn(text, "", BUFSIZE, BUFSIZE, len, Skip);
  }

  // ---- whatever the text, lines are plain ----

  /** What the buffer can hold between two pieces of a line. */
  ghost predicate PlainStart(buf: string) {
    NoNul(buf) && '\n' !in buf && !(buf != "" && buf[0] == '#')
  }

  ghost predicate AllPlain(lines: seq<string>) {
    forall line :: line in lines ==> PlainStart(line)
  }

  /** A piece that is not skipped leaves a plain start in the buffer or completes a plain line. */
  lemma TurnIsPlain(text: string, cap: nat, buf: string)
    requires PlainStart(buf)
    ensures var t := TurnOf(buf, Seen(text, ChunkLen(text, cap)));
      (t.Grow? ==> PlainStart(t.buf)) && (t.Line? ==> PlainStart(t.line))
  {
    var seen := Seen(text, ChunkLen(text, cap));
    NoneBeforeFirst(text, NUL, 0);
    NoneBeforeFirst(text, '\n', 0);
    assert forall i :: 0 <= i < |seen| ==> seen[i] == text[i] != NUL;
    assert forall i :: 0 <= i < |seen| - 1 ==> seen[i] != '\n';
    if seen != "" {
      var init := seen[..|seen| - 1];
      assert '\n' !in init && NoNul(init);
      assert seen == init + [seen[|seen| - 1]];
      assert (buf + seen)[..|buf + seen| - 1] == buf + init;
    }
  }

  lemma {:induction false} LinesFromPlain(text: string, buf: string, size: nat)
    requires |buf| < size && PlainStart(buf)
    ensures AllPlain(LinesFrom(text, buf, size))
    decreases |text|
  {
    var bigger := Enlarged(buf, size);
    var len := ChunkLen(text, bigger - |buf| - 1);
    var turn := TurnOf(buf, Seen(text, len));
    TurnIsPlain(text, bigger - |buf| - 1, buf);
    OneTurn(text, buf, size, bigger, len, turn);
    match turn
    case Stop =>
    case Skip => LinesFromPlain(text[len..], "", bigger);
    case Grow(more) => LinesFromPlain(text[len..], more, bigger);
    case Line(line) =>
      LinesFromPlain(text[len..], "", bigger);
      PlainMore(line, LinesFrom(text[len..], "", bigger));
  }

  lemma PlainMore(line: string, lines: seq<string>)
    requires PlainStart(line) && AllPlain(lines)
    ensures AllPlain([line] + lines)
  {
  }

  /** The upper half of the reading loop: the buffer grows if a line is under way, and takes one piece more. */
  method ReadPiece(text: string, buf: string, size: nat) returns (turn: Turn, len: nat, bigger: nat)
    requires |buf| < size
    ensures len <= |text| && size <= bigger && (turn.Grow? ==> |turn.buf| < bigger) && (turn != Stop ==> 0 < len)
    ensures LinesFrom(text, buf, size) == LinesAfter(text, len, turn, bigger)
  {
    bigger := if buf == "" then size else size + BUFSIZE;
    len := ChunkLen(text, bigger - |buf| - 1);
    turn := TurnOf(buf, Seen(text, len));
    OneTurn(text, buf, size, bigger, len, turn);
  }
}
