/** The revocation column of the database: built by `ca -revoke`, taken apart by `ca` and the OCSP responder. */
module RevInfo {
  import opened CStrings
  import opened Wrappers

  /** The library's verdicts on the text of a UTCTime, of a GeneralizedTime and of an object identifier. */
  datatype Checks = Checks(utcTime: string -> bool, generalizedTime: string -> bool, oid: string -> bool)

  datatype RevType = NoReason | CrlReason | Hold | KeyCompromise | CaCompromise

  /** What the revocation column says: the time, a CRL reason code (-1 for none), and the optional extra argument. */
  datatype Info = Info(time: string, reason: int, hold: Option<string>, invalidity: Option<string>)

  const REASONS: seq<string> := [
    "unspecified", "keyCompromise", "CACompromise", "affiliationChanged", "superseded",
    "cessationOfOperation", "certificateHold", "removeFromCRL",
    "holdInstruction", "keyTime", "CAkeyTime"]

  const NO_STATUS := -1
  const CERTIFICATE_HOLD := 6
  const REMOVE_FROM_CRL := 8

  /** The first of the first `n` reasons, counted from `from`, that equals `s` up to case. */
  function FindReason(s: string, n: nat, from: nat := 0): (r: Option<nat>)
    requires n <= |REASONS|
    ensures r.Some? ==> from <= r.value < n && CaseEqual(s, REASONS[r.value])
    ensures r.Some? ==> forall i :: from <= i < r.value ==> !CaseEqual(s, REASONS[i])
    ensures r.None? ==> forall i :: from <= i < n ==> !CaseEqual(s, REASONS[i])
    decreases n - from
  {
    if from >= n then None
    else if CaseEqual(s, REASONS[from]) then Some(from)
    else FindReason(s, n, from + 1)
  }

  /** The reason (as a position in `REASONS`) and extra argument to be stored. */
  datatype Words = Words(reason: Option<nat>, extra: Option<string>)

  /** What a request to revoke asks to store; `None` if its argument is refused. */
  function Requested(c: Checks, kind: RevType, arg: string): (w: Option<Words>)
    ensures w.Some? && w.value.reason.Some? ==> w.value.reason.value < |REASONS|
  {
    match kind
    case NoReason => Some(Words(None, None))
    case CrlReason => (var r := FindReason(arg, 8); if r.None? then None else Some(Words(r, None)))
    case Hold => if c.oid(arg) then Some(Words(Some(8), Some(arg))) else None
    case KeyCompromise => if c.generalizedTime(arg) then Some(Words(Some(9), Some(arg))) else None
    case CaCompromise => if c.generalizedTime(arg) then Some(Words(Some(10), Some(arg))) else None
  }

  function Suffix(w: Option<string>): string {
    if w.None? then "" else "," + w.value
  }

  function ReasonWord(i: Option<nat>): Option<string>
    requires i.Some? ==> i.value < |REASONS|
  {
    if i.None? then None else Some(REASONS[i.value])
  }

  /** The text stored for a revocation at time `now`. */
  function RevocationText(c: Checks, kind: RevType, arg: string, now: string): Option<string> {
    var w := Requested(c, kind, arg);
    if w.None? then None else Some(now + Suffix(ReasonWord(w.value.reason)) + Suffix(w.value.extra))
  }

  /** What the reason at position `code` of the table means, with what follows it. */
  function FromCode(c: Checks, time: string, code: nat, arg: Option<string>): Option<Info> {
    if code == 7 then Some(Info(time, REMOVE_FROM_CRL, None, None))
    else if code == 8 then
      if arg.Some? && c.oid(arg.value) then Some(Info(time, CERTIFICATE_HOLD, arg, None)) else None
    else if code == 9 || code == 10 then
      if arg.Some? && c.generalizedTime(arg.value) then Some(Info(time, code - 8, None, arg)) else None
    else Some(Info(time, code, None, None))
  }

  /** What a revocation column means: the text up to the first comma, up to the second, and the rest. */
  function Unpack(c: Checks, s: string): Option<Info> {
    var time := Before(s, ',');
    if !c.utcTime(time) then None
    else if After(s, ',').None? then Some(Info(time, NO_STATUS, None, None))
    else
      var rest := After(s, ',').value;
      var arg := After(rest, ',');
      match FindReason(Before(rest, ','), |REASONS|)
      case None => None
      case Some(code) => FromCode(c, time, code, arg)
  }

  /**
   * What the caller finds after unpacking, successful or not: nothing of use if the time is refused, and only the time
   * if something after it is.
   */
  function Left(c: Checks, s: string): Option<Info> {
    var time, info := Before(s, ','), Unpack(c, s);
    if !c.utcTime(time) then None else if info.None? then Some(Info(time, NO_STATUS, None, None)) else info
  }

  /** `make_revoked`: 0 if the column is refused, 2 if it carries a reason, 1 otherwise. */
  function MakeRevoked(c: Checks, s: string): nat {
    match Unpack(c, s)
    case None => 0
    case Some(info) => if info.reason != NO_STATUS then 2 else 1
  }

  // ---- what is meant ----

  /** The reason codes of section 5.3.1 of RFC 5280, by their words. */
  ghost function CodeOf(word: string): Option<int> {
    if CaseEqual(word, "unspecified") then Some(0)
    else if CaseEqual(word, "keyCompromise") then Some(1)
    else if CaseEqual(word, "CACompromise") then Some(2)
    else if CaseEqual(word, "affiliationChanged") then Some(3)
    else if CaseEqual(word, "superseded") then Some(4)
    else if CaseEqual(word, "cessationOfOperation") then Some(5)
    else if CaseEqual(word, "certificateHold") then Some(6)
    else if CaseEqual(word, "removeFromCRL") then Some(8)
    else None
  }

  /** What the requester of a revocation meant. */
  ghost function Meant(kind: RevType, arg: string, now: string): Info {
    match kind
    case NoReason => Info(now, -1, None, None)
    case CrlReason => Info(now, if CodeOf(arg).None? then -1 else CodeOf(arg).value, None, None)
    case Hold => Info(now, 6, Some(arg), None)
    case KeyCompromise => Info(now, 1, None, Some(arg))
    case CaCompromise => Info(now, 2, None, Some(arg))
  }

  /** The argument of a revocation is one that its kind takes. */
  ghost predicate ArgumentFits(c: Checks, kind: RevType, arg: string) {
    match kind
    case NoReason => true
    case CrlReason => CodeOf(arg).Some?
    case Hold => c.oid(arg)
    case KeyCompromise => c.generalizedTime(arg)
    case CaCompromise => c.generalizedTime(arg)
  }

  /** The table holds the words of the codes in their order, except that removeFromCRL stands where 7 would. */
  lemma CodeInTable(word: string, n: nat)
    requires 8 <= n <= |REASONS|
    ensures var i := FindReason(word, n);
      CodeOf(word) == if i.None? || i.value > 7 then None else Some(if i.value == 7 then 8 else i.value)
  {
    assert REASONS[0] == "unspecified" && REASONS[1] == "keyCompromise" && REASONS[2] == "CACompromise";
    assert REASONS[3] == "affiliationChanged" && REASONS[4] == "superseded" && REASONS[5] == "cessationOfOperation";
    assert REASONS[6] == "certificateHold" && REASONS[7] == "removeFromCRL";
    var i := FindReason(word, n);
    if i.Some? {
      assert i.value == 0 || i.value == 1 || i.value == 2 || i.value == 3 || i.value == 4 || i.value == 5 ||
             i.value == 6 || i.value == 7 || i.value > 7;
    }
  }

  /** A revocation is refused for its argument alone. */
  lemma RefusedIff(c: Checks, kind: RevType, arg: string, now: string)
    ensures RevocationText(c, kind, arg, now).Some? <==> ArgumentFits(c, kind, arg)
  {
    CodeInTable(arg, 8);
  }

  lemma StoredReason(c: Checks, arg: string, now: string)
    requires RevocationText(c, CrlReason, arg, now).Some?
    ensures var text := RevocationText(c, CrlReason, arg, now).value;
      |text| == |now| + 1 + |arg| && text[..|now| + 1] == now + "," && CaseEqual(text[|now| + 1..], arg)
  {
    var word := REASONS[FindReason(arg, 8).value];
    OneWord(now, word, None);
    assert (now + "," + word)[..|now| + 1] == now + "," && (now + "," + word)[|now| + 1..] == word;
  }

  lemma StoredHold(c: Checks, arg: string, now: string)
    ensures RevocationText(c, NoReason, arg, now) == Some(now)
    ensures c.oid(arg) ==> RevocationText(c, Hold, arg, now) == Some(now + ",holdInstruction" + "," + arg)
  {
    OneWord(now, REASONS[8], Some(arg));
    assert "," + REASONS[8] == ",holdInstruction";
  }

  lemma StoredTime(c: Checks, arg: string, now: string)
    requires c.generalizedTime(arg)
    ensures RevocationText(c, KeyCompromise, arg, now) == Some(now + ",keyTime" + "," + arg)
    ensures RevocationText(c, CaCompromise, arg, now) == Some(now + ",CAkeyTime" + "," + arg)
  {
    OneWord(now, REASONS[9], Some(arg));
    OneWord(now, REASONS[10], Some(arg));
    assert "," + REASONS[9] == ",keyTime" && "," + REASONS[10] == ",CAkeyTime";
  }

  /** The words in which a revocation is stored. */
  lemma StoredText(c: Checks, arg: string, now: string)
    ensures RevocationText(c, NoReason, arg, now) == Some(now)
    ensures c.oid(arg) ==> RevocationText(c, Hold, arg, now) == Some(now + ",holdInstruction" + "," + arg)
    ensures c.generalizedTime(arg) ==> RevocationText(c, KeyCompromise, arg, now) == Some(now + ",keyTime" + "," + arg)
    ensures c.generalizedTime(arg) ==> RevocationText(c, CaCompromise, arg, now) == Some(now + ",CAkeyTime" + "," + arg)
  {
    StoredHold(c, arg, now);
    if c.generalizedTime(arg) { StoredTime(c, arg, now); }
  }

  lemma OneWord(now: string, word: string, extra: Option<string>)
    ensures now + Suffix(None) + Suffix(None) == now
    ensures now + Suffix(Some(word)) + Suffix(None) == now + "," + word
    ensures extra.Some? ==> now + Suffix(Some(word)) + Suffix(extra) == now + ("," + word) + "," + extra.value
  {
    Associate(now, ",", word);
    if extra.Some? { Associate(now + ("," + word), ",", extra.value); }
  }

  lemma {:induction false} SplitAtComma(head: string, tail: string)
    requires ',' !in head
    ensures Before(head, ',') == head && After(head, ',') == None
    ensures Before(head + "," + tail, ',') == head
    ensures After(head + "," + tail, ',') == Some(tail)
  {
    if head == "" {
      assert head + "," + tail == "," + tail;
    } else {
      SplitAtComma(head[1..], tail);
      assert (head + "," + tail)[1..] == head[1..] + "," + tail;
    }
  }

  /** No two reason words are equal up to case, and none holds a comma. */
  lemma ReasonsAreDistinct(i: nat, j: nat)
    requires i < |REASONS| && j < |REASONS|
    ensures CaseEqual(REASONS[i], REASONS[j]) <==> i == j
    ensures ',' !in REASONS[i]
  {
    if i != j && |REASONS[i]| == |REASONS[j]| {
      assert ToLower(REASONS[i][0]) != ToLower(REASONS[j][0]);
    }
  }

  lemma FindOwnReason(i: nat)
    requires i < |REASONS|
    ensures FindReason(REASONS[i], |REASONS|) == Some(i)
  {
    var r := FindReason(REASONS[i], |REASONS|);
    ReasonsAreDistinct(i, i);
    if r.Some? { ReasonsAreDistinct(i, r.value); }
  }

  lemma SplitSuffix(word: string, extra: Option<string>)
    requires ',' !in word
    ensures Before(word + Suffix(extra), ',') == word && After(word + Suffix(extra), ',') == extra
  {
    match extra
    case None =>
      assert word + Suffix(extra) == word;
      SplitAtComma(word, "");
    case Some(e) =>
      Associate(word, ",", e);
      assert word + Suffix(extra) == word + "," + e;
      SplitAtComma(word, e);
  }

  lemma PackedForm(now: string, word: string, extra: Option<string>)
    ensures now + Suffix(Some(word)) + Suffix(extra) == now + Suffix(Some(word + Suffix(extra)))
  {
    Associate(now, "," + word, Suffix(extra));
    Associate(",", word, Suffix(extra));
  }

  lemma UnpackPacked(c: Checks, now: string, i: nat, extra: Option<string>)
    requires i < |REASONS| && ',' !in now
    ensures var s := now + Suffix(Some(REASONS[i] + Suffix(extra)));
            && Before(s, ',') == now && After(s, ',') == Some(REASONS[i] + Suffix(extra))
            && Before(REASONS[i] + Suffix(extra), ',') == REASONS[i]
            && After(REASONS[i] + Suffix(extra), ',') == extra
  {
    ReasonsAreDistinct(i, i);
    SplitSuffix(now, Some(REASONS[i] + Suffix(extra)));
    SplitSuffix(REASONS[i], extra);
  }

  lemma MeantIs(c: Checks, kind: RevType, arg: string, now: string)
    requires Requested(c, kind, arg).Some? && Requested(c, kind, arg).value.reason.Some?
    ensures var w := Requested(c, kind, arg).value;
      FromCode(c, now, w.reason.value, w.extra) == Some(Meant(kind, arg, now))
  {
    CodeInTable(arg, 8);
  }

  /** Unpacking undoes packing, whatever the argument holds, exactly when the time of revocation is a UTCTime. */
  lemma UnpackUndoesPack(c: Checks, kind: RevType, arg: string, now: string)
    requires RevocationText(c, kind, arg, now).Some? && ',' !in now
    ensures var u := Unpack(c, RevocationText(c, kind, arg, now).value);
            if c.utcTime(now) then u == Some(Meant(kind, arg, now)) else u == None
  {
    var w := Requested(c, kind, arg).value;
    if w.reason.None? {
      SplitSuffix(now, None);
      assert now + Suffix(None) + Suffix(None) == now + Suffix(None) == now;
    } else {
      var i := w.reason.value;
      PackedForm(now, REASONS[i], w.extra);
      UnpackPacked(c, now, i, w.extra);
      FindOwnReason(i);
      MeantIs(c, kind, arg, now);
    }
  }

  lemma SameLetters(a: string, b: string)
    requires CaseEqual(a, b) && ',' !in b
    ensures ',' !in a
  {
    forall i | 0 <= i < |a| ensures a[i] != ',' { assert ToLower(a[i]) == ToLower(b[i]) && b[i] in b; }
  }

  /** A reason word in any case has the code of section 5.3.1 of RFC 5280, with or without something after it. */
  lemma WordMeans(c: Checks, now: string, word: string, extra: Option<string>)
    requires c.utcTime(now) && ',' !in now && CodeOf(word).Some?
    ensures Unpack(c, now + "," + (word + Suffix(extra))) == Some(Info(now, CodeOf(word).value, None, None))
  {
    CodeInTable(word, |REASONS|);
    var i := FindReason(word, |REASONS|).value;
    ReasonsAreDistinct(i, i);
    SameLetters(word, REASONS[i]);
    SplitAtComma(now, word + Suffix(extra));
    SplitSuffix(word, extra);
  }

  /** The three words that need something after them, and what that must be. */
  lemma ExtraMeans(c: Checks, now: string, word: string, extra: Option<string>)
    requires c.utcTime(now) && ',' !in now && ',' !in word && CodeOf(word).None?
    ensures var u := Unpack(c, now + "," + (word + Suffix(extra)));
      u == if extra.None? then None
           else if CaseEqual(word, "holdInstruction") && c.oid(extra.value) then Some(Info(now, 6, extra, None))
           else if CaseEqual(word, "keyTime") && c.generalizedTime(extra.value) then Some(Info(now, 1, None, extra))
           else if CaseEqual(word, "CAkeyTime") && c.generalizedTime(extra.value) then Some(Info(now, 2, None, extra))
           else None
  {
    LateWords(word);
    SplitAtComma(now, word + Suffix(extra));
    SplitSuffix(word, extra);
  }

  lemma LateWords(word: string)
    requires CodeOf(word).None?
    ensures FindReason(word, |REASONS|) ==
      if CaseEqual(word, "holdInstruction") then Some(8)
      else if CaseEqual(word, "keyTime") then Some(9)
      else if CaseEqual(word, "CAkeyTime") then Some(10)
      else None
  {
    CodeInTable(word, |REASONS|);
    assert REASONS[8] == "holdInstruction" && REASONS[9] == "keyTime" && REASONS[10] == "CAkeyTime";
    var i := FindReason(word, |REASONS|);
    assert i.Some? ==> i.value == 8 || i.value == 9 || i.value == 10;
  }

  lemma LeftOfPacked(c: Checks, kind: RevType, arg: string, now: string)
    requires RevocationText(c, kind, arg, now).Some? && ',' !in now
    ensures Left(c, RevocationText(c, kind, arg, now).value) ==
            if c.utcTime(now) then Some(Meant(kind, arg, now)) else None
  {
    var w, text := Requested(c, kind, arg).value, RevocationText(c, kind, arg, now).value;
    UnpackUndoesPack(c, kind, arg, now);
    if w.reason.None? {
      SplitSuffix(now, None);
      assert text == now + Suffix(None);
    } else {
      PackedForm(now, REASONS[w.reason.value], w.extra);
      SplitSuffix(now, Some(REASONS[w.reason.value] + Suffix(w.extra)));
    }
  }

  /** The search loop over the reason words. */
  method ScanReasons(s: string, n: nat) returns (r: Option<nat>)
    requires n <= |REASONS|
    ensures r == FindReason(s, n)
  {
    var i := 0;
    while i < n
      invariant i <= n && FindReason(s, n, i) == FindReason(s, n)
    {
      if CaseEqual(s, REASONS[i]) { return Some(i); }
      i := i + 1;
    }
    return None;
  }

  lemma ReasonsHaveNoNul()
    ensures forall i :: 0 <= i < |REASONS| ==> NoNul(REASONS[i])
  {
  }

  /** `make_revocation_str`: null if the argument is refused, otherwise a buffer that the stored text exactly fills. */
  method MakeRevocationStr(c: Checks, kind: RevType, arg: string, now: string) returns (str: array?<char>)
    requires NoNul(arg) && NoNul(now)
    ensures str == null <==> RevocationText(c, kind, arg, now).None?
    ensures str != null ==> str[..] == RevocationText(c, kind, arg, now).value + [NUL]
  {
    var reason, other := None, None;
    match kind {
      case NoReason =>
      case CrlReason =>
        var r := ScanReasons(arg, 8);
        if r.None? { return null; }
        reason := Some(REASONS[r.value]);
      case Hold =>
        if !c.oid(arg) { return null; }
        reason, other := Some("holdInstruction"), Some(arg);
      case KeyCompromise =>
        if !c.generalizedTime(arg) { return null; }
        reason, other := Some("keyTime"), Some(arg);
      case CaCompromise =>
        if !c.generalizedTime(arg) { return null; }
        reason, other := Some("CAkeyTime"), Some(arg);
    }
    ReasonsHaveNoNul();
    assert RevocationText(c, kind, arg, now) == Some(now + Suffix(reason) + Suffix(other));
    var buffer := Fill(now, reason, other);
    return buffer;
  }

  /** Allocates the length computed from the parts and concatenates them. */
  method Fill(now: string, reason: Option<string>, other: Option<string>) returns (str: array<char>)
    requires NoNul(now) && (reason.Some? ==> NoNul(reason.value)) && (other.Some? ==> NoNul(other.value))
    ensures str[..] == now + Suffix(reason) + Suffix(other) + [NUL]
  {
    var i := |now| + 1;
    if reason.Some? { i := i + |reason.value| + 1; }
    if other.Some? { i := i + |other.value| + 1; }
    str := new char[i];
    StrLcpy(str, 0, now, i);
    assert Holds(str[..], now);
    AppendPart(str, reason, now);
    AppendPart(str, other, now + Suffix(reason));
    ghost var text := now + Suffix(reason) + Suffix(other);
    assert str[..] == str[..][..|text|] + [str[..][|text|]];
  }

  method AppendPart(str: array<char>, part: Option<string>, ghost cur: string)
    requires Holds(str[..], cur) && |cur + Suffix(part)| < str.Length
    requires part.Some? ==> NoNul(part.value)
    modifies str
    ensures Holds(str[..], cur + Suffix(part))
  {
    if part.Some? {
      StrLcat(str, ",", str.Length, cur);
      StrLcat(str, part.value, str.Length, cur + ",");
      assert cur + "," + part.value == cur + Suffix(part);
    } else {
      assert cur + Suffix(part) == cur;
    }
  }

  lemma HoldsAfter(b: seq<char>, done: seq<char>, s: string)
    requires NoNul(s) && b == done + s + [NUL]
    ensures Holds(b[|done|..], s)
  {
  }

  lemma CutOpen(done: seq<char>, s: string, p: nat)
    requires p < |s|
    ensures (done + s + [NUL])[|done| + p := NUL] == done + s[..p] + [NUL] + s[p + 1..] + [NUL]
  {
  }

  /** One `strchr` for a comma; if there is one it is overwritten, which ends the string at `at` there. */
  method CutAtComma(tmp: array<char>, at: nat, ghost done: seq<char>, ghost s: string) returns (next: Option<nat>)
    requires NoNul(s) && |done| == at && tmp[..] == done + s + [NUL]
    modifies tmp
    ensures next.Some? <==> After(s, ',').Some?
    ensures next.None? ==> tmp[..] == done + Before(s, ',') + [NUL]
    ensures next.Some? ==>
      && next.value == at + |Before(s, ',')| + 1
      && tmp[..] == done + Before(s, ',') + [NUL] + After(s, ',').value + [NUL]
  {
    HoldsAfter(tmp[..], done, s);
    var p, found := StrChr(tmp, at, ',', s);
    BeforeAfterAt(s, ',', if found then p - at else |s|);
    if found {
      CutOpen(done, s, p - at);
      tmp[p] := NUL;
      return Some(p + 1);
    } else {
      assert s[..|s|] == s;
      return None;
    }
  }

  lemma ReadsAt(b: seq<char>, before: seq<char>, s: string, after: seq<char>)
    requires NoNul(s) && b == before + s + [NUL] + after
    ensures CStringAt(b, |before|) == s
  {
    CStringIs(b, |before|, s);
  }

  lemma TwoStrings(b: seq<char>, first: string, second: string, tail: seq<char>)
    requires NoNul(first) && NoNul(second) && b == first + [NUL] + second + [NUL] + tail
    ensures CStringAt(b, 0) == first && CStringAt(b, |first| + 1) == second
  {
    assert b == [] + first + [NUL] + (second + [NUL] + tail);
    ReadsAt(b, [], first, second + [NUL] + tail);
    ReadsAt(b, first + [NUL], second, tail);
  }

  /** The two calls of `strchr`, each cutting the working copy of `str` at a comma. */
  method CutAtCommas(tmp: array<char>, str: string) returns (reasonAt: Option<nat>, argAt: Option<nat>)
    requires NoNul(str) && tmp[..] == str + [NUL]
    modifies tmp
    ensures CStringAt(tmp[..], 0) == Before(str, ',')
    ensures reasonAt.Some? <==> After(str, ',').Some?
    ensures reasonAt.None? ==> argAt.None?
    ensures reasonAt.Some? ==> var rest := After(str, ',').value;
      && CStringAt(tmp[..], reasonAt.value) == Before(rest, ',')
      && (argAt.Some? <==> After(rest, ',').Some?)
      && (argAt.Some? ==> CStringAt(tmp[..], argAt.value) == After(rest, ',').value)
  {
    BeforeIsPlain(str, ',');
    ghost var time := Before(str, ',');
    reasonAt := CutAtComma(tmp, 0, [], str);
    argAt := None;
    if reasonAt.None? {
      ReadsAt(tmp[..], [], time, []);
    } else {
      ghost var rest := After(str, ',').value;
      BeforeIsPlain(rest, ',');
      argAt := CutAtComma(tmp, reasonAt.value, time + [NUL], rest);
      if argAt.None? {
        TwoStrings(tmp[..], time, Before(rest, ','), []);
      } else {
        TwoStrings(tmp[..], time, Before(rest, ','), After(rest, ',').value + [NUL]);
        ReadsAt(tmp[..], time + [NUL] + Before(rest, ',') + [NUL], After(rest, ',').value, []);
      }
    }
  }

  /** `unpack_revinfo`, with every out-parameter requested. */
  method UnpackRevInfo(c: Checks, str: string) returns (r: Option<Info>, left: Option<Info>)
    requires NoNul(str)
    ensures r == Unpack(c, str) && left == Left(c, str)
  {
    var tmp := new char[|str| + 1];
    StrLcpy(tmp, 0, str, |str| + 1);
    var reasonAt, argAt := CutAtCommas(tmp, str);
    var time := CStringAt(tmp[..], 0);
    if !c.utcTime(time) { return None, None; }
    left := Some(Info(time, NO_STATUS, None, None));
    var reason, hold, invalidity := NO_STATUS, None, None;
    if reasonAt.Some? {
      var code := ScanReasons(CStringAt(tmp[..], reasonAt.value), |REASONS|);
      if code.None? { return None, left; }
      reason := code.value;
      if reason == 7 {
        reason := REMOVE_FROM_CRL;
      } else if reason == 8 {
        if argAt.None? { return None, left; }
        reason := CERTIFICATE_HOLD;
        var arg := CStringAt(tmp[..], argAt.value);
        if !c.oid(arg) { return None, left; }
        hold := Some(arg);
      } else if reason == 9 || reason == 10 {
        if argAt.None? { return None, left; }
        var arg := CStringAt(tmp[..], argAt.value);
        if !c.generalizedTime(arg) { return None, left; }
        invalidity := Some(arg);
        reason := if reason == 9 then 1 else 2;
      }
    }
    r := Some(Info(time, reason, hold, invalidity));
    left := r;
  }
}
