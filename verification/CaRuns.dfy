/** Loading a database, and what holds over every run of issuing, revoking, ageing, saving and loading again. */
module CaRuns {
  import opened CStrings
  import opened Hex
  import opened RevInfo
  import opened Wrappers
  import opened CaMachine
  import opened CaDatabase
  import opened CaText
  import opened ExpiryTime
  import TxtDb

  /** `check_time_format`: a UTCTime or a GeneralizedTime. */
  predicate TimeFormat(c: Checks, s: string) {
    c.utcTime(s) || c.generalizedTime(s)
  }

  predicate SerialFormat(s: string) {
    var p := if s != "" && s[0] == '-' then s[1..] else s;
    |p| % 2 == 0 && |p| >= 2 && AllHex(p)
  }

  /** What is checked of every row right after loading. */
  predicate RowPasses(c: Checks, row: Row) {
    && (row.Kind() != 'R' ==> row.rev == "")
    && (row.Kind() == 'R' ==> MakeRevoked(c, row.rev) != 0)
    && TimeFormat(c, row.exp)
    && SerialFormat(row.serial)
  }

  /**
   * The columns of a row that passes are judged one by one: an expiry date must be a UTCTime or a GeneralizedTime, a
   * revocation must be unpackable if the row is revoked and absent if not, and for the serial see `SerialIsJudged`.
   */
  lemma ColumnsAreJudged(c: Checks, row: Row, s: string)
    requires RowPasses(c, row)
    ensures RowPasses(c, row.(exp := s)) <==> c.utcTime(s) || c.generalizedTime(s)
    ensures RowPasses(c, row.(rev := s)) <==> if row.Kind() == 'R' then Unpack(c, s).Some? else s == ""
    ensures RowPasses(c, row.(serial := s)) <==> SerialFormat(s)
  {
  }

  /** A serial is an even, nonzero number of hexadecimal digits in either case, perhaps after a minus. */
  lemma SerialIsJudged(digits: string, d: char)
    requires AllHex(digits) && |digits| % 2 == 0
    ensures SerialFormat(digits) <==> digits != ""
    ensures SerialFormat("-" + digits) <==> digits != ""
    ensures !SerialFormat(digits + [d]) || (digits == "" && d == '-')
    ensures SerialFormat(digits + ['0', d]) <==> IsHex(d)
  {
    assert ("-" + digits)[1..] == digits;
    if digits != "" { assert digits[0] != '-'; }
    var t := digits + ['0', d];
    assert t[|digits|] == '0' && t[|digits| + 1] == d && t[0] != '-';
  }

  ghost predicate AllPass(c: Checks, rows: seq<Row>) {
    forall i :: 0 <= i < |rows| ==> RowPasses(c, rows[i])
  }

  function Held(rows: seq<Row>, unique: bool): set<string> {
    if unique then ValidNames(rows) else {}
  }

  /** The text is a database that can be loaded: it reads as `rows`, every row passes, and both indexes can be built. */
  ghost predicate Loads(c: Checks, text: string, unique: bool, rows: seq<Row>) {
    && Reads(text, rows)
    && AllPass(c, rows)
    && DistinctKeys(rows)
    && (unique ==> DistinctValidNames(rows))
  }

  /** The check of one serial, character by character. */
  method CheckSerial(s: string) returns (ok: bool)
    ensures ok <==> SerialFormat(s)
  {
    var start := if s != "" && s[0] == '-' then 1 else 0;
    var j := |s| - start;
    ghost var p := s[start..];
    assert p == if s != "" && s[0] == '-' then s[1..] else s;
    if j % 2 == 1 || j < 2 { return false; }
    var i := start;
    while i < |s|
      invariant start <= i <= |s|
      invariant AllHex(p[..i - start])
    {
      if !IsHex(s[i]) {
        assert p[i - start] == s[i];
        return false;
      }
      assert p[..i + 1 - start] == p[..i - start] + [s[i]];
      i := i + 1;
    }
    assert p[..i - start] == p;
    return true;
  }

  /** The loop "Lets check some fields". */
  method CheckRows(c: Checks, rows: seq<Row>) returns (ok: bool)
    requires forall i :: 0 <= i < |rows| ==> NoNul(rows[i].rev)
    ensures ok <==> AllPass(c, rows)
  {
    var i := 0;
    while i < |rows|
      invariant i <= |rows| && AllPass(c, rows[..i])
    {
      var row := rows[i];
      assert rows[..i + 1] == rows[..i] + [row];
      if row.Kind() != 'R' && row.rev != "" { return false; }
      if row.Kind() == 'R' {
        var info, _ := UnpackRevInfo(c, row.rev);
        if info.None? { return false; }
      }
      if !TimeFormat(c, row.exp) { return false; }
      var serialOk := CheckSerial(row.serial);
      if !serialOk { return false; }
      i := i + 1;
    }
    assert rows[..i] == rows;
    return true;
  }

  /** Reading, checking and indexing at the start of every `ca` command; null when the command gives up. */
  method Load(c: Checks, text: string, unique: bool, hash: string -> nat) returns (db: CaDb?)
    ensures db != null ==> fresh(db) && db.Valid() && db.hash == hash && Loads(c, text, unique, db.rows)
    ensures db != null ==> db.Abs() == Ca(db.rows, unique, Held(db.rows, unique))
    ensures db == null ==> !exists rows :: Loads(c, text, unique, rows)
  {
    TxtDb.RowsReadAreStorable(text, DB_NUMBER);
    var fields := TxtDb.Read(text, DB_NUMBER);
    if fields.None? { return null; }
    var rows := seq(|fields.value|, i requires 0 <= i < |fields.value| => FromFields(fields.value[i]));
    assert rows == RowsOf(fields.value);
    assert forall i :: 0 <= i < |rows| ==>
      rows[i].rev == fields.value[i][2] && TxtDb.Storable(fields.value[i], DB_NUMBER);
    forall other | Loads(c, text, unique, other) ensures other == rows { SameFields(other, rows); }
    var ok := CheckRows(c, rows);
    if !ok { return null; }
    db := new CaDb(rows, unique, hash);
    ok := db.IndexIndex();
    if !ok { return null; }
  }

  // ---- every run ----

  datatype Event =
    | Issue(cert: Cert)
    | Revoke(cert: Cert, kind: RevType, arg: string, now: string)
    | UpdateDb(now: string)
    | Reload

  /**
   * What makes sure that the next load succeeds, all C strings: a date the load check accepts, a one-line name, and a
   * present that is a UTCTime.
   */
  ghost predicate Clean(c: Checks, e: Event) {
    match e
    case Issue(cert) => CleanCert(c, cert)
    case Revoke(cert, _, arg, now) =>
      CleanCert(c, cert) && PlainField(arg) && PlainField(now) && ',' !in now && c.utcTime(now)
    case UpdateDb(_) => true
    case Reload => true
  }

  /** C strings, and names on one line. */
  ghost predicate OneLineEvent(e: Event) {
    match e
    case Issue(cert) => OneLineCert(cert.exp, cert.name)
    case Revoke(cert, _, arg, now) => OneLineCert(cert.exp, cert.name) && NoNul(arg) && NoNul(now)
    case UpdateDb(_) => true
    case Reload => true
  }

  ghost predicate CleanCert(c: Checks, cert: Cert) {
    PlainField(cert.exp) && TimeFormat(c, cert.exp) && '\n' !in cert.name && NoNul(cert.name)
  }

  ghost function Reloaded(c: Checks, ca: Ca): Option<Ca> {
    if exists rows :: Loads(c, TextOf(ca.rows), ca.unique, rows) then
      var rows :| Loads(c, TextOf(ca.rows), ca.unique, rows);
      Some(Ca(rows, ca.unique, Held(rows, ca.unique)))
    else None
  }

  /** One step. A reload that fails stops the run. */
  ghost function Step(c: Checks, ca: Ca, e: Event): Option<Ca> {
    match e
    case Issue(cert) => Some(CaMachine.Issue(ca, cert).0)
    case Revoke(cert, kind, arg, now) => Some(CaMachine.Revoke(c, ca, cert, kind, arg, now).0)
    case UpdateDb(now) => Some(CaMachine.UpdateDb(ca, now))
    case Reload => Reloaded(c, ca)
  }

  ghost function Run(c: Checks, ca: Ca, events: seq<Event>): Option<Ca>
    decreases |events|
  {
    if events == [] then Some(ca)
    else
      var next := Step(c, ca, events[0]);
      if next.None? then None else Run(c, next.value, events[1..])
  }

  /** Every row would pass the load check and survives the text form. */
  ghost predicate Sound(c: Checks, rows: seq<Row>) {
    && AllPass(c, rows)
    && forall i :: 0 <= i < |rows| ==> TxtDb.Storable(ToFields(rows[i]), DB_NUMBER)
  }

  /** Whatever text a database was loaded from, it is sound. */
  lemma LoadedIsSound(c: Checks, text: string, unique: bool, rows: seq<Row>)
    requires Loads(c, text, unique, rows)
    ensures Sound(c, rows) && Inv(Ca(rows, unique, Held(rows, unique)))
  {
    TxtDb.RowsReadAreStorable(text, DB_NUMBER);
    assert forall i :: 0 <= i < |rows| ==> AllToFields(rows)[i] == ToFields(rows[i]);
  }

  lemma SoundIsOneLine(c: Checks, rows: seq<Row>)
    requires Sound(c, rows)
    ensures OneLineRows(rows)
  {
    forall i | 0 <= i < |rows| ensures OneLineRow(rows[i]) { assert TxtDb.Storable(ToFields(rows[i]), DB_NUMBER); }
  }

  /** A sound database can be saved and loaded again, and comes back with the same rows. */
  lemma ReloadIsIdentity(c: Checks, ca: Ca)
    requires Inv(ca) && Sound(c, ca.rows)
    ensures Loads(c, TextOf(ca.rows), ca.unique, ca.rows)
    ensures Step(c, ca, Reload) == Some(Ca(ca.rows, ca.unique, Held(ca.rows, ca.unique)))
  {
    TxtDb.RoundTrip(AllToFields(ca.rows), DB_NUMBER);
    SoundIsOneLine(c, ca.rows);
    forall rows | Loads(c, TextOf(ca.rows), ca.unique, rows) ensures rows == ca.rows { SavedReadsAs(ca.rows, rows); }
    assert Loads(c, TextOf(ca.rows), ca.unique, ca.rows);
    assert Reloaded(c, ca).Some?;
    assert Reloaded(c, ca).value.unique == ca.unique;
    assert Reloaded(c, ca).value.rows == ca.rows;
  }

  /** What a load that succeeds finds: the rows that were saved. */
  lemma ReloadedRows(c: Checks, ca: Ca)
    requires OneLineRows(ca.rows) && Reloaded(c, ca).Some?
    ensures Reloaded(c, ca).value == Ca(ca.rows, ca.unique, Held(ca.rows, ca.unique))
    ensures Loads(c, TextOf(ca.rows), ca.unique, ca.rows)
  {
    var rows :| Loads(c, TextOf(ca.rows), ca.unique, rows) && Reloaded(c, ca).value.rows == rows;
    SavedReadsAs(ca.rows, rows);
  }

  /** A saved database can be loaded again exactly when it is sound. */
  lemma ReloadIff(c: Checks, ca: Ca)
    requires Inv(ca) && OneLineRows(ca.rows)
    ensures Reloaded(c, ca).Some? <==> Sound(c, ca.rows)
  {
    if Reloaded(c, ca).Some? {
      ReloadedRows(c, ca);
      LoadedIsSound(c, TextOf(ca.rows), ca.unique, ca.rows);
    } else if Sound(c, ca.rows) {
      ReloadIsIdentity(c, ca);
    }
  }

  lemma OddRowFails(c: Checks, ca: Ca, cert: Cert, kind: RevType, arg: string, now: string)
    requires Inv(ca) && CaMachine.Revoke(c, ca, cert, kind, arg, now).1 && ',' !in now && !c.utcTime(now)
    ensures !Sound(c, CaMachine.Revoke(c, ca, cert, kind, arg, now).0.rows)
  {
    var rows := CaMachine.Revoke(c, ca, cert, kind, arg, now).0.rows;
    RevokeMarks(c, ca, cert, kind, arg, now);
    UnpackUndoesPack(c, kind, arg, now);
    var row := rows[Find(rows, KeyOf(cert.serial)).value];
    assert row.Kind() == 'R' && MakeRevoked(c, row.rev) == 0;
  }

  /** After a revocation at a time that is no UTCTime the database, once saved, cannot be loaded again. */
  lemma OddRevocationIsNotReloaded(c: Checks, ca: Ca, cert: Cert, kind: RevType, arg: string, now: string)
    requires Inv(ca) && OneLineRows(ca.rows) && OneLineEvent(Revoke(cert, kind, arg, now))
    requires CaMachine.Revoke(c, ca, cert, kind, arg, now).1 && ',' !in now && !c.utcTime(now)
    ensures Run(c, ca, [Revoke(cert, kind, arg, now), Reload]).None?
  {
    var revoked := CaMachine.Revoke(c, ca, cert, kind, arg, now).0;
    RevokeKeepsInv(c, ca, cert, kind, arg, now);
    RevokedIsOneLine(c, ca, cert, kind, arg, now);
    OddRowFails(c, ca, cert, kind, arg, now);
    ReloadIff(c, revoked);
    var events := [Revoke(cert, kind, arg, now), Reload];
    assert events[1..] == [Reload] && Step(c, revoked, Reload).None?;
  }

  lemma SerialTextPasses(n: int)
    ensures SerialFormat(SerialText(n)) && PlainField(SerialText(n))
  {
    SerialTextIsPlain(n);
    if n >= 0 {
      SerialTextValue(n);
      assert SerialText(n)[0] != '-';
    } else {
      NegativeSerialText(n);
      BytesHexEven(-n);
      BytesHexUpper(-n);
      assert SerialText(n)[1..] == BytesHex(-n);
    }
  }

  lemma RowStorable(row: Row)
    requires PlainField(row.kind) && PlainField(row.exp) && PlainField(row.rev)
    requires PlainField(row.serial) && PlainField(row.file)
    requires '\n' !in row.name && NoNul(row.name) && (row.kind != "" ==> row.kind[0] != '#')
    ensures TxtDb.Storable(ToFields(row), DB_NUMBER)
  {
  }

  lemma NewRowIsSound(c: Checks, cert: Cert)
    requires CleanCert(c, cert)
    ensures RowPasses(c, NewRow(cert)) && TxtDb.Storable(ToFields(NewRow(cert)), DB_NUMBER)
  {
    var row := NewRow(cert);
    assert PlainField(row.serial) && SerialFormat(row.serial) by { SerialTextPasses(cert.serial); }
    RowStorable(row);
  }

  lemma ReasonsArePlain(i: nat)
    requires i < |REASONS|
    ensures PlainField(REASONS[i]) && REASONS[i] != ""
  {
  }

  lemma SuffixPlain(s: string, w: Option<string>)
    requires PlainField(s) && (w.Some? ==> PlainField(w.value))
    ensures PlainField(s + Suffix(w))
  {
  }

  /** The text of a revocation passes the load check and can be stored. */
  lemma RevocationPasses(c: Checks, kind: RevType, arg: string, now: string)
    requires RevocationText(c, kind, arg, now).Some?
    requires PlainField(arg) && PlainField(now) && ',' !in now && c.utcTime(now)
    ensures var s := RevocationText(c, kind, arg, now).value; MakeRevoked(c, s) != 0 && PlainField(s)
  {
    UnpackUndoesPack(c, kind, arg, now);
    var w := Requested(c, kind, arg).value;
    if w.reason.Some? { ReasonsArePlain(w.reason.value); }
    SuffixPlain(now, ReasonWord(w.reason));
    SuffixPlain(now + Suffix(ReasonWord(w.reason)), w.extra);
  }

  lemma InsertKeepsSound(c: Checks, ca: Ca, cert: Cert)
    requires Sound(c, ca.rows) && CleanCert(c, cert) && CaMachine.Insert(ca, NewRow(cert)).Some?
    ensures Sound(c, CaMachine.Insert(ca, NewRow(cert)).value.rows)
  {
    NewRowIsSound(c, cert);
  }

  lemma RevokedIsSound(c: Checks, row: Row, text: string)
    requires RowPasses(c, row) && TxtDb.Storable(ToFields(row), DB_NUMBER)
    requires MakeRevoked(c, text) != 0 && PlainField(text)
    ensures var r := row.(kind := "R", rev := text); RowPasses(c, r) && TxtDb.Storable(ToFields(r), DB_NUMBER)
  {
    var was := ToFields(row);
    assert forall k :: 0 <= k < DB_NUMBER ==> '\n' !in was[k] && NoNul(was[k]);
    assert forall k :: 0 <= k < DB_NUMBER - 1 ==> !TxtDb.EndsInBackslash(was[k]);
    assert PlainField(was[1]) && PlainField(was[3]) && PlainField(was[4]) && '\n' !in was[5] && NoNul(was[5]);
    RowStorable(row.(kind := "R", rev := text));
  }

  lemma RevokeAtKeepsSound(c: Checks, ca: Ca, i: nat, cert: Cert, kind: RevType, arg: string, now: string)
    requires Sound(c, ca.rows) && i < |ca.rows| && Clean(c, Revoke(cert, kind, arg, now))
    ensures Sound(c, RevokeAt(c, ca, i, cert, kind, arg, now).0.rows)
  {
    var (ca', done) := RevokeAt(c, ca, i, cert, kind, arg, now);
    if done {
      RevocationPasses(c, kind, arg, now);
      RevokedIsSound(c, ca.rows[i], RevocationText(c, kind, arg, now).value);
    }
  }

  lemma RevokeKeepsSound(c: Checks, ca: Ca, cert: Cert, kind: RevType, arg: string, now: string)
    requires Sound(c, ca.rows) && Clean(c, Revoke(cert, kind, arg, now))
    ensures Sound(c, CaMachine.Revoke(c, ca, cert, kind, arg, now).0.rows)
  {
    match Find(ca.rows, KeyOf(cert.serial))
    case Some(i) => RevokeAtKeepsSound(c, ca, i, cert, kind, arg, now);
    case None =>
      var added := CaMachine.Insert(ca, NewRow(cert));
      if added.Some? {
        InsertKeepsSound(c, ca, cert);
        RevokeAtKeepsSound(c, added.value, |ca.rows|, cert, kind, arg, now);
      }
  }

  lemma UpdateKeepsSound(c: Checks, ca: Ca, now: string)
    requires Sound(c, ca.rows)
    ensures Sound(c, CaMachine.UpdateDb(ca, now).rows)
  {
    forall i | 0 <= i < |ca.rows|
      ensures RowPasses(c, Aged(ca.rows[i], now)) && TxtDb.Storable(ToFields(Aged(ca.rows[i], now)), DB_NUMBER)
    {
      var was, row := ToFields(ca.rows[i]), ToFields(Aged(ca.rows[i], now));
      assert TxtDb.Storable(was, DB_NUMBER);
      assert was[1..] == row[1..];
      assert forall k :: 1 <= k < DB_NUMBER ==> was[k] == was[1..][k - 1] == row[k];
    }
  }

  /** What every step keeps, and how far it may change the rows. */
  ghost predicate Kept(c: Checks, before: Ca, after: Ca) {
    Inv(after) && Sound(c, after.rows) && Grown(before.rows, after.rows) && after.unique == before.unique
  }

  lemma IssueKeeps(c: Checks, ca: Ca, cert: Cert)
    requires Inv(ca) && Sound(c, ca.rows) && CleanCert(c, cert)
    ensures Kept(c, ca, CaMachine.Issue(ca, cert).0)
  {
    if CaMachine.Insert(ca, NewRow(cert)).Some? {
      InsertKeepsInv(ca, NewRow(cert));
      InsertKeepsSound(c, ca, cert);
    }
  }

  lemma RevokeKeeps(c: Checks, ca: Ca, cert: Cert, kind: RevType, arg: string, now: string)
    requires Inv(ca) && Sound(c, ca.rows) && Clean(c, Revoke(cert, kind, arg, now))
    ensures Kept(c, ca, CaMachine.Revoke(c, ca, cert, kind, arg, now).0)
  {
    RevokeKeepsInv(c, ca, cert, kind, arg, now);
    RevokeKeepsSound(c, ca, cert, kind, arg, now);
    RevokeKeepsUnique(c, ca, cert, kind, arg, now);
  }

  lemma RevokeKeepsUnique(c: Checks, ca: Ca, cert: Cert, kind: RevType, arg: string, now: string)
    ensures CaMachine.Revoke(c, ca, cert, kind, arg, now).0.unique == ca.unique
  {
  }

  lemma UpdateKeeps(c: Checks, ca: Ca, now: string)
    requires Inv(ca) && Sound(c, ca.rows)
    ensures Kept(c, ca, CaMachine.UpdateDb(ca, now))
  {
    UpdateKeepsInv(ca, now);
    UpdateKeepsSound(c, ca, now);
  }

  lemma ReloadKeeps(c: Checks, ca: Ca)
    requires Inv(ca) && Sound(c, ca.rows)
    ensures Reloaded(c, ca).Some? && Kept(c, ca, Reloaded(c, ca).value)
  {
    ReloadIsIdentity(c, ca);
  }

  lemma StepKeeps(c: Checks, ca: Ca, e: Event)
    requires Inv(ca) && Sound(c, ca.rows) && Clean(c, e)
    ensures Step(c, ca, e).Some? && Kept(c, ca, Step(c, ca, e).value)
  {
    match e
    case Issue(cert) => IssueKeeps(c, ca, cert);
    case Revoke(cert, kind, arg, now) => RevokeKeeps(c, ca, cert, kind, arg, now);
    case UpdateDb(now) => UpdateKeeps(c, ca, now);
    case Reload => ReloadKeeps(c, ca);
  }

  /**
   * What every step that gets through keeps, whatever the dates, arguments and times it is given: the invariant, the
   * setting, one-line columns, and that rows are only appended and only evolve.
   */
  ghost predicate Stays(before: Ca, after: Ca) {
    Inv(after) && OneLineRows(after.rows) && Grown(before.rows, after.rows) && after.unique == before.unique
  }

  lemma IssueStays(ca: Ca, cert: Cert)
    requires Inv(ca) && OneLineRows(ca.rows) && OneLineCert(cert.exp, cert.name)
    ensures Stays(ca, CaMachine.Issue(ca, cert).0)
  {
    if CaMachine.Insert(ca, NewRow(cert)).Some? {
      InsertKeepsInv(ca, NewRow(cert));
      NewRowIsOneLine(cert);
    }
  }

  lemma StepStays(c: Checks, ca: Ca, e: Event)
    requires Inv(ca) && OneLineRows(ca.rows) && OneLineEvent(e) && Step(c, ca, e).Some?
    ensures Stays(ca, Step(c, ca, e).value)
  {
    match e
    case Issue(cert) => IssueStays(ca, cert);
    case Revoke(cert, kind, arg, now) =>
      RevokeKeepsInv(c, ca, cert, kind, arg, now);
      RevokeKeepsUnique(c, ca, cert, kind, arg, now);
      RevokedIsOneLine(c, ca, cert, kind, arg, now);
    case UpdateDb(now) =>
      UpdateKeepsInv(ca, now);
      AgedIsOneLine(ca.rows, now);
    case Reload => ReloadedRows(c, ca);
  }

  /**
   * Over every run that gets through: serials stay distinct, with unique subjects the names of valid rows stay distinct
   * and all indexed, and rows are only appended and only evolve. Nothing is asked of dates, arguments and times.
   */
  lemma {:induction false} EveryRun(c: Checks, ca: Ca, events: seq<Event>)
    requires Inv(ca) && OneLineRows(ca.rows) && forall i :: 0 <= i < |events| ==> OneLineEvent(events[i])
    ensures var end := Run(c, ca, events); end.Some? ==> Stays(ca, end.value)
    decreases |events|
  {
    if events == [] {
    } else if Step(c, ca, events[0]).Some? {
      StepStays(c, ca, events[0]);
      var next := Step(c, ca, events[0]).value;
      EveryRun(c, next, events[1..]);
      if Run(c, ca, events).Some? { GrownTransitive(ca.rows, next.rows, Run(c, ca, events).value.rows); }
    }
  }

  /** If all events are clean, the run gets through: no reload fails. */
  lemma {:induction false} CleanRunGetsThrough(c: Checks, ca: Ca, events: seq<Event>)
    requires Inv(ca) && Sound(c, ca.rows) && forall i :: 0 <= i < |events| ==> Clean(c, events[i])
    ensures var end := Run(c, ca, events); end.Some? && Kept(c, ca, end.value)
    decreases |events|
  {
    if events == [] {
    } else {
      StepKeeps(c, ca, events[0]);
      var next := Step(c, ca, events[0]).value;
      CleanRunGetsThrough(c, next, events[1..]);
      GrownTransitive(ca.rows, next.rows, Run(c, ca, events).value.rows);
    }
  }

  // ---- how long a certificate stays valid ----

  /** This event revokes the certificate with the serial, or marks it as expired. */
  ghost predicate Ends(c: Checks, ca: Ca, e: Event, serial: int, exp: string) {
    match e
    case Issue(_) => false
    case Revoke(cert, kind, arg, now) => cert.serial == serial && CaMachine.Revoke(c, ca, cert, kind, arg, now).1
    case UpdateDb(now) => CountsAsExpired(exp, now)
    case Reload => false
  }

  ghost predicate Undisturbed(c: Checks, ca: Ca, events: seq<Event>, serial: int, exp: string)
    decreases |events|
  {
    if events == [] then true
    else
      var next := Step(c, ca, events[0]);
      !Ends(c, ca, events[0], serial, exp) && (next.Some? ==> Undisturbed(c, next.value, events[1..], serial, exp))
  }

  /** Row `i` belongs to the serial and has this expiry date. */
  ghost predicate RowOf(rows: seq<Row>, i: nat, serial: int, exp: string) {
    i < |rows| && rows[i].Key() == KeyOf(serial) && rows[i].exp == exp
  }

  lemma RevokeEnds(c: Checks, ca: Ca, i: nat, cert: Cert, kind: RevType, arg: string, now: string, serial: int)
    requires Inv(ca) && i < |ca.rows| && ca.rows[i].Key() == KeyOf(serial) && ca.rows[i].Kind() == 'V'
    ensures var (after, done) := CaMachine.Revoke(c, ca, cert, kind, arg, now);
      i < |after.rows| && (after.rows[i].Kind() == 'V' <==> !(cert.serial == serial && done))
  {
    var (after, done) := CaMachine.Revoke(c, ca, cert, kind, arg, now);
    SerialTextInjective(cert.serial, serial);
    RevokeLeavesOthers(c, ca, cert, kind, arg, now);
    FindIs(ca.rows, i);
    if cert.serial == serial && done {
      RevokeMarks(c, ca, cert, kind, arg, now);
      RevokeKeepsInv(c, ca, cert, kind, arg, now);
      assert Evolved(ca.rows[i], after.rows[i]);
      FindIs(after.rows, i);
    }
  }

  /** A valid row stays valid over a step that gets through exactly if the step does not end it. */
  lemma ValidOverStep(c: Checks, ca: Ca, e: Event, i: nat, serial: int, exp: string)
    requires Inv(ca) && OneLineRows(ca.rows) && OneLineEvent(e) && Step(c, ca, e).Some?
    requires RowOf(ca.rows, i, serial, exp) && ca.rows[i].Kind() == 'V'
    ensures var rows := Step(c, ca, e).value.rows;
      RowOf(rows, i, serial, exp) && (rows[i].Kind() == 'V' <==> !Ends(c, ca, e, serial, exp))
  {
    StepStays(c, ca, e);
    assert Evolved(ca.rows[i], Step(c, ca, e).value.rows[i]);
    match e
    case Issue(cert) =>
    case Revoke(cert, kind, arg, now) => RevokeEnds(c, ca, i, cert, kind, arg, now, serial);
    case UpdateDb(now) =>
    case Reload => ReloadedRows(c, ca);
  }

  /** Over every run that gets through, a valid row stays valid exactly until an event revokes it or marks it. */
  lemma {:induction false} ValidUntilEnded(c: Checks, ca: Ca, events: seq<Event>, i: nat, serial: int, exp: string)
    requires Inv(ca) && OneLineRows(ca.rows) && forall k :: 0 <= k < |events| ==> OneLineEvent(events[k])
    requires RowOf(ca.rows, i, serial, exp) && ca.rows[i].Kind() == 'V'
    ensures var end := Run(c, ca, events);
      end.Some? ==>
        && RowOf(end.value.rows, i, serial, exp)
        && (end.value.rows[i].Kind() == 'V' <==> Undisturbed(c, ca, events, serial, exp))
    decreases |events|
  {
    if events == [] {
    } else if Run(c, ca, events).Some? {
      var next := Step(c, ca, events[0]).value;
      StepStays(c, ca, events[0]);
      ValidOverStep(c, ca, events[0], i, serial, exp);
      if next.rows[i].Kind() == 'V' {
        ValidUntilEnded(c, next, events[1..], i, serial, exp);
      } else {
        EveryRun(c, next, events[1..]);
        assert Evolved(next.rows[i], Run(c, ca, events).value.rows[i]);
      }
    }
  }

  // ---- unique subjects ----

  function Names(rows: seq<Row>): set<string> {
    set i | 0 <= i < |rows| :: rows[i].name
  }

  ghost predicate NoReload(events: seq<Event>) {
    forall i :: 0 <= i < |events| ==> events[i] != Reload
  }

  /** What the name index of a command holds: the names valid when it was loaded, and all those added since. */
  ghost predicate HoldsSince(base: seq<Row>, ca: Ca) {
    && |base| <= |ca.rows|
    && (ca.unique ==> ca.held == ValidNames(base) + Names(ca.rows[|base|..]))
  }

  lemma SameNamesHeld(base: seq<Row>, ca: Ca, rows: seq<Row>)
    requires HoldsSince(base, ca)
    requires |rows| == |ca.rows| && forall i :: 0 <= i < |rows| ==> rows[i].name == ca.rows[i].name
    ensures HoldsSince(base, ca.(rows := rows))
  {
    var a, b := ca.rows[|base|..], rows[|base|..];
    assert forall i :: 0 <= i < |a| ==> a[i].name == b[i].name;
  }

  lemma OneNameMore(base: seq<Row>, ca: Ca, row: Row)
    requires HoldsSince(base, ca) && row.Kind() == 'V' && CaMachine.Insert(ca, row).Some?
    ensures HoldsSince(base, CaMachine.Insert(ca, row).value)
  {
    var a, b := ca.rows[|base|..], (ca.rows + [row])[|base|..];
    assert b == a + [row];
    forall n | n in Names(a) + {row.name} ensures n in Names(b) {
      var i := if n == row.name then |a| else (var i :| 0 <= i < |a| && a[i].name == n; i);
      assert b[i].name == n;
    }
  }

  lemma HoldsRevoke(c: Checks, base: seq<Row>, ca: Ca, cert: Cert, kind: RevType, arg: string, now: string)
    requires HoldsSince(base, ca)
    ensures var end := CaMachine.Revoke(c, ca, cert, kind, arg, now).0; HoldsSince(base, end) && end.unique == ca.unique
  {
    match Find(ca.rows, KeyOf(cert.serial))
    case Some(i) => SameNamesHeld(base, ca, RevokeAt(c, ca, i, cert, kind, arg, now).0.rows);
    case None =>
      var added := CaMachine.Insert(ca, NewRow(cert));
      if added.Some? {
        OneNameMore(base, ca, NewRow(cert));
        SameNamesHeld(base, added.value, RevokeAt(c, added.value, |ca.rows|, cert, kind, arg, now).0.rows);
      }
  }

  lemma HoldsStep(c: Checks, base: seq<Row>, ca: Ca, e: Event)
    requires HoldsSince(base, ca) && e != Reload
    ensures Step(c, ca, e).Some? && HoldsSince(base, Step(c, ca, e).value) && Step(c, ca, e).value.unique == ca.unique
  {
    match e
    case Issue(cert) =>
      if CaMachine.Insert(ca, NewRow(cert)).Some? { OneNameMore(base, ca, NewRow(cert)); }
    case Revoke(cert, kind, arg, now) =>
      HoldsRevoke(c, base, ca, cert, kind, arg, now);
    case UpdateDb(now) => SameNamesHeld(base, ca, AgedRows(ca.rows, now));
  }

  lemma {:induction false} HoldsOverRun(c: Checks, base: seq<Row>, ca: Ca, events: seq<Event>)
    requires HoldsSince(base, ca) && NoReload(events)
    ensures var end := Run(c, ca, events); end.Some? && HoldsSince(base, end.value) && end.value.unique == ca.unique
    decreases |events|
  {
    if events == [] {
    } else {
      HoldsStep(c, base, ca, events[0]);
      HoldsOverRun(c, base, Step(c, ca, events[0]).value, events[1..]);
    }
  }

  /**
   * However long a command has been issuing, revoking and ageing since it loaded the rows `base`: it accepts a
   * certificate exactly when no row has its serial and, with unique subjects, its name was not the name of a valid row
   * in `base` and is not the name of a row added since. Whether those rows are valid still does not matter.
   */
  lemma IssueAcceptedIff(c: Checks, base: seq<Row>, unique: bool, events: seq<Event>, cert: Cert)
    requires NoReload(events)
    ensures var end := Run(c, Ca(base, unique, Held(base, unique)), events);
      && end.Some? && |base| <= |end.value.rows|
      && var rows := end.value.rows;
      && (CaMachine.Issue(end.value, cert).1 <==>
        && (forall i :: 0 <= i < |rows| ==> rows[i].Key() != KeyOf(cert.serial))
        && (unique ==>
              cert.name !in ValidNames(base) && forall i :: |base| <= i < |rows| ==> rows[i].name != cert.name))
  {
    var start := Ca(base, unique, Held(base, unique));
    assert base[|base|..] == [];
    HoldsOverRun(c, base, start, events);
    var ca := Run(c, start, events).value;
    var since := ca.rows[|base|..];
    AcceptedByMachineIff(ca, cert);
    if exists i :: |base| <= i < |ca.rows| && ca.rows[i].name == cert.name {
      var i :| |base| <= i < |ca.rows| && ca.rows[i].name == cert.name;
      assert since[i - |base|].name == cert.name;
    }
  }

  lemma AcceptedByMachineIff(ca: Ca, cert: Cert)
    ensures CaMachine.Issue(ca, cert).1 <==>
      && (forall i :: 0 <= i < |ca.rows| ==> ca.rows[i].Key() != KeyOf(cert.serial))
      && !(ca.unique && cert.name in ca.held)
  {
  }

  lemma ExpiredNameIsFree(ca: Ca, i: nat, now: string)
    requires Inv(ca) && ca.unique && i < |ca.rows| && ca.rows[i].Kind() == 'V' && Aged(ca.rows[i], now) != ca.rows[i]
    ensures ca.rows[i].name in ca.held && ca.rows[i].name !in ValidNames(AgedRows(ca.rows, now))
  {
  }

  lemma UpdateThenReload(c: Checks, ca: Ca, now: string)
    requires Inv(ca) && Sound(c, ca.rows)
    ensures var rows := AgedRows(ca.rows, now);
      Run(c, ca, [UpdateDb(now), Reload]) == Some(Ca(rows, ca.unique, Held(rows, ca.unique)))
  {
    var aged := CaMachine.UpdateDb(ca, now);
    UpdateKeepsInv(ca, now);
    UpdateKeepsSound(c, ca, now);
    ReloadIsIdentity(c, aged);
    var loaded := Step(c, aged, Reload).value;
    assert [UpdateDb(now), Reload][1..] == [Reload] && [Reload][1..] == [];
    assert Run(c, loaded, []) == Some(loaded);
    assert Run(c, aged, [Reload]) == Some(loaded);
  }

  /**
   * The name of a certificate that expires during a command stays held until the end of the command: reissuing it is
   * refused there, and accepted by the next command.
   */
  lemma ExpiredNameStaysHeld(c: Checks, ca: Ca, i: nat, now: string, cert: Cert)
    requires Inv(ca) && Sound(c, ca.rows) && ca.unique && i < |ca.rows| && ca.rows[i].Kind() == 'V'
    requires Aged(ca.rows[i], now) != ca.rows[i] && cert.name == ca.rows[i].name
    requires Find(ca.rows, KeyOf(cert.serial)).None?
    ensures !CaMachine.Issue(CaMachine.UpdateDb(ca, now), cert).1
    ensures var next := Run(c, ca, [UpdateDb(now), Reload]); next.Some? && CaMachine.Issue(next.value, cert).1
  {
    var aged := CaMachine.UpdateDb(ca, now);
    ExpiredNameIsFree(ca, i, now);
    AcceptedByMachineIff(aged, cert);
    UpdateThenReload(c, ca, now);
    AgedFind(ca.rows, now, KeyOf(cert.serial));
    AcceptedByMachineIff(Ca(aged.rows, ca.unique, Held(aged.rows, ca.unique)), cert);
  }

  // ---- lower-case serials ----

  /** A row with a lower-case serial passes the load check and is found under no number and no spelling. */
  lemma LowerCaseRowIsLost(c: Checks, exp: string, v: int, spelling: string)
    requires TimeFormat(c, exp) && AllHex(spelling)
    ensures var row := Row("V", exp, "", "0a", "unknown", "/CN=a");
      RowPasses(c, row) && Find([row], KeyOf(v)).None? && Find([row], StripZeros(StatusKey(spelling))).None?
  {
    assert !IsUpperHex("0a"[1]);
    LowerCaseIsNeverFound("0a", v, spelling);
  }

  // ---- empty subjects ----

  /**
   * A valid row with an empty subject is enough for the crash that `CaDb.Issue` describes: the database can be loaded,
   * and `lh_strhash` gives the empty string the hash of a string that is not there.
   */
  lemma EmptySubjectCrashes(c: Checks, exp: string, hash: string -> nat)
    requires TimeFormat(c, exp) && PlainField(exp) && hash("") == 0
    ensures var rows := [Row("V", exp, "", "01", "unknown", "")];
      Loads(c, TextOf(rows), true, rows) && !HashesDiffer(Held(rows, true), hash)
  {
    var rows := [Row("V", exp, "", "01", "unknown", "")];
    RowStorable(rows[0]);
    ReloadIsIdentity(c, Ca(rows, true, Held(rows, true)));
    assert rows[0].name == "" && "" in ValidNames(rows);
  }
}
