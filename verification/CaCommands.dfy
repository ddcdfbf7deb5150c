/**
 * The commands of `ca` that change the authority's files: the database is saved as text and put in place, and the next
 * command reads that text again.
 */
module CaCommands {
  import opened CStrings
  import opened Hex
  import opened RevInfo
  import opened Wrappers
  import opened CaMachine
  import opened CaDatabase
  import opened CaFiles
  import opened CaText
  import opened FileSystem
  import opened IssuingRun
  import CaRuns
  import TxtDb

  /** The next serial, if its file is there. */
  function NextOn(disk: Disk, sf: string): Option<nat> {
    if sf in disk && disk[sf].Serial? then Some(disk[sf].next) else None
  }

  // ---- the parts of a command ----

  /** What a command may rely on once it has loaded the database, and between its parts. */
  ghost predicate Loaded(fs: Fs, db: CaDb, sf: string, df: string, base: seq<Row>, foreign: set<int>)
    reads fs, db
  {
    && fs.Valid() && db.Valid() && Separate(sf, df) && Consistent(fs.disk, sf, df, base, foreign)
    && df in fs.disk && fs.disk[df].Index? && OneLineRows(db.rows) && Grown(base, db.rows)
    && (NextOn(fs.disk, sf).Some? ==> Allowed(db.rows, fs.disk[sf].next, foreign))
  }

  /** The index file is there, can be read, and passes every check made of it. */
  ghost predicate Opens(c: Checks, disk: Disk, df: string, unique: bool) {
    df in disk && disk[df].Index? && exists rows :: CaRuns.Loads(c, disk[df].text, unique, rows)
  }

  /** How every command begins; null when it gives up. */
  method Open(
      c: Checks, fs: Fs, sf: string, df: string, unique: bool, hash: string -> nat,
      ghost base: seq<Row>, ghost foreign: set<int>)
    returns (db: CaDb?)
    requires fs.Valid() && Separate(sf, df) && Consistent(fs.disk, sf, df, base, foreign)
    ensures db != null <==> Opens(c, fs.disk, df, unique)
    ensures db != null ==> fresh(db) && Loaded(fs, db, sf, df, base, foreign) && db.hash == hash
    ensures db != null ==> CaRuns.Loads(c, fs.disk[df].text, unique, db.rows)
    ensures db != null ==> db.Abs() == Ca(db.rows, unique, CaRuns.Held(db.rows, unique))
  {
    if df !in fs.disk || !fs.disk[df].Index? { return null; }
    db := CaRuns.Load(c, fs.disk[df].text, unique, hash);
    if db != null { ReadIsOneLine(fs.disk[df].text, db.rows); }
  }

  ghost predicate OneLineRequests(reqs: seq<Request>) {
    forall i :: 0 <= i < |reqs| && reqs[i].Signed? ==> OneLineCert(reqs[i].signing.exp, reqs[i].signing.name)
  }

  lemma {:induction false} SignedAreOneLine(reqs: seq<Request>, n: nat)
    requires OneLineRequests(reqs) && n <= |reqs|
    ensures forall k :: 0 <= k < |SignedUpTo(reqs, n)| ==>
      OneLineCert(SignedUpTo(reqs, n)[k].exp, SignedUpTo(reqs, n)[k].name)
  {
    if n == 0 {
    } else {
      SignedAreOneLine(reqs, n - 1);
    }
  }

  lemma AddedAreBelow(serial: nat, reqs: seq<Request>)
    ensures Below(NewRows(serial, reqs), serial + |SignedOf(reqs)|)
  {
    NumberedBelow([], serial, reqs);
    assert [] + NewRows(serial, reqs) == NewRows(serial, reqs);
  }

  /** The rows that issuing adds keep every promise about the rows there were. */
  lemma IssuedRows(rows: seq<Row>, serial: nat, reqs: seq<Request>, base: seq<Row>, foreign: set<int>)
    requires OneLineRows(rows) && OneLineRequests(reqs) && Allowed(rows, serial, foreign) && Grown(base, rows)
    ensures var more := rows + NewRows(serial, reqs);
      var next := serial + |SignedOf(reqs)|;
      OneLineRows(more) && Grown(base, more) && Allowed(more, next, foreign)
  {
    var signed, added := SignedOf(reqs), NewRows(serial, reqs);
    var next := serial + |signed|;
    SignedAreOneLine(reqs, |reqs|);
    AllowedMonotone(rows, serial, next, foreign);
    AddedAreBelow(serial, reqs);
    forall k | 0 <= k < |added| ensures OneLineRow(added[k]) && RowAllowed(added[k], next, foreign) {
      NewRowIsOneLine(Cert(serial + k, signed[k].exp, signed[k].name));
      assert RowBelow(added[k], next);
    }
  }

  /** The end of issuing, with the new rows in the database: if there are any, the operator is asked to commit. */
  method StoreIssued(
      fs: Fs, db: CaDb, sf: string, df: string, next: nat, confirmed: bool, written: bool,
      ghost base: seq<Row>, ghost foreign: set<int>)
    returns (ok: bool)
    requires fs.Valid() && db.Valid() && Separate(sf, df) && Consistent(fs.disk, sf, df, base, foreign)
    requires sf in fs.disk && fs.disk[sf].Serial? && fs.disk[sf].next <= next && df in fs.disk && fs.disk[df].Index?
    requires OneLineRows(db.rows) && Grown(base, db.rows) && Allowed(db.rows, next, foreign)
    requires next > fs.disk[sf].next ==> db.rows != []
    modifies fs
    ensures fs.Valid() && old(fs.history) <= fs.history
    ensures Consistent(fs.disk, sf, df, base, foreign)
    ensures ConsistentSince(|old(fs.history)|, fs, sf, df, base, foreign)
    ensures ok ==> Loaded(fs, db, sf, df, base, foreign)
    ensures next == old(fs.disk)[sf].next ==> ok
    ensures ok ==> NextOn(fs.disk, sf) == Some(next)
    ensures ok ==> if next == old(fs.disk)[sf].next then fs.disk == old(fs.disk) else
      confirmed && written && df in fs.disk && fs.disk[df] == Index(TextOf(db.rows))
    ensures old(fs.clock) <= fs.clock
    ensures !ok && confirmed && written && PathsFit(sf, df) ==>
      Refusals(fs.refuses, old(fs.clock), fs.clock) >= 1
  {
    if next == fs.disk[sf].next { return true; }
    if !confirmed { return false; }
    SavedIsAllowed(db.rows, next, foreign);
    SavedKeeps(base, db.rows);
    ok := Commit(fs, sf, df, next, db.rows, db.unique, written, base, foreign);
  }

  /** Nothing but a refused file operation stands in the way of issuing. */
  ghost predicate CanIssue(
    next: Option<nat>, reqs: seq<Request>, confirmed: bool, written: bool, ca: Ca, hash: string -> nat)
  {
    && next.Some? && Below(ca.rows, next.value) && Acceptable(reqs, |reqs|, ca.unique, ca.held, hash)
    && (SignedOf(reqs) != [] ==> confirmed && written)
  }

  /** Issuing has numbered and added the signed ones; with the serials in order the requests were acceptable. */
  ghost predicate Issued(
      before: Ca, from: Option<nat>, reqs: seq<Request>, after: Ca, next: Option<nat>, hash: string -> nat)
  {
    && from.Some? && after == AfterIssuing(before, from.value, reqs) && next == Some(NextAfter(from.value, reqs))
    && (Below(before.rows, from.value) ==> Acceptable(reqs, |reqs|, before.unique, before.held, hash))
  }

  /**
   * Issuing, from reading the serial to replacing the files. Whatever is refused and wherever it stops, every state of
   * the disk is consistent. If it succeeds, the new rows carry consecutive serials and the next one is saved. If it
   * fails although the serials are in order and the requests acceptable, the operator cancelled, a certificate could
   * not be written, or a file operation was refused.
   */
  method IssuePart(
      fs: Fs, db: CaDb, sf: string, df: string, reqs: seq<Request>, confirmed: bool, written: bool,
      ghost base: seq<Row>, ghost foreign: set<int>)
    returns (ok: bool)
    requires Loaded(fs, db, sf, df, base, foreign) && OneLineRequests(reqs)
    modifies fs, db
    ensures fs.Valid() && db.Valid() && db.unique == old(db.unique) && old(fs.history) <= fs.history
    ensures Consistent(fs.disk, sf, df, base, foreign)
    ensures ConsistentSince(|old(fs.history)|, fs, sf, df, base, foreign)
    ensures ok ==> Loaded(fs, db, sf, df, base, foreign)
    ensures ok ==> Issued(old(db.Abs()), NextOn(old(fs.disk), sf), reqs, db.Abs(), NextOn(fs.disk, sf), db.hash)
    ensures ok ==> if SignedOf(reqs) == [] then fs.disk == old(fs.disk)
                   else confirmed && written && df in fs.disk && fs.disk[df] == Index(TextOf(db.rows))
    ensures old(fs.clock) <= fs.clock
    ensures !ok && PathsFit(sf, df) ==>
      CanIssue(NextOn(old(fs.disk), sf), reqs, confirmed, written, old(db.Abs()), db.hash) ==>
      Refusals(fs.refuses, old(fs.clock), fs.clock) >= 1
  {
    if sf !in fs.disk || !fs.disk[sf].Serial? { return false; }
    ghost var ca := db.Abs();
    var serial := fs.disk[sf].next;
    var next;
    ok, next := IssueLoop(db, serial, reqs);
    if !ok { return; }
    ghost var after := db.Abs();
    assert Issued(ca, Some(serial), reqs, after, Some(next), db.hash);
    IssuedRows(ca.rows, serial, reqs, base, foreign);
    ok := StoreIssued(fs, db, sf, df, next, confirmed, written, base, foreign);
    assert db.Abs() == after;
  }

  lemma AgedAllowed(rows: seq<Row>, now: string, n: nat, foreign: set<int>)
    requires Allowed(rows, n, foreign)
    ensures Allowed(AgedRows(rows, now), n, foreign)
  {
    forall i | 0 <= i < |rows| ensures RowAllowed(AgedRows(rows, now)[i], n, foreign) {
      assert RowAllowed(rows[i], n, foreign);
    }
  }

  /** The same for rows that have been marked. */
  lemma UpdatedRows(ca: Ca, now: string, disk: Disk, sf: string, base: seq<Row>, foreign: set<int>)
    requires Inv(ca) && OneLineRows(ca.rows) && Grown(base, ca.rows)
    requires sf in disk && disk[sf].Serial? ==> Allowed(ca.rows, disk[sf].next, foreign)
    ensures var rows := AgedRows(ca.rows, now);
      && OneLineRows(rows) && Grown(base, rows) && TextKeeps(base, TextOf(rows))
      && (sf in disk && disk[sf].Serial? ==> Allowed(rows, disk[sf].next, foreign))
      && NextAllows(disk, sf, TextOf(rows), foreign)
  {
    var rows := AgedRows(ca.rows, now);
    AgedIsOneLine(ca.rows, now);
    UpdateKeepsInv(ca, now);
    GrownTransitive(base, ca.rows, rows);
    SavedKeeps(base, rows);
    if sf in disk && disk[sf].Serial? {
      AgedAllowed(ca.rows, now, disk[sf].next, foreign);
      SavedIsAllowed(rows, disk[sf].next, foreign);
    }
  }

  /** `-updatedb`: the files are touched only if something expired. It fails only if a file operation is refused. */
  method UpdatePart(
      fs: Fs, db: CaDb, sf: string, df: string, now: string, ghost base: seq<Row>, ghost foreign: set<int>)
    returns (ok: bool)
    requires Loaded(fs, db, sf, df, base, foreign)
    modifies fs, db
    ensures fs.Valid() && db.Valid() && db.unique == old(db.unique) && old(fs.history) <= fs.history
    ensures Consistent(fs.disk, sf, df, base, foreign)
    ensures ConsistentSince(|old(fs.history)|, fs, sf, df, base, foreign)
    ensures ok ==> Loaded(fs, db, sf, df, base, foreign)
    ensures db.Abs() == CaMachine.UpdateDb(old(db.Abs()), now)
    ensures ok ==> if db.rows == old(db.rows) then fs.disk == old(fs.disk) else fs.disk[df] == Index(TextOf(db.rows))
    ensures ok ==> NextOn(fs.disk, sf) == NextOn(old(fs.disk), sf)
    ensures old(fs.clock) <= fs.clock
    ensures !ok && PathsFit(sf, df) ==> Refusals(fs.refuses, old(fs.clock), fs.clock) >= 1
  {
    ValidIsInv(db);
    ghost var rows := db.rows;
    UpdatedRows(db.Abs(), now, fs.disk, sf, base, foreign);
    var cnt := db.UpdateDb(now);
    NothingChanged(rows, db.rows);
    if cnt == 0 { return true; }
    ok := ReplaceIndex(fs, sf, df, db.rows, db.unique, base, foreign);
  }

  lemma {:induction false} NothingChanged(before: seq<Row>, after: seq<Row>)
    requires |before| == |after|
    ensures CountChanged(before, after) == 0 <==> before == after
  {
    if before == [] {
    } else {
      var n := |before| - 1;
      NothingChanged(before[..n], after[..n]);
      assert before == before[..n] + [before[n]] && after == after[..n] + [after[n]];
    }
  }

  /** The certificate is one this authority may have issued: its serial is in the database, or below the next one. */
  predicate OwnSerial(next: Option<nat>, rows: seq<Row>, cert: Cert) {
    next.Some? ==> cert.serial < next.value || Find(rows, KeyOf(cert.serial)).Some?
  }

  /**
   * What a revocation that the database accepts does to the rows: only a new serial that is neither below the next one
   * nor among the foreign ones could break a promise.
   */
  lemma RevokedRows(
      c: Checks, disk: Disk, sf: string, ca: Ca, cert: Cert, kind: RevType, arg: string, now: string,
      base: seq<Row>, foreign: set<int>)
    requires Inv(ca) && OneLineRows(ca.rows) && Grown(base, ca.rows)
    requires OneLineCert(cert.exp, cert.name) && NoNul(arg) && NoNul(now)
    requires sf in disk && disk[sf].Serial? ==> Allowed(ca.rows, disk[sf].next, foreign)
    requires OwnSerial(NextOn(disk, sf), ca.rows, cert) || cert.serial in foreign
    requires Revoke(c, ca, cert, kind, arg, now).1
    ensures var rows := Revoke(c, ca, cert, kind, arg, now).0.rows;
      && OneLineRows(rows) && rows != [] && Grown(base, rows) && TextKeeps(base, TextOf(rows))
      && (sf in disk && disk[sf].Serial? ==> Allowed(rows, disk[sf].next, foreign))
      && NextAllows(disk, sf, TextOf(rows), foreign)
  {
    var rows := Revoke(c, ca, cert, kind, arg, now).0.rows;
    RevokedIsOneLine(c, ca, cert, kind, arg, now);
    RevokeKeepsInv(c, ca, cert, kind, arg, now);
    GrownTransitive(base, ca.rows, rows);
    SavedKeeps(base, rows);
    RevokeKeepsSerials(c, ca, cert, kind, arg, now);
    if sf in disk && disk[sf].Serial? {
      RevokedAllowed(c, ca, cert, kind, arg, now, disk[sf].next, foreign);
      SavedIsAllowed(rows, disk[sf].next, foreign);
    }
  }

  lemma RevokedAllowed(
      c: Checks, ca: Ca, cert: Cert, kind: RevType, arg: string, now: string, n: nat, foreign: set<int>)
    requires Allowed(ca.rows, n, foreign) && Revoke(c, ca, cert, kind, arg, now).1
    requires cert.serial < n || Find(ca.rows, KeyOf(cert.serial)).Some? || cert.serial in foreign
    ensures Allowed(Revoke(c, ca, cert, kind, arg, now).0.rows, n, foreign)
  {
    var rows := Revoke(c, ca, cert, kind, arg, now).0.rows;
    RevokeKeepsSerials(c, ca, cert, kind, arg, now);
    forall i | 0 <= i < |ca.rows| ensures RowAllowed(rows[i], n, foreign) { assert RowAllowed(ca.rows[i], n, foreign); }
    if |rows| > |ca.rows| && cert.serial !in foreign {
      if cert.serial >= 0 { NewRowBelow(cert, n); } else { NegativeSerialText(cert.serial); }
      assert RowBelow(rows[|ca.rows|], n);
    }
  }

  /**
   * `-revoke`, of a certificate of this authority or a foreign one: every state of the disk is consistent, and after a
   * success every state to come keeps the revoked row. Serials that were all below the next one stay so exactly if the
   * certificate was one of this authority. It fails only if the database refuses the revocation or a file operation is
   * refused.
   */
  method RevokePart(
      c: Checks, fs: Fs, db: CaDb, sf: string, df: string, cert: Cert, kind: RevType, arg: string, now: string,
      ghost base: seq<Row>, ghost foreign: set<int>)
    returns (ok: bool)
    requires Loaded(fs, db, sf, df, base, foreign) && OneLineCert(cert.exp, cert.name) && NoNul(arg) && NoNul(now)
    requires OwnSerial(NextOn(fs.disk, sf), db.rows, cert) || cert.serial in foreign
    modifies fs, db
    ensures fs.Valid() && db.Valid() && db.unique == old(db.unique) && old(fs.history) <= fs.history
    ensures Consistent(fs.disk, sf, df, base, foreign)
    ensures ConsistentSince(|old(fs.history)|, fs, sf, df, base, foreign)
    ensures ok ==> Loaded(fs, db, sf, df, base, foreign) && Loaded(fs, db, sf, df, db.rows, foreign)
    ensures db.Abs() == CaMachine.Revoke(c, old(db.Abs()), cert, kind, arg, now).0
    ensures ok ==> CaMachine.Revoke(c, old(db.Abs()), cert, kind, arg, now).1
    ensures ok ==> df in fs.disk && fs.disk[df] == Index(TextOf(db.rows)) && SameSerial(sf, old(fs.disk), fs.disk)
    ensures ok && sf in fs.disk && fs.disk[sf].Serial? && Below(old(db.rows), fs.disk[sf].next) ==>
      (Below(db.rows, fs.disk[sf].next) <==> OwnSerial(NextOn(old(fs.disk), sf), old(db.rows), cert))
    ensures old(fs.clock) <= fs.clock
    ensures !ok && PathsFit(sf, df) && CaMachine.Revoke(c, old(db.Abs()), cert, kind, arg, now).1 ==>
      Refusals(fs.refuses, old(fs.clock), fs.clock) >= 1
  {
    ValidIsInv(db);
    ghost var ca := db.Abs();
    ok := db.Revoke(c, cert, kind, arg, now);
    if !ok { return; }
    RevokedRows(c, fs.disk, sf, ca, cert, kind, arg, now, base, foreign);
    if sf in fs.disk && fs.disk[sf].Serial? && Below(ca.rows, fs.disk[sf].next) {
      RevokeKeepsBelowIff(c, ca, cert, kind, arg, now, fs.disk[sf].next);
    }
    ok := ReplaceIndex(fs, sf, df, db.rows, db.unique, base, foreign);
    SavedKeeps(db.rows, db.rows);
  }

  // ---- what a command is ----

  datatype Part =
    | Issuing(reqs: seq<Request>, confirmed: bool, written: bool)
    | Updating(now: string)
    | Revoking(cert: Cert, kind: RevType, arg: string, now: string)

  /** C strings, and names on one line. */
  ghost predicate OneLinePart(part: Part) {
    match part
    case Issuing(reqs, _, _) => OneLineRequests(reqs)
    case Updating(_) => true
    case Revoking(cert, _, arg, now) => OneLineCert(cert.exp, cert.name) && NoNul(arg) && NoNul(now)
  }

  ghost predicate OneLineParts(parts: seq<Part>) {
    forall i :: 0 <= i < |parts| ==> OneLinePart(parts[i])
  }

  // ---- what a part does ----

  /** The database in memory and the next serial on disk. */
  datatype Books = Books(ca: Ca, next: Option<nat>)

  /** The books after a part. */
  ghost function Carried(c: Checks, b: Books, part: Part): Books {
    match part
    case Issuing(reqs, _, _) =>
      if b.next.None? then b
      else Books(AfterIssuing(b.ca, b.next.value, reqs), Some(NextAfter(b.next.value, reqs)))
    case Updating(now) => b.(ca := CaMachine.UpdateDb(b.ca, now))
    case Revoking(cert, kind, arg, now) => b.(ca := CaMachine.Revoke(c, b.ca, cert, kind, arg, now).0)
  }

  /** Only a refused file operation can keep the part from being carried out. */
  ghost predicate CanCarry(c: Checks, b: Books, part: Part, foreign: set<int>, hash: string -> nat) {
    match part
    case Issuing(reqs, confirmed, written) => CanIssue(b.next, reqs, confirmed, written, b.ca, hash)
    case Updating(_) => true
    case Revoking(cert, kind, arg, now) =>
      && CaMachine.Revoke(c, b.ca, cert, kind, arg, now).1
      && (OwnSerial(b.next, b.ca.rows, cert) || cert.serial in foreign)
  }

  ghost function CarriedAll(c: Checks, b: Books, parts: seq<Part>): Books
    decreases |parts|
  {
    if parts == [] then b else CarriedAll(c, Carried(c, b, parts[0]), parts[1..])
  }

  ghost predicate CanCarryAll(c: Checks, b: Books, parts: seq<Part>, foreign: set<int>, hash: string -> nat)
    decreases |parts|
  {
    parts != [] ==>
      CanCarry(c, b, parts[0], foreign, hash) && CanCarryAll(c, Carried(c, b, parts[0]), parts[1..], foreign, hash)
  }

  /** The live index is the text of the rows, or it is what it was and so are the rows. */
  ghost predicate Shows(before: Disk, was: seq<Row>, after: Disk, rows: seq<Row>, df: string) {
    df in after && (after[df] == Index(TextOf(rows)) || (df in before && after[df] == before[df] && rows == was))
  }

  // ---- clean commands can be followed by others ----

  ghost predicate CleanPart(c: Checks, part: Part) {
    match part
    case Issuing(reqs, _, _) =>
      forall i :: 0 <= i < |reqs| && reqs[i].Signed? ==>
        CaRuns.CleanCert(c, Cert(0, reqs[i].signing.exp, reqs[i].signing.name))
    case Updating(_) => true
    case Revoking(cert, kind, arg, now) => CaRuns.Clean(c, CaRuns.Revoke(cert, kind, arg, now))
  }

  /** Every date brought in passes the load check, and the clock shows a UTCTime. */
  ghost predicate CleanParts(c: Checks, parts: seq<Part>) {
    forall i :: 0 <= i < |parts| ==> CleanPart(c, parts[i])
  }

  lemma ValidIsInv(db: CaDb)
    requires db.Valid()
    ensures Inv(db.Abs())
  {
    var idx := db.index[SerialColumn];
    forall i, j | 0 <= i < j < |db.rows| ensures db.rows[i].Key() != db.rows[j].Key() {
      assert Qualifies(SerialColumn, db.rows[i]) && Qualifies(SerialColumn, db.rows[j]);
    }
    if db.unique {
      forall i | 0 <= i < |db.rows| && db.rows[i].Kind() == 'V' ensures db.rows[i].name in db.Abs().held {
        assert Qualifies(NameColumn, db.rows[i]);
      }
      forall i, j | 0 <= i < j < |db.rows| && db.rows[i].Kind() == 'V' && db.rows[j].Kind() == 'V'
        ensures db.rows[i].name != db.rows[j].name
      {
        assert Qualifies(NameColumn, db.rows[i]) && Qualifies(NameColumn, db.rows[j]);
      }
    }
  }

  lemma {:induction false} SignedAreClean(c: Checks, reqs: seq<Request>, n: nat)
    requires CleanPart(c, Issuing(reqs, true, true)) && n <= |reqs|
    ensures forall k :: 0 <= k < |SignedUpTo(reqs, n)| ==>
      CaRuns.CleanCert(c, Cert(0, SignedUpTo(reqs, n)[k].exp, SignedUpTo(reqs, n)[k].name))
  {
    if n == 0 {
    } else {
      SignedAreClean(c, reqs, n - 1);
    }
  }

  lemma IssuedIsSound(c: Checks, rows: seq<Row>, serial: nat, reqs: seq<Request>)
    requires CaRuns.Sound(c, rows) && CleanPart(c, Issuing(reqs, true, true))
    ensures CaRuns.Sound(c, rows + NewRows(serial, reqs))
  {
    SignedAreClean(c, reqs, |reqs|);
    var signed := SignedOf(reqs);
    forall k | 0 <= k < |signed|
      ensures var row := NewRows(serial, reqs)[k];
        CaRuns.RowPasses(c, row) && TxtDb.Storable(ToFields(row), DB_NUMBER)
    {
      CaRuns.NewRowIsSound(c, Cert(serial + k, signed[k].exp, signed[k].name));
    }
  }

  lemma RevokedIsSound(c: Checks, ca: Ca, cert: Cert, kind: RevType, arg: string, now: string)
    requires Inv(ca) && CaRuns.Sound(c, ca.rows) && CaRuns.Clean(c, CaRuns.Revoke(cert, kind, arg, now))
    ensures CaRuns.Sound(c, Revoke(c, ca, cert, kind, arg, now).0.rows)
  {
    CaRuns.StepKeeps(c, ca, CaRuns.Revoke(cert, kind, arg, now));
  }

  /** A sound database, saved, can be opened again. */
  lemma SavedOpens(c: Checks, db: CaDb, before: Disk, was: seq<Row>, after: Disk, df: string)
    requires db.Valid() && CaRuns.Sound(c, db.rows) && Shows(before, was, after, db.rows, df)
    requires df in before && before[df].Index? && CaRuns.Loads(c, before[df].text, db.unique, was)
    ensures df in after && after[df].Index? && CaRuns.Loads(c, after[df].text, db.unique, db.rows)
  {
    if after[df] == Index(TextOf(db.rows)) {
      ValidIsInv(db);
      CaRuns.LoadedIsSound(c, before[df].text, db.unique, was);
      CaRuns.ReloadIsIdentity(c, db.Abs());
    }
  }

  lemma CarriedIsSound(c: Checks, b: Books, part: Part)
    requires Inv(b.ca) && CaRuns.Sound(c, b.ca.rows) && CleanPart(c, part)
    ensures CaRuns.Sound(c, Carried(c, b, part).ca.rows)
  {
    match part
    case Issuing(reqs, _, _) => if b.next.Some? { IssuedIsSound(c, b.ca.rows, b.next.value, reqs); }
    case Updating(now) => CaRuns.UpdateKeepsSound(c, b.ca, now);
    case Revoking(cert, kind, arg, now) => RevokedIsSound(c, b.ca, cert, kind, arg, now);
  }

  // ---- whole commands ----

  /**
   * One part. A revocation is begun if the certificate is one of this authority or `foreign` lists its serial: with the
   * empty set nothing foreign is ever revoked, with the serials of all revocations everything is tried, as the program
   * does. If it succeeds, the part has been carried out, in memory and on disk; if it fails although it could be
   * carried out, a file operation was refused.
   */
  method RunPart(
      c: Checks, fs: Fs, db: CaDb, sf: string, df: string, part: Part, ghost base: seq<Row>, foreign: set<int>)
    returns (ok: bool)
    requires Loaded(fs, db, sf, df, base, foreign) && OneLinePart(part)
    modifies fs, db
    ensures fs.Valid() && db.Valid() && db.unique == old(db.unique) && old(fs.history) <= fs.history
    ensures Consistent(fs.disk, sf, df, base, foreign)
    ensures ConsistentSince(|old(fs.history)|, fs, sf, df, base, foreign)
    ensures ok ==> Loaded(fs, db, sf, df, base, foreign)
    ensures ok ==> db.Abs() == Carried(c, Books(old(db.Abs()), NextOn(old(fs.disk), sf)), part).ca
    ensures ok ==> NextOn(fs.disk, sf) == Carried(c, Books(old(db.Abs()), NextOn(old(fs.disk), sf)), part).next
    ensures ok ==> Shows(old(fs.disk), old(db.rows), fs.disk, db.rows, df)
    ensures ok && foreign == {} ==> CanCarry(c, Books(old(db.Abs()), NextOn(old(fs.disk), sf)), part, foreign, db.hash)
    ensures ok && CleanPart(c, part) && CaRuns.Loads(c, old(fs.disk)[df].text, db.unique, old(db.rows)) ==>
      CaRuns.Loads(c, fs.disk[df].text, db.unique, db.rows)
    ensures old(fs.clock) <= fs.clock
    ensures !ok && PathsFit(sf, df) ==>
      CanCarry(c, Books(old(db.Abs()), NextOn(old(fs.disk), sf)), part, foreign, db.hash) ==>
      Refusals(fs.refuses, old(fs.clock), fs.clock) >= 1
  {
    ghost var disk, b := fs.disk, Books(db.Abs(), NextOn(fs.disk, sf));
    ValidIsInv(db);
    match part {
      case Issuing(reqs, confirmed, written) =>
        if NextOn(fs.disk, sf).Some? && foreign == {} { AllowedIsBelow(db.rows, fs.disk[sf].next); }
        ok := IssuePart(fs, db, sf, df, reqs, confirmed, written, base, foreign);
      case Updating(now) =>
        ok := UpdatePart(fs, db, sf, df, now, base, foreign);
      case Revoking(cert, kind, arg, now) =>
        if !OwnSerial(NextOn(fs.disk, sf), db.rows, cert) && cert.serial !in foreign { return false; }
        ok := RevokePart(c, fs, db, sf, df, cert, kind, arg, now, base, foreign);
    }
    if ok { CarriedOpens(c, b, part, db, disk, fs.disk, df); }
  }

  lemma CarriedOpens(c: Checks, b: Books, part: Part, db: CaDb, before: Disk, after: Disk, df: string)
    requires Inv(b.ca) && db.Valid() && db.Abs() == Carried(c, b, part).ca && db.unique == b.ca.unique
    requires df in before && before[df].Index? && Shows(before, b.ca.rows, after, db.rows, df) && after[df].Index?
    ensures CleanPart(c, part) && CaRuns.Loads(c, before[df].text, db.unique, b.ca.rows) ==>
      CaRuns.Loads(c, after[df].text, db.unique, db.rows)
  {
    if CleanPart(c, part) && CaRuns.Loads(c, before[df].text, db.unique, b.ca.rows) {
      CaRuns.LoadedIsSound(c, before[df].text, db.unique, b.ca.rows);
      CarriedIsSound(c, b, part);
      SavedOpens(c, db, before, b.ca.rows, after, df);
    }
  }

  /** After the parts, begun with these books, live index and live serial say what the books say. */
  ghost predicate Done(c: Checks, b: Books, parts: seq<Part>, before: Disk, after: Disk, sf: string, df: string) {
    var end := CarriedAll(c, b, parts);
    Shows(before, b.ca.rows, after, end.ca.rows, df) && NextOn(after, sf) == end.next
  }

  lemma DoneInOrder(
      c: Checks, b: Books, parts: seq<Part>, now: Books, before: Disk, mid: Disk, after: Disk, sf: string, df: string)
    requires parts != [] && now == Carried(c, b, parts[0]) && Shows(before, b.ca.rows, mid, now.ca.rows, df)
    requires Done(c, now, parts[1..], mid, after, sf, df)
    ensures Done(c, b, parts, before, after, sf, df)
  {
  }

  /** The parts of a command, on the database it has loaded. */
  method CarryOut(
      c: Checks, fs: Fs, db: CaDb, sf: string, df: string, parts: seq<Part>, ghost base: seq<Row>, foreign: set<int>)
    returns (ok: bool)
    requires Loaded(fs, db, sf, df, base, foreign) && OneLineParts(parts)
    modifies fs, db
    ensures fs.Valid() && db.Valid() && db.unique == old(db.unique) && old(fs.history) <= fs.history
    ensures Consistent(fs.disk, sf, df, base, foreign)
    ensures ConsistentSince(|old(fs.history)|, fs, sf, df, base, foreign)
    ensures ok ==> Loaded(fs, db, sf, df, base, foreign)
    ensures ok ==> Done(c, Books(old(db.Abs()), NextOn(old(fs.disk), sf)), parts, old(fs.disk), fs.disk, sf, df)
    ensures ok ==> db.Abs() == CarriedAll(c, Books(old(db.Abs()), NextOn(old(fs.disk), sf)), parts).ca
    ensures ok && CleanParts(c, parts) && CaRuns.Loads(c, old(fs.disk)[df].text, db.unique, old(db.rows)) ==>
      CaRuns.Loads(c, fs.disk[df].text, db.unique, db.rows)
    ensures ok && foreign == {} ==>
      CanCarryAll(c, Books(old(db.Abs()), NextOn(old(fs.disk), sf)), parts, foreign, db.hash)
    ensures old(fs.clock) <= fs.clock
    ensures !ok && PathsFit(sf, df) ==>
      CanCarryAll(c, Books(old(db.Abs()), NextOn(old(fs.disk), sf)), parts, foreign, db.hash) ==>
      Refusals(fs.refuses, old(fs.clock), fs.clock) >= 1
    decreases |parts|, 1
  {
    if parts == [] { return true; }
    ghost var b := Books(db.Abs(), NextOn(fs.disk, sf));
    ghost var clock, disk := fs.clock, fs.disk;
    ok := RunPart(c, fs, db, sf, df, parts[0], base, foreign);
    if !ok { return; }
    ok := CarryRest(c, fs, db, sf, df, parts, base, foreign, b, disk, clock);
  }

  /** The parts after the first one, which has been carried out. */
  method CarryRest(
      c: Checks, fs: Fs, db: CaDb, sf: string, df: string, parts: seq<Part>, ghost base: seq<Row>, foreign: set<int>,
      ghost b: Books, ghost disk: Disk, ghost clock: nat)
    returns (ok: bool)
    requires Loaded(fs, db, sf, df, base, foreign) && OneLineParts(parts) && parts != []
    requires Books(db.Abs(), NextOn(fs.disk, sf)) == Carried(c, b, parts[0]) && clock <= fs.clock
    requires Shows(disk, b.ca.rows, fs.disk, db.rows, df)
    requires foreign == {} ==> CanCarry(c, b, parts[0], foreign, db.hash)
    modifies fs, db
    ensures fs.Valid() && db.Valid() && db.unique == old(db.unique) && old(fs.history) <= fs.history
    ensures Consistent(fs.disk, sf, df, base, foreign)
    ensures ConsistentSince(|old(fs.history)|, fs, sf, df, base, foreign)
    ensures ok ==> Loaded(fs, db, sf, df, base, foreign)
    ensures ok ==> Done(c, b, parts, disk, fs.disk, sf, df) && db.Abs() == CarriedAll(c, b, parts).ca
    ensures ok && CleanParts(c, parts) && CaRuns.Loads(c, old(fs.disk)[df].text, db.unique, old(db.rows)) ==>
      CaRuns.Loads(c, fs.disk[df].text, db.unique, db.rows)
    ensures ok && foreign == {} ==> CanCarryAll(c, b, parts, foreign, db.hash)
    ensures old(fs.clock) <= fs.clock
    ensures !ok && PathsFit(sf, df) ==> CanCarryAll(c, b, parts, foreign, db.hash) ==>
      Refusals(fs.refuses, clock, fs.clock) >= 1
    decreases |parts|, 0
  {
    ghost var mid, at, now := fs.disk, fs.clock, Books(db.Abs(), NextOn(fs.disk, sf));
    ok := CarryOut(c, fs, db, sf, df, parts[1..], base, foreign);
    RefusalsSplit(fs.refuses, clock, at, fs.clock);
    if ok { DoneInOrder(c, b, parts, now, disk, mid, fs.disk, sf, df); }
  }

  /** The books of a command that has just loaded these rows. */
  ghost function Opened(rows: seq<Row>, unique: bool, next: Option<nat>): Books {
    Books(Ca(rows, unique, CaRuns.Held(rows, unique)), next)
  }

  ghost predicate LoadsOn(c: Checks, disk: Disk, df: string, unique: bool, rows: seq<Row>) {
    df in disk && disk[df].Index? && CaRuns.Loads(c, disk[df].text, unique, rows)
  }

  lemma LoadsOnce(c: Checks, disk: Disk, df: string, unique: bool, a: seq<Row>, b: seq<Row>)
    requires LoadsOn(c, disk, df, unique, a) && LoadsOn(c, disk, df, unique, b)
    ensures a == b
  {
    SameFields(a, b);
  }

  /**
   * One run of the program: it loads the database once and then carries out its parts, until one fails. If it
   * succeeds, all of them have been carried out in order on the rows loaded, and live index and live serial say so. If
   * it fails although they all could be carried out, a file operation was refused.
   */
  method RunCommand(
      c: Checks, fs: Fs, sf: string, df: string, parts: seq<Part>, unique: bool, hash: string -> nat,
      ghost base: seq<Row>, foreign: set<int>)
    returns (ok: bool)
    requires fs.Valid() && Separate(sf, df) && Consistent(fs.disk, sf, df, base, foreign) && OneLineParts(parts)
    modifies fs
    ensures fs.Valid() && old(fs.history) <= fs.history
    ensures Consistent(fs.disk, sf, df, base, foreign)
    ensures ConsistentSince(|old(fs.history)|, fs, sf, df, base, foreign)
    ensures ok ==> Opens(c, old(fs.disk), df, unique)
    ensures ok && CleanParts(c, parts) ==> Opens(c, fs.disk, df, unique)
    ensures old(fs.clock) <= fs.clock
    ensures forall rows :: LoadsOn(c, old(fs.disk), df, unique, rows) ==>
      var b := Opened(rows, unique, NextOn(old(fs.disk), sf));
      && (ok ==> Done(c, b, parts, old(fs.disk), fs.disk, sf, df))
      && (ok && CleanParts(c, parts) ==> LoadsOn(c, fs.disk, df, unique, CarriedAll(c, b, parts).ca.rows))
      && (ok && foreign == {} ==> CanCarryAll(c, b, parts, foreign, hash))
      && (!ok && PathsFit(sf, df) && CanCarryAll(c, b, parts, foreign, hash) ==>
            Refusals(fs.refuses, old(fs.clock), fs.clock) >= 1)
  {
    var db := Open(c, fs, sf, df, unique, hash, base, foreign);
    if db == null { return false; }
    ghost var rows, disk := db.rows, fs.disk;
    forall other | LoadsOn(c, disk, df, unique, other) ensures other == rows {
      LoadsOnce(c, disk, df, unique, other, rows);
    }
    ok := CarryOut(c, fs, db, sf, df, parts, base, foreign);
  }

  datatype Command = Command(parts: seq<Part>, unique: bool)

  /** What the index and the serial say after commands that all are carried out. */
  ghost function AllCarried(c: Checks, rows: seq<Row>, next: Option<nat>, commands: seq<Command>)
      : (seq<Row>, Option<nat>)
    decreases |commands|
  {
    if commands == [] then (rows, next)
    else
      var end := CarriedAll(c, Opened(rows, commands[0].unique, next), commands[0].parts);
      AllCarried(c, end.ca.rows, end.next, commands[1..])
  }

  /** Every command can load what the one before it leaves, and can be carried out. */
  ghost predicate CanCarryCommands(
      c: Checks, rows: seq<Row>, next: Option<nat>, commands: seq<Command>, foreign: set<int>, hash: string -> nat)
    decreases |commands|
  {
    commands != [] ==>
      var b := Opened(rows, commands[0].unique, next);
      var end := CarriedAll(c, b, commands[0].parts);
      && (commands[0].unique ==> DistinctValidNames(rows)) && CleanParts(c, commands[0].parts)
      && CanCarryAll(c, b, commands[0].parts, foreign, hash)
      && CanCarryCommands(c, end.ca.rows, end.next, commands[1..], foreign, hash)
  }

  ghost predicate OneLineCommands(commands: seq<Command>) {
    forall i :: 0 <= i < |commands| ==> OneLineParts(commands[i].parts)
  }

  lemma LoadsEitherWay(c: Checks, disk: Disk, df: string, unique: bool, rows: seq<Row>)
    ensures LoadsOn(c, disk, df, unique, rows) <==>
      LoadsOn(c, disk, df, false, rows) && (unique ==> DistinctValidNames(rows))
  {
  }

  /**
   * Any number of runs of the program, each of which may be cut short anywhere. At every moment, if the live index is
   * there, no row of `base` is lost or set back in it; and if the live serial is there as well, every serial of the
   * index is below it or foreign. If every command can be carried out and nothing is refused, index and serial end up
   * as all the commands, one after the other, make them.
   */
  method RunCommands(
      c: Checks, fs: Fs, sf: string, df: string, commands: seq<Command>, hash: string -> nat,
      ghost base: seq<Row>, foreign: set<int>)
    requires fs.Valid() && Separate(sf, df) && Consistent(fs.disk, sf, df, base, foreign) && OneLineCommands(commands)
    modifies fs
    ensures fs.Valid() && old(fs.history) <= fs.history
    ensures Consistent(fs.disk, sf, df, base, foreign)
    ensures ConsistentSince(|old(fs.history)|, fs, sf, df, base, foreign)
    ensures old(fs.clock) <= fs.clock
    ensures forall rows :: LoadsOn(c, old(fs.disk), df, false, rows) ==>
      var next := NextOn(old(fs.disk), sf);
      PathsFit(sf, df) && CanCarryCommands(c, rows, next, commands, foreign, hash) &&
      Refusals(fs.refuses, old(fs.clock), fs.clock) == 0 ==>
        LoadsOn(c, fs.disk, df, false, AllCarried(c, rows, next, commands).0) &&
        NextOn(fs.disk, sf) == AllCarried(c, rows, next, commands).1
    decreases |commands|
  {
    if commands == [] { return; }
    ghost var clock, disk := fs.clock, fs.disk;
    var ok := RunCommand(c, fs, sf, df, commands[0].parts, commands[0].unique, hash, base, foreign);
    ghost var at, mid := fs.clock, fs.disk;
    RunCommands(c, fs, sf, df, commands[1..], hash, base, foreign);
    RefusalsSplit(fs.refuses, clock, at, fs.clock);
    forall rows | LoadsOn(c, disk, df, false, rows) && PathsFit(sf, df) &&
                  CanCarryCommands(c, rows, NextOn(disk, sf), commands, foreign, hash) &&
                  Refusals(fs.refuses, clock, fs.clock) == 0
      ensures LoadsOn(c, fs.disk, df, false, AllCarried(c, rows, NextOn(disk, sf), commands).0)
      ensures NextOn(fs.disk, sf) == AllCarried(c, rows, NextOn(disk, sf), commands).1
    {
      LoadsEitherWay(c, disk, df, commands[0].unique, rows);
      var end := CarriedAll(c, Opened(rows, commands[0].unique, NextOn(disk, sf)), commands[0].parts);
      assert ok;
      LoadsEitherWay(c, mid, df, commands[0].unique, end.ca.rows);
    }
  }
}
