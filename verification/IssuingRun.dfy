/** The issuing loop of `ca`: sign, number consecutively, and add to the database. */
module IssuingRun {
  import opened Hex
  import opened RevInfo
  import opened Wrappers
  import opened CaMachine
  import opened CaDatabase

  /** What the database takes from a signed certificate, apart from its serial. */
  datatype Signing = Signing(exp: string, name: string)

  /**
   * How one request ends: signed; turned away because its signature does not fit, before the database is asked;
   * declined by the operator, after the database has been asked; or in another error, which ends the command.
   */
  datatype Request = Signed(signing: Signing) | TurnedAway | Declined | Failed

  function SignedFor(req: Request): seq<Signing> {
    if req.Signed? then [req.signing] else []
  }

  /** The signed ones among the first `n` requests. */
  ghost function SignedUpTo(reqs: seq<Request>, n: nat): seq<Signing>
    requires n <= |reqs|
  {
    if n == 0 then [] else SignedUpTo(reqs, n - 1) + SignedFor(reqs[n - 1])
  }

  ghost function SignedOf(reqs: seq<Request>): seq<Signing> {
    SignedUpTo(reqs, |reqs|)
  }

  function RowOf(serial: nat, s: Signing): Row {
    NewRow(Cert(serial, s.exp, s.name))
  }

  /** The rows one request adds when the next serial is `serial`. */
  function RowsFor(serial: nat, req: Request): seq<Row> {
    if req.Signed? then [RowOf(serial, req.signing)] else []
  }

  /** One row for each of `signed`, with consecutive serials from `serial` on. */
  ghost function Numbered(serial: nat, signed: seq<Signing>): (rows: seq<Row>)
    ensures |rows| == |signed|
  {
    seq(|signed|, k requires 0 <= k < |signed| => RowOf(serial + k, signed[k]))
  }

  /** The rows a run adds: those of the signed requests in order. */
  ghost function NewRows(serial: nat, reqs: seq<Request>): seq<Row> {
    Numbered(serial, SignedOf(reqs))
  }

  lemma NumberedStep(serial: nat, signed: seq<Signing>, req: Request)
    ensures Numbered(serial, signed + SignedFor(req)) == Numbered(serial, signed) + RowsFor(serial + |signed|, req)
  {
  }

  /** The signed requests of a run are those of its parts, in order. */
  lemma {:induction false} SignedJoin(a: seq<Request>, b: seq<Request>)
    ensures SignedOf(a + b) == SignedOf(a) + SignedOf(b)
    decreases |b|
  {
    if b == [] {
      assert a + b == a;
    } else {
      var n := |b| - 1;
      SignedJoin(a, b[..n]);
      SignedSame(a + b, a + b[..n], |a| + n);
      SignedSame(b, b[..n], n);
      Associate(SignedOf(a), SignedOf(b[..n]), SignedFor(b[n]));
    }
  }

  lemma {:induction false} SignedSame(a: seq<Request>, b: seq<Request>, n: nat)
    requires n <= |a| && n <= |b| && a[..n] == b[..n]
    ensures SignedUpTo(a, n) == SignedUpTo(b, n)
  {
    if n == 0 {
    } else {
      assert a[..n - 1] == a[..n][..n - 1] == b[..n][..n - 1] == b[..n - 1];
      assert a[n - 1] == a[..n][n - 1] == b[..n][n - 1] == b[n - 1];
      SignedSame(a, b, n - 1);
    }
  }

  /** What becomes of one request, and of the next after it. */
  lemma OneRequest(req: Request)
    ensures SignedOf([req]) == if req.Signed? then [req.signing] else []
  {
    assert SignedUpTo([req], 0) == [];
  }

  /** The k-th new row: valid, not revoked, with the k-th serial from the first one on. */
  lemma NewRowIs(serial: nat, reqs: seq<Request>, k: nat)
    requires k < |SignedOf(reqs)|
    ensures |NewRows(serial, reqs)| == |SignedOf(reqs)| && var s := SignedOf(reqs)[k];
      NewRows(serial, reqs)[k] == Row("V", s.exp, "", SerialText(serial + k), "unknown", s.name)
  {
  }

  // ---- when a run of requests is accepted ----

  ghost predicate NoneFailed(reqs: seq<Request>, n: nat)
    requires n <= |reqs|
  {
    forall i :: 0 <= i < n ==> !reqs[i].Failed?
  }

  /** The names signed among the first `n` requests. */
  ghost function NamesSigned(reqs: seq<Request>, n: nat): set<string>
    requires n <= |reqs|
  {
    set i | 0 <= i < n && reqs[i].Signed? :: reqs[i].signing.name
  }

  ghost predicate NamesDiffer(reqs: seq<Request>, n: nat)
    requires n <= |reqs|
  {
    forall i, j :: 0 <= i < j < n && reqs[i].Signed? && reqs[j].Signed? ==> reqs[i].signing.name != reqs[j].signing.name
  }

  ghost predicate NamesFree(reqs: seq<Request>, n: nat, held: set<string>)
    requires n <= |reqs|
  {
    forall i :: 0 <= i < n && reqs[i].Signed? ==> reqs[i].signing.name !in held
  }

  /** The database is asked about the requests that are signed and about those the operator declines. */
  predicate Asked(req: Request) {
    req.Signed? || req.Declined?
  }

  /** No lookup by a missing name meets a name with its hash, neither one held at first nor one signed before. */
  ghost predicate LookupsSafe(reqs: seq<Request>, n: nat, held: set<string>, hash: string -> nat)
    requires n <= |reqs|
  {
    forall i :: 0 <= i < n && Asked(reqs[i]) ==>
      HashesDiffer(held, hash) && forall j :: 0 <= j < i && reqs[j].Signed? ==> hash(reqs[j].signing.name) != NULL_HASH
  }

  /**
   * The first `n` requests: none ends in an error and, with unique subjects, the names signed are new and different,
   * and the database can be asked for a missing name each time.
   */
  ghost predicate Acceptable(reqs: seq<Request>, n: nat, unique: bool, held: set<string>, hash: string -> nat)
    requires n <= |reqs|
  {
    && NoneFailed(reqs, n)
    && (unique ==> NamesDiffer(reqs, n) && NamesFree(reqs, n, held) && LookupsSafe(reqs, n, held, hash))
  }

  ghost predicate AcceptableNext(req: Request, unique: bool, held: set<string>, hash: string -> nat) {
    && !req.Failed?
    && (unique && Asked(req) ==> HashesDiffer(held, hash))
    && (unique && req.Signed? ==> req.signing.name !in held)
  }

  lemma LookupsMore(reqs: seq<Request>, n: nat, held: set<string>, hash: string -> nat)
    requires n < |reqs|
    ensures LookupsSafe(reqs, n + 1, held, hash) <==>
      LookupsSafe(reqs, n, held, hash) && (Asked(reqs[n]) ==> HashesDiffer(held + NamesSigned(reqs, n), hash))
  {
    var more := held + NamesSigned(reqs, n);
    if HashesDiffer(more, hash) {
      forall j | 0 <= j < n && reqs[j].Signed? ensures hash(reqs[j].signing.name) != NULL_HASH {
        assert reqs[j].signing.name in more;
      }
    }
  }

  lemma NamesMore(reqs: seq<Request>, n: nat, held: set<string>)
    requires n < |reqs|
    ensures held + NamesSigned(reqs, n + 1) ==
      held + NamesSigned(reqs, n) + if reqs[n].Signed? then {reqs[n].signing.name} else {}
  {
  }

  lemma DifferMore(reqs: seq<Request>, n: nat)
    requires n < |reqs|
    ensures NamesDiffer(reqs, n + 1) <==>
      NamesDiffer(reqs, n) && (reqs[n].Signed? ==> reqs[n].signing.name !in NamesSigned(reqs, n))
  {
  }

  lemma FreeMore(reqs: seq<Request>, n: nat, held: set<string>)
    requires n < |reqs|
    ensures NamesFree(reqs, n + 1, held) <==>
      NamesFree(reqs, n, held) && (reqs[n].Signed? ==> reqs[n].signing.name !in held)
  {
  }

  lemma AcceptableStep(reqs: seq<Request>, n: nat, unique: bool, held: set<string>, hash: string -> nat)
    requires n < |reqs|
    ensures var now := held + NamesSigned(reqs, n);
      && (Acceptable(reqs, n + 1, unique, held, hash) <==>
            Acceptable(reqs, n, unique, held, hash) && AcceptableNext(reqs[n], unique, now, hash))
      && held + NamesSigned(reqs, n + 1) == now + if reqs[n].Signed? then {reqs[n].signing.name} else {}
  {
    NamesMore(reqs, n, held);
    DifferMore(reqs, n);
    FreeMore(reqs, n, held);
    LookupsMore(reqs, n, held, hash);
    assert NoneFailed(reqs, n + 1) <==> NoneFailed(reqs, n) && !reqs[n].Failed?;
  }

  lemma UnacceptableStays(reqs: seq<Request>, m: nat, n: nat, unique: bool, held: set<string>, hash: string -> nat)
    requires m <= n <= |reqs| && !Acceptable(reqs, m, unique, held, hash)
    ensures !Acceptable(reqs, n, unique, held, hash)
  {
  }

  /** A request that the operator declines, which is after the database has been asked. */
  method AskOnly(db: CaDb, serial: nat) returns (ok: bool)
    requires db.Valid()
    ensures Below(db.rows, serial) ==> (ok <==> AcceptableNext(Declined, db.unique, db.Abs().held, db.hash))
  {
    if Below(db.rows, serial) { NextSerialIsNew(db.rows, serial); }
    var outcome := db.LookUp(SerialText(serial));
    ok := outcome == Passed;
  }

  /** A request that is signed. */
  method Sign(db: CaDb, serial: nat, s: Signing) returns (ok: bool)
    requires db.Valid()
    modifies db
    ensures db.Valid() && db.unique == old(db.unique)
    ensures ok ==> db.rows == old(db.rows) + [RowOf(serial, s)]
    ensures ok && db.unique ==> db.Abs().held == old(db.Abs().held) + {s.name}
    ensures Below(old(db.rows), serial) ==> (ok <==> AcceptableNext(Signed(s), db.unique, old(db.Abs().held), db.hash))
    ensures Below(old(db.rows), serial) && ok ==> Below(db.rows, serial + 1)
  {
    if Below(db.rows, serial) {
      NextSerialIsNew(db.rows, serial);
      OneMoreBelow(db.rows, serial, s);
    }
    var outcome := db.Issue(Cert(serial, s.exp, s.name));
    ok := outcome == Passed;
  }

  /** One request: `certify` and the bookkeeping after it. */
  method IssueOne(db: CaDb, serial: nat, req: Request) returns (ok: bool, next: nat)
    requires db.Valid()
    modifies db
    ensures db.Valid() && db.unique == old(db.unique)
    ensures ok ==> next == serial + |SignedFor(req)| && db.rows == old(db.rows) + RowsFor(serial, req)
    ensures ok && db.unique ==> db.Abs().held == old(db.Abs().held) + if req.Signed? then {req.signing.name} else {}
    ensures Below(old(db.rows), serial) ==> (ok <==> AcceptableNext(req, db.unique, old(db.Abs().held), db.hash))
    ensures Below(old(db.rows), serial) && ok ==> Below(db.rows, next)
  {
    match req
    case Failed => return false, serial;
    case TurnedAway => return true, serial;
    case Declined =>
      ok := AskOnly(db, serial);
      next := serial;
    case Signed(s) =>
      ok := Sign(db, serial, s);
      next := if ok then serial + 1 else serial;
  }

  lemma OneMoreBelow(rows: seq<Row>, n: nat, s: Signing)
    requires Below(rows, n)
    ensures Below(rows + [RowOf(n, s)], n + 1)
  {
    BelowMonotone(rows, n, n + 1);
    NewRowBelow(Cert(n, s.exp, s.name), n + 1);
  }

  /** Where the loop has come to after the first `i` requests. */
  ghost predicate SoFar(base: Ca, serial: nat, reqs: seq<Request>, i: nat, now: Ca, next: nat, hash: string -> nat)
    requires i <= |reqs|
  {
    && next == serial + |SignedUpTo(reqs, i)|
    && now.rows == base.rows + Numbered(serial, SignedUpTo(reqs, i)) && now.unique == base.unique
    && (base.unique ==> now.held == base.held + NamesSigned(reqs, i))
    && (Below(base.rows, serial) ==> Below(now.rows, next) && Acceptable(reqs, i, base.unique, base.held, hash))
  }

  lemma SoFarStep(base: Ca, serial: nat, reqs: seq<Request>, i: nat, now: Ca, next: nat, now': Ca, next': nat,
                  hash: string -> nat)
    requires i < |reqs| && SoFar(base, serial, reqs, i, now, next, hash)
    requires next' == next + |SignedFor(reqs[i])|
    requires now'.rows == now.rows + RowsFor(next, reqs[i]) && now'.unique == now.unique
    requires now.unique ==> now'.held == now.held + if reqs[i].Signed? then {reqs[i].signing.name} else {}
    requires Below(now.rows, next) ==> AcceptableNext(reqs[i], now.unique, now.held, hash) && Below(now'.rows, next')
    ensures SoFar(base, serial, reqs, i + 1, now', next', hash)
  {
    var signed := SignedUpTo(reqs, i);
    NumberedStep(serial, signed, reqs[i]);
    Associate(base.rows, Numbered(serial, signed), RowsFor(next, reqs[i]));
    AcceptableStep(reqs, i, base.unique, base.held, hash);
  }

  method IssueNext(db: CaDb, ghost base: Ca, ghost serial: nat, reqs: seq<Request>, i: nat, next: nat)
    returns (ok: bool, next': nat)
    requires db.Valid() && i < |reqs| && SoFar(base, serial, reqs, i, db.Abs(), next, db.hash)
    modifies db
    ensures db.Valid() && db.unique == old(db.unique)
    ensures ok ==> SoFar(base, serial, reqs, i + 1, db.Abs(), next', db.hash)
    ensures !ok && Below(base.rows, serial) ==> !Acceptable(reqs, |reqs|, base.unique, base.held, db.hash)
  {
    ghost var now := db.Abs();
    ok, next' := IssueOne(db, next, reqs[i]);
    if ok {
      SoFarStep(base, serial, reqs, i, now, next, db.Abs(), next', db.hash);
    } else if Below(base.rows, serial) {
      AcceptableStep(reqs, i, base.unique, base.held, db.hash);
      UnacceptableStays(reqs, i + 1, |reqs|, base.unique, base.held, db.hash);
    }
  }

  /** The database after a run of requests: the new rows at its end, and their names held if subjects are unique. */
  ghost function AfterIssuing(ca: Ca, serial: nat, reqs: seq<Request>): Ca {
    Ca(ca.rows + NewRows(serial, reqs), ca.unique, if ca.unique then ca.held + NamesSigned(reqs, |reqs|) else ca.held)
  }

  ghost function NextAfter(serial: nat, reqs: seq<Request>): nat {
    serial + |SignedOf(reqs)|
  }

  /**
   * The loop over the requests. From a database whose serials are all below the next one, it succeeds exactly when
   * the requests are acceptable: the serials never stand in the way.
   */
  method IssueLoop(db: CaDb, serial: nat, reqs: seq<Request>) returns (ok: bool, next: nat)
    requires db.Valid()
    modifies db
    ensures db.Valid() && db.unique == old(db.unique)
    ensures Below(old(db.rows), serial) ==> (ok <==> Acceptable(reqs, |reqs|, db.unique, old(db.Abs().held), db.hash))
    ensures ok ==> next == NextAfter(serial, reqs) && db.Abs() == AfterIssuing(old(db.Abs()), serial, reqs)
  {
    next := serial;
    ghost var base := db.Abs();
    var i := 0;
    assert base.rows + Numbered(serial, []) == base.rows && NamesSigned(reqs, 0) == {};
    while i < |reqs|
      invariant i <= |reqs| && db.Valid() && db.unique == old(db.unique)
      invariant SoFar(base, serial, reqs, i, db.Abs(), next, db.hash)
    {
      ok, next := IssueNext(db, base, serial, reqs, i, next);
      if !ok { return; }
      i := i + 1;
    }
    ok := true;
  }

  // ---- serials below the next one ----

  ghost predicate RowBelow(row: Row, n: nat) {
    (row.serial != "" && row.serial[0] == '-') || (AllHex(row.serial) && HexValue(row.serial) < n)
  }

  ghost predicate Below(rows: seq<Row>, n: nat) {
    forall i :: 0 <= i < |rows| ==> RowBelow(rows[i], n)
  }

  lemma NewRowBelow(cert: Cert, n: nat)
    requires cert.serial >= 0
    ensures RowBelow(NewRow(cert), n) <==> cert.serial < n
  {
    SerialTextValue(cert.serial);
  }

  /** If every serial is below the next one before the run, the new ones are below the next one after it. */
  lemma NumberedBelow(rows: seq<Row>, serial: nat, reqs: seq<Request>)
    requires Below(rows, serial)
    ensures Below(rows + NewRows(serial, reqs), serial + |SignedOf(reqs)|)
  {
    var signed := SignedOf(reqs);
    BelowMonotone(rows, serial, serial + |signed|);
    forall k | 0 <= k < |signed| ensures RowBelow(NewRows(serial, reqs)[k], serial + |signed|) {
      NewRowBelow(Cert(serial + k, signed[k].exp, signed[k].name), serial + |signed|);
    }
  }

  /** A serial above every serial in the database is never refused as "already issued". */
  lemma NextSerialIsNew(rows: seq<Row>, n: nat)
    requires Below(rows, n)
    ensures Find(rows, KeyOf(n)).None?
  {
    SerialTextValue(n);
    StripSubset(SerialText(n));
    forall i | 0 <= i < |rows| ensures rows[i].Key() != KeyOf(n) {
      assert RowBelow(rows[i], n);
      if AllHex(rows[i].serial) {
        SerialFoundIff(rows[i].serial, n);
      } else {
        assert rows[i].Key()[0] == '-';
        assert rows[i].Key() == KeyOf(n) ==> '-' in KeyOf(n);
      }
    }
  }

  lemma RevokeAtKeepsSerials(c: Checks, ca: Ca, i: nat, cert: Cert, kind: RevType, arg: string, now: string)
    requires i < |ca.rows|
    ensures var rows := RevokeAt(c, ca, i, cert, kind, arg, now).0.rows;
      |rows| == |ca.rows| && forall k :: 0 <= k < |rows| ==> rows[k].serial == ca.rows[k].serial
  {
  }

  lemma RevokeKeepsSerials(c: Checks, ca: Ca, cert: Cert, kind: RevType, arg: string, now: string)
    requires Revoke(c, ca, cert, kind, arg, now).1
    ensures var rows := Revoke(c, ca, cert, kind, arg, now).0.rows;
      && (forall i :: 0 <= i < |ca.rows| ==> i < |rows| && rows[i].serial == ca.rows[i].serial)
      && if Find(ca.rows, KeyOf(cert.serial)).Some? then |rows| == |ca.rows|
         else |rows| == |ca.rows| + 1 && rows[|ca.rows|].serial == SerialText(cert.serial)
  {
    match Find(ca.rows, KeyOf(cert.serial))
    case Some(i) => RevokeAtKeepsSerials(c, ca, i, cert, kind, arg, now);
    case None =>
      var added := CaMachine.Insert(ca, NewRow(cert)).value;
      RevokeAtKeepsSerials(c, added, |ca.rows|, cert, kind, arg, now);
  }

  /** Revoking an unknown certificate adds its row: serials stay below the next one exactly when that serial is. */
  lemma RevokeKeepsBelowIff(c: Checks, ca: Ca, cert: Cert, kind: RevType, arg: string, now: string, n: nat)
    requires Below(ca.rows, n) && Revoke(c, ca, cert, kind, arg, now).1
    ensures Below(Revoke(c, ca, cert, kind, arg, now).0.rows, n) <==>
      cert.serial < n || Find(ca.rows, KeyOf(cert.serial)).Some?
  {
    var rows := Revoke(c, ca, cert, kind, arg, now).0.rows;
    RevokeKeepsSerials(c, ca, cert, kind, arg, now);
    forall i | 0 <= i < |ca.rows| ensures RowBelow(rows[i], n) { assert RowBelow(ca.rows[i], n); }
    if Find(ca.rows, KeyOf(cert.serial)).None? {
      if cert.serial >= 0 { NewRowBelow(cert, n); } else { NegativeSerialText(cert.serial); }
      assert RowBelow(rows[|ca.rows|], n) <==> cert.serial < n;
    }
  }

  lemma BelowMonotone(rows: seq<Row>, m: nat, n: nat)
    requires Below(rows, m) && m <= n
    ensures Below(rows, n)
  {
  }
}
