/** The responder: what `ocsp` answers from a database, and that a revocation is answered for ever, on disk as well. */
module Ocsp {
  import opened CStrings
  import opened RevInfo
  import opened Wrappers
  import opened CaMachine
  import opened CaCommands
  import opened CaDatabase
  import opened CaFiles
  import opened CaText
  import opened FileSystem
  import CaRuns

  /** The digest the client chose, the two issuer hashes it computed with it, and the serial asked about. */
  datatype CertId = CertId(digest: string, nameHash: string, keyHash: string, serial: int)

  /** The digests this program knows, and the hashes of our own CA under each. */
  datatype Issuer = Issuer(known: string -> bool, nameHash: string -> string, keyHash: string -> string)

  datatype Status = Good | Revoked(info: Info) | Unknown

  datatype Single = Single(id: CertId, status: Status)

  datatype Response = MalformedRequest | InternalError | Successful(singles: seq<Single>)

  /** The id was made with the hashes of this CA. */
  ghost predicate Ours(ca: Issuer, id: CertId) {
    id.nameHash == ca.nameHash(id.digest) && id.keyHash == ca.keyHash(id.digest)
  }

  /**
   * The status section 2.2 of RFC 2560 asks for. An expired certificate gets no entry at all, and neither does a
   * revoked one whose time of revocation is no UTCTime: `OCSP_basic_add1_status` refuses it.
   */
  function StatusOf(c: Checks, ca: Issuer, rows: seq<Row>, id: CertId): Option<Status> {
    var f := Find(rows, KeyOf(id.serial));
    if id.nameHash != ca.nameHash(id.digest) || id.keyHash != ca.keyHash(id.digest) || f.None? then Some(Unknown)
    else
      var row := rows[f.value];
      if row.Kind() == 'V' then Some(Good)
      else if row.Kind() == 'R' then
        (var info := Left(c, row.rev);
         if info.None? then None else Some(Revoked(info.value)))
      else None
  }

  function Singles(c: Checks, ca: Issuer, rows: seq<Row>, ids: seq<CertId>): seq<Single> {
    if ids == [] then []
    else
      var n := |ids| - 1;
      var s := StatusOf(c, ca, rows, ids[n]);
      Singles(c, ca, rows, ids[..n]) + if s.None? then [] else [Single(ids[n], s.value)]
  }

  ghost predicate AllKnown(ca: Issuer, ids: seq<CertId>) {
    forall id :: id in ids ==> ca.known(id.digest)
  }

  lemma KnownStep(ca: Issuer, ids: seq<CertId>, i: nat)
    requires i < |ids| && AllKnown(ca, ids[..i])
    ensures AllKnown(ca, ids[..i + 1]) <==> ca.known(ids[i].digest)
    ensures !ca.known(ids[i].digest) ==> !AllKnown(ca, ids)
  {
  }

  lemma SinglesStep(c: Checks, ca: Issuer, rows: seq<Row>, ids: seq<CertId>, i: nat)
    requires i < |ids|
    ensures var s := StatusOf(c, ca, rows, ids[i]);
      Singles(c, ca, rows, ids[..i + 1]) ==
        Singles(c, ca, rows, ids[..i]) + if s.None? then [] else [Single(ids[i], s.value)]
  {
    assert ids[..i + 1][..i] == ids[..i];
  }

  /** The branches of the loop body, for an id whose digest is known. */
  method Answer(c: Checks, ca: Issuer, db: CaDb, cid: CertId) returns (r: Option<Status>)
    requires db.Valid() && forall i :: 0 <= i < |db.rows| ==> NoNul(db.rows[i].rev)
    ensures r == StatusOf(c, ca, db.rows, cid)
  {
    if ca.nameHash(cid.digest) != cid.nameHash || ca.keyHash(cid.digest) != cid.keyHash { return Some(Unknown); }
    var inf := db.LookupSerial(cid.serial);
    if inf.None? { return Some(Unknown); }
    if inf.value.Kind() == 'V' { return Some(Good); }
    if inf.value.Kind() == 'R' {
      var _, left := UnpackRevInfo(c, inf.value.rev);
      return if left.None? then None else Some(Revoked(left.value));
    }
    return None;
  }

  /** `make_ocsp_response`: one digest that is not known spoils the whole response. */
  method MakeResponse(c: Checks, ca: Issuer, db: CaDb, ids: seq<CertId>) returns (r: Response)
    requires db.Valid() && forall i :: 0 <= i < |db.rows| ==> NoNul(db.rows[i].rev)
    ensures r.MalformedRequest? <==> ids == []
    ensures r.InternalError? <==> ids != [] && !AllKnown(ca, ids)
    ensures r.Successful? ==> r.singles == Singles(c, ca, db.rows, ids)
  {
    if |ids| == 0 { return MalformedRequest; }
    var singles := [];
    var i := 0;
    while i < |ids|
      invariant i <= |ids| && AllKnown(ca, ids[..i])
      invariant singles == Singles(c, ca, db.rows, ids[..i])
    {
      KnownStep(ca, ids, i);
      if !ca.known(ids[i].digest) { return InternalError; }
      var status := Answer(c, ca, db, ids[i]);
      if status.Some? { singles := singles + [Single(ids[i], status.value)]; }
      SinglesStep(c, ca, db.rows, ids, i);
      i := i + 1;
    }
    assert ids[..i] == ids;
    return Successful(singles);
  }

  lemma LastAnswer(c: Checks, ca: Issuer, rows: seq<Row>, ids: seq<CertId>, s: Single)
    requires ids != []
    ensures var n := |ids| - 1; s in Singles(c, ca, rows, ids) <==>
      s in Singles(c, ca, rows, ids[..n]) || (s.id == ids[n] && StatusOf(c, ca, rows, ids[n]) == Some(s.status))
  {
    var n := |ids| - 1;
    var status := StatusOf(c, ca, rows, ids[n]);
    assert s == Single(s.id, s.status);
    if status.None? { assert Singles(c, ca, rows, ids) == Singles(c, ca, rows, ids[..n]); }
  }

  /** What the answers are, id by id: those of the ids that get one, in the order of the request. */
  lemma {:induction false} EveryAnswer(c: Checks, ca: Issuer, rows: seq<Row>, ids: seq<CertId>, s: Single)
    ensures s in Singles(c, ca, rows, ids) <==> s.id in ids && StatusOf(c, ca, rows, s.id) == Some(s.status)
  {
    if ids == [] {
    } else {
      var n := |ids| - 1;
      EveryAnswer(c, ca, rows, ids[..n], s);
      LastAnswer(c, ca, rows, ids, s);
      assert s.id in ids <==> s.id in ids[..n] || s.id == ids[n];
    }
  }

  /** The answers to a list of ids are those to its parts, in order. */
  lemma {:induction false} AnswersJoin(c: Checks, ca: Issuer, rows: seq<Row>, a: seq<CertId>, b: seq<CertId>)
    ensures Singles(c, ca, rows, a + b) == Singles(c, ca, rows, a) + Singles(c, ca, rows, b)
    decreases |b|
  {
    if b == [] {
      assert a + b == a;
    } else {
      var n := |b| - 1;
      AnswersJoin(c, ca, rows, a, b[..n]);
      assert (a + b)[..|a + b| - 1] == a + b[..n];
      var s := StatusOf(c, ca, rows, b[n]);
      Associate(Singles(c, ca, rows, a), Singles(c, ca, rows, b[..n]),
                if s.None? then [] else [Single(b[n], s.value)]);
    }
  }

  /** A row of this kind has the serial of the id. */
  ghost predicate RowOfKind(rows: seq<Row>, serial: int, kind: char) {
    exists i :: 0 <= i < |rows| && rows[i].Key() == KeyOf(serial) && rows[i].Kind() == kind
  }

  lemma KindFound(rows: seq<Row>, serial: int, kind: char)
    requires DistinctKeys(rows)
    ensures RowOfKind(rows, serial, kind) <==>
      var f := Find(rows, KeyOf(serial)); f.Some? && rows[f.value].Kind() == kind
  {
    if RowOfKind(rows, serial, kind) {
      var i :| 0 <= i < |rows| && rows[i].Key() == KeyOf(serial) && rows[i].Kind() == kind;
      FindIs(rows, i);
    }
  }

  /**
   * Who is answered what, by the rows: "good" exactly for a valid row of this CA, "unknown" exactly for another CA or a
   * serial without a row, and nothing for an expired row.
   */
  lemma WhoIsAnswered(c: Checks, ca: Issuer, rows: seq<Row>, ids: seq<CertId>, id: CertId)
    requires DistinctKeys(rows) && id in ids
    ensures Single(id, Good) in Singles(c, ca, rows, ids) <==> Ours(ca, id) && RowOfKind(rows, id.serial, 'V')
    ensures Single(id, Unknown) in Singles(c, ca, rows, ids) <==> !(Ours(ca, id) && Known(rows, id.serial))
    ensures Ours(ca, id) && RowOfKind(rows, id.serial, 'E') ==>
      forall s :: s in Singles(c, ca, rows, ids) ==> s.id != id
  {
    EveryAnswer(c, ca, rows, ids, Single(id, Good));
    EveryAnswer(c, ca, rows, ids, Single(id, Unknown));
    KindFound(rows, id.serial, 'V');
    KindFound(rows, id.serial, 'E');
    forall s | s in Singles(c, ca, rows, ids) && s.id == id ensures StatusOf(c, ca, rows, id).Some? {
      EveryAnswer(c, ca, rows, ids, s);
    }
  }

  /** "Revoked" is answered exactly for a revoked row of this CA with a good time, with what its column says. */
  lemma WhoIsRevoked(c: Checks, ca: Issuer, rows: seq<Row>, ids: seq<CertId>, id: CertId, info: Info)
    requires DistinctKeys(rows) && id in ids
    ensures Single(id, Revoked(info)) in Singles(c, ca, rows, ids) <==>
      && Ours(ca, id)
      && exists i :: 0 <= i < |rows| && rows[i].Key() == KeyOf(id.serial) && rows[i].Kind() == 'R' &&
                     Left(c, rows[i].rev) == Some(info)
  {
    EveryAnswer(c, ca, rows, ids, Single(id, Revoked(info)));
    forall i | 0 <= i < |rows| && rows[i].Key() == KeyOf(id.serial)
      ensures Find(rows, KeyOf(id.serial)) == Some(i)
    {
      FindIs(rows, i);
    }
  }

  /**
   * A certificate just issued is answered "good" by every later database of every run that gets through exactly until
   * an event revokes it or marks it as expired.
   */
  lemma GoodUntilEnded(
      c: Checks, issuer: Issuer, ca: Ca, cert: Cert, later: seq<CaRuns.Event>, ids: seq<CertId>, id: CertId)
    requires Inv(ca) && OneLineRows(ca.rows) && CaMachine.Issue(ca, cert).1 && OneLineCert(cert.exp, cert.name)
    requires forall k :: 0 <= k < |later| ==> CaRuns.OneLineEvent(later[k])
    requires id in ids && Ours(issuer, id) && id.serial == cert.serial
    ensures var issued := CaMachine.Issue(ca, cert).0;
      var end := CaRuns.Run(c, issued, later);
      end.Some? ==> (Single(id, Good) in Singles(c, issuer, end.value.rows, ids) <==>
                       CaRuns.Undisturbed(c, issued, later, cert.serial, cert.exp))
  {
    var issued, i := CaMachine.Issue(ca, cert).0, |ca.rows|;
    CaRuns.IssueStays(ca, cert);
    CaRuns.ValidUntilEnded(c, issued, later, i, cert.serial, cert.exp);
    CaRuns.EveryRun(c, issued, later);
    var end := CaRuns.Run(c, issued, later);
    if end.Some? {
      WhoIsAnswered(c, issuer, end.value.rows, ids, id);
      KindFound(end.value.rows, id.serial, 'V');
      FindIs(end.value.rows, i);
    }
  }

  ghost predicate IsRevoked(rows: seq<Row>, serial: int) {
    var f := Find(rows, KeyOf(serial));
    f.Some? && rows[f.value].Kind() == 'R'
  }

  /** A revoked serial is answered in the same words from all rows that these have grown into. */
  lemma RevokedStays(c: Checks, issuer: Issuer, before: seq<Row>, after: seq<Row>, id: CertId)
    requires Grown(before, after) && IsRevoked(before, id.serial)
    ensures IsRevoked(after, id.serial) && StatusOf(c, issuer, after, id) == StatusOf(c, issuer, before, id)
  {
    var i := Find(before, KeyOf(id.serial)).value;
    assert Evolved(before[i], after[i]);
    FoundStays(before, after, KeyOf(id.serial));
  }

  /**
   * A revoked serial is answered in the same words after every run that gets through. Nothing is asked of the dates,
   * arguments and times of later events.
   */
  lemma RevokedForEver(c: Checks, issuer: Issuer, ca: Ca, later: seq<CaRuns.Event>, id: CertId)
    requires Inv(ca) && OneLineRows(ca.rows) && forall i :: 0 <= i < |later| ==> CaRuns.OneLineEvent(later[i])
    requires IsRevoked(ca.rows, id.serial)
    ensures var end := CaRuns.Run(c, ca, later);
      end.Some? ==>
        && IsRevoked(end.value.rows, id.serial)
        && StatusOf(c, issuer, end.value.rows, id) == StatusOf(c, issuer, ca.rows, id)
  {
    CaRuns.EveryRun(c, ca, later);
    var end := CaRuns.Run(c, ca, later);
    if end.Some? { RevokedStays(c, issuer, ca.rows, end.value.rows, id); }
  }

  /** What the responder says of a certificate revoked like this: nothing at all if the time was not a UTCTime. */
  ghost function Told(c: Checks, kind: RevType, arg: string, now: string): Option<Status> {
    if c.utcTime(now) then Some(Revoked(Meant(kind, arg, now))) else None
  }

  /** Right after a revocation that succeeds, the serial is answered with what was asked for. */
  lemma RevokedAtOnce(
      c: Checks, issuer: Issuer, ca: Ca, cert: Cert, kind: RevType, arg: string, now: string, id: CertId)
    requires Inv(ca) && Revoke(c, ca, cert, kind, arg, now).1
    requires ',' !in now && Ours(issuer, id) && id.serial == cert.serial
    ensures var rows := Revoke(c, ca, cert, kind, arg, now).0.rows;
      IsRevoked(rows, id.serial) && StatusOf(c, issuer, rows, id) == Told(c, kind, arg, now)
  {
    RevokeMarks(c, ca, cert, kind, arg, now);
    LeftOfPacked(c, kind, arg, now);
  }

  /** In every response to these ids the given one has exactly this status, or none. */
  ghost predicate Tells(
      c: Checks, issuer: Issuer, rows: seq<Row>, ids: seq<CertId>, id: CertId, status: Option<Status>)
  {
    && (status.Some? ==> Single(id, status.value) in Singles(c, issuer, rows, ids))
    && forall s :: s in Singles(c, issuer, rows, ids) && s.id == id ==> Some(s.status) == status
  }

  lemma StatusIsTold(c: Checks, issuer: Issuer, rows: seq<Row>, ids: seq<CertId>, id: CertId)
    requires id in ids
    ensures Tells(c, issuer, rows, ids, id, StatusOf(c, issuer, rows, id))
  {
    var status := StatusOf(c, issuer, rows, id);
    if status.Some? { EveryAnswer(c, issuer, rows, ids, Single(id, status.value)); }
    forall s | s in Singles(c, issuer, rows, ids) && s.id == id ensures Some(s.status) == status {
      EveryAnswer(c, issuer, rows, ids, s);
    }
  }

  /**
   * Once a revocation succeeds, every later database of every run that gets through answers every question about that
   * serial of this CA with "revoked" and the time, reason and extra argument that were asked for, and with nothing
   * else; or with nothing, if the time was no UTCTime. If all events are clean the run does get through.
   */
  lemma RevocationIsPermanent(
      c: Checks, issuer: Issuer, ca: Ca, cert: Cert, kind: RevType, arg: string, now: string,
      later: seq<CaRuns.Event>, ids: seq<CertId>, id: CertId)
    requires Inv(ca) && OneLineRows(ca.rows) && Revoke(c, ca, cert, kind, arg, now).1 && ',' !in now
    requires CaRuns.OneLineEvent(CaRuns.Revoke(cert, kind, arg, now))
    requires forall i :: 0 <= i < |later| ==> CaRuns.OneLineEvent(later[i])
    requires id in ids && Ours(issuer, id) && id.serial == cert.serial
    ensures var events := [CaRuns.Revoke(cert, kind, arg, now)] + later;
      var end := CaRuns.Run(c, ca, events);
      && (end.Some? ==> Tells(c, issuer, end.value.rows, ids, id, Told(c, kind, arg, now)))
      && (CaRuns.Sound(c, ca.rows) && (forall i :: 0 <= i < |events| ==> CaRuns.Clean(c, events[i])) ==> end.Some?)
  {
    var e := CaRuns.Revoke(cert, kind, arg, now);
    var events := [e] + later;
    var revoked := Revoke(c, ca, cert, kind, arg, now).0;
    assert events[1..] == later;
    CaRuns.StepStays(c, ca, e);
    RevokedAtOnce(c, issuer, ca, cert, kind, arg, now, id);
    RevokedForEver(c, issuer, revoked, later, id);
    var end := CaRuns.Run(c, ca, events);
    if end.Some? { StatusIsTold(c, issuer, end.value.rows, ids, id); }
    if CaRuns.Sound(c, ca.rows) && forall i :: 0 <= i < |events| ==> CaRuns.Clean(c, events[i]) {
      CaRuns.CleanRunGetsThrough(c, ca, events);
    }
  }

  // ---- on disk ----

  /** Whatever the responder reads from the live index, of which it checks no row, it tells this status. */
  ghost predicate DiskTells(
      c: Checks, issuer: Issuer, disk: Disk, df: string, ids: seq<CertId>, id: CertId, status: Option<Status>)
  {
    df in disk && disk[df].Index? ==>
      forall rows :: Reads(disk[df].text, rows) ==> Tells(c, issuer, rows, ids, id, status)
  }

  lemma ConsistentTells(
      c: Checks, issuer: Issuer, ca: Ca, cert: Cert, kind: RevType, arg: string, now: string,
      disk: Disk, sf: string, df: string, foreign: set<int>, ids: seq<CertId>, id: CertId)
    requires Inv(ca) && Revoke(c, ca, cert, kind, arg, now).1 && ',' !in now
    requires Consistent(disk, sf, df, Revoke(c, ca, cert, kind, arg, now).0.rows, foreign)
    requires id in ids && Ours(issuer, id) && id.serial == cert.serial
    ensures DiskTells(c, issuer, disk, df, ids, id, Told(c, kind, arg, now))
  {
    var base, status := Revoke(c, ca, cert, kind, arg, now).0.rows, Told(c, kind, arg, now);
    RevokedAtOnce(c, issuer, ca, cert, kind, arg, now, id);
    if df in disk && disk[df].Index? {
      forall rows | Reads(disk[df].text, rows) ensures Tells(c, issuer, rows, ids, id, status) {
        RevokedStays(c, issuer, base, rows, id);
        StatusIsTold(c, issuer, rows, ids, id);
      }
    }
  }

  ghost predicate TellsSince(
      c: Checks, issuer: Issuer, history: seq<Disk>, since: nat, df: string, ids: seq<CertId>, id: CertId,
      status: Option<Status>)
  {
    forall k :: since <= k < |history| ==> DiskTells(c, issuer, history[k], df, ids, id, status)
  }

  lemma HistoryTells(
      c: Checks, issuer: Issuer, ca: Ca, cert: Cert, kind: RevType, arg: string, now: string,
      history: seq<Disk>, since: nat, sf: string, df: string, foreign: set<int>, ids: seq<CertId>, id: CertId)
    requires Inv(ca) && Revoke(c, ca, cert, kind, arg, now).1 && ',' !in now
    requires since < |history|
    requires Consistent(history[since], sf, df, Revoke(c, ca, cert, kind, arg, now).0.rows, foreign)
    requires forall k :: since < k < |history| ==>
      Consistent(history[k], sf, df, Revoke(c, ca, cert, kind, arg, now).0.rows, foreign)
    requires id in ids && Ours(issuer, id) && id.serial == cert.serial
    ensures TellsSince(c, issuer, history, since, df, ids, id, Told(c, kind, arg, now))
  {
    forall k | since <= k < |history| ensures DiskTells(c, issuer, history[k], df, ids, id, Told(c, kind, arg, now)) {
      ConsistentTells(c, issuer, ca, cert, kind, arg, now, history[k], sf, df, foreign, ids, id);
    }
  }

  /** At this moment the live index was the text of these rows. */
  ghost predicate HeldAt(history: seq<Disk>, at: nat, df: string, rows: seq<Row>) {
    at < |history| && df in history[at] && history[at][df] == Index(TextOf(rows))
  }

  lemma StillHeldAt(was: seq<Disk>, history: seq<Disk>, at: nat, df: string, rows: seq<Row>)
    requires HeldAt(was, at, df, rows) && was <= history
    ensures HeldAt(history, at, df, rows)
  {
    assert history[at] == was[at];
  }

  /** Any number of commands from a state in which a revocation has been put in place. */
  method GoOn(
      c: Checks, issuer: Issuer, fs: Fs, sf: string, df: string, commands: seq<Command>, hash: string -> nat,
      foreign: set<int>, ghost ca: Ca, cert: Cert, kind: RevType, arg: string, now: string,
      ghost ids: seq<CertId>, ghost id: CertId)
    requires fs.Valid() && Separate(sf, df) && OneLineCommands(commands)
    requires Inv(ca) && Revoke(c, ca, cert, kind, arg, now).1 && ',' !in now
    requires Consistent(fs.disk, sf, df, Revoke(c, ca, cert, kind, arg, now).0.rows, foreign)
    requires id in ids && Ours(issuer, id) && id.serial == cert.serial
    modifies fs
    ensures fs.Valid() && old(fs.history) <= fs.history
    ensures old(fs.history) != []
    ensures var since, rows := |old(fs.history)| - 1, Revoke(c, ca, cert, kind, arg, now).0.rows;
      HeldAt(old(fs.history), since, df, rows) ==> HeldAt(fs.history, since, df, rows)
    ensures TellsSince(c, issuer, fs.history, |old(fs.history)| - 1, df, ids, id, Told(c, kind, arg, now))
  {
    ghost var was, base := fs.history, Revoke(c, ca, cert, kind, arg, now).0.rows;
    ghost var since := |was| - 1;
    RunCommands(c, fs, sf, df, commands, hash, base, foreign);
    assert fs.history[since] == was[since];
    if HeldAt(was, since, df, base) { StillHeldAt(was, fs.history, since, df, base); }
    HistoryTells(c, issuer, ca, cert, kind, arg, now, fs.history, since, sf, df, foreign, ids, id);
  }

  /** A revocation that succeeds leaves its rows in the live index, and a state that keeps them. */
  method RevokeFirst(
      c: Checks, fs: Fs, db: CaDb, sf: string, df: string, cert: Cert, kind: RevType, arg: string, now: string,
      foreign: set<int>, ghost base: seq<Row>)
    returns (ok: bool)
    requires Loaded(fs, db, sf, df, base, foreign) && OneLineCert(cert.exp, cert.name) && NoNul(arg) && NoNul(now)
    requires OwnSerial(NextOn(fs.disk, sf), db.rows, cert) || cert.serial in foreign
    modifies fs, db
    ensures fs.Valid() && old(fs.history) <= fs.history && Inv(old(db.Abs())) && Separate(sf, df)
    ensures ok ==> var after := Revoke(c, old(db.Abs()), cert, kind, arg, now);
      && after.1 && HeldAt(fs.history, |fs.history| - 1, df, after.0.rows)
      && Consistent(fs.disk, sf, df, after.0.rows, foreign)
  {
    ValidIsInv(db);
    ghost var after := Revoke(c, db.Abs(), cert, kind, arg, now);
    ok := RevokePart(c, fs, db, sf, df, cert, kind, arg, now, base, foreign);
    assert db.rows == after.0.rows;
  }

  /**
   * A revocation, and after it any number of commands, with any operation refused and a crash anywhere. From the moment
   * `since`, when the revocation has succeeded, in every state of the disk, whatever is read from the live index, the
   * serial is answered with what was asked for.
   */
  method RevokeAndGoOn(
      c: Checks, issuer: Issuer, fs: Fs, db: CaDb, sf: string, df: string,
      cert: Cert, kind: RevType, arg: string, now: string, commands: seq<Command>, foreign: set<int>,
      ghost base: seq<Row>, ghost ids: seq<CertId>, ghost id: CertId)
    returns (ok: bool, ghost since: nat)
    requires Loaded(fs, db, sf, df, base, foreign) && OneLineCert(cert.exp, cert.name) && NoNul(arg) && NoNul(now)
    requires OwnSerial(NextOn(fs.disk, sf), db.rows, cert) || cert.serial in foreign
    requires OneLineCommands(commands)
    requires ',' !in now && id in ids && Ours(issuer, id) && id.serial == cert.serial
    modifies fs, db
    ensures fs.Valid()
    ensures ok ==> |old(fs.history)| <= since + 1
    ensures ok ==> HeldAt(fs.history, since, df, Revoke(c, old(db.Abs()), cert, kind, arg, now).0.rows)
    ensures ok ==> TellsSince(c, issuer, fs.history, since, df, ids, id, Told(c, kind, arg, now))
  {
    ghost var ca := db.Abs();
    ok := RevokeFirst(c, fs, db, sf, df, cert, kind, arg, now, foreign, base);
    since := |fs.history| - 1;
    if !ok { return; }
    GoOn(c, issuer, fs, sf, df, commands, db.hash, foreign, ca, cert, kind, arg, now, ids, id);
  }
}
