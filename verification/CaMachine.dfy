/**
 * The certificate database as a machine without indexes: rows, and the set of names the name index holds.
 * Every lookup is a scan over the rows.
 */
module CaMachine {
  import opened CStrings
  import opened ExpiryTime
  import opened Hex
  import opened RevInfo
  import opened Wrappers

  datatype Row = Row(kind: string, exp: string, rev: string, serial: string, file: string, name: string)
  {
    function Kind(): char {
      if kind == "" then NUL else kind[0]
    }

    /** What the serial index compares. */
    function Key(): string {
      StripZeros(serial)
    }
  }

  /** What the database takes from a certificate. */
  datatype Cert = Cert(serial: int, exp: string, name: string)

  /** `held` is the set of names in the name index; it is used only when subjects must be unique. */
  datatype Ca = Ca(rows: seq<Row>, unique: bool, held: set<string>)

  function KeyOf(serial: int): string {
    StripZeros(SerialText(serial))
  }

  function NewRow(cert: Cert): Row {
    Row("V", cert.exp, "", SerialText(cert.serial), "unknown", cert.name)
  }

  /** Linear scan for a serial. */
  function Find(rows: seq<Row>, key: string, from: nat := 0): (r: Option<nat>)
    ensures r.Some? ==> from <= r.value < |rows| && rows[r.value].Key() == key
    ensures r.Some? ==> forall i :: from <= i < r.value ==> rows[i].Key() != key
    ensures r.None? ==> forall i :: from <= i < |rows| ==> rows[i].Key() != key
    decreases |rows| - from
  {
    if from >= |rows| then None
    else if rows[from].Key() == key then Some(from)
    else Find(rows, key, from + 1)
  }

  function ValidNames(rows: seq<Row>): set<string> {
    set i | 0 <= i < |rows| && rows[i].Kind() == 'V' :: rows[i].name
  }

  function Insert(ca: Ca, row: Row): Option<Ca> {
    if Find(ca.rows, row.Key()).Some? then None
    else if row.Kind() != 'V' then Some(ca.(rows := ca.rows + [row]))
    else if ca.unique && row.name in ca.held then None
    else Some(ca.(rows := ca.rows + [row], held := if ca.unique then ca.held + {row.name} else ca.held))
  }

  /** Adding a newly signed certificate. */
  function Issue(ca: Ca, cert: Cert): (Ca, bool) {
    match Insert(ca, NewRow(cert))
    case None => (ca, false)
    case Some(ca') => (ca', true)
  }

  /** Marking row `i`, found under the serial of `cert`, as revoked. */
  function RevokeAt(c: Checks, ca: Ca, i: nat, cert: Cert, kind: RevType, arg: string, now: string): (Ca, bool)
    requires i < |ca.rows|
  {
    var row, text := ca.rows[i], RevocationText(c, kind, arg, now);
    if row.name != cert.name || row.Kind() == 'R' || text.None? then (ca, false)
    else (ca.(rows := ca.rows[i := row.(kind := "R", rev := text.value)]), true)
  }

  /** Revoking a certificate; one the database does not know is added first. */
  function Revoke(c: Checks, ca: Ca, cert: Cert, kind: RevType, arg: string, now: string): (Ca, bool) {
    match Find(ca.rows, KeyOf(cert.serial))
    case Some(i) => RevokeAt(c, ca, i, cert, kind, arg, now)
    case None =>
      match Insert(ca, NewRow(cert))
      case None => (ca, false)
      case Some(ca') => RevokeAt(c, ca', |ca.rows|, cert, kind, arg, now)
  }

  function Aged(row: Row, now: string): Row {
    if row.Kind() == 'V' && CountsAsExpired(row.exp, now) then row.(kind := "E") else row
  }

  function AgedRows(rows: seq<Row>, now: string): (r: seq<Row>)
    ensures |r| == |rows| && forall i :: 0 <= i < |rows| ==> r[i] == Aged(rows[i], now)
  {
    seq(|rows|, i requires 0 <= i < |rows| => Aged(rows[i], now))
  }

  function UpdateDb(ca: Ca, now: string): Ca {
    ca.(rows := AgedRows(ca.rows, now))
  }

  // ---- what every step keeps ----

  ghost predicate DistinctKeys(rows: seq<Row>) {
    forall i, j :: 0 <= i < j < |rows| ==> rows[i].Key() != rows[j].Key()
  }

  ghost predicate DistinctValidNames(rows: seq<Row>) {
    forall i, j :: 0 <= i < j < |rows| && rows[i].Kind() == 'V' && rows[j].Kind() == 'V' ==>
      rows[i].name != rows[j].name
  }

  /** No serial twice; with unique subjects, no two valid rows share a name and the name index holds every such name. */
  ghost predicate Inv(ca: Ca) {
    && DistinctKeys(ca.rows)
    && (ca.unique ==> DistinctValidNames(ca.rows) && ValidNames(ca.rows) <= ca.held)
  }

  /** How one row may change: its identity never, its kind only from valid towards revoked, once revoked not at all. */
  ghost predicate Evolved(a: Row, b: Row) {
    && b.exp == a.exp && b.serial == a.serial && b.file == a.file && b.name == a.name
    && (a.Kind() == 'R' ==> b == a)
    && (b == a || (a.Kind() == 'V' && b.kind == "E" && b.rev == a.rev) || b.kind == "R")
  }

  ghost predicate Grown(before: seq<Row>, after: seq<Row>) {
    |before| <= |after| && forall i :: 0 <= i < |before| ==> Evolved(before[i], after[i])
  }

  lemma GrownTransitive(a: seq<Row>, b: seq<Row>, c: seq<Row>)
    requires Grown(a, b) && Grown(b, c)
    ensures Grown(a, c)
  {
  }

  /** Rows that only evolve keep the invariant. */
  lemma EvolutionKeepsInv(ca: Ca, rows: seq<Row>)
    requires Inv(ca) && Grown(ca.rows, rows) && |rows| == |ca.rows|
    ensures Inv(ca.(rows := rows))
  {
  }

  lemma InsertKeepsInv(ca: Ca, row: Row)
    requires Inv(ca) && Insert(ca, row).Some?
    ensures Inv(Insert(ca, row).value) && Grown(ca.rows, Insert(ca, row).value.rows)
  {
    var rows := ca.rows + [row];
    assert forall i :: 0 <= i < |ca.rows| ==> rows[i] == ca.rows[i];
    if ca.unique {
      forall n | n in ValidNames(rows) ensures n in Insert(ca, row).value.held {
        var i :| 0 <= i < |rows| && rows[i].Kind() == 'V' && rows[i].name == n;
        if i < |ca.rows| { assert n in ValidNames(ca.rows); }
      }
      forall i, j | 0 <= i < j < |rows| && rows[i].Kind() == 'V' && rows[j].Kind() == 'V'
        ensures rows[i].name != rows[j].name
      {
        if j == |ca.rows| { assert ca.rows[i].name in ValidNames(ca.rows); }
      }
    }
  }

  lemma RevokeAtKeepsInv(c: Checks, ca: Ca, i: nat, cert: Cert, kind: RevType, arg: string, now: string)
    requires Inv(ca) && i < |ca.rows|
    ensures var ca' := RevokeAt(c, ca, i, cert, kind, arg, now).0; Inv(ca') && Grown(ca.rows, ca'.rows)
  {
    var ca' := RevokeAt(c, ca, i, cert, kind, arg, now).0;
    assert Grown(ca.rows, ca'.rows);
    EvolutionKeepsInv(ca, ca'.rows);
  }

  lemma RevokeKeepsInv(c: Checks, ca: Ca, cert: Cert, kind: RevType, arg: string, now: string)
    requires Inv(ca)
    ensures var ca' := Revoke(c, ca, cert, kind, arg, now).0; Inv(ca') && Grown(ca.rows, ca'.rows)
  {
    match Find(ca.rows, KeyOf(cert.serial))
    case Some(i) => RevokeAtKeepsInv(c, ca, i, cert, kind, arg, now);
    case None =>
      var added := Insert(ca, NewRow(cert));
      if added.Some? {
        InsertKeepsInv(ca, NewRow(cert));
        RevokeAtKeepsInv(c, added.value, |ca.rows|, cert, kind, arg, now);
        GrownTransitive(ca.rows, added.value.rows, Revoke(c, ca, cert, kind, arg, now).0.rows);
      }
  }

  lemma UpdateKeepsInv(ca: Ca, now: string)
    requires Inv(ca)
    ensures Inv(UpdateDb(ca, now)) && Grown(ca.rows, UpdateDb(ca, now).rows)
  {
  }

  /** A serial names at most one row. */
  lemma FindIs(rows: seq<Row>, i: nat)
    requires DistinctKeys(rows) && i < |rows|
    ensures Find(rows, rows[i].Key()) == Some(i)
  {
  }

  /** The row of a serial stays where it is. */
  lemma FoundStays(before: seq<Row>, after: seq<Row>, key: string)
    requires Grown(before, after) && Find(before, key).Some?
    ensures Find(after, key) == Find(before, key)
  {
    var i := Find(before, key).value;
    forall j | 0 <= j <= i ensures after[j].Key() == before[j].Key() { assert Evolved(before[j], after[j]); }
  }

  /** After a revocation that succeeds, the row of that serial is revoked and says what was meant. */
  lemma RevokeMarks(c: Checks, ca: Ca, cert: Cert, kind: RevType, arg: string, now: string)
    requires Inv(ca) && Revoke(c, ca, cert, kind, arg, now).1
    ensures var rows := Revoke(c, ca, cert, kind, arg, now).0.rows;
            var f := Find(rows, KeyOf(cert.serial));
            f.Some? && rows[f.value].kind == "R" && Some(rows[f.value].rev) == RevocationText(c, kind, arg, now)
  {
    var ca' := Revoke(c, ca, cert, kind, arg, now).0;
    RevokeKeepsInv(c, ca, cert, kind, arg, now);
    var i := match Find(ca.rows, KeyOf(cert.serial)) case Some(i) => i case None => |ca.rows|;
    assert ca'.rows[i].Key() == KeyOf(cert.serial);
    FindIs(ca'.rows, i);
  }

  // ---- when a revocation is accepted ----

  ghost predicate Known(rows: seq<Row>, serial: int) {
    exists i :: 0 <= i < |rows| && rows[i].Key() == KeyOf(serial)
  }

  /**
   * A revocation is accepted exactly when its argument fits and either the row with that serial has the certificate's
   * name and is not revoked, whether it is valid or expired, or there is no such row and, with unique subjects, the
   * name is not held.
   */
  lemma RevokeAcceptedIff(c: Checks, ca: Ca, cert: Cert, kind: RevType, arg: string, now: string)
    requires Inv(ca)
    ensures Revoke(c, ca, cert, kind, arg, now).1 <==>
      && ArgumentFits(c, kind, arg)
      && if Known(ca.rows, cert.serial) then
           exists i :: 0 <= i < |ca.rows| && ca.rows[i].Key() == KeyOf(cert.serial) &&
                       ca.rows[i].name == cert.name && ca.rows[i].Kind() != 'R'
         else !(ca.unique && cert.name in ca.held)
  {
    RefusedIff(c, kind, arg, now);
    match Find(ca.rows, KeyOf(cert.serial))
    case Some(i) =>
      forall j | 0 <= j < |ca.rows| && ca.rows[j].Key() == KeyOf(cert.serial) ensures j == i { FindIs(ca.rows, j); }
    case None =>
  }

  /** An accepted revocation changes no other row, and adds one exactly if the serial was not known. */
  lemma RevokeLeavesOthers(c: Checks, ca: Ca, cert: Cert, kind: RevType, arg: string, now: string)
    ensures var rows := Revoke(c, ca, cert, kind, arg, now).0.rows;
      && |ca.rows| <= |rows|
      && (forall i :: 0 <= i < |ca.rows| && ca.rows[i].Key() != KeyOf(cert.serial) ==> rows[i] == ca.rows[i])
      && (Revoke(c, ca, cert, kind, arg, now).1 ==>
            |rows| == |ca.rows| + if Known(ca.rows, cert.serial) then 0 else 1)
  {
    match Find(ca.rows, KeyOf(cert.serial))
    case Some(i) => assert Known(ca.rows, cert.serial);
    case None => assert !Known(ca.rows, cert.serial);
  }

  lemma AgedFind(rows: seq<Row>, t: string, key: string)
    ensures Find(AgedRows(rows, t), key) == Find(rows, key)
  {
    var aged := AgedRows(rows, t);
    assert forall i :: 0 <= i < |rows| ==> aged[i].Key() == rows[i].Key();
    var a, b := Find(aged, key), Find(rows, key);
    if a.Some? && b.Some? { assert !(a.value < b.value) && !(b.value < a.value); }
  }

  lemma AgedIsRevocable(
      c: Checks, ca: Ca, t: string, i: nat, cert: Cert, kind: RevType, arg: string, now: string)
    requires i < |ca.rows|
    ensures RevokeAt(c, UpdateDb(ca, t), i, cert, kind, arg, now).1 <==> RevokeAt(c, ca, i, cert, kind, arg, now).1
  {
  }

  /** Marking expired rows before a revocation makes no difference to whether it is accepted. */
  lemma UpdateLeavesRevocable(
      c: Checks, ca: Ca, t: string, cert: Cert, kind: RevType, arg: string, now: string)
    ensures Revoke(c, UpdateDb(ca, t), cert, kind, arg, now).1 <==> Revoke(c, ca, cert, kind, arg, now).1
  {
    var key := KeyOf(cert.serial);
    AgedFind(ca.rows, t, key);
    if Find(ca.rows, key).Some? { AgedIsRevocable(c, ca, t, Find(ca.rows, key).value, cert, kind, arg, now); }
  }

  /** What is revoked cannot be revoked again. */
  lemma SecondRevocationIsRefused(
      c: Checks, ca: Ca, cert: Cert, kind: RevType, arg: string, now: string,
      kind': RevType, arg': string, now': string)
    requires Inv(ca) && Revoke(c, ca, cert, kind, arg, now).1
    ensures !Revoke(c, Revoke(c, ca, cert, kind, arg, now).0, cert, kind', arg', now').1
  {
    RevokeMarks(c, ca, cert, kind, arg, now);
  }

  // ---- expiry ----

  ghost predicate UtcRows(rows: seq<Row>) {
    forall i :: 0 <= i < |rows| ==> IsUtcTime(rows[i].exp)
  }

  /** On UTCTime rows the update marks exactly the valid rows whose expiry is not after the present. */
  lemma UpdateIsChronological(rows: seq<Row>, now: string)
    requires UtcRows(rows) && IsUtcTime(now)
    ensures forall i :: 0 <= i < |rows| ==>
      AgedRows(rows, now)[i] ==
        if rows[i].Kind() == 'V' && UtcInstant(rows[i].exp) <= UtcInstant(now) then rows[i].(kind := "E") else rows[i]
  {
    forall i | 0 <= i < |rows|
      ensures CountsAsExpired(rows[i].exp, now) <==> UtcInstant(rows[i].exp) <= UtcInstant(now)
    {
      UtcExpiryIsChronological(rows[i].exp, now);
    }
  }

  /** Updating at one time and again later is updating once, later. */
  lemma UpdateTwice(ca: Ca, t1: string, t2: string)
    requires UtcRows(ca.rows) && IsUtcTime(t1) && IsUtcTime(t2) && UtcInstant(t1) <= UtcInstant(t2)
    ensures UpdateDb(UpdateDb(ca, t1), t2) == UpdateDb(ca, t2)
  {
    forall i | 0 <= i < |ca.rows| ensures Aged(Aged(ca.rows[i], t1), t2) == Aged(ca.rows[i], t2) {
      ExpiryIsMonotone(ca.rows[i].exp, t1, t2);
    }
    assert AgedRows(AgedRows(ca.rows, t1), t2) == AgedRows(ca.rows, t2);
  }
}
