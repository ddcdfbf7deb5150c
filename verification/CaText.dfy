/** The database as text: how rows become fields, and what a saved text can be read as. */
module CaText {
  import opened CStrings
  import opened Hex
  import opened RevInfo
  import opened Wrappers
  import opened CaMachine
  import TxtDb

  const DB_NUMBER := 6

  function ToFields(row: Row): TxtDb.Fields {
    [row.kind, row.exp, row.rev, row.serial, row.file, row.name]
  }

  function FromFields(f: TxtDb.Fields): Row
    requires |f| == DB_NUMBER
  {
    Row(f[0], f[1], f[2], f[3], f[4], f[5])
  }

  function AllToFields(rows: seq<Row>): (r: seq<TxtDb.Fields>)
    ensures |r| == |rows| && forall i :: 0 <= i < |rows| ==> r[i] == ToFields(rows[i])
  {
    seq(|rows|, i requires 0 <= i < |rows| => ToFields(rows[i]))
  }

  /** The text `save_index` writes. */
  function TextOf(rows: seq<Row>): string {
    TxtDb.WriteRows(AllToFields(rows))
  }

  ghost function RowsOf(fields: seq<TxtDb.Fields>): (rows: seq<Row>)
    requires forall i :: 0 <= i < |fields| ==> |fields[i]| == DB_NUMBER
    ensures |rows| == |fields| && forall i :: 0 <= i < |rows| ==> rows[i] == FromFields(fields[i])
    ensures AllToFields(rows) == fields
  {
    var rows := seq(|fields|, i requires 0 <= i < |fields| => FromFields(fields[i]));
    assert forall i :: 0 <= i < |fields| ==> ToFields(rows[i]) == fields[i];
    assert AllToFields(rows) == fields;
    rows
  }

  // ---- what the saved text says ----

  ghost predicate Reads(text: string, rows: seq<Row>) {
    TxtDb.ReadRows(text, DB_NUMBER) == Some(AllToFields(rows))
  }

  ghost predicate OneLineRow(row: Row) {
    TxtDb.OneLine(ToFields(row), DB_NUMBER)
  }

  /** C strings throughout and names on one line. */
  ghost predicate OneLineRows(rows: seq<Row>) {
    forall i :: 0 <= i < |rows| ==> OneLineRow(rows[i])
  }

  lemma SameFields(a: seq<Row>, b: seq<Row>)
    requires AllToFields(a) == AllToFields(b)
    ensures a == b
  {
    assert forall i :: 0 <= i < |a| ==> ToFields(a[i]) == AllToFields(a)[i] == ToFields(b[i]);
  }

  /** The text of a database is read as that database or not at all. */
  lemma SavedReadsAs(rows: seq<Row>, other: seq<Row>)
    requires OneLineRows(rows) && Reads(TextOf(rows), other)
    ensures other == rows
  {
    var fields := AllToFields(rows);
    assert forall i :: 0 <= i < |fields| ==> OneLineRow(rows[i]) && fields[i] == ToFields(rows[i]);
    TxtDb.NeverMisread(fields, DB_NUMBER);
    SameFields(other, rows);
  }

  lemma ReadIsOneLine(text: string, rows: seq<Row>)
    requires Reads(text, rows)
    ensures OneLineRows(rows)
  {
    TxtDb.RowsReadAreStorable(text, DB_NUMBER);
    forall i | 0 <= i < |rows| ensures OneLineRow(rows[i]) {
      assert TxtDb.Storable(AllToFields(rows)[i], DB_NUMBER);
    }
  }

  /** Fit to stand in a column that is not the last one. */
  ghost predicate PlainField(s: string) {
    NoNul(s) && '\n' !in s && !TxtDb.EndsInBackslash(s)
  }

  lemma HexIsPlain(sign: string, s: string)
    requires sign in {"", "-"} && AllUpperHex(s) && s != ""
    ensures PlainField(sign + s)
  {
    assert (sign + s)[|sign + s| - 1] == s[|s| - 1];
  }

  lemma SerialTextIsPlain(n: int)
    ensures PlainField(SerialText(n))
  {
    if n >= 0 {
      SerialTextValue(n);
      assert "" + SerialText(n) == SerialText(n);
      HexIsPlain("", SerialText(n));
    } else {
      NegativeSerialText(n);
      BytesHexUpper(-n);
      HexIsPlain("-", BytesHex(-n));
    }
  }

  /** The name of a certificate is a C string on one line, as `X509_NAME_oneline` writes it, and the date a C string. */
  ghost predicate OneLineCert(exp: string, name: string) {
    NoNul(exp) && NoNul(name) && '\n' !in name
  }

  lemma NewRowIsOneLine(cert: Cert)
    requires OneLineCert(cert.exp, cert.name)
    ensures OneLineRow(NewRow(cert))
  {
    SerialTextIsPlain(cert.serial);
  }

  lemma AgedIsOneLine(rows: seq<Row>, now: string)
    requires OneLineRows(rows)
    ensures OneLineRows(AgedRows(rows, now))
  {
    forall i | 0 <= i < |rows| ensures OneLineRow(AgedRows(rows, now)[i]) {
      var was, row := ToFields(rows[i]), ToFields(Aged(rows[i], now));
      assert OneLineRow(rows[i]);
      assert forall k :: 1 <= k < DB_NUMBER ==> row[k] == was[k];
    }
  }

  lemma RevocationTextIsPlain(c: Checks, kind: RevType, arg: string, now: string)
    requires NoNul(arg) && NoNul(now) && RevocationText(c, kind, arg, now).Some?
    ensures NoNul(RevocationText(c, kind, arg, now).value)
  {
    ReasonsHaveNoNul();
    var w := Requested(c, kind, arg).value;
    SuffixIsPlain(now, ReasonWord(w.reason));
    SuffixIsPlain(now + Suffix(ReasonWord(w.reason)), w.extra);
  }

  lemma SuffixIsPlain(s: string, w: Option<string>)
    requires NoNul(s) && (w.Some? ==> NoNul(w.value))
    ensures NoNul(s + Suffix(w))
  {
  }

  lemma RevokedRowIsOneLine(row: Row, text: string)
    requires OneLineRow(row) && NoNul(text)
    ensures OneLineRow(row.(kind := "R", rev := text))
  {
    var was, now := ToFields(row), ToFields(row.(kind := "R", rev := text));
    assert forall k :: 0 <= k < DB_NUMBER && k != 0 && k != 2 ==> now[k] == was[k];
  }

  lemma RevokedIsOneLine(c: Checks, ca: Ca, cert: Cert, kind: RevType, arg: string, now: string)
    requires OneLineRows(ca.rows) && OneLineCert(cert.exp, cert.name) && NoNul(arg) && NoNul(now)
    ensures OneLineRows(Revoke(c, ca, cert, kind, arg, now).0.rows)
  {
    NewRowIsOneLine(cert);
    match Find(ca.rows, KeyOf(cert.serial))
    case Some(i) => RevokedAtIsOneLine(c, ca, i, cert, kind, arg, now);
    case None =>
      var added := CaMachine.Insert(ca, NewRow(cert));
      if added.Some? { RevokedAtIsOneLine(c, added.value, |ca.rows|, cert, kind, arg, now); }
  }

  lemma RevokedAtIsOneLine(c: Checks, ca: Ca, i: nat, cert: Cert, kind: RevType, arg: string, now: string)
    requires OneLineRows(ca.rows) && i < |ca.rows| && NoNul(arg) && NoNul(now)
    ensures OneLineRows(RevokeAt(c, ca, i, cert, kind, arg, now).0.rows)
  {
    var (ca', done) := RevokeAt(c, ca, i, cert, kind, arg, now);
    if done {
      RevocationTextIsPlain(c, kind, arg, now);
      RevokedRowIsOneLine(ca.rows[i], RevocationText(c, kind, arg, now).value);
    }
  }

  // ---- what a line looks like ----

  ghost predicate NoTabs(row: Row) {
    '\t' !in row.kind + row.exp + row.rev + row.serial + row.file + row.name
  }

  lemma SixColumns(a: string, b: string, c: string, d: string, e: string, f: string)
    requires '\t' !in a + b + c + d + e + f
    ensures TxtDb.Joined([a, b, c, d, e, f]) ==
      a + ("\t" + (b + ("\t" + (c + ("\t" + (d + ("\t" + (e + ("\t" + f)))))))))
  {
    assert forall x, y: string :: '\t' !in x + y ==> '\t' !in x && '\t' !in y;
    TxtDb.NoTabNoChange(a);
    TxtDb.NoTabNoChange(b);
    TxtDb.NoTabNoChange(c);
    TxtDb.NoTabNoChange(d);
    TxtDb.NoTabNoChange(e);
    TxtDb.NoTabNoChange(f);
    assert TxtDb.Joined([f]) == f + "" == f;
    assert [e, f][1..] == [f] && [d, e, f][1..] == [e, f] && [c, d, e, f][1..] == [d, e, f];
    assert [b, c, d, e, f][1..] == [c, d, e, f] && [a, b, c, d, e, f][1..] == [b, c, d, e, f];
    assert TxtDb.Joined([e, f]) == e + ("\t" + f);
    assert TxtDb.Joined([d, e, f]) == d + ("\t" + TxtDb.Joined([e, f]));
    assert TxtDb.Joined([c, d, e, f]) == c + ("\t" + TxtDb.Joined([d, e, f]));
    assert TxtDb.Joined([b, c, d, e, f]) == b + ("\t" + TxtDb.Joined([c, d, e, f]));
  }

  /** The columns in their order: kind, expiry date, revocation, serial, file name, subject. */
  lemma LineOfRow(row: Row)
    requires NoTabs(row)
    ensures TextOf([row]) ==
      row.kind + ("\t" + (row.exp + ("\t" + (row.rev + ("\t" + (row.serial +
        ("\t" + (row.file + ("\t" + row.name))))))))) + "\n"
  {
    SixColumns(row.kind, row.exp, row.rev, row.serial, row.file, row.name);
    var fields := AllToFields([row]);
    assert fields == [ToFields(row)] && fields[1..] == [];
    assert TxtDb.WriteRows(fields) == TxtDb.Joined(ToFields(row)) + "\n" + "";
  }

  /** The line of a certificate just issued. */
  lemma LineOfNewRow(cert: Cert)
    requires '\t' !in cert.exp && '\t' !in cert.name
    ensures TextOf([NewRow(cert)]) ==
      "V" + ("\t" + (cert.exp + ("\t" + ("" + ("\t" + (SerialText(cert.serial) +
        ("\t" + ("unknown" + ("\t" + cert.name))))))))) + "\n"
  {
    SerialHasNoTab(cert.serial);
    LineOfRow(NewRow(cert));
  }

  lemma SerialHasNoTab(n: int)
    ensures '\t' !in SerialText(n)
  {
    if n >= 0 {
      SerialTextValue(n);
      HexHasNoTab(SerialText(n));
    } else {
      NegativeSerialText(n);
      BytesHexUpper(-n);
      HexHasNoTab(BytesHex(-n));
    }
  }

  lemma HexHasNoTab(s: string)
    requires AllUpperHex(s)
    ensures '\t' !in s && '\t' !in "-" + s
  {
  }
}
