/**
 * The in-memory database: a row list and hash indexes from key to row position. Rows are edited in place and the
 * indexes are not told. Every operation is proved to do what `CaMachine` does by scanning.
 */
module CaDatabase {
  import opened CStrings
  import opened ExpiryTime
  import opened Hex
  import opened RevInfo
  import opened Wrappers
  import opened CaMachine

  datatype Column = SerialColumn | NameColumn

  type Index = map<string, nat>

  /** Which rows belong in an index: all of them by serial, the valid ones by name. */
  predicate Qualifies(col: Column, row: Row) {
    col == SerialColumn || row.Kind() == 'V'
  }

  function KeyIn(col: Column, row: Row): string {
    if col == SerialColumn then row.Key() else row.name
  }

  /** No two qualifying rows clash. */
  ghost predicate NoClash(col: Column, rows: seq<Row>) {
    forall i, j :: 0 <= i < j < |rows| && Qualifies(col, rows[i]) && Qualifies(col, rows[j]) ==>
      KeyIn(col, rows[i]) != KeyIn(col, rows[j])
  }

  /** Every entry leads to a row with that key, and every row that qualifies now is found. Stale entries may remain. */
  ghost predicate Indexes(col: Column, rows: seq<Row>, idx: Index) {
    && (forall k :: k in idx ==> idx[k] < |rows| && KeyIn(col, rows[idx[k]]) == k)
    && (forall i :: 0 <= i < |rows| && Qualifies(col, rows[i]) ==>
          KeyIn(col, rows[i]) in idx && idx[KeyIn(col, rows[i])] == i)
  }

  /** How a step ends; comparing a name that is not there with one that is ends the program. */
  datatype Outcome = Passed | Refused | Crashed

  /** The hash of a name that is not there. */
  const NULL_HASH := 0

  /** No name in the set has the hash of a name that is not there. */
  ghost predicate HashesDiffer(names: set<string>, hash: string -> nat) {
    forall n :: n in names ==> hash(n) != NULL_HASH
  }

  class CaDb {
    /** The hash function of the name index. */
    const hash: string -> nat
    var rows: seq<Row>
    var index: map<Column, Index>
    var unique: bool

    ghost predicate Valid()
      reads this
    {
      && SerialColumn in index
      && (NameColumn in index <==> unique)
      && (forall col :: col in index ==> Indexes(col, rows, index[col]))
    }

    /** The state as the index-free machine sees it. */
    ghost function Abs(): Ca
      reads this
    {
      Ca(rows, unique, if NameColumn in index then index[NameColumn].Keys else {})
    }

    /** The rows just read, no index yet. */
    constructor (rows: seq<Row>, unique: bool, hash: string -> nat)
      ensures this.rows == rows && this.index == map[] && this.unique == unique && this.hash == hash
    {
      this.rows, this.index, this.unique, this.hash := rows, map[], unique, hash;
    }

    /** `TXT_DB_create_index`: fails, leaving the indexes alone, on a clash among qualifying rows. */
    method CreateIndex(col: Column) returns (ok: bool)
      modifies this`index
      ensures ok <==> NoClash(col, rows)
      ensures !ok ==> index == old(index)
      ensures ok ==> col in index && index == old(index)[col := index[col]] && Indexes(col, rows, index[col])
      ensures ok && col == NameColumn ==> index[col].Keys == ValidNames(rows)
    {
      var idx: Index := map[];
      var i := 0;
      while i < |rows|
        invariant i <= |rows| && index == old(index)
        invariant Indexes(col, rows[..i], idx) && NoClash(col, rows[..i])
        invariant col == NameColumn ==> idx.Keys == ValidNames(rows[..i])
      {
        assert rows[..i + 1] == rows[..i] + [rows[i]];
        var row := rows[i];
        if Qualifies(col, row) {
          var k := KeyIn(col, row);
          if k in idx {
            assert KeyIn(col, rows[idx[k]]) == k && Qualifies(col, rows[idx[k]]) by {
              if col == NameColumn {
                assert k in ValidNames(rows[..i]);
                var j :| 0 <= j < i && rows[..i][j].Kind() == 'V' && rows[..i][j].name == k;
                assert idx[KeyIn(col, rows[..i][j])] == j;
              }
            }
            return false;
          }
          idx := idx[k := i];
          if col == NameColumn { NamesGrow(rows[..i], row); }
        } else {
          NamesStay(rows[..i], row);
        }
        i := i + 1;
      }
      assert rows[..i] == rows;
      index := index[col := idx];
      return true;
    }

    /** `index_index`: by serial always, by name only when subjects must be unique. */
    method IndexIndex() returns (ok: bool)
      requires index == map[]
      modifies this`index
      ensures ok <==> DistinctKeys(rows) && (unique ==> DistinctValidNames(rows))
      ensures ok ==> Valid() && Inv(Abs())
      ensures ok ==> Abs() == Ca(rows, unique, if unique then ValidNames(rows) else {})
    {
      ok := CreateIndex(SerialColumn);
      assert NoClash(SerialColumn, rows) <==> DistinctKeys(rows) by {
        assert forall i :: 0 <= i < |rows| ==>
          Qualifies(SerialColumn, rows[i]) && KeyIn(SerialColumn, rows[i]) == rows[i].Key();
      }
      if ok && unique {
        ok := CreateIndex(NameColumn);
        assert NoClash(NameColumn, rows) <==> DistinctValidNames(rows) by {
          assert forall i :: 0 <= i < |rows| ==>
            KeyIn(NameColumn, rows[i]) == rows[i].name && (Qualifies(NameColumn, rows[i]) <==> rows[i].Kind() == 'V');
        }
      }
    }

    /** The serial index answers what a scan of the rows answers. */
    lemma SerialLookupIsScan(key: string)
      requires Valid()
      ensures Find(rows, key) == if key in index[SerialColumn] then Some(index[SerialColumn][key]) else None
    {
    }

    /**
     * `TXT_DB_get_by_index`. A hit is a row with that key, though by name it may have ceased to be valid; a miss means
     * that no row that belongs in the index has the key, or that there is no such index.
     */
    method GetByIndex(col: Column, key: string) returns (r: Option<nat>)
      requires Valid()
      ensures col == SerialColumn ==> r == Find(rows, key)
      ensures col == NameColumn ==> (r.Some? <==> key in Abs().held)
      ensures r.Some? ==> r.value < |rows| && KeyIn(col, rows[r.value]) == key
      ensures r.None? && (col == NameColumn ==> unique) ==>
        forall i :: 0 <= i < |rows| && Qualifies(col, rows[i]) ==> KeyIn(col, rows[i]) != key
    {
      SerialLookupIsScan(key);
      if col !in index { return None; }
      if key !in index[col] { return None; }
      return Some(index[col][key]);
    }

    /**
     * The same for a name that may not be there. Only entries with the same hash are compared: a name that is not there
     * is found nowhere, but it is compared if some name in the index has its hash.
     */
    method GetByName(name: Option<string>) returns (r: Option<nat>, crashed: bool)
      requires Valid()
      ensures crashed <==> name.None? && !HashesDiffer(Abs().held, hash)
      ensures r.Some? <==> name.Some? && name.value in Abs().held
    {
      if name.None? {
        return None, NameColumn in index && exists n :: n in index[NameColumn].Keys && hash(n) == NULL_HASH;
      }
      r := GetByIndex(NameColumn, name.value);
      crashed := false;
    }

    /** The second half of `TXT_DB_insert`: the row goes to the end and into the indexes it belongs in. */
    method Append(row: Row)
      requires Valid() && row.Key() !in index[SerialColumn]
      requires unique && row.Kind() == 'V' ==> row.name !in index[NameColumn]
      modifies this
      ensures Valid() && unique == old(unique) && rows == old(rows) + [row]
      ensures Abs().held == old(Abs().held) + if unique && row.Kind() == 'V' then {row.name} else {}
    {
      ghost var more := rows + [row];
      var serials: Index := index[SerialColumn][row.Key() := |rows|];
      IndexedRowAdded(SerialColumn, rows, index[SerialColumn], row);
      assert Indexes(SerialColumn, more, serials);
      var names: Index := if unique then index[NameColumn] else map[];
      if unique {
        IndexedRowAdded(NameColumn, rows, names, row);
        if row.Kind() == 'V' { names := names[row.name := |rows|]; }
        assert Indexes(NameColumn, more, names);
      }
      rows := rows + [row];
      index := if unique then index[SerialColumn := serials][NameColumn := names] else index[SerialColumn := serials];
    }

    /** `TXT_DB_insert`: all indexes are consulted before anything changes. */
    method Insert(row: Row) returns (ok: bool)
      requires Valid()
      modifies this
      ensures Valid() && unique == old(unique)
      ensures ok <==> CaMachine.Insert(old(Abs()), row).Some?
      ensures Abs() == if ok then CaMachine.Insert(old(Abs()), row).value else old(Abs())
    {
      var clash := GetByIndex(SerialColumn, row.Key());
      if clash.Some? { return false; }
      if row.Kind() == 'V' {
        clash := GetByIndex(NameColumn, row.name);
        if clash.Some? { return false; }
      }
      Append(row);
      return true;
    }

    /**
     * What `do_body` asks before it signs. Its first lookup is by a name that has not been filled in yet: it finds
     * nothing, and decides nothing unless a name in the index has the hash of a missing one.
     */
    method LookUp(serial: string) returns (r: Outcome)
      requires Valid()
      ensures r == Crashed <==> unique && !HashesDiffer(Abs().held, hash)
      ensures r == Refused <==> r != Crashed && Find(rows, StripZeros(serial)).Some?
    {
      var rrow: Option<nat> := None;
      if unique {
        var crashed;
        rrow, crashed := GetByName(None);
        if crashed { return Crashed; }
      }
      if rrow.None? { rrow := GetByIndex(SerialColumn, StripZeros(serial)); }
      return if rrow.Some? then Refused else Passed;
    }

    /** The database part of `do_body` for a certificate that the operator agrees to sign. */
    method Issue(cert: Cert) returns (r: Outcome)
      requires Valid()
      modifies this
      ensures Valid() && unique == old(unique)
      ensures r == Crashed <==> unique && !HashesDiffer(old(Abs().held), hash)
      ensures r == Crashed ==> Abs() == old(Abs())
      ensures r != Crashed ==> (Abs(), r == Passed) == CaMachine.Issue(old(Abs()), cert)
    {
      var serial := SerialText(cert.serial);
      r := LookUp(serial);
      if r != Passed { return; }
      var ok := Insert(Row("V", cert.exp, "", serial, "unknown", cert.name));
      return if ok then Passed else Refused;
    }

    /** The last branches of `do_revoke`, on the row found. */
    method RevokeRow(c: Checks, i: nat, cert: Cert, kind: RevType, arg: string, now: string) returns (ok: bool)
      requires Valid() && NoNul(arg) && NoNul(now) && i < |rows|
      modifies this`rows
      ensures Valid()
      ensures (Abs(), ok) == RevokeAt(c, old(Abs()), i, cert, kind, arg, now)
    {
      if cert.name != rows[i].name { return false; }
      if rows[i].Kind() == 'R' { return false; }
      var revStr := MakeRevocationStr(c, kind, arg, now);
      if revStr == null { return false; }
      var text := revStr[..revStr.Length - 1];
      assert text == RevocationText(c, kind, arg, now).value;
      ghost var was := rows;
      rows := rows[i := rows[i].(kind := "R", rev := text)];
      EditKeepsIndexes(was, rows, index);
      return true;
    }

    /** `do_revoke`; it calls itself once more after adding a certificate it did not know. */
    method Revoke(c: Checks, cert: Cert, kind: RevType, arg: string, now: string) returns (ok: bool)
      requires Valid() && NoNul(arg) && NoNul(now)
      modifies this
      ensures Valid() && unique == old(unique)
      ensures (Abs(), ok) == CaMachine.Revoke(c, old(Abs()), cert, kind, arg, now)
      decreases if Find(rows, KeyOf(cert.serial)).Some? then 0 else 1
    {
      var serial := SerialText(cert.serial);
      var found := GetByIndex(SerialColumn, StripZeros(serial));
      if found.Some? {
        ok := RevokeRow(c, found.value, cert, kind, arg, now);
      } else {
        ghost var was := rows;
        var added := Insert(Row("V", cert.exp, "", serial, "unknown", cert.name));
        if !added { return false; }
        FindAppended(was, NewRow(cert));
        assert rows == was + [NewRow(cert)];
        ok := Revoke(c, cert, kind, arg, now);
      }
    }

    /** The loop of `do_updatedb`. */
    method MarkExpired(now: string) returns (cnt: nat)
      modifies this`rows
      ensures rows == AgedRows(old(rows), now)
      ensures cnt == CountChanged(old(rows), rows)
    {
      cnt := 0;
      var i := 0;
      ghost var was := rows;
      while i < |rows|
        invariant i <= |rows| == |was|
        invariant forall j :: 0 <= j < i ==> rows[j] == Aged(was[j], now)
        invariant forall j :: i <= j < |rows| ==> rows[j] == was[j]
        invariant cnt == CountChanged(was[..i], rows[..i])
      {
        ghost var before := rows;
        if rows[i].Kind() == 'V' && CountsAsExpired(rows[i].exp, now) {
          rows := rows[i := rows[i].(kind := "E")];
          cnt := cnt + 1;
        }
        assert rows[i].Kind() != was[i].Kind() <==> rows[i] != was[i];
        assert was[..i + 1][..i] == was[..i] && rows[..i + 1][..i] == before[..i];
        i := i + 1;
      }
      assert was[..i] == was && rows[..i] == rows;
    }

    /** `do_updatedb`: the number of rows marked is returned. */
    method UpdateDb(now: string) returns (cnt: nat)
      requires Valid()
      modifies this`rows
      ensures Valid()
      ensures Abs() == CaMachine.UpdateDb(old(Abs()), now)
      ensures cnt == CountChanged(old(rows), rows)
    {
      cnt := MarkExpired(now);
      EditKeepsIndexes(old(rows), rows, index);
    }

    /**
     * `get_certificate_status`: the kind of the row found under the spelling, `None` for no row or a strange kind. Any
     * spelling of a number leads to the row that a search for the number finds.
     */
    method CertificateStatus(serial: string) returns (status: Option<char>)
      requires Valid()
      ensures var f := Find(rows, if AllHex(serial) then KeyOf(HexValue(serial)) else StripZeros(StatusKey(serial)));
        status == if f.Some? && rows[f.value].Kind() in {'V', 'R', 'E', 'S'} then Some(rows[f.value].Kind()) else None
    {
      if AllHex(serial) { StatusKeyFindsAnySpelling(serial); }
      var row := new char[|serial| + 2];
      var n := 0;
      if |serial| % 2 == 1 {
        row[0], n := '0', 1;
      }
      forall j | 0 <= j < |serial| { row[n + j] := serial[j]; }
      row[n + |serial|] := NUL;
      var i := 0;
      ghost var padded := row[..n + |serial|];
      while i < n + |serial|
        invariant i <= n + |serial| == |padded|
        invariant forall j :: 0 <= j < i ==> row[j] == ToUpper(padded[j])
        invariant forall j :: i <= j < |padded| ==> row[j] == padded[j]
      {
        row[i] := ToUpper(row[i]);
        i := i + 1;
      }
      var key := row[..n + |serial|];
      assert padded == if n == 1 then ['0'] + serial else serial;
      assert key == StatusKey(serial);
      var found := GetByIndex(SerialColumn, StripZeros(key));
      if found.None? { return None; }
      var kind := rows[found.value].Kind();
      return if kind == 'V' || kind == 'R' || kind == 'E' || kind == 'S' then Some(kind) else None;
    }

    /** `lookup_serial` of the OCSP responder. */
    method LookupSerial(serial: int) returns (r: Option<Row>)
      requires Valid()
      ensures var f := Find(rows, KeyOf(serial)); r == if f.Some? then Some(rows[f.value]) else None
    {
      var key := StripZeros(SerialText(serial));
      var found := GetByIndex(SerialColumn, key);
      return if found.Some? then Some(rows[found.value]) else None;
    }
  }

  ghost function CountChanged(before: seq<Row>, after: seq<Row>): nat
    requires |before| == |after|
  {
    if before == [] then 0
    else
      var n := |before| - 1;
      CountChanged(before[..n], after[..n]) + if before[n] != after[n] then 1 else 0
  }

  lemma FindAppended(rows: seq<Row>, row: Row)
    requires Find(rows, row.Key()).None?
    ensures Find(rows + [row], row.Key()) == Some(|rows|)
  {
    var more := rows + [row];
    assert more[|rows|] == row;
    assert forall i :: 0 <= i < |rows| ==> more[i] == rows[i];
  }

  lemma NamesGrow(rows: seq<Row>, row: Row)
    requires row.Kind() == 'V'
    ensures ValidNames(rows + [row]) == ValidNames(rows) + {row.name}
  {
    var more := rows + [row];
    assert more[|rows|] == row;
    assert forall i :: 0 <= i < |rows| ==> more[i] == rows[i];
    forall n | n in ValidNames(rows) + {row.name} ensures n in ValidNames(more) {
      var i :=
        if n in ValidNames(rows) then (var i :| 0 <= i < |rows| && rows[i].Kind() == 'V' && rows[i].name == n; i)
        else |rows|;
      assert more[i].Kind() == 'V' && more[i].name == n;
    }
  }

  lemma NamesStay(rows: seq<Row>, row: Row)
    requires row.Kind() != 'V'
    ensures ValidNames(rows + [row]) == ValidNames(rows)
  {
    var more := rows + [row];
    assert forall i :: 0 <= i < |rows| ==> more[i] == rows[i];
    forall n | n in ValidNames(rows) ensures n in ValidNames(more) {
      var i :| 0 <= i < |rows| && rows[i].Kind() == 'V' && rows[i].name == n;
      assert more[i].Kind() == 'V' && more[i].name == n;
    }
  }

  lemma IndexedRowAdded(col: Column, rows: seq<Row>, idx: Index, row: Row)
    requires Indexes(col, rows, idx)
    requires Qualifies(col, row) ==> KeyIn(col, row) !in idx
    ensures Indexes(col, rows + [row], if Qualifies(col, row) then idx[KeyIn(col, row) := |rows|] else idx)
  {
  }

  /** Editing rows in place leaves an index that is not told about it sound and complete. */
  lemma EditKeepsIndex(col: Column, before: seq<Row>, after: seq<Row>, idx: Index)
    requires Indexes(col, before, idx)
    requires |before| == |after| && Grown(before, after)
    ensures Indexes(col, after, idx)
  {
  }

  lemma EditKeepsIndexes(before: seq<Row>, after: seq<Row>, index: map<Column, Index>)
    requires forall col :: col in index ==> Indexes(col, before, index[col])
    requires |before| == |after| && Grown(before, after)
    ensures forall col :: col in index ==> Indexes(col, after, index[col])
  {
    forall col | col in index ensures Indexes(col, after, index[col]) {
      EditKeepsIndex(col, before, after, index[col]);
    }
  }
}
