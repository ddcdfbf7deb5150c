/** The files of the authority: which states of the disk are consistent, and how new versions are put in place. */
module CaFiles {
  import opened Hex
  import opened CaMachine
  import opened CaText
  import opened FileSystem
  import opened IssuingRun

  // ---- consistent states ----

  /** The serial is below `n`, or it is one of the `foreign` ones. */
  ghost predicate RowAllowed(row: Row, n: nat, foreign: set<int>) {
    RowBelow(row, n) || exists s :: s in foreign && row.serial == SerialText(s)
  }

  ghost predicate Allowed(rows: seq<Row>, n: nat, foreign: set<int>) {
    forall i :: 0 <= i < |rows| ==> RowAllowed(rows[i], n, foreign)
  }

  /** Whenever the text can be read, every serial it holds is below `n` or foreign. */
  ghost predicate TextAllowed(text: string, n: nat, foreign: set<int>) {
    forall rows :: Reads(text, rows) ==> Allowed(rows, n, foreign)
  }

  /** Whenever the text can be read, it holds the rows `base`, evolved at most, and perhaps more. */
  ghost predicate TextKeeps(base: seq<Row>, text: string) {
    forall rows :: Reads(text, rows) ==> Grown(base, rows)
  }

  ghost predicate NextAllows(disk: Disk, sf: string, text: string, foreign: set<int>) {
    sf in disk && disk[sf].Serial? ==> TextAllowed(text, disk[sf].next, foreign)
  }

  /**
   * If the live index is there, no row of `base` is lost or set back in it; and if the live serial is there as well,
   * every serial of the index is below it or foreign.
   */
  ghost predicate Consistent(disk: Disk, sf: string, df: string, base: seq<Row>, foreign: set<int>) {
    df in disk && disk[df].Index? ==> TextKeeps(base, disk[df].text) && NextAllows(disk, sf, disk[df].text, foreign)
  }

  ghost predicate ConsistentSince(before: nat, fs: Fs, sf: string, df: string, base: seq<Row>, foreign: set<int>)
    reads fs
  {
    forall k :: before <= k < |fs.history| ==> Consistent(fs.history[k], sf, df, base, foreign)
  }

  lemma AllowedIsBelow(rows: seq<Row>, n: nat)
    requires Allowed(rows, n, {})
    ensures Below(rows, n)
  {
    forall i | 0 <= i < |rows| ensures RowBelow(rows[i], n) { assert RowAllowed(rows[i], n, {}); }
  }

  /** In a consistent state without foreign serials the next serial is above all serials of the index, and not in it. */
  lemma NextSerialIsFree(disk: Disk, sf: string, df: string, base: seq<Row>, rows: seq<Row>)
    requires Consistent(disk, sf, df, base, {}) && sf in disk && disk[sf].Serial? && df in disk && disk[df].Index?
    requires Reads(disk[df].text, rows)
    ensures Below(rows, disk[sf].next) && Find(rows, KeyOf(disk[sf].next)).None?
  {
    AllowedIsBelow(rows, disk[sf].next);
    NextSerialIsNew(rows, disk[sf].next);
  }

  lemma AllowedMonotone(rows: seq<Row>, m: nat, n: nat, foreign: set<int>)
    requires Allowed(rows, m, foreign) && m <= n
    ensures Allowed(rows, n, foreign)
  {
    forall i | 0 <= i < |rows| ensures RowAllowed(rows[i], n, foreign) { assert RowAllowed(rows[i], m, foreign); }
  }

  lemma TextAllowedMonotone(text: string, m: nat, n: nat, foreign: set<int>)
    requires TextAllowed(text, m, foreign) && m <= n
    ensures TextAllowed(text, n, foreign)
  {
    forall rows | Reads(text, rows) ensures Allowed(rows, n, foreign) { AllowedMonotone(rows, m, n, foreign); }
  }

  /** What is true of the rows is true of whatever their text can be read as. */
  lemma SavedIsAllowed(rows: seq<Row>, n: nat, foreign: set<int>)
    requires OneLineRows(rows) && Allowed(rows, n, foreign)
    ensures TextAllowed(TextOf(rows), n, foreign)
  {
    forall other | Reads(TextOf(rows), other) ensures Allowed(other, n, foreign) { SavedReadsAs(rows, other); }
  }

  lemma SavedKeeps(base: seq<Row>, rows: seq<Row>)
    requires OneLineRows(rows) && Grown(base, rows)
    ensures TextKeeps(base, TextOf(rows))
  {
    forall other | Reads(TextOf(rows), other) ensures Grown(base, other) { SavedReadsAs(rows, other); }
  }

  // ---- names ----

  ghost function IndexFiles(dbFile: string): set<string> {
    var a := Name(dbFile, "attr");
    {dbFile, Name(dbFile, "new"), Name(dbFile, "old"), a, Name(a, "new"), Name(a, "old")}
  }

  ghost function SerialFiles(serialFile: string): set<string> {
    {serialFile, Name(serialFile, "new"), Name(serialFile, "old")}
  }

  ghost predicate Separate(serialFile: string, dbFile: string) {
    SerialFiles(serialFile) !! IndexFiles(dbFile)
  }

  /** The files of a database called index.txt, and of a serial file called serial. */
  lemma FileNames()
    ensures IndexFiles("index.txt") == {
      "index.txt", "index.txt.new", "index.txt.old", "index.txt.attr", "index.txt.attr.new", "index.txt.attr.old"}
    ensures SerialFiles("serial") == {"serial", "serial.new", "serial.old"}
  {
    var a := Name("index.txt", "attr");
    assert a == "index.txt.attr" && Name(a, "new") == "index.txt.attr.new" && Name(a, "old") == "index.txt.attr.old";
    assert Name("index.txt", "new") == "index.txt.new" && Name("index.txt", "old") == "index.txt.old";
    assert Name("serial", "new") == "serial.new" && Name("serial", "old") == "serial.old";
  }

  lemma NamesAreDistinct(dbFile: string)
    ensures SixNames(dbFile, "new", "old")
  {
    SuffixesDiffer(dbFile, "new", "old");
    SuffixesDiffer(Name(dbFile, "attr"), "new", "old");
  }

  /** All the names made from these two fit their buffers. */
  ghost predicate PathsFit(sf: string, df: string) {
    Fit(sf, "new", "old", 1) && Fit(df, "new", "old", 6)
  }

  /** The longest names that fit. */
  lemma LongestNames(sf: string, df: string)
    ensures PathsFit(sf, df) <==> |sf| <= 251 && |df| <= 246
  {
  }

  // ---- saving ----

  /** `save_serial` */
  method SaveSerial(fs: Fs, file: string, suffix: string, next: nat) returns (ok: bool)
    requires fs.Valid()
    modifies fs
    ensures var n := Name(file, suffix);
      && fs.Valid() && old(fs.history) <= fs.history
      && (forall k :: |old(fs.history)| <= k < |fs.history| ==> SameExcept({n}, old(fs.disk), fs.history[k]))
      && SameExcept({n}, old(fs.disk), fs.disk)
      && (ok ==> n in fs.disk && fs.disk[n] == Serial(next))
      && old(fs.clock) <= fs.clock
      && (!ok && |file| + |suffix| + 1 < BSIZE ==> Refusals(fs.refuses, old(fs.clock), fs.clock) >= 1)
  {
    FewRefusals(fs.refuses, fs.clock);
    if |file| + |suffix| + 1 >= BSIZE { return false; }
    ok := fs.WriteFile(Name(file, suffix), Serial(next));
  }

  /** `save_index`; it reports an empty database as a failure, after emptying the file. */
  method SaveIndex(fs: Fs, file: string, suffix: string, rows: seq<Row>, unique: bool) returns (ok: bool)
    requires fs.Valid() && Name(file, suffix) != Name(Name(file, "attr"), suffix)
    modifies fs
    ensures var n, an := Name(file, suffix), Name(Name(file, "attr"), suffix);
      && fs.Valid() && old(fs.history) <= fs.history
      && (forall k :: |old(fs.history)| <= k < |fs.history| ==> SameExcept({n, an}, old(fs.disk), fs.history[k]))
      && SameExcept({n, an}, old(fs.disk), fs.disk)
      && (ok ==> rows != [] && n in fs.disk && fs.disk[n] == Index(TextOf(rows)))
      && (ok ==> an in fs.disk && fs.disk[an] == Attributes(unique))
      && old(fs.clock) <= fs.clock
      && (!ok && rows != [] && |file| + |suffix| + 6 < BSIZE ==> Refusals(fs.refuses, old(fs.clock), fs.clock) >= 1)
  {
    FewRefusals(fs.refuses, fs.clock);
    if |file| + |suffix| + 6 >= BSIZE { return false; }
    ok := fs.WriteFile(Name(file, suffix), Index(TextOf(rows)));
    if !ok || rows == [] { return false; }
    ok := fs.WriteFile(Name(Name(file, "attr"), suffix), Attributes(unique));
  }

  // ---- consistency while files change ----

  /** Neither live file changed. */
  lemma SameLiveStays(
      start: Disk, h: Disk, paths: set<string>, sf: string, df: string, base: seq<Row>, foreign: set<int>)
    requires Consistent(start, sf, df, base, foreign) && SameExcept(paths, start, h)
    requires sf !in paths && df !in paths
    ensures Consistent(h, sf, df, base, foreign)
  {
    Agree(paths, start, h, sf);
    Agree(paths, start, h, df);
  }

  /** While the serial rotates, the live index is still the old one. */
  lemma SerialRotationStays(
      start: Disk, h: Disk, sf: string, df: string, n: nat, base: seq<Row>, foreign: set<int>)
    requires Separate(sf, df) && Consistent(start, sf, df, base, foreign)
    requires sf in start && start[sf].Serial? && df in start && start[df].Index?
    requires Name(sf, "new") in start && start[Name(sf, "new")] == Serial(n) && start[sf].next <= n
    requires RotatesTo(start, sf, Name(sf, "new"), Name(sf, "old"), h)
    ensures Consistent(h, sf, df, base, foreign)
  {
    assert df in IndexFiles(df);
    Agree(SerialFiles(sf), start, h, df);
    TextAllowedMonotone(start[df].text, start[sf].next, n, foreign);
  }

  /** While the index rotates, the live one is the old one or the new one, and the serial does not move. */
  lemma IndexRotationStays(start: Disk, h: Disk, sf: string, df: string, base: seq<Row>, foreign: set<int>)
    requires Separate(sf, df) && Consistent(start, sf, df, base, foreign) && df in start
    requires var n := Name(df, "new");
      && n in start && start[n].Index? && TextKeeps(base, start[n].text)
      && NextAllows(start, sf, start[n].text, foreign)
    requires var a := Name(df, "attr");
      IndexState(start, df, Name(df, "new"), Name(df, "old"), a, Name(a, "new"), Name(a, "old"), h)
    ensures Consistent(h, sf, df, base, foreign)
  {
    assert sf in SerialFiles(sf);
    Agree(IndexFiles(df), start, h, sf);
  }

  // ---- putting the files in place ----

  /** The new versions of all three files, beside the live ones. */
  method SaveAll(
      fs: Fs, sf: string, df: string, next: nat, rows: seq<Row>, unique: bool,
      ghost base: seq<Row>, ghost foreign: set<int>)
    returns (ok: bool)
    requires fs.Valid() && Separate(sf, df) && Consistent(fs.disk, sf, df, base, foreign) && SixNames(df, "new", "old")
    modifies fs
    ensures var sn, n, an := Name(sf, "new"), Name(df, "new"), Name(Name(df, "attr"), "new");
      && fs.Valid() && old(fs.history) <= fs.history
      && SameExcept({sn, n, an}, old(fs.disk), fs.disk)
      && ConsistentSince(|old(fs.history)|, fs, sf, df, base, foreign)
      && (ok ==> sn in fs.disk && fs.disk[sn] == Serial(next))
      && (ok ==> n in fs.disk && fs.disk[n] == Index(TextOf(rows)) && an in fs.disk)
      && old(fs.clock) <= fs.clock
      && (!ok && rows != [] && PathsFit(sf, df) ==> Refusals(fs.refuses, old(fs.clock), fs.clock) >= 1)
  {
    ghost var sn, n, an := Name(sf, "new"), Name(df, "new"), Name(Name(df, "attr"), "new");
    SuffixesDiffer(sf, "new", "old");
    assert {sf, sn} <= SerialFiles(sf) && {df, n, an} <= IndexFiles(df);
    ghost var d0, c0, h0 := fs.disk, fs.clock, |fs.history|;
    ok := SaveSerial(fs, sf, "new", next);
    ghost var d1, c1, h1 := fs.disk, fs.clock, |fs.history|;
    forall k | h0 <= k < h1 ensures Consistent(fs.history[k], sf, df, base, foreign) {
      SameLiveStays(d0, fs.history[k], {sn}, sf, df, base, foreign);
    }
    SameLiveStays(d0, d1, {sn}, sf, df, base, foreign);
    Widen({sn}, {sn, n, an}, d0, d1);
    if !ok { return; }
    ok := SaveIndex(fs, df, "new", rows, unique);
    RefusalsSplit(fs.refuses, c0, c1, fs.clock);
    forall k | h1 <= k < |fs.history| ensures Consistent(fs.history[k], sf, df, base, foreign) {
      SameLiveStays(d1, fs.history[k], {n, an}, sf, df, base, foreign);
    }
    Agree({n, an}, d1, fs.disk, sn);
    Widen({n, an}, {sn, n, an}, d1, fs.disk);
  }

  /**
   * Save, write out the certificates, then rotate the serial, then the index. It fails only if the certificates
   * cannot be written or some operation on these files is refused.
   */
  method Commit(
      fs: Fs, sf: string, df: string, next: nat, rows: seq<Row>, unique: bool, written: bool,
      ghost base: seq<Row>, ghost foreign: set<int>)
    returns (ok: bool)
    requires fs.Valid() && Separate(sf, df) && Consistent(fs.disk, sf, df, base, foreign)
    requires sf in fs.disk && fs.disk[sf].Serial? && df in fs.disk && fs.disk[df].Index?
    requires fs.disk[sf].next <= next && TextAllowed(TextOf(rows), next, foreign) && TextKeeps(base, TextOf(rows))
    modifies fs
    ensures fs.Valid() && old(fs.history) <= fs.history
    ensures Consistent(fs.disk, sf, df, base, foreign)
    ensures ConsistentSince(|old(fs.history)|, fs, sf, df, base, foreign)
    ensures ok ==> written
    ensures ok ==> sf in fs.disk && fs.disk[sf] == Serial(next) && df in fs.disk && fs.disk[df] == Index(TextOf(rows))
    ensures old(fs.clock) <= fs.clock
    ensures !ok && written && rows != [] && PathsFit(sf, df) ==> Refusals(fs.refuses, old(fs.clock), fs.clock) >= 1
  {
    NamesAreDistinct(df);
    SuffixesDiffer(sf, "new", "old");
    ghost var sn, n, a := Name(sf, "new"), Name(df, "new"), Name(df, "attr");
    ghost var an := Name(a, "new");
    assert {sf, sn} <= SerialFiles(sf) && {df, n, an} <= IndexFiles(df);
    ghost var d0, c0 := fs.disk, fs.clock;
    ok := SaveAll(fs, sf, df, next, rows, unique, base, foreign);
    ghost var d2, c2, h2 := fs.disk, fs.clock, |fs.history|;
    SameLiveStays(d0, d2, {sn, n, an}, sf, df, base, foreign);
    Agree({sn, n, an}, d0, d2, sf);
    Agree({sn, n, an}, d0, d2, df);
    if !ok || !written { return false; }
    ghost var undone;
    ok, undone := RotateSerial(fs, sf, "new", "old");
    ghost var d3, c3, h3 := fs.disk, fs.clock, |fs.history|;
    RefusalsSplit(fs.refuses, c0, c2, c3);
    forall k | h2 <= k < h3 ensures Consistent(fs.history[k], sf, df, base, foreign) {
      SerialRotationStays(d2, fs.history[k], sf, df, next, base, foreign);
    }
    if !ok {
      if h3 > h2 { assert fs.history[h3 - 1] == d3; } else { assert d3 == d2; }
      return;
    }
    Agree(SerialFiles(sf), d2, d3, n);
    Agree(SerialFiles(sf), d2, d3, an);
    Agree(SerialFiles(sf), d2, d3, df);
    TextAllowedMonotone(d2[df].text, d2[sf].next, next, foreign);
    ok := PutIndex(fs, sf, df, base, foreign);
    RefusalsSplit(fs.refuses, c0, c3, fs.clock);
  }

  ghost predicate SameSerial(sf: string, a: Disk, b: Disk) {
    (sf in a <==> sf in b) && (sf in a ==> a[sf] == b[sf])
  }

  /** The rotation of the index, once its new versions are saved. */
  method PutIndex(fs: Fs, sf: string, df: string, ghost base: seq<Row>, ghost foreign: set<int>) returns (ok: bool)
    requires fs.Valid() && Separate(sf, df) && Consistent(fs.disk, sf, df, base, foreign) && df in fs.disk
    requires var n := Name(df, "new");
      && n in fs.disk && fs.disk[n].Index? && TextKeeps(base, fs.disk[n].text)
      && NextAllows(fs.disk, sf, fs.disk[n].text, foreign)
    modifies fs
    ensures fs.Valid() && old(fs.history) <= fs.history
    ensures Consistent(fs.disk, sf, df, base, foreign)
    ensures ConsistentSince(|old(fs.history)|, fs, sf, df, base, foreign)
    ensures ok ==> df in fs.disk && fs.disk[df] == old(fs.disk)[Name(df, "new")]
    ensures SameSerial(sf, old(fs.disk), fs.disk)
    ensures old(fs.clock) <= fs.clock
    ensures !ok && PathsFit(sf, df) && Name(Name(df, "attr"), "new") in old(fs.disk) ==>
      Refusals(fs.refuses, old(fs.clock), fs.clock) >= 1
  {
    NamesAreDistinct(df);
    assert sf in SerialFiles(sf);
    ghost var start, before := fs.disk, |fs.history|;
    ghost var undone;
    ok, undone := RotateIndex(fs, df, "new", "old");
    forall k | before <= k < |fs.history| ensures Consistent(fs.history[k], sf, df, base, foreign) {
      IndexRotationStays(start, fs.history[k], sf, df, base, foreign);
    }
    IndexRotationStays(start, fs.disk, sf, df, base, foreign);
    Agree(IndexFiles(df), start, fs.disk, sf);
  }

  /** How the parts of a command that do not issue put their index in place. */
  method ReplaceIndex(
      fs: Fs, sf: string, df: string, rows: seq<Row>, unique: bool, ghost base: seq<Row>, ghost foreign: set<int>)
    returns (ok: bool)
    requires fs.Valid() && Separate(sf, df) && Consistent(fs.disk, sf, df, base, foreign)
    requires df in fs.disk && fs.disk[df].Index?
    requires NextAllows(fs.disk, sf, TextOf(rows), foreign) && TextKeeps(base, TextOf(rows))
    modifies fs
    ensures fs.Valid() && old(fs.history) <= fs.history
    ensures Consistent(fs.disk, sf, df, base, foreign)
    ensures ConsistentSince(|old(fs.history)|, fs, sf, df, base, foreign)
    ensures ok ==> df in fs.disk && fs.disk[df] == Index(TextOf(rows))
    ensures SameSerial(sf, old(fs.disk), fs.disk)
    ensures old(fs.clock) <= fs.clock
    ensures !ok && rows != [] && PathsFit(sf, df) ==> Refusals(fs.refuses, old(fs.clock), fs.clock) >= 1
  {
    NamesAreDistinct(df);
    ghost var n, an := Name(df, "new"), Name(Name(df, "attr"), "new");
    assert {df, n, an} <= IndexFiles(df) && sf in SerialFiles(sf);
    ghost var d0, c0, h0 := fs.disk, fs.clock, |fs.history|;
    ok := SaveIndex(fs, df, "new", rows, unique);
    ghost var d1, c1, h1 := fs.disk, fs.clock, |fs.history|;
    forall k | h0 <= k < h1 ensures Consistent(fs.history[k], sf, df, base, foreign) {
      SameLiveStays(d0, fs.history[k], {n, an}, sf, df, base, foreign);
    }
    SameLiveStays(d0, d1, {n, an}, sf, df, base, foreign);
    Agree({n, an}, d0, d1, sf);
    Agree({n, an}, d0, d1, df);
    if !ok { return; }
    ok := PutIndex(fs, sf, df, base, foreign);
    RefusalsSplit(fs.refuses, c0, c1, fs.clock);
  }
}
