/** The files of the authority, and the rename sequences that put new versions of them in place. */
module FileSystem {
  /** `Partial` is a file that has been opened for writing and not been written yet. */
  datatype Content = Serial(next: nat) | Index(text: string) | Attributes(unique: bool) | Partial

  type Disk = map<string, Content>

  datatype Outcome = Done | NoEntry | Refused

  const BSIZE := 256

  function Name(file: string, suffix: string): string {
    file + "." + suffix
  }

  class Fs {
    var disk: Disk
    /** Operations so far; operation number k is refused when `refuses(k)`. */
    var clock: nat
    const refuses: nat -> bool
    /** Every state of the disk, the present one last: a crash leaves one of these. */
    ghost var history: seq<Disk>

    ghost predicate Valid()
      reads this
    {
      history != [] && history[|history| - 1] == disk
    }

    constructor (disk: Disk, refuses: nat -> bool)
      ensures Valid() && this.disk == disk && this.refuses == refuses && history == [disk]
    {
      this.disk, this.refuses, this.clock, history := disk, refuses, 0, [disk];
    }

    /** `rename`; a missing source is the only cause of ENOENT. */
    method Rename(src: string, dst: string) returns (r: Outcome)
      requires Valid()
      modifies this
      ensures Valid()
      ensures clock == old(clock) + 1
      ensures r == NoEntry <==> src !in old(disk)
      ensures r == Refused <==> src in old(disk) && refuses(old(clock))
      ensures r != Done ==> disk == old(disk)
      ensures r == Done ==> disk == Moved(old(disk), src, dst)
      ensures history == old(history) + [disk]
    {
      var k := clock;
      clock := clock + 1;
      if src !in disk {
        r := NoEntry;
      } else if refuses(k) {
        r := Refused;
      } else {
        disk, r := Moved(disk, src, dst), Done;
      }
      history := history + [disk];
    }

    /** Opening a file for writing, which empties it, and writing it. */
    method WriteFile(path: string, content: Content) returns (ok: bool)
      requires Valid()
      modifies this
      ensures Valid() && clock == old(clock) + 1
      ensures ok <==> !refuses(old(clock))
      ensures !ok ==> disk == old(disk) && history == old(history)
      ensures ok ==> disk == old(disk)[path := content]
      ensures ok ==> history == old(history) + [old(disk)[path := Partial], disk]
    {
      var k := clock;
      clock := clock + 1;
      if refuses(k) { return false; }
      disk := disk[path := Partial];
      history := history + [disk];
      disk := disk[path := content];
      history := history + [disk];
      return true;
    }
  }

  /** How many of the operations from number `from` up to `to` were refused. */
  ghost function Refusals(refuses: nat -> bool, from: nat, to: nat): nat {
    if to <= from then 0 else Refusals(refuses, from, to - 1) + if refuses(to - 1) then 1 else 0
  }

  lemma {:induction false} RefusalsSplit(refuses: nat -> bool, a: nat, b: nat, c: nat)
    requires a <= b <= c
    ensures Refusals(refuses, a, c) == Refusals(refuses, a, b) + Refusals(refuses, b, c)
    decreases c
  {
    if b == c {
    } else {
      RefusalsSplit(refuses, a, b, c - 1);
    }
  }

  lemma FewRefusals(refuses: nat -> bool, k: nat)
    ensures var r0, r1, r2 := refuses(k), refuses(k + 1), refuses(k + 2);
      && (Refusals(refuses, k, k + 1) >= 1 <==> r0)
      && (Refusals(refuses, k, k + 2) >= 1 <==> r0 || r1)
      && (Refusals(refuses, k, k + 3) >= 1 <==> r0 || r1 || r2)
      && (r1 && r2 ==> Refusals(refuses, k, k + 3) >= 2)
  {
  }

  function Moved(disk: Disk, src: string, dst: string): Disk
    requires src in disk
  {
    (disk - {src})[dst := disk[src]]
  }

  /** The two disks agree outside `paths`. */
  ghost predicate SameExcept(paths: set<string>, a: Disk, b: Disk) {
    a - paths == b - paths
  }

  /** `file` is absent, or holds what it or its new version held at first. */
  ghost predicate OldOrNew(start: Disk, file: string, newFile: string, h: Disk) {
    file in h ==> (file in start && h[file] == start[file]) || (newFile in start && h[file] == start[newFile])
  }

  /** The contents `file` had at first are still in it or in its backup. */
  ghost predicate NotLost(start: Disk, file: string, backup: string, h: Disk) {
    file in start ==> (file in h && h[file] == start[file]) || (backup in h && h[backup] == start[file])
  }

  /** What holds of every state during a rotation of `file`. */
  ghost predicate Rotating(start: Disk, file: string, newFile: string, backup: string, h: Disk) {
    file in start ==> OldOrNew(start, file, newFile, h) && NotLost(start, file, backup, h)
  }

  /** Every state since the history was `before` long has left other files alone and rotated `file` safely. */
  ghost predicate RotatesSince(before: nat, fs: Fs, start: Disk, file: string, newFile: string, backup: string)
    reads fs
  {
    forall k :: before <= k < |fs.history| ==> RotatesTo(start, file, newFile, backup, fs.history[k])
  }

  ghost predicate RotatesTo(start: Disk, f: string, n: string, b: string, h: Disk) {
    SameExcept({f, n, b}, start, h) && Rotating(start, f, n, b, h)
  }

  lemma AfterFirst(start: Disk, f: string, n: string, b: string)
    requires f != n && f != b && n != b
    ensures RotatesTo(start, f, n, b, start)
    ensures f in start ==> RotatesTo(start, f, n, b, Moved(start, f, b))
  {
  }

  lemma AfterSecond(start: Disk, f: string, n: string, b: string, d: Disk)
    requires f != n && f != b && n != b && d == (if f in start then Moved(start, f, b) else start)
    ensures n in d ==> RotatesTo(start, f, n, b, Moved(d, n, f))
    ensures b in d ==> RotatesTo(start, f, n, b, Moved(d, b, f))
    ensures f in start ==> b in d && SameExcept({b}, start, Moved(d, b, f))
  {
  }

  /**
   * The two renames every rotation consists of. `undone` says that a failure left the file and its new version as
   * before; it fails to do so only if the rename that takes the first one back is refused as well.
   */
  method RotateFile(fs: Fs, file: string, newFile: string, backup: string) returns (ok: bool, ghost undone: bool)
    requires fs.Valid() && file != newFile && file != backup && newFile != backup
    modifies fs
    ensures fs.Valid() && old(fs.history) <= fs.history
    ensures RotatesSince(|old(fs.history)|, fs, old(fs.disk), file, newFile, backup)
    ensures SameExcept({file, newFile, backup}, old(fs.disk), fs.disk)
    ensures Rotating(old(fs.disk), file, newFile, backup, fs.disk)
    ensures ok ==> newFile in old(fs.disk) && newFile !in fs.disk
    ensures ok ==> file in fs.disk && fs.disk[file] == old(fs.disk)[newFile]
    ensures ok && file in old(fs.disk) ==> backup in fs.disk && fs.disk[backup] == old(fs.disk)[file]
    ensures !ok && undone && file in old(fs.disk) ==> SameExcept({backup}, old(fs.disk), fs.disk)
    ensures old(fs.clock) <= fs.clock
    ensures var refused := Refusals(fs.refuses, old(fs.clock), fs.clock);
      var needed := if newFile in old(fs.disk) then 1 else 0;
      && (!ok ==> refused >= needed)
      && (!ok && !undone && file in old(fs.disk) ==> refused >= needed + 1)
  {
    FewRefusals(fs.refuses, fs.clock);
    ghost var start := fs.disk;
    AfterFirst(start, file, newFile, backup);
    var r := fs.Rename(file, backup);
    if r == Refused { return false, true; }
    AfterSecond(start, file, newFile, backup, fs.disk);
    r := fs.Rename(newFile, file);
    if r != Done {
      r := fs.Rename(backup, file);
      return false, r == Done;
    }
    return true, true;
  }

  lemma SuffixesDiffer(file: string, a: string, b: string)
    ensures Name(file, a) == Name(file, b) <==> a == b
    ensures Name(file, a) != file
  {
    assert Name(file, a)[|file| + 1..] == a && Name(file, b)[|file| + 1..] == b;
  }

  /** The longest name, with `extra` characters for dots and ".attr", fits its buffer. */
  ghost predicate Fit(file: string, newSuffix: string, oldSuffix: string, extra: nat) {
    |file| + |oldSuffix| + extra < BSIZE && |file| + |newSuffix| + extra < BSIZE
  }

  /** `rotate_serial`: all or nothing if a failure can be taken back, and the live contents are never lost. */
  method RotateSerial(fs: Fs, file: string, newSuffix: string, oldSuffix: string) returns (ok: bool, ghost undone: bool)
    requires fs.Valid() && newSuffix != oldSuffix
    modifies fs
    ensures var n, o := Name(file, newSuffix), Name(file, oldSuffix); var start := old(fs.disk);
      && fs.Valid() && old(fs.history) <= fs.history
      && RotatesSince(|old(fs.history)|, fs, start, file, n, o)
      && SameExcept({file, n, o}, start, fs.disk)
      && (ok ==> n in start && file in fs.disk && fs.disk[file] == start[n])
      && (ok && file in start ==> o in fs.disk && fs.disk[o] == start[file])
      && (!ok && undone && file in start ==> SameExcept({o}, start, fs.disk))
      && old(fs.clock) <= fs.clock
      && var refused := Refusals(fs.refuses, old(fs.clock), fs.clock); var needed := if n in start then 1 else 0;
      && (!ok && Fit(file, newSuffix, oldSuffix, 1) ==> refused >= needed)
      && (!ok && !undone && file in start ==> refused >= needed + 1)
  {
    var i, j := |file| + |oldSuffix|, |file| + |newSuffix|;
    if i > j { j := i; }
    if j + 1 >= BSIZE { return false, true; }
    SuffixesDiffer(file, newSuffix, oldSuffix);
    SuffixesDiffer(file, oldSuffix, newSuffix);
    ok, undone := RotateFile(fs, file, Name(file, newSuffix), Name(file, oldSuffix));
  }

  ghost predicate Distinct6(f: string, n: string, o: string, a: string, an: string, ao: string) {
    && f != n && f != o && f != a && f != an && f != ao
    && n != o && n != a && n != an && n != ao
    && o != a && o != an && o != ao
    && a != an && a != ao && an != ao
  }

  /** The six names of a rotation of the index are different. */
  ghost predicate SixNames(file: string, newSuffix: string, oldSuffix: string) {
    var a := Name(file, "attr");
    Distinct6(file, Name(file, newSuffix), Name(file, oldSuffix), a, Name(a, newSuffix), Name(a, oldSuffix))
  }

  /** Everything a rotation of the index promises of a state `h` it goes through. */
  ghost predicate IndexState(start: Disk, f: string, n: string, o: string, a: string, an: string, ao: string, h: Disk) {
    && SameExcept({f, n, o, a, an, ao}, start, h)
    && Rotating(start, f, n, o, h)
    && Rotating(start, a, an, ao, h)
  }

  lemma FirstHalf(start: Disk, f: string, n: string, o: string, a: string, an: string, ao: string, h: Disk)
    requires Distinct6(f, n, o, a, an, ao) && SameExcept({f, n, o}, start, h) && Rotating(start, f, n, o, h)
    ensures IndexState(start, f, n, o, a, an, ao, h)
  {
    Agree({f, n, o}, start, h, a);
    Widen({f, n, o}, {f, n, o, a, an, ao}, start, h);
  }

  /** From the state `mid` after the first half succeeded. */
  lemma SecondHalf(start: Disk, mid: Disk, f: string, n: string, o: string, a: string, an: string, ao: string, h: Disk)
    requires Distinct6(f, n, o, a, an, ao) && SameExcept({f, n, o}, start, mid) && Rotating(start, f, n, o, mid)
    requires SameExcept({a, an, ao}, mid, h) && Rotating(mid, a, an, ao, h)
    ensures IndexState(start, f, n, o, a, an, ao, h)
  {
    Agree({a, an, ao}, mid, h, f);
    Agree({a, an, ao}, mid, h, o);
    Agree({f, n, o}, start, mid, a);
    Agree({f, n, o}, start, mid, an);
    Widen({f, n, o}, {f, n, o, a, an, ao}, start, mid);
    Widen({a, an, ao}, {f, n, o, a, an, ao}, mid, h);
  }

  lemma Agree(paths: set<string>, a: Disk, b: Disk, p: string)
    requires SameExcept(paths, a, b) && p !in paths
    ensures p in a <==> p in b
    ensures p in a ==> a[p] == b[p]
  {
    assert p in a <==> p in a - paths;
    assert p in b <==> p in b - paths;
    if p in a { assert a[p] == (a - paths)[p] == (b - paths)[p] == b[p]; }
  }

  lemma Widen(paths: set<string>, more: set<string>, a: Disk, b: Disk)
    requires SameExcept(paths, a, b) && paths <= more
    ensures SameExcept(more, a, b)
  {
    assert a - more == (a - paths) - more && b - more == (b - paths) - more;
  }

  /** Putting the index back when its attribute file could not be rotated. */
  method TakeBack(fs: Fs, file: string, newFile: string, backup: string, ghost start: Disk) returns (ghost undone: bool)
    requires fs.Valid() && file != newFile && file != backup && newFile != backup
    requires newFile in start && file in fs.disk && fs.disk[file] == start[newFile]
    requires file in start ==> backup in fs.disk && fs.disk[backup] == start[file]
    modifies fs
    ensures fs.Valid() && old(fs.history) <= fs.history
    ensures forall k :: |old(fs.history)| <= k < |fs.history| ==>
      && SameExcept({file, newFile, backup}, old(fs.disk), fs.history[k])
      && Rotating(start, file, newFile, backup, fs.history[k])
    ensures SameExcept({file, newFile, backup}, old(fs.disk), fs.disk)
    ensures undone && file in start ==> file in fs.disk && fs.disk[file] == start[file]
    ensures old(fs.clock) <= fs.clock
    ensures !undone && file in start ==> Refusals(fs.refuses, old(fs.clock), fs.clock) >= 1
  {
    FewRefusals(fs.refuses, fs.clock);
    var r1 := fs.Rename(file, newFile);
    var r2 := fs.Rename(backup, file);
    undone := r1 == Done && r2 == Done;
  }

  lemma ThirdPart(start: Disk, late: Disk, f: string, n: string, o: string, a: string, an: string, ao: string, h: Disk)
    requires Distinct6(f, n, o, a, an, ao) && IndexState(start, f, n, o, a, an, ao, late)
    requires SameExcept({f, n, o}, late, h) && Rotating(start, f, n, o, h)
    ensures IndexState(start, f, n, o, a, an, ao, h)
  {
    Agree({f, n, o}, late, h, a);
    Agree({f, n, o}, late, h, ao);
    Widen({f, n, o}, {f, n, o, a, an, ao}, late, h);
  }

  /** The second half of `rotate_index`: the attribute file, and on failure the renames that undo the first half. */
  method RotateAttributes(
      fs: Fs, f: string, n: string, o: string, a: string, an: string, ao: string, ghost start: Disk)
    returns (ok: bool, ghost undone: bool)
    requires fs.Valid() && Distinct6(f, n, o, a, an, ao)
    requires RotatesTo(start, f, n, o, fs.disk) && n in start && f in fs.disk && fs.disk[f] == start[n]
    requires f in start ==> o in fs.disk && fs.disk[o] == start[f]
    modifies fs
    ensures fs.Valid() && old(fs.history) <= fs.history
    ensures forall k :: |old(fs.history)| <= k < |fs.history| ==> IndexState(start, f, n, o, a, an, ao, fs.history[k])
    ensures IndexState(start, f, n, o, a, an, ao, fs.disk)
    ensures ok ==> f in fs.disk && fs.disk[f] == start[n] && (f in start ==> o in fs.disk && fs.disk[o] == start[f])
    ensures ok ==> an in start && a in fs.disk && fs.disk[a] == start[an]
    ensures ok && a in start ==> ao in fs.disk && fs.disk[ao] == start[a]
    ensures !ok && undone && f in start && a in start ==>
      f in fs.disk && fs.disk[f] == start[f] && a in fs.disk && fs.disk[a] == start[a]
    ensures old(fs.clock) <= fs.clock
    ensures var refused := Refusals(fs.refuses, old(fs.clock), fs.clock); var needed := if an in start then 1 else 0;
      (!ok ==> refused >= needed) && (!ok && !undone && f in start && a in start ==> refused >= needed + 1)
  {
    ghost var mid, h1, c1 := fs.disk, |fs.history|, fs.clock;
    ok, undone := RotateFile(fs, a, an, ao);
    ghost var late, h2, c2 := fs.disk, |fs.history|, fs.clock;
    forall k | h1 <= k < h2 ensures IndexState(start, f, n, o, a, an, ao, fs.history[k]) {
      SecondHalf(start, mid, f, n, o, a, an, ao, fs.history[k]);
    }
    SecondHalf(start, mid, f, n, o, a, an, ao, late);
    Agree({a, an, ao}, mid, late, f);
    Agree({a, an, ao}, mid, late, o);
    Agree({f, n, o}, start, mid, a);
    Agree({f, n, o}, start, mid, an);
    if ok { return; }
    ghost var back := TakeBack(fs, f, n, o, start);
    RefusalsSplit(fs.refuses, c1, c2, fs.clock);
    forall k | h2 <= k < |fs.history| ensures IndexState(start, f, n, o, a, an, ao, fs.history[k]) {
      ThirdPart(start, late, f, n, o, a, an, ao, fs.history[k]);
    }
    ThirdPart(start, late, f, n, o, a, an, ao, fs.disk);
    Agree({f, n, o}, late, fs.disk, a);
    if undone && a in mid { Agree({ao}, mid, late, a); }
    undone := undone && back;
  }

  /**
   * `rotate_index`: the index, then its attribute file; a late failure takes back the earlier renames. It fails only
   * if a rename is refused or a new file is missing. It is all or nothing unless a second rename, one that takes an
   * earlier one back, is refused as well; and the live contents are never lost.
   */
  method RotateIndex(fs: Fs, file: string, newSuffix: string, oldSuffix: string) returns (ok: bool, ghost undone: bool)
    requires fs.Valid() && SixNames(file, newSuffix, oldSuffix)
    modifies fs
    ensures var n, o, a := Name(file, newSuffix), Name(file, oldSuffix), Name(file, "attr");
      var an, ao := Name(a, newSuffix), Name(a, oldSuffix); var start := old(fs.disk);
      && fs.Valid() && old(fs.history) <= fs.history
      && (forall k :: |old(fs.history)| <= k < |fs.history| ==> IndexState(start, file, n, o, a, an, ao, fs.history[k]))
      && IndexState(start, file, n, o, a, an, ao, fs.disk)
      && (ok ==> n in start && file in fs.disk && fs.disk[file] == start[n])
      && (ok ==> an in start && a in fs.disk && fs.disk[a] == start[an])
      && (ok && file in start ==> o in fs.disk && fs.disk[o] == start[file])
      && (ok && a in start ==> ao in fs.disk && fs.disk[ao] == start[a])
      && (!ok && undone && file in start && a in start ==>
            file in fs.disk && fs.disk[file] == start[file] && a in fs.disk && fs.disk[a] == start[a])
      && old(fs.clock) <= fs.clock
      && var refused := Refusals(fs.refuses, old(fs.clock), fs.clock);
      var needed := if n in start && an in start then 1 else 0;
      && (!ok && Fit(file, newSuffix, oldSuffix, 6) ==> refused >= needed)
      && (!ok && !undone && file in start && a in start ==> refused >= needed + 1)
  {
    var i, j := |file| + |oldSuffix|, |file| + |newSuffix|;
    if i > j { j := i; }
    var n, o, a := Name(file, newSuffix), Name(file, oldSuffix), Name(file, "attr");
    var an, ao := Name(a, newSuffix), Name(a, oldSuffix);
    ghost var start, h0, c0 := fs.disk, |fs.history|, fs.clock;
    if j + 6 >= BSIZE { return false, true; }
    ok, undone := RotateFile(fs, file, n, o);
    ghost var mid, h1, c1 := fs.disk, |fs.history|, fs.clock;
    forall k | h0 <= k < h1 ensures IndexState(start, file, n, o, a, an, ao, fs.history[k]) {
      FirstHalf(start, file, n, o, a, an, ao, fs.history[k]);
    }
    FirstHalf(start, file, n, o, a, an, ao, mid);
    if !ok {
      assert undone && file in start && a in start ==> SameExcept({o}, start, mid);
      if undone && file in start && a in start { Agree({o}, start, mid, file); Agree({o}, start, mid, a); }
      return;
    }
    ok, undone := RotateAttributes(fs, file, n, o, a, an, ao, start);
    RefusalsSplit(fs.refuses, c0, c1, fs.clock);
  }
}
