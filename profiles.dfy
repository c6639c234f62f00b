/** The profile swap: Load parks the live save file and copies a named
    profile in; Unload rotates the profile's numbered backups, saves the live
    file back into the profile and restores the parked file. */
module Profiles {
  import opened Files
  import opened Paths

  /** One named save slot. `path` overrides the derived location when set;
      the program itself never sets it. */
  datatype Profile = Profile(name: string, options: seq<string>, preserve: int, path: FilePath)

  // ---------------------------------------------------------------------------
  // The reserved name

  function LowerChar(ch: char): char {
    if 'A' <= ch <= 'Z' then (ch as int + 32) as char else ch
  }

  /** ASCII lower-casing. */
  function Lower(s: string): (r: string)
    ensures |r| == |s|
    ensures forall i :: 0 <= i < |s| ==> r[i] == LowerChar(s[i])
  {
    seq(|s|, i requires 0 <= i < |s| => LowerChar(s[i]))
  }

  /** The sentinel profile name "local", in any letter case: use the live file as it is. */
  predicate IsLocal(name: string) {
    Lower(name) == "local"
  }

  /** The reserved name is exactly the five letters of "local", each in either case. */
  lemma IsLocalSpelling(name: string)
    ensures IsLocal(name) <==>
      |name| == 5 && forall i :: 0 <= i < 5 ==> name[i] == "local"[i] || name[i] == "LOCAL"[i]
  {
    if |name| == 5 && forall i :: 0 <= i < 5 ==> name[i] == "local"[i] || name[i] == "LOCAL"[i] {
      forall i | 0 <= i < 5 ensures Lower(name)[i] == "local"[i] {
        assert name[i] == "local"[i] || name[i] == "LOCAL"[i];
      }
    }
    if IsLocal(name) {
      forall i | 0 <= i < 5 ensures name[i] == "local"[i] || name[i] == "LOCAL"[i] {
        assert LowerChar(name[i]) == "local"[i];
      }
    }
  }

  // ---------------------------------------------------------------------------
  // Where a profile lives

  /** Profile.Path: the profile's own saved file. */
  function ProfilePath(c: Config, p: Profile): (r: FilePath)
    ensures p.path == "" ==> EndsWith(r, p.name + ".dat")
  {
    if p.path != "" then p.path else Join(c.LocalDir(), p.name + ".dat")
  }

  /** Profile.getBackupName: backup slot `i` of the profile. */
  function BackupName(c: Config, p: Profile, i: nat): FilePath {
    ProfilePath(c, p) + "-backup." + Decimal(i)
  }

  /** Every slot name extends the profile path and ends in a digit. Kept apart
      from `BackupName` so that proofs about slots do not carry it. */
  lemma BackupNameShape(c: Config, p: Profile, i: nat)
    ensures var r := BackupName(c, p, i);
      |r| > |ProfilePath(c, p)| && r[..|ProfilePath(c, p)|] == ProfilePath(c, p) && IsDigit(r[|r| - 1])
  {
    var f := ProfilePath(c, p);
    assert (f + "-backup." + Decimal(i))[..|f|] == f;
  }

  /** The slot after slot `k`. It is only a name for `BackupName(c, p, k + 1)`:
      quantifiers over slot pairs hang on it, so that instantiating one does not
      produce a fresh `BackupName` term that instantiates it again. */
  function NextSlot(c: Config, p: Profile, k: nat): FilePath {
    BackupName(c, p, k + 1)
  }

  /** Backup slots 0 .. n-1. */
  function Slots(c: Config, p: Profile, n: nat): set<FilePath> {
    set k: nat | k < n :: BackupName(c, p, k)
  }

  /** The files the swap touches are pairwise different paths. */
  ghost predicate WellLaidOut(c: Config, p: Profile) {
    var a, b, f := c.ActiveFile(), c.BakFile(), ProfilePath(c, p);
    && a != b && a != f && b != f
    && (forall i: nat :: BackupName(c, p, i) != a && BackupName(c, p, i) != b && BackupName(c, p, i) != f)
    && (forall i: nat, j: nat :: i != j ==> BackupName(c, p, i) != BackupName(c, p, j))
  }

  /** None of the files the swap touches refuses access. */
  ghost predicate Unlocked(c: Config, p: Profile, locked: set<FilePath>) {
    && c.ActiveFile() !in locked && c.BakFile() !in locked && ProfilePath(c, p) !in locked
    && SlotsUnlocked(c, p, locked)
  }

  /** No backup slot refuses access. */
  ghost predicate SlotsUnlocked(c: Config, p: Profile, locked: set<FilePath>) {
    forall i: nat :: BackupName(c, p, i) !in locked
  }

  /** Different slots are different paths. */
  lemma SlotsApart(c: Config, p: Profile, i: nat, j: nat)
    requires i != j
    ensures BackupName(c, p, i) != BackupName(c, p, j)
  {
    var prefix := ProfilePath(c, p) + "-backup.";
    if BackupName(c, p, i) == BackupName(c, p, j) {
      assert BackupName(c, p, i)[|prefix|..] == Decimal(i);
      assert BackupName(c, p, j)[|prefix|..] == Decimal(j);
      DecimalInjective(i, j);
    }
  }

  lemma SlotIn(c: Config, p: Profile, k: nat, n: nat)
    requires k < n
    ensures BackupName(c, p, k) in Slots(c, p, n)
  {
  }

  lemma SlotNotInAbove(c: Config, p: Profile, j: nat, n: nat)
    requires j >= n
    ensures BackupName(c, p, j) !in Slots(c, p, n)
  {
    forall k: nat | k < n ensures BackupName(c, p, k) != BackupName(c, p, j) {
      SlotsApart(c, p, k, j);
    }
  }

  /** Backup slots are distinct from each other and from the profile file,
      whatever the profile's location. */
  lemma BackupNamesDistinct(c: Config, p: Profile)
    ensures forall i: nat, j: nat :: i != j ==> BackupName(c, p, i) != BackupName(c, p, j)
    ensures forall i: nat :: BackupName(c, p, i) != ProfilePath(c, p)
  {
    forall i: nat, j: nat | i != j ensures BackupName(c, p, i) != BackupName(c, p, j) {
      SlotsApart(c, p, i, j);
    }
    forall i: nat ensures BackupName(c, p, i) != ProfilePath(c, p) {
      assert |BackupName(c, p, i)| > |ProfilePath(c, p)|;
    }
  }

  /** A profile name that is one file name: no separator of either kind. */
  predicate PlainName(name: string) {
    forall i :: 0 <= i < |name| ==> name[i] != Sep && name[i] != '/'
  }

  /** A plain name gives a plain element for its saved file. */
  lemma PlainProfileElement(name: string)
    requires PlainName(name)
    ensures PlainElement(name + ".dat")
  {
    var e := name + ".dat";
    assert e[|e| - 1] == 't';
    forall i | 0 <= i < |e| ensures e[i] != Sep && e[i] != '/' {
      if i < |name| {
        assert e[i] == name[i];
      }
    }
  }

  /** Only the reserved name derives the live file's own path, among plain names. */
  lemma LocalPathIsLocal(c: Config, name: string)
    requires PlainName(name)
    requires Join(c.LocalDir(), name + ".dat") == c.ActiveFile()
    ensures IsLocal(name)
  {
    PlainProfileElement(name);
    assert PlainElement("Local.dat");
    JoinCancel(c.LocalDir(), "Local.dat", name + ".dat");
    assert name == ("Local.dat")[..5];
    assert Lower(name) == "local";
  }

  /** A path outside slots 0 .. n-1 is none of them. */
  lemma NotInSlots(c: Config, p: Profile, q: FilePath, n: nat)
    requires q !in Slots(c, p, n)
    ensures forall k: nat :: k < n ==> BackupName(c, p, k) != q
  {
    forall k: nat | k < n ensures BackupName(c, p, k) != q {
      SlotIn(c, p, k, n);
    }
  }

  /** The live file, its undo marker and the profile file are no backup slot. */
  lemma OutsideSlots(c: Config, p: Profile, n: nat)
    requires WellLaidOut(c, p)
    ensures c.ActiveFile() !in Slots(c, p, n)
    ensures c.BakFile() !in Slots(c, p, n)
    ensures ProfilePath(c, p) !in Slots(c, p, n)
  {
  }

  /** For every profile the program builds with a plain name (derived
      location, one file name other than "local"), the files the swap touches
      are pairwise different. */
  lemma LayoutDistinct(c: Config, p: Profile)
    requires p.path == "" && !IsLocal(p.name) && PlainName(p.name)
    ensures WellLaidOut(c, p)
  {
    var a, b, f := c.ActiveFile(), c.BakFile(), ProfilePath(c, p);
    BackupNamesDistinct(c, p);
    assert a[|a| - 1] == 't' && b[|b| - 1] == 'k' && f[|f| - 1] == 't';
    if a == f {
      LocalPathIsLocal(c, p.name);
    }
    forall i: nat ensures BackupName(c, p, i) != a && BackupName(c, p, i) != b {
      var s := BackupName(c, p, i);
      assert s[|s| - 1] == Decimal(i)[|Decimal(i)| - 1];
    }
  }

  // ---------------------------------------------------------------------------
  // The operations, as functions of the disk

  /** Profile.Load. */
  function LoadSpec(c: Config, p: Profile, d: Disk, locked: set<FilePath>): Effect {
    var parked := if c.ActiveFile() in d then RenameSpec(d, locked, c.ActiveFile(), c.BakFile()) else Effect(Ok, d);
    if parked.outcome.Fail? then parked
    else if ProfilePath(c, p) in parked.disk then CopySpec(parked.disk, locked, ProfilePath(c, p), c.ActiveFile())
    else parked
  }

  /** Iterations i, i-1, ..., 1 of the rotation loop: each moves slot i-1, if
      present, into slot i. */
  function ShiftSpec(c: Config, p: Profile, d: Disk, locked: set<FilePath>, i: nat): Effect
    decreases i
  {
    if i == 0 then Effect(Ok, d)
    else if BackupName(c, p, i - 1) in d then
      var moved := RenameSpec(d, locked, BackupName(c, p, i - 1), BackupName(c, p, i));
      if moved.outcome.Fail? then moved else ShiftSpec(c, p, moved.disk, locked, i - 1)
    else ShiftSpec(c, p, d, locked, i - 1)
  }

  /** The first two steps of a rotation: drop the oldest slot, shift the others. */
  function ClearAndShift(c: Config, p: Profile, d: Disk, locked: set<FilePath>): Effect
    requires p.preserve >= 1
  {
    var cleared := RemoveSpec(d, locked, BackupName(c, p, p.preserve - 1));
    if cleared.outcome.Fail? then cleared
    else ShiftSpec(c, p, cleared.disk, locked, p.preserve - 1)
  }

  /** Profile.RollBackups as written: the profile file is moved into slot 0
      unconditionally, so the rotation fails when the profile file is absent. */
  function RollBackupsSpec(c: Config, p: Profile, d: Disk, locked: set<FilePath>): Effect {
    if p.preserve < 1 then Effect(Ok, d)
    else
      var shifted := ClearAndShift(c, p, d, locked);
      if shifted.outcome.Fail? then shifted
      else RenameSpec(shifted.disk, locked, ProfilePath(c, p), BackupName(c, p, 0))
  }

  /** The rotation as evidently intended: like the loop does for the slots,
      the profile file is moved into slot 0 only if it exists. */
  function RollBackupsIntendedSpec(c: Config, p: Profile, d: Disk, locked: set<FilePath>): Effect {
    if p.preserve < 1 then Effect(Ok, d)
    else
      var shifted := ClearAndShift(c, p, d, locked);
      if shifted.outcome.Fail? then shifted
      else if ProfilePath(c, p) in shifted.disk then RenameSpec(shifted.disk, locked, ProfilePath(c, p), BackupName(c, p, 0))
      else shifted
  }

  /** The steps of Unload after the rotation: save the live file into the
      profile, then bring the parked file back if there is one. */
  function FinishUnload(c: Config, p: Profile, rolled: Effect, locked: set<FilePath>): Effect {
    if rolled.outcome.Fail? then rolled
    else
      var saved := CopySpec(rolled.disk, locked, c.ActiveFile(), ProfilePath(c, p));
      if saved.outcome.Fail? then saved
      else if c.BakFile() in saved.disk then RenameSpec(saved.disk, locked, c.BakFile(), c.ActiveFile())
      else saved
  }

  /** Profile.Unload as written. */
  function UnloadSpec(c: Config, p: Profile, d: Disk, locked: set<FilePath>): Effect {
    FinishUnload(c, p, RollBackupsSpec(c, p, d, locked), locked)
  }

  /** Unload with the intended rotation. */
  function UnloadIntendedSpec(c: Config, p: Profile, d: Disk, locked: set<FilePath>): Effect {
    FinishUnload(c, p, RollBackupsIntendedSpec(c, p, d, locked), locked)
  }

  // ---------------------------------------------------------------------------
  // The operations, step by step on the file system

  method Load(c: Config, p: Profile, fs: FileSystem) returns (r: Outcome)
    modifies fs
    ensures Effect(r, fs.disk) == LoadSpec(c, p, old(fs.disk), fs.locked)
  {
    var active := fs.Stat(c.ActiveFile());
    if active {
      r := fs.Rename(c.ActiveFile(), c.BakFile());
      if r.Fail? {
        return;
      }
    }
    var saved := fs.Stat(ProfilePath(c, p));
    if saved {
      r := SimpleCopy(fs, ProfilePath(c, p), c.ActiveFile());
      return;
    }
    r := Ok;
  }

  method RollBackups(c: Config, p: Profile, fs: FileSystem) returns (r: Outcome)
    modifies fs
    ensures Effect(r, fs.disk) == RollBackupsSpec(c, p, old(fs.disk), fs.locked)
    ensures p.preserve < 1 ==> r == Ok && fs.disk == old(fs.disk)
  {
    if p.preserve < 1 {
      return Ok;
    }
    r := fs.RemoveAll(BackupName(c, p, p.preserve - 1));
    if r.Fail? {
      return;
    }
    ghost var cleared := fs.disk;
    var i := p.preserve - 1;
    while i > 0
      invariant 0 <= i <= p.preserve - 1
      invariant ShiftSpec(c, p, fs.disk, fs.locked, i) == ShiftSpec(c, p, cleared, fs.locked, p.preserve - 1)
      decreases i
    {
      var older, newer := BackupName(c, p, i - 1), BackupName(c, p, i);
      var present := fs.Stat(older);
      if present {
        r := fs.Rename(older, newer);
        if r.Fail? {
          return;
        }
      }
      i := i - 1;
    }
    r := fs.Rename(ProfilePath(c, p), BackupName(c, p, 0));
  }

  method Unload(c: Config, p: Profile, fs: FileSystem) returns (r: Outcome)
    modifies fs
    ensures Effect(r, fs.disk) == UnloadSpec(c, p, old(fs.disk), fs.locked)
  {
    r := RollBackups(c, p, fs);
    if r.Fail? {
      return;
    }
    r := SimpleCopy(fs, c.ActiveFile(), ProfilePath(c, p));
    if r.Fail? {
      return;
    }
    var marker := fs.Stat(c.BakFile());
    if marker {
      r := fs.Rename(c.BakFile(), c.ActiveFile());
    }
  }


  // ---------------------------------------------------------------------------
  // What the operations do

  /** Load parks the live file in the undo marker and copies the profile file
      over the live one; nothing else changes. */
  lemma LoadEffect(c: Config, p: Profile, d: Disk, locked: set<FilePath>)
    requires WellLaidOut(c, p) && Unlocked(c, p, locked)
    ensures var e := LoadSpec(c, p, d, locked);
      && e.outcome == Ok
      && (c.ActiveFile() in d ==> Carries(e.disk, c.BakFile(), d, c.ActiveFile()))
      && (c.ActiveFile() !in d ==> SameAt(e.disk, d, c.BakFile()))
      && Carries(e.disk, c.ActiveFile(), d, ProfilePath(c, p))
      && forall q :: q != c.ActiveFile() && q != c.BakFile() ==> SameAt(e.disk, d, q)
  {
  }

  /** Load's error paths: a refused live file or undo marker stops Load before
      anything changes; a refused profile file, or a refused live file when
      there is none to park, stops it at the copy; an absent profile file
      leaves no live file. */
  lemma LoadFailure(c: Config, p: Profile, d: Disk, locked: set<FilePath>)
    requires WellLaidOut(c, p)
    ensures var a, b, f, e := c.ActiveFile(), c.BakFile(), ProfilePath(c, p), LoadSpec(c, p, d, locked);
      && (a in d && a in locked ==> e == Effect(Fail(Denied(a)), d))
      && (a in d && a !in locked && b in locked ==> e == Effect(Fail(Denied(b)), d))
      && (a in d && a !in locked && b !in locked && f in d && f in locked ==>
            e == Effect(Fail(Denied(f)), (d - {a})[b := d[a]]))
      && (a !in d && f in d && f in locked ==> e == Effect(Fail(Denied(f)), d))
      && (a !in d && f in d && f !in locked && a in locked ==> e == Effect(Fail(Denied(a)), d))
      && (f !in d && (a !in d || (a !in locked && b !in locked)) ==> e.outcome == Ok && a !in e.disk)
  {
  }

  /** Iterations i .. 1 of the rotation loop leave every path other than slots
      0 .. i as it was. */
  lemma {:induction false} ShiftFrameAt(c: Config, p: Profile, d: Disk, locked: set<FilePath>, i: nat, q: FilePath)
    requires forall k: nat :: k <= i ==> BackupName(c, p, k) != q
    ensures SameAt(ShiftSpec(c, p, d, locked, i).disk, d, q)
    decreases i
  {
    if i > 0 {
      var older, newer := BackupName(c, p, i - 1), BackupName(c, p, i);
      assert older != q && newer != q;
      if older in d {
        var moved := RenameSpec(d, locked, older, newer);
        if moved.outcome.Ok? {
          ShiftFrameAt(c, p, moved.disk, locked, i - 1, q);
          assert SameAt(moved.disk, d, q);
        }
      } else {
        ShiftFrameAt(c, p, d, locked, i - 1, q);
      }
    }
  }

  /** With slot i empty, iterations i .. 1 move every slot k < i one place up
      and leave slot 0 empty. */
  lemma {:induction false} ShiftEffect(c: Config, p: Profile, d: Disk, locked: set<FilePath>, i: nat)
    requires SlotsUnlocked(c, p, locked)
    requires BackupName(c, p, i) !in d
    ensures var e := ShiftSpec(c, p, d, locked, i);
      && e.outcome == Ok
      && BackupName(c, p, 0) !in e.disk
      && forall k: nat :: k < i ==> Carries(e.disk, NextSlot(c, p, k), d, BackupName(c, p, k))
    decreases i
  {
    if i > 0 {
      var older, newer := BackupName(c, p, i - 1), BackupName(c, p, i);
      forall k: nat | k < i ensures BackupName(c, p, k) != newer {
        SlotsApart(c, p, k, i);
      }
      var e := ShiftSpec(c, p, d, locked, i);
      if older in d {
        var moved := RenameSpec(d, locked, older, newer);
        assert moved == Effect(Ok, (d - {older})[newer := d[older]]);
        ShiftEffect(c, p, moved.disk, locked, i - 1);
        ShiftFrameAt(c, p, moved.disk, locked, i - 1, newer);
        assert e == ShiftSpec(c, p, moved.disk, locked, i - 1);
        forall k: nat | k < i ensures Carries(e.disk, NextSlot(c, p, k), d, BackupName(c, p, k)) {
          if k < i - 1 {
            SlotsApart(c, p, k, i - 1);
            assert SameAt(moved.disk, d, BackupName(c, p, k));
          } else {
            assert SameAt(e.disk, moved.disk, newer);
          }
        }
      } else {
        ShiftEffect(c, p, d, locked, i - 1);
        ShiftFrameAt(c, p, d, locked, i - 1, newer);
        assert e == ShiftSpec(c, p, d, locked, i - 1);
      }
    }
  }

  /** Dropping the oldest slot and shifting leaves slot 0 empty, every slot
      k+1 < preserve holding old slot k, and every non-slot path as it was. */
  lemma ClearAndShiftEffect(c: Config, p: Profile, d: Disk, locked: set<FilePath>)
    requires SlotsUnlocked(c, p, locked) && p.preserve >= 1
    ensures var e := ClearAndShift(c, p, d, locked);
      && e.outcome == Ok
      && BackupName(c, p, 0) !in e.disk
      && (forall k: nat {:trigger NextSlot(c, p, k)} :: k + 1 < p.preserve ==> Carries(e.disk, NextSlot(c, p, k), d, BackupName(c, p, k)))
      && forall q :: q !in Slots(c, p, p.preserve) ==> SameAt(e.disk, d, q)
  {
    var n := p.preserve - 1;
    var cleared := RemoveSpec(d, locked, BackupName(c, p, n));
    assert BackupName(c, p, n) !in locked;
    assert cleared == Effect(Ok, d - {BackupName(c, p, n)});
    ShiftEffect(c, p, cleared.disk, locked, n);
    var e := ShiftSpec(c, p, cleared.disk, locked, n);
    assert ClearAndShift(c, p, d, locked) == e;
    forall k: nat | k + 1 < p.preserve ensures Carries(e.disk, NextSlot(c, p, k), d, BackupName(c, p, k)) {
      SlotsApart(c, p, k, n);
      assert SameAt(cleared.disk, d, BackupName(c, p, k));
    }
    forall q | q !in Slots(c, p, p.preserve) ensures SameAt(e.disk, d, q) {
      NotInSlots(c, p, q, p.preserve);
      ShiftFrameAt(c, p, cleared.disk, locked, n, q);
      assert SameAt(cleared.disk, d, q);
    }
  }

  /** With at least one slot and the profile file present, the rotation
      succeeds: slot 0 holds the profile file's content, slot k+1 holds what
      slot k held, the oldest slot's content is dropped, the profile file is
      gone, and no other path changes. */
  lemma RollBackupsShift(c: Config, p: Profile, d: Disk, locked: set<FilePath>)
    requires WellLaidOut(c, p) && Unlocked(c, p, locked)
    requires p.preserve >= 1 && ProfilePath(c, p) in d
    ensures var e := RollBackupsSpec(c, p, d, locked);
      && e.outcome == Ok
      && Carries(e.disk, BackupName(c, p, 0), d, ProfilePath(c, p))
      && (forall k: nat {:trigger NextSlot(c, p, k)} :: k + 1 < p.preserve ==> Carries(e.disk, NextSlot(c, p, k), d, BackupName(c, p, k)))
      && ProfilePath(c, p) !in e.disk
      && forall q :: q !in Slots(c, p, p.preserve) && q != ProfilePath(c, p) ==> SameAt(e.disk, d, q)
  {
    var f, zero := ProfilePath(c, p), BackupName(c, p, 0);
    ClearAndShiftEffect(c, p, d, locked);
    OutsideSlots(c, p, p.preserve);
    var shifted := ClearAndShift(c, p, d, locked);
    assert SameAt(shifted.disk, d, f);
    var e := RollBackupsSpec(c, p, d, locked);
    assert e == Effect(Ok, (shifted.disk - {f})[zero := shifted.disk[f]]);
    forall k: nat | k + 1 < p.preserve ensures Carries(e.disk, NextSlot(c, p, k), d, BackupName(c, p, k)) {
      SlotsApart(c, p, k + 1, 0);
      assert SameAt(e.disk, shifted.disk, NextSlot(c, p, k));
    }
    SlotIn(c, p, 0, p.preserve);
    forall q | q !in Slots(c, p, p.preserve) && q != f ensures SameAt(e.disk, d, q) {
      assert SameAt(e.disk, shifted.disk, q);
    }
  }

  /** The first-run case: with at least one slot and no profile file, the
      rotation shifts the slots and then fails at the final rename. */
  lemma RollBackupsFirstRunFails(c: Config, p: Profile, d: Disk, locked: set<FilePath>)
    requires WellLaidOut(c, p) && Unlocked(c, p, locked)
    requires p.preserve >= 1 && ProfilePath(c, p) !in d
    ensures var e := RollBackupsSpec(c, p, d, locked);
      && e.outcome == Fail(NotExist(ProfilePath(c, p)))
      && BackupName(c, p, 0) !in e.disk
      && (forall k: nat {:trigger NextSlot(c, p, k)} :: k + 1 < p.preserve ==> Carries(e.disk, NextSlot(c, p, k), d, BackupName(c, p, k)))
      && forall q :: q !in Slots(c, p, p.preserve) ==> SameAt(e.disk, d, q)
  {
    var f := ProfilePath(c, p);
    ClearAndShiftEffect(c, p, d, locked);
    OutsideSlots(c, p, p.preserve);
    var shifted := ClearAndShift(c, p, d, locked);
    assert SameAt(shifted.disk, d, f);
    assert RollBackupsSpec(c, p, d, locked) == Effect(Fail(NotExist(f)), shifted.disk);
  }

  /** A loop iteration fails only at a rename that a refused slot blocks. */
  lemma {:induction false} ShiftFailure(c: Config, p: Profile, d: Disk, locked: set<FilePath>, i: nat)
    ensures var e := ShiftSpec(c, p, d, locked, i);
      e.outcome.Fail? ==>
        exists k: nat :: k <= i && BackupName(c, p, k) in locked && e.outcome.error == Denied(BackupName(c, p, k))
    decreases i
  {
    if i > 0 {
      var older, newer := BackupName(c, p, i - 1), BackupName(c, p, i);
      if older in d {
        var moved := RenameSpec(d, locked, older, newer);
        if moved.outcome.Fail? {
          if older in locked {
            assert i - 1 <= i && older in locked && moved.outcome.error == Denied(older);
          } else {
            assert i <= i && newer in locked && moved.outcome.error == Denied(newer);
          }
        } else {
          ShiftFailure(c, p, moved.disk, locked, i - 1);
        }
      } else {
        ShiftFailure(c, p, d, locked, i - 1);
      }
    }
  }

  /** The rotation's error paths. It never touches the live file or the
      marker; when it fails, the profile file is untouched too; its error is
      a missing or refused profile file or a refused slot; a refused oldest
      slot stops it before anything changes; and with usable slots a refused
      profile file makes the final rename fail. */
  lemma RollBackupsFailure(c: Config, p: Profile, d: Disk, locked: set<FilePath>)
    requires WellLaidOut(c, p)
    ensures var a, b, f, e := c.ActiveFile(), c.BakFile(), ProfilePath(c, p), RollBackupsSpec(c, p, d, locked);
      && SameAt(e.disk, d, a) && SameAt(e.disk, d, b)
      && (e.outcome.Fail? ==> SameAt(e.disk, d, f))
      && (e.outcome.Fail? ==>
            || e.outcome.error == NotExist(f) || e.outcome.error == Denied(f)
            || exists k: nat :: BackupName(c, p, k) in locked && e.outcome.error == Denied(BackupName(c, p, k)))
      && (p.preserve >= 1 && BackupName(c, p, p.preserve - 1) in d && BackupName(c, p, p.preserve - 1) in locked ==>
            e == Effect(Fail(Denied(BackupName(c, p, p.preserve - 1))), d))
      && (p.preserve >= 1 && SlotsUnlocked(c, p, locked) && f in d && f in locked ==> e.outcome == Fail(Denied(f)))
  {
    var a, b, f := c.ActiveFile(), c.BakFile(), ProfilePath(c, p);
    if p.preserve >= 1 {
      var n := p.preserve - 1;
      var cleared := RemoveSpec(d, locked, BackupName(c, p, n));
      var shifted := ClearAndShift(c, p, d, locked);
      if cleared.outcome.Ok? {
        ShiftFrameAt(c, p, cleared.disk, locked, n, a);
        ShiftFrameAt(c, p, cleared.disk, locked, n, b);
        ShiftFrameAt(c, p, cleared.disk, locked, n, f);
        ShiftFailure(c, p, cleared.disk, locked, n);
        assert shifted == ShiftSpec(c, p, cleared.disk, locked, n);
      }
      assert SameAt(shifted.disk, d, a) && SameAt(shifted.disk, d, b) && SameAt(shifted.disk, d, f);
      if SlotsUnlocked(c, p, locked) {
        ClearAndShiftEffect(c, p, d, locked);
      }
    }
  }

  /** Unload's error paths. A failed rotation ends Unload with the rotation's
      error and disk, the live file, the marker and the profile file as they
      were. After a rotation that succeeds, a refused live file or profile
      file stops the save with nothing further changed. A refused marker
      stops the restore after the save: the profile file then holds the live
      content while the original stays parked in the marker. */
  lemma UnloadFailure(c: Config, p: Profile, d: Disk, locked: set<FilePath>)
    requires WellLaidOut(c, p)
    ensures var a, b, f := c.ActiveFile(), c.BakFile(), ProfilePath(c, p);
      var rolled, e := RollBackupsSpec(c, p, d, locked), UnloadSpec(c, p, d, locked);
      && (rolled.outcome.Fail? ==>
            e == rolled && SameAt(e.disk, d, a) && SameAt(e.disk, d, b) && SameAt(e.disk, d, f))
      && (rolled.outcome == Ok && a in d && a in locked ==> e == Effect(Fail(Denied(a)), rolled.disk))
      && (rolled.outcome == Ok && a in d && a !in locked && f in locked ==> e == Effect(Fail(Denied(f)), rolled.disk))
      && (rolled.outcome == Ok && a in d && a !in locked && f !in locked && b in d && b in locked ==>
            && e == Effect(Fail(Denied(b)), rolled.disk[f := d[a]])
            && SameAt(e.disk, d, b))
  {
    RollBackupsFailure(c, p, d, locked);
  }

  /** The steps after a successful rotation: the live file is saved into the
      profile file and the parked file, if any, is put back; without a live
      file the save fails. */
  lemma FinishUnloadEffect(c: Config, p: Profile, rolled: Effect, locked: set<FilePath>)
    requires WellLaidOut(c, p) && Unlocked(c, p, locked) && rolled.outcome == Ok
    ensures var r, e := rolled.disk, FinishUnload(c, p, rolled, locked);
      && (c.ActiveFile() !in r ==> e == Effect(Fail(NotExist(c.ActiveFile())), r))
      && (c.ActiveFile() in r ==>
        && e.outcome == Ok
        && Carries(e.disk, ProfilePath(c, p), r, c.ActiveFile())
        && (c.BakFile() in r ==> Carries(e.disk, c.ActiveFile(), r, c.BakFile()))
        && (c.BakFile() !in r ==> SameAt(e.disk, r, c.ActiveFile()))
        && c.BakFile() !in e.disk
        && forall q :: q != c.ActiveFile() && q != c.BakFile() && q != ProfilePath(c, p) ==> SameAt(e.disk, r, q))
  {
  }

  /** When the rotation succeeds, Unload saves the live file into the profile
      file and puts the parked file back (if there is none the live file stays);
      Unload fails when there is no live file to save. */
  lemma UnloadEffect(c: Config, p: Profile, d: Disk, locked: set<FilePath>)
    requires WellLaidOut(c, p) && Unlocked(c, p, locked)
    requires p.preserve < 1 || ProfilePath(c, p) in d
    ensures var rolled := RollBackupsSpec(c, p, d, locked).disk;
      var e := UnloadSpec(c, p, d, locked);
      && (c.ActiveFile() !in d ==> e == Effect(Fail(NotExist(c.ActiveFile())), rolled))
      && (c.ActiveFile() in d ==>
        && e.outcome == Ok
        && Carries(e.disk, ProfilePath(c, p), d, c.ActiveFile())
        && (c.BakFile() in d ==> Carries(e.disk, c.ActiveFile(), d, c.BakFile()))
        && (c.BakFile() !in d ==> SameAt(e.disk, d, c.ActiveFile()))
        && c.BakFile() !in e.disk
        && forall q :: q != c.ActiveFile() && q != c.BakFile() && q != ProfilePath(c, p) ==> SameAt(e.disk, rolled, q))
  {
    var rolled := RollBackupsSpec(c, p, d, locked);
    if p.preserve >= 1 {
      RollBackupsShift(c, p, d, locked);
      OutsideSlots(c, p, p.preserve);
    }
    assert rolled.outcome == Ok;
    assert SameAt(rolled.disk, d, c.ActiveFile()) && SameAt(rolled.disk, d, c.BakFile());
    FinishUnloadEffect(c, p, rolled, locked);
  }

  /** The first-run case of Unload: the rotation fails, so the live file is
      never saved into the profile and the parked file is never restored. */
  lemma UnloadFirstRunFails(c: Config, p: Profile, d: Disk, locked: set<FilePath>)
    requires WellLaidOut(c, p) && Unlocked(c, p, locked)
    requires p.preserve >= 1 && ProfilePath(c, p) !in d
    ensures var e := UnloadSpec(c, p, d, locked);
      && e.outcome == Fail(NotExist(ProfilePath(c, p)))
      && ProfilePath(c, p) !in e.disk
      && SameAt(e.disk, d, c.ActiveFile())
      && SameAt(e.disk, d, c.BakFile())
    ensures UnloadSpec(c, p, d, locked) == RollBackupsSpec(c, p, d, locked)
  {
    RollBackupsFirstRunFails(c, p, d, locked);
    OutsideSlots(c, p, p.preserve);
    var rolled := RollBackupsSpec(c, p, d, locked);
    assert UnloadSpec(c, p, d, locked) == rolled;
  }

  // ---------------------------------------------------------------------------
  // Load, a game session, Unload

  /** A session: Load, the game writes `played` into the live file, Unload.
      The profile file then holds what was played, the live file is back to
      what it was before Load (or keeps what was played if there was no live
      file), no undo marker is left, and slot 0 keeps the profile's previous
      content. */
  lemma SessionSavesProgress(c: Config, p: Profile, d: Disk, locked: set<FilePath>, played: Bytes)
    requires WellLaidOut(c, p) && Unlocked(c, p, locked)
    requires ProfilePath(c, p) in d
    requires c.ActiveFile() in d || c.BakFile() !in d
    ensures var loaded := LoadSpec(c, p, d, locked);
      var e := UnloadSpec(c, p, loaded.disk[c.ActiveFile() := played], locked);
      && loaded.outcome == Ok && e.outcome == Ok
      && ProfilePath(c, p) in e.disk && e.disk[ProfilePath(c, p)] == played
      && c.ActiveFile() in e.disk
      && e.disk[c.ActiveFile()] == (if c.ActiveFile() in d then d[c.ActiveFile()] else played)
      && c.BakFile() !in e.disk
      && (p.preserve >= 1 ==> Carries(e.disk, BackupName(c, p, 0), d, ProfilePath(c, p)))
  {
    var a, b, f := c.ActiveFile(), c.BakFile(), ProfilePath(c, p);
    LoadEffect(c, p, d, locked);
    var loaded := LoadSpec(c, p, d, locked);
    var d2 := loaded.disk[a := played];
    assert SameAt(loaded.disk, d, f);
    assert f in d2 && d2[f] == d[f];
    assert a in d ==> b in d2 && d2[b] == d[a];
    assert a !in d ==> b !in d2;
    UnloadEffect(c, p, d2, locked);
    var e := UnloadSpec(c, p, d2, locked);
    if p.preserve >= 1 {
      RollBackupsShift(c, p, d2, locked);
      var rolled := RollBackupsSpec(c, p, d2, locked).disk;
      var zero := BackupName(c, p, 0);
      assert SameAt(e.disk, rolled, zero);
      assert Carries(rolled, zero, d2, f);
    }
  }

  /** A session moves slot k to slot k+1 below `preserve` and leaves the
      slots from `preserve` on alone. */
  lemma SessionRotatesSlots(c: Config, p: Profile, d: Disk, locked: set<FilePath>, played: Bytes)
    requires WellLaidOut(c, p) && Unlocked(c, p, locked)
    requires ProfilePath(c, p) in d
    ensures var loaded := LoadSpec(c, p, d, locked);
      var e := UnloadSpec(c, p, loaded.disk[c.ActiveFile() := played], locked);
      && (forall k: nat {:trigger NextSlot(c, p, k)} :: k + 1 < p.preserve ==> Carries(e.disk, NextSlot(c, p, k), d, BackupName(c, p, k)))
      && forall j: nat :: j >= p.preserve ==> SameAt(e.disk, d, BackupName(c, p, j))
  {
    var a, f := c.ActiveFile(), ProfilePath(c, p);
    LoadEffect(c, p, d, locked);
    var loaded := LoadSpec(c, p, d, locked);
    var d2 := loaded.disk[a := played];
    assert SameAt(loaded.disk, d, f);
    assert forall j: nat :: SameAt(d2, d, BackupName(c, p, j));
    var e := UnloadSpec(c, p, d2, locked);
    if a in d2 {
      UnloadEffect(c, p, d2, locked);
    }
    var rolled := RollBackupsSpec(c, p, d2, locked).disk;
    if p.preserve >= 1 {
      RollBackupsShift(c, p, d2, locked);
      forall k: nat | k + 1 < p.preserve ensures Carries(e.disk, NextSlot(c, p, k), d, BackupName(c, p, k)) {
        assert SameAt(e.disk, rolled, NextSlot(c, p, k));
        assert SameAt(d2, d, BackupName(c, p, k));
      }
      forall j: nat | j >= p.preserve ensures SameAt(e.disk, d, BackupName(c, p, j)) {
        SlotNotInAbove(c, p, j, p.preserve);
        assert SameAt(e.disk, rolled, BackupName(c, p, j));
      }
    } else {
      assert rolled == d2;
      forall j: nat ensures SameAt(e.disk, d, BackupName(c, p, j)) {
        assert SameAt(e.disk, d2, BackupName(c, p, j));
      }
    }
  }

  /** The disk after one session; a failing Load ends the process before the
      game runs. */
  function AfterSession(c: Config, p: Profile, d: Disk, locked: set<FilePath>, played: Bytes): Disk {
    var loaded := LoadSpec(c, p, d, locked);
    if loaded.outcome.Fail? then loaded.disk
    else UnloadSpec(c, p, loaded.disk[c.ActiveFile() := played], locked).disk
  }

  /** What one session does to a disk `d` that has the profile file and is
      not in the middle of a swap: the played content becomes the profile
      file, the old profile file becomes slot 0, slot k moves to slot k+1
      below `preserve`, the slots from `preserve` on stay, and afterwards
      the live file is back and no undo marker is left. */
  ghost predicate SessionStep(c: Config, p: Profile, d: Disk, d1: Disk, played: Bytes) {
    var a, b, f := c.ActiveFile(), c.BakFile(), ProfilePath(c, p);
    f in d && (a in d || b !in d) ==>
      && f in d1 && d1[f] == played && a in d1 && b !in d1
      && Carries(d1, BackupName(c, p, 0), d, f)
      && (forall k: nat {:trigger NextSlot(c, p, k)} :: k + 1 < p.preserve ==> Carries(d1, NextSlot(c, p, k), d, BackupName(c, p, k)))
      && forall j: nat :: j >= p.preserve ==> SameAt(d1, d, BackupName(c, p, j))
  }

  /** Every session is such a step. */
  lemma AfterSessionStep(c: Config, p: Profile, d: Disk, locked: set<FilePath>, played: Bytes)
    requires WellLaidOut(c, p) && Unlocked(c, p, locked) && p.preserve >= 1
    ensures SessionStep(c, p, d, AfterSession(c, p, d, locked, played), played)
  {
    if ProfilePath(c, p) in d && (c.ActiveFile() in d || c.BakFile() !in d) {
      SessionSavesProgress(c, p, d, locked, played);
      SessionRotatesSlots(c, p, d, locked, played);
    }
  }

  /** Disk `dn` keeps history `h` of the profile file relative to the start
      disk `d0`, after n = |h| - 1 sessions: the profile file holds h[n], slot
      j (j < n) holds h[n-1-j], slot j from n on holds what slot j-n held in
      `d0`, and slots at or beyond `preserve` are as in `d0`. */
  ghost predicate History(c: Config, p: Profile, d0: Disk, dn: Disk, h: seq<Bytes>)
    requires |h| > 0
  {
    var f, n := ProfilePath(c, p), |h| - 1;
    && f in dn && dn[f] == h[n]
    && (c.ActiveFile() in dn || c.BakFile() !in dn)
    && (forall j: nat :: j < p.preserve && j < n ==> BackupName(c, p, j) in dn && dn[BackupName(c, p, j)] == h[n - 1 - j])
    && (forall k: nat {:trigger ShiftedSlot(c, p, k, n)} :: k + n < p.preserve ==> Carries(dn, ShiftedSlot(c, p, k, n), d0, BackupName(c, p, k)))
    && forall j: nat :: j >= p.preserve ==> SameAt(dn, d0, BackupName(c, p, j))
  }

  /** The slot `n` places above slot `k`, a name for `BackupName(c, p, k + n)`
      that serves only as a trigger term, as `NextSlot` does. */
  function ShiftedSlot(c: Config, p: Profile, k: nat, n: nat): FilePath {
    BackupName(c, p, k + n)
  }

  /** One more session extends the history by the content it played. */
  lemma HistoryStep(c: Config, p: Profile, d0: Disk, prev: Disk, fin: Disk, h: seq<Bytes>, played: Bytes)
    requires p.preserve >= 1 && |h| > 0
    requires History(c, p, d0, prev, h)
    requires SessionStep(c, p, prev, fin, played)
    ensures History(c, p, d0, fin, h + [played])
  {
    HistoryStepRecent(c, p, d0, prev, fin, h, played);
    HistoryStepShifted(c, p, d0, prev, fin, h, played);
    HistoryStepHigh(c, p, d0, prev, fin, h, played);
  }

  /** After the step, slot j below the new session count holds the content
      from j+1 sessions before the end. */
  lemma HistoryStepRecent(c: Config, p: Profile, d0: Disk, prev: Disk, fin: Disk, h: seq<Bytes>, played: Bytes)
    requires p.preserve >= 1 && |h| > 0
    requires History(c, p, d0, prev, h)
    requires SessionStep(c, p, prev, fin, played)
    ensures forall j: nat :: j < p.preserve && j < |h| ==> BackupName(c, p, j) in fin && fin[BackupName(c, p, j)] == (h + [played])[|h| - 1 - j]
  {
    var f, n := ProfilePath(c, p), |h|;
    forall j: nat | j < p.preserve && j < n ensures BackupName(c, p, j) in fin && fin[BackupName(c, p, j)] == (h + [played])[n - 1 - j] {
      assert (h + [played])[n - 1 - j] == h[n - 1 - j];
      if j == 0 {
        assert Carries(fin, BackupName(c, p, 0), prev, f);
      } else {
        assert Carries(fin, NextSlot(c, p, j - 1), prev, BackupName(c, p, j - 1));
      }
    }
  }

  /** After the step, the start disk's slots sit one place further up. */
  lemma HistoryStepShifted(c: Config, p: Profile, d0: Disk, prev: Disk, fin: Disk, h: seq<Bytes>, played: Bytes)
    requires p.preserve >= 1 && |h| > 0
    requires History(c, p, d0, prev, h)
    requires SessionStep(c, p, prev, fin, played)
    ensures forall k: nat {:trigger ShiftedSlot(c, p, k, |h|)} :: k + |h| < p.preserve ==> Carries(fin, ShiftedSlot(c, p, k, |h|), d0, BackupName(c, p, k))
  {
    var n := |h|;
    forall k: nat | k + n < p.preserve ensures Carries(fin, ShiftedSlot(c, p, k, n), d0, BackupName(c, p, k)) {
      assert Carries(fin, NextSlot(c, p, k + n - 1), prev, BackupName(c, p, k + n - 1));
      assert Carries(prev, ShiftedSlot(c, p, k, n - 1), d0, BackupName(c, p, k));
    }
  }

  /** The step leaves the slots at or beyond `preserve` as in the start disk. */
  lemma HistoryStepHigh(c: Config, p: Profile, d0: Disk, prev: Disk, fin: Disk, h: seq<Bytes>, played: Bytes)
    requires p.preserve >= 1 && |h| > 0
    requires History(c, p, d0, prev, h)
    requires SessionStep(c, p, prev, fin, played)
    ensures forall j: nat :: j >= p.preserve ==> SameAt(fin, d0, BackupName(c, p, j))
  {
    forall j: nat | j >= p.preserve ensures SameAt(fin, d0, BackupName(c, p, j)) {
      assert SameAt(fin, prev, BackupName(c, p, j));
    }
  }

  /** A run of steps from ds[0], the i-th writing plays[i] and leaving
      ds[i+1], keeps after m steps the history [ds[0][F]] + plays[..m]. */
  lemma {:induction false} StepsKeepHistory(c: Config, p: Profile, ds: seq<Disk>, plays: seq<Bytes>, m: nat)
    requires p.preserve >= 1 && |ds| == |plays| + 1 && m <= |plays|
    requires forall i :: 0 <= i < |plays| ==> SessionStep(c, p, ds[i], ds[i + 1], plays[i])
    requires ProfilePath(c, p) in ds[0] && (c.ActiveFile() in ds[0] || c.BakFile() !in ds[0])
    ensures History(c, p, ds[0], ds[m], [ds[0][ProfilePath(c, p)]] + plays[..m])
    decreases m
  {
    var h := [ds[0][ProfilePath(c, p)]] + plays[..m];
    if m > 0 {
      StepsKeepHistory(c, p, ds, plays, m - 1);
      assert SessionStep(c, p, ds[m - 1], ds[m], plays[m - 1]);
      var h' := [ds[0][ProfilePath(c, p)]] + plays[..m - 1];
      HistoryStep(c, p, ds[0], ds[m - 1], ds[m], h', plays[m - 1]);
      assert h == h' + [plays[m - 1]];
    } else {
      assert h == [ds[0][ProfilePath(c, p)]];
    }
  }

  /** Repeated sessions, each starting on the disk the previous one left,
      keep the history of the profile file in the backup slots, newest in
      slot 0: after n sessions the profile file holds the last content
      played, slot j (j < n) the content it held j+1 sessions before the end,
      slot j from n on what slot j-n held at the start, and the slots at or
      beyond `preserve` are never touched. */
  lemma SessionsKeepHistory(c: Config, p: Profile, locked: set<FilePath>, ds: seq<Disk>, plays: seq<Bytes>)
    requires WellLaidOut(c, p) && Unlocked(c, p, locked) && p.preserve >= 1
    requires |ds| == |plays| + 1
    requires forall i {:trigger AfterSession(c, p, ds[i], locked, plays[i])} :: 0 <= i < |plays| ==> ds[i + 1] == AfterSession(c, p, ds[i], locked, plays[i])
    requires ProfilePath(c, p) in ds[0] && (c.ActiveFile() in ds[0] || c.BakFile() !in ds[0])
    ensures History(c, p, ds[0], ds[|plays|], [ds[0][ProfilePath(c, p)]] + plays)
  {
    forall i | 0 <= i < |plays| ensures SessionStep(c, p, ds[i], ds[i + 1], plays[i]) {
      AfterSessionStep(c, p, ds[i], locked, plays[i]);
    }
    StepsKeepHistory(c, p, ds, plays, |plays|);
    assert plays[..|plays|] == plays;
  }

  /** A history at least `preserve` sessions long, from a disk without slots
      at or beyond `preserve`, leaves exactly slots 0 .. preserve-1, and slot
      0 holds the history's second-to-last entry. */
  lemma HistoryFillsSlots(c: Config, p: Profile, d0: Disk, dn: Disk, h: seq<Bytes>)
    requires |h| > 0 && History(c, p, d0, dn, h)
    requires forall j: nat :: j >= p.preserve ==> BackupName(c, p, j) !in d0
    requires |h| - 1 >= p.preserve >= 1
    ensures forall j: nat :: BackupName(c, p, j) in dn <==> j < p.preserve
    ensures dn[BackupName(c, p, 0)] == h[|h| - 2]
  {
    forall j: nat ensures BackupName(c, p, j) in dn <==> j < p.preserve {
      if j >= p.preserve {
        assert SameAt(dn, d0, BackupName(c, p, j));
      }
    }
  }

  /** Once at least `preserve` sessions have run, exactly the slots
      0 .. preserve-1 exist (when none beyond existed at the start), and slot
      0 holds the profile content the last session superseded. */
  lemma SessionsFillSlots(c: Config, p: Profile, locked: set<FilePath>, ds: seq<Disk>, plays: seq<Bytes>)
    requires WellLaidOut(c, p) && Unlocked(c, p, locked) && p.preserve >= 1
    requires |ds| == |plays| + 1
    requires forall i {:trigger AfterSession(c, p, ds[i], locked, plays[i])} :: 0 <= i < |plays| ==> ds[i + 1] == AfterSession(c, p, ds[i], locked, plays[i])
    requires ProfilePath(c, p) in ds[0] && (c.ActiveFile() in ds[0] || c.BakFile() !in ds[0])
    requires forall j: nat :: j >= p.preserve ==> BackupName(c, p, j) !in ds[0]
    requires |plays| >= p.preserve
    ensures var fin := ds[|plays|];
      && (forall j: nat :: BackupName(c, p, j) in fin <==> j < p.preserve)
      && fin[BackupName(c, p, 0)] == ([ds[0][ProfilePath(c, p)]] + plays)[|plays| - 1]
  {
    var h := [ds[0][ProfilePath(c, p)]] + plays;
    SessionsKeepHistory(c, p, locked, ds, plays);
    HistoryFillsSlots(c, p, ds[0], ds[|plays|], h);
    assert h[|h| - 2] == h[|plays| - 1];
  }

  /** Load then Unload with the live file untouched in between restores the
      live file and the profile file and leaves no undo marker. */
  lemma LoadUnloadRoundTrip(c: Config, p: Profile, d: Disk, locked: set<FilePath>)
    requires WellLaidOut(c, p) && Unlocked(c, p, locked)
    requires c.ActiveFile() in d && ProfilePath(c, p) in d
    ensures var loaded := LoadSpec(c, p, d, locked);
      var e := UnloadSpec(c, p, loaded.disk, locked);
      && loaded.outcome == Ok && e.outcome == Ok
      && SameAt(e.disk, d, c.ActiveFile())
      && SameAt(e.disk, d, ProfilePath(c, p))
      && c.BakFile() !in e.disk
      && (p.preserve >= 1 ==> Carries(e.disk, BackupName(c, p, 0), d, ProfilePath(c, p)))
  {
    LoadEffect(c, p, d, locked);
    var loaded := LoadSpec(c, p, d, locked);
    var played := loaded.disk[c.ActiveFile()];
    assert played == d[ProfilePath(c, p)];
    assert loaded.disk[c.ActiveFile() := played] == loaded.disk;
    SessionSavesProgress(c, p, d, locked, played);
  }

  // ---------------------------------------------------------------------------
  // The first-run defect and its correction

  /** A session on a profile that has never been saved, as written: Unload
      fails, the profile file is still missing and the original live file
      stays parked; the next Load then parks what was played over it. */
  lemma FirstRunLosesProgress(c: Config, p: Profile, d: Disk, locked: set<FilePath>, played: Bytes)
    requires WellLaidOut(c, p) && Unlocked(c, p, locked)
    requires p.preserve >= 1 && c.ActiveFile() in d && ProfilePath(c, p) !in d
    ensures var loaded := LoadSpec(c, p, d, locked);
      var e := UnloadSpec(c, p, loaded.disk[c.ActiveFile() := played], locked);
      var next := LoadSpec(c, p, e.disk, locked);
      && loaded.outcome == Ok
      && e.outcome == Fail(NotExist(ProfilePath(c, p)))
      && ProfilePath(c, p) !in e.disk
      && c.BakFile() in e.disk && e.disk[c.BakFile()] == d[c.ActiveFile()]
      && next.outcome == Ok
      && c.BakFile() in next.disk && next.disk[c.BakFile()] == played
      && c.ActiveFile() !in next.disk
  {
    var a, b, f := c.ActiveFile(), c.BakFile(), ProfilePath(c, p);
    LoadEffect(c, p, d, locked);
    var loaded := LoadSpec(c, p, d, locked);
    var d2 := loaded.disk[a := played];
    assert SameAt(loaded.disk, d, f);
    assert f !in d2 && b in d2 && d2[b] == d[a];
    UnloadFirstRunFails(c, p, d2, locked);
    var e := UnloadSpec(c, p, d2, locked);
    LoadEffect(c, p, e.disk, locked);
  }


  /** With no backup slots (`preserve` < 1) nothing is rotated, so the first
      session of a profile that has never been saved succeeds: the profile
      file is created with what was played and the original live file is back. */
  lemma FirstRunWithoutSlotsSucceeds(c: Config, p: Profile, d: Disk, locked: set<FilePath>, played: Bytes)
    requires WellLaidOut(c, p) && Unlocked(c, p, locked)
    requires p.preserve < 1 && c.ActiveFile() in d && ProfilePath(c, p) !in d
    ensures var loaded := LoadSpec(c, p, d, locked);
      var e := UnloadSpec(c, p, loaded.disk[c.ActiveFile() := played], locked);
      && loaded.outcome == Ok && e.outcome == Ok
      && ProfilePath(c, p) in e.disk && e.disk[ProfilePath(c, p)] == played
      && c.ActiveFile() in e.disk && e.disk[c.ActiveFile()] == d[c.ActiveFile()]
      && c.BakFile() !in e.disk
  {
    var a, b := c.ActiveFile(), c.BakFile();
    LoadEffect(c, p, d, locked);
    var d2 := LoadSpec(c, p, d, locked).disk[a := played];
    assert a in d2 && b in d2 && d2[b] == d[a];
    UnloadEffect(c, p, d2, locked);
  }
  /** With the intended rotation, the same first session saves what was
      played into the new profile file and restores the original live file. */
  lemma IntendedFirstRunSavesProgress(c: Config, p: Profile, d: Disk, locked: set<FilePath>, played: Bytes)
    requires WellLaidOut(c, p) && Unlocked(c, p, locked)
    requires p.preserve >= 1 && c.ActiveFile() in d && ProfilePath(c, p) !in d
    ensures var loaded := LoadSpec(c, p, d, locked);
      var e := UnloadIntendedSpec(c, p, loaded.disk[c.ActiveFile() := played], locked);
      && loaded.outcome == Ok && e.outcome == Ok
      && ProfilePath(c, p) in e.disk && e.disk[ProfilePath(c, p)] == played
      && c.ActiveFile() in e.disk && e.disk[c.ActiveFile()] == d[c.ActiveFile()]
      && c.BakFile() !in e.disk
      && BackupName(c, p, 0) !in e.disk
  {
    var a, b, f := c.ActiveFile(), c.BakFile(), ProfilePath(c, p);
    LoadEffect(c, p, d, locked);
    var loaded := LoadSpec(c, p, d, locked);
    var d2 := loaded.disk[a := played];
    assert SameAt(loaded.disk, d, f);
    assert f !in d2 && b in d2 && d2[b] == d[a];
    ClearAndShiftEffect(c, p, d2, locked);
    OutsideSlots(c, p, p.preserve);
    var shifted := ClearAndShift(c, p, d2, locked);
    assert SameAt(shifted.disk, d2, f);
    assert SameAt(shifted.disk, d2, a);
    assert SameAt(shifted.disk, d2, b);
    assert RollBackupsIntendedSpec(c, p, d2, locked) == shifted;
    FinishUnloadEffect(c, p, shifted, locked);
  }

  /** The correction changes nothing when the profile file exists. */
  lemma IntendedAgreesWhenSaved(c: Config, p: Profile, d: Disk, locked: set<FilePath>)
    requires WellLaidOut(c, p)
    requires ProfilePath(c, p) in d
    ensures RollBackupsIntendedSpec(c, p, d, locked) == RollBackupsSpec(c, p, d, locked)
    ensures UnloadIntendedSpec(c, p, d, locked) == UnloadSpec(c, p, d, locked)
  {
    if p.preserve >= 1 {
      var f, n := ProfilePath(c, p), p.preserve - 1;
      var cleared := RemoveSpec(d, locked, BackupName(c, p, n));
      assert f in cleared.disk;
      if cleared.outcome.Ok? {
        ShiftFrameAt(c, p, cleared.disk, locked, n, f);
      }
      assert f in ClearAndShift(c, p, d, locked).disk;
    }
  }
}
