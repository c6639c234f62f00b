# gw2util profile swapper, modelled in Dafny

gw2util launches the Guild Wars 2 client after swapping a named save profile
in for the live `Local.dat`. When the game exits it rotates the profile's
numbered backups, saves the live file back into the profile and puts the
original live file back. This project models that swap over an abstract file
system. It also models the option list forwarded to the game, the "local"
sentinel that skips the swap, the order in which `main` runs the swap and the
game, and the choice of launcher.

Layout:

- `files.dfy` (module `Files`): the disk, a map from path to content.
  - `FileSystem` is a class with a mutable `disk` and a fixed set of `locked` paths, which stand for permission denials. Opening, creating or renaming a locked path fails. Removing a locked path fails only if it exists; removing an absent path always succeeds, as with `os.RemoveAll`. This keeps every `err != nil` branch of the swap reachable, except a failing `io.Copy`, which the model does not have (see Left out).
  - `Rename`, `RemoveAll` and `SimpleCopy` state their effect through a function on the old disk (`RenameSpec`, `RemoveSpec`, `CopySpec`). `Stat`, `Open`, `Create` and `CopyContent` state theirs directly in their contracts.
  - `SimpleCopy` chains `Open`, `Create` and the content copy.
- `paths.dfy` (module `Paths`):
  - `Join`, as `filepath.Join` of two elements.
  - The decimal numeral `%d` prints, and its injectivity.
  - `Config`, the three environment variables the program reads. From it come the user-data directory, the live file, its `.bak` undo marker and the four launcher candidates.
- `profiles.dfy` (module `Profiles`): the profile and its derived paths.
  - `Load`, `RollBackups` and `Unload` are module-level methods that take the `FileSystem` and modify it, each proved equal to a specification function of the disk (`LoadSpec`, `RollBackupsSpec`, `UnloadSpec`). `RollBackups` keeps the source's descending loop, with the loop invariant tying the partial rotation to `ShiftSpec`.
  - Lemmas about those functions: each operation's effect, the round trip, repeated sessions, and the first-run defect with its correction.
- `launcher.dfy` (module `Launcher`):
  - the forwarded option list;
  - the actions `main` performs;
  - `Profile.Run` as "the first existing launcher wins".

Most lemmas take two hypotheses:

- `WellLaidOut`: the live file, the undo marker, the profile file and every backup slot are pairwise different paths. `LayoutDistinct` proves this for every profile the program builds from a plain name: a derived path and a single file name, without separators, other than "local".
- `Unlocked`: none of those paths is refused.

The error paths get their own lemmas: `LoadFailure` for Load; `ShiftFailure` and `RollBackupsFailure` for a refused slot removal, a refused slot rename and a missing or refused profile file in the rotation; `UnloadFailure` for a failed rotation, a refused save and a refused marker restore; `UnloadEffect` for a missing live file; and `RollBackupsFirstRunFails` with `UnloadFirstRunFails` for a profile that has never been saved.

Backup slots are `<profile path>-backup.<i>` (main.go:184-186). The undo marker is `Local.dat.bak`, next to the live file (main.go:133). A first session of a fresh profile fails when the profile keeps at least one backup slot (`-n` of 1 or more, the default being 2; see Findings). With `-n 0` it succeeds (`FirstRunWithoutSlotsSucceeds`).

## Model

| member | source | states |
|---|---|---|
| Files.FileSystem.Stat | main.go:131 | a path counts as present exactly when it is on the disk; any stat error other than "not found" counts as present |
| Files.FileSystem.Rename | main.go:133 | fails when the source is missing or either path is refused; otherwise the destination takes the source's content, the source disappears, and no other path changes |
| Files.FileSystem.RemoveAll | main.go:169 | removing an absent path succeeds; a present refused path fails; otherwise the path is gone and nothing else changes |
| Files.FileSystem.Open | main.go:189-192 | opening fails on a missing or refused source and changes nothing |
| Files.FileSystem.Create | main.go:195-198 | creating a refused path fails; otherwise the path exists and is empty (truncated) |
| Files.FileSystem.CopyContent | main.go:201-202 | the destination receives the source's content |
| Files.SimpleCopy | main.go:188-203 | fails (disk unchanged) on a missing or refused source or refused destination; otherwise the destination holds the source's content (empty if both are the same path, since Create truncates first) and no other path changes |
| Paths.Join | main.go:127 | the joined path ends with the element |
| Paths.JoinCancel | main.go:127 | joining onto one directory keeps different plain elements (non-empty, not `.` or `..`, no separator) different |
| Paths.Config.LocalDir | main.go:36 | the user-data directory: `Guild Wars 2` joined onto APPDATA, so the path ends with `Guild Wars 2` |
| Paths.Config.ActiveFile | main.go:37 | the live save file: `Local.dat` in the user-data directory, so the path ends with `Local.dat` |
| Paths.Config.BakFile | main.go:133 | the undo marker: the live file's path with `.bak` appended, so it ends with `Local.dat.bak` |
| Paths.Config.Launchers | main.go:108-113 | exactly four candidates, ending in `Gw2-64.exe`, `Gw2.exe`, `Gw2-64.exe` and `Gw2.exe` in that order |
| Paths.Decimal | main.go:185 | the numeral is non-empty, ends in a digit, and is one character long exactly for numbers below ten |
| Paths.DecimalInjective | main.go:184-186 | different slot numbers give different numerals |
| Profiles.Lower | main.go:69 | lower-casing keeps the length and lower-cases each character |
| Profiles.IsLocal | main.go:69 | a predicate without a contract: the name, lower-cased, equals `local`; `IsLocalSpelling` characterizes it |
| Profiles.IsLocalSpelling | main.go:69 | a name is the sentinel exactly when it is the five letters of "local", each in either case |
| Profiles.ProfilePath | main.go:123-128 | the override path when one is set; otherwise `<name>.dat` in the user-data directory, so the derived path ends with `<name>.dat` |
| Profiles.BackupNameShape | main.go:184-186 | slot i (`BackupName`: the profile path, `-backup.` and the numeral of i) extends the profile path and ends in a digit |
| Profiles.SlotsApart | main.go:184-186 | two different slot indices name two different files |
| Profiles.BackupNamesDistinct | main.go:184-186 | backup slots differ from one another and from the profile file, for any profile location |
| Profiles.LocalPathIsLocal | main.go:123-128 | among names without separators, only the sentinel name derives the live file's own path |
| Profiles.LayoutDistinct | main.go:123-128 | for a derived path and a name without separators other than "local", the live file, the marker, the profile file and all slots are pairwise different |
| Profiles.Load | main.go:130-144 | the step-by-step Load leaves exactly the outcome and disk of `LoadSpec` |
| Profiles.RollBackups | main.go:163-182 | the step-by-step rotation, descending loop included, leaves exactly the outcome and disk of `RollBackupsSpec`; with fewer than one slot it succeeds and changes nothing |
| Profiles.Unload | main.go:146-161 | the step-by-step Unload leaves exactly the outcome and disk of `UnloadSpec` |
| Profiles.LoadEffect | main.go:130-144 | Load succeeds. The marker takes the live file's old content if there was one. The live file then holds the profile's content, or is absent without a profile file. Every other path, the profile file and the slots included, is unchanged |
| Profiles.LoadFailure | main.go:131-143 | a refused live file or marker stops Load with the disk unchanged; a refused profile file stops it after parking; a refused live path with nothing to park stops it at the copy; without a profile file Load succeeds and leaves no live file |
| Profiles.ShiftFrameAt | main.go:172-180 | the loop iterations i .. 1 leave every path outside slots 0 .. i unchanged |
| Profiles.ShiftEffect | main.go:172-180 | with slot i empty, the loop moves each slot k < i to slot k+1 (absent stays absent) and empties slot 0 |
| Profiles.ClearAndShiftEffect | main.go:169-180 | dropping the oldest slot and shifting succeeds, leaves slot 0 empty, moves slot k to k+1 below `Preserve`, and changes no path outside the slots |
| Profiles.RollBackupsShift | main.go:169-181 | with `Preserve >= 1` and the profile file present, the rotation succeeds. Slot 0 holds the old profile content and slot k+1 holds old slot k. The oldest slot's content is dropped and the profile path is absent. Nothing else changes |
| Profiles.RollBackupsFirstRunFails | main.go:181 | with `Preserve >= 1` and no profile file, the rotation shifts the slots and then fails at the final rename with "not exist" for the profile file; non-slot paths are unchanged |
| Profiles.FinishUnloadEffect | main.go:151-160 | after a successful rotation: without a live file the save fails and nothing changes; otherwise the profile file takes the live content, the marker (if any) goes back over the live file, and no marker remains |
| Profiles.UnloadEffect | main.go:146-161 | when the rotation succeeds, the profile file takes the live file's content. The marker's content, if there was a marker, returns to the live file; otherwise the live file keeps its content. No marker remains. Without a live file Unload fails at the copy |
| Profiles.UnloadFirstRunFails | main.go:147-149 | with the rotation failing on a fresh profile, Unload returns that error and leaves exactly the rotation's disk, with the slots already shifted: the profile is not saved and the live file and the marker are untouched |
| Profiles.ShiftFailure | main.go:172-180 | a pass of the shifting loop fails only with "access denied" for a refused slot at or below its starting index |
| Profiles.RollBackupsFailure | main.go:163-182 | the rotation never touches the live file or the marker; on failure the profile file is untouched and the error is a missing or refused profile file or a refused slot; a refused oldest slot stops it with the disk unchanged; with usable slots a refused profile file fails the final rename |
| Profiles.UnloadFailure | main.go:146-161 | a failed rotation ends Unload with the rotation's result, live file, marker and profile file unchanged; after the rotation a refused live file or profile file stops the save with the rotated disk; a refused marker stops the restore after the save, leaving the marker in place |
| Profiles.SessionSavesProgress | main.go:130-182 | Load, then the game writes some content, then Unload. Both steps succeed. The profile file holds what was played and the live file is back to its pre-Load content (or holds what was played if there was none). No marker is left, and slot 0 keeps the previous profile content |
| Profiles.SessionRotatesSlots | main.go:163-182 | the same session moves slot k to slot k+1 below `Preserve` and leaves every slot from `Preserve` on untouched |
| Profiles.AfterSession | main.go:69-80 | a function without a contract: the disk after one run with a loaded profile, i.e. Load's disk if Load fails (the process exits), otherwise Unload's disk after the game has written the played content into the live file |
| Profiles.AfterSessionStep | main.go:69-80 | one run of the program with a loaded profile (Load, game, deferred Unload) is a `SessionStep` |
| Profiles.HistoryStep | main.go:163-182 | one more session extends the kept history by the content it played |
| Profiles.StepsKeepHistory | main.go:163-182 | any run of such sessions keeps the history of the profile file in the slots |
| Profiles.SessionsKeepHistory | main.go:163-182 | after n sessions: the profile file holds the last content played; slot j < n holds the profile's content from j+1 sessions before the end; slot j >= n holds what slot j-n held at the start; slots from `Preserve` on are never touched |
| Profiles.HistoryFillsSlots | main.go:163-182 | a history of at least `Preserve` sessions, from a disk without slots from `Preserve` on, leaves exactly slots 0 .. `Preserve`-1, slot 0 holding the history's second-to-last entry |
| Profiles.SessionsFillSlots | main.go:163-182 | after at least `Preserve` sessions, with no slot from `Preserve` on at the start, exactly slots 0 .. `Preserve`-1 exist and slot 0 holds the content the last session replaced |
| Profiles.LoadUnloadRoundTrip | main.go:130-182 | Load then Unload, with the live file untouched in between, restores the live file and the profile file and leaves no marker; with `Preserve >= 1` slot 0 holds the old profile content |
| Profiles.FirstRunLosesProgress | main.go:130-182 | a first session of a fresh profile, as written: Unload fails, the profile file stays missing and the original live file stays parked; the next Load then parks the played content over it |
| Profiles.IntendedFirstRunSavesProgress | main.go:181 | with the guarded rotation, the same first session saves what was played into the new profile file, restores the original live file, leaves no marker and no slot 0 |
| Profiles.FirstRunWithoutSlotsSucceeds | main.go:130-166 | with `Preserve < 1` the first session of a fresh profile succeeds: the profile file holds what was played, the original live file is back and no marker is left |
| Profiles.IntendedAgreesWhenSaved | main.go:181 | whenever the profile file exists, the guarded rotation and Unload coincide with the code as written |
| Launcher.LaunchFlags | main.go:51-59 | each launch flag is present exactly when its boolean is set, nothing else appears, and they come in the order autologin, map load info, image |
| Launcher.BuildOptions | main.go:50-66 | when email and password are both non-empty, exactly the email, password and no-patch-UI flags come first; otherwise nothing is prepended; then the positional arguments, then the launch flags |
| Launcher.MainActions | main.go:69-80 | Load runs exactly for a non-sentinel name. The game runs unless Load failed. Unload runs exactly when Load and the game run both succeeded (a game that exits with a non-zero status counts as failed). The actions come in the order Load, game, Unload |
| Launcher.FirstExisting | main.go:108-119 | the result is the first index whose candidate exists, or none exactly when no candidate exists |
| Launcher.Run | main.go:107-121 | gives "launcher not found" exactly when no candidate exists; otherwise starts the first existing candidate with the profile's options |

## Left out

- Process execution (`exec.Command(...).Run()`): the child process is outside the model. `Run` returns what would be started, and `MainActions` takes "the launch failed" as a parameter.
- `os.Getenv`: the three variables are the fields of `Config`.
- `os.Stat` calls: existence is membership in the disk map.
- Logging, `exitPrompt` (the stdin read and `os.Exit`) and `time.Sleep`: console and timing plumbing with no effect on files.
- The `flag` package: `BuildOptions` takes the already-parsed values.
- The byte streaming of `io.Copy` and the closing of file handles: a copy is an assignment of content. Read and write errors in mid-copy are not modelled.
- I/O errors other than a missing path and a refused path: disk full, a directory where a file is expected, and the like.
- The `defer` semantics in `main`:
  - the deferred Unload's error is ignored;
  - `os.Exit` inside `exitPrompt` skips the deferred Unload whenever the game run fails. That includes a game that exits with a non-zero status, because `exec.Cmd.Run` reports that as an error. The profile then stays swapped in.
  
  Both are captured only as the action sequence of `MainActions`, not by running one program after another.
- Profiles.Lower: ASCII lower-casing only; the Unicode case folding of `strings.ToLower` is not modelled.
- Paths.Join: `filepath.Join` also cleans the result (removes `.`, `..` and doubled separators); the model only concatenates with one separator.
- Paths.JoinCancel: holds only for plain elements. With cleaning, elements such as `x\..\y` and `y` join to the same path.
- Profiles.LocalPathIsLocal: covers only names without separators. For a name such as `.\Local` or `x\..\Local`, the cleaning join of main.go:127 yields `Local.dat` although the check at main.go:69 lets the name through; such names are not modelled.
- Profiles.LayoutDistinct: covers only names without separators, for the same reason. For the names above, the profile file is the live file, and the swap's behaviour for them is not modelled.
- Paths are compared as exact strings. The case-insensitive file names of Windows are not modelled beyond the sentinel check.
- `startGw2` (main.go:83-97): an unused duplicate of `Profile.Run`.
- Go's 64-bit `int` for `Preserve`: the source never overflows, since `Preserve - 1` and `i - 1` are computed only when `Preserve >= 1` and `i > 0`. So the model agrees with the program on every 64-bit value; it also accepts values above 2^63-1, which the program cannot hold.
- `Profile.path` is never set by the program. The model keeps it, and the distinctness lemma covers only the derived path.
- The imperative `Load`, `RollBackups` and `Unload` follow the code as written. The corrected rotation exists only as the function `RollBackupsIntendedSpec` with `UnloadIntendedSpec`. The session lemmas `SessionSavesProgress`, `SessionRotatesSlots`, `AfterSessionStep`, `SessionsKeepHistory`, `SessionsFillSlots` and `LoadUnloadRoundTrip` assume the profile file exists, and there the two rotations coincide (`IntendedAgreesWhenSaved`).

## Findings

| source | as written | input that shows it | evidently intended | confidence | as-written member | corrected member |
|---|---|---|---|---|---|---|
| main.go:181 | `RollBackups` renames the profile file into slot 0 unconditionally. When the profile has never been saved (Load took the "creating profile" path at main.go:142), that rename fails. `Unload` then returns before saving the live file into the profile and before restoring `Local.dat.bak`. The next Load renames the played file over `Local.dat.bak` and loses the original live file | name `alt` (no `alt.dat` yet), `-n 2` (the default), `Local.dat` present: run the game once, then again | move the profile file into slot 0 only if it exists, as the loop already does for each slot | medium; not executed | Profiles.FirstRunLosesProgress | Profiles.IntendedFirstRunSavesProgress |
