/** The program's entry point around the profile swap: the option list handed
    to the game, the decision whether to swap profiles at all, the order in
    which main runs Load, the game and Unload, and the choice of launcher. */
module Launcher {
  import opened Files
  import opened Paths
  import opened Profiles

  // ---------------------------------------------------------------------------
  // Forwarded options

  /** Where a launch flag sits in the fixed order autologin, map load info, image. */
  function FlagRank(f: string): nat {
    if f == "-autologin" then 0 else if f == "-maploadinfo" then 1 else 2
  }

  /** The launch flags for the booleans that are set, in the fixed order. */
  function LaunchFlags(autologin: bool, loadinfo: bool, image: bool): (flags: seq<string>)
    ensures "-autologin" in flags <==> autologin
    ensures "-maploadinfo" in flags <==> loadinfo
    ensures "-image" in flags <==> image
    ensures forall i :: 0 <= i < |flags| ==> flags[i] in {"-autologin", "-maploadinfo", "-image"}
    ensures forall i, j :: 0 <= i < j < |flags| ==> FlagRank(flags[i]) < FlagRank(flags[j])
  {
    var a := if autologin then ["-autologin"] else [];
    var b := if loadinfo then ["-maploadinfo"] else [];
    var c := if image then ["-image"] else [];
    assert forall i :: 0 <= i < |a| ==> FlagRank(a[i]) == 0;
    assert forall i :: 0 <= i < |b| ==> FlagRank(b[i]) == 1;
    assert forall i :: 0 <= i < |c| ==> FlagRank(c[i]) == 2;
    a + b + c
  }

  /** The options main forwards to the game, built from already-parsed flags:
      the positional arguments, then the launch flags, and, when both an email
      and a password are given, the login flags in front of everything. */
  function BuildOptions(args: seq<string>, autologin: bool, loadinfo: bool, image: bool,
                        email: string, password: string): (r: seq<string>)
    ensures var k := if email != "" && password != "" then 3 else 0;
      && |r| >= k + |args|
      && (k == 3 ==> r[..3] == ["-email=" + email, "-password=" + password, "-nopatchui"])
      && r[k..k + |args|] == args
      && r[k + |args|..] == LaunchFlags(autologin, loadinfo, image)
  {
    var flags := LaunchFlags(autologin, loadinfo, image);
    var login := if email != "" && password != "" then ["-email=" + email, "-password=" + password, "-nopatchui"] else [];
    assert (login + args + flags)[|login| + |args|..] == flags;
    assert (login + args + flags)[|login|..|login| + |args|] == args;
    login + args + flags
  }

  // ---------------------------------------------------------------------------
  // What main does, and in which order

  datatype Action = LoadProfile | RunGame | UnloadProfile

  function ActionRank(a: Action): nat {
    match a
    case LoadProfile => 0
    case RunGame => 1
    case UnloadProfile => 2
  }

  /** The actions main performs for a profile name, given whether Load and the
      game run fail. The game run fails when no launcher is found, when the
      launcher cannot be started, and also when the game exits with a non-zero
      status. A failing Load or game run ends the process through the exit
      prompt, which skips the deferred Unload and leaves the profile swapped
      in; a successful run is followed by the deferred Unload, whose own
      error is ignored. */
  function MainActions(name: string, loadFails: bool, runFails: bool): (r: seq<Action>)
    ensures (LoadProfile in r) <==> !IsLocal(name)
    ensures (RunGame in r) <==> IsLocal(name) || !loadFails
    ensures (UnloadProfile in r) <==> !IsLocal(name) && !loadFails && !runFails
    ensures forall i, j :: 0 <= i < j < |r| ==> ActionRank(r[i]) < ActionRank(r[j])
  {
    if IsLocal(name) then [RunGame]
    else if loadFails then [LoadProfile]
    else if runFails then [LoadProfile, RunGame]
    else [LoadProfile, RunGame, UnloadProfile]
  }

  // ---------------------------------------------------------------------------
  // Launching the game

  datatype Option<T> = None | Some(value: T)

  /** The index of the first candidate that exists. */
  method FirstExisting(candidates: seq<FilePath>, existing: set<FilePath>) returns (r: Option<nat>)
    ensures r.Some? ==> r.value < |candidates| && candidates[r.value] in existing
    ensures r.Some? ==> forall j :: 0 <= j < r.value ==> candidates[j] !in existing
    ensures r.None? <==> forall j :: 0 <= j < |candidates| ==> candidates[j] !in existing
  {
    var i := 0;
    while i < |candidates|
      invariant 0 <= i <= |candidates|
      invariant forall j :: 0 <= j < i ==> candidates[j] !in existing
    {
      if candidates[i] in existing {
        return Some(i);
      }
      i := i + 1;
    }
    r := None;
  }

  /** What Profile.Run asks the operating system to start, or the "launcher
      not found" error when there is nothing to start. */
  datatype Launch = Started(exe: FilePath, args: seq<string>) | LauncherNotFound

  /** Profile.Run: start the first launcher that exists with the profile's
      options; fail if there is none. The child process itself is outside the
      model. */
  method Run(c: Config, p: Profile, existing: set<FilePath>) returns (r: Launch)
    ensures r.LauncherNotFound? <==> forall j :: 0 <= j < |c.Launchers()| ==> c.Launchers()[j] !in existing
    ensures r.Started? ==> r.args == p.options && r.exe in existing
    ensures r.Started? ==>
              exists k :: 0 <= k < |c.Launchers()| && c.Launchers()[k] == r.exe &&
                          forall j :: 0 <= j < k ==> c.Launchers()[j] !in existing
  {
    var candidates := c.Launchers();
    var found := FirstExisting(candidates, existing);
    if found.None? {
      return LauncherNotFound;
    }
    r := Started(candidates[found.value], p.options);
  }
}
