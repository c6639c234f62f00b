/** Path construction: directory joining, the decimal suffix of a backup slot,
    and the locations the program derives from its environment. */
module Paths {
  import opened Files

  /** The Windows path separator. */
  const Sep: char := '\\'

  /** `s` ends with `suffix`. */
  predicate EndsWith(s: string, suffix: string) {
    |s| >= |suffix| && s[|s| - |suffix|..] == suffix
  }

  /** filepath.Join of two elements; an empty directory contributes nothing. */
  function Join(dir: FilePath, elem: FilePath): (r: FilePath)
    ensures EndsWith(r, elem)
  {
    if dir == "" then elem else dir + [Sep] + elem
  }

  /** A single path element that filepath.Join keeps as it is: not empty,
      not `.` or `..`, and free of both separators Windows accepts. */
  predicate PlainElement(e: FilePath) {
    e != "" && e != "." && e != ".." && forall i :: 0 <= i < |e| ==> e[i] != Sep && e[i] != '/'
  }

  /** Joining onto the same directory tells different plain elements apart. */
  lemma JoinCancel(dir: FilePath, x: FilePath, y: FilePath)
    requires PlainElement(x) && PlainElement(y)
    requires Join(dir, x) == Join(dir, y)
    ensures x == y
  {
    if dir != "" {
      assert x == Join(dir, x)[|dir| + 1..];
      assert y == Join(dir, y)[|dir| + 1..];
    }
  }

  predicate IsDigit(ch: char) {
    '0' <= ch <= '9'
  }

  function DigitChar(d: nat): (ch: char)
    requires d < 10
    ensures IsDigit(ch)
  {
    ('0' as int + d) as char
  }

  /** The decimal numeral of `n` without leading zeros, as fmt's `%d` prints it. */
  function Decimal(n: nat): (r: string)
    ensures |r| > 0 && IsDigit(r[|r| - 1])
    ensures |r| == 1 <==> n < 10
    decreases n
  {
    if n < 10 then [DigitChar(n)] else Decimal(n / 10) + [DigitChar(n % 10)]
  }

  /** Different numbers have different numerals. */
  lemma {:induction false} DecimalInjective(a: nat, b: nat)
    requires Decimal(a) == Decimal(b)
    ensures a == b
  {
    if a >= 10 && b >= 10 {
      var da, db := Decimal(a), Decimal(b);
      assert da == Decimal(a / 10) + [DigitChar(a % 10)];
      assert db == Decimal(b / 10) + [DigitChar(b % 10)];
      assert DigitChar(a % 10) == da[|da| - 1] == db[|db| - 1] == DigitChar(b % 10);
      assert Decimal(a / 10) == da[..|da| - 1] == db[..|db| - 1] == Decimal(b / 10);
      DecimalInjective(a / 10, b / 10);
    } else {
      assert Decimal(a)[0] == Decimal(b)[0];
    }
  }

  /** The environment the program reads its locations from: APPDATA,
      PROGRAMFILES and PROGRAMFILES(x86). */
  datatype Config = Config(appData: string, programFiles: string, programFilesX86: string)
  {
    /** LocalDir: the game's user-data directory. */
    function LocalDir(): (r: FilePath)
      ensures EndsWith(r, "Guild Wars 2")
    {
      Join(appData, "Guild Wars 2")
    }

    /** LocalDat: the live save file the game reads and writes. */
    function ActiveFile(): (r: FilePath)
      ensures EndsWith(r, "Local.dat")
    {
      Join(LocalDir(), "Local.dat")
    }

    /** The undo marker: where Load parks the live file while a profile is in use. */
    function BakFile(): (r: FilePath)
      ensures EndsWith(r, "Local.dat.bak")
    {
      var a := ActiveFile();
      assert (a + ".bak")[|a| - 9..] == a[|a| - 9..] + ".bak";
      a + ".bak"
    }

    /** The launcher executables Run tries, in order. */
    function Launchers(): (r: seq<FilePath>)
      ensures |r| == 4
      ensures EndsWith(r[0], "Gw2-64.exe") && EndsWith(r[1], "Gw2.exe")
      ensures EndsWith(r[2], "Gw2-64.exe") && EndsWith(r[3], "Gw2.exe")
    {
      [ Join(Join(programFilesX86, "Guild Wars 2"), "Gw2-64.exe"),
        Join(Join(programFilesX86, "Guild Wars 2"), "Gw2.exe"),
        Join(Join(programFiles, "Guild Wars 2"), "Gw2-64.exe"),
        Join(Join(programFiles, "Guild Wars 2"), "Gw2.exe") ]
    }
  }
}
