/** The command-string side of the shell tool: which commands count as
    Linux-only, and how such a command is rewritten into its Windows form
    when no Linux subsystem is available, or running the command there
    fails. Running the command is not part of this model. */
module Commands {
  import opened Wrappers
  import opened Text

  /** The commands routed to the Linux subsystem or to a Windows equivalent. */
  const LinuxCommands: seq<string> :=
    ["ls", "cat", "grep", "find", "pwd", "which", "curl", "wget", "touch", "chmod"]

  /** Some entry of `LinuxCommands` is a prefix of `cmd` (a plain prefix test:
      `lsblk` and `categories` count too). */
  predicate IsLinuxCommand(cmd: string) {
    exists i :: 0 <= i < |LinuxCommands| && StartsWith(cmd, LinuxCommands[i])
  }

  /** The test looks at prefixes only: text after a listed command does not
      matter, so `lsblk` and `categories` count, while a leading space makes
      any command fail the test. */
  lemma PrefixTestOnly(cmd: string, more: string)
    ensures IsLinuxCommand(cmd) ==> IsLinuxCommand(cmd + more)
    ensures IsLinuxCommand("lsblk") && IsLinuxCommand("categories")
    ensures !IsLinuxCommand(" " + cmd)
  {
    if IsLinuxCommand(cmd) {
      var i :| 0 <= i < |LinuxCommands| && StartsWith(cmd, LinuxCommands[i]);
      assert (cmd + more)[..|LinuxCommands[i]|] == cmd[..|LinuxCommands[i]|];
      assert StartsWith(cmd + more, LinuxCommands[i]);
    }
    assert StartsWith("lsblk", LinuxCommands[0]);
    assert StartsWith("categories", LinuxCommands[1]);
    forall i | 0 <= i < |LinuxCommands|
      ensures !StartsWith(" " + cmd, LinuxCommands[i])
    {
      assert LinuxCommands[i][0] != ' ';
    }
  }

  /** One row of the translation table. */
  datatype Equivalent = Equivalent(linux: string, windows: string)

  /** The translation table, in the insertion order the lookup walks it. */
  const WindowsEquivalents: seq<Equivalent> := [
    Equivalent("ls", "dir /b"),
    Equivalent("ls -la", "dir"),
    Equivalent("ls -l", "dir"),
    Equivalent("ls -a", "dir /a"),
    Equivalent("cat", "type"),
    Equivalent("pwd", "cd"),
    Equivalent("which", "where"),
    Equivalent("find", "findstr"),
    Equivalent("grep", "findstr"),
    Equivalent("touch", "echo. > "),
    Equivalent("curl", "curl"),
    Equivalent("wget", "curl -O")
  ]

  /** Row `i` is the first row whose Linux command is a prefix of `cmd`. */
  predicate IsFirstMatch(table: seq<Equivalent>, cmd: string, i: nat) {
    && i < |table|
    && StartsWith(cmd, table[i].linux)
    && forall j :: 0 <= j < i ==> !StartsWith(cmd, table[j].linux)
  }

  /** The first row, at or after `from`, whose Linux command is a prefix of `cmd`. */
  function FirstMatchFrom(table: seq<Equivalent>, cmd: string, from: nat): (r: Option<nat>)
    requires from <= |table|
    decreases |table| - from
    ensures r.Some? ==> from <= r.value < |table| && StartsWith(cmd, table[r.value].linux)
    ensures r.Some? ==> forall j :: from <= j < r.value ==> !StartsWith(cmd, table[j].linux)
    ensures r.None? ==> forall j :: from <= j < |table| ==> !StartsWith(cmd, table[j].linux)
  {
    if from == |table| then None
    else if StartsWith(cmd, table[from].linux) then Some(from)
    else FirstMatchFrom(table, cmd, from + 1)
  }

  /** The Windows form of a command: `touch <name>` becomes an `echo.`
      redirection to the trimmed, quoted name; otherwise the first table row
      whose Linux command is a prefix has that prefix replaced; otherwise the
      command is unchanged. */
  function ToWindows(cmd: string): (r: string)
    ensures StartsWith(cmd, "touch ") ==> StartsWith(r, "echo. > \"") && r[|r| - 1] == '"'
    ensures !StartsWith(cmd, "touch ") && r != cmd ==>
      exists i :: 0 <= i < |WindowsEquivalents|
        && StartsWith(cmd, WindowsEquivalents[i].linux) && StartsWith(r, WindowsEquivalents[i].windows)
  {
    if StartsWith(cmd, "touch ") then
      var fileName := Trim(ReplaceFirst(cmd, "touch ", ""));
      "echo. > \"" + fileName + "\""
    else
      match FirstMatchFrom(WindowsEquivalents, cmd, 0)
      case Some(i) =>
        var e := WindowsEquivalents[i];
        PrefixIsFirstOccurrence(cmd, e.linux);
        var r := ReplaceFirst(cmd, e.linux, e.windows);
        assert r == cmd[..0] + e.windows + cmd[|e.linux|..];
        assert r[..|e.windows|] == e.windows;
        r
      case None => cmd
  }

  lemma PrefixIsFirstOccurrence(cmd: string, p: string)
    requires StartsWith(cmd, p)
    ensures FirstOccurrence(cmd, p, 0)
  {
  }

  /** `touch <name>` creates the file through an `echo.` redirection; the name
      is everything after `touch `, trimmed, and quoted. */
  lemma TouchTranslation(cmd: string)
    requires StartsWith(cmd, "touch ")
    ensures ToWindows(cmd) == "echo. > \"" + Trim(cmd[6..]) + "\""
  {
    PrefixIsFirstOccurrence(cmd, "touch ");
    assert ReplaceFirst(cmd, "touch ", "") == cmd[..0] + "" + cmd[6..];
    assert cmd[..0] + "" + cmd[6..] == cmd[6..];
  }

  lemma {:induction false} FirstMatchFound(table: seq<Equivalent>, cmd: string, from: nat, i: nat)
    requires from <= i && IsFirstMatch(table, cmd, i)
    ensures FirstMatchFrom(table, cmd, from) == Some(i)
    decreases i - from
  {
    if from < i {
      assert !StartsWith(cmd, table[from].linux);
      FirstMatchFound(table, cmd, from + 1, i);
    }
  }

  lemma DifferentCharNotPrefix(cmd: string, key: string, k: nat)
    requires k < |key| && k < |cmd| && cmd[k] != key[k]
    ensures !StartsWith(cmd, key)
  {
  }

  /** Outside the `touch ` case, the first matching row decides: its Linux
      prefix is swapped for the Windows command and the rest of the command
      line is kept. */
  lemma TableTranslation(cmd: string, i: nat)
    requires !StartsWith(cmd, "touch ")
    requires IsFirstMatch(WindowsEquivalents, cmd, i)
    ensures ToWindows(cmd)
         == WindowsEquivalents[i].windows + cmd[|WindowsEquivalents[i].linux|..]
  {
    FirstMatchFound(WindowsEquivalents, cmd, 0, i);
    var e := WindowsEquivalents[i];
    PrefixIsFirstOccurrence(cmd, e.linux);
    assert ReplaceFirst(cmd, e.linux, e.windows) == e.windows + cmd[|e.linux|..];
    assert ToWindows(cmd) == ReplaceFirst(cmd, e.linux, e.windows);
  }

  /** A command no row matches is passed through unchanged. */
  lemma UnmatchedCommandUnchanged(cmd: string)
    requires !StartsWith(cmd, "touch ")
    requires forall j :: 0 <= j < |WindowsEquivalents| ==> !StartsWith(cmd, WindowsEquivalents[j].linux)
    ensures ToWindows(cmd) == cmd
  {
  }

  lemma StartsWithLonger(cmd: string, short: string, long: string)
    requires StartsWith(cmd, long) && StartsWith(long, short)
    ensures StartsWith(cmd, short)
  {
    assert cmd[..|short|] == long[..|short|];
  }

  /** Rows 1 to 3 (`ls -la`, `ls -l`, `ls -a`) are never chosen: `ls` comes
      first and is a prefix of each of them. */
  lemma ListingVariantsUnreachable(cmd: string)
    ensures FirstMatchFrom(WindowsEquivalents, cmd, 0) !in {Some(1), Some(2), Some(3)}
  {
  }

  /** Hence `ls -la` is sent as `dir /b -la`, not as `dir`. */
  lemma LongListingBecomesBareListing()
    ensures ToWindows("ls -la") == "dir /b -la"
  {
    assert StartsWith("ls -la", "ls");
    DifferentCharNotPrefix("ls -la", "touch ", 0);
    TableTranslation("ls -la", 0);
  }

  /** The translation only ever changes a command that the routing test
      classifies as Linux-only. */
  lemma TranslationOnlyTouchesLinuxCommands(cmd: string)
    ensures ToWindows(cmd) != cmd ==> IsLinuxCommand(cmd)
  {
    if StartsWith(cmd, "touch ") {
      StartsWithLonger(cmd, "touch", "touch ");
      assert StartsWith(cmd, LinuxCommands[8]);
    } else {
      var m := FirstMatchFrom(WindowsEquivalents, cmd, 0);
      if m.Some? {
        var i := m.value;
        if i <= 3 {
          StartsWithLonger(cmd, "ls", WindowsEquivalents[i].linux);
          assert StartsWith(cmd, LinuxCommands[0]);
        } else if i == 4 {
          assert StartsWith(cmd, LinuxCommands[1]);
        } else if i == 5 {
          assert StartsWith(cmd, LinuxCommands[4]);
        } else if i == 6 {
          assert StartsWith(cmd, LinuxCommands[5]);
        } else if i == 7 {
          assert StartsWith(cmd, LinuxCommands[3]);
        } else if i == 8 {
          assert StartsWith(cmd, LinuxCommands[2]);
        } else if i == 9 {
          assert StartsWith(cmd, LinuxCommands[8]);
        } else if i == 10 {
          assert StartsWith(cmd, LinuxCommands[6]);
        } else {
          assert StartsWith(cmd, LinuxCommands[7]);
        }
      }
    }
  }

  /** `chmod` is routed as Linux-only but has no Windows row: it is passed on
      unchanged. */
  lemma ChmodHasNoEquivalent(cmd: string)
    requires StartsWith(cmd, "chmod")
    ensures IsLinuxCommand(cmd)
    ensures ToWindows(cmd) == cmd
  {
    assert StartsWith(cmd, LinuxCommands[9]);
    assert cmd[..5] == "chmod";
    forall j | 0 <= j < |WindowsEquivalents|
      ensures !StartsWith(cmd, WindowsEquivalents[j].linux)
    {
      if j == 4 || j == 10 {
        DifferentCharNotPrefix(cmd, WindowsEquivalents[j].linux, 1);
      } else {
        DifferentCharNotPrefix(cmd, WindowsEquivalents[j].linux, 0);
      }
    }
    DifferentCharNotPrefix(cmd, "touch ", 0);
    UnmatchedCommandUnchanged(cmd);
  }
}
