/**
 Pending changes to PAM configurations (SetConfigEntry, Commit and the functions between them in
 common_desktop/src/installer/helpers/PAMHelper.cpp, as built for Linux).
 */
module PamConfig {
  import opened Options
  import opened StringSearch
  import opened PamFiles

  type Path = string

  const PAM_CONFIG_DIR := "/etc/pam.d/"

  const GEN_ENTRY := "## Generated by PulseUnlock"
  const GEN_ENTRY_OLD := "## Generated by PC Bio Unlock"

  const COMMON_BODY := "\n\nauth include common-auth\naccount include common-auth\n"
                     + "password include common-password\nsession include common-session\n"
  const SYSTEM_BODY := "\n\nauth include system-auth\naccount include system-auth\n"
                     + "password include system-auth\nsession include system-auth\n"

  /** A configuration made for the entry alone. */
  function Generated(entry: string, hasSystemAuth: bool): string {
    "\n" + HEADER + "\n" + entry + "\n" + GEN_ENTRY + (if hasSystemAuth then SYSTEM_BODY else COMMON_BODY)
  }

  predicate IsGenerated(s: string) {
    Contains(s, GEN_ENTRY) || Contains(s, GEN_ENTRY_OLD)
  }

  predicate HasEntry(file: Option<string>, entry: string) {
    file.Some? && Contains(file.value, entry)
  }

  function Added(file: Option<string>, entry: string, hasSystemAuth: bool): Option<string> {
    Some(if file.None? then Generated(entry, hasSystemAuth) else AddEntry(file.value, entry))
  }

  function Removed(file: Option<string>, entry: string): Option<string> {
    if file.None? || IsGenerated(file.value) then None else Some(RemoveEntry(file.value, entry))
  }

  /** What setting an entry makes of a configuration, which may be missing. */
  function SetEntry(file: Option<string>, entry: string, enabled: bool, hasSystemAuth: bool): Option<string> {
    if enabled == HasEntry(file, entry) then file
    else if enabled then Added(file, entry, hasSystemAuth)
    else Removed(file, entry)
  }

  // ---- files and pending changes ----

  function OnDisk(files: map<Path, string>, p: Path): Option<string> {
    if p in files then Some(files[p]) else None
  }

  /** What a reader is told about a path: a pending change hides the file. */
  function Seen(files: map<Path, string>, pending: map<Path, Option<string>>, p: Path): Option<string> {
    if p in pending then pending[p] else OnDisk(files, p)
  }

  class FileSystem {
    var files: map<Path, string>

    constructor (start: map<Path, string>)
      ensures files == start
    {
      files := start;
    }

    predicate Exists(p: Path)
      reads this
    {
      p in files
    }

    function ReadBytes(p: Path): string
      reads this
    {
      if p in files then files[p] else ""
    }

    method WriteBytes(p: Path, data: string)
      modifies this
      ensures files == old(files)[p := data]
    {
      files := files[p := data];
    }

    method Remove(p: Path)
      modifies this
      ensures files == old(files) - {p}
    {
      files := files - {p};
    }
  }

  class PAMHelper {
    const fs: FileSystem
    var pendingChanges: map<Path, Option<string>>

    constructor (disk: FileSystem)
      ensures fs == disk && pendingChanges == map[]
    {
      fs := disk;
      pendingChanges := map[];
    }

    /** What this helper answers about a path. */
    function View(p: Path): Option<string>
      reads this, fs
    {
      Seen(fs.files, pendingChanges, p)
    }

    method ConfigExists(p: Path) returns (b: bool)
      ensures b <==> View(p).Some?
    {
      if p in pendingChanges {
        return pendingChanges[p].Some?;
      }
      return fs.Exists(p);
    }

    method ReadConfig(p: Path) returns (s: string)
      ensures s == if View(p).Some? then View(p).value else ""
    {
      if p in pendingChanges {
        return if pendingChanges[p].Some? then pendingChanges[p].value else "";
      }
      return fs.ReadBytes(p);
    }

    method IsConfigGenerated(p: Path) returns (b: bool)
      requires View(p).Some?
      ensures b <==> IsGenerated(View(p).value)
    {
      hide Contains;
      var fileStr := ReadConfig(p);
      b := Contains(fileStr, GEN_ENTRY) || Contains(fileStr, GEN_ENTRY_OLD);
    }

    method AddToConfig(configName: string, entry: string)
      modifies this
      ensures var p := PAM_CONFIG_DIR + configName;
              && View(p) == Added(old(View(p)), entry, PAM_CONFIG_DIR + "system-auth" in fs.files)
              && forall q :: q != p ==> View(q) == old(View(q))
    {
      hide AddEntry, Generated;
      var p := PAM_CONFIG_DIR + configName;
      var found := ConfigExists(p);
      if found {
        var fileStr := ReadConfig(p);
        var resultStr := AddEntryToFile(fileStr, entry);
        pendingChanges := pendingChanges[p := Some(resultStr)];
        return;
      }
      var hasSystemAuth := fs.Exists(PAM_CONFIG_DIR + "system-auth");
      pendingChanges := pendingChanges[p := Some(Generated(entry, hasSystemAuth))];
    }

    method RemoveFromConfig(configName: string, entry: string)
      modifies this
      ensures var p := PAM_CONFIG_DIR + configName;
              && View(p) == Removed(old(View(p)), entry)
              && forall q :: q != p ==> View(q) == old(View(q))
    {
      hide RemoveEntry, IsGenerated;
      var p := PAM_CONFIG_DIR + configName;
      var found := ConfigExists(p);
      if !found {
        return;
      }
      var generated := IsConfigGenerated(p);
      if generated {
        pendingChanges := pendingChanges[p := None];
      } else {
        var fileStr := ReadConfig(p);
        var resultStr := RemoveEntryFromFile(fileStr, entry);
        pendingChanges := pendingChanges[p := Some(resultStr)];
      }
    }

    /** Nothing is written yet; the view of the one path changes, all others stay. */
    method SetConfigEntry(configName: string, entry: string, enabled: bool)
      modifies this
      ensures var p := PAM_CONFIG_DIR + configName;
              && View(p) == SetEntry(old(View(p)), entry, enabled, PAM_CONFIG_DIR + "system-auth" in fs.files)
              && forall q :: q != p ==> View(q) == old(View(q))
    {
      hide Added, Removed, Contains;
      var p := PAM_CONFIG_DIR + configName;
      var found := ConfigExists(p);
      var fileStr := ReadConfig(p);
      var hasEntry := found && Contains(fileStr, entry);
      if enabled && !hasEntry {
        AddToConfig(configName, entry);
      } else if !enabled && hasEntry {
        RemoveFromConfig(configName, entry);
      }
    }

    /** Writes the changes that are changes; every path on disk is then as it was seen before. */
    method Commit()
      modifies this, fs
      ensures pendingChanges == map[]
      ensures forall p :: OnDisk(fs.files, p) == old(View(p)) == View(p)
    {
      var changes: map<Path, Option<string>> := map[];
      var todo := pendingChanges.Keys;
      while todo != {}
        invariant todo <= pendingChanges.Keys && changes.Keys <= pendingChanges.Keys - todo
        invariant forall p :: p in changes ==> changes[p] == pendingChanges[p]
        invariant forall p :: p in pendingChanges && p !in todo && p !in changes ==>
                    pendingChanges[p] == OnDisk(fs.files, p)
        decreases todo
      {
        var p :| p in todo;
        todo := todo - {p};
        var data := pendingChanges[p];
        var same := data == if fs.Exists(p) then Some(fs.ReadBytes(p)) else None;
        if !same {
          changes := changes[p := data];
        }
      }
      pendingChanges := map[];
      ghost var before := fs.files;
      var left := changes.Keys;
      while left != {}
        invariant left <= changes.Keys && pendingChanges == map[]
        invariant forall p ::
                    OnDisk(fs.files, p) == if p in changes && p !in left then changes[p] else OnDisk(before, p)
        decreases left
      {
        var p :| p in left;
        left := left - {p};
        if changes[p].Some? {
          fs.WriteBytes(p, changes[p].value);
        } else {
          fs.Remove(p);
        }
      }
    }
  }

  // ---- runs ----

  datatype Setting = Setting(configName: string, entry: string, enabled: bool)

  /** What the settings for this path make of its file; settings for other paths do not matter. */
  function Outcome(p: Path, file: Option<string>, settings: seq<Setting>, hasSystemAuth: bool): Option<string> {
    if settings == [] then file else
      var last := settings[|settings| - 1];
      var before := Outcome(p, file, settings[..|settings| - 1], hasSystemAuth);
      if PAM_CONFIG_DIR + last.configName != p then before
      else SetEntry(before, last.entry, last.enabled, hasSystemAuth)
  }

  lemma {:induction false} UntouchedKeeps(p: Path, file: Option<string>, settings: seq<Setting>, hasSystemAuth: bool)
    requires forall k :: 0 <= k < |settings| ==> PAM_CONFIG_DIR + settings[k].configName != p
    ensures Outcome(p, file, settings, hasSystemAuth) == file
  {
    if settings != [] {
      UntouchedKeeps(p, file, settings[..|settings| - 1], hasSystemAuth);
    }
  }

  /** The installer's use of a helper: any settings, then one commit. */
  method ApplySettings(helper: PAMHelper, settings: seq<Setting>)
    requires helper.pendingChanges == map[]
    modifies helper, helper.fs
    ensures helper.pendingChanges == map[]
    ensures forall p :: OnDisk(helper.fs.files, p) ==
              Outcome(p, old(OnDisk(helper.fs.files, p)), settings,
                      old(PAM_CONFIG_DIR + "system-auth" in helper.fs.files))
  {
    hide SetEntry;
    var fs := helper.fs;
    ghost var sys := PAM_CONFIG_DIR + "system-auth" in fs.files;
    for k := 0 to |settings|
      invariant fs.files == old(fs.files)
      invariant forall p :: helper.View(p) == Outcome(p, OnDisk(fs.files, p), settings[..k], sys)
    {
      assert settings[..k + 1][..k] == settings[..k];
      helper.SetConfigEntry(settings[k].configName, settings[k].entry, settings[k].enabled);
    }
    assert settings[..|settings|] == settings;
    helper.Commit();
  }

  // ---- enabling and disabling again ----

  lemma HasInner(a: string, m: string, b: string)
    ensures Contains(a + m + b, m)
  {
    assert (a + m + b)[|a|..|a| + |m|] == m;
    assert MatchAt(a + m + b, m, |a|);
  }

  lemma HasBoth(a: string, m: string, b: string, n: string, c: string)
    ensures Contains(a + m + b + n + c, m) && Contains(a + m + b + n + c, n)
  {
    hide Contains;
    HasInner(a, m, b + n + c);
    assert a + m + b + n + c == a + m + (b + n + c);
    HasInner(a + m + b, n, c);
  }

  lemma GeneratedIsRecognised(entry: string, hasSystemAuth: bool)
    ensures Contains(Generated(entry, hasSystemAuth), entry) && Contains(Generated(entry, hasSystemAuth), GEN_ENTRY)
  {
    hide Contains;
    HasBoth("\n" + HEADER + "\n", entry, "\n", GEN_ENTRY, if hasSystemAuth then SYSTEM_BODY else COMMON_BODY);
  }

  /** A configuration that did not exist does not exist afterwards. */
  lemma MadeAndRemoved(entry: string, hasSystemAuth: bool)
    ensures SetEntry(SetEntry(None, entry, true, hasSystemAuth), entry, false, hasSystemAuth) == None
  {
    hide Contains, Generated;
    GeneratedIsRecognised(entry, hasSystemAuth);
  }

  /** A text without a newline stands in a file when it stands in one of its lines. */
  lemma InSomeLine(file: string, m: string)
    requires m != "" && '\n' !in m
    ensures Contains(file, m) <==> exists x :: x in Lines(file) && Contains(x, m)
  {
    hide Split, Unlines, Contains;
    UnlinesOfLines(file);
    if Contains(file, m) {
      Widen(file, "\n", m);
      var k := WithinALine(Lines(file), m);
      assert Lines(file)[k] in Lines(file);
    }
    if x :| x in Lines(file) && Contains(x, m) {
      var k :| 0 <= k < |Lines(file)| && Lines(file)[k] == x;
      InTheWhole(Lines(file), m, k);
      Narrow(file, m);
    }
  }

  lemma Widen(s: string, t: string, m: string)
    requires Contains(s, m)
    ensures Contains(s + t, m)
  {
    var i :| 0 <= i <= |s| && MatchAt(s, m, i);
    assert (s + t)[i..i + |m|] == s[i..i + |m|];
    assert MatchAt(s + t, m, i);
  }

  lemma Narrow(s: string, m: string)
    requires Contains(s + "\n", m) && '\n' !in m && m != ""
    ensures Contains(s, m)
  {
    var t := s + "\n";
    var i :| 0 <= i <= |t| && MatchAt(t, m, i);
    MatchCovers(t, m, i, |s|);
    assert s[i..i + |m|] == t[i..i + |m|];
    assert MatchAt(s, m, i);
  }

  lemma {:induction false} EntryAfterHeader(ls: seq<string>, entry: string)
    requires HEADER in ls
    ensures Contains(AddToLines(ls, entry, true), entry)
  {
    hide Contains;
    var k := |ls| - 1;
    var before := AddToLines(ls[..k], entry, true);
    if ls[k] == HEADER {
      HasInner(before + ls[k] + "\n", entry, "\n");
      assert AddToLines(ls, entry, true) == before + ls[k] + "\n" + entry + "\n";
    } else {
      assert ls == ls[..k] + [ls[k]];
      EntryAfterHeader(ls[..k], entry);
      Widen(before, ls[k] + "\n", entry);
      assert AddToLines(ls, entry, true) == before + (ls[k] + "\n");
    }
  }

  lemma {:induction false} CollapseKeeps(s: string, m: string)
    requires Contains(s, m) && m != "" && m[|m| - 1] != '\n'
    ensures Contains(Collapse(s), m)
    decreases |s|
  {
    if EndsWithTwo(s) {
      var i :| 0 <= i <= |s| && MatchAt(s, m, i);
      var t := s[..|s| - 1];
      assert s[i + |m| - 1] == m[|m| - 1];
      assert t[i..i + |m|] == s[i..i + |m|];
      assert MatchAt(t, m, i);
      CollapseKeeps(t, m);
    }
  }

  lemma NoMarkerAdded(file: string, entry: string, m: string)
    requires m != "" && '\n' !in m && Contains(file, HEADER + "\n")
    requires !Contains(file, m) && !Contains(entry, m)
    ensures !Contains(AddEntry(file, entry), m)
  {
    hide Split, Contains, AddEntry, Lines;
    InSomeLine(file, m);
    InSomeLine(entry, m);
    InSomeLine(AddEntry(file, entry), m);
    if x :| x in Lines(AddEntry(file, entry)) && Contains(x, m) {
      NotInNothing(m);
      LinesAfterAdd(file, entry, x);
    }
  }

  lemma NotInNothing(m: string)
    requires m != ""
    ensures !Contains("", m)
  {
  }

  /** Enabling and disabling again restores a configuration, with one newline at its end. */
  lemma EnabledAndDisabled(file: string, entry: string, hasSystemAuth: bool)
    requires Contains(file, HEADER + "\n") && HEADER in Lines(file) && !IsGenerated(file)
    requires entry != "" && entry[|entry| - 1] != '\n' && !IsGenerated(entry) && HEADER !in Lines(entry)
    requires !Contains(file, entry) && Apart(Lines(file), Lines(entry))
    ensures SetEntry(SetEntry(Some(file), entry, true, hasSystemAuth), entry, false, hasSystemAuth)
         == Some(Collapse(file + "\n"))
  {
    hide Split, Contains, Lines, AddToLines, Collapse, RemoveEntry;
    EntryAfterHeader(Lines(file), entry);
    CollapseKeeps(AddToLines(Lines(file), entry, true), entry);
    assert "" + AddToLines(Lines(file), entry, true) == AddToLines(Lines(file), entry, true);
    NoMarkerAdded(file, entry, GEN_ENTRY);
    NoMarkerAdded(file, entry, GEN_ENTRY_OLD);
    RemoveUndoesAdd(file, entry);
  }
}
