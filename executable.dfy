/**
 * `executable_path` and `_check_executable`: probe `dir/name+suffix` in each
 * directory of the PATH setting, then in each directory of the login
 * shell's PATH, and return the first candidate that exists, is a regular
 * file and is executable, with the source of the list it came from.
 */
module Executables {
  import opened Values
  import opened Lookup
  import opened PyStr

  /** What `executable_path` returns: `(None, None)` or a path and its source. */
  datatype ExeResult = NoExecutable | FoundExe(path: string, source: string)

  /** `_check_executable`: the path exists, is a regular file and has the execute permission. */
  predicate CheckExecutable(fs: FileSystem, path: string)
  {
    path in fs.existing && path in fs.files && path in fs.executables
  }

  function Candidate(dir: string, name: string, p: Platform): string
  {
    PathJoin(dir, name, DirSep(p))
  }

  /** The first directory of `dirs` whose candidate passes the check. */
  function FirstExecutable(dirs: seq<string>, name: string, p: Platform, fs: FileSystem): Option<string>
    decreases |dirs|
  {
    if |dirs| == 0 then None
    else if CheckExecutable(fs, Candidate(dirs[0], name, p)) then Some(Candidate(dirs[0], name, p))
    else FirstExecutable(dirs[1..], name, p, fs)
  }

  /** The search finds the candidate of the first passing directory, and
      finds nothing exactly when no directory's candidate passes. */
  lemma {:induction false} FirstExecutableIsFirst(dirs: seq<string>, name: string, p: Platform, fs: FileSystem)
    ensures FirstExecutable(dirs, name, p, fs).None? <==>
              forall i :: 0 <= i < |dirs| ==> !CheckExecutable(fs, Candidate(dirs[i], name, p))
    ensures FirstExecutable(dirs, name, p, fs).Some? ==>
              exists i :: 0 <= i < |dirs| &&
                FirstExecutable(dirs, name, p, fs).value == Candidate(dirs[i], name, p) &&
                CheckExecutable(fs, Candidate(dirs[i], name, p)) &&
                forall j :: 0 <= j < i ==> !CheckExecutable(fs, Candidate(dirs[j], name, p))
    decreases |dirs|
  {
    if |dirs| > 0 {
      FirstExecutableIsFirst(dirs[1..], name, p, fs);
      if CheckExecutable(fs, Candidate(dirs[0], name, p)) {
        assert FirstExecutable(dirs, name, p, fs).value == Candidate(dirs[0], name, p);
      } else {
        assert forall i :: 1 <= i < |dirs| ==> dirs[1..][i - 1] == dirs[i];
        if FirstExecutable(dirs, name, p, fs).Some? {
          var k :| 0 <= k < |dirs[1..]| &&
                   FirstExecutable(dirs, name, p, fs).value == Candidate(dirs[1..][k], name, p) &&
                   CheckExecutable(fs, Candidate(dirs[1..][k], name, p)) &&
                   forall j :: 0 <= j < k ==> !CheckExecutable(fs, Candidate(dirs[1..][j], name, p));
          assert forall j :: 0 <= j < k + 1 ==> !CheckExecutable(fs, Candidate(dirs[j], name, p)) by {
            forall j | 0 <= j < k + 1 ensures !CheckExecutable(fs, Candidate(dirs[j], name, p)) {
              if j > 0 { assert dirs[j] == dirs[1..][j - 1]; }
            }
          }
          assert Candidate(dirs[k + 1], name, p) == Candidate(dirs[1..][k], name, p);
        }
      }
    }
  }

  /** The directory loop of `executable_path`, with its early return. */
  method FindExecutable(dirs: seq<string>, name: string, p: Platform, fs: FileSystem) returns (found: Option<string>)
    ensures found == FirstExecutable(dirs, name, p, fs)
  {
    var i := 0;
    while i < |dirs|
      invariant 0 <= i <= |dirs|
      invariant FirstExecutable(dirs[i..], name, p, fs) == FirstExecutable(dirs, name, p, fs)
    {
      var candidate := Candidate(dirs[i], name, p);
      if CheckExecutable(fs, candidate) {
        return Some(candidate);
      }
      assert dirs[i..][1..] == dirs[i + 1..];
      i := i + 1;
    }
    return None;
  }

  /** The directories of the PATH setting searched first: only a string value is split. */
  function SettingsSearchDirs(setting: Lookup, p: Platform): seq<string>
  {
    if setting.Found? && setting.value.Str? then Split(setting.value.s, PathSep(p)) else []
  }

  /** `executable_path(name)` as a function of the name and the host. */
  function ExecutablePathSpec(name: Value, h: Host): (r: Result<ExeResult>)
    ensures !name.Str? ==> r == Err(TypeError("executable_name"))
  {
    match RequireString("executable_name", name)
    case Err(e) => Err(e)
    case Ok(n) =>
      var suffixed := n + ExeSuffix(h.platform);
      var setting := MostSpecific("PATH", h.scopes, h.platform);
      var fromSettings := FirstExecutable(SettingsSearchDirs(setting, h.platform), suffixed, h.platform, h.fs);
      if fromSettings.Some? then Ok(FoundExe(fromSettings.value, setting.source))
      else
        var fromShell := FirstExecutable(h.shell.path, suffixed, h.platform, h.fs);
        if fromShell.Some? then Ok(FoundExe(fromShell.value, h.shell.id))
        else Ok(NoExecutable)
  }

  /** `executable_path`, step by step as the source runs it. */
  method ExecutablePath(name: Value, h: Host) returns (r: Result<ExeResult>)
    ensures r == ExecutablePathSpec(name, h)
    ensures !name.Str? ==> r == Err(TypeError("executable_name"))
  {
    var checked := RequireString("executable_name", name);
    if checked.Err? {
      return Err(checked.error);
    }
    var suffixed := checked.value + ExeSuffix(h.platform);
    var setting := MostSpecific("PATH", h.scopes, h.platform);
    if setting.Found? && setting.value.Str? {
      var found := FindExecutable(Split(setting.value.s, PathSep(h.platform)), suffixed, h.platform, h.fs);
      if found.Some? {
        return Ok(FoundExe(found.value, setting.source));
      }
    }
    var found := FindExecutable(h.shell.path, suffixed, h.platform, h.fs);
    if found.Some? {
      return Ok(FoundExe(found.value, h.shell.id));
    }
    return Ok(NoExecutable);
  }

  /** Search order: the PATH setting's directories first, labelled with
      the setting's source; the shell's directories only when none of those
      passes, labelled with the shell; `(None, None)` when both fail. A
      PATH setting that is not a string contributes no directory. */
  lemma SearchOrder(n: string, h: Host)
    ensures var suffixed := n + ExeSuffix(h.platform);
            var setting := MostSpecific("PATH", h.scopes, h.platform);
            var first := FirstExecutable(SettingsSearchDirs(setting, h.platform), suffixed, h.platform, h.fs);
            var second := FirstExecutable(h.shell.path, suffixed, h.platform, h.fs);
            && (first.Some? ==> ExecutablePathSpec(Str(n), h) == Ok(FoundExe(first.value, setting.source)))
            && (first.None? && second.Some? ==> ExecutablePathSpec(Str(n), h) == Ok(FoundExe(second.value, h.shell.id)))
            && (first.None? && second.None? ==> ExecutablePathSpec(Str(n), h) == Ok(NoExecutable))
  {
  }

  /** Soundness and completeness of the search: a returned path is the
      candidate of some searched directory and passes the check, and
      nothing is returned only when no candidate of either list passes. */
  lemma ExecutablePathCorrect(n: string, h: Host)
    ensures var suffixed := n + ExeSuffix(h.platform);
            var dirs := SettingsSearchDirs(MostSpecific("PATH", h.scopes, h.platform), h.platform) + h.shell.path;
            var r := ExecutablePathSpec(Str(n), h);
            && r.Ok?
            && (r.value.FoundExe? ==>
                  CheckExecutable(h.fs, r.value.path) &&
                  exists i :: 0 <= i < |dirs| && r.value.path == Candidate(dirs[i], suffixed, h.platform))
            && (r.value == NoExecutable <==>
                  forall i :: 0 <= i < |dirs| ==> !CheckExecutable(h.fs, Candidate(dirs[i], suffixed, h.platform)))
  {
    var suffixed := n + ExeSuffix(h.platform);
    var sdirs := SettingsSearchDirs(MostSpecific("PATH", h.scopes, h.platform), h.platform);
    var dirs := sdirs + h.shell.path;
    FirstExecutableIsFirst(sdirs, suffixed, h.platform, h.fs);
    FirstExecutableIsFirst(h.shell.path, suffixed, h.platform, h.fs);
    assert forall i :: 0 <= i < |sdirs| ==> dirs[i] == sdirs[i];
    assert forall i :: 0 <= i < |h.shell.path| ==> dirs[|sdirs| + i] == h.shell.path[i];
    var r := ExecutablePathSpec(Str(n), h);
    if r.value.FoundExe? {
      var first := FirstExecutable(sdirs, suffixed, h.platform, h.fs);
      if first.Some? {
        var i :| 0 <= i < |sdirs| && first.value == Candidate(sdirs[i], suffixed, h.platform) &&
                 CheckExecutable(h.fs, Candidate(sdirs[i], suffixed, h.platform));
        assert r.value.path == Candidate(dirs[i], suffixed, h.platform);
      } else {
        var second := FirstExecutable(h.shell.path, suffixed, h.platform, h.fs);
        var i :| 0 <= i < |h.shell.path| && second.value == Candidate(h.shell.path[i], suffixed, h.platform) &&
                 CheckExecutable(h.fs, Candidate(h.shell.path[i], suffixed, h.platform));
        assert r.value.path == Candidate(dirs[|sdirs| + i], suffixed, h.platform);
      }
    } else {
      forall i | 0 <= i < |dirs| ensures !CheckExecutable(h.fs, Candidate(dirs[i], suffixed, h.platform)) {
        if i < |sdirs| { assert dirs[i] == sdirs[i]; }
        else { assert dirs[i] == h.shell.path[i - |sdirs|]; }
      }
    }
  }

  /** An executable file in the first passing directory of the PATH setting
      is returned with its exact path and the setting's source, whatever the
      shell's PATH holds. */
  lemma {:induction false} SettingsHitReturned(n: string, h: Host, i: int)
    requires var dirs := SettingsSearchDirs(MostSpecific("PATH", h.scopes, h.platform), h.platform);
             && 0 <= i < |dirs|
             && CheckExecutable(h.fs, Candidate(dirs[i], n + ExeSuffix(h.platform), h.platform))
             && forall j :: 0 <= j < i ==> !CheckExecutable(h.fs, Candidate(dirs[j], n + ExeSuffix(h.platform), h.platform))
    ensures var setting := MostSpecific("PATH", h.scopes, h.platform);
            var dirs := SettingsSearchDirs(setting, h.platform);
            ExecutablePathSpec(Str(n), h) ==
              Ok(FoundExe(Candidate(dirs[i], n + ExeSuffix(h.platform), h.platform), setting.source))
  {
    var dirs := SettingsSearchDirs(MostSpecific("PATH", h.scopes, h.platform), h.platform);
    FirstFromIndex(dirs, n + ExeSuffix(h.platform), h.platform, h.fs, i);
  }

  lemma {:induction false} FirstFromIndex(dirs: seq<string>, name: string, p: Platform, fs: FileSystem, i: int)
    requires 0 <= i < |dirs| && CheckExecutable(fs, Candidate(dirs[i], name, p))
    requires forall j :: 0 <= j < i ==> !CheckExecutable(fs, Candidate(dirs[j], name, p))
    ensures FirstExecutable(dirs, name, p, fs) == Some(Candidate(dirs[i], name, p))
    decreases i
  {
    if i > 0 {
      assert forall j :: 0 <= j < i - 1 ==> dirs[1..][j] == dirs[j + 1];
      FirstFromIndex(dirs[1..], name, p, fs, i - 1);
    }
  }

  /** The shell-only case: no settings, the shell PATH "/bin:/usr/bin", and an
      executable "/usr/bin/go" gives ("/usr/bin/go", shell). */
  lemma ShellOnlyExample()
    ensures var fs := FileSystem({"/usr/bin/go"}, {"/usr/bin/go"}, {"/usr/bin/go"});
            var h := Host([], Linux, Shell("/bin/bash", map["PATH" := "/bin:/usr/bin"], ["/bin", "/usr/bin"]), fs);
            ExecutablePathSpec(Str("go"), h) == Ok(FoundExe("/usr/bin/go", "/bin/bash"))
  {
    var fs := FileSystem({"/usr/bin/go"}, {"/usr/bin/go"}, {"/usr/bin/go"});
    assert Candidate("/bin", "go", Linux) == "/bin/go";
    assert Candidate("/usr/bin", "go", Linux) == "/usr/bin/go";
    assert "/bin/go" != "/usr/bin/go";
    assert "go" + ExeSuffix(Linux) == "go";
    assert MostSpecific("PATH", [], Linux) == NotFound;
    FirstFromIndex(["/bin", "/usr/bin"], "go", Linux, fs, 1);
  }
}
