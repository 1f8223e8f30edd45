/**
 * `subprocess_info`: locate the executable, start from the login shell's
 * environment, overwrite or delete each required and then each optional
 * variable according to `setting_value`, insist that every required
 * variable ends up set, and warn (without failing) when the executable is
 * not the one under GOROOT.
 */
module Subprocess {
  import opened Values
  import opened Lookup
  import opened PyStr
  import opened SettingValues
  import opened Executables

  /** The executable path and the environment map for `subprocess.Popen`,
      with the warning printed when the binary lies outside GOROOT. */
  datatype Descriptor = Descriptor(path: string, env: map<string, string>, advisory: Option<string>)

  // ---------------------------------------------------------------------------
  // The environment update

  /** One variable of the loop: the key is set to `str(value)`, or deleted
      when the value is `None`. */
  function StepVar(env: map<string, string>, name: Value, h: Host): Result<map<string, string>>
  {
    match SettingValueSpec(name, h)
    case Err(e) => Err(e)
    case Ok(st) =>
      if st.value == Null then Ok(env - {name.s}) else Ok(env[name.s := Stringify(st.value)])
  }

  /** The variables processed in order, stopping at the first error. */
  function ApplyVars(env: map<string, string>, names: seq<Value>, h: Host): Result<map<string, string>>
    decreases |names|
  {
    if |names| == 0 then Ok(env)
    else
      match ApplyVars(env, names[..|names| - 1], h)
      case Err(e) => Err(e)
      case Ok(env') => StepVar(env', names[|names| - 1], h)
  }

  function ApplyVarsFrom(r: Result<map<string, string>>, names: seq<Value>, h: Host): Result<map<string, string>>
  {
    match r
    case Err(e) => Err(e)
    case Ok(env) => ApplyVars(env, names, h)
  }

  /** Processing `a + b` is processing `a`, then `b` from where `a` left off. */
  lemma {:induction false} ApplyVarsConcat(env: map<string, string>, a: seq<Value>, b: seq<Value>, h: Host)
    ensures ApplyVars(env, a + b, h) == ApplyVarsFrom(ApplyVars(env, a, h), b, h)
    decreases |b|
  {
    if |b| == 0 {
      assert a + b == a;
    } else {
      var b' := b[..|b| - 1];
      ApplyVarsConcat(env, a, b', h);
      assert (a + b)[..|a + b| - 1] == a + b';
      assert (a + b)[|a + b| - 1] == b[|b| - 1];
    }
  }

  /** The variable groups of the source: the required names, then the
      optional ones when there are any. */
  function VarGroups(required: seq<Value>, optional: seq<Value>): seq<seq<Value>>
  {
    if |optional| > 0 then [required, optional] else [required]
  }

  function Flatten(groups: seq<seq<Value>>): seq<Value>
    decreases |groups|
  {
    if |groups| == 0 then [] else Flatten(groups[..|groups| - 1]) + groups[|groups| - 1]
  }

  lemma {:induction false} FlattenConcat(a: seq<seq<Value>>, b: seq<seq<Value>>)
    ensures Flatten(a + b) == Flatten(a) + Flatten(b)
    decreases |b|
  {
    if |b| == 0 {
      assert a + b == a;
    } else {
      var b' := b[..|b| - 1];
      FlattenConcat(a, b');
      assert (a + b)[..|a + b| - 1] == a + b';
      assert (a + b)[|a + b| - 1] == b[|b| - 1];
    }
  }

  /** Required variables are processed before optional ones. */
  lemma VarGroupsOrder(required: seq<Value>, optional: seq<Value>)
    ensures Flatten(VarGroups(required, optional)) == required + optional
  {
    assert Flatten([required]) == Flatten([]) + required;
    if |optional| > 0 {
      assert [required, optional][..1] == [required];
    } else {
      assert required + optional == required;
    }
  }

  /** The effect a resolved setting has on the key it names. */
  predicate Effect(env: map<string, string>, key: string, st: Setting)
  {
    if st.value == Null then key !in env else key in env && env[key] == Stringify(st.value)
  }

  /** After a successful update, every named key is in the state its
      resolution asks for: deleted for `None`, else `str(value)`. */
  lemma {:induction false} ApplyVarsEffect(env: map<string, string>, names: seq<Value>, h: Host)
    ensures ApplyVars(env, names, h).Ok? ==>
              forall i :: 0 <= i < |names| ==>
                names[i].Str? && SettingValueSpec(names[i], h).Ok? &&
                Effect(ApplyVars(env, names, h).value, names[i].s, SettingValueSpec(names[i], h).value)
    decreases |names|
  {
    if |names| > 0 && ApplyVars(env, names, h).Ok? {
      var init := names[..|names| - 1];
      var last := names[|names| - 1];
      ApplyVarsEffect(env, init, h);
      var e := ApplyVars(env, names, h).value;
      forall i | 0 <= i < |names|
        ensures names[i].Str? && SettingValueSpec(names[i], h).Ok? &&
                Effect(e, names[i].s, SettingValueSpec(names[i], h).value)
      {
        if i < |names| - 1 {
          assert names[i] == init[i];
          if names[i] == last {
          } else {
            assert names[i].s != last.s;
          }
        }
      }
    }
  }

  /** Keys no variable names keep their inherited state. */
  lemma {:induction false} ApplyVarsFrame(env: map<string, string>, names: seq<Value>, h: Host, key: string)
    requires Str(key) !in names
    ensures ApplyVars(env, names, h).Ok? ==>
              (key in ApplyVars(env, names, h).value <==> key in env) &&
              (key in env ==> ApplyVars(env, names, h).value[key] == env[key])
    decreases |names|
  {
    if |names| > 0 {
      var init := names[..|names| - 1];
      assert Str(key) !in init by {
        forall i | 0 <= i < |init| ensures init[i] != Str(key) { assert init[i] == names[i]; }
      }
      ApplyVarsFrame(env, init, h, key);
    }
  }

  /** Variable `i` is the first whose resolution fails. */
  predicate FirstFailure(names: seq<Value>, h: Host, i: int)
  {
    0 <= i < |names| && SettingValueSpec(names[i], h).Err? &&
    forall j :: 0 <= j < i ==> SettingValueSpec(names[j], h).Ok?
  }

  /** The update fails exactly when some variable's resolution fails, and
      then with the error of the first such variable; no map is returned. */
  lemma ApplyVarsFailsAtFirst(env: map<string, string>, names: seq<Value>, h: Host)
    ensures ApplyVars(env, names, h).Err? <==>
              exists i :: 0 <= i < |names| && SettingValueSpec(names[i], h).Err?
    ensures forall i :: FirstFailure(names, h, i) ==>
              ApplyVars(env, names, h) == Err(SettingValueSpec(names[i], h).error)
  {
    ApplyVarsFails(env, names, h);
    forall i | FirstFailure(names, h, i)
      ensures ApplyVars(env, names, h) == Err(SettingValueSpec(names[i], h).error)
    {
      ApplyVarsFirstError(env, names, h, i);
    }
  }

  lemma {:induction false} ApplyVarsFails(env: map<string, string>, names: seq<Value>, h: Host)
    ensures ApplyVars(env, names, h).Err? <==>
              exists i :: 0 <= i < |names| && SettingValueSpec(names[i], h).Err?
    decreases |names|
  {
    if |names| > 0 {
      var n := |names|;
      var init := names[..n - 1];
      ApplyVarsFails(env, init, h);
      assert forall j :: 0 <= j < n - 1 ==> init[j] == names[j];
      if ApplyVars(env, init, h).Err? {
        var k :| 0 <= k < |init| && SettingValueSpec(init[k], h).Err?;
        assert SettingValueSpec(names[k], h).Err?;
      }
    }
  }

  lemma {:induction false} ApplyVarsFirstError(env: map<string, string>, names: seq<Value>, h: Host, i: int)
    requires FirstFailure(names, h, i)
    ensures ApplyVars(env, names, h) == Err(SettingValueSpec(names[i], h).error)
    decreases |names|
  {
    var n := |names|;
    var init := names[..n - 1];
    assert forall j :: 0 <= j < n - 1 ==> init[j] == names[j];
    if i < n - 1 {
      assert FirstFailure(init, h, i);
      ApplyVarsFirstError(env, init, h, i);
    } else {
      ApplyVarsFails(env, init, h);
      assert forall j :: 0 <= j < n - 1 ==> SettingValueSpec(init[j], h).Ok?;
    }
  }

  // ---------------------------------------------------------------------------
  // The required-variable check

  /** The required variables absent from `env`, in their order. */
  function MissingRequired(required: seq<Value>, env: map<string, string>): seq<string>
    decreases |required|
  {
    if |required| == 0 then []
    else
      var last := required[|required| - 1];
      MissingRequired(required[..|required| - 1], env) +
        (if last.Str? && last.s !in env then [last.s] else [])
  }

  lemma {:induction false} MissingRequiredMembers(required: seq<Value>, env: map<string, string>)
    ensures forall x :: x in MissingRequired(required, env) <==> Str(x) in required && x !in env
    decreases |required|
  {
    if |required| > 0 {
      var init := required[..|required| - 1];
      MissingRequiredMembers(init, env);
      assert required == init + [required[|required| - 1]];
    }
  }

  /** The loop that collects the required variables missing from the final map. */
  method CollectMissingRequired(required: seq<Value>, env: map<string, string>) returns (missing: seq<string>)
    ensures missing == MissingRequired(required, env)
  {
    missing := [];
    var i := 0;
    while i < |required|
      invariant 0 <= i <= |required|
      invariant missing == MissingRequired(required[..i], env)
    {
      assert required[..i + 1][..i] == required[..i];
      if required[i].Str? && required[i].s !in env {
        missing := missing + [required[i].s];
      }
      i := i + 1;
    }
    assert required[..i] == required;
  }

  function EnvVarMessage(missing: seq<string>): string
  {
    "The following environment variable" + (if |missing| > 1 then "s are" else " is") +
    " currently unset: " + Join(missing, ", ")
  }

  // ---------------------------------------------------------------------------
  // The directories reported when the executable is not found

  /** The PATH setting's directories as `subprocess_info` lists them: only a
      non-empty string is split. */
  function SettingsPathDirs(setting: Lookup, p: Platform): seq<string>
  {
    if setting.Found? && setting.value.Str? && setting.value.s != "" then Split(setting.value.s, PathSep(p))
    else []
  }

  /** The same list as the source computes it: any truthy PATH setting has
      `.split` called on it, which fails for a value that is not a string. */
  function SettingsPathDirsAsWritten(setting: Lookup, p: Platform): Result<seq<string>>
  {
    if setting.Found? && Truthy(setting.value) && setting.value != Str(NoValue) then
      if setting.value.Str? then Ok(Split(setting.value.s, PathSep(p))) else Err(AttributeError)
    else Ok([])
  }

  /** The two agree on every string setting; they part only on a truthy
      setting that is not a string. */
  lemma SettingsPathDirsAgree(setting: Lookup, p: Platform)
    requires setting.Found? ==> setting.value.Str? || !Truthy(setting.value)
    requires setting.Found? ==> setting.value != Str(NoValue)
    ensures SettingsPathDirsAsWritten(setting, p) == Ok(SettingsPathDirs(setting, p))
  {
  }

  /** Any truthy PATH setting that is not a string: the source raises
      AttributeError where the corrected list reports no settings directory. */
  lemma NonStringPathFails(setting: Lookup, p: Platform)
    requires setting.Found? && !setting.value.Str? && Truthy(setting.value)
    ensures SettingsPathDirsAsWritten(setting, p) == Err(AttributeError)
    ensures SettingsPathDirs(setting, p) == []
  {
  }

  /** A project PATH of `1` with a missing executable: the source raises
      AttributeError where the corrected list reports no settings directory. */
  lemma NonStringPathCrashes()
    ensures var scopes := [Scope(map["PATH" := Other("1", true)], "project file")];
            var setting := MostSpecific("PATH", scopes, Linux);
            setting == Found(Other("1", true), "project file") &&
            SettingsPathDirsAsWritten(setting, Linux) == Err(AttributeError) &&
            SettingsPathDirs(setting, Linux) == []
  {
  }

  /** The shell directories not yet listed, appended in order. */
  function AppendNew(dirs: seq<string>, shellDirs: seq<string>): seq<string>
    decreases |shellDirs|
  {
    if |shellDirs| == 0 then dirs
    else
      var d := AppendNew(dirs, shellDirs[..|shellDirs| - 1]);
      var last := shellDirs[|shellDirs| - 1];
      if last in d then d else d + [last]
  }

  /** The reported list starts with the settings directories unchanged,
      holds every shell directory, holds nothing else, and adds each shell
      directory at most once and only when not already listed. */
  lemma {:induction false} AppendNewProperties(dirs: seq<string>, shellDirs: seq<string>)
    ensures var r := AppendNew(dirs, shellDirs);
            && |dirs| <= |r|
            && r[..|dirs|] == dirs
            && (forall d :: d in shellDirs ==> d in r)
            && (forall d :: d in r ==> d in dirs || d in shellDirs)
            && (forall i :: |dirs| <= i < |r| ==> r[i] !in dirs)
            && (forall i, j :: |dirs| <= i < j < |r| ==> r[i] != r[j])
            && (forall i, j :: |dirs| <= i < j < |r| ==>
                  r[i] in shellDirs && r[j] in shellDirs && IndexOf(shellDirs, r[i]) < IndexOf(shellDirs, r[j]))
    decreases |shellDirs|
  {
    if |shellDirs| > 0 {
      var init := shellDirs[..|shellDirs| - 1];
      AppendNewProperties(dirs, init);
      assert shellDirs == init + [shellDirs[|shellDirs| - 1]];
      var d := AppendNew(dirs, init);
      var last := shellDirs[|shellDirs| - 1];
      forall y | y in init ensures IndexOf(shellDirs, y) == IndexOf(init, y) {
        IndexOfSnoc(init, last, y);
      }
      if last !in d {
        var r := d + [last];
        assert r[..|dirs|] == d[..|dirs|];
        assert forall i :: 0 <= i < |d| ==> r[i] == d[i];
        assert forall k :: 0 <= k < |dirs| ==> dirs[k] == d[k];
        assert last !in init;
        IndexOfUnique(shellDirs, last, |init|);
        forall i | |dirs| <= i < |d| ensures d[i] in init && IndexOf(shellDirs, d[i]) < |init| {
          assert d[i] in d;
        }
      }
    }
  }

  /** The position of the first occurrence of `x` in `s`. */
  function IndexOf(s: seq<string>, x: string): (k: nat)
    requires x in s
    ensures k < |s| && s[k] == x && x !in s[..k]
    decreases |s|
  {
    if s[0] == x then 0
    else
      var k := IndexOf(s[1..], x);
      assert s[..k + 1] == [s[0]] + s[1..][..k];
      k + 1
  }

  /** A position holding `x` with no earlier `x` is the first occurrence. */
  lemma IndexOfUnique(s: seq<string>, x: string, k: int)
    requires 0 <= k < |s| && s[k] == x && x !in s[..k]
    ensures IndexOf(s, x) == k
  {
    var m := IndexOf(s, x);
    assert forall j :: 0 <= j < k ==> s[..k][j] == s[j];
    assert forall j :: 0 <= j < m ==> s[..m][j] == s[j];
  }

  /** Appending to a sequence leaves the first occurrence of an element already in it unchanged. */
  lemma IndexOfSnoc(s: seq<string>, x: string, y: string)
    requires y in s
    ensures IndexOf(s + [x], y) == IndexOf(s, y)
  {
    var m := IndexOf(s, y);
    assert (s + [x])[..m] == s[..m];
    IndexOfUnique(s + [x], y, m);
  }

  /** The loop that appends the shell directories not already listed. */
  method AppendShellDirs(dirs: seq<string>, shellDirs: seq<string>) returns (r: seq<string>)
    ensures r == AppendNew(dirs, shellDirs)
  {
    r := dirs;
    var i := 0;
    while i < |shellDirs|
      invariant 0 <= i <= |shellDirs|
      invariant r == AppendNew(dirs, shellDirs[..i])
    {
      assert shellDirs[..i + 1][..i] == shellDirs[..i];
      if shellDirs[i] !in r {
        r := r + [shellDirs[i]];
      }
      i := i + 1;
    }
    assert shellDirs[..i] == shellDirs;
  }

  function ExecutableMessage(name: string, dirs: seq<string>): string
  {
    "The executable \"" + name + "\" could not be located in any of the following locations: \"" +
    Join(dirs, "\", \"") + "\""
  }

  // ---------------------------------------------------------------------------
  // The GOROOT advisory and the whole call

  /** The warning printed when GOROOT is set and the literal
      `GOROOT/bin/name` differs from the path found; it never fails the call. */
  function Advisory(name: string, path: string, env: map<string, string>, p: Platform): Option<string>
  {
    if "GOROOT" in env then
      var expected := PathJoin(env["GOROOT"], "bin" + [DirSep(p)] + name + ExeSuffix(p), DirSep(p));
      if expected != path then
        Some("golangconfig: warning - binary " + name + " was found at \"" + path +
             "\", which is not inside of the GOROOT \"" + env["GOROOT"] + "\"")
      else None
    else None
  }

  /** `subprocess_info` as a function of its arguments and the host. The
      directories of ExecutableError use the corrected `SettingsPathDirs`;
      where the source would raise AttributeError on a truthy PATH setting
      that is not a string, this reports ExecutableError
      (see `SettingsPathDirsAsWritten`). */
  function SubprocessInfoSpec(executableName: Value, required: seq<Value>, optional: seq<Value>, h: Host)
    : (r: Result<Descriptor>)
    ensures !executableName.Str? ==> r == Err(TypeError("executable_name"))
  {
    match ExecutablePathSpec(executableName, h)
    case Err(e) => Err(e)
    case Ok(NoExecutable) =>
      var name := executableName.s + ExeSuffix(h.platform);
      var dirs := AppendNew(SettingsPathDirs(MostSpecific("PATH", h.scopes, h.platform), h.platform), h.shell.path);
      Err(ExecutableNotFound(name, dirs, ExecutableMessage(name, dirs)))
    case Ok(FoundExe(path, _)) =>
      match ApplyVars(h.shell.env, Flatten(VarGroups(required, optional)), h)
      case Err(e) => Err(e)
      case Ok(env) =>
        var missing := MissingRequired(required, env);
        if |missing| > 0 then
          var sorted := SortByLower(missing);
          Err(EnvVarMissing(sorted, EnvVarMessage(sorted)))
        else Ok(Descriptor(path, env, Advisory(executableName.s, path, env, h.platform)))
  }

  /** One more variable: the update so far, then one step. */
  lemma ApplyVarsSnoc(env: map<string, string>, names: seq<Value>, x: Value, h: Host)
    ensures ApplyVars(env, names + [x], h) ==
              match ApplyVars(env, names, h)
              case Err(e) => Err(e)
              case Ok(env') => StepVar(env', x, h)
  {
  }

  /** Once a group fails, the later groups cannot change the outcome. */
  lemma ErrorStopsGroups(env: map<string, string>, groups: seq<seq<Value>>, g: int, h: Host)
    requires 0 <= g < |groups|
    requires ApplyVars(env, Flatten(groups[..g + 1]), h).Err?
    ensures ApplyVars(env, Flatten(groups), h) == ApplyVars(env, Flatten(groups[..g + 1]), h)
  {
    FlattenConcat(groups[..g + 1], groups[g + 1..]);
    assert groups[..g + 1] + groups[g + 1..] == groups;
    ApplyVarsConcat(env, Flatten(groups[..g + 1]), Flatten(groups[g + 1..]), h);
  }

  /** Processing the variable at position `i` of a group is one step on the map so far. */
  lemma GroupStep(env0: map<string, string>, done: seq<Value>, names: seq<Value>, i: int,
                  cur: map<string, string>, h: Host)
    requires 0 <= i < |names|
    requires ApplyVars(env0, done + names[..i], h) == Ok(cur)
    ensures ApplyVars(env0, done + names[..i + 1], h) == StepVar(cur, names[i], h)
  {
    ApplyVarsSnoc(env0, done + names[..i], names[i], h);
    assert done + names[..i + 1] == (done + names[..i]) + [names[i]];
  }

  /** Once the variable at position `i` of a group fails, the rest of the group changes nothing. */
  lemma GroupStop(env0: map<string, string>, done: seq<Value>, names: seq<Value>, i: int, h: Host)
    requires 0 <= i < |names|
    requires ApplyVars(env0, done + names[..i + 1], h).Err?
    ensures ApplyVars(env0, done + names, h) == ApplyVars(env0, done + names[..i + 1], h)
  {
    ApplyVarsConcat(env0, done + names[..i + 1], names[i + 1..], h);
    assert done + names == (done + names[..i + 1]) + names[i + 1..];
  }

  /** The inner loop of `subprocess_info` over one group of variable names:
      each key is set or deleted in place, and the first failing variable
      aborts. `done` are the names already processed into `env`. */
  method ApplyGroup(env0: map<string, string>, ghost done: seq<Value>, env: map<string, string>,
                    names: seq<Value>, h: Host)
    returns (r: Result<map<string, string>>)
    requires ApplyVars(env0, done, h) == Ok(env)
    ensures r == ApplyVars(env0, done + names, h)
  {
    var cur := env;
    var i := 0;
    assert done + names[..0] == done;
    while i < |names|
      invariant 0 <= i <= |names|
      invariant ApplyVars(env0, done + names[..i], h) == Ok(cur)
    {
      GroupStep(env0, done, names, i, cur, h);
      var st := SettingValue(names[i], h);
      if st.Err? {
        GroupStop(env0, done, names, i, h);
        return Err(st.error);
      }
      var key := names[i].s;
      if st.value.value == Null {
        cur := cur - {key};
      } else {
        cur := cur[key := Stringify(st.value.value)];
      }
      i := i + 1;
    }
    assert names[..i] == names;
    return Ok(cur);
  }

  /** The outer loop of `subprocess_info` over the variable groups. */
  method ApplyVarGroups(env0: map<string, string>, groups: seq<seq<Value>>, h: Host)
    returns (r: Result<map<string, string>>)
    ensures r == ApplyVars(env0, Flatten(groups), h)
  {
    var env := env0;
    var g := 0;
    while g < |groups|
      invariant 0 <= g <= |groups|
      invariant ApplyVars(env0, Flatten(groups[..g]), h) == Ok(env)
    {
      assert groups[..g + 1][..g] == groups[..g];
      assert Flatten(groups[..g + 1]) == Flatten(groups[..g]) + groups[g];
      var applied := ApplyGroup(env0, Flatten(groups[..g]), env, groups[g], h);
      if applied.Err? {
        ErrorStopsGroups(env0, groups, g, h);
        return applied;
      }
      env := applied.value;
      g := g + 1;
    }
    assert groups[..g] == groups;
    return Ok(env);
  }

  /** `subprocess_info`, step by step as the source runs it, with the
      corrected `SettingsPathDirs` in place of the `.split` that fails on a
      truthy PATH setting that is not a string. */
  method SubprocessInfo(executableName: Value, required: seq<Value>, optional: seq<Value>, h: Host)
    returns (r: Result<Descriptor>)
    ensures r == SubprocessInfoSpec(executableName, required, optional, h)
  {
    var found := ExecutablePath(executableName, h);
    if found.Err? {
      return Err(found.error);
    }
    if found.value.NoExecutable? {
      var name := executableName.s + ExeSuffix(h.platform);
      var settingsPath := MostSpecific("PATH", h.scopes, h.platform);
      var dirs := AppendShellDirs(SettingsPathDirs(settingsPath, h.platform), h.shell.path);
      return Err(ExecutableNotFound(name, dirs, ExecutableMessage(name, dirs)));
    }
    var path := found.value.path;
    var applied := ApplyVarGroups(h.shell.env, VarGroups(required, optional), h);
    if applied.Err? {
      return Err(applied.error);
    }
    var env := applied.value;
    var missing := CollectMissingRequired(required, env);
    if |missing| > 0 {
      var sorted := SortByLower(missing);
      return Err(EnvVarMissing(sorted, EnvVarMessage(sorted)));
    }
    return Ok(Descriptor(path, env, Advisory(executableName.s, path, env, h.platform)));
  }

  // ---------------------------------------------------------------------------
  // Properties of the whole call

  /** The call succeeds exactly when the executable is found, every
      variable resolves, and every required variable is then set; the
      GOROOT advisory plays no part. On success the path is the one found
      and the map is the shell's environment updated in order. */
  lemma SubprocessInfoOutcome(executableName: Value, required: seq<Value>, optional: seq<Value>, h: Host)
    ensures var r := SubprocessInfoSpec(executableName, required, optional, h);
            var exe := ExecutablePathSpec(executableName, h);
            var applied := ApplyVars(h.shell.env, required + optional, h);
            && (r.Ok? <==>
                  exe.Ok? && exe.value.FoundExe? && applied.Ok? &&
                  forall v :: v in required ==> v.Str? && v.s in applied.value)
            && (r.Ok? ==> r.value.path == exe.value.path && r.value.env == applied.value)
  {
    VarGroupsOrder(required, optional);
    var exe := ExecutablePathSpec(executableName, h);
    var applied := ApplyVars(h.shell.env, required + optional, h);
    if exe.Ok? && exe.value.FoundExe? && applied.Ok? {
      ApplyVarsEffect(h.shell.env, required + optional, h);
      MissingRequiredMembers(required, applied.value);
      assert forall v :: v in required ==> v in required + optional;
      var missing := MissingRequired(required, applied.value);
      if |missing| > 0 {
        assert missing[0] in missing;
      }
    }
  }

  /** Each variable's key ends up as its resolution says: `str(value)` when
      the value is not `None`, deleted when it is (an explicit null in a
      closer scope removes an inherited value); every other key of the
      shell environment is untouched. */
  lemma SubprocessInfoEnv(executableName: Value, required: seq<Value>, optional: seq<Value>, h: Host)
    requires SubprocessInfoSpec(executableName, required, optional, h).Ok?
    ensures var env := SubprocessInfoSpec(executableName, required, optional, h).value.env;
            && (forall v :: v in required + optional ==>
                  v.Str? && SettingValueSpec(v, h).Ok? && Effect(env, v.s, SettingValueSpec(v, h).value))
            && (forall k :: Str(k) !in required + optional ==>
                  (k in env <==> k in h.shell.env) && (k in env ==> env[k] == h.shell.env[k]))
  {
    SubprocessInfoOutcome(executableName, required, optional, h);
    ApplyVarsEffect(h.shell.env, required + optional, h);
    forall k | Str(k) !in required + optional
      ensures var env := SubprocessInfoSpec(executableName, required, optional, h).value.env;
              (k in env <==> k in h.shell.env) && (k in env ==> env[k] == h.shell.env[k])
    {
      ApplyVarsFrame(h.shell.env, required + optional, h, k);
    }
  }

  /** EnvVarError lists exactly the required variables absent from the
      updated map, sorted case-insensitively, and its message says "is" for
      one and "s are" for several. */
  lemma EnvVarErrorReport(executableName: Value, required: seq<Value>, optional: seq<Value>, h: Host)
    requires SubprocessInfoSpec(executableName, required, optional, h).Err?
    requires SubprocessInfoSpec(executableName, required, optional, h).error.EnvVarMissing?
    ensures var err := SubprocessInfoSpec(executableName, required, optional, h).error;
            var applied := ApplyVars(h.shell.env, required + optional, h);
            && applied.Ok?
            && |err.missing| > 0
            && SortedByLower(err.missing)
            && multiset(err.missing) == multiset(MissingRequired(required, applied.value))
            && (forall x :: x in err.missing <==> Str(x) in required && x !in applied.value)
            && err.message == EnvVarMessage(err.missing)
  {
    VarGroupsOrder(required, optional);
    var applied := ApplyVars(h.shell.env, required + optional, h);
    ApplyVarsErrorKinds(h.shell.env, required + optional, h);
    assert applied.Ok?;
    MissingRequiredMembers(required, applied.value);
    var err := SubprocessInfoSpec(executableName, required, optional, h).error;
    var m := MissingRequired(required, applied.value);
    forall x ensures x in err.missing <==> x in m {
      assert x in err.missing <==> x in multiset(err.missing);
      assert x in m <==> x in multiset(m);
    }
  }

  /** ExecutableError is raised exactly when no candidate passes. It carries
      the suffixed name, and the settings directories followed by each shell
      directory not already listed, once, in shell PATH order. The settings
      directories are those of the corrected `SettingsPathDirs`: for a truthy
      PATH setting that is not a string the source raises AttributeError
      instead (see `SettingsPathDirsAsWritten`). */
  lemma ExecutableErrorReport(executableName: Value, required: seq<Value>, optional: seq<Value>, h: Host)
    requires executableName.Str?
    ensures var r := SubprocessInfoSpec(executableName, required, optional, h);
            var settingsDirs := SettingsPathDirs(MostSpecific("PATH", h.scopes, h.platform), h.platform);
            && ((r.Err? && r.error.ExecutableNotFound?) <==> ExecutablePathSpec(executableName, h) == Ok(NoExecutable))
            && (r.Err? && r.error.ExecutableNotFound? ==>
                  && r.error.name == executableName.s + ExeSuffix(h.platform)
                  && |settingsDirs| <= |r.error.dirs|
                  && r.error.dirs[..|settingsDirs|] == settingsDirs
                  && (forall d :: d in h.shell.path ==> d in r.error.dirs)
                  && (forall d :: d in r.error.dirs ==> d in settingsDirs || d in h.shell.path)
                  && (forall i :: |settingsDirs| <= i < |r.error.dirs| ==> r.error.dirs[i] !in settingsDirs)
                  && (forall i, j :: |settingsDirs| <= i < j < |r.error.dirs| ==>
                        r.error.dirs[i] != r.error.dirs[j] &&
                        r.error.dirs[i] in h.shell.path && r.error.dirs[j] in h.shell.path &&
                        IndexOf(h.shell.path, r.error.dirs[i]) < IndexOf(h.shell.path, r.error.dirs[j])))
  {
    var settingsDirs := SettingsPathDirs(MostSpecific("PATH", h.scopes, h.platform), h.platform);
    AppendNewProperties(settingsDirs, h.shell.path);
    var exe := ExecutablePathSpec(executableName, h);
    if exe.Ok? && exe.value.FoundExe? {
      VarGroupsOrder(required, optional);
      var applied := ApplyVars(h.shell.env, required + optional, h);
      ApplyVarsErrorKinds(h.shell.env, required + optional, h);
    }
  }

  /** The errors `setting_value` can raise. */
  predicate SettingError(e: Error)
  {
    e.TypeError? || e.GoRootNotFound? || e.GoPathNotFound?
  }

  lemma SettingErrorKinds(name: Value, h: Host)
    ensures SettingValueSpec(name, h).Err? ==> SettingError(SettingValueSpec(name, h).error)
  {
  }

  /** A failed update fails with one of `setting_value`'s own errors. */
  lemma {:induction false} ApplyVarsErrorKinds(env: map<string, string>, names: seq<Value>, h: Host)
    ensures ApplyVars(env, names, h).Err? ==> SettingError(ApplyVars(env, names, h).error)
    decreases |names|
  {
    if |names| > 0 {
      ApplyVarsErrorKinds(env, names[..|names| - 1], h);
      SettingErrorKinds(names[|names| - 1], h);
    }
  }

  /** Required variables come first: when the executable is found and some
      required variable fails to resolve, the call fails with the error of
      the first failing required variable, whatever the optional ones do. */
  lemma RequiredErrorsFirst(executableName: Value, required: seq<Value>, optional: seq<Value>, h: Host, i: int)
    requires ExecutablePathSpec(executableName, h).Ok? && ExecutablePathSpec(executableName, h).value.FoundExe?
    requires FirstFailure(required, h, i)
    ensures SubprocessInfoSpec(executableName, required, optional, h) == Err(SettingValueSpec(required[i], h).error)
  {
    VarGroupsOrder(required, optional);
    ApplyVarsFailsAtFirst(h.shell.env, required, h);
    ApplyVarsConcat(h.shell.env, required, optional, h);
  }

  /** The advisory never fails the call: once the executable is found, every
      variable resolves and every required one is set, the call returns the
      path and the updated map, and it carries the warning exactly when
      GOROOT is set and the literal `GOROOT/bin/name` differs from the path
      found. The warning names the unsuffixed name, the path and GOROOT. */
  lemma AdvisoryOnlyWarns(executableName: Value, required: seq<Value>, optional: seq<Value>, h: Host)
    requires executableName.Str?
    requires ExecutablePathSpec(executableName, h).Ok? && ExecutablePathSpec(executableName, h).value.FoundExe?
    requires ApplyVars(h.shell.env, required + optional, h).Ok?
    requires forall v :: v in required ==> v.Str? && v.s in ApplyVars(h.shell.env, required + optional, h).value
    ensures var r := SubprocessInfoSpec(executableName, required, optional, h);
            var path := ExecutablePathSpec(executableName, h).value.path;
            var env := ApplyVars(h.shell.env, required + optional, h).value;
            var suffixed := executableName.s + ExeSuffix(h.platform);
            && r.Ok? && r.value.path == path && r.value.env == env
            && (r.value.advisory.Some? <==>
                  "GOROOT" in env &&
                  PathJoin(env["GOROOT"], "bin" + [DirSep(h.platform)] + suffixed, DirSep(h.platform)) != path)
            && (r.value.advisory.Some? ==>
                  r.value.advisory.value ==
                    "golangconfig: warning - binary " + executableName.s + " was found at \"" + path +
                    "\", which is not inside of the GOROOT \"" + env["GOROOT"] + "\"")
  {
    SubprocessInfoOutcome(executableName, required, optional, h);
    assert "bin" + [DirSep(h.platform)] + executableName.s + ExeSuffix(h.platform) ==
           "bin" + [DirSep(h.platform)] + (executableName.s + ExeSuffix(h.platform));
  }

  /** Required GOPATH and GOROOT, GOPATH resolving to a value and GOROOT set
      nowhere: the unset GOROOT resolves to `(None, None)` with no disk check,
      so the call raises EnvVarError naming GOROOT, not GoRootNotFoundError. */
  lemma UnsetGoRootIsEnvVarError(executableName: Value, h: Host)
    requires ExecutablePathSpec(executableName, h).Ok? && ExecutablePathSpec(executableName, h).value.FoundExe?
    requires SettingValueSpec(Str("GOPATH"), h).Ok? && SettingValueSpec(Str("GOPATH"), h).value.value != Null
    requires MostSpecific("GOROOT", h.scopes, h.platform) == NotFound && "GOROOT" !in h.shell.env
    ensures SubprocessInfoSpec(executableName, [Str("GOPATH"), Str("GOROOT")], [], h) ==
              Err(EnvVarMissing(["GOROOT"], EnvVarMessage(["GOROOT"])))
  {
    var required := [Str("GOPATH"), Str("GOROOT")];
    NotFoundAnywhere("GOROOT", h);
    VarGroupsOrder(required, []);
    assert required + [] == required;
    ApplyVarsSnoc(h.shell.env, [Str("GOPATH")], Str("GOROOT"), h);
    ApplyVarsSnoc(h.shell.env, [], Str("GOPATH"), h);
    assert [Str("GOPATH")] + [Str("GOROOT")] == required;
    assert [] + [Str("GOPATH")] == [Str("GOPATH")];
    var env := ApplyVars(h.shell.env, required, h).value;
    assert "GOPATH" in env && "GOROOT" !in env;
    assert required[..1] == [Str("GOPATH")];
    assert required[..1][..0] == [];
    assert MissingRequired(required, env) == ["GOROOT"];
    assert SortByLower(["GOROOT"]) == ["GOROOT"];
  }
}
