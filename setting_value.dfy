/**
 * `setting_value`: the layered lookup, then the login-shell environment as
 * a fallback, then an existence check on disk for the two well-known names
 * GOROOT (one directory) and GOPATH (a list of directories).
 */
module SettingValues {
  import opened Values
  import opened Lookup
  import opened PyStr

  /** What `setting_value` returns: the value (`Null` for Python's `None`) and
      its source, which is `None` only when nothing was found anywhere. */
  datatype Setting = Setting(value: Value, source: Option<string>)

  /** The entries of `values` that do not exist on disk, in their order. */
  function Missing(values: seq<string>, fs: FileSystem): seq<string>
    decreases |values|
  {
    if |values| == 0 then []
    else
      var last := values[|values| - 1];
      Missing(values[..|values| - 1], fs) + (if last in fs.existing then [] else [last])
  }

  /** Exactly the entries that do not exist are reported. */
  lemma {:induction false} MissingMembers(values: seq<string>, fs: FileSystem)
    ensures forall x :: x in Missing(values, fs) <==> x in values && x !in fs.existing
    decreases |values|
  {
    if |values| > 0 {
      var init := values[..|values| - 1];
      MissingMembers(init, fs);
      assert values == init + [values[|values| - 1]];
    }
  }

  /** Missing entries keep their original order: the filter distributes over concatenation. */
  lemma {:induction false} MissingConcat(a: seq<string>, b: seq<string>, fs: FileSystem)
    ensures Missing(a + b, fs) == Missing(a, fs) + Missing(b, fs)
    decreases |b|
  {
    if |b| == 0 {
      assert a + b == a;
    } else {
      var b' := b[..|b| - 1];
      MissingConcat(a, b', fs);
      assert (a + b)[..|a + b| - 1] == a + b';
      assert (a + b)[|a + b| - 1] == b[|b| - 1];
    }
  }

  /** The loop of `setting_value` that collects the GOPATH entries missing on disk. */
  method CollectMissing(values: seq<string>, fs: FileSystem) returns (missing: seq<string>)
    ensures missing == Missing(values, fs)
  {
    missing := [];
    var i := 0;
    while i < |values|
      invariant 0 <= i <= |values|
      invariant missing == Missing(values[..i], fs)
    {
      assert values[..i + 1][..i] == values[..i];
      if values[i] !in fs.existing {
        missing := missing + [values[i]];
      }
      i := i + 1;
    }
    assert values[..i] == values;
  }

  function GoRootMessage(directory: string): string
  {
    "The GOROOT environment variable value \"" + directory + "\" does not exist on the filesystem"
  }

  function Quoted(paths: seq<string>): seq<string>
  {
    seq(|paths|, i requires 0 <= i < |paths| => "\"" + paths[i] + "\"")
  }

  /** The GOPATH message, chosen three ways: a single value, one missing
      entry of several, or a count of missing entries. */
  function GoPathMessage(hasMultiple: bool, missing: seq<string>): string
    requires |missing| > 0
  {
    var suffix :=
      if !hasMultiple then "value \"" + missing[0] + "\" does not exist on the filesystem"
      else if |missing| == 1 then "contains the directory \"" + missing[0] + "\" that does not exist on the filesystem"
      else "contains " + NatToString(|missing|) + " directories that do not exist on the filesystem: " + Join(Quoted(missing), ", ");
    "The GOPATH environment variable " + suffix
  }

  /** The lookup with the shell environment as fallback, before validation. */
  function BaseSetting(name: string, h: Host): Setting
  {
    match MostSpecific(name, h.scopes, h.platform)
    case Found(v, source) => Setting(v, Some(source))
    case NotFound =>
      if name in h.shell.env then Setting(Str(h.shell.env[name]), Some(h.shell.id))
      else Setting(Null, None)
  }

  /** The disk check for GOROOT and GOPATH; other names pass unchanged. */
  function Validate(name: string, st: Setting, h: Host): Result<Setting>
  {
    if name != "GOPATH" && name != "GOROOT" then Ok(st)
    else if st.value == Null && st.source == None then Ok(st)
    else
      var s := Stringify(st.value);
      if name == "GOROOT" then
        if s in h.fs.existing then Ok(Setting(Str(s), st.source))
        else Err(GoRootNotFound(s, GoRootMessage(s)))
      else
        var values := Split(s, PathSep(h.platform));
        var missing := Missing(values, h.fs);
        if missing == [] then Ok(Setting(Str(s), st.source))
        else Err(GoPathNotFound(missing, GoPathMessage(|values| > 1, missing)))
  }

  /** `setting_value(name)` as a function of the name and the host. */
  function SettingValueSpec(name: Value, h: Host): (r: Result<Setting>)
    ensures !name.Str? ==> r == Err(TypeError("setting_name"))
  {
    match RequireString("setting_name", name)
    case Err(e) => Err(e)
    case Ok(n) => Validate(n, BaseSetting(n, h), h)
  }

  /** `setting_value`, step by step as the source runs it. */
  method SettingValue(name: Value, h: Host) returns (r: Result<Setting>)
    ensures r == SettingValueSpec(name, h)
    ensures !name.Str? ==> r == Err(TypeError("setting_name"))
  {
    var checked := RequireString("setting_name", name);
    if checked.Err? {
      return Err(checked.error);
    }
    var n := checked.value;
    var setting: Value, source: Option<string>;
    var found := MostSpecific(n, h.scopes, h.platform);
    if found.NotFound? {
      setting, source := Null, None;
      if n in h.shell.env {
        setting, source := Str(h.shell.env[n]), Some(h.shell.id);
      }
    } else {
      setting, source := found.value, Some(found.source);
    }
    if n != "GOPATH" && n != "GOROOT" {
      return Ok(Setting(setting, source));
    }
    if setting == Null && source == None {
      return Ok(Setting(setting, source));
    }
    var s := Stringify(setting);
    if n == "GOROOT" {
      if s in h.fs.existing {
        return Ok(Setting(Str(s), source));
      }
      return Err(GoRootNotFound(s, GoRootMessage(s)));
    }
    var values := Split(s, PathSep(h.platform));
    var missing := CollectMissing(values, h.fs);
    if |missing| == 0 {
      return Ok(Setting(Str(s), source));
    }
    return Err(GoPathNotFound(missing, GoPathMessage(|values| > 1, missing)));
  }

  /** The shell environment is read only when no scope has the key; a key
      present with a null value comes back as `(None, source)` and blocks
      the fallback. Names other than GOPATH and GOROOT are not validated. */
  lemma FallbackOnlyWhenAbsent(name: string, h: Host)
    requires name != "GOPATH" && name != "GOROOT"
    ensures MostSpecific(name, h.scopes, h.platform).Found? ==>
              var found := MostSpecific(name, h.scopes, h.platform);
              SettingValueSpec(Str(name), h) == Ok(Setting(found.value, Some(found.source)))
    ensures MostSpecific(name, h.scopes, h.platform) == NotFound && name in h.shell.env ==>
              SettingValueSpec(Str(name), h) == Ok(Setting(Str(h.shell.env[name]), Some(h.shell.id)))
    ensures MostSpecific(name, h.scopes, h.platform) == NotFound && name !in h.shell.env ==>
              SettingValueSpec(Str(name), h) == Ok(Setting(Null, None))
  {
  }

  /** A name found nowhere is `(None, None)`, for GOPATH and GOROOT too, without a disk check. */
  lemma NotFoundAnywhere(name: string, h: Host)
    requires MostSpecific(name, h.scopes, h.platform) == NotFound && name !in h.shell.env
    ensures SettingValueSpec(Str(name), h) == Ok(Setting(Null, None))
  {
  }

  /** GOROOT: the stringified value is returned with its source when that
      path exists; otherwise GoRootNotFoundError carries it. */
  lemma GoRootValidated(h: Host)
    requires BaseSetting("GOROOT", h) != Setting(Null, None)
    ensures var st := BaseSetting("GOROOT", h);
            var dir := Stringify(st.value);
            (dir in h.fs.existing ==> SettingValueSpec(Str("GOROOT"), h) == Ok(Setting(Str(dir), st.source))) &&
            (dir !in h.fs.existing ==> SettingValueSpec(Str("GOROOT"), h).Err? &&
                                       SettingValueSpec(Str("GOROOT"), h).error.GoRootNotFound? &&
                                       SettingValueSpec(Str("GOROOT"), h).error.directory == dir)
  {
  }

  /** The GOPATH segments `setting_value` checks: the stringified value split on `os.pathsep`. */
  function GoPathSegments(h: Host): seq<string>
  {
    Split(Stringify(BaseSetting("GOPATH", h).value), PathSep(h.platform))
  }

  /** GOPATH: the call succeeds, with the original unsplit string, exactly
      when every entry exists; otherwise the error lists exactly the
      missing entries, in their order. */
  lemma GoPathValidated(h: Host)
    requires BaseSetting("GOPATH", h) != Setting(Null, None)
    ensures SettingValueSpec(Str("GOPATH"), h).Ok? <==>
              forall i :: 0 <= i < |GoPathSegments(h)| ==> GoPathSegments(h)[i] in h.fs.existing
    ensures SettingValueSpec(Str("GOPATH"), h).Ok? ==>
              SettingValueSpec(Str("GOPATH"), h).value ==
                Setting(Str(Stringify(BaseSetting("GOPATH", h).value)), BaseSetting("GOPATH", h).source)
    ensures var r := SettingValueSpec(Str("GOPATH"), h);
            r.Err? ==> r.error.GoPathNotFound? &&
                       r.error.directories == Missing(GoPathSegments(h), h.fs) &&
                       forall x :: x in r.error.directories <==> x in GoPathSegments(h) && x !in h.fs.existing
    ensures var r := SettingValueSpec(Str("GOPATH"), h);
            r.Err? ==> |r.error.directories| > 0 &&
                       r.error.message == GoPathMessage(|GoPathSegments(h)| > 1, r.error.directories)
  {
    var st := BaseSetting("GOPATH", h);
    var s := Stringify(st.value);
    var values := GoPathSegments(h);
    var missing := Missing(values, h.fs);
    MissingMembers(values, h.fs);
    var r := SettingValueSpec(Str("GOPATH"), h);
    assert r == Validate("GOPATH", st, h);
    if missing == [] {
      assert r == Ok(Setting(Str(s), st.source));
      forall i | 0 <= i < |values| ensures values[i] in h.fs.existing {
        assert values[i] in values;
      }
    } else {
      assert missing[0] in missing;
      var k :| 0 <= k < |values| && values[k] == missing[0];
      assert r == Err(GoPathNotFound(missing, GoPathMessage(|values| > 1, missing)));
    }
  }

  /** A GOPATH set to null in a scope is not treated as unset: `str(None)`
      makes it the one-entry path "None", which is then checked on disk. */
  lemma NullGoPathIsChecked(h: Host, source: string)
    requires MostSpecific("GOPATH", h.scopes, h.platform) == Found(Null, source)
    requires "None" !in h.fs.existing
    ensures SettingValueSpec(Str("GOPATH"), h) ==
              Err(GoPathNotFound(["None"], GoPathMessage(false, ["None"])))
  {
    SplitNoSeparator("None", PathSep(h.platform));
    assert [] + ["None"] == ["None"];
  }
}
