/**
 * The data model shared by the settings lookup and the toolchain resolver:
 * setting values as the host's JSON-like settings deliver them, settings
 * scopes, the current platform, the filesystem and login-shell oracles that
 * stand in for `os.path` and `shellenv`, and the error records the
 * resolver raises.
 */
module Values {

  datatype Option<T> = None | Some(value: T)

  /** A setting value. `Other` is any scalar or list that is neither a string
      nor a mapping (a number, a boolean, a list): `text` is what Python's
      `str()` renders it as and `truthy` what `bool()` makes of it. A mapping
      also carries its `str()` rendering, because Python's depends on the
      insertion order a `map` does not keep. */
  datatype Value =
    | Null
    | Str(s: string)
    | Other(text: string, truthy: bool)
    | Dict(entries: map<string, Value>, text: string)

  /** Python's `str(value)`. */
  function Stringify(v: Value): string
  {
    match v
    case Null => "None"
    case Str(s) => s
    case Other(t, _) => t
    case Dict(_, t) => t
  }

  /** Python's `bool(value)`. */
  predicate Truthy(v: Value)
  {
    match v
    case Null => false
    case Str(s) => s != ""
    case Other(_, b) => b
    case Dict(m, _) => |m| > 0
  }

  /** The marker the lookup uses for "absent": the fifteen control characters
      U+0001 to U+000F. A setting stored with exactly this string is treated
      as absent, since the lookup tests for it with `!=`. */
  const NoValue: string := "\U{1}\U{2}\U{3}\U{4}\U{5}\U{6}\U{7}\U{8}\U{9}\U{A}\U{B}\U{C}\U{D}\U{E}\U{F}"

  datatype Platform = Osx | Windows | Linux

  /** The settings key of the platform sub-map. */
  function PlatformKey(p: Platform): string
  {
    match p
    case Osx => "osx"
    case Windows => "windows"
    case Linux => "linux"
  }

  /** `os.pathsep`. */
  function PathSep(p: Platform): char
  {
    if p == Windows then ';' else ':'
  }

  /** `os.sep`. */
  function DirSep(p: Platform): char
  {
    if p == Windows then '\\' else '/'
  }

  /** The executable suffix appended on `win32`. */
  function ExeSuffix(p: Platform): string
  {
    if p == Windows then ".exe" else ""
  }

  /** One settings source, in priority order, with its provenance label. */
  datatype Scope = Scope(settings: map<string, Value>, source: string)

  /** The filesystem as `os.path.exists`, `os.path.isfile` and
      `os.access(path, os.X_OK)` see it. */
  datatype FileSystem = FileSystem(existing: set<string>, files: set<string>, executables: set<string>)

  /** The login shell as `shellenv` reports it: its path, its environment and
      its PATH directories. */
  datatype Shell = Shell(id: string, env: map<string, string>, path: seq<string>)

  /** Everything a call reads besides its arguments. */
  datatype Host = Host(scopes: seq<Scope>, platform: Platform, shell: Shell, fs: FileSystem)

  /** The exceptions the resolver raises. `TypeError` names the offending
      parameter; `AttributeError` is the failure of calling `.split` on a
      setting that is not a string. */
  datatype Error =
    | TypeError(param: string)
    | GoRootNotFound(directory: string, message: string)
    | GoPathNotFound(directories: seq<string>, message: string)
    | EnvVarMissing(missing: seq<string>, message: string)
    | ExecutableNotFound(name: string, dirs: seq<string>, message: string)
    | AttributeError

  datatype Result<T> = Ok(value: T) | Err(error: Error)

  /** `_require_unicode`: a parameter must be a string. */
  function RequireString(param: string, v: Value): (r: Result<string>)
    ensures r.Ok? <==> v.Str?
    ensures r.Ok? ==> r.value == v.s
    ensures r.Err? ==> r.error == TypeError(param)
  {
    if v.Str? then Ok(v.s) else Err(TypeError(param))
  }
}
