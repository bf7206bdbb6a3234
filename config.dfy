/**
  The settings loader as functions over values: resolving the active
  environment, merging parsed documents, deriving key paths from
  environment-variable names, writing a value at a key path, and looking
  keys up. `Build` composes the stages in the order construction runs them.
*/
module Config {
  import opened Wrappers
  import opened Strings
  import opened Values
  import opened Files

  const DefaultEnv := "APP_ENV"
  const DefaultEnvPrefix := "SETTINGS"
  const DefaultSplitter := "__"
  const DefaultEnvValue := "development"

  /** The keyword arguments of construction; `DefaultOptions` holds their defaults. */
  datatype Options = Options(
    envName: string,
    defaultEnvValue: string,
    prefix: string,
    splitter: string,
    useEnv: bool,
    raiseError: bool)

  const DefaultOptions := Options(DefaultEnv, DefaultEnvValue, DefaultEnvPrefix, DefaultSplitter, true, true)

  /** One process environment variable. */
  datatype EnvVar = EnvVar(name: string, value: string)

  /** The process environment, in its iteration order. */
  type Environ = seq<EnvVar>

  /** Why construction fails. */
  datatype InitError =
    | NoConfigFiles           // no `*.yml` in the configuration directory: exit status 1
    | BadDocument(file: string)  // a truthy document that is not a mapping cannot update the root
    | EmptySplitter           // `split('')` raises
    | NotAMapping(variable: string)  // an override walks through an existing non-mapping entry

  /** Why a lookup fails. */
  datatype LookupError =
    | KeyError(key: string)
    | AttributeError(key: string)  // descending into something that is not a mapping

  /** The state a constructed store holds. */
  datatype Settings = Settings(
    envName: string,
    envValue: string,
    prefix: string,
    splitter: string,
    raiseError: bool,
    config: Mapping)

  // ---------------------------------------------------------------- environment

  /** Where the first variable called `name` sits; `|environ|` when there is none. */
  function IndexOfVar(environ: Environ, name: string): (k: nat)
    ensures k <= |environ|
    ensures forall i :: 0 <= i < k ==> environ[i].name != name
    ensures k < |environ| ==> environ[k].name == name
  {
    if environ == [] then 0
    else if environ[0].name == name then 0
    else 1 + IndexOfVar(environ[1..], name)
  }

  /** `environ[name]`: the value of the first variable called `name`, if one is set. */
  function EnvLookup(environ: Environ, name: string): (r: Option<string>)
    ensures r.None? <==> forall i :: 0 <= i < |environ| ==> environ[i].name != name
    ensures r.Some? ==> exists i :: 0 <= i < |environ| && environ[i] == EnvVar(name, r.value)
  {
    var k := IndexOfVar(environ, name);
    if k < |environ| then Some(environ[k].value) else None
  }

  /** A real process environment holds each name at most once. */
  predicate UniqueNames(environ: Environ)
  {
    forall i, j :: 0 <= i < j < |environ| ==> environ[i].name != environ[j].name
  }

  /** With each name held once, a lookup finds exactly that variable's value. */
  lemma EnvLookupUnique(environ: Environ, i: nat)
    requires UniqueNames(environ) && i < |environ|
    ensures EnvLookup(environ, environ[i].name) == Some(environ[i].value)
  {
  }

  /**
    The selector variable's name is upper-cased; the active environment is
    that variable's value when it is set and the default otherwise.
  */
  function ResolveEnv(opts: Options, environ: Environ): (r: (string, string))
    ensures r.0 == Upper(opts.envName)
    ensures (forall i :: 0 <= i < |environ| ==> environ[i].name != r.0) ==> r.1 == opts.defaultEnvValue
    ensures forall i ::
      (0 <= i < |environ| && environ[i].name == r.0 && forall j :: 0 <= j < i ==> environ[j].name != r.0) ==>
        r.1 == environ[i].value
  {
    var name := Upper(opts.envName);
    var k := IndexOfVar(environ, name);
    assert forall i ::
      (0 <= i < |environ| && environ[i].name == name && forall j :: 0 <= j < i ==> environ[j].name != name) ==>
        i == k;
    match EnvLookup(environ, name)
    case Some(v) => (name, v)
    case None => (name, opts.defaultEnvValue)
  }

  // ---------------------------------------------------------------- documents

  /** The document defines top-level key `k`. */
  predicate HasKey(f: File, k: string)
  {
    f.doc.Map? && k in f.doc.entries
  }

  /**
    Loading one document: a falsy document is skipped, a mapping updates the
    root shallowly, anything else cannot update a mapping.
  */
  function LoadDocument(cfg: Mapping, f: File): (r: Result<Mapping, InitError>)
    ensures !Truthy(f.doc) ==> r == Success(cfg)
    ensures Truthy(f.doc) && !f.doc.Map? ==> r == Failure(BadDocument(f.name))
    ensures f.doc.Map? ==> r.Success? && r.value.Keys == cfg.Keys + f.doc.entries.Keys
    ensures f.doc.Map? ==> forall k :: k in f.doc.entries ==> r.value[k] == f.doc.entries[k]
    ensures r.Success? ==> forall k :: k in cfg && !HasKey(f, k) ==> r.value[k] == cfg[k]
  {
    if !Truthy(f.doc) then Success(cfg)
    else if f.doc.Map? then Success(cfg + f.doc.entries)
    else Failure(BadDocument(f.name))
  }

  /**
    Loading the documents one after another, stopping at the first failure:
    keys are only ever added, and a failure names a truthy document that is
    not a mapping.
  */
  function LoadAll(cfg: Mapping, files: seq<File>): (r: Result<Mapping, InitError>)
    ensures r.Success? ==> cfg.Keys <= r.value.Keys
    ensures r.Failure? ==>
      exists i :: 0 <= i < |files| && Truthy(files[i].doc) && !files[i].doc.Map? && r.error == BadDocument(files[i].name)
    decreases |files|
  {
    if files == [] then Success(cfg)
    else
      var init := files[..|files| - 1];
      assert forall i :: 0 <= i < |init| ==> init[i] == files[i];
      match LoadAll(cfg, init)
      case Success(c) => LoadDocument(c, files[|files| - 1])
      case Failure(e) => Failure(e)
  }

  /** Loading `a + b` is loading `a` and then `b` into the result. */
  lemma {:induction false} LoadAllAppend(cfg: Mapping, a: seq<File>, b: seq<File>)
    ensures LoadAll(cfg, a + b) ==
      match LoadAll(cfg, a)
      case Success(c) => LoadAll(c, b)
      case Failure(e) => Failure(e)
    decreases |b|
  {
    if b == [] {
      assert a + b == a;
    } else {
      var ab := a + b;
      assert ab[..|ab| - 1] == a + b[..|b| - 1];
      assert ab[|ab| - 1] == b[|b| - 1];
      LoadAllAppend(cfg, a, b[..|b| - 1]);
    }
  }

  /** A top-level key no document defines keeps its value (or its absence). */
  lemma {:induction false} LoadAllUntouched(cfg: Mapping, files: seq<File>, k: string)
    requires LoadAll(cfg, files).Success?
    requires forall j :: 0 <= j < |files| ==> !HasKey(files[j], k)
    ensures k in LoadAll(cfg, files).value <==> k in cfg
    ensures k in cfg ==> LoadAll(cfg, files).value[k] == cfg[k]
    decreases |files|
  {
    if files != [] {
      LoadAllUntouched(cfg, files[..|files| - 1], k);
    }
  }

  /** On a shared top-level key the last document defining it wins, wholesale. */
  lemma {:induction false} LoadAllLastWins(cfg: Mapping, files: seq<File>, k: string, i: nat)
    requires LoadAll(cfg, files).Success?
    requires i < |files| && HasKey(files[i], k)
    requires forall j :: i < j < |files| ==> !HasKey(files[j], k)
    ensures k in LoadAll(cfg, files).value
    ensures LoadAll(cfg, files).value[k] == files[i].doc.entries[k]
    decreases |files|
  {
    if i < |files| - 1 {
      LoadAllLastWins(cfg, files[..|files| - 1], k, i);
    }
  }

  // ---------------------------------------------------------------- key paths

  /**
    The key path an override variable's name stands for: every occurrence of
    the prefix removed, leading splitter characters stripped, lower-cased,
    split on the splitter. An empty splitter cannot split.
  */
  function KeyPath(name: string, prefix: string, splitter: string): (r: Result<seq<string>, InitError>)
    ensures r.Failure? <==> splitter == []
    ensures r.Failure? ==> r.error == EmptySplitter
    ensures r.Success? ==> |r.value| >= 1
  {
    if splitter == [] then Failure(EmptySplitter)
    else Success(Split(Lower(LStrip(RemoveAll(name, prefix), CharsOf(splitter))), splitter))
  }

  /** What is left of the variable's name once the prefix and leading splitter characters are gone. */
  function Remainder(name: string, prefix: string, splitter: string): string
  {
    Lower(LStrip(RemoveAll(name, prefix), CharsOf(splitter)))
  }

  /**
    A derived key path is never empty, has no capital letters in any segment,
    and joined with the splitter gives back the remainder of the name.
  */
  lemma KeyPathShape(name: string, prefix: string, splitter: string)
    requires splitter != []
    ensures KeyPath(name, prefix, splitter).Success?
    ensures |KeyPath(name, prefix, splitter).value| >= 1
    ensures forall i, j ::
      (0 <= i < |KeyPath(name, prefix, splitter).value| && 0 <= j < |KeyPath(name, prefix, splitter).value[i]|) ==>
        !IsAsciiUpper(KeyPath(name, prefix, splitter).value[i][j])
    ensures Join(KeyPath(name, prefix, splitter).value, splitter) == Remainder(name, prefix, splitter)
  {
    var rem := Remainder(name, prefix, splitter);
    JoinSplit(rem, splitter);
    SplitKeepsLowerCase(rem, splitter);
  }

  // ---------------------------------------------------------------- writing a path

  /** `keys.reverse()`: the key path as a stack whose top is the outermost segment. */
  function Reversed(s: seq<string>): (r: seq<string>)
    ensures |r| == |s|
    ensures forall i :: 0 <= i < |s| ==> r[i] == s[|s| - 1 - i]
  {
    if s == [] then [] else Reversed(s[1..]) + [s[0]]
  }

  /**
    Writing `value` under the key stack `keys` (top at the end): pop a
    segment; when more remain, descend into the entry under it, an empty
    mapping put there when it is missing; at the last segment store the
    string. Descending into an existing entry that is not a mapping fails.
  */
  function SetConfigValue(keys: seq<string>, value: string, cfg: Mapping): (r: Option<Mapping>)
    requires keys != []
    ensures r.Some? ==> r.value.Keys == cfg.Keys + {keys[|keys| - 1]}
    ensures r.Some? ==> forall k :: k in cfg && k != keys[|keys| - 1] ==> r.value[k] == cfg[k]
    ensures |keys| == 1 ==> r.Some? && r.value[keys[0]] == Str(value)
    ensures |keys| > 1 && keys[|keys| - 1] in cfg && !cfg[keys[|keys| - 1]].Map? ==> r.None?
    decreases |keys|
  {
    var key := keys[|keys| - 1];
    var rest := keys[..|keys| - 1];
    if rest != [] then
      var child := if key in cfg then cfg[key] else Map(map[]);
      if child.Map? then
        match SetConfigValue(rest, value, child.entries)
        case Some(m) => Some(cfg[key := Map(m)])
        case None => None
      else None
    else Some(cfg[key := Str(value)])
  }

  lemma ReversedSplit(path: seq<string>)
    requires path != []
    ensures Reversed(path)[|path| - 1] == path[0]
    ensures Reversed(path)[..|path| - 1] == Reversed(path[1..])
  {
  }

  /** Every entry passed through on the way to the leaf (the leaf excluded) is a mapping or absent. */
  predicate PathPassable(cfg: Mapping, path: seq<string>)
  {
    forall i :: 1 <= i < |path| ==> PassableAt(Get(cfg, path[..i]))
  }

  lemma GetTop(cfg: Mapping, k: string)
    ensures Get(cfg, [k]) == if k in cfg then Some(cfg[k]) else None
  {
    assert [k][1..] == [];
    if k in cfg {
      assert At(cfg[k], []) == Some(cfg[k]);
    }
  }

  lemma GetCons(cfg: Mapping, k: string, rest: seq<string>)
    ensures Get(cfg, [k] + rest) == if k in cfg then At(cfg[k], rest) else None
  {
    assert ([k] + rest)[1..] == rest;
  }

  /** The write succeeds exactly when every existing intermediate entry on the path is a mapping. */
  lemma {:induction false} SetSucceedsIff(cfg: Mapping, path: seq<string>, v: string)
    requires path != []
    ensures SetConfigValue(Reversed(path), v, cfg).Some? <==> PathPassable(cfg, path)
    decreases |path|
  {
    ReversedSplit(path);
    var k, rest := path[0], path[1..];
    assert path == [k] + rest;
    if rest != [] {
      forall i | 1 <= i < |path|
        ensures Get(cfg, path[..i]) == (if k in cfg then At(cfg[k], rest[..i - 1]) else None)
      {
        assert path[..i] == [k] + rest[..i - 1];
        GetCons(cfg, k, rest[..i - 1]);
      }
      if k !in cfg {
        SetSucceedsIff(map[], rest, v);
        forall i | 1 <= i < |rest| ensures PassableAt(Get(map[], rest[..i])) {
          GetCons(map[], rest[0], rest[1..i]);
          assert rest[..i] == [rest[0]] + rest[1..i];
        }
      } else if cfg[k].Map? {
        var child := cfg[k].entries;
        SetSucceedsIff(child, rest, v);
        forall i | 1 <= i < |rest| ensures Get(cfg, path[..i + 1]) == Get(child, rest[..i]) {
        }
        if PathPassable(child, rest) {
          forall i | 1 <= i < |path| ensures PassableAt(Get(cfg, path[..i])) {
            if i > 1 {
              assert Get(cfg, path[..i]) == Get(child, rest[..i - 1]);
            }
          }
        }
        if PathPassable(cfg, path) {
          forall i | 1 <= i < |rest| ensures PassableAt(Get(child, rest[..i])) {
            assert PassableAt(Get(cfg, path[..i + 1]));
          }
        }
      } else {
        assert Get(cfg, path[..1]) == Some(cfg[k]);
      }
    }
  }

  /** After a successful write, descending along the path yields exactly the written string. */
  lemma {:induction false} SetWritesLeaf(cfg: Mapping, path: seq<string>, v: string)
    requires path != []
    requires SetConfigValue(Reversed(path), v, cfg).Some?
    ensures Get(SetConfigValue(Reversed(path), v, cfg).value, path) == Some(Str(v))
    decreases |path|
  {
    ReversedSplit(path);
    var k, rest := path[0], path[1..];
    assert path == [k] + rest;
    var r := SetConfigValue(Reversed(path), v, cfg).value;
    GetCons(r, k, rest);
    if rest != [] {
      var child := if k in cfg then cfg[k] else Map(map[]);
      SetWritesLeaf(child.entries, rest, v);
    }
  }

  /** A successful write changes nothing on any path that parts ways with the written one. */
  lemma {:induction false} SetFrame(cfg: Mapping, path: seq<string>, v: string, q: seq<string>)
    requires path != []
    requires SetConfigValue(Reversed(path), v, cfg).Some?
    requires Diverge(q, path)
    ensures Get(SetConfigValue(Reversed(path), v, cfg).value, q) == Get(cfg, q)
    decreases |path|
  {
    ReversedSplit(path);
    var k, rest := path[0], path[1..];
    assert path == [k] + rest;
    assert q == [q[0]] + q[1..];
    var r := SetConfigValue(Reversed(path), v, cfg).value;
    GetCons(r, q[0], q[1..]);
    GetCons(cfg, q[0], q[1..]);
    if q[0] == k {
      assert rest != [] && q[1..] != [];
      var child := if k in cfg then cfg[k] else Map(map[]);
      SetFrame(child.entries, rest, v, q[1..]);
      GetCons(child.entries, q[1], q[2..]);
      assert q[1..] == [q[1]] + q[2..];
    }
  }

  /**
    Every intermediate mapping the write had to create holds exactly the next
    segment of the path.
  */
  lemma {:induction false} SetCreatesIntermediates(cfg: Mapping, path: seq<string>, v: string, i: nat)
    requires path != []
    requires SetConfigValue(Reversed(path), v, cfg).Some?
    requires 1 <= i < |path| && Get(cfg, path[..i]).None?
    ensures Get(SetConfigValue(Reversed(path), v, cfg).value, path[..i]).Some?
    ensures Get(SetConfigValue(Reversed(path), v, cfg).value, path[..i]).value.Map?
    ensures Get(SetConfigValue(Reversed(path), v, cfg).value, path[..i]).value.entries.Keys == {path[i]}
    decreases |path|
  {
    ReversedSplit(path);
    var k, rest := path[0], path[1..];
    var r := SetConfigValue(Reversed(path), v, cfg).value;
    var child := if k in cfg then cfg[k] else Map(map[]);
    var m := SetConfigValue(Reversed(rest), v, child.entries).value;
    assert path[..i] == [k] + rest[..i - 1];
    GetCons(r, k, rest[..i - 1]);
    GetCons(cfg, k, rest[..i - 1]);
    assert r[k] == Map(m);
    if i == 1 {
      if |rest| > 1 {
        var m2 := SetConfigValue(Reversed(rest[1..]), v, map[]).value;
        ReversedSplit(rest);
        assert m == map[][rest[0] := Map(m2)];
      } else {
        ReversedSplit(rest);
      }
    } else {
      assert rest[..i - 1] == [rest[0]] + rest[1..i - 1];
      GetCons(child.entries, rest[0], rest[1..i - 1]);
      SetCreatesIntermediates(child.entries, rest, v, i - 1);
    }
  }

  // ---------------------------------------------------------------- overrides

  /**
    One variable applied: derive its key path and write its raw string value
    there. It fails only when the splitter is empty or the walk meets an
    entry that is not a mapping; otherwise the path leads to the string.
  */
  function Override(cfg: Mapping, ev: EnvVar, prefix: string, splitter: string): (r: Result<Mapping, InitError>)
    ensures r.Failure? ==> r.error == EmptySplitter || r.error == NotAMapping(ev.name)
    ensures r.Failure? && r.error == EmptySplitter <==> splitter == []
    ensures r.Success? ==> Get(r.value, KeyPath(ev.name, prefix, splitter).value) == Some(Str(ev.value))
  {
    match KeyPath(ev.name, prefix, splitter)
    case Failure(e) => Failure(e)
    case Success(path) =>
      match SetConfigValue(Reversed(path), ev.value, cfg)
      case Some(c) => SetWritesLeaf(cfg, path, ev.value); Success(c)
      case None => Failure(NotAMapping(ev.name))
  }

  /**
    Every variable whose name starts with the prefix, in environment order.
    A failure is one of the two an override can raise.
  */
  function ApplyOverrides(cfg: Mapping, environ: Environ, prefix: string, splitter: string): (r: Result<Mapping, InitError>)
    ensures r.Failure? ==> r.error == EmptySplitter || r.error.NotAMapping?
    decreases |environ|
  {
    if environ == [] then Success(cfg)
    else match ApplyOverrides(cfg, environ[..|environ| - 1], prefix, splitter)
      case Failure(e) => Failure(e)
      case Success(c) =>
        var ev := environ[|environ| - 1];
        if StartsWith(ev.name, prefix) then Override(c, ev, prefix, splitter) else Success(c)
  }

  lemma {:induction false} ApplyOverridesAppend(cfg: Mapping, a: Environ, b: Environ, prefix: string, splitter: string)
    ensures ApplyOverrides(cfg, a + b, prefix, splitter) ==
      match ApplyOverrides(cfg, a, prefix, splitter)
      case Success(c) => ApplyOverrides(c, b, prefix, splitter)
      case Failure(e) => Failure(e)
    decreases |b|
  {
    if b == [] {
      assert a + b == a;
    } else {
      var ab := a + b;
      assert ab[..|ab| - 1] == a + b[..|b| - 1];
      assert ab[|ab| - 1] == b[|b| - 1];
      ApplyOverridesAppend(cfg, a, b[..|b| - 1], prefix, splitter);
    }
  }

  /** Variables without the prefix are never used: with none carrying it, nothing changes. */
  lemma {:induction false} OverridesIgnoreOthers(cfg: Mapping, environ: Environ, prefix: string, splitter: string)
    requires forall i :: 0 <= i < |environ| ==> !StartsWith(environ[i].name, prefix)
    ensures ApplyOverrides(cfg, environ, prefix, splitter) == Success(cfg)
    decreases |environ|
  {
    if environ != [] {
      OverridesIgnoreOthers(cfg, environ[..|environ| - 1], prefix, splitter);
    }
  }

  /** The variable sets a path that parts ways with `q`, or is not an override at all. */
  predicate Avoids(ev: EnvVar, prefix: string, splitter: string, q: seq<string>)
  {
    StartsWith(ev.name, prefix) && KeyPath(ev.name, prefix, splitter).Success? ==>
      Diverge(KeyPath(ev.name, prefix, splitter).value, q)
  }

  /** Overrides whose paths all part ways with `q` leave the value at `q` alone. */
  lemma {:induction false} OverridesFrame(cfg: Mapping, environ: Environ, prefix: string, splitter: string, q: seq<string>)
    requires ApplyOverrides(cfg, environ, prefix, splitter).Success?
    requires forall i :: 0 <= i < |environ| ==> Avoids(environ[i], prefix, splitter, q)
    ensures Get(ApplyOverrides(cfg, environ, prefix, splitter).value, q) == Get(cfg, q)
    decreases |environ|
  {
    if environ != [] {
      var init := environ[..|environ| - 1];
      OverridesFrame(cfg, init, prefix, splitter, q);
      var c := ApplyOverrides(cfg, init, prefix, splitter).value;
      var ev := environ[|environ| - 1];
      assert Avoids(ev, prefix, splitter, q);
      if StartsWith(ev.name, prefix) {
        var path := KeyPath(ev.name, prefix, splitter).value;
        SetFrame(c, path, ev.value, q);
      }
    }
  }

  /** A sequence is its first `n` elements followed by the rest. */
  lemma TakeDrop(environ: Environ, n: nat)
    requires n <= |environ|
    ensures environ[..n] + environ[n..] == environ
  {
  }

  lemma ApplyOverridesStep(cfg: Mapping, environ: Environ, prefix: string, splitter: string, i: nat)
    requires i < |environ|
    requires ApplyOverrides(cfg, environ[..i + 1], prefix, splitter).Success?
    ensures ApplyOverrides(cfg, environ[..i], prefix, splitter).Success?
    ensures StartsWith(environ[i].name, prefix) ==>
      ApplyOverrides(cfg, environ[..i + 1], prefix, splitter)
        == Override(ApplyOverrides(cfg, environ[..i], prefix, splitter).value, environ[i], prefix, splitter)
  {
    assert environ[..i + 1][..i] == environ[..i];
  }

  lemma OverrideStep(c: Mapping, ev: EnvVar, prefix: string, splitter: string)
    requires Override(c, ev, prefix, splitter).Success?
    ensures KeyPath(ev.name, prefix, splitter).Success? && KeyPath(ev.name, prefix, splitter).value != []
    ensures SetConfigValue(Reversed(KeyPath(ev.name, prefix, splitter).value), ev.value, c)
      == Some(Override(c, ev, prefix, splitter).value)
  {
  }

  /**
    An override wins: once variable `i` has written its path, and every later
    override writes a path that parts ways with it, the path holds that
    variable's raw string.
  */
  lemma OverrideWins(cfg: Mapping, environ: Environ, prefix: string, splitter: string, i: nat)
    requires ApplyOverrides(cfg, environ, prefix, splitter).Success?
    requires i < |environ| && StartsWith(environ[i].name, prefix)
    requires KeyPath(environ[i].name, prefix, splitter).Success?
    requires forall j :: i < j < |environ| ==>
      Avoids(environ[j], prefix, splitter, KeyPath(environ[i].name, prefix, splitter).value)
    ensures Get(ApplyOverrides(cfg, environ, prefix, splitter).value, KeyPath(environ[i].name, prefix, splitter).value)
      == Some(Str(environ[i].value))
  {
    var path := KeyPath(environ[i].name, prefix, splitter).value;
    var a, b := environ[..i + 1], environ[i + 1..];
    TakeDrop(environ, i + 1);
    ApplyOverridesAppend(cfg, a, b, prefix, splitter);
    var c := ApplyOverrides(cfg, a, prefix, splitter).value;
    ApplyOverridesStep(cfg, environ, prefix, splitter, i);
    var c0 := ApplyOverrides(cfg, environ[..i], prefix, splitter).value;
    OverrideStep(c0, environ[i], prefix, splitter);
    SetWritesLeaf(c0, path, environ[i].value);
    assert Get(c, path) == Some(Str(environ[i].value));
    forall j | 0 <= j < |b| ensures Avoids(b[j], prefix, splitter, path) {
      assert b[j] == environ[i + 1 + j];
    }
    OverridesFrame(c, b, prefix, splitter, path);
    assert ApplyOverrides(cfg, environ, prefix, splitter) == ApplyOverrides(c, b, prefix, splitter);
  }

  // ---------------------------------------------------------------- construction

  /** The files in the order they are loaded: sorted base files, then sorted environment files. */
  function LoadOrder(fs: FileSystem, envValue: string): seq<File>
  {
    SortByName(Glob(fs.base, AnyYml)) + SortByName(Glob(fs.settings, EnvYml(envValue)))
  }

  /** Stage 2: the sorted base files into an empty root; no base file at all is fatal. */
  function LoadBase(fs: FileSystem): Result<Mapping, InitError>
  {
    var base := Glob(fs.base, AnyYml);
    if base == [] then Failure(NoConfigFiles) else LoadAll(map[], SortByName(base))
  }

  /** Stage 3: the sorted environment files on top of the base result. */
  function LoadEnvFiles(r: Result<Mapping, InitError>, fs: FileSystem, envValue: string): Result<Mapping, InitError>
  {
    match r
    case Failure(e) => Failure(e)
    case Success(c) => LoadAll(c, SortByName(Glob(fs.settings, EnvYml(envValue))))
  }

  /** Stage 4: the overrides on top of the file result, when they are enabled. */
  function LoadOverrides(r: Result<Mapping, InitError>, useEnv: bool, environ: Environ, prefix: string, splitter: string)
    : Result<Mapping, InitError>
  {
    match r
    case Failure(e) => Failure(e)
    case Success(c) => if useEnv then ApplyOverrides(c, environ, prefix, splitter) else Success(c)
  }

  /**
    The root after the loading stages in order, for an already resolved
    environment value and prefix. No base file is fatal; otherwise a failure
    is a bad document, or an override error when overrides are enabled.
  */
  function LoadStages(fs: FileSystem, envValue: string, useEnv: bool, environ: Environ, prefix: string, splitter: string)
    : (r: Result<Mapping, InitError>)
    ensures Glob(fs.base, AnyYml) == [] ==> r == Failure(NoConfigFiles)
    ensures r.Failure? && Glob(fs.base, AnyYml) != [] ==>
      r.error.BadDocument? || (useEnv && (r.error == EmptySplitter || r.error.NotAMapping?))
  {
    LoadOverrides(LoadEnvFiles(LoadBase(fs), fs, envValue), useEnv, environ, prefix, splitter)
  }

  /** The whole of construction: the resolved environment and the root after the stages in order. */
  function Build(opts: Options, environ: Environ, fs: FileSystem): (r: Result<Settings, InitError>)
    ensures r.Success? ==> (r.value.envName, r.value.envValue) == ResolveEnv(opts, environ)
    ensures r.Success? ==> r.value.prefix == Upper(opts.prefix)
    ensures r.Failure? && Glob(fs.base, AnyYml) != [] ==>
      r.error.BadDocument? || (opts.useEnv && (r.error == EmptySplitter || r.error.NotAMapping?))
  {
    var (envName, envValue) := ResolveEnv(opts, environ);
    var prefix := Upper(opts.prefix);
    match LoadStages(fs, envValue, opts.useEnv, environ, prefix, opts.splitter)
    case Failure(e) => Failure(e)
    case Success(c) => Success(Settings(envName, envValue, prefix, opts.splitter, opts.raiseError, c))
  }

  /** Construction aborts with the missing-files error exactly when there is no base `*.yml` file. */
  lemma NoBaseFilesIsFatal(opts: Options, environ: Environ, fs: FileSystem)
    ensures Build(opts, environ, fs) == Failure(NoConfigFiles) <==> Glob(fs.base, AnyYml) == []
  {
    var envValue := ResolveEnv(opts, environ).1;
    if Glob(fs.base, AnyYml) != [] {
      var c := LoadAll(map[], SortByName(Glob(fs.base, AnyYml)));
      if c.Success? {
        var d := LoadAll(c.value, SortByName(Glob(fs.settings, EnvYml(envValue))));
        if d.Success? && opts.useEnv {
          OverridesNeverMissFiles(d.value, environ, Upper(opts.prefix), opts.splitter);
        }
        LoadAllNeverMissFiles(c.value, SortByName(Glob(fs.settings, EnvYml(envValue))));
      }
      LoadAllNeverMissFiles(map[], SortByName(Glob(fs.base, AnyYml)));
    }
  }

  lemma {:induction false} LoadAllNeverMissFiles(cfg: Mapping, files: seq<File>)
    ensures LoadAll(cfg, files) != Failure(NoConfigFiles)
    decreases |files|
  {
    if files != [] {
      LoadAllNeverMissFiles(cfg, files[..|files| - 1]);
    }
  }

  lemma {:induction false} OverridesNeverMissFiles(cfg: Mapping, environ: Environ, prefix: string, splitter: string)
    ensures ApplyOverrides(cfg, environ, prefix, splitter) != Failure(NoConfigFiles)
    decreases |environ|
  {
    if environ != [] {
      OverridesNeverMissFiles(cfg, environ[..|environ| - 1], prefix, splitter);
    }
  }

  /**
    The stages in order: the resolved environment, every file in load order,
    then (only with `useEnv`) the overrides on top of the file result.
  */
  lemma BuildStages(opts: Options, environ: Environ, fs: FileSystem)
    requires Build(opts, environ, fs).Success?
    ensures (Build(opts, environ, fs).value.envName, Build(opts, environ, fs).value.envValue) == ResolveEnv(opts, environ)
    ensures Build(opts, environ, fs).value.prefix == Upper(opts.prefix)
    ensures Build(opts, environ, fs).value.splitter == opts.splitter
    ensures Build(opts, environ, fs).value.raiseError == opts.raiseError
    ensures LoadAll(map[], LoadOrder(fs, ResolveEnv(opts, environ).1)).Success?
    ensures !opts.useEnv ==>
      Build(opts, environ, fs).value.config == LoadAll(map[], LoadOrder(fs, ResolveEnv(opts, environ).1)).value
    ensures opts.useEnv ==>
      ApplyOverrides(LoadAll(map[], LoadOrder(fs, ResolveEnv(opts, environ).1)).value, environ, Upper(opts.prefix), opts.splitter)
        == Success(Build(opts, environ, fs).value.config)
  {
    var envValue := ResolveEnv(opts, environ).1;
    LoadAllAppend(map[], SortByName(Glob(fs.base, AnyYml)), SortByName(Glob(fs.settings, EnvYml(envValue))));
  }

  /**
    Between files the later one wins on a top-level key: the key holds the
    value from the last file in load order that defines it, unless an
    override writes under that key.
  */
  lemma FileValueWins(opts: Options, environ: Environ, fs: FileSystem, s: Settings, k: string, i: nat)
    requires Build(opts, environ, fs) == Success(s)
    requires i < |LoadOrder(fs, s.envValue)| && HasKey(LoadOrder(fs, s.envValue)[i], k)
    requires forall j :: i < j < |LoadOrder(fs, s.envValue)| ==> !HasKey(LoadOrder(fs, s.envValue)[j], k)
    requires opts.useEnv ==> forall j :: 0 <= j < |environ| ==> Avoids(environ[j], s.prefix, s.splitter, [k])
    ensures Get(s.config, [k]) == Some(LoadOrder(fs, s.envValue)[i].doc.entries[k])
  {
    var files := LoadOrder(fs, s.envValue);
    BuildStages(opts, environ, fs);
    assert LoadAll(map[], files).Success?;
    LoadAllLastWins(map[], files, k, i);
    var c := LoadAll(map[], files).value;
    GetTop(c, k);
    if opts.useEnv {
      assert ApplyOverrides(c, environ, s.prefix, s.splitter) == Success(s.config);
      OverridesFrame(c, environ, s.prefix, s.splitter, [k]);
    } else {
      assert s.config == c;
    }
  }

  /**
    Overrides have the last word: the last variable with the prefix that
    writes a path, among later overrides that all part ways with it, decides
    the value found there, whatever the files said.
  */
  lemma EnvVariableWins(opts: Options, environ: Environ, fs: FileSystem, i: nat)
    requires Build(opts, environ, fs).Success? && opts.useEnv
    requires i < |environ| && StartsWith(environ[i].name, Upper(opts.prefix))
    requires KeyPath(environ[i].name, Upper(opts.prefix), opts.splitter).Success?
    requires forall j :: i < j < |environ| ==>
      Avoids(environ[j], Upper(opts.prefix), opts.splitter, KeyPath(environ[i].name, Upper(opts.prefix), opts.splitter).value)
    ensures Get(Build(opts, environ, fs).value.config, KeyPath(environ[i].name, Upper(opts.prefix), opts.splitter).value)
      == Some(Str(environ[i].value))
  {
    BuildStages(opts, environ, fs);
    var c := LoadAll(map[], LoadOrder(fs, ResolveEnv(opts, environ).1)).value;
    OverrideWins(c, environ, Upper(opts.prefix), opts.splitter, i);
  }

  // ---------------------------------------------------------------- lookup

  /**
    `CustomDict.__getattr__`: a present key yields its value (a nested mapping
    comes back wrapped again, with the same entries); a missing key is a KeyError.
  */
  function CustomGetAttr(d: Mapping, item: string): (r: Result<Value, LookupError>)
    ensures r.Success? <==> item in d
    ensures r.Success? ==> r.value == d[item]
    ensures r.Failure? ==> r.error == KeyError(item)
  {
    if item in d then
      var val := d[item];
      if val.Map? then Success(Map(val.entries)) else Success(val)
    else Failure(KeyError(item))
  }

  /** Dotted access `d.a.b.c`: one `CustomGetAttr` per segment, each on the mapping the previous returned. */
  function GetChain(d: Mapping, items: seq<string>): (r: Result<Value, LookupError>)
    requires items != []
    ensures r.Failure? ==> r.error.key in items
    ensures r.Failure? && r.error.AttributeError? ==> r.error.key in items[1..]
    ensures items[0] !in d ==> r == Failure(KeyError(items[0]))
    decreases |items|
  {
    match CustomGetAttr(d, items[0])
    case Failure(e) => Failure(e)
    case Success(v) =>
      if |items| == 1 then Success(v)
      else if v.Map? then GetChain(v.entries, items[1..])
      else Failure(AttributeError(items[1]))
  }

  /** Dotted access finds a value exactly when descent along the path reaches it. */
  lemma {:induction false} GetChainFindsPath(d: Mapping, items: seq<string>)
    requires items != []
    ensures GetChain(d, items).Success? <==> Get(d, items).Some?
    ensures GetChain(d, items).Success? ==> GetChain(d, items).value == Get(d, items).value
    decreases |items|
  {
    GetCons(d, items[0], items[1..]);
    assert items == [items[0]] + items[1..];
    if items[0] in d && |items| > 1 {
      var v := d[items[0]];
      assert items[1..] == [items[1]] + items[2..];
      if v.Map? {
        GetChainFindsPath(v.entries, items[1..]);
        GetCons(v.entries, items[1], items[2..]);
      }
    }
  }
}
