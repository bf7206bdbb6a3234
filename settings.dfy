/**
  The store as objects: `AppSettings`, whose construction fills its root
  mapping stage by stage, and the registry that hands out one shared
  instance until it is reset.
*/
module Settings {
  import opened Wrappers
  import opened Strings
  import opened Values
  import opened Files
  import opened Config

  class AppSettings {
    var config: Mapping
    var envName: string
    var envValue: string
    var prefix: string
    var splitter: string
    var raiseError: bool

    /** The state as a value, to compare with `Build`. */
    function Snapshot(): Settings
      reads this
    {
      Settings(envName, envValue, prefix, splitter, raiseError, config)
    }

    /** The `current_env` property. */
    function CurrentEnv(): string
      reads this
    {
      envValue
    }

    /**
      The field set-up of construction: an empty root, the selector name
      upper-cased and its value looked up (the default when it is not set),
      the prefix upper-cased, the splitter and the missing-key policy as given.
    */
    constructor (opts: Options, environ: Environ)
      ensures config == map[]
      ensures (envName, envValue) == ResolveEnv(opts, environ)
      ensures prefix == Upper(opts.prefix) && splitter == opts.splitter && raiseError == opts.raiseError
    {
      config := map[];
      var name := Upper(opts.envName);
      envName := name;
      match EnvLookup(environ, name) {
        case Some(v) => envValue := v;
        case None => envValue := opts.defaultEnvValue;
      }
      prefix := Upper(opts.prefix);
      splitter := opts.splitter;
      raiseError := opts.raiseError;
    }

    /** Loading one file: the root is updated shallowly by a truthy mapping, left alone otherwise. */
    method LoadConfig(f: File) returns (outcome: Outcome<InitError>)
      modifies this`config
      ensures LoadDocument(old(config), f).Success? ==>
        outcome == Pass && config == LoadDocument(old(config), f).value
      ensures LoadDocument(old(config), f).Failure? ==>
        outcome == Fail(LoadDocument(old(config), f).error) && config == old(config)
    {
      if Truthy(f.doc) {
        if f.doc.Map? {
          config := config + f.doc.entries;
        } else {
          return Fail(BadDocument(f.name));
        }
      }
      return Pass;
    }

    /** Loading files one after another, in the order given, stopping at the first failure. */
    method LoadFiles(files: seq<File>) returns (outcome: Outcome<InitError>)
      modifies this`config
      ensures outcome.Pass? <==> LoadAll(old(config), files).Success?
      ensures outcome.Pass? ==> config == LoadAll(old(config), files).value
      ensures outcome.Fail? ==> LoadAll(old(config), files) == Failure(outcome.error)
    {
      var i := 0;
      while i < |files|
        invariant 0 <= i <= |files|
        invariant LoadAll(old(config), files[..i]) == Success(config)
      {
        assert files[..i + 1][..i] == files[..i];
        var o := LoadConfig(files[i]);
        if o.Fail? {
          assert files == files[..i + 1] + files[i + 1..];
          LoadAllAppend(old(config), files[..i + 1], files[i + 1..]);
          return o;
        }
        i := i + 1;
      }
      assert files[..i] == files;
      return Pass;
    }

    /**
      Applying the overrides: for each variable whose name starts with the
      prefix, in environment order, derive its key path and write its raw
      string value there.
    */
    method RedefineVariables(environ: Environ) returns (outcome: Outcome<InitError>)
      modifies this`config
      ensures outcome.Pass? <==> ApplyOverrides(old(config), environ, prefix, splitter).Success?
      ensures outcome.Pass? ==> config == ApplyOverrides(old(config), environ, prefix, splitter).value
      ensures outcome.Fail? ==> ApplyOverrides(old(config), environ, prefix, splitter) == Failure(outcome.error)
    {
      var i := 0;
      while i < |environ|
        invariant 0 <= i <= |environ|
        invariant ApplyOverrides(old(config), environ[..i], prefix, splitter) == Success(config)
      {
        assert environ[..i + 1][..i] == environ[..i];
        var ev := environ[i];
        if StartsWith(ev.name, prefix) {
          var keys := KeyPath(ev.name, prefix, splitter);
          var failure: Option<InitError> := None;
          if keys.Failure? {
            failure := Some(keys.error);
          } else {
            var written := SetConfigValue(Reversed(keys.value), ev.value, config);
            if written.None? {
              failure := Some(NotAMapping(ev.name));
            } else {
              config := written.value;
            }
          }
          if failure.Some? {
            assert ApplyOverrides(old(config), environ[..i + 1], prefix, splitter) == Failure(failure.value);
            assert environ == environ[..i + 1] + environ[i + 1..];
            ApplyOverridesAppend(old(config), environ[..i + 1], environ[i + 1..], prefix, splitter);
            return Fail(failure.value);
          }
        }
        i := i + 1;
      }
      assert environ[..i] == environ;
      return Pass;
    }

    /**
      Attribute access on the store: a present top-level key yields its value;
      a missing one raises KeyError under `raiseError` and yields `None`
      otherwise.
    */
    function GetAttr(item: string): (r: Result<Value, LookupError>)
      reads this
      ensures item in config ==> r == Success(config[item])
      ensures item !in config && raiseError ==> r == Failure(KeyError(item))
      ensures item !in config && !raiseError ==> r == Success(Null)
    {
      if raiseError then CustomGetAttr(config, item)
      else match CustomGetAttr(config, item)
        case Success(v) => Success(v)
        case Failure(_) => Success(Null)
    }

    /** Loading the sorted base `*.yml` files into the empty root; none at all is fatal. */
    method LoadBaseFiles(fs: FileSystem) returns (outcome: Outcome<InitError>)
      requires config == map[]
      modifies this`config
      ensures outcome.Pass? <==> LoadBase(fs).Success?
      ensures outcome.Pass? ==> config == LoadBase(fs).value
      ensures outcome.Fail? ==> LoadBase(fs) == Failure(outcome.error)
    {
      var configs := Glob(fs.base, AnyYml);
      if configs == [] {
        return Fail(NoConfigFiles);
      }
      outcome := LoadFiles(SortByName(configs));
    }

    /** Loading the sorted `<env>*.yml` files of the settings directory on top of the root. */
    method LoadEnvironmentFiles(fs: FileSystem) returns (outcome: Outcome<InitError>)
      modifies this`config
      ensures outcome.Pass? <==> LoadEnvFiles(Success(old(config)), fs, envValue).Success?
      ensures outcome.Pass? ==> config == LoadEnvFiles(Success(old(config)), fs, envValue).value
      ensures outcome.Fail? ==> LoadEnvFiles(Success(old(config)), fs, envValue) == Failure(outcome.error)
    {
      var envConfigs := Glob(fs.settings, EnvYml(envValue));
      outcome := Pass;
      if envConfigs != [] {
        outcome := LoadFiles(SortByName(envConfigs));
      }
    }

    /**
      The loading part of construction on the set-up fields: the base files,
      the environment files, then the overrides when `useEnv` is set, each
      stage stopping construction at its first error.
    */
    method Load(fs: FileSystem, useEnv: bool, environ: Environ) returns (outcome: Outcome<InitError>)
      requires config == map[]
      modifies this`config
      ensures outcome.Pass? <==> LoadStages(fs, envValue, useEnv, environ, prefix, splitter).Success?
      ensures outcome.Pass? ==> config == LoadStages(fs, envValue, useEnv, environ, prefix, splitter).value
      ensures outcome.Fail? ==> LoadStages(fs, envValue, useEnv, environ, prefix, splitter) == Failure(outcome.error)
    {
      outcome := LoadBaseFiles(fs);
      if outcome.Fail? {
        return;
      }
      ghost var base := config;
      outcome := LoadEnvironmentFiles(fs);
      assert LoadEnvFiles(LoadBase(fs), fs, envValue) == LoadEnvFiles(Success(base), fs, envValue);
      if outcome.Fail? || !useEnv {
        return;
      }
      outcome := RedefineVariables(environ);
    }

    /**
      Construction: set up the fields, then load. The new store holds exactly
      what `Build` describes, and fails with `Build`'s error otherwise.
    */
    static method New(opts: Options, environ: Environ, fs: FileSystem) returns (r: Result<AppSettings, InitError>)
      ensures r.Success? <==> Build(opts, environ, fs).Success?
      ensures r.Success? ==> fresh(r.value) && r.value.Snapshot() == Build(opts, environ, fs).value
      ensures r.Success? ==> r.value.CurrentEnv() == ResolveEnv(opts, environ).1
      ensures r.Failure? ==> Build(opts, environ, fs) == Failure(r.error)
    {
      var s := new AppSettings(opts, environ);
      var o := s.Load(fs, opts.useEnv, environ);
      if o.Fail? {
        return Failure(o.error);
      }
      return Success(s);
    }
  }

  /**
    The process-wide slot holding at most one store: the first construction
    creates and caches it, later ones return it whatever their arguments, and
    a reset empties the slot.
  */
  class Registry {
    var instance: Option<AppSettings>

    constructor ()
      ensures instance == None
    {
      instance := None;
    }

    method GetOrCreate(opts: Options, environ: Environ, fs: FileSystem) returns (r: Result<AppSettings, InitError>)
      modifies this
      ensures old(instance).Some? ==> r == Success(old(instance).value) && instance == old(instance)
      ensures old(instance).None? ==> (r.Success? <==> Build(opts, environ, fs).Success?)
      ensures old(instance).None? && r.Success? ==>
        fresh(r.value) && instance == Some(r.value) && r.value.Snapshot() == Build(opts, environ, fs).value
      ensures old(instance).None? && r.Failure? ==>
        instance == None && Build(opts, environ, fs) == Failure(r.error)
    {
      if instance.Some? {
        return Success(instance.value);
      }
      r := AppSettings.New(opts, environ, fs);
      if r.Success? {
        instance := Some(r.value);
      }
    }

    /** Clearing the slot, as the tests do before each scenario. */
    method Reset()
      modifies this
      ensures instance == None
    {
      instance := None;
    }
  }
}
