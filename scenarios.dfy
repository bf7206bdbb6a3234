/**
  Concrete runs of the loader, following the repository's own test
  scenarios: the key path of an override variable they set, environment
  resolution with the default and a custom selector variable, a shallow
  merge, and the registry's reset between scenarios.
*/
module Scenarios {
  import opened Wrappers
  import opened Strings
  import opened Values
  import opened Files
  import opened Config
  import opened Settings

  /** Upper-case words of the variable name `SETTINGS__CUSTOM__NEW__VAR`, joined as the tests spell it. */
  const CustomVariableRest := "CUSTOM" + "__" + "NEW" + "__" + "VAR"
  const CustomVariable := "SETTINGS" + ("__" + CustomVariableRest)

  /** The prefix occurs once, at the front: the rest has no `I`, which the prefix has. */
  lemma CustomVariablePrefixRemoved()
    ensures RemoveAll(CustomVariable, DefaultEnvPrefix) == "__" + CustomVariableRest
  {
    var t := "__" + CustomVariableRest;
    assert CustomVariable[|DefaultEnvPrefix|..] == t;
    assert forall i :: 0 <= i < |t| ==> t[i] != 'I';
    AbsentWhenCharMissing(t, DefaultEnvPrefix, 4);
    RemoveAllAbsent(t, DefaultEnvPrefix);
  }

  /** The default splitter is made of underscores only. */
  lemma DefaultSplitterChars()
    ensures CharsOf(DefaultSplitter) == {'_'}
  {
    assert DefaultSplitter[0] == '_';
    assert forall c :: c in CharsOf(DefaultSplitter) ==> c == '_';
  }

  /** The two leading underscores are splitter characters and go. */
  lemma CustomVariableStripped()
    ensures LStrip("__" + CustomVariableRest, CharsOf(DefaultSplitter)) == CustomVariableRest
  {
    DefaultSplitterChars();
    assert CustomVariableRest[0] == 'C';
    LStripLeading("__", CustomVariableRest, {'_'});
  }

  /** Lower-casing the three segments joined by the splitter. */
  lemma CustomVariableLowered()
    ensures Lower(CustomVariableRest) == "custom" + "__" + "new" + "__" + "var"
  {
    var c, u, n, v := "CUSTOM", "__", "NEW", "VAR";
    assert Lower(c) == "custom";
    assert Lower(u) == "__";
    assert Lower(n) == "new";
    assert Lower(v) == "var";
    LowerAppend(c, u);
    LowerAppend(c + u, n);
    LowerAppend(c + u + n, u);
    LowerAppend(c + u + n + u, v);
  }

  /** The lower-cased remainder splits into three segments at the two splitters. */
  lemma CustomVariablePieces()
    ensures Split("custom" + "__" + "new" + "__" + "var", DefaultSplitter) == ["custom", "new", "var"]
  {
    assert forall i :: 0 <= i < |"var"| ==> "var"[i] != '_';
    AbsentWhenCharMissing("var", "__", 0);
    SplitAbsent("var", "__");
    SplitFirst("new", "__", "var");
    SplitFirst("custom", "__", "new" + "__" + "var");
    assert "custom" + "__" + "new" + "__" + "var" == "custom" + "__" + ("new" + "__" + "var");
  }

  /** What is left of the name once the prefix and the leading splitter are gone, lower-cased. */
  lemma CustomVariableRemainder()
    ensures Remainder(CustomVariable, DefaultEnvPrefix, DefaultSplitter) == "custom" + "__" + "new" + "__" + "var"
  {
    CustomVariablePrefixRemoved();
    CustomVariableStripped();
    CustomVariableLowered();
  }

  /** `SETTINGS__CUSTOM__NEW__VAR` with the default prefix and splitter writes `custom` / `new` / `var`. */
  lemma CustomVariablePath()
    ensures KeyPath(CustomVariable, DefaultEnvPrefix, DefaultSplitter) == Success(["custom", "new", "var"])
  {
    CustomVariableRemainder();
    CustomVariablePieces();
  }

  /** `SETTINGS__DB__SETTINGS_FILE`: the prefix recurs inside the name. */
  const InnerPrefixVariable := "SETTINGS" + ("__DB__" + ("SETTINGS" + "_FILE"))

  lemma InnerPrefixRemoved()
    ensures RemoveAll(InnerPrefixVariable, DefaultEnvPrefix) == "__DB__" + "_FILE"
  {
    var p := DefaultEnvPrefix;
    assert InnerPrefixVariable[|p|..] == "__DB__" + (p + "_FILE");
    RemoveAllSkips("__DB__", p + "_FILE", p);
    assert (p + "_FILE")[|p|..] == "_FILE";
    assert forall i :: 0 <= i < |"_FILE"| ==> "_FILE"[i] != p[0];
    AbsentWhenCharMissing("_FILE", p, 0);
    RemoveAllAbsent("_FILE", p);
  }

  lemma InnerPrefixStripped()
    ensures LStrip("__DB__" + "_FILE", CharsOf(DefaultSplitter)) == "DB" + "___" + "FILE"
  {
    DefaultSplitterChars();
    assert "__DB__" + "_FILE" == "__" + ("DB" + "___" + "FILE");
    LStripLeading("__", "DB" + "___" + "FILE", {'_'});
  }

  lemma InnerPrefixLowered()
    ensures Lower("DB" + "___" + "FILE") == "db" + "___" + "file"
  {
    assert Lower("DB") == "db";
    assert Lower("___") == "___";
    assert Lower("FILE") == "file";
    LowerAppend("DB", "___");
    LowerAppend("DB" + "___", "FILE");
  }

  /** The lower-cased remainder: the third underscore now starts the second segment. */
  lemma InnerPrefixRemainder()
    ensures Remainder(InnerPrefixVariable, DefaultEnvPrefix, DefaultSplitter) == "db" + "__" + "_file"
  {
    InnerPrefixRemoved();
    InnerPrefixStripped();
    InnerPrefixLowered();
    assert "db" + "___" + "file" == "db" + "__" + "_file";
  }

  /** `_file` holds no double underscore, so it is one piece. */
  lemma InnerPrefixLastPiece()
    ensures Split("_file", DefaultSplitter) == ["_file"]
  {
    var t := "_file";
    assert t[1] == 'f';
    assert forall i :: 1 <= i < |t| ==> t[i] != '_';
    forall i | 0 <= i < |t| ensures !StartsWith(t[i..], "__") {
      assert t[i..][0] == t[i];
      if i + 1 < |t| {
        assert t[i..][1] == t[i + 1];
      }
    }
    SplitAbsent(t, "__");
  }

  lemma InnerPrefixPieces()
    ensures Split("db" + "__" + "_file", DefaultSplitter) == ["db", "_file"]
  {
    InnerPrefixLastPiece();
    assert forall i :: 0 <= i < |"db"| ==> "db"[i] != '_';
    AbsentWhenCharMissing("db", "__", 0);
    SplitFirst("db", "__", "_file");
  }

  /**
    Every occurrence of the prefix is removed, not only the leading one, so
    `SETTINGS__DB__SETTINGS_FILE` writes `db` / `_file` rather than
    `db` / `settings_file`.
  */
  lemma InnerPrefixPath()
    ensures KeyPath(InnerPrefixVariable, DefaultEnvPrefix, DefaultSplitter) == Success(["db", "_file"])
  {
    InnerPrefixRemainder();
    InnerPrefixPieces();
  }

  /** With the selector variable unset, the active environment is `development`. */
  lemma DefaultEnvironment()
    ensures ResolveEnv(DefaultOptions, []) == ("APP_ENV", "development")
  {
    assert forall i :: 0 <= i < |DefaultEnv| ==> !IsAsciiLower(DefaultEnv[i]);
    UpperKeepsUpper(DefaultEnv);
  }

  /** A custom selector variable `TEST_ENV=production` makes `production` the active environment. */
  lemma CustomSelector()
    ensures ResolveEnv(DefaultOptions.(envName := "TEST" + "_ENV"), [EnvVar("TEST" + "_ENV", "production")])
      == ("TEST" + "_ENV", "production")
  {
    var name := "TEST" + "_ENV";
    assert forall i :: 0 <= i < |name| ==> !IsAsciiLower(name[i]);
    UpperKeepsUpper(name);
  }

  /**
    Merging is shallow: an environment file that redefines the nested mapping
    under `common` replaces it wholesale, dropping the base file's `b`.
  */
  lemma ShallowMerge()
    ensures LoadAll(map[], [
        File("common.yml", Map(map["common" := Map(map["a" := Int(1), "b" := Int(2)])])),
        File("development.yml", Map(map["common" := Map(map["a" := Int(3)])]))])
      == Success(map["common" := Map(map["a" := Int(3)])])
  {
    var base := File("common.yml", Map(map["common" := Map(map["a" := Int(1), "b" := Int(2)])]));
    var dev := File("development.yml", Map(map["common" := Map(map["a" := Int(3)])]));
    assert [base, dev][..1] == [base];
    assert [base][..0] == [];
    assert "common" in base.doc.entries && "common" in dev.doc.entries;
    var c := map[] + base.doc.entries;
    assert LoadAll(map[], [base]) == Success(c);
    assert c + dev.doc.entries == map["common" := Map(map["a" := Int(3)])];
  }

  /**
    The registry between two test scenarios: a second construction returns
    the cached store whatever its arguments; after a reset the next
    construction builds a new store with the same contents.
  */
  method RegistryAcrossScenarios(opts: Options, other: Options, environ: Environ, fs: FileSystem)
    returns (first: AppSettings, second: AppSettings, third: AppSettings)
    requires Build(opts, environ, fs).Success?
    ensures second == first
    ensures third != first
    ensures third.Snapshot() == first.Snapshot() == Build(opts, environ, fs).value
  {
    var registry := new Registry();
    var r := registry.GetOrCreate(opts, environ, fs);
    first := r.value;
    r := registry.GetOrCreate(other, environ, fs);
    second := r.value;
    registry.Reset();
    r := registry.GetOrCreate(opts, environ, fs);
    third := r.value;
  }
}
