/**
  File discovery: the files a directory holds, the `glob` patterns the loader
  uses on them, and the `sorted` order in which they are loaded.
*/
module Files {
  import opened Strings
  import opened Values

  /** A regular file in a configuration directory with the document it parses to. */
  datatype File = File(name: string, doc: Value)

  /** The two directories the loader reads. */
  datatype FileSystem = FileSystem(
    base: seq<File>,     // the files directly inside `configs_path`
    settings: seq<File>  // the files inside `configs_path/settings`
  )

  const Extension := ".yml"

  /** The two patterns the loader globs for. */
  datatype Pattern =
    | AnyYml            // `*.yml`
    | EnvYml(env: string)  // `<env>*.yml`

  predicate IsHidden(name: string) { name != [] && name[0] == '.' }

  /**
    Whether `glob` reports `name` for the pattern. A `*` matches any run of
    characters, including none; `glob` never reports a name starting with `.`
    unless the pattern itself starts with `.`. Matching is case-sensitive.
  */
  function Matches(pat: Pattern, name: string): (r: bool)
    ensures r ==> |name| >= |Extension| && name == name[..|name| - |Extension|] + Extension
    ensures r && pat.EnvYml? ==>
      |pat.env| <= |name| - |Extension| && name == pat.env + name[|pat.env|..|name| - |Extension|] + Extension
    ensures r && IsHidden(name) ==> pat.EnvYml? && IsHidden(pat.env)
  {
    match pat
    case AnyYml =>
      EndsWith(name, Extension) && !IsHidden(name)
    case EnvYml(env) =>
      |env| + |Extension| <= |name| && StartsWith(name, env) && EndsWith(name, Extension)
      && (IsHidden(name) ==> IsHidden(env))
  }

  /** Every name made of a stem and `.yml` matches `*.yml` unless it is hidden. */
  lemma AnyYmlMatches(stem: string)
    ensures Matches(AnyYml, stem + Extension) <==> !IsHidden(stem + Extension)
  {
    var name := stem + Extension;
    assert name[|name| - |Extension|..] == Extension;
  }

  /**
    Every name made of `env`, any run of characters and `.yml` matches
    `<env>*.yml`, unless it is hidden and `env` is not.
  */
  lemma EnvYmlMatches(env: string, run: string)
    ensures Matches(EnvYml(env), env + run + Extension) <==> (IsHidden(env + run + Extension) ==> IsHidden(env))
  {
    var name := env + run + Extension;
    assert name[|name| - |Extension|..] == Extension;
    assert env <= name;
  }

  /** `glob(dir/pattern)`: the files of a directory whose name matches. */
  function Glob(dir: seq<File>, pat: Pattern): (r: seq<File>)
    ensures forall f {:trigger f in r} :: f in r <==> f in dir && Matches(pat, f.name)
    ensures multiset(r) <= multiset(dir)
  {
    if dir == [] then []
    else
      var rest := Glob(dir[1..], pat);
      assert dir == [dir[0]] + dir[1..];
      if Matches(pat, dir[0].name) then [dir[0]] + rest else rest
  }

  /** Ascending name order: every file's name is at most that of every file after it. */
  predicate SortedByName(fs: seq<File>)
  {
    forall i, j :: 0 <= i < j < |fs| ==> LessEq(fs[i].name, fs[j].name)
  }

  function Insert(f: File, fs: seq<File>): (r: seq<File>)
    requires SortedByName(fs)
    ensures SortedByName(r)
    ensures multiset(r) == multiset(fs) + multiset{f}
  {
    if fs == [] then [f]
    else if LessEq(f.name, fs[0].name) then
      assert forall j :: 0 < j < |fs| ==> LessEq(f.name, fs[j].name) by {
        forall j | 0 < j < |fs| ensures LessEq(f.name, fs[j].name) {
          LessEqTransitive(f.name, fs[0].name, fs[j].name);
        }
      }
      [f] + fs
    else
      LessEqTotal(f.name, fs[0].name);
      var rest := Insert(f, fs[1..]);
      assert fs == [fs[0]] + fs[1..];
      assert forall j :: 0 <= j < |rest| ==> LessEq(fs[0].name, rest[j].name) by {
        forall j | 0 <= j < |rest| ensures LessEq(fs[0].name, rest[j].name) {
          assert rest[j] in multiset(rest);
          if rest[j] != f {
            assert rest[j] in fs[1..];
          }
        }
      }
      [fs[0]] + rest
  }

  /**
    `sorted(files)`: the same files in ascending name order. Every file of one
    directory shares the directory part of its path, so ordering the paths
    `glob` returns is ordering the names.
  */
  function SortByName(fs: seq<File>): (r: seq<File>)
    ensures SortedByName(r)
    ensures multiset(r) == multiset(fs)
  {
    if fs == [] then []
    else
      assert fs == [fs[0]] + fs[1..];
      Insert(fs[0], SortByName(fs[1..]))
  }
}
