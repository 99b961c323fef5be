/** `should_exclude`: the test that keeps version-control, editor, cache and
    virtual-environment entries out of the packed archive. */
module Pack {

  /** `exclude_list`. */
  const ExcludeList: seq<string> :=
    [".git", ".github", ".gitignore", "venv", ".idea", "__pycache__", ".pytest_cache", ".venv_mac", ".venv_win"]

  /** `name.endswith(suffix)`. */
  predicate EndsWith(name: string, suffix: string)
  {
    |suffix| <= |name| && name[|name| - |suffix|..] == suffix
  }

  /** `os.path.basename` on a POSIX path: what follows the last '/', or the
      whole name when it has none. */
  function Basename(name: string): (b: string)
    ensures EndsWith(name, b) && '/' !in b
    ensures |b| < |name| ==> name[|name| - |b| - 1] == '/'
  {
    if name == [] || name[|name| - 1] == '/' then []
    else Basename(name[..|name| - 1]) + [name[|name| - 1]]
  }

  /** The test each pattern is put to. */
  predicate Matches(name: string, pattern: string)
  {
    EndsWith(name, pattern) || Basename(name) == pattern
  }

  /** The name is excluded when some pattern matches it. */
  predicate Excluded(name: string)
  {
    exists k | 0 <= k < |ExcludeList| :: Matches(name, ExcludeList[k])
  }

  /** `should_exclude`. */
  method ShouldExclude(name: string) returns (exclude: bool)
    ensures exclude <==> Excluded(name)
  {
    for i := 0 to |ExcludeList|
      invariant forall k | 0 <= k < i :: !Matches(name, ExcludeList[k])
    {
      if EndsWith(name, ExcludeList[i]) || Basename(name) == ExcludeList[i] {
        return true;
      }
    }
    return false;
  }

  /** The basename test never excludes a name the suffix test keeps: a
      name is excluded exactly when it ends with some pattern. */
  lemma ExcludedIsSuffix(name: string)
    ensures Excluded(name) <==> exists k | 0 <= k < |ExcludeList| :: EndsWith(name, ExcludeList[k])
  {
    if Excluded(name) {
      var k :| 0 <= k < |ExcludeList| && Matches(name, ExcludeList[k]);
      assert EndsWith(name, ExcludeList[k]);
    }
  }

  /** Matching is by suffix, not by whole path component: "myvenv" ends
      with "venv" and is excluded, and a plain source file is kept. */
  lemma Examples()
    ensures Excluded("project/myvenv")
    ensures !Excluded("project/main.py")
  {
    assert EndsWith("project/myvenv", ExcludeList[3]);
    var name := "project/main.py";
    forall k | 0 <= k < |ExcludeList| ensures !EndsWith(name, ExcludeList[k]) {
      assert name[|name| - 1] == 'y';
    }
    ExcludedIsSuffix(name);
  }
}
