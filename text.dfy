/** String operations of the Python standard library that the scripts rely on:
    `os.path.basename`, `str.find` / `in`, `str.replace(old, new, 1)` and the
    dropping of empty lines from a listing. */
module Text {
  import opened Results

  /** `t` occurs in `s` starting at index `k`. */
  predicate OccursAt<T(==)>(s: seq<T>, t: seq<T>, k: nat)
  {
    k + |t| <= |s| && s[k..k + |t|] == t
  }

  /** The leftmost occurrence of `t` in `s` at or after `from`. */
  function FindFrom<T(==)>(s: seq<T>, t: seq<T>, from: nat): (r: Option<nat>)
    ensures r.Some? ==> from <= r.value && OccursAt(s, t, r.value)
    ensures r.Some? ==> forall k: nat :: from <= k < r.value ==> !OccursAt(s, t, k)
    ensures r.None? ==> forall k: nat :: from <= k ==> !OccursAt(s, t, k)
    decreases |s| - from
  {
    if from + |t| > |s| then None
    else if s[from..from + |t|] == t then Some(from)
    else FindFrom(s, t, from + 1)
  }

  /** `s.find(t)`, as an option: the leftmost index where `t` occurs. */
  function Find<T(==)>(s: seq<T>, t: seq<T>): Option<nat>
  {
    FindFrom(s, t, 0)
  }

  /** `t in s`. */
  predicate Contains<T(==)>(s: seq<T>, t: seq<T>)
  {
    Find(s, t).Some?
  }

  /** `in` holds exactly when some occurrence exists. */
  lemma ContainsIff<T>(s: seq<T>, t: seq<T>)
    ensures Contains(s, t) <==> exists k: nat :: OccursAt(s, t, k)
  {
  }

  /** `s.replace(old, new, 1)`: the leftmost occurrence of `pattern`, if any, becomes `replacement`. */
  function ReplaceFirst<T(==)>(s: seq<T>, pattern: seq<T>, replacement: seq<T>): seq<T>
  {
    match Find(s, pattern)
    case None => s
    case Some(k) => s[..k] + replacement + s[k + |pattern|..]
  }

  /** `os.path.basename` (POSIX): the text after the last '/'. */
  function Basename(path: string): (name: string)
    ensures '/' !in name
  {
    if path == [] || path[|path| - 1] == '/' then []
    else Basename(path[..|path| - 1]) + [path[|path| - 1]]
  }

  /** The basename is the longest suffix of the path that holds no '/'. */
  lemma {:induction false} BasenameIsLongestSuffix(path: string)
    ensures |Basename(path)| <= |path| && path[|path| - |Basename(path)|..] == Basename(path)
    ensures |Basename(path)| == |path| || path[|path| - |Basename(path)| - 1] == '/'
  {
    if path != [] && path[|path| - 1] != '/' {
      var front := path[..|path| - 1];
      BasenameIsLongestSuffix(front);
      var b := Basename(front);
      assert path[|path| - |b| - 1..] == front[|front| - |b|..] + [path[|path| - 1]];
    }
  }

  /** A name under a directory loses the directory; a path without '/' is its
      own basename. */
  lemma {:induction false} BasenameOfJoin(dir: string, name: string)
    requires '/' !in name
    requires dir == [] || dir[|dir| - 1] == '/'
    ensures Basename(dir + name) == name
  {
    if name != [] {
      var p := dir + name;
      var front := name[..|name| - 1];
      assert p[|p| - 1] == name[|name| - 1] && name[|name| - 1] in name;
      assert p[..|p| - 1] == dir + front;
      assert '/' !in front by {
        forall i | 0 <= i < |front| ensures front[i] != '/' {
          assert front[i] == name[i] && name[i] in name;
        }
      }
      BasenameOfJoin(dir, front);
      assert name == front + [name[|name| - 1]];
    } else {
      assert dir + name == dir;
    }
  }

  /** `[x for x in lines if len(x) > 0]`. */
  function NonEmpty(lines: seq<string>): (r: seq<string>)
    ensures multiset(r) == multiset(lines)[[] := 0]
  {
    if lines == [] then []
    else
      assert lines == [lines[0]] + lines[1..];
      if lines[0] == [] then NonEmpty(lines[1..]) else [lines[0]] + NonEmpty(lines[1..])
  }
}
