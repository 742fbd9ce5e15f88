/**
 * `file_from_path`: turns a stored name into the place the payload is
 * written. Backslashes become slashes, the result is split into path
 * components with the Unix rules of `Path::components`, the last component
 * is the file name (kept as it is), and of the components before it only
 * the plain names are kept as directories.
 */
module Paths {
  import opened Wrappers
  import opened Errors

  /** A component of a path, as `std::path::Component` distinguishes them.
      `Prefix` is only produced on Windows and never by `Components` here;
      the sanitiser still handles it. */
  datatype Component =
    | Prefix(text: string)
    | RootDir
    | CurDir
    | ParentDir
    | Normal(name: string)

  /** `replace("\\", "/")`. */
  function Normalise(s: string): (r: string)
    ensures |r| == |s|
    ensures forall i :: 0 <= i < |s| ==> r[i] == (if s[i] == '\\' then '/' else s[i])
  {
    if |s| == 0 then ""
    else [if s[0] == '\\' then '/' else s[0]] + Normalise(s[1..])
  }

  predicate NoSlash(f: string) {
    forall i :: 0 <= i < |f| ==> f[i] != '/'
  }

  /** The fields of s between slashes; there is always at least one. */
  function Split(s: string): (r: seq<string>)
    ensures |r| >= 1
    ensures forall j :: 0 <= j < |r| ==> NoSlash(r[j])
    decreases |s|
  {
    if |s| == 0 then [""]
    else
      var rest := Split(s[1..]);
      if s[0] == '/' then [""] + rest
      else [[s[0]] + rest[0]] + rest[1..]
  }

  /** The fields joined back together with slashes. */
  function Join(fs: seq<string>): string
    requires |fs| >= 1
  {
    if |fs| == 1 then fs[0] else fs[0] + "/" + Join(fs[1..])
  }

  /** Splitting loses nothing: joining the fields gives back the string. */
  lemma {:induction false} JoinSplit(s: string)
    ensures Join(Split(s)) == s
    decreases |s|
  {
    if |s| > 0 {
      var rest := Split(s[1..]);
      JoinSplit(s[1..]);
      if s[0] == '/' {
        assert ([""] + rest)[1..] == rest;
      } else {
        var r := [[s[0]] + rest[0]] + rest[1..];
        if |rest| == 1 {
          assert r == [[s[0]] + rest[0]];
        } else {
          assert r[1..] == rest[1..];
          assert Join(rest) == rest[0] + "/" + Join(rest[1..]);
        }
        assert s == [s[0]] + s[1..];
      }
    }
  }

  /** Splitting a field with no slash gives that field alone. */
  lemma {:induction false} SplitField(f: string)
    requires NoSlash(f)
    ensures Split(f) == [f]
    decreases |f|
  {
    if |f| > 0 {
      SplitField(f[1..]);
      assert [f[0]] + f[1..] == f;
    }
  }

  /** A slash-free field followed by a slash and more text splits into the
      field, then the fields of the rest. */
  lemma {:induction false} SplitAfterField(f: string, t: string)
    requires NoSlash(f)
    ensures Split(f + "/" + t) == [f] + Split(t)
    decreases |f|
  {
    if |f| == 0 {
      assert f + "/" + t == ['/'] + t;
      assert (['/'] + t)[1..] == t;
    } else {
      var w := f + "/" + t;
      assert w[1..] == f[1..] + "/" + t;
      SplitAfterField(f[1..], t);
      assert [f[0]] + f[1..] == f;
    }
  }

  /** Joining slash-free fields and splitting again gives the fields back. */
  lemma {:induction false} SplitJoin(fs: seq<string>)
    requires |fs| >= 1
    requires forall j :: 0 <= j < |fs| ==> NoSlash(fs[j])
    ensures Split(Join(fs)) == fs
    decreases |fs|
  {
    if |fs| == 1 {
      SplitField(fs[0]);
    } else {
      SplitJoin(fs[1..]);
      SplitAfterField(fs[0], Join(fs[1..]));
      assert [fs[0]] + fs[1..] == fs;
    }
  }

  /** The component a field stands for; empty fields (repeated or trailing
      slashes) and `.` fields stand for none. */
  function Kind(f: string): (r: Option<Component>)
    ensures r.None? <==> f == "" || f == "."
    ensures r.Some? ==> (r.value.ParentDir? <==> f == "..")
    ensures r.Some? && !r.value.ParentDir? ==> r.value == Normal(f)
  {
    if f == "" || f == "." then None
    else if f == ".." then Some(ParentDir)
    else Some(Normal(f))
  }

  /** The components the fields stand for, in order. */
  function Parts(fs: seq<string>): (r: seq<Component>)
    ensures |r| <= |fs|
  {
    if |fs| == 0 then []
    else
      match Kind(fs[0])
      case None => Parts(fs[1..])
      case Some(c) => [c] + Parts(fs[1..])
  }

  /** `Path::components` on a `/`-separated path: a leading slash gives
      `RootDir`, a leading `.` field (and only a leading one) gives `CurDir`,
      and the fields then give their parts. */
  function Components(p: string): seq<Component> {
    var fields := Split(p);
    var head :=
      if 0 < |p| && p[0] == '/' then [RootDir]
      else if fields[0] == "." then [CurDir]
      else [];
    head + Parts(fields)
  }

  /** A directory name the sanitiser may keep: a single plain name, which
      can neither climb out of the working directory nor start from the root. */
  predicate IsPlainName(x: string) {
    && x != "" && x != "." && x != ".."
    && forall i :: 0 <= i < |x| ==> x[i] != '/' && x[i] != '\\'
  }

  /** The names of the `Normal` components, in order: everything else is dropped. */
  function Sanitize(cs: seq<Component>): (r: seq<string>)
    ensures |r| <= |cs|
    ensures |r| == |cs| <==> forall i :: 0 <= i < |cs| ==> cs[i].Normal?
  {
    if |cs| == 0 then []
    else if cs[0].Normal? then [cs[0].name] + Sanitize(cs[1..])
    else Sanitize(cs[1..])
  }

  /** Where one payload goes: the kept directories, and the last component
      of the name, which is not filtered. */
  datatype Target = Target(dirs: seq<string>, file: Component)

  /** `file_from_path`, without the directory and file creation: the target,
      or `EmptyPath` when the name has no components at all. */
  function FileFromPath(name: string, entry: nat): (r: Result<Target, Failure>)
    ensures r.Failure? ==> r.error == EmptyPath(entry)
  {
    var cs := Components(Normalise(name));
    if |cs| == 0 then Failure(EmptyPath(entry))
    else Success(Target(Sanitize(cs[..|cs| - 1]), cs[|cs| - 1]))
  }

  /** Every field of a path without backslashes is free of both separators. */
  lemma FieldsHaveNoSeparator(p: string)
    requires forall i :: 0 <= i < |p| ==> p[i] != '\\'
    ensures forall j, i :: 0 <= j < |Split(p)| && 0 <= i < |Split(p)[j]| ==>
      Split(p)[j][i] != '/' && Split(p)[j][i] != '\\'
  {
    JoinSplit(p);
    forall j, i | 0 <= j < |Split(p)| && 0 <= i < |Split(p)[j]|
      ensures Split(p)[j][i] != '\\'
    {
      JoinHolds(Split(p), j, i);
    }
  }

  /** Every character of a field occurs in the joined string. */
  lemma {:induction false} JoinHolds(fs: seq<string>, j: nat, i: nat)
    requires |fs| >= 1 && j < |fs| && i < |fs[j]|
    ensures exists k :: 0 <= k < |Join(fs)| && Join(fs)[k] == fs[j][i]
    decreases |fs|
  {
    if |fs| == 1 {
      assert Join(fs)[i] == fs[j][i];
    } else if j == 0 {
      assert Join(fs)[i] == fs[0][i];
    } else {
      JoinHolds(fs[1..], j - 1, i);
      var k :| 0 <= k < |Join(fs[1..])| && Join(fs[1..])[k] == fs[1..][j - 1][i];
      assert Join(fs)[|fs[0]| + 1 + k] == Join(fs[1..])[k];
    }
  }

  /** The names of `Parts` of separator-free fields are plain names. */
  lemma {:induction false} PartsArePlain(fs: seq<string>)
    requires forall j, i :: 0 <= j < |fs| && 0 <= i < |fs[j]| ==> fs[j][i] != '/' && fs[j][i] != '\\'
    ensures forall c :: c in Parts(fs) && c.Normal? ==> IsPlainName(c.name)
    decreases |fs|
  {
    if |fs| > 0 {
      PartsArePlain(fs[1..]);
      assert forall j, i :: 0 <= j < |fs[1..]| && 0 <= i < |fs[1..][j]| ==> fs[1..][j][i] == fs[j + 1][i];
    }
  }

  /** `Components` never gives `Prefix`; `RootDir` and `CurDir` come only
      first; and every `Normal` component of a backslash-free path is a
      plain name. */
  lemma ComponentsShape(p: string)
    requires forall i :: 0 <= i < |p| ==> p[i] != '\\'
    ensures forall c :: c in Components(p) ==> !c.Prefix?
    ensures forall j :: 0 < j < |Components(p)| ==> !Components(p)[j].RootDir? && !Components(p)[j].CurDir?
    ensures forall c :: c in Components(p) && c.Normal? ==> IsPlainName(c.name)
  {
    var parts := Parts(Split(p));
    FieldsHaveNoSeparator(p);
    PartsArePlain(Split(p));
    PartsKinds(Split(p));
    forall j | 0 < j < |Components(p)|
      ensures !Components(p)[j].RootDir? && !Components(p)[j].CurDir?
    {
      var h := |Components(p)| - |parts|;
      assert Components(p)[j] == parts[j - h];
      assert parts[j - h] in parts;
    }
  }

  /** `Parts` gives only `ParentDir` and `Normal` components. */
  lemma {:induction false} PartsKinds(fs: seq<string>)
    ensures forall c :: c in Parts(fs) ==> c.ParentDir? || c.Normal?
    decreases |fs|
  {
    if |fs| > 0 {
      PartsKinds(fs[1..]);
    }
  }

  /** A path has no components exactly when it is empty. */
  lemma ComponentsEmpty(p: string)
    ensures |Components(p)| == 0 <==> p == ""
  {
    if p != "" && !(p[0] == '/') {
      var fields := Split(p);
      JoinSplit(p);
      if fields[0] != "." {
        FirstFieldCounts(p);
        assert Kind(fields[0]).Some?;
      }
    }
  }

  /** A path that does not start with a slash has a non-empty first field. */
  lemma FirstFieldCounts(p: string)
    requires p != "" && p[0] != '/'
    ensures Split(p)[0] != ""
  {
  }

  /** The name yields no target exactly when it is empty. */
  lemma FileFromPathFails(name: string, entry: nat)
    ensures FileFromPath(name, entry).Failure? <==> name == ""
  {
    ComponentsEmpty(Normalise(name));
  }

  /** The directories of a target are plain names: no root, prefix, `.` or
      `..` survives, and no separator hides inside one. */
  lemma DirsArePlain(name: string, entry: nat)
    requires FileFromPath(name, entry).Success?
    ensures forall d :: d in FileFromPath(name, entry).value.dirs ==> IsPlainName(d)
  {
    var p := Normalise(name);
    var cs := Components(p);
    ComponentsShape(p);
    SanitizeKeepsNames(cs[..|cs| - 1]);
    forall d | d in Sanitize(cs[..|cs| - 1]) ensures IsPlainName(d) {
      var c :| c in cs[..|cs| - 1] && c.Normal? && c.name == d;
      assert c in cs;
    }
  }

  /** Sanitising keeps exactly the names of the `Normal` components. */
  lemma {:induction false} SanitizeKeepsNames(cs: seq<Component>)
    ensures forall d :: d in Sanitize(cs) <==> exists c :: c in cs && c.Normal? && c.name == d
    decreases |cs|
  {
    if |cs| > 0 {
      SanitizeKeepsNames(cs[1..]);
      forall d ensures d in Sanitize(cs) <==> exists c :: c in cs && c.Normal? && c.name == d {
        if d in Sanitize(cs) && !(cs[0].Normal? && cs[0].name == d) {
          assert d in Sanitize(cs[1..]);
          var c :| c in cs[1..] && c.Normal? && c.name == d;
          assert c in cs;
        }
        if exists c :: c in cs && c.Normal? && c.name == d {
          var c :| c in cs && c.Normal? && c.name == d;
          if c != cs[0] {
            assert c in cs[1..];
          }
        }
      }
    }
  }

  /** Sanitising distributes over concatenation: order is kept. */
  lemma {:induction false} SanitizeAppend(a: seq<Component>, b: seq<Component>)
    ensures Sanitize(a + b) == Sanitize(a) + Sanitize(b)
    decreases |a|
  {
    if |a| > 0 {
      assert (a + b)[0] == a[0];
      assert (a + b)[1..] == a[1..] + b;
      SanitizeAppend(a[1..], b);
      if a[0].Normal? {
        assert [a[0].name] + (Sanitize(a[1..]) + Sanitize(b)) == ([a[0].name] + Sanitize(a[1..])) + Sanitize(b);
      }
    } else {
      assert a + b == b;
    }
  }

  /** The plain names as components. */
  function AsNormal(xs: seq<string>): (r: seq<Component>)
    ensures |r| == |xs|
    ensures forall j :: 0 <= j < |xs| ==> r[j] == Normal(xs[j])
  {
    seq(|xs|, j requires 0 <= j < |xs| => Normal(xs[j]))
  }

  /** Sanitising is idempotent: the kept names, as components, are all kept. */
  lemma {:induction false} SanitizeIdempotent(cs: seq<Component>)
    ensures Sanitize(AsNormal(Sanitize(cs))) == Sanitize(cs)
  {
    SanitizeOfNormals(Sanitize(cs));
  }

  /** Components that are all `Normal` are kept whole. */
  lemma {:induction false} SanitizeOfNormals(xs: seq<string>)
    ensures Sanitize(AsNormal(xs)) == xs
    decreases |xs|
  {
    if |xs| > 0 {
      assert AsNormal(xs)[1..] == AsNormal(xs[1..]);
      SanitizeOfNormals(xs[1..]);
      assert [xs[0]] + xs[1..] == xs;
    }
  }
}
