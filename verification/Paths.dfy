/** Normal forms of paths: `convertToAbsolutePath`. */
module Paths {
  import opened Options

  /** The parts of a path between its slashes. */
  function Components(s: string): (cs: seq<string>)
    ensures cs != []
  {
    if s == "" then [""]
    else if s[0] == '/' then [""] + Components(s[1..])
    else
      var tail := Components(s[1..]);
      [[s[0]] + tail[0]] + tail[1..]
  }

  /** Works the components off on a stack of directories. `None`: a `..` finds the stack empty,
      where the source pops from an empty vector. */
  function Resolve(stack: seq<string>, cs: seq<string>): Option<seq<string>>
    decreases |cs|
  {
    if cs == [] then Some(stack)
    else if cs[0] == ".." then
      if stack == [] then None else Resolve(stack[..|stack| - 1], cs[1..])
    else if cs[0] == "." || cs[0] == "" then Resolve(stack, cs[1..])
    else Resolve(stack + [cs[0]], cs[1..])
  }

  function Join(cs: seq<string>): string { if cs == [] then "" else "/" + cs[0] + Join(cs[1..]) }

  /** The directories of the normal form of a complete path. */
  function Directories(path: string): Option<seq<string>> { Resolve([], Components(path)) }

  function Normal(path: string): Option<string> {
    match Directories(path) case None => None case Some(cs) => Some(Join(cs))
  }

  /** The path without enclosing quotes; a lone quote encloses nothing. */
  function Unquoted(path: string): string {
    if path != "" && path[0] == '"' && path[|path| - 1] == '"' then
      if |path| == 1 then "" else path[1..|path| - 1]
    else path
  }

  /** `system_complete`: a relative path is taken from the working directory. */
  function Complete(cwd: string, path: string): string {
    if path == "" || path[0] == '/' then path
    else if cwd != "" && cwd[|cwd| - 1] == '/' then cwd + path
    else cwd + "/" + path
  }

  /** The directories that a path of the configuration or of a request stands for. */
  function Absolute(cwd: string, path: string): Option<seq<string>> { Directories(Complete(cwd, Unquoted(path))) }

  // ----- above the root -----

  /** How far down some components lead: a name one step, `..` one step up. */
  function Height(cs: seq<string>): int {
    if cs == [] then 0
    else (if cs[0] == ".." then -1 else if cs[0] == "." || cs[0] == "" then 0 else 1) + Height(cs[1..])
  }

  /** Somewhere on the way, from `depth` directories down, there are more steps up than down. */
  predicate Underflows(depth: nat, cs: seq<string>) { exists k :: 0 <= k <= |cs| && depth + Height(cs[..k]) < 0 }

  /** The components leave the stack exactly then. */
  lemma {:induction false} ResolveFailsExactlyIfUnderflows(stack: seq<string>, cs: seq<string>)
    ensures Resolve(stack, cs).None? <==> Underflows(|stack|, cs)
    decreases |cs|
  {
    assert Height(cs[..0]) == 0;
    if cs != [] {
      var c, tail := cs[0], cs[1..];
      forall k | 0 <= k <= |tail| ensures cs[..k + 1][0] == c && cs[..k + 1][1..] == tail[..k] {
      }
      if c == ".." && stack == [] {
        assert cs[..1][1..] == [] && |stack| + Height(cs[..1]) < 0;
      } else {
        var next := if c == ".." then stack[..|stack| - 1] else if c == "." || c == "" then stack else stack + [c];
        ResolveFailsExactlyIfUnderflows(next, tail);
        UnderflowsLater(|stack|, |next|, cs);
      }
    }
  }

  lemma UnderflowsLater(depth: nat, next: nat, cs: seq<string>)
    requires cs != [] && next == depth + if cs[0] == ".." then -1 else if cs[0] == "." || cs[0] == "" then 0 else 1
    ensures Underflows(depth, cs) <==> Underflows(next, cs[1..])
  {
    var tail := cs[1..];
    if Underflows(depth, cs) {
      var k :| 0 <= k <= |cs| && depth + Height(cs[..k]) < 0;
      assert k > 0 && cs[..k][1..] == tail[..k - 1];
      assert next + Height(tail[..k - 1]) < 0;
    }
    if Underflows(next, tail) {
      var k :| 0 <= k <= |tail| && next + Height(tail[..k]) < 0;
      assert cs[..k + 1][1..] == tail[..k];
      assert depth + Height(cs[..k + 1]) < 0;
    }
  }

  /** The path goes above the root on its way. */
  predicate GoesAboveRoot(cwd: string, path: string) { Underflows(0, Components(Complete(cwd, Unquoted(path)))) }

  /** A path stands for directories unless it goes above the root on its way. */
  lemma AbsoluteUnlessAboveRoot(cwd: string, path: string)
    ensures Absolute(cwd, path).None? <==> GoesAboveRoot(cwd, path)
  {
    ResolveFailsExactlyIfUnderflows([], Components(Complete(cwd, Unquoted(path))));
  }

  // ----- the loop -----

  /** The components that the loop has not visited at position `i`. */
  function Pending(path: string, i: nat): seq<string> { if i <= |path| then Components(path[i..]) else [] }

  lemma {:induction false} ComponentsSplit(dir: string, rest: string)
    requires '/' !in dir && (rest != "" ==> rest[0] == '/')
    ensures Components(dir + rest) == [dir] + if rest == "" then [] else Components(rest[1..])
  {
    if dir == "" {
      assert dir + rest == rest;
    } else {
      assert (dir + rest)[0] == dir[0] && (dir + rest)[1..] == dir[1..] + rest && dir == [dir[0]] + dir[1..];
      ComponentsSplit(dir[1..], rest);
    }
  }

  method ConvertToAbsolutePath(cwd: string, path: string) returns (r: string)
    requires !GoesAboveRoot(cwd, path)
    ensures Absolute(cwd, path).Some? && r == Join(Absolute(cwd, path).value)
  {
    AbsoluteUnlessAboveRoot(cwd, path);
    var full := Complete(cwd, Unquoted(path));
    var path_comps: seq<string> := [];
    var i: nat := 0;
    assert full[0..] == full;
    while i < |full|
      invariant i <= |full| + 1
      invariant Resolve(path_comps, Pending(full, i)) == Directories(full)
      decreases |full| + 1 - i
    {
      ghost var start := i;
      var dir := "";
      while i < |full| && full[i] != '/'
        invariant start <= i <= |full|
        invariant dir == full[start..i] && '/' !in dir
      {
        dir := dir + [full[i]];
        i := i + 1;
      }
      NextComponent(full, start, i);
      assert Pending(full, start) == [dir] + Pending(full, i + 1);
      if dir == ".." {
        path_comps := path_comps[..|path_comps| - 1];
      } else if dir != "." && dir != "" {
        path_comps := path_comps + [dir];
      }
      i := i + 1;
    }
    PendingIsNothing(full, i, path_comps);
    r := Joined(path_comps);
  }

  method Joined(path_comps: seq<string>) returns (r: string)
    ensures r == Join(path_comps)
  {
    r := "";
    for j := 0 to |path_comps|
      invariant r == Join(path_comps[..j])
    {
      JoinSnoc(path_comps[..j], path_comps[j]);
      assert path_comps[..j] + [path_comps[j]] == path_comps[..j + 1];
      r := r + "/" + path_comps[j];
    }
    assert path_comps[..|path_comps|] == path_comps;
  }

  lemma NextComponent(path: string, start: nat, i: nat)
    requires start <= i <= |path| && '/' !in path[start..i] && (i < |path| ==> path[i] == '/')
    ensures Pending(path, start) == [path[start..i]] + Pending(path, i + 1)
  {
    assert path[start..] == path[start..i] + path[i..];
    ComponentsSplit(path[start..i], path[i..]);
    if i < |path| {
      assert path[i..][1..] == path[i + 1..];
    }
  }

  lemma PendingIsNothing(path: string, i: nat, stack: seq<string>)
    requires |path| <= i
    ensures Resolve(stack, Pending(path, i)) == Some(stack)
  {
    if i == |path| {
      assert path[i..] == "";
      assert Pending(path, i) == [""] && [""][1..] == [];
    }
  }

  lemma {:induction false} JoinAppend(a: seq<string>, b: seq<string>)
    ensures Join(a + b) == Join(a) + Join(b)
  {
    if a == [] {
      assert a + b == b;
    } else {
      assert (a + b)[1..] == a[1..] + b;
      JoinAppend(a[1..], b);
    }
  }

  lemma JoinSnoc(a: seq<string>, c: string)
    ensures Join(a + [c]) == Join(a) + "/" + c
  {
    JoinAppend(a, [c]);
    assert Join([c]) == "/" + c + Join([]);
  }

  // ----- laws -----

  /** The name of a directory in a normal form. */
  predicate IsName(c: string) { c != "" && c != "." && c != ".." && '/' !in c }

  predicate AreNames(cs: seq<string>) { forall i :: 0 <= i < |cs| ==> IsName(cs[i]) }

  predicate SlashFree(cs: seq<string>) { forall i :: 0 <= i < |cs| ==> '/' !in cs[i] }

  lemma {:induction false} ComponentsSlashFree(s: string)
    ensures SlashFree(Components(s))
  {
    if s != "" {
      ComponentsSlashFree(s[1..]);
    }
  }

  lemma {:induction false} ResolvesToNames(stack: seq<string>, cs: seq<string>)
    requires AreNames(stack) && SlashFree(cs) && Resolve(stack, cs).Some?
    ensures AreNames(Resolve(stack, cs).value)
    decreases |cs|
  {
    if cs != [] {
      var tail := cs[1..];
      if cs[0] == ".." {
        ResolvesToNames(stack[..|stack| - 1], tail);
      } else if cs[0] == "." || cs[0] == "" {
        ResolvesToNames(stack, tail);
      } else {
        ResolvesToNames(stack + [cs[0]], tail);
      }
    }
  }

  /** A normal form has only proper names in it. */
  lemma NormalHasNames(path: string)
    requires Directories(path).Some?
    ensures AreNames(Directories(path).value)
  {
    ComponentsSlashFree(path);
    ResolvesToNames([], Components(path));
  }

  lemma {:induction false} ComponentsAppend(a: string, b: string)
    ensures Components(a + "/" + b) == Components(a) + Components(b)
  {
    var s := a + "/" + b;
    if a == "" {
      assert s[1..] == b;
    } else {
      assert s[0] == a[0] && s[1..] == a[1..] + "/" + b;
      ComponentsAppend(a[1..], b);
    }
  }

  lemma {:induction false} ResolveAppend(stack: seq<string>, a: seq<string>, b: seq<string>)
    ensures Resolve(stack, a + b) == match Resolve(stack, a) case None => None case Some(mid) => Resolve(mid, b)
    decreases |a|
  {
    if a == [] {
      assert a + b == b;
    } else {
      assert (a + b)[0] == a[0] && (a + b)[1..] == a[1..] + b;
      if a[0] == ".." {
        if stack != [] { ResolveAppend(stack[..|stack| - 1], a[1..], b); }
      } else if a[0] == "." || a[0] == "" {
        ResolveAppend(stack, a[1..], b);
      } else {
        ResolveAppend(stack + [a[0]], a[1..], b);
      }
    }
  }

  lemma {:induction false} ComponentsOfJoin(cs: seq<string>)
    requires SlashFree(cs)
    ensures Components(Join(cs)) == [""] + cs
  {
    if cs != [] {
      var tail := Join(cs[1..]);
      ComponentsOfJoin(cs[1..]);
      JoinText(cs);
      AfterSlash(cs[0] + tail);
      ComponentsSplit(cs[0], tail);
      if tail == "" {
        assert Components(tail) == [""];
        assert cs[1..] == [];
      } else {
        AfterSlash(tail[1..]);
        assert "/" + tail[1..] == tail;
        assert Components(tail[1..]) == ([""] + Components(tail[1..]))[1..] == cs[1..];
      }
      assert [cs[0]] + cs[1..] == cs;
    }
  }

  lemma AfterSlash(s: string)
    ensures Components("/" + s) == [""] + Components(s)
  {
    assert ("/" + s)[1..] == s;
  }

  lemma JoinText(cs: seq<string>)
    requires cs != []
    ensures Join(cs) == "/" + (cs[0] + Join(cs[1..]))
    ensures Join(cs[1..]) == "" || Join(cs[1..])[0] == '/'
  {
  }

  lemma {:induction false} NamesResolve(stack: seq<string>, cs: seq<string>)
    requires AreNames(cs)
    ensures Resolve(stack, cs) == Some(stack + cs)
    decreases |cs|
  {
    if cs == [] {
      assert stack + cs == stack;
    } else {
      assert IsName(cs[0]);
      NamesResolve(stack + [cs[0]], cs[1..]);
      assert stack + [cs[0]] + cs[1..] == stack + cs;
    }
  }

  /** A path built from names is its own normal form. */
  lemma NamesAreNormal(cs: seq<string>)
    requires AreNames(cs)
    ensures Directories(Join(cs)) == Some(cs)
  {
    assert SlashFree(cs);
    ComponentsOfJoin(cs);
    assert ([""] + cs)[1..] == cs;
    NamesResolve([], cs);
    assert [] + cs == cs;
  }

  /** Normalising twice is normalising once. */
  lemma NormalIsIdempotent(path: string)
    requires Normal(path).Some?
    ensures Normal(Normal(path).value) == Normal(path)
  {
    NormalHasNames(path);
    NamesAreNormal(Directories(path).value);
  }

  /** Normalising a first part of a path beforehand makes no difference, not even to whether a
      `..` goes too far. */
  lemma NormalPrefix(path: string, more: string)
    requires Normal(path).Some?
    ensures Normal(Normal(path).value + "/" + more) == Normal(path + "/" + more)
  {
    var cs := Directories(path).value;
    NormalHasNames(path);
    NamesAreNormal(cs);
    ComponentsAppend(Join(cs), more);
    ComponentsAppend(path, more);
    ResolveAppend([], Components(Join(cs)), Components(more));
    ResolveAppend([], Components(path), Components(more));
  }

  /** Different lists of names have different normal forms. */
  lemma JoinIsInjective(a: seq<string>, b: seq<string>)
    requires AreNames(a) && AreNames(b) && Join(a) == Join(b)
    ensures a == b
  {
    NamesAreNormal(a);
    NamesAreNormal(b);
  }

  /** A relative path is completed below the working directory, whether or not that ends in a slash. */
  lemma BelowDirectory(cwd: string, path: string)
    requires path != "" && path[0] != '/'
    ensures Directories(Complete(cwd, path)) == Directories(cwd + "/" + path)
  {
    if cwd != "" && cwd[|cwd| - 1] == '/' {
      var above := cwd[..|cwd| - 1];
      assert cwd == above + "/" + "";
      assert cwd + path == above + "/" + path;
      ComponentsAppend(above, "");
      ComponentsAppend(above, path);
      ComponentsAppend(cwd, path);
      ResolveAppend([], Components(above), Components(path));
      ResolveAppend([], Components(above), [""]);
      ResolveAppend([], Components(above) + [""], Components(path));
      SkipsEmpty(Resolve([], Components(above)));
    }
  }

  /** So is one of the configuration or of a request; quotes around it make no difference. */
  lemma RelativePath(cwd: string, path: string)
    requires path != "" && path[0] != '/' && path[0] != '"'
    ensures Absolute(cwd, path) == Directories(cwd + "/" + path)
    ensures Absolute(cwd, "\"" + path + "\"") == Absolute(cwd, path)
  {
    var quoted := "\"" + path + "\"";
    assert quoted[1..|quoted| - 1] == path;
    BelowDirectory(cwd, path);
  }

  lemma SkipsEmpty(stack: Option<seq<string>>)
    ensures stack.Some? ==> Resolve(stack.value, [""]) == stack
  {
    assert [""][1..] == [];
  }

  // ----- lengths -----

  /** The length of some components with a slash before each. */
  function Weight(cs: seq<string>): nat { if cs == [] then 0 else 1 + |cs[0]| + Weight(cs[1..]) }

  lemma {:induction false} WeightOfJoin(cs: seq<string>)
    ensures |Join(cs)| == Weight(cs)
  {
    if cs != [] {
      WeightOfJoin(cs[1..]);
    }
  }

  lemma {:induction false} WeightOfComponents(s: string)
    ensures Weight(Components(s)) == |s| + 1
  {
    if s != "" {
      WeightOfComponents(s[1..]);
      if s[0] == '/' {
        assert ([""] + Components(s[1..]))[1..] == Components(s[1..]);
      } else {
        var tail := Components(s[1..]);
        assert ([[s[0]] + tail[0]] + tail[1..])[1..] == tail[1..];
      }
    } else {
      assert [""][1..] == [];
    }
  }

  lemma {:induction false} WeightAppend(a: seq<string>, b: seq<string>)
    ensures Weight(a + b) == Weight(a) + Weight(b)
  {
    if a == [] {
      assert a + b == b;
    } else {
      assert (a + b)[1..] == a[1..] + b;
      WeightAppend(a[1..], b);
    }
  }

  lemma {:induction false} ResolveIsNoHeavier(stack: seq<string>, cs: seq<string>)
    requires Resolve(stack, cs).Some?
    ensures Weight(Resolve(stack, cs).value) <= Weight(stack) + Weight(cs)
    decreases |cs|
  {
    if cs != [] {
      if cs[0] == ".." {
        var n := |stack| - 1;
        assert stack == stack[..n] + [stack[n]];
        WeightAppend(stack[..n], [stack[n]]);
        ResolveIsNoHeavier(stack[..n], cs[1..]);
      } else if cs[0] == "." || cs[0] == "" {
        ResolveIsNoHeavier(stack, cs[1..]);
      } else {
        assert [cs[0]][1..] == [];
        WeightAppend(stack, [cs[0]]);
        ResolveIsNoHeavier(stack + [cs[0]], cs[1..]);
      }
    }
  }

  /** A path that begins with a slash is at least as long as its normal form, and as that of any
      directory above. */
  lemma NormalIsNoLonger(path: string, above: seq<string>)
    requires path != "" && path[0] == '/' && Directories(path).Some? && above <= Directories(path).value
    ensures |Join(above)| <= |path|
  {
    var cs := Directories(path).value;
    assert Components(path)[1..] == Components(path[1..]);
    ResolveIsNoHeavier([], Components(path[1..]));
    WeightOfComponents(path[1..]);
    WeightOfJoin(above);
    WeightAppend(above, cs[|above|..]);
    assert above + cs[|above|..] == cs;
  }

  // ----- the components, one by one -----

  lemma ComponentsBehind(path: string, c: string)
    requires '/' !in c
    ensures Components(path + "/" + c) == Components(path) + [c]
  {
    ComponentsAppend(path, c);
    ComponentsSplit(c, "");
    assert c + "" == c;
  }

  /** A name goes one directory down, a dot and nothing stay, and two dots undo the last name. */
  lemma OneMore(path: string, name: string)
    requires Directories(path).Some? && IsName(name)
    ensures Directories(path + "/" + name) == Some(Directories(path).value + [name])
    ensures Directories(path + "/" + name + "/..") == Directories(path)
    ensures Directories(path + "/.") == Directories(path) == Directories(path + "/")
    ensures Directories(path + "/..") == var cs := Directories(path).value; if cs == [] then None else Some(cs[..|cs| - 1])
  {
    var cs := Directories(path).value;
    ComponentsBehind(path, name);
    ComponentsBehind(path + "/" + name, "..");
    ComponentsBehind(path, ".");
    ComponentsBehind(path, "");
    ComponentsBehind(path, "..");
    assert path + "/" + "" == path + "/" && path + "/" + "." == path + "/." && path + "/" + ".." == path + "/..";
    assert path + "/" + name + "/" + ".." == path + "/" + name + "/..";
    OneStep(path, name);
    OneStep(path, ".");
    OneStep(path, "");
    OneStep(path, "..");
    OneStep(path + "/" + name, "..");
    assert (cs + [name])[..|cs|] == cs;
  }

  lemma OneStep(path: string, c: string)
    requires Directories(path).Some? && '/' !in c
    ensures Directories(path + "/" + c) ==
            var cs := Directories(path).value;
            if c == ".." then if cs == [] then None else Some(cs[..|cs| - 1])
            else if c == "." || c == "" then Some(cs)
            else Some(cs + [c])
  {
    ComponentsBehind(path, c);
    ResolveAppend([], Components(path), [c]);
    assert [c][1..] == [];
  }

  /** For one. */
  lemma UpGoesUpOnce()
    ensures Normal("/a/b/../c") == Some("/a/c")
  {
    UpText();
    assert [""][1..] == [] && Directories("") == Some([]);
    assert IsName("a") && IsName("b") && IsName("c");
    OneMore("", "a");
    OneMore("/a", "b");
    OneMore("/a/b/..", "c");
    assert [] + ["a"] == ["a"];
  }

  lemma UpText()
    ensures "" + "/" + "a" == "/a" && "/a" + "/" + "b" + "/.." == "/a/b/.." && "/a/b/.." + "/" + "c" == "/a/b/../c"
    ensures Join(["a"] + ["c"]) == "/a/c"
  {
    assert (["a"] + ["c"])[1..] == ["c"] && ["c"][1..] == [];
    assert Join(["c"]) == "/" + "c" + "" && Join(["a"] + ["c"]) == "/" + "a" + Join(["c"]);
  }

  /** A path from the root is taken as it is, and an empty one is the root. Quotes make no difference if
      they are on both sides; a single one is part of the path. */
  lemma RootedPath(cwd: string, path: string)
    requires path != "" && path[0] == '/'
    ensures Absolute(cwd, path) == Directories(path) && Absolute(cwd, "\"" + path + "\"") == Directories(path)
    ensures path[|path| - 1] != '"' ==> Absolute(cwd, "\"" + path) == Directories(cwd + "/" + ("\"" + path))
    ensures Absolute(cwd, "") == Absolute(cwd, "\"\"") == Absolute(cwd, "\"") == Some([])
  {
    var quoted, half := "\"" + path + "\"", "\"" + path;
    assert quoted[1..|quoted| - 1] == path;
    assert "\"\""[1..1] == "" && Components("") == [""] && [""][1..] == [];
    if path[|path| - 1] != '"' {
      assert Unquoted(half) == half;
      BelowDirectory(cwd, half);
    }
  }
}
