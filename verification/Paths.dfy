/** Paths of src/fs.c as text: what the component loop sees, and what get_path_fs prints. */
module Paths {

  const NAME_MAX := 128

  /** Length of the text before the first slash. */
  function NameLength(path: string): (n: nat)
    ensures n <= |path| && (forall i :: 0 <= i < n ==> path[i] != '/') && (n < |path| ==> path[n] == '/')
  {
    if path == "" || path[0] == '/' then 0 else 1 + NameLength(path[1..])
  }

  /** The names between the slashes. */
  function Components(path: string): seq<string>
    decreases |path|
  {
    if path == "" then []
    else if path[0] == '/' then Components(path[1..])
    else var n := NameLength(path); [path[..n]] + Components(path[n..])
  }

  /** A name a directory entry can have. */
  predicate ValidName(name: string) {
    && 0 < |name| < NAME_MAX && name != "." && name != ".."
    && forall i :: 0 <= i < |name| ==> name[i] != '/'
  }

  predicate ValidNames(names: seq<string>) {
    forall i :: 0 <= i < |names| ==> ValidName(names[i])
  }

  /** The names separated by single slashes. */
  function Joined(names: seq<string>): string {
    if names == [] then "" else if |names| == 1 then names[0] else names[0] + "/" + Joined(names[1..])
  }

  function PathText(names: seq<string>): string {
    "/" + Joined(names)
  }

  lemma {:induction false} NameLengthIs(name: string, rest: string)
    requires forall i :: 0 <= i < |name| ==> name[i] != '/'
    requires rest == "" || rest[0] == '/'
    ensures NameLength(name + rest) == |name|
  {
    if name != "" {
      NameLengthIs(name[1..], rest);
      assert (name + rest)[1..] == name[1..] + rest;
    }
  }

  lemma OneComponent(name: string, rest: string)
    requires name != "" && (forall i :: 0 <= i < |name| ==> name[i] != '/') && (rest == "" || rest[0] == '/')
    ensures Components(name + rest) == [name] + Components(rest)
  {
    NameLengthIs(name, rest);
    assert (name + rest)[..|name|] == name && (name + rest)[|name|..] == rest;
  }

  /** Reading back the names that were printed. */
  lemma {:induction false} ComponentsOfJoined(names: seq<string>)
    requires ValidNames(names)
    ensures Components(Joined(names)) == names
  {
    if |names| == 1 {
      OneComponent(names[0], "");
      assert names[0] + "" == names[0];
    } else if names != [] {
      ComponentsOfJoined(names[1..]);
      var rest := "/" + Joined(names[1..]);
      OneComponent(names[0], rest);
      assert names[0] + "/" + Joined(names[1..]) == names[0] + rest;
      assert rest[1..] == Joined(names[1..]);
      assert Components(rest) == names[1..];
    }
  }

  lemma ComponentsOfPath(names: seq<string>)
    requires ValidNames(names)
    ensures Components(PathText(names)) == names
  {
    ComponentsOfJoined(names);
    assert PathText(names)[1..] == Joined(names);
  }

  /** Splitting a path inside leaves its components in two parts. */
  lemma {:induction false} JoinedMore(names: seq<string>, name: string)
    requires names != []
    ensures Joined(names + [name]) == Joined(names) + "/" + name
  {
    if |names| > 1 {
      JoinedMore(names[1..], name);
      assert (names + [name])[1..] == names[1..] + [name];
      assert names[0] + "/" + (Joined(names[1..]) + "/" + name) == names[0] + "/" + Joined(names[1..]) + "/" + name;
    } else {
      assert (names + [name])[1..] == [name];
    }
  }

  /** What get_path_fs has printed after i of the names: a slash follows unless nothing does. */
  function Printed(names: seq<string>, i: nat): string
    requires i <= |names|
  {
    if 0 < i < |names| then "/" + Joined(names[..i]) + "/" else "/" + Joined(names[..i])
  }

  /** Printing one more name. */
  lemma PrintedNext(names: seq<string>, i: nat)
    requires i < |names|
    ensures Printed(names, i + 1) == Printed(names, i) + names[i] + (if i + 1 < |names| then "/" else "")
  {
    var before := names[..i];
    assert names[..i + 1] == before + [names[i]];
    if i > 0 {
      JoinedMore(before, names[i]);
    } else {
      assert before == [];
    }
  }

  lemma {:induction false} PrintedLength(names: seq<string>, i: nat)
    requires i <= |names|
    ensures |Printed(names, i)| <= |PathText(names)|
    decreases |names| - i
  {
    if i < |names| {
      PrintedNext(names, i);
      PrintedLength(names, i + 1);
    } else {
      assert names[..i] == names;
    }
  }

  lemma PrintedAll(names: seq<string>)
    ensures Printed(names, |names|) == PathText(names) && Printed(names, 0) == "/"
  {
    assert names[..|names|] == names && names[..0] == [];
  }

  // ---------------------------------------------------------------- paths an archive may hold

  predicate IsDots(name: string) {
    name == "." || name == ".."
  }

  /** Names separated by single slashes, none empty and none a dot name: what valid_image_path checks, front to back. */
  predicate Good(path: string)
    decreases |path|
  {
    var n := NameLength(path);
    n > 0 && !IsDots(path[..n]) && (n == |path| || Good(path[n + 1..]))
  }

  lemma {:induction false} ComponentsPlain(path: string)
    ensures forall i :: 0 <= i < |Components(path)| ==> Components(path)[i] != "" && Components(path)[i][0] != '/'
    decreases |path|
  {
    if path != "" {
      if path[0] == '/' { ComponentsPlain(path[1..]); } else { ComponentsPlain(path[NameLength(path)..]); }
    }
  }

  ghost predicate NoDots(names: seq<string>) {
    forall i :: 0 <= i < |names| ==> !IsDots(names[i])
  }

  /** A path that is the slash-joined list of its own components, none of them a dot name. */
  ghost predicate Normal(path: string) {
    path != "" && path == Joined(Components(path)) && NoDots(Components(path))
  }

  /** valid_image_path accepts exactly the normal paths. */
  lemma {:induction false} GoodMeans(path: string)
    ensures Good(path) <==> Normal(path)
    decreases |path|
  {
    hide Normal, IsDots, Joined, Components;
    var n := NameLength(path);
    if n == 0 {
      NotNormal(path);
    } else if n == |path| {
      OneName(path);
      assert path[..n] == path;
    } else {
      var later := path[n + 1..];
      GoodMeans(later);
      assert path == path[..n] + "/" + later;
      NormalStep(path[..n], later);
    }
  }

  lemma NotNormal(path: string)
    requires path == "" || path[0] == '/'
    ensures !Normal(path)
  {
    ComponentsPlain(path);
    if Components(path) != [] { assert Joined(Components(path))[0] == Components(path)[0][0]; }
  }

  lemma OneName(name: string)
    requires name != "" && forall i :: 0 <= i < |name| ==> name[i] != '/'
    ensures Normal(name) <==> !IsDots(name)
  {
    OneComponent(name, "");
    assert name + "" == name;
  }

  lemma NormalStep(name: string, later: string)
    requires name != "" && forall i :: 0 <= i < |name| ==> name[i] != '/'
    ensures Normal(name + "/" + later) <==> !IsDots(name) && Normal(later)
  {
    var path, rest := name + "/" + later, Components(later);
    OneComponent(name, "/" + later);
    assert name + ("/" + later) == path && ("/" + later)[1..] == later;
    assert Components("/" + later) == rest;
    EmptyPath();
    JoinedStep(name, later, rest);
    DotsStep(name, rest);
  }

  lemma EmptyPath()
    ensures Components("") == []
  {
  }

  lemma LaterComponents(path: string, i: nat)
    requires i < |path| && path[i] != '/'
    ensures Components(path[i..]) != []
  {
  }

  lemma JoinedStep(name: string, later: string, rest: seq<string>)
    ensures rest != [] ==> (name + "/" + later == Joined([name] + rest) <==> later == Joined(rest))
    ensures rest == [] ==> name + "/" + later != Joined([name] + rest) && Joined(rest) == ""
  {
    var all := [name] + rest;
    assert all[0] == name && all[1..] == rest;
    if rest != [] {
      assert Joined(all) == name + "/" + Joined(rest);
      assert (name + "/" + later)[|name| + 1..] == later && Joined(all)[|name| + 1..] == Joined(rest);
    } else {
      assert Joined(all) == name && |name + "/" + later| > |name|;
    }
  }

  lemma DotsStep(name: string, rest: seq<string>)
    ensures NoDots([name] + rest) <==> !IsDots(name) && NoDots(rest)
  {
    var all := [name] + rest;
    assert all[0] == name && forall i :: 0 <= i < |rest| ==> all[i + 1] == rest[i];
  }

  /** Each component but the last takes two characters at least. */
  lemma {:induction false} ComponentCount(path: string)
    requires Good(path)
    ensures 2 * |Components(path)| <= |path| + 1 && Components(path) != []
    ensures ShortNames(Components(path), |path|)
    decreases |path|
  {
    var n := NameLength(path);
    if n < |path| {
      assert path[n..][1..] == path[n + 1..];
      ComponentCount(path[n + 1..]);
    } else {
      assert path[n..] == "";
    }
  }

  /** Non-empty slashless names that are not dots, of at most n characters each. */
  predicate ShortNames(names: seq<string>, n: nat) {
    forall i :: 0 <= i < |names| ==>
      0 < |names[i]| <= n && !IsDots(names[i]) && forall k :: 0 <= k < |names[i]| ==> names[i][k] != '/'
  }
}
