/**
 Image references: cutting the tag off at the last colon that does not follow a slash, and taking
 the last two path components as namespace and name.
 */
module ImageRef {
  import opened Text

  // ---------- splitPath ----------

  method SplitPath(s: string) returns (parts: seq<string>)
    ensures parts == Split(s, '/')
  {
    hide Split, Grow;
    parts := [];
    EmptySplit();
    var start := 0;
    var i := 0;
    while i < |s|
      invariant 0 <= start <= i <= |s|
      invariant parts + [s[start..i]] == Split(s[..i], '/')
    {
      var c := s[i];
      assert s[..i + 1] == s[..i] + [c];
      SplitStep(s[..i], c, '/');
      if c == '/' {
        parts := parts + [s[start..i]];
        start := i + 1;
        assert s[start..i + 1] == "";
      } else {
        GrowLast(parts, s[start..i], [c]);
        assert s[start..i + 1] == s[start..i] + [c];
      }
      i := i + 1;
    }
    assert s[..i] == s && s[start..i] == s[start..];
    parts := parts + [s[start..]];
  }

  lemma EmptySplit()
    ensures [] + [""] == Split("", '/')
  {
  }

  lemma GrowLast(parts: seq<string>, w: string, t: string)
    ensures Grow(parts + [w], t) == parts + [w + t]
  {
  }

  /** Splitting and joining on the slash undo each other. */
  lemma SplitPathInverts(s: string, parts: seq<string>)
    requires parts != [] && forall i :: 0 <= i < |parts| ==> Free(parts[i], '/')
    ensures Join(Split(s, '/'), '/') == s
    ensures Split(Join(parts, '/'), '/') == parts
  {
    JoinSplit(s, '/');
    SplitJoin(parts, '/');
  }

  // ---------- parseImageRef ----------

  datatype Ref = Ref(namespace: string, name: string, tag: string)

  /** A colon that separates a tag: not first, and not right after a slash. */
  predicate Cuts(ref: string, i: nat) {
    0 < i < |ref| && ref[i] == ':' && ref[i - 1] != '/'
  }

  /** The last such position below `n`, 0 when there is none. */
  function LastCut(ref: string, n: nat): (r: nat)
    requires n <= |ref|
    ensures r == 0 || (r < n && Cuts(ref, r))
  {
    if n == 0 then 0 else if Cuts(ref, n - 1) then n - 1 else LastCut(ref, n - 1)
  }

  function Repo(ref: string): string {
    var i := LastCut(ref, |ref|);
    if i == 0 then ref else ref[..i]
  }

  function Tag(ref: string): string {
    var i := LastCut(ref, |ref|);
    if i == 0 then "latest" else ref[i + 1..]
  }

  function Parse(ref: string): Ref {
    var parts := Split(Repo(ref), '/');
    if |parts| == 1 then Ref("library", parts[0], Tag(ref))
    else Ref(parts[|parts| - 2], parts[|parts| - 1], Tag(ref))
  }

  lemma {:induction false} LastCutIs(ref: string, n: nat, i: nat)
    requires n <= |ref| && 0 < i < n && Cuts(ref, i) && forall j :: i < j < n ==> !Cuts(ref, j)
    ensures LastCut(ref, n) == i
  {
    if n - 1 > i {
      LastCutIs(ref, n - 1, i);
    }
  }

  lemma {:induction false} NoCut(ref: string, n: nat)
    requires n <= |ref| && forall j :: 0 <= j < n ==> !Cuts(ref, j)
    ensures LastCut(ref, n) == 0
  {
    if n > 0 {
      NoCut(ref, n - 1);
    }
  }

  /** The scan for the tag, from the right. */
  method CutTag(ref: string) returns (repo: string, tag: string)
    ensures repo == Repo(ref) && tag == Tag(ref)
  {
    hide LastCut;
    tag := "latest";
    repo := "";
    var i := |ref| - 1;
    while i >= 0
      invariant -1 <= i < |ref|
      invariant repo == "" && tag == "latest"
      invariant forall j :: i < j < |ref| ==> !Cuts(ref, j)
    {
      if ref[i] == ':' && i > 0 && ref[i - 1] != '/' {
        tag := ref[i + 1..];
        repo := ref[..i];
        LastCutIs(ref, |ref|, i);
        return;
      }
      i := i - 1;
    }
    NoCut(ref, |ref|);
    if repo == "" {
      repo := ref;
    }
  }

  method ParseImageRef(ref: string) returns (namespace: string, name: string, tag: string)
    ensures Ref(namespace, name, tag) == Parse(ref)
  {
    hide Repo, Tag, Split;
    var repo;
    repo, tag := CutTag(ref);
    var parts := SplitPath(repo);
    if |parts| == 1 {
      namespace := "library";
      name := parts[0];
    } else if |parts| == 2 {
      namespace := parts[0];
      name := parts[1];
    } else if |parts| == 3 {
      namespace := parts[1];
      name := parts[2];
    } else {
      namespace := parts[|parts| - 2];
      name := parts[|parts| - 1];
    }
  }

  // ---------- round trips ----------

  predicate Component(s: string) { s != "" && Free(s, '/') && Free(s, ':') }

  predicate HostPath(host: seq<string>) { forall i :: 0 <= i < |host| ==> Free(host[i], '/') }

  function Path(host: seq<string>, namespace: string, name: string): string {
    Join(host + [namespace, name], '/')
  }

  lemma PathSplits(host: seq<string>, namespace: string, name: string)
    requires HostPath(host) && Component(namespace) && Component(name)
    ensures Split(Path(host, namespace, name), '/') == host + [namespace, name]
    ensures var p := Path(host, namespace, name);
            name <= p[|p| - |name|..] && |p| >= |name| && p != ""
            && p[|p| - 1] == name[|name| - 1]
  {
    SplitJoin(host + [namespace, name], '/');
    JoinSnoc(host + [namespace], name, '/');
    assert host + [namespace] + [name] == host + [namespace, name];
  }

  lemma TaggedCut(path: string, tag: string)
    requires path != "" && path[|path| - 1] != '/' && Free(tag, ':')
    ensures Repo(path + ":" + tag) == path && Tag(path + ":" + tag) == tag
  {
    var ref := path + ":" + tag;
    var i := |path|;
    assert ref[i] == ':' && ref[i - 1] == path[i - 1];
    forall j | i < j < |ref| ensures !Cuts(ref, j) {
      assert ref[j] == tag[j - i - 1];
      assert tag[j - i - 1] in tag;
    }
    LastCutIs(ref, |ref|, i);
  }

  /** A tagged reference comes back as it went in, for a host path of any depth, ports included. */
  lemma TaggedRoundTrip(host: seq<string>, namespace: string, name: string, tag: string)
    requires HostPath(host) && Component(namespace) && Component(name) && Free(tag, ':')
    ensures Parse(Path(host, namespace, name) + ":" + tag) == Ref(namespace, name, tag)
  {
    hide Split, Path, Repo, Tag;
    var path := Path(host, namespace, name);
    PathSplits(host, namespace, name);
    assert name[|name| - 1] in name;
    TaggedCut(path, tag);
  }

  /** A bare name belongs to the library namespace. */
  lemma BareNameRoundTrip(name: string, tag: string)
    requires Component(name) && Free(tag, ':')
    ensures Parse(name + ":" + tag) == Ref("library", name, tag)
  {
    hide Split, Repo, Tag;
    SplitWhole(name, '/');
    assert name[|name| - 1] in name;
    TaggedCut(name, tag);
  }

  lemma {:induction false} ColonInTail(host: seq<string>, namespace: string, name: string, j: nat)
    requires HostPath(host) && Component(namespace) && Component(name)
    requires j < |Path(host, namespace, name)| && Path(host, namespace, name)[j] == ':'
    ensures '/' in Path(host, namespace, name)[j + 1..]
  {
    var p := Path(host, namespace, name);
    JoinSnoc(host + [namespace], name, '/');
    assert host + [namespace] + [name] == host + [namespace, name];
    var k := |p| - |name| - 1;
    assert p[k] == '/';
    assert forall x :: k < x < |p| ==> p[x] == name[x - k - 1] && p[x] in name;
    assert p[j] !in name;
    assert j < k;
    assert p[j + 1..][k - j - 1] == '/';
  }

  lemma CutsIff(path: string)
    ensures (forall i :: 0 <= i < |path| ==> !Cuts(path, i)) <==>
            forall i, j :: 0 <= i < j < |path| && j == i + 1 && path[j] == ':' ==> path[i] == '/'
  {
    if c :| 0 <= c < |path| && Cuts(path, c) {
      assert path[c] == ':' && path[c - 1] != '/';
    }
    if i, j :| 0 <= i < j < |path| && j == i + 1 && path[j] == ':' && path[i] != '/' {
      assert Cuts(path, j);
    }
  }

  /**
   Without a tag the reference is read correctly if and only if every colon of its path is the first or follows a slash.
   */
  lemma UntaggedRoundTrip(host: seq<string>, namespace: string, name: string)
    requires HostPath(host) && Component(namespace) && Component(name)
    ensures var path := Path(host, namespace, name);
            Parse(path) == Ref(namespace, name, "latest") <==>
            forall i, j :: 0 <= i < j < |path| && j == i + 1 && path[j] == ':' ==> path[i] == '/'
  {
    CutsIff(Path(host, namespace, name));
    hide Split, Path;
    var path := Path(host, namespace, name);
    PathSplits(host, namespace, name);
    if forall i :: 0 <= i < |path| ==> !Cuts(path, i) {
      NoCut(path, |path|);
    } else {
      var c := CutFound(path, |path|);
      ColonInTail(host, namespace, name, c);
      assert Tag(path) == path[c + 1..];
      assert '/' !in "latest";
    }
  }

  lemma {:induction false} CutFound(ref: string, n: nat) returns (c: nat)
    requires n <= |ref| && exists i :: 0 <= i < n && Cuts(ref, i)
    ensures 0 < c < n && Cuts(ref, c) && LastCut(ref, n) == c
  {
    if Cuts(ref, n - 1) {
      c := n - 1;
    } else {
      c := CutFound(ref, n - 1);
    }
  }

  /** A concrete misreading: a registry host with a port and no tag loses the repository to the tag. */
  lemma RegistryPortSwallowsRepository(host: string, port: string, namespace: string, name: string)
    requires Component(host) && Free(port, ':') && Free(port, '/') && Component(namespace) && Component(name)
    ensures Parse(Path([host + ":" + port], namespace, name)) ==
            Ref("library", host, port + "/" + namespace + "/" + name)
  {
    hide Split, Repo, Tag;
    var parts := [host + ":" + port] + [namespace, name];
    var tag := port + "/" + namespace + "/" + name;
    JoinSnoc([host + ":" + port], namespace, '/');
    JoinSnoc([host + ":" + port, namespace], name, '/');
    assert [host + ":" + port] + [namespace] == [host + ":" + port, namespace];
    assert [host + ":" + port, namespace] + [name] == parts;
    assert Path([host + ":" + port], namespace, name) == host + ":" + tag;
    assert Free(tag, ':');
    assert host[|host| - 1] in host;
    TaggedCut(host, tag);
    SplitWhole(host, '/');
  }
}
