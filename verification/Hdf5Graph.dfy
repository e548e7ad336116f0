/** An HDF5 file as a graph of objects joined by named links, and its path names. */
module Hdf5Graph {
  import opened Outcome

  datatype Link = Soft(name: string) | Hard(name: string, target: nat)

  datatype Object = Group(links: seq<Link>) | Dataset | NamedDatatype

  /** Objects by address; refCount is what H5Oget_info reports as rc. */
  datatype File = File(root: nat, objects: map<nat, Object>, refCount: map<nat, nat>)

  ghost predicate PlainName(name: string) {
    name != "" && '/' !in name
  }

  ghost predicate IsGroup(f: File, o: nat) {
    o in f.objects && f.objects[o].Group?
  }

  ghost predicate IsHardLink(f: File, g: nat, i: nat) {
    IsGroup(f, g) && i < |f.objects[g].links| && f.objects[g].links[i].Hard?
  }

  ghost function Target(f: File, g: nat, i: nat): nat
    requires IsHardLink(f, g, i)
  {
    f.objects[g].links[i].target
  }

  /** The hard links that lead to an object. */
  ghost function Incoming(f: File, o: nat): set<(nat, nat)> {
    set g, i | g in f.objects && f.objects[g].Group? && 0 <= i < |f.objects[g].links| &&
               IsHardLink(f, g, i) && Target(f, g, i) == o :: (g, i)
  }

  /** Link names are plain and distinct in a group; rc counts the hard links, one more for the root. */
  ghost predicate WellFormedFile(f: File) {
    && IsGroup(f, f.root)
    && f.refCount.Keys == f.objects.Keys
    && (forall g, i :: IsHardLink(f, g, i) ==> Target(f, g, i) in f.objects)
    && (forall g | IsGroup(f, g) :: forall i | 0 <= i < |f.objects[g].links| :: PlainName(f.objects[g].links[i].name))
    && (forall g | IsGroup(f, g) :: forall i, j | 0 <= i < j < |f.objects[g].links| ::
          f.objects[g].links[i].name != f.objects[g].links[j].name)
    && (forall o | o in f.objects :: f.refCount[o] >= |Incoming(f, o)| + (if o == f.root then 1 else 0))
  }

  /** Cycles of hard links are allowed: a group may hold itself. */
  lemma CyclesAreWellFormed()
    ensures var f := File(0, map[0 := Group([Hard("self", 0)])], map[0 := 2]);
            WellFormedFile(f) && IsHardLink(f, f.root, 0) && Target(f, f.root, 0) == f.root
  {
    var f := File(0, map[0 := Group([Hard("self", 0)])], map[0 := 2]);
    assert Incoming(f, 0) == {(0, 0)};
  }

  // ----- path names

  /** Where the last component of a path begins. */
  function NameStart(path: string): (start: nat)
    ensures start <= |path|
  {
    if path == "" || path[|path| - 1] == '/' then |path| else NameStart(path[..|path| - 1])
  }

  /** The components of a path; repeated and trailing slashes are ignored. */
  function Components(path: string): seq<string>
    decreases |path|
  {
    if path == "" then []
    else if path[|path| - 1] == '/' then Components(path[..|path| - 1])
    else
      var start := NameStart(path);
      NameIsNotEmpty(path);
      Components(path[..start]) + [path[start..]]
  }

  lemma NameIsNotEmpty(path: string)
    requires path != "" && path[|path| - 1] != '/'
    ensures NameStart(path) < |path|
  {}

  function Lookup(links: seq<Link>, name: string): Option<nat> {
    if links == [] then None
    else if links[0].name == name then (if links[0].Hard? then Some(links[0].target) else None)
    else Lookup(links[1..], name)
  }

  /** The object that a list of link names, followed from the root, leads to. */
  function Walk(f: File, names: seq<string>): Option<nat> {
    if names == [] then Some(f.root)
    else
      match Walk(f, names[..|names| - 1])
      case None => None
      case Some(g) =>
        if g in f.objects && f.objects[g].Group? then Lookup(f.objects[g].links, names[|names| - 1]) else None
  }

  function Resolve(f: File, path: string): Option<nat> {
    Walk(f, Components(path))
  }

  ghost predicate Reachable(f: File, o: nat) {
    exists names :: Walk(f, names) == Some(o)
  }

  /** The root can be reached, and whatever a hard link of a group that can be reached leads to. */
  lemma LinksReach(f: File, g: nat, i: nat)
    requires WellFormedFile(f)
    requires g in f.objects && f.objects[g].Group? && i < |f.objects[g].links| && f.objects[g].links[i].Hard?
    ensures Reachable(f, f.root)
    ensures Reachable(f, g) ==> Reachable(f, f.objects[g].links[i].target)
  {
    assert Walk(f, []) == Some(f.root);
    if Reachable(f, g) {
      var names :| Walk(f, names) == Some(g);
      var more := names + [f.objects[g].links[i].name];
      assert more[..|more| - 1] == names;
      assert IsGroup(f, g);
      LookupFinds(f.objects[g].links, i);
      assert Walk(f, more) == Some(f.objects[g].links[i].target);
    }
  }

  lemma {:induction false} NameStartOfChild(dir: string, name: string)
    requires dir != "" && dir[|dir| - 1] == '/' && '/' !in name
    ensures NameStart(dir + name) == |dir|
    decreases |name|
  {
    if name == "" {
      assert dir + name == dir;
    } else {
      assert (dir + name)[..|dir + name| - 1] == dir + name[..|name| - 1];
      NameStartOfChild(dir, name[..|name| - 1]);
    }
  }

  lemma ComponentsOfChild(dir: string, name: string)
    requires dir != "" && dir[|dir| - 1] == '/' && PlainName(name)
    ensures Components(dir + name) == Components(dir) + [name]
    ensures Components(dir + name + "/") == Components(dir) + [name]
  {
    NameStartOfChild(dir, name);
    assert (dir + name)[..|dir|] == dir && (dir + name)[|dir|..] == name;
    assert (dir + name)[|dir + name| - 1] == name[|name| - 1];
    assert (dir + name + "/")[..|dir + name|] == dir + name;
  }

  lemma {:induction false} LookupFinds(links: seq<Link>, i: nat)
    requires i < |links| && links[i].Hard?
    requires forall j, k | 0 <= j < k < |links| :: links[j].name != links[k].name
    ensures Lookup(links, links[i].name) == Some(links[i].target)
  {
    if i > 0 {
      LookupFinds(links[1..], i - 1);
    }
  }

  lemma {:induction false} LookupIsALink(links: seq<Link>, name: string) returns (i: nat)
    requires Lookup(links, name).Some?
    ensures i < |links| && links[i] == Hard(name, Lookup(links, name).value)
  {
    if links[0].name == name {
      i := 0;
    } else {
      i := LookupIsALink(links[1..], name);
      i := i + 1;
    }
  }

  /** Opening a child by its full path name opens the object its link leads to. */
  lemma ChildResolves(f: File, dir: string, g: nat, i: nat)
    requires WellFormedFile(f) && IsHardLink(f, g, i)
    requires dir != "" && dir[|dir| - 1] == '/' && Resolve(f, dir) == Some(g)
    ensures Target(f, g, i) in f.objects
    ensures Resolve(f, dir + f.objects[g].links[i].name) == Some(Target(f, g, i))
    ensures Resolve(f, dir + f.objects[g].links[i].name + "/") == Some(Target(f, g, i))
  {
    var name := f.objects[g].links[i].name;
    ComponentsOfChild(dir, name);
    var names := Components(dir) + [name];
    assert names[..|names| - 1] == Components(dir);
    LookupFinds(f.objects[g].links, i);
  }
}
