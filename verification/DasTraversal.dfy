/**
The depth-first walk that fills the DAS. Hard links may form cycles; the walk breaks
them although it records only the objects whose reference count is above one.
*/
module DasTraversal {
  import opened Outcome
  import opened Hdf5Graph
  import opened Lists
  import opened Numerals
  import opened PathFinder

  /** One attribute table of the DAS, and the object it describes. */
  datatype Entry = Entry(path: string, addr: nat, hardlink: Option<string>)

  // ----- what a DAS says

  /** The path under which an object was first met; the root is met before the walk. */
  function FirstPath(root: nat, das: seq<Entry>, addr: nat): Option<string> {
    if das == [] then (if addr == root then Some("/") else None)
    else
      match FirstPath(root, das[..|das| - 1], addr)
      case Some(p) => Some(p)
      case None => if das[|das| - 1].addr == addr then Some(das[|das| - 1].path) else None
  }

  /** The groups that get expanded: the root, and each group met for the first time. */
  function Opened(f: File, das: seq<Entry>): seq<nat> {
    if das == [] then [f.root]
    else
      var e := das[|das| - 1];
      Opened(f, das[..|das| - 1]) +
      (if e.addr in f.objects && f.objects[e.addr].Group? && e.hardlink == None then [e.addr] else [])
  }

  ghost predicate Listed(f: File, link: (nat, nat)) {
    IsHardLink(f, link.0, link.1) && Target(f, link.0, link.1) in f.objects &&
    !f.objects[Target(f, link.0, link.1)].NamedDatatype?
  }

  /**
  das[k] was written for the link followed[k]. The links of a group are followed in order,
  each once; each path resolves to the object of its entry, and an entry carries
  HDF5_HARDLINK with the object's first path exactly when the object was met before.
  */
  ghost predicate Consistent(f: File, das: seq<Entry>, followed: seq<(nat, nat)>) {
    && |followed| == |das|
    && InOrder(followed)
    && (forall k {:trigger followed[k]} :: 0 <= k < |das| ==> EntryConsistent(f, das[..k], das[k], followed[k]))
  }

  ghost predicate InOrder(followed: seq<(nat, nat)>) {
    forall j, k :: 0 <= j < k < |followed| && followed[j].0 == followed[k].0 ==> followed[j].1 < followed[k].1
  }

  /** The path of a link: that of its group, the name, and a slash if it leads to a group. */
  ghost function PathOf(f: File, dir: string, link: (nat, nat)): string
    requires IsHardLink(f, link.0, link.1) && Target(f, link.0, link.1) in f.objects
  {
    dir + f.objects[link.0].links[link.1].name + (if IsGroup(f, Target(f, link.0, link.1)) then "/" else "")
  }

  ghost predicate EntryConsistent(f: File, before: seq<Entry>, e: Entry, link: (nat, nat)) {
    && Listed(f, link)
    && Target(f, link.0, link.1) == e.addr
    && link.0 in Opened(f, before)
    && FirstPath(f.root, before, link.0).Some?
    && e.path == PathOf(f, FirstPath(f.root, before, link.0).value, link)
    && e.path != ""
    && Resolve(f, e.path) == Some(e.addr)
    && e.hardlink == FirstPath(f.root, before, e.addr)
  }

  /** The path table holds the first path of exactly the objects met so far with rc > 1. */
  ghost predicate TableMatches(f: File, das: seq<Entry>, paths: map<string, string>)
    requires WellFormedFile(f)
  {
    && (forall id | id in paths :: exists o :: o in f.objects && id == Hex(o))
    && (forall o | o in f.objects :: RecordMatches(f, das, paths, o))
  }

  ghost predicate RecordMatches(f: File, das: seq<Entry>, paths: map<string, string>, o: nat)
    requires WellFormedFile(f) && o in f.objects
  {
    var first := FirstPath(f.root, das, o);
    if f.refCount[o] > 1 && first.Some? then Hex(o) in paths && paths[Hex(o)] == first.value
    else Hex(o) !in paths || paths[Hex(o)] == ""
  }

  /** Between two entries of one group there are only entries of groups opened after the first of them. */
  ghost predicate DepthFirstOrder(f: File, das: seq<Entry>, followed: seq<(nat, nat)>)
    requires |followed| == |das|
  {
    forall l :: 0 <= l < |das| ==> Continues(f, das[..l], followed[..l], followed[l].0)
  }

  /** The walk may go on with another link of the group. */
  ghost predicate Continues(f: File, das: seq<Entry>, followed: seq<(nat, nat)>, g: nat)
    requires |followed| == |das|
  {
    forall j, k :: 0 <= j < k < |das| && followed[j].0 == g ==>
      followed[k].0 == g || followed[k].0 !in Opened(f, das[..j])
  }

  lemma OrderSnoc(f: File, das: seq<Entry>, followed: seq<(nat, nat)>, e: Entry, link: (nat, nat))
    requires |followed| == |das| && DepthFirstOrder(f, das, followed) && Continues(f, das, followed, link.0)
    ensures DepthFirstOrder(f, das + [e], followed + [link])
    ensures Continues(f, das + [e], followed + [link], link.0)
  {
    hide Opened;
    var das', followed' := das + [e], followed + [link];
    assert das'[..|das|] == das && followed'[..|das|] == followed;
    forall l | 0 <= l < |das'| ensures Continues(f, das'[..l], followed'[..l], followed'[l].0) {
      assert l < |das| ==> das'[..l] == das[..l] && followed'[..l] == followed[..l];
    }
    forall j, k | 0 <= j < k < |das'| && followed'[j].0 == link.0
      ensures followed'[k].0 == link.0 || followed'[k].0 !in Opened(f, das'[..j])
    {
      assert das'[..j] == das[..j];
    }
  }

  lemma NothingToContinue(f: File, das: seq<Entry>, followed: seq<(nat, nat)>, g: nat)
    requires |followed| == |das| && forall i: nat :: (g, i) !in followed
    ensures Continues(f, das, followed, g)
  {
    forall j | 0 <= j < |das| ensures followed[j].0 != g {
      assert followed[j] in followed;
      assert followed[j] == (followed[j].0, followed[j].1);
    }
  }

  /** A group can be continued after another one has been walked through. */
  lemma ContinuesAfter(f: File, das: seq<Entry>, followed: seq<(nat, nat)>, g: nat, das': seq<Entry>,
      followed': seq<(nat, nat)>)
    requires |followed| == |das| && |followed'| == |das'| && das <= das' && followed <= followed'
    requires Continues(f, das, followed, g)
    requires forall k :: |das| < k < |das'| ==> followed'[k].0 != g && followed'[k].0 !in Opened(f, das)
    requires |das| < |das'| && followed'[|das|].0 == g
    ensures Continues(f, das', followed', g)
  {
    hide Opened;
    forall j, k | 0 <= j < k < |das'| && followed'[j].0 == g
      ensures followed'[k].0 == g || followed'[k].0 !in Opened(f, das'[..j])
    {
      assert j <= |das| && das'[..j] == das[..j] && das[..|das|] == das;
      if k > |das| {
        OpenedGrows(f, das, j);
      }
    }
  }

  /** A group opened between two points was opened by an entry between them. */
  lemma {:induction false} OpenedBetween(f: File, das: seq<Entry>, j: nat, k: nat, g: nat) returns (m: nat)
    requires j <= k <= |das| && g in Opened(f, das[..k]) && g !in Opened(f, das[..j])
    ensures j <= m < k && das[m].addr == g && das[m].hardlink == None
    decreases k
  {
    assert k > j;
    assert das[..k][..k - 1] == das[..k - 1];
    if g in Opened(f, das[..k - 1]) {
      m := OpenedBetween(f, das, j, k - 1, g);
    } else {
      m := k - 1;
    }
  }

  lemma RecordAt(f: File, das: seq<Entry>, paths: map<string, string>, o: nat)
    requires WellFormedFile(f) && TableMatches(f, das, paths) && o in f.objects
    ensures o in f.refCount && RecordMatches(f, das, paths, o)
  {}

  // ----- facts about the log

  lemma {:induction false} FirstPathIsAVisit(root: nat, das: seq<Entry>, addr: nat) returns (k: nat)
    requires FirstPath(root, das, addr).Some? && addr != root
    ensures k < |das| && das[k].addr == addr && FirstPath(root, das, addr) == Some(das[k].path)
    ensures FirstPath(root, das[..k], addr) == None
  {
    var n := |das| - 1;
    if FirstPath(root, das[..n], addr).Some? {
      k := FirstPathIsAVisit(root, das[..n], addr);
      assert das[..n][..k] == das[..k];
    } else {
      k := n;
    }
  }

  lemma FirstPathSnoc(root: nat, das: seq<Entry>, e: Entry, addr: nat)
    ensures FirstPath(root, das + [e], addr) ==
            if FirstPath(root, das, addr).None? && e.addr == addr then Some(e.path) else FirstPath(root, das, addr)
  {}

  lemma {:induction false} FirstPathStays(root: nat, small: seq<Entry>, das: seq<Entry>, addr: nat)
    requires small <= das && FirstPath(root, small, addr).Some?
    ensures FirstPath(root, das, addr) == FirstPath(root, small, addr)
    decreases |das|
  {
    if |small| < |das| {
      FirstPathStays(root, small, das[..|das| - 1], addr);
    } else {
      assert small == das;
    }
  }

  lemma VisitHasFirstPath(root: nat, das: seq<Entry>, k: nat)
    requires k < |das|
    ensures FirstPath(root, das, das[k].addr).Some?
  {}

  lemma {:induction false} RootHasFirstPath(root: nat, das: seq<Entry>)
    ensures FirstPath(root, das, root) == Some("/")
  {
    if das != [] {
      RootHasFirstPath(root, das[..|das| - 1]);
    }
  }

  lemma {:induction false} OpenedGrows(f: File, das: seq<Entry>, k: nat)
    requires k <= |das|
    ensures Opened(f, das[..k]) <= Opened(f, das)
    decreases |das| - k
  {
    if k < |das| {
      assert das[..k + 1][..k] == das[..k];
      OpenedGrows(f, das, k + 1);
    } else {
      assert das[..k] == das;
    }
  }

  /** What an open group says: it is a group, and it has been met. */
  lemma {:induction false} OpenedIsMet(f: File, das: seq<Entry>, followed: seq<(nat, nat)>, o: nat)
    requires WellFormedFile(f) && Consistent(f, das, followed)
    requires o in Opened(f, das)
    ensures IsGroup(f, o) && FirstPath(f.root, das, o).Some?
  {
    if das != [] {
      var n := |das| - 1;
      ConsistentPrefix(f, das, followed, n);
      if o in Opened(f, das[..n]) {
        OpenedIsMet(f, das[..n], followed[..n], o);
      }
    }
  }

  lemma ConsistentPrefix(f: File, das: seq<Entry>, followed: seq<(nat, nat)>, n: nat)
    requires WellFormedFile(f) && Consistent(f, das, followed) && n <= |das|
    ensures |followed| == |das| && Consistent(f, das[..n], followed[..n])
  {
    hide EntryConsistent, WellFormedFile;
    forall k | 0 <= k < n ensures EntryConsistent(f, das[..n][..k], das[k], followed[k]) {
      assert das[..n][..k] == das[..k];
    }
  }

  /** No group is expanded twice. */
  lemma {:induction false} OpenedOnce(f: File, das: seq<Entry>, followed: seq<(nat, nat)>)
    requires WellFormedFile(f) && Consistent(f, das, followed)
    ensures Distinct(Opened(f, das))
  {
    hide WellFormedFile, Consistent, FirstPath;
    if das != [] {
      var n := |das| - 1;
      ConsistentPrefix(f, das, followed, n);
      OpenedOnce(f, das[..n], followed[..n]);
      EntryAt(f, das, followed, n);
      var before, e := Opened(f, das[..n]), das[n];
      if e.addr in before {
        OpenedIsMet(f, das[..n], followed[..n], e.addr);
      }
    }
  }

  lemma OpenedSnoc(f: File, das: seq<Entry>, e: Entry)
    requires e.addr in f.objects
    ensures Opened(f, das + [e]) ==
            if f.objects[e.addr].Group? && e.hardlink == None then Opened(f, das) + [e.addr] else Opened(f, das)
  {}

  lemma LastOpenedIsNew(f: File, das: seq<Entry>, followed: seq<(nat, nat)>, before: seq<nat>, o: nat)
    requires WellFormedFile(f) && Consistent(f, das, followed)
    requires Opened(f, das) == before + [o]
    ensures o !in before
  {
    OpenedOnce(f, das, followed);
    var all := Opened(f, das);
    assert all[|before|] == o;
    forall n | 0 <= n < |before| ensures before[n] != o {
      assert all[n] == before[n];
    }
  }

  /** A group that has been met has been opened. */
  lemma {:induction false} MetGroupIsOpened(f: File, das: seq<Entry>, followed: seq<(nat, nat)>, o: nat)
    requires WellFormedFile(f) && Consistent(f, das, followed)
    requires IsGroup(f, o) && FirstPath(f.root, das, o).Some?
    ensures o in Opened(f, das)
  {
    if das != [] {
      var n := |das| - 1;
      ConsistentPrefix(f, das, followed, n);
      assert EntryConsistent(f, das[..n], das[n], followed[n]);
      if FirstPath(f.root, das[..n], o).Some? {
        MetGroupIsOpened(f, das[..n], followed[..n], o);
      }
    }
  }

  /**
  The graph argument: an object reached again through a link not followed before has
  a second hard link, so its reference count is above one and it is in the path table.
  */
  lemma MetAgainIsShared(f: File, das: seq<Entry>, followed: seq<(nat, nat)>, g: nat, i: nat)
    requires WellFormedFile(f) && Consistent(f, das, followed)
    requires IsHardLink(f, g, i) && (g, i) !in followed
    requires FirstPath(f.root, das, Target(f, g, i)).Some?
    ensures f.refCount[Target(f, g, i)] > 1
  {
    var c := Target(f, g, i);
    assert (g, i) in Incoming(f, c);
    if c == f.root {
      assert {(g, i)} <= Incoming(f, c);
      SubsetSize({(g, i)}, Incoming(f, c));
    } else {
      var k := FirstPathIsAVisit(f.root, das, c);
      assert followed[k] in Incoming(f, c);
      SubsetSize({(g, i), followed[k]}, Incoming(f, c));
      assert followed[k] in followed;
      assert |{(g, i), followed[k]}| == 2;
    }
  }

  lemma FirstPathNotEmpty(f: File, das: seq<Entry>, followed: seq<(nat, nat)>, addr: nat)
    requires WellFormedFile(f) && Consistent(f, das, followed)
    requires FirstPath(f.root, das, addr).Some?
    ensures FirstPath(f.root, das, addr).value != ""
  {
    if addr == f.root {
      RootHasFirstPath(f.root, das);
    } else {
      var k := FirstPathIsAVisit(f.root, das, addr);
      assert EntryConsistent(f, das[..k], das[k], followed[k]);
    }
  }

  /** One more entry, for a link not followed before. */
  lemma ConsistentSnoc(f: File, das: seq<Entry>, followed: seq<(nat, nat)>, e: Entry, link: (nat, nat))
    requires Consistent(f, das, followed) && EntryConsistent(f, das, e, link)
    requires forall i: nat :: link.1 <= i ==> (link.0, i) !in followed
    ensures Consistent(f, das + [e], followed + [link])
  {
    hide EntryConsistent;
    var das', followed' := das + [e], followed + [link];
    forall k | 0 <= k <= |das| ensures EntryConsistent(f, das'[..k], das'[k], followed'[k]) {
      assert das'[..k] == das[..k];
      assert das[..|das|] == das;
    }
  }

  lemma EntryAt(f: File, das: seq<Entry>, followed: seq<(nat, nat)>, k: nat)
    requires Consistent(f, das, followed) && k < |das|
    ensures EntryConsistent(f, das[..k], das[k], followed[k])
  {}

  lemma TableSnoc(f: File, das: seq<Entry>, paths: map<string, string>, e: Entry, paths': map<string, string>)
    requires WellFormedFile(f) && TableMatches(f, das, paths) && e.addr in f.objects
    requires e.path != ""
    requires FirstPath(f.root, das, e.addr).Some? || f.refCount[e.addr] <= 1 ==> paths' == paths
    requires FirstPath(f.root, das, e.addr).None? && f.refCount[e.addr] > 1 ==> paths' == paths[Hex(e.addr) := e.path]
    ensures TableMatches(f, das + [e], paths')
  {
    hide FirstPath, WellFormedFile;
    forall o | o in f.objects ensures RecordMatches(f, das + [e], paths', o) {
      assert RecordMatches(f, das, paths, o);
      FirstPathSnoc(f.root, das, e, o);
      if Hex(o) == Hex(e.addr) {
        NumeralInjective(o, e.addr, 16);
      }
    }
  }

  /** A group met for the first time has no followed links yet. */
  lemma NewGroupIsUntouched(f: File, das: seq<Entry>, followed: seq<(nat, nat)>, o: nat, i: nat)
    requires WellFormedFile(f) && Consistent(f, das, followed)
    requires FirstPath(f.root, das, o).None?
    ensures (o, i) !in followed && o !in Opened(f, das)
  {
    if o in Opened(f, das) {
      OpenedIsMet(f, das, followed, o);
      assert false;
    }
    if (o, i) in followed {
      var k :| 0 <= k < |followed| && followed[k] == (o, i);
      FollowedFromOpened(f, das, followed, k);
    }
  }

  lemma FollowedFromOpened(f: File, das: seq<Entry>, followed: seq<(nat, nat)>, k: nat)
    requires WellFormedFile(f) && Consistent(f, das, followed) && k < |followed|
    ensures followed[k].0 in Opened(f, das)
  {
    OpenedGrows(f, das, k);
    assert EntryConsistent(f, das[..k], das[k], followed[k]);
  }

  lemma SuffixSplit<T>(small: seq<T>, large: seq<T>, m: nat)
    requires small <= large && m <= |small|
    ensures forall x :: x in large[m..] <==> x in small[m..] || x in large[|small|..]
  {}

  lemma FewerUnopened<T>(all: set<T>, small: seq<T>, large: seq<T>, x: T)
    requires small + [x] <= large && x in all && x !in small
    ensures all - (set o | o in large) < all - (set o | o in small)
  {
    assert large[|small|] == x;
    var unopened := all - (set o | o in small);
    assert x in unopened;
    forall o | o in small ensures o in large {
      var n :| 0 <= n < |small| && small[n] == o;
      assert large[n] == o;
    }
  }

  lemma NotInSuffix<T>(small: seq<T>, large: seq<T>, x: T)
    requires small <= large && x in small
    requires Distinct(large)
    ensures x !in large[|small|..]
  {}

  lemma {:induction false} SubsetSize<T>(small: set<T>, large: set<T>)
    requires small <= large
    ensures |small| <= |large|
  {
    if small != {} {
      var x :| x in small;
      SubsetSize(small - {x}, large - {x});
    }
  }

  /** An entry is a hard link exactly when its object was met before, and then names it by its first path. */
  lemma HardlinkNamesFirstVisit(f: File, das: seq<Entry>, followed: seq<(nat, nat)>, k: nat)
    requires WellFormedFile(f) && Consistent(f, das, followed) && k < |das|
    ensures das[k].hardlink.Some? <==> das[k].addr == f.root || exists j :: 0 <= j < k && das[j].addr == das[k].addr
    ensures das[k].hardlink.Some? ==>
      && Resolve(f, das[k].hardlink.value) == Some(das[k].addr)
      && (if das[k].addr == f.root then das[k].hardlink.value == "/"
          else exists j :: 0 <= j < k && das[j].addr == das[k].addr && das[j].hardlink == None &&
                           das[j].path == das[k].hardlink.value)
  {
    hide WellFormedFile, Consistent, Listed, Components, Walk;
    var before, e := das[..k], das[k];
    EntryAt(f, das, followed, k);
    if e.addr == f.root {
      RootHasFirstPath(f.root, before);
      RootPath(f);
    } else if e.hardlink.Some? {
      var j := FirstPathIsAVisit(f.root, before, e.addr);
      assert before[..j] == das[..j];
      EntryAt(f, das, followed, j);
    } else if j :| 0 <= j < k && das[j].addr == e.addr {
      assert before[j] == das[j];
      VisitHasFirstPath(f.root, before, j);
    }
  }

  lemma RootPath(f: File)
    ensures Resolve(f, "/") == Some(f.root)
  {}

  ghost predicate AllFollowed(f: File, das: seq<Entry>, followed: seq<(nat, nat)>) {
    forall g: nat, i: nat {:trigger (g, i) in followed} ::
      g in Opened(f, das) && Listed(f, (g, i)) ==> (g, i) in followed
  }

  lemma {:induction false} ReachableIsOpened(f: File, das: seq<Entry>, followed: seq<(nat, nat)>,
      names: seq<string>, o: nat)
    requires WellFormedFile(f) && Consistent(f, das, followed) && AllFollowed(f, das, followed)
    requires Walk(f, names) == Some(o) && IsGroup(f, o)
    ensures o in Opened(f, das)
    decreases |names|
  {
    if names == [] {
      RootHasFirstPath(f.root, das);
    } else {
      var n := |names| - 1;
      var g := Walk(f, names[..n]).value;
      ReachableIsOpened(f, das, followed, names[..n], g);
      var i := LookupIsALink(f.objects[g].links, names[n]);
      assert Listed(f, (g, i)) && (g, i) in followed;
      var k :| 0 <= k < |followed| && followed[k] == (g, i);
      assert EntryConsistent(f, das[..k], das[k], followed[k]);
      VisitHasFirstPath(f.root, das, k);
    }
    MetGroupIsOpened(f, das, followed, o);
  }

  lemma OpenedIsReachable(f: File, das: seq<Entry>, followed: seq<(nat, nat)>, o: nat)
    requires WellFormedFile(f) && Consistent(f, das, followed) && o in Opened(f, das)
    ensures IsGroup(f, o) && Reachable(f, o)
  {
    OpenedIsMet(f, das, followed, o);
    if o == f.root {
      assert Walk(f, []) == Some(o);
    } else {
      var k := FirstPathIsAVisit(f.root, das, o);
      assert EntryConsistent(f, das[..k], das[k], followed[k]);
      assert Walk(f, Components(das[k].path)) == Some(o);
    }
  }

  /**
  The whole walk: it opens exactly the reachable groups, each once, and follows each
  of their links to a group or dataset exactly once.
  */
  lemma WalkIsExact(f: File, das: seq<Entry>, followed: seq<(nat, nat)>)
    requires WellFormedFile(f) && Consistent(f, das, followed) && AllFollowed(f, das, followed)
    ensures forall o :: o in Opened(f, das) <==> IsGroup(f, o) && Reachable(f, o)
    ensures Distinct(Opened(f, das))
    ensures forall g: nat, i: nat :: (g, i) in followed <==> Listed(f, (g, i)) && Reachable(f, g)
  {
    OpenedOnce(f, das, followed);
    forall o: nat ensures o in Opened(f, das) <==> IsGroup(f, o) && Reachable(f, o) {
      if o in Opened(f, das) {
        OpenedIsReachable(f, das, followed, o);
      } else if IsGroup(f, o) && Reachable(f, o) {
        var names :| Walk(f, names) == Some(o);
        ReachableIsOpened(f, das, followed, names, o);
      }
    }
    forall g: nat, i: nat ensures (g, i) in followed <==> Listed(f, (g, i)) && Reachable(f, g) {
      if (g, i) in followed {
        var k :| 0 <= k < |followed| && followed[k] == (g, i);
        assert EntryConsistent(f, das[..k], das[k], followed[k]);
        FollowedFromOpened(f, das, followed, k);
      }
    }
  }

  /** Exactly the links of reachable groups to groups and datasets have an entry, each one, which names the target. */
  lemma EntriesAreLinks(f: File, das: seq<Entry>, followed: seq<(nat, nat)>)
    requires WellFormedFile(f) && Consistent(f, das, followed) && AllFollowed(f, das, followed)
    ensures |followed| == |das|
    ensures forall g: nat, i: nat, name: string, target: nat |
              && Reachable(f, g) && g in f.objects && f.objects[g].Group? && i < |f.objects[g].links|
              && f.objects[g].links[i] == Hard(name, target)
              && target in f.objects && (f.objects[target].Group? || f.objects[target].Dataset?) ::
              exists k :: 0 <= k < |das| && followed[k] == (g, i) && das[k].addr == target
    ensures forall k | 0 <= k < |das| ::
              var (g, i) := followed[k];
              && Reachable(f, g) && g in f.objects && f.objects[g].Group? && i < |f.objects[g].links|
              && f.objects[g].links[i] == Hard(f.objects[g].links[i].name, das[k].addr)
              && das[k].addr in f.objects && (f.objects[das[k].addr].Group? || f.objects[das[k].addr].Dataset?)
    ensures forall j, k :: 0 <= j < k < |das| && followed[j].0 == followed[k].0 ==> followed[j].1 < followed[k].1
  {
    hide Reachable, Opened, WellFormedFile;
    WalkIsExact(f, das, followed);
    forall g: nat, i: nat | Reachable(f, g) && Listed(f, (g, i))
      ensures exists k :: 0 <= k < |das| && followed[k] == (g, i) && das[k].addr == f.objects[g].links[i].target
    {
      var k :| 0 <= k < |followed| && followed[k] == (g, i);
      EntryAt(f, das, followed, k);
    }
    forall g: nat, i: nat, name: string, target: nat |
      && g in f.objects && f.objects[g].Group? && i < |f.objects[g].links|
      && f.objects[g].links[i] == Hard(name, target)
      && target in f.objects && (f.objects[target].Group? || f.objects[target].Dataset?)
      ensures Listed(f, (g, i))
    {
    }
    forall k | 0 <= k < |das| ensures Listed(f, followed[k]) && Target(f, followed[k].0, followed[k].1) == das[k].addr {
      EntryAt(f, das, followed, k);
    }
  }

  /** The path of an entry is made of the first path of its group and the name of its link. */
  lemma EntryPath(f: File, das: seq<Entry>, followed: seq<(nat, nat)>, k: nat)
    requires WellFormedFile(f) && Consistent(f, das, followed) && k < |das|
    ensures var (g, i) := followed[k];
            && g in f.objects && f.objects[g].Group? && i < |f.objects[g].links| && das[k].addr in f.objects
            && var rest := f.objects[g].links[i].name + (if f.objects[das[k].addr].Group? then "/" else "");
            if g == f.root then das[k].path == "/" + rest
            else exists j ::
              0 <= j < k && das[j].addr == g && das[j].hardlink == None && das[k].path == das[j].path + rest
  {
    hide WellFormedFile, Resolve;
    EntryAt(f, das, followed, k);
    var g, before := followed[k].0, das[..k];
    if g == f.root {
      RootHasFirstPath(f.root, before);
    } else {
      var j := FirstPathIsAVisit(f.root, before, g);
      assert before[..j] == das[..j];
      EntryAt(f, das, followed, j);
    }
  }

  /** Before the next link of a group come all entries of groups opened since its previous one, and no others. */
  lemma InnerGroupsFirst(f: File, das: seq<Entry>, followed: seq<(nat, nat)>)
    requires WellFormedFile(f) && Consistent(f, das, followed) && DepthFirstOrder(f, das, followed)
    ensures forall j, k, l :: 0 <= j < k < l < |das| && followed[j].0 == followed[l].0 != followed[k].0 ==>
              exists m :: j <= m < k && das[m].addr == followed[k].0 && das[m].hardlink == None
  {
    hide WellFormedFile, Opened;
    forall j, k, l | 0 <= j < k < l < |das| && followed[j].0 == followed[l].0 != followed[k].0
      ensures exists m :: j <= m < k && das[m].addr == followed[k].0 && das[m].hardlink == None
    {
      assert Continues(f, das[..l], followed[..l], followed[l].0);
      assert das[..l][..j] == das[..j] && followed[..l][j] == followed[j] && followed[..l][k] == followed[k];
      EntryAt(f, das, followed, k);
      var m := OpenedBetween(f, das, j, k, followed[k].0);
    }
  }

  // ----- the walk

  class DasBuilder {
    const f: File
    const paths: HDF5PathFinder
    var das: seq<Entry>
    ghost var expanded: seq<nat>
    ghost var followed: seq<(nat, nat)>

    ghost predicate Valid()
      reads this, paths
    {
      && WellFormedFile(f)
      && |followed| == |das|
      && Consistent(f, das, followed) && DepthFirstOrder(f, das, followed)
      && TableMatches(f, das, paths.idToNameMap)
    }

    /** Every listed link of the group has been followed. */
    ghost predicate Finished(g: nat)
      reads this
    {
      forall i: nat :: Listed(f, (g, i)) ==> (g, i) in followed
    }

    constructor (file: File)
      requires WellFormedFile(file)
      ensures f == file && fresh(paths) && paths.idToNameMap == map[]
      ensures das == [] && expanded == [] && followed == []
    {
      f := file;
      paths := new HDF5PathFinder();
      das, expanded, followed := [], [], [];
    }

    /** get_hardlink: the id of an object met before, or the empty string. */
    method GetHardlink(addr: nat, oname: string) returns (oid: string)
      requires WellFormedFile(f) && addr in f.objects
      modifies paths
      ensures f.refCount[addr] <= 1 ==> oid == "" && paths.idToNameMap == old(paths.idToNameMap)
      ensures f.refCount[addr] > 1 && old(paths.Met(Hex(addr))) ==>
        oid == Hex(addr) && paths.idToNameMap == old(paths.idToNameMap)
      ensures f.refCount[addr] > 1 && !old(paths.Met(Hex(addr))) ==>
        oid == "" && paths.idToNameMap == old(paths.idToNameMap)[Hex(addr) := oname]
    {
      if f.refCount[addr] > 1 {
        var objno := Hex(addr);
        var added := paths.Add(objno, oname);
        if !added {
          return objno;
        } else {
          return "";
        }
      } else {
        return "";
      }
    }

    /** Writes the table of one hard-linked group or dataset. */
    method AddEntry(fullPath: string, ghost g: nat, ghost i: nat, addr: nat) returns (met: bool)
      requires Valid()
      requires Listed(f, (g, i)) && Target(f, g, i) == addr
      requires forall j: nat :: i <= j ==> (g, j) !in followed
      requires Continues(f, das, followed, g)
      requires g in Opened(f, das) && FirstPath(f.root, das, g).Some?
      requires fullPath == PathOf(f, FirstPath(f.root, das, g).value, (g, i))
      requires fullPath != "" && Resolve(f, fullPath) == Some(addr)
      modifies this`das, this`followed, paths
      ensures Valid() && Continues(f, das, followed, g)
      ensures met == FirstPath(f.root, old(das), addr).Some?
      ensures followed == old(followed) + [(g, i)]
      ensures das == old(das) + [Entry(fullPath, addr, FirstPath(f.root, old(das), addr))]
    {
      hide DepthFirstOrder, Continues, Consistent, Opened, FirstPath, Resolve, TableMatches, WellFormedFile;
      RecordAt(f, das, paths.idToNameMap, addr);
      if FirstPath(f.root, das, addr).Some? {
        MetAgainIsShared(f, das, followed, g, i);
        FirstPathNotEmpty(f, das, followed, addr);
      }
      var oid := GetHardlink(addr, fullPath);
      var hardlink := None;
      if oid != "" {
        var name := paths.GetName(oid);
        hardlink := Some(name);
      }
      met := oid != "";
      var e := Entry(fullPath, addr, hardlink);
      assert EntryConsistent(f, das, e, (g, i));
      ConsistentSnoc(f, das, followed, e, (g, i));
      OrderSnoc(f, das, followed, e, (g, i));
      TableSnoc(f, das, old(paths.idToNameMap), e, paths.idToNameMap);
      das := das + [e];
      followed := followed + [(g, i)];
    }

    ghost function Unopened(): set<nat>
      reads this
    {
      f.objects.Keys - (set o | o in expanded)
    }

    /** depth_first: expands the group `pid`, whose full path name is `gname`. */
    method DepthFirst(pid: nat, gname: string)
      requires Valid() && IsGroup(f, pid)
      requires gname != "" && gname[|gname| - 1] == '/' && Resolve(f, gname) == Some(pid)
      requires FirstPath(f.root, das, pid) == Some(gname)
      requires Opened(f, das) == expanded + [pid]
      requires forall i: nat :: (pid, i) !in followed
      modifies this`das, this`expanded, this`followed, paths
      ensures Valid() && Opened(f, das) == expanded
      ensures old(das) <= das && old(followed) <= followed && old(expanded) + [pid] <= expanded
      ensures forall k :: |old(followed)| <= k < |followed| ==> followed[k].0 in expanded[|old(expanded)|..]
      ensures forall g :: g in expanded[|old(expanded)|..] ==> Finished(g)
      decreases Unopened(), 0
    {
      hide WellFormedFile, Consistent, TableMatches, Resolve, Opened, FirstPath, DepthFirstOrder, Continues;
      ghost var before := expanded;
      NothingToContinue(f, das, followed, pid);
      LastOpenedIsNew(f, das, followed, before, pid);
      expanded := expanded + [pid];
      var links := f.objects[pid].links;
      for i := 0 to |links|
        invariant Valid() && Opened(f, das) == expanded && FirstPath(f.root, das, pid) == Some(gname)
        invariant Continues(f, das, followed, pid)
        invariant old(das) <= das && old(followed) <= followed && before + [pid] <= expanded
        invariant forall k :: |old(followed)| <= k < |followed| ==> followed[k].0 in expanded[|before|..]
        invariant forall g :: g in expanded[|before| + 1..] ==> Finished(g)
        invariant forall j: nat :: j < i && Listed(f, (pid, j)) ==> (pid, j) in followed
        invariant forall j: nat :: i <= j ==> (pid, j) !in followed
      {
        assert expanded[|before|] == pid;
        FewerUnopened(f.objects.Keys, before, expanded, pid);
        ghost var das0, expanded0, followed0 := das, expanded, followed;
        label Call:
        FollowLink(pid, gname, i);
        FirstPathStays(f.root, das0, das, pid);
        SuffixSplit(expanded0, expanded, |before|);
        SuffixSplit(expanded0, expanded, |before| + 1);
        forall g | g in expanded[|before| + 1..] ensures Finished(g) {
          if g in expanded0[|before| + 1..] {
            assert old@Call(Finished(g));
            forall j: nat | Listed(f, (g, j)) ensures (g, j) in followed {
              assert (g, j) in followed0;
            }
          }
        }
      }
    }

    /** The body of the loop over the links of a group. */
    method FollowLink(pid: nat, gname: string, i: nat)
      requires Valid() && IsGroup(f, pid) && i < |f.objects[pid].links|
      requires gname != "" && gname[|gname| - 1] == '/' && Resolve(f, gname) == Some(pid)
      requires FirstPath(f.root, das, pid) == Some(gname)
      requires Opened(f, das) == expanded && pid in expanded
      requires forall j: nat :: i <= j ==> (pid, j) !in followed
      requires Continues(f, das, followed, pid)
      modifies this`das, this`expanded, this`followed, paths
      ensures Valid() && Opened(f, das) == expanded && Continues(f, das, followed, pid)
      ensures old(das) <= das && old(followed) <= followed && old(expanded) <= expanded
      ensures forall k :: |old(followed)| <= k < |followed| ==>
        followed[k].0 == pid || followed[k].0 in expanded[|old(expanded)|..]
      ensures forall g :: g in expanded[|old(expanded)|..] ==> Finished(g)
      ensures Listed(f, (pid, i)) ==> (pid, i) in followed
      ensures forall j: nat :: i < j ==> (pid, j) !in followed
      decreases Unopened(), 2
    {
      hide WellFormedFile, Consistent, TableMatches, Resolve, FirstPath, Opened, DepthFirstOrder, Continues;
      var link := f.objects[pid].links[i];
      if link.Soft? {
        return;
      }
      var child := link.target;
      assert IsHardLink(f, pid, i);
      ChildResolves(f, gname, pid, i);
      match f.objects[child]
      case Group(_) =>
        FollowGroup(pid, gname, i, child);
      case Dataset =>
        var fullPath := gname + link.name;
        ghost var das0 := das;
        var met := AddEntry(fullPath, pid, i, child);
        OpenedSnoc(f, das0, das[|das0|]);
      case NamedDatatype =>
    }

    method FollowGroup(pid: nat, gname: string, i: nat, child: nat)
      requires Valid() && IsHardLink(f, pid, i) && IsGroup(f, child) && Target(f, pid, i) == child
      requires gname != "" && Resolve(f, gname + f.objects[pid].links[i].name + "/") == Some(child)
      requires FirstPath(f.root, das, pid) == Some(gname)
      requires Opened(f, das) == expanded && pid in expanded
      requires forall j: nat :: i <= j ==> (pid, j) !in followed
      requires Continues(f, das, followed, pid)
      modifies this`das, this`expanded, this`followed, paths
      ensures Valid() && Opened(f, das) == expanded && Continues(f, das, followed, pid)
      ensures old(das) <= das && old(followed) <= followed && old(expanded) <= expanded
      ensures forall k :: |old(followed)| <= k < |followed| ==>
        followed[k].0 == pid || followed[k].0 in expanded[|old(expanded)|..]
      ensures forall g :: g in expanded[|old(expanded)|..] ==> Finished(g)
      ensures (pid, i) in followed
      ensures forall j: nat :: i < j ==> (pid, j) !in followed
      decreases Unopened(), 1
    {
      hide WellFormedFile, Consistent, TableMatches, Resolve, FirstPath, Opened, DepthFirstOrder, Continues;
      var fullPath := gname + f.objects[pid].links[i].name + "/";
      ghost var das0, followed0 := das, followed;
      var met := AddEntry(fullPath, pid, i, child);
      OpenedSnoc(f, das0, das[|das0|]);
      FirstPathSnoc(f.root, das0, das[|das0|], child);
      if !met {
        ghost var followed1, expanded1 := followed, expanded;
        forall j: nat ensures (child, j) !in followed {
          NewGroupIsUntouched(f, das0, followed0, child, j);
        }
        DepthFirst(child, fullPath);
        OpenedOnce(f, das, followed);
        NotInSuffix(expanded1, expanded, pid);
        assert followed1 == followed0 + [(pid, i)];
        forall k | |das0| < k < |das| ensures followed[k].0 != pid && followed[k].0 !in Opened(f, das0) {
          if followed[k].0 in expanded1 {
            NotInSuffix(expanded1, expanded, followed[k].0);
          }
        }
        ContinuesAfter(f, das0, followed0, pid, das, followed);
        assert followed[|followed0|] == (pid, i);
      }
    }
  }

  /**
  One request on a file: find_gloattr registers the root, then depth_first runs from "/".
  The DAS entries are those of `Consistent`, one for each link that can be reached, in the
  order of the links of a group; soft links and named datatypes have none.
  */
  method BuildDas(f: File) returns (b: DasBuilder)
    requires WellFormedFile(f)
    ensures b.f == f && b.Valid() && b.expanded == Opened(f, b.das)
    ensures forall o :: o in b.expanded <==> IsGroup(f, o) && Reachable(f, o)
    ensures Distinct(b.expanded)
    ensures |b.followed| == |b.das|
    ensures forall g: nat, i: nat, name: string, target: nat |
              && Reachable(f, g) && g in f.objects && f.objects[g].Group? && i < |f.objects[g].links|
              && f.objects[g].links[i] == Hard(name, target)
              && target in f.objects && (f.objects[target].Group? || f.objects[target].Dataset?) ::
              exists k :: 0 <= k < |b.das| && b.followed[k] == (g, i) && b.das[k].addr == target
    ensures forall k | 0 <= k < |b.das| ::
              var (g, i) := b.followed[k];
              && Reachable(f, g) && g in f.objects && f.objects[g].Group? && i < |f.objects[g].links|
              && f.objects[g].links[i] == Hard(f.objects[g].links[i].name, b.das[k].addr)
              && b.das[k].addr in f.objects
              && (f.objects[b.das[k].addr].Group? || f.objects[b.das[k].addr].Dataset?)
    ensures forall j, k :: 0 <= j < k < |b.das| && b.followed[j].0 == b.followed[k].0 ==>
              b.followed[j].1 < b.followed[k].1
    ensures forall j, k, l :: 0 <= j < k < l < |b.das| && b.followed[j].0 == b.followed[l].0 != b.followed[k].0 ==>
              exists m :: j <= m < k && b.das[m].addr == b.followed[k].0 && b.das[m].hardlink == None
  {
    hide WellFormedFile, Consistent, TableMatches, Resolve, Opened, Reachable;
    b := new DasBuilder(f);
    RootIsAGroup(f);
    var oid := b.GetHardlink(f.root, "/");
    StartOfWalk(f, b.paths.idToNameMap);
    b.DepthFirst(f.root, "/");
    assert b.expanded[0..] == b.expanded;
    forall g: nat, i: nat | g in b.expanded && Listed(f, (g, i)) ensures (g, i) in b.followed {
      assert b.Finished(g);
    }
    WalkIsExact(f, b.das, b.followed);
    EntriesAreLinks(f, b.das, b.followed);
    InnerGroupsFirst(f, b.das, b.followed);
  }

  lemma RootIsAGroup(f: File)
    requires WellFormedFile(f)
    ensures IsGroup(f, f.root) && f.refCount.Keys == f.objects.Keys
  {}

  lemma StartOfWalk(f: File, paths: map<string, string>)
    requires WellFormedFile(f)
    requires f.refCount[f.root] <= 1 ==> paths == map[]
    requires f.refCount[f.root] > 1 ==> paths == map[Hex(f.root) := "/"]
    ensures Consistent(f, [], []) && TableMatches(f, [], paths)
    ensures Opened(f, []) == [f.root] && Resolve(f, "/") == Some(f.root)
    ensures FirstPath(f.root, [], f.root) == Some("/")
  {
    RootPath(f);
    RootHasFirstPath(f.root, []);
    forall o | o in f.objects ensures RecordMatches(f, [], paths, o) {
      if Hex(o) == Hex(f.root) {
        NumeralInjective(o, f.root, 16);
      }
    }
  }
}
