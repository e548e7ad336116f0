/**
GMFile and its variables: moving the variables that serve as coordinates out of the list of variables,
making up the missing ones, and splitting the 64-bit sounding identifiers.
*/
module CoordVars {
  import opened KeyOrder
  import opened Lists
  import FakeDims

  datatype DataType = H5INT32 | H5INT64 | OtherType(code: nat)

  datatype Dim = Dim(name: string, size: nat)

  datatype Var = Var(name: string, newname: string, fullpath: string, dtype: DataType, dims: seq<Dim>,
    attrs: seq<(string, string)>)

  datatype CVType = CV_EXIST | CV_FILLINDEX | CV_NONLATLON_MISS

  datatype CVar = CVar(source: Var, cfdimname: string, cvartype: CVType)

  /** A 32-bit variable that holds a window of decimal digits of a 64-bit one. */
  datatype SpVar = SpVar(source: Var, name: string, newname: string, dtype: DataType, otype: DataType,
    sdbit: int, numofdbits: int)

  const NETCDF_DIM_MARK := "This is a netCDF dimension but not a netCDF variable"

  /** Is_netCDF_Dimension: the first NAME attribute decides. */
  predicate IsNetCDFDimension(attrs: seq<(string, string)>) {
    attrs != [] &&
    if attrs[0].0 == "NAME" then NETCDF_DIM_MARK <= attrs[0].1 else IsNetCDFDimension(attrs[1..])
  }

  lemma {:induction false} NetCDFDimensionIs(attrs: seq<(string, string)>)
    ensures IsNetCDFDimension(attrs) <==>
            exists i :: 0 <= i < |attrs| && attrs[i].0 == "NAME" && (forall j :: 0 <= j < i ==> attrs[j].0 != "NAME") &&
                        "This is a netCDF dimension but not a netCDF variable" <= attrs[i].1
  {
    if attrs != [] {
      var rest := attrs[1..];
      NetCDFDimensionIs(rest);
      if attrs[0].0 != "NAME" {
        if IsNetCDFDimension(rest) {
          var i :| 0 <= i < |rest| && rest[i].0 == "NAME" && (forall j :: 0 <= j < i ==> rest[j].0 != "NAME") &&
                   NETCDF_DIM_MARK <= rest[i].1;
          assert attrs[i + 1] == rest[i];
        }
        forall i | 0 < i < |attrs| ensures attrs[i] == rest[i - 1] {
        }
      }
    }
  }

  function KindOf(v: Var, dimscale: bool): CVType {
    if dimscale && IsNetCDFDimension(v.attrs) then CV_FILLINDEX else CV_EXIST
  }

  /** Create_Missing_CV. */
  function MissingCV(dimname: string, size: nat): CVar {
    CVar(Var(dimname, dimname, dimname, H5INT32, [Dim(dimname, size)], []), dimname, CV_NONLATLON_MISS)
  }

  function Sources(cvars: seq<CVar>): (vars: seq<Var>)
    ensures |vars| == |cvars|
  {
    seq(|cvars|, i requires 0 <= i < |cvars| => cvars[i].source)
  }

  /** The variables that stay: those whose path is not a dimension name, in their order. */
  function Others(vars: seq<Var>, dimNames: set<string>): seq<Var> {
    if vars == [] then []
    else (if vars[0].fullpath in dimNames then [] else [vars[0]]) + Others(vars[1..], dimNames)
  }

  /** The coordinate variables of one dimension name, in their order. */
  function Scales(vars: seq<Var>, dimname: string, dimscale: bool): seq<CVar> {
    if vars == [] then []
    else
      (if vars[0].fullpath == dimname then [CVar(vars[0], dimname, KindOf(vars[0], dimscale))] else []) +
      Scales(vars[1..], dimname, dimscale)
  }

  /** What the lookups of the names leave behind: each of them is recorded now. */
  function LookedUp(sizeOf: map<string, nat>, names: seq<string>): map<string, nat> {
    map d | d in sizeOf.Keys + (set i | 0 <= i < |names| :: names[i]) :: SizeOf(sizeOf, d)
  }

  lemma NothingLookedUp(sizeOf: map<string, nat>)
    ensures LookedUp(sizeOf, []) == sizeOf
  {}

  lemma LookedUpSnoc(sizeOf: map<string, nat>, names: seq<string>, d: string)
    ensures var m := LookedUp(sizeOf, names);
            LookedUp(sizeOf, names + [d]) == (if d in m then m else m[d := 0])
    ensures d in LookedUp(sizeOf, names) ==> LookedUp(sizeOf, names)[d] == SizeOf(sizeOf, d)
    ensures d !in LookedUp(sizeOf, names) ==> SizeOf(sizeOf, d) == 0
  {
    var all := names + [d];
    assert all[|names|] == d && forall i :: 0 <= i < |names| ==> all[i] == names[i];
    assert (set i | 0 <= i < |all| :: all[i]) == (set i | 0 <= i < |names| :: names[i]) + {d};
  }

  lemma LookupsLeaveNoTrace(sizeOf: map<string, nat>, names: seq<string>)
    ensures LookedUp(sizeOf, names) == sizeOf <==> forall d :: d in names ==> d in sizeOf
  {}

  ghost predicate HasPath(vars: seq<Var>, path: string) {
    exists i :: 0 <= i < |vars| && vars[i].fullpath == path
  }

  ghost predicate ScalesAreOneDimensional(vars: seq<Var>, dimNames: set<string>) {
    forall i :: 0 <= i < |vars| && vars[i].fullpath in dimNames ==> |vars[i].dims| == 1
  }

  // ----- facts about taking variables out

  lemma Associative<T>(a: seq<T>, b: seq<T>, c: seq<T>)
    ensures a + b + c == a + (b + c)
  {}

  lemma OthersFirst(vars: seq<Var>, dimNames: set<string>)
    requires vars != []
    ensures Others(vars, dimNames) ==
            (if vars[0].fullpath in dimNames then [] else [vars[0]]) + Others(vars[1..], dimNames)
  {}

  lemma {:induction false} OthersConcat(a: seq<Var>, b: seq<Var>, dimNames: set<string>)
    ensures Others(a + b, dimNames) == Others(a, dimNames) + Others(b, dimNames)
  {
    if a == [] {
      assert a + b == b;
    } else {
      hide Others;
      assert (a + b)[1..] == a[1..] + b && (a + b)[0] == a[0];
      OthersConcat(a[1..], b, dimNames);
      OthersFirst(a, dimNames);
      OthersFirst(a + b, dimNames);
      Associative(if a[0].fullpath in dimNames then [] else [a[0]], Others(a[1..], dimNames), Others(b, dimNames));
    }
  }

  lemma ScalesFirst(vars: seq<Var>, dimname: string, dimscale: bool)
    requires vars != []
    ensures Scales(vars, dimname, dimscale) ==
            (if vars[0].fullpath == dimname then [CVar(vars[0], dimname, KindOf(vars[0], dimscale))] else []) +
            Scales(vars[1..], dimname, dimscale)
  {}

  lemma {:induction false} ScalesConcat(a: seq<Var>, b: seq<Var>, dimname: string, dimscale: bool)
    ensures Scales(a + b, dimname, dimscale) == Scales(a, dimname, dimscale) + Scales(b, dimname, dimscale)
  {
    if a == [] {
      assert a + b == b;
    } else {
      hide Scales, KindOf;
      assert (a + b)[1..] == a[1..] + b && (a + b)[0] == a[0];
      ScalesConcat(a[1..], b, dimname, dimscale);
      ScalesFirst(a, dimname, dimscale);
      ScalesFirst(a + b, dimname, dimscale);
      Associative(if a[0].fullpath == dimname then [CVar(a[0], dimname, KindOf(a[0], dimscale))] else [],
        Scales(a[1..], dimname, dimscale), Scales(b, dimname, dimscale));
    }
  }

  lemma {:induction false} OthersCompose(vars: seq<Var>, done: set<string>, d: string)
    ensures Others(Others(vars, done), {d}) == Others(vars, done + {d})
  {
    hide KindOf, IsNetCDFDimension;
    if vars != [] {
      var head := if vars[0].fullpath in done then [] else [vars[0]];
      OthersCompose(vars[1..], done, d);
      OthersConcat(head, Others(vars[1..], done), {d});
    }
  }

  lemma {:induction false} ScalesOfOthers(vars: seq<Var>, done: set<string>, d: string, dimscale: bool)
    requires d !in done
    ensures Scales(Others(vars, done), d, dimscale) == Scales(vars, d, dimscale)
  {
    hide KindOf, IsNetCDFDimension;
    if vars != [] {
      var head := if vars[0].fullpath in done then [] else [vars[0]];
      ScalesOfOthers(vars[1..], done, d, dimscale);
      ScalesConcat(head, Others(vars[1..], done), d, dimscale);
    }
  }

  lemma {:induction false} NoneTaken(vars: seq<Var>)
    ensures Others(vars, {}) == vars
  {
    if vars != [] {
      NoneTaken(vars[1..]);
    }
  }

  /** Nothing is lost or duplicated by taking out the scales of one dimension. */
  lemma {:induction false} TakeOutConserves(vars: seq<Var>, d: string, dimscale: bool)
    ensures multiset(vars) == multiset(Others(vars, {d})) + multiset(Sources(Scales(vars, d, dimscale)))
  {
    hide KindOf, IsNetCDFDimension;
    if vars != [] {
      TakeOutConserves(vars[1..], d, dimscale);
      var v, rest, scales := vars[0], Others(vars[1..], {d}), Scales(vars[1..], d, dimscale);
      assert vars == [v] + vars[1..];
      if v.fullpath == d {
        SourcesConcat([CVar(v, d, KindOf(v, dimscale))], scales);
        MoveRight(vars[1..], v, rest, Sources(scales));
      } else {
        SourcesConcat([], scales);
        MoveLeft(vars[1..], v, rest, Sources(scales));
      }
    }
  }

  lemma SourcesConcat(a: seq<CVar>, b: seq<CVar>)
    ensures Sources(a + b) == Sources(a) + Sources(b)
    ensures |a| == 1 ==> Sources(a) == [a[0].source]
    ensures [] + b == b
  {}

  lemma MoveRight<T>(all: seq<T>, x: T, rest: seq<T>, taken: seq<T>)
    requires multiset(all) == multiset(rest) + multiset(taken)
    ensures multiset([x] + all) == multiset([] + rest) + multiset([x] + taken)
  {}

  lemma MoveLeft<T>(all: seq<T>, x: T, rest: seq<T>, taken: seq<T>)
    requires multiset(all) == multiset(rest) + multiset(taken)
    ensures multiset([x] + all) == multiset([x] + rest) + multiset(taken)
  {}

  lemma {:induction false} ScalesArePresent(vars: seq<Var>, d: string, dimscale: bool)
    ensures Scales(vars, d, dimscale) != [] <==> HasPath(vars, d)
    ensures forall c :: c in Scales(vars, d, dimscale) ==>
      c.source in vars && c.source.fullpath == c.cfdimname == d && c.cvartype == KindOf(c.source, dimscale)
    ensures (forall i, j :: 0 <= i < j < |vars| ==> vars[i].fullpath != vars[j].fullpath) ==>
      |Scales(vars, d, dimscale)| <= 1
  {
    hide KindOf, IsNetCDFDimension;
    if vars != [] {
      ScalesArePresent(vars[1..], d, dimscale);
      if HasPath(vars[1..], d) {
        var i :| 0 <= i < |vars[1..]| && vars[1..][i].fullpath == d;
        assert vars[i + 1].fullpath == d;
      }
      if vars[0].fullpath != d && HasPath(vars, d) {
        var i :| 0 <= i < |vars| && vars[i].fullpath == d;
        assert vars[1..][i - 1].fullpath == d;
      }
    }
  }

  // ----- what the whole extraction produces

  /** The scales of the names visited, name by name. */
  function AllScales(vars: seq<Var>, order: seq<string>, dimscale: bool): seq<CVar> {
    if order == [] then []
    else AllScales(vars, order[..|order| - 1], dimscale) + Scales(vars, order[|order| - 1], dimscale)
  }

  /** std::map::operator[]: the default 0 for a name that is not recorded. */
  function SizeOf(sizeOf: map<string, nat>, d: string): nat {
    if d in sizeOf then sizeOf[d] else 0
  }

  function AllMissing(order: seq<string>, sizeOf: map<string, nat>): seq<CVar> {
    seq(|order|, i requires 0 <= i < |order| => MissingCV(order[i], SizeOf(sizeOf, order[i])))
  }

  /** `order` lists the set as std::set visits it. */
  ghost predicate KeyOrdered(order: seq<string>, s: set<string>) {
    && Distinct(order) && Elements(order) == s
    && forall i, j :: 0 <= i < j < |order| ==> LexLe(order[i], order[j])
  }

  lemma KeyOrderIs(order: seq<string>, s: set<string>)
    ensures KeyOrdered(order, s) <==>
            && (forall d :: d in order <==> d in s)
            && forall i, j :: 0 <= i < j < |order| ==> order[i] != order[j] && LexLe(order[i], order[j])
  {
    assert Elements(order) == s <==> forall d :: d in order <==> d in s;
  }

  lemma MissingInOrder(order: seq<string>, d: string, sizeOf: map<string, nat>)
    ensures AllMissing([], sizeOf) == [] && |AllMissing([d], sizeOf)| == 1 && AllMissing([d], sizeOf)[0].cfdimname == d
    ensures AllMissing(order + [d], sizeOf) == AllMissing(order, sizeOf) + AllMissing([d], sizeOf)
  {}

  lemma {:induction false} ScalesConserve(vars: seq<Var>, order: seq<string>, dimscale: bool)
    requires Distinct(order)
    ensures multiset(vars) ==
            multiset(Others(vars, Elements(order))) + multiset(Sources(AllScales(vars, order, dimscale)))
  {
    if order == [] {
      NoneTaken(vars);
      assert Elements(order) == {};
    } else {
      var n := |order| - 1;
      var done, d := Elements(order[..n]), order[n];
      ScalesConserve(vars, order[..n], dimscale);
      assert Elements(order) == done + {d} by { assert order == order[..n] + [d]; }
      OthersCompose(vars, done, d);
      ScalesOfOthers(vars, done, d, dimscale);
      TakeOutConserves(Others(vars, done), d, dimscale);
      SourcesConcat(AllScales(vars, order[..n], dimscale), Scales(vars, d, dimscale));
      MoveOn(vars, Others(vars, done), Sources(AllScales(vars, order[..n], dimscale)),
        Others(vars, Elements(order)), Sources(Scales(vars, d, dimscale)));
    }
  }

  lemma MoveOn<T>(all: seq<T>, left: seq<T>, taken: seq<T>, left': seq<T>, more: seq<T>)
    requires multiset(all) == multiset(left) + multiset(taken)
    requires multiset(left) == multiset(left') + multiset(more)
    ensures multiset(all) == multiset(left') + multiset(taken + more)
  {}

  /** Where the coordinate variables of the names come from, and of what kind they are. */
  lemma {:induction false} ScalesAre(vars: seq<Var>, order: seq<string>, dimscale: bool)
    ensures forall c :: c in AllScales(vars, order, dimscale) ==>
      && c.source in vars && c.source.fullpath == c.cfdimname && c.cfdimname in order
      && c.cvartype == if dimscale && IsNetCDFDimension(c.source.attrs) then CV_FILLINDEX else CV_EXIST
  {
    hide IsNetCDFDimension, Scales;
    if order != [] {
      ScalesAre(vars, order[..|order| - 1], dimscale);
      ScalesArePresent(vars, order[|order| - 1], dimscale);
    }
  }

  /** Every coordinate variable is a variable with the path of its dimension, or made up for it. */
  lemma AddedAre(vars: seq<Var>, order: seq<string>, missing: seq<string>, sizeOf: map<string, nat>, dimscale: bool)
    ensures forall c :: c in AllScales(vars, order, dimscale) + AllMissing(missing, sizeOf) ==>
      if c.cvartype == CV_NONLATLON_MISS then
        var d := c.cfdimname;
        && c.source.name == d && c.source.newname == d && c.source.fullpath == d && c.source.dtype == H5INT32
        && c.source.dims == [Dim(d, if d in sizeOf then sizeOf[d] else 0)] && c.source.attrs == []
      else
        && c.source in vars && c.source.fullpath == c.cfdimname
        && (c.cvartype == CV_FILLINDEX <==> dimscale && IsNetCDFDimension(c.source.attrs))
  {
    hide IsNetCDFDimension, AllScales;
    ScalesAre(vars, order, dimscale);
    var scales := AllScales(vars, order, dimscale);
    forall c | c in scales + AllMissing(missing, sizeOf) ensures c in scales || c in AllMissing(missing, sizeOf) {
    }
  }

  /** Every made-up coordinate variable has the size on record for its dimension. */
  ghost predicate SizesAreRecorded(cvars: seq<CVar>, sizeOf: map<string, nat>) {
    forall i :: 0 <= i < |cvars| && cvars[i].cvartype == CV_NONLATLON_MISS ==>
      var d := cvars[i].cfdimname;
      d in sizeOf && cvars[i].source.dims == [Dim(d, sizeOf[d])]
  }

  lemma {:induction false} NoScaleIsMadeUp(vars: seq<Var>, order: seq<string>, dimscale: bool)
    ensures forall c :: c in AllScales(vars, order, dimscale) ==> c.cvartype != CV_NONLATLON_MISS
  {
    if order != [] {
      NoScaleIsMadeUp(vars, order[..|order| - 1], dimscale);
      ScalesArePresent(vars, order[|order| - 1], dimscale);
    }
  }

  lemma MadeUpSizesAreRecorded(vars: seq<Var>, order: seq<string>, missing: seq<string>, sizeOf: map<string, nat>,
      dimscale: bool)
    requires forall d :: d in missing ==> d in sizeOf
    ensures SizesAreRecorded(AllScales(vars, order, dimscale) + AllMissing(missing, sizeOf), sizeOf)
  {
    var scales: seq<CVar> := AllScales(vars, order, dimscale);
    var added: seq<CVar> := scales + AllMissing(missing, sizeOf);
    NoScaleIsMadeUp(vars, order, dimscale);
    assert forall i :: 0 <= i < |scales| ==> added[i] in scales;
    forall i | 0 <= i < |added| && added[i].cvartype == CV_NONLATLON_MISS
      ensures var d := added[i].cfdimname; d in sizeOf && added[i].source.dims == [Dim(d, sizeOf[d])]
    {
      if i >= |scales| {
        assert missing[i - |scales|] in missing;
      }
    }
  }

  /** With every dimension name on record, so is every size that is looked up. */
  lemma AllIsRecorded(vars: seq<Var>, dimNames: set<string>, order: seq<string>, missing: seq<string>,
      sizeOf: map<string, nat>, dimscale: bool, before: seq<CVar>, after: seq<CVar>)
    requires dimNames <= sizeOf.Keys && KeyOrdered(missing, set d | d in dimNames && !HasPath(vars, d))
    requires after == before + AllScales(vars, order, dimscale) + AllMissing(missing, sizeOf)
    ensures forall d :: d in missing ==> d in sizeOf
    ensures SizesAreRecorded(after[|before|..], sizeOf)
  {
    hide HasPath, AllScales, AllMissing, SizesAreRecorded;
    assert forall d :: d in missing ==> d in Elements(missing);
    MadeUpSizesAreRecorded(vars, order, missing, sizeOf, dimscale);
    assert after[|before|..] == AllScales(vars, order, dimscale) + AllMissing(missing, sizeOf);
  }

  /** How many coordinate variables a dimension name has. */
  function CountFor(cvars: seq<CVar>, d: string): nat {
    if cvars == [] then 0 else (if cvars[0].cfdimname == d then 1 else 0) + CountFor(cvars[1..], d)
  }

  lemma {:induction false} CountForConcat(a: seq<CVar>, b: seq<CVar>, d: string)
    ensures CountFor(a + b, d) == CountFor(a, d) + CountFor(b, d)
  {
    if a == [] {
      assert a + b == b;
    } else {
      assert (a + b)[1..] == a[1..] + b;
      CountForConcat(a[1..], b, d);
    }
  }

  lemma {:induction false} CountForUniform(cvars: seq<CVar>, d: string, e: string)
    requires forall c :: c in cvars ==> c.cfdimname == e
    ensures CountFor(cvars, d) == if d == e then |cvars| else 0
  {
    if cvars != [] {
      CountForUniform(cvars[1..], d, e);
    }
  }

  lemma {:induction false} CountScales(vars: seq<Var>, order: seq<string>, dimscale: bool, d: string)
    requires Distinct(order)
    ensures CountFor(AllScales(vars, order, dimscale), d) == if d in order then |Scales(vars, d, dimscale)| else 0
  {
    if order != [] {
      var n := |order| - 1;
      CountScales(vars, order[..n], dimscale, d);
      ScalesArePresent(vars, order[n], dimscale);
      CountForUniform(Scales(vars, order[n], dimscale), d, order[n]);
      CountForConcat(AllScales(vars, order[..n], dimscale), Scales(vars, order[n], dimscale), d);
    }
  }

  lemma {:induction false} CountMissing(order: seq<string>, sizeOf: map<string, nat>, d: string)
    requires Distinct(order)
    ensures CountFor(AllMissing(order, sizeOf), d) == if d in order then 1 else 0
  {
    if order != [] {
      assert AllMissing(order, sizeOf)[1..] == AllMissing(order[1..], sizeOf);
      CountMissing(order[1..], sizeOf, d);
      assert order == [order[0]] + order[1..];
    }
  }

  /**
  Every dimension name gets as many coordinate variables as there are variables with
  that path, or one made-up one if there is none: exactly one if paths are distinct.
  */
  lemma OneCoordinateEach(vars: seq<Var>, dimNames: set<string>, order: seq<string>, missing: seq<string>,
      sizeOf: map<string, nat>, dimscale: bool, d: string)
    requires KeyOrdered(order, dimNames) && KeyOrdered(missing, set x | x in dimNames && !HasPath(vars, x))
    ensures var added := AllScales(vars, order, dimscale) + AllMissing(missing, sizeOf);
            && (d in dimNames ==> CountFor(added, d) >= 1)
            && (d !in dimNames ==> CountFor(added, d) == 0)
            && (d in dimNames && Distinct(Paths(vars)) ==> CountFor(added, d) == 1)
  {
    CountScales(vars, order, dimscale, d);
    CountMissing(missing, sizeOf, d);
    CountForConcat(AllScales(vars, order, dimscale), AllMissing(missing, sizeOf), d);
    ScalesArePresent(vars, d, dimscale);
    assert d in order <==> d in Elements(order);
    assert d in missing <==> d in Elements(missing);
    if Distinct(Paths(vars)) {
      assert forall i :: 0 <= i < |vars| ==> Paths(vars)[i] == vars[i].fullpath;
    }
  }

  function Paths(vars: seq<Var>): (paths: seq<string>)
    ensures |paths| == |vars|
  {
    seq(|vars|, i requires 0 <= i < |vars| => vars[i].fullpath)
  }

  lemma NothingWalked(d: string, dimscale: bool)
    ensures Others([], {d}) == [] && Scales([], d, dimscale) == [] && !HasPath([], d)
  {}

  lemma OneWalked(v: Var, d: string, dimscale: bool)
    ensures Others([v], {d}) == if v.fullpath == d then [] else [v]
    ensures Scales([v], d, dimscale) == if v.fullpath == d then [CVar(v, d, KindOf(v, dimscale))] else []
  {}

  lemma HasPathSnoc(vars: seq<Var>, v: Var, path: string)
    ensures HasPath(vars + [v], path) <==> HasPath(vars, path) || v.fullpath == path
  {
    assert (vars + [v])[|vars|] == v;
    if HasPath(vars, path) {
      var i :| 0 <= i < |vars| && vars[i].fullpath == path;
      assert (vars + [v])[i] == vars[i];
    }
  }

  lemma NothingExtracted(vars: seq<Var>, dimscale: bool)
    ensures Others(vars, Elements([])) == vars && AllScales(vars, [], dimscale) == []
    ensures ScalesAreOneDimensional(vars, Elements([])) && KeyOrdered([], {})
  {
    NoneTaken(vars);
    assert Elements<string>([]) == {};
  }

  lemma {:induction false} OthersMembers(vars: seq<Var>, done: set<string>)
    ensures forall v :: v in Others(vars, done) <==> v in vars && v.fullpath !in done
  {
    if vars != [] {
      OthersMembers(vars[1..], done);
      assert vars == [vars[0]] + vars[1..];
    }
  }

  lemma OneDimensionalMembers(vars: seq<Var>, dimNames: set<string>)
    ensures ScalesAreOneDimensional(vars, dimNames) <==>
            forall v :: v in vars && v.fullpath in dimNames ==> |v.dims| == 1
  {}

  /** Going on with one more dimension name. */
  lemma OneMoreScale(vars: seq<Var>, order: seq<string>, d: string, dimscale: bool)
    requires d !in order
    ensures Elements(order + [d]) == Elements(order) + {d}
    ensures var left := Others(vars, Elements(order));
            && Others(left, {d}) == Others(vars, Elements(order + [d]))
            && AllScales(vars, order + [d], dimscale) == AllScales(vars, order, dimscale) + Scales(left, d, dimscale)
            && (HasPath(left, d) <==> HasPath(vars, d))
            && (ScalesAreOneDimensional(left, {d}) <==> ScalesAreOneDimensional(vars, {d}))
            && (ScalesAreOneDimensional(vars, Elements(order + [d])) <==>
                  ScalesAreOneDimensional(vars, Elements(order)) && ScalesAreOneDimensional(vars, {d}))
  {
    var done, left := Elements(order), Others(vars, Elements(order));
    assert Elements(order + [d]) == done + {d};
    assert (order + [d])[..|order|] == order;
    OthersCompose(vars, done, d);
    ScalesOfOthers(vars, done, d, dimscale);
    ScalesArePresent(vars, d, dimscale);
    ScalesArePresent(left, d, dimscale);
    OthersMembers(vars, done);
    OneDimensionalMembers(left, {d});
    OneDimensionalMembers(vars, {d});
    OneDimensionalMembers(vars, done);
    OneDimensionalMembers(vars, done + {d});
  }

  lemma FewerNames(vars: seq<Var>, some: set<string>, all: set<string>)
    requires some <= all && ScalesAreOneDimensional(vars, all)
    ensures ScalesAreOneDimensional(vars, some)
  {}

  lemma KeyOrderedSnoc(order: seq<string>, s: set<string>, d: string)
    requires KeyOrdered(order, s) && d !in s
    requires forall x :: x in order ==> LexLe(x, d)
    ensures d !in order && KeyOrdered(order + [d], s + {d})
  {}

  // ----- 64-bit variables

  /** Digits 1 to 6 of a sounding identifier: hour, minute, second. */
  function TimePart(v: Var): SpVar {
    SpVar(v, v.name + "_Time", v.newname + "_Time", H5INT32, v.dtype, 1, 6)
  }

  /** Digits 7 to 14: year, month, day. */
  function DatePart(v: Var): SpVar {
    SpVar(v, v.name + "_Date", v.newname + "_Date", H5INT32, v.dtype, 7, 8)
  }

  function SmallVars(vars: seq<Var>): seq<Var> {
    if vars == [] then []
    else
      SmallVars(vars[..|vars| - 1]) +
      (if vars[|vars| - 1].dtype == H5INT64 then [] else [vars[|vars| - 1]])
  }

  /** Each 64-bit variable in turn as its two parts. */
  function SplitVars(vars: seq<Var>): seq<SpVar> {
    if vars == [] then []
    else
      SplitVars(vars[..|vars| - 1]) +
      (if vars[|vars| - 1].dtype == H5INT64 then [TimePart(vars[|vars| - 1]), DatePart(vars[|vars| - 1])] else [])
  }

  /** Two parts for each variable that goes; all parts are 32 bits wide and keep the 64-bit origin. */
  lemma {:induction false} SplitIsExact(vars: seq<Var>)
    ensures |vars| == |SmallVars(vars)| + |SplitVars(vars)| / 2 && |SplitVars(vars)| % 2 == 0
    ensures forall v :: v in SmallVars(vars) <==> v in vars && v.dtype != H5INT64
    ensures forall i :: 0 <= i < |SplitVars(vars)| / 2 ==>
      var p, q := SplitVars(vars)[2 * i], SplitVars(vars)[2 * i + 1];
      && p.source == q.source && p.source in vars && p.source.dtype == H5INT64
      && p == TimePart(p.source) && q == DatePart(p.source)
    ensures forall v :: v in vars && v.dtype == H5INT64 ==>
      TimePart(v) in SplitVars(vars) && DatePart(v) in SplitVars(vars)
  {
    hide TimePart, DatePart;
    if vars != [] {
      var n := |vars| - 1;
      SplitIsExact(vars[..n]);
      assert vars == vars[..n] + [vars[n]];
      PartsOf(vars[n]);
    }
  }

  /** The variables are taken in order; the two parts of each: names, types and digits. */
  lemma SplitOneMore(vars: seq<Var>, v: Var)
    ensures SmallVars([]) == [] && SplitVars([]) == []
    ensures SmallVars(vars + [v]) == SmallVars(vars) + (if v.dtype == H5INT64 then [] else [v])
    ensures v.dtype != H5INT64 ==> SplitVars(vars + [v]) == SplitVars(vars)
    ensures v.dtype == H5INT64 ==>
      exists time: SpVar, date: SpVar :: SplitVars(vars + [v]) == SplitVars(vars) + [time, date] &&
        time.source == date.source == v &&
        time.name == v.name + "_Time" && time.newname == v.newname + "_Time" &&
        date.name == v.name + "_Date" && date.newname == v.newname + "_Date" &&
        time.dtype == date.dtype == H5INT32 && time.otype == date.otype == H5INT64 &&
        (time.sdbit, time.numofdbits) == (1, 6) && (date.sdbit, date.numofdbits) == (7, 8)
  {
    assert (vars + [v])[..|vars|] == vars;
    if v.dtype == H5INT64 {
      assert SplitVars(vars + [v]) == SplitVars(vars) + [TimePart(v), DatePart(v)];
    }
  }

  lemma PartsOf(v: Var)
    ensures TimePart(v).source == v && DatePart(v).source == v
  {}

  // ----- the file

  class GMVariables {
    var iscoard: bool
    var dimNameList: set<string>
    var dimnameToDimsize: map<string, nat>
    var vars: seq<Var>
    var cvars: seq<CVar>
    var spvars: seq<SpVar>

    /** What the naming of dimensions leaves behind: the names are the ones with a size. */
    ghost predicate Valid()
      reads this
    {
      dimnameToDimsize.Keys == dimNameList
    }

    /** The file as it is after its dimensions have been named. */
    constructor (naming: FakeDims.File, iscoard: bool, vars: seq<Var>)
      requires naming.Valid()
      ensures Valid() && this.iscoard == iscoard && this.vars == vars && cvars == [] && spvars == []
      ensures dimNameList == naming.dimNameList && dimnameToDimsize == naming.dimnameToDimsize
    {
      this.iscoard, this.vars := iscoard, vars;
      dimNameList, dimnameToDimsize := naming.dimNameList, naming.dimnameToDimsize;
      cvars, spvars := [], [];
    }

    /** The inner loop: erases the scales of one dimension from vars while walking over it. */
    method ExtractScales(dimname: string, dimscale: bool) returns (ok: bool, found: bool)
      modifies this`vars, this`cvars
      ensures ok ==> (found <==> HasPath(old(vars), dimname))
      ensures ok <==> ScalesAreOneDimensional(old(vars), {dimname})
      ensures ok ==> vars == Others(old(vars), {dimname})
      ensures ok ==> cvars == old(cvars) + Scales(old(vars), dimname, dimscale)
    {
      hide Others, Scales, KindOf, IsNetCDFDimension, HasPath;
      found := false;
      NothingWalked(dimname, dimscale);
      ghost var done := 0;
      var i := 0;
      while i < |vars|
        invariant 0 <= done <= |old(vars)| && 0 <= i <= |vars|
        invariant found <==> HasPath(old(vars)[..done], dimname)
        invariant vars[i..] == old(vars)[done..]
        invariant vars[..i] == Others(old(vars)[..done], {dimname})
        invariant cvars == old(cvars) + Scales(old(vars)[..done], dimname, dimscale)
        invariant ScalesAreOneDimensional(old(vars)[..done], {dimname})
        decreases |vars| - i
      {
        ghost var v := old(vars)[done];
        assert vars[i] == vars[i..][0] == v;
        assert old(vars)[..done + 1] == old(vars)[..done] + [v];
        OthersConcat(old(vars)[..done], [v], {dimname});
        ScalesConcat(old(vars)[..done], [v], dimname, dimscale);
        HasPathSnoc(old(vars)[..done], v, dimname);
        OneWalked(v, dimname, dimscale);
        assert old(vars)[done + 1..] == vars[i..][1..];
        if dimname == vars[i].fullpath {
          if |vars[i].dims| != 1 {
            assert old(vars)[done].fullpath in {dimname};
            return false, found;
          }
          assert old(vars)[..done + 1][done] == v;
          found := true;
          cvars := cvars + [CVar(vars[i], dimname, KindOf(vars[i], dimscale))];
          vars := vars[..i] + vars[i + 1..];
        } else {
          i := i + 1;
        }
        done := done + 1;
      }
      assert old(vars)[..done] == old(vars);
      return true, found;
    }

    /**
    Handle_CVar_Mea_Ozone, and with `dimscale` Handle_CVar_Dimscale_General_Product.
    `order` and `missing` are the dimension names in the order the loops visit them.
    */
    method HandleCVar(dimscale: bool) returns (ok: bool, ghost order: seq<string>, ghost missing: seq<string>)
      modifies this`vars, this`cvars, this`dimnameToDimsize
      ensures ok <==> iscoard && ScalesAreOneDimensional(old(vars), dimNameList)
      ensures ok ==>
        && KeyOrdered(order, dimNameList)
        && KeyOrdered(missing, set d | d in dimNameList && !HasPath(old(vars), d))
        && vars == Others(old(vars), dimNameList)
        && cvars == old(cvars) + AllScales(old(vars), order, dimscale) + AllMissing(missing, old(dimnameToDimsize))
        && dimnameToDimsize == LookedUp(old(dimnameToDimsize), missing)
        && (dimnameToDimsize == old(dimnameToDimsize) <==> forall d :: d in missing ==> d in old(dimnameToDimsize))
      ensures old(dimNameList <= dimnameToDimsize.Keys) ==> dimnameToDimsize == old(dimnameToDimsize)
      ensures ok && old(dimNameList <= dimnameToDimsize.Keys) ==>
        SizesAreRecorded(cvars[|old(cvars)|..], old(dimnameToDimsize))
      ensures old(Valid()) ==> Valid()
      ensures ok ==> |cvars| >= |old(cvars)| && forall c :: c in cvars[|old(cvars)|..] ==>
        if c.cvartype == CV_NONLATLON_MISS then
          var d := c.cfdimname;
          && c.source.name == d && c.source.newname == d && c.source.fullpath == d && c.source.dtype == H5INT32
          && c.source.dims == [Dim(d, if d in old(dimnameToDimsize) then old(dimnameToDimsize)[d] else 0)]
          && c.source.attrs == []
        else
          && c.source in old(vars) && c.source.fullpath == c.cfdimname
          && (c.cvartype == CV_FILLINDEX <==> dimscale && IsNetCDFDimension(c.source.attrs))
    {
      hide HasPath, Others, AllScales, AllMissing, LookedUp, SizesAreRecorded, KeyOrdered, IsNetCDFDimension;
      order, missing := [], [];
      if !iscoard {
        return false, order, missing;
      }
      var temp;
      ok, temp, order := ExtractAll(dimscale);
      if !ok {
        return;
      }
      missing := AddMissing(temp);
      LookupsLeaveNoTrace(old(dimnameToDimsize), missing);
      AddedAre(old(vars), order, missing, old(dimnameToDimsize), dimscale);
      assert cvars[|old(cvars)|..] ==
             AllScales(old(vars), order, dimscale) + AllMissing(missing, old(dimnameToDimsize));
      if old(dimNameList <= dimnameToDimsize.Keys) {
        AllIsRecorded(old(vars), dimNameList, order, missing, old(dimnameToDimsize), dimscale, old(cvars), cvars);
      }
    }

    /** The loop over the dimension names; `temp` keeps the names without a variable. */
    method ExtractAll(dimscale: bool) returns (ok: bool, temp: set<string>, ghost order: seq<string>)
      modifies this`vars, this`cvars
      ensures ok <==> ScalesAreOneDimensional(old(vars), dimNameList)
      ensures ok ==>
        && KeyOrdered(order, dimNameList)
        && temp == (set d | d in dimNameList && !HasPath(old(vars), d))
        && vars == Others(old(vars), dimNameList)
        && cvars == old(cvars) + AllScales(old(vars), order, dimscale)
    {
      hide LexLe, HasPath, Others, AllScales, Scales, ScalesAreOneDimensional;
      temp, order := dimNameList, [];
      var rest := dimNameList;
      NothingExtracted(vars, dimscale);
      while rest != {}
        invariant rest <= dimNameList && KeyOrdered(order, dimNameList - rest)
        invariant forall x, y :: x in order && y in rest ==> LexLe(x, y)
        invariant temp == set d | d in dimNameList && (d in rest || !HasPath(old(vars), d))
        invariant vars == Others(old(vars), Elements(order))
        invariant cvars == old(cvars) + AllScales(old(vars), order, dimscale)
        invariant ScalesAreOneDimensional(old(vars), Elements(order))
      {
        LeastExists(rest);
        var d :| d in rest && forall m :: m in rest ==> LexLe(d, m);
        OneMoreScale(old(vars), order, d, dimscale);
        KeyOrderedSnoc(order, dimNameList - rest, d);
        var found;
        ok, found := ExtractScales(d, dimscale);
        if !ok {
          if ScalesAreOneDimensional(old(vars), dimNameList) {
            FewerNames(old(vars), {d}, dimNameList);
          }
          return;
        }
        if found {
          temp := temp - {d};
        }
        rest := rest - {d};
        order := order + [d];
        assert dimNameList - rest == dimNameList - (rest + {d}) + {d};
      }
      assert dimNameList - rest == dimNameList;
      ok := true;
    }

    /** The last loop: a made-up coordinate variable for each name left. */
    method AddMissing(temp: set<string>) returns (ghost missing: seq<string>)
      modifies this`cvars, this`dimnameToDimsize
      ensures KeyOrdered(missing, temp)
      ensures cvars == old(cvars) + AllMissing(missing, old(dimnameToDimsize))
      ensures dimnameToDimsize == LookedUp(old(dimnameToDimsize), missing)
    {
      hide LexLe, LookedUp;
      missing := [];
      NothingLookedUp(dimnameToDimsize);
      var rest := temp;
      while rest != {}
        invariant rest <= temp && KeyOrdered(missing, temp - rest)
        invariant forall x, y :: x in missing && y in rest ==> LexLe(x, y)
        invariant cvars == old(cvars) + AllMissing(missing, old(dimnameToDimsize))
        invariant dimnameToDimsize == LookedUp(old(dimnameToDimsize), missing)
      {
        LeastExists(rest);
        var d :| d in rest && forall m :: m in rest ==> LexLe(d, m);
        KeyOrderedSnoc(missing, temp - rest, d);
        LookedUpSnoc(old(dimnameToDimsize), missing, d);
        if d !in dimnameToDimsize {
          dimnameToDimsize := dimnameToDimsize[d := 0];
        }
        cvars := cvars + [MissingCV(d, dimnameToDimsize[d])];
        rest := rest - {d};
        missing := missing + [d];
        assert temp - rest == temp - (rest + {d}) + {d};
      }
      assert temp - rest == temp;
    }

    /** Handle_SpVar_ACOS: erases the 64-bit variables while walking over the list. */
    method HandleSpVarACOS()
      modifies this`vars, this`spvars
      ensures vars == SmallVars(old(vars)) && spvars == old(spvars) + SplitVars(old(vars))
    {
      hide TimePart, DatePart;
      ghost var done := 0;
      var i := 0;
      while i < |vars|
        invariant 0 <= done <= |old(vars)| && 0 <= i <= |vars|
        invariant vars[i..] == old(vars)[done..]
        invariant vars[..i] == SmallVars(old(vars)[..done])
        invariant spvars == old(spvars) + SplitVars(old(vars)[..done])
        decreases |vars| - i
      {
        ghost var v := old(vars)[done];
        assert vars[i] == vars[i..][0] == v;
        assert old(vars)[..done + 1][..done] == old(vars)[..done];
        assert old(vars)[done + 1..] == vars[i..][1..];
        if vars[i].dtype == H5INT64 {
          spvars := spvars + [TimePart(vars[i])];
          spvars := spvars + [DatePart(vars[i])];
          vars := vars[..i] + vars[i + 1..];
        } else {
          i := i + 1;
        }
        done := done + 1;
      }
      assert old(vars)[..done] == old(vars);
    }
  }
}
