/** EOS5File: which one-dimensional fields may serve as coordinate variables. */
module Eos5CoordVars {
  import opened Eos5Naming
  import opened Eos5Progress
  import opened Outcome

  /** The i-th field is one-dimensional and uses the dimension. */
  ghost predicate Uses(vars: seq<HE5Var>, i: int, dim: string) {
    0 <= i < |vars| && |vars[i].dimList| == 1 && vars[i].dimList[0].name == dim
  }

  /** It is the only one-dimensional field that does. */
  ghost predicate UsesAlone(vars: seq<HE5Var>, i: int, dim: string) {
    Uses(vars, i, dim) && forall j :: Uses(vars, j, dim) ==> j == i
  }

  ghost predicate IsGridAxis(t: Eos5Type, dim: string) {
    t == GRID && (dim == "XDim" || dim == "YDim")
  }

  /** Two or more of the first n one-dimensional fields use the dimension. */
  ghost predicate Shared(vars: seq<HE5Var>, n: nat, dim: string) {
    exists i, j :: 0 <= i < j < n && Uses(vars, i, dim) && Uses(vars, j, dim)
  }

  ghost predicate UsedBefore(vars: seq<HE5Var>, n: nat, dim: string) {
    exists i :: 0 <= i < n && Uses(vars, i, dim)
  }

  /**
  EOS5Handle_nonlatlon_dimcvars: a dimension is mapped to a field exactly when the
  field is the only one-dimensional one to use it and it is not an axis of a grid.
  */
  method HandleNonLatLonDimCVars(vars: seq<HE5Var>, t: Eos5Type, group: string) returns (r: Result<map<string, string>>)
    ensures r.Thrown? <==> t == OTHERVARS
    ensures r.Ok? ==> forall dim ::
      FullName(t, group, dim) in r.value <==>
      (exists i :: UsesAlone(vars, i, dim)) && !(t == GRID && (dim == "XDim" || dim == "YDim"))
    ensures r.Ok? ==> forall dim, i :: UsesAlone(vars, i, dim) && FullName(t, group, dim) in r.value ==>
      r.value[FullName(t, group, dim)] == FullName(t, group, vars[i].name)
    ensures r.Ok? ==> forall key :: key in r.value ==> exists dim :: key == FullName(t, group, dim)
  {
    hide FullName;
    if t == OTHERVARS {
      return Thrown("Unsupported HDF-EOS5 type, this type is not swath, grid or zonal average");
    }
    var fieldOf, noCv := Scan(vars, t, group);
    var cvs := Erase(fieldOf, noCv);
    forall dim
      ensures FullName(t, group, dim) in cvs <==> (exists i :: UsesAlone(vars, i, dim)) && !IsGridAxis(t, dim)
    {
      AloneIsUnshared(vars, dim);
    }
    forall dim, i | UsesAlone(vars, i, dim) && FullName(t, group, dim) in cvs
      ensures cvs[FullName(t, group, dim)] == FullName(t, group, vars[i].name)
    {
      assert UsedBefore(vars, |vars|, dim);
    }
    return Ok(cvs);
  }

  /** The field that a dimension may be mapped to: the only one with this single dimension. */
  lemma UsesAloneIs(vars: seq<HE5Var>, i: nat, dim: string)
    requires i < |vars|
    ensures UsesAlone(vars, i, dim) <==>
            && |vars[i].dimList| == 1 && vars[i].dimList[0].name == dim
            && forall j :: 0 <= j < |vars| && j != i && |vars[j].dimList| == 1 ==> vars[j].dimList[0].name != dim
  {
    if UsesAlone(vars, i, dim) {
      forall j | 0 <= j < |vars| && j != i && |vars[j].dimList| == 1 ensures vars[j].dimList[0].name != dim {
        assert !Uses(vars, j, dim);
      }
    }
  }

  lemma AloneIsUnshared(vars: seq<HE5Var>, dim: string)
    ensures (exists i :: UsesAlone(vars, i, dim)) <==> UsedBefore(vars, |vars|, dim) && !Shared(vars, |vars|, dim)
  {
    if UsedBefore(vars, |vars|, dim) && !Shared(vars, |vars|, dim) {
      var i :| 0 <= i < |vars| && Uses(vars, i, dim);
      forall j | Uses(vars, j, dim) ensures j == i {
      }
      assert UsesAlone(vars, i, dim);
    }
  }

  /** What the first n fields leave behind: the first field of each dimension, and the disqualified ones. */
  ghost predicate Scanned(vars: seq<HE5Var>, n: nat, t: Eos5Type, group: string,
      fieldOf: map<string, string>, noCv: set<string>)
  {
    && (forall dim :: FullName(t, group, dim) in fieldOf <==> UsedBefore(vars, n, dim))
    && (forall dim, j :: 0 <= j < n && UsesAlone(vars, j, dim) ==>
         FullName(t, group, dim) in fieldOf && fieldOf[FullName(t, group, dim)] == FullName(t, group, vars[j].name))
    && (forall dim :: FullName(t, group, dim) in noCv <==> IsGridAxis(t, dim) || Shared(vars, n, dim))
    && (forall key :: key in fieldOf ==> exists dim :: key == FullName(t, group, dim))
  }

  /** The first loop. */
  method Scan(vars: seq<HE5Var>, t: Eos5Type, group: string) returns (fieldOf: map<string, string>, noCv: set<string>)
    ensures Scanned(vars, |vars|, t, group, fieldOf, noCv)
  {
    hide FullName, Scanned;
    fieldOf, noCv := map[], {};
    if t == GRID {
      noCv := {FullName(GRID, group, "XDim"), FullName(GRID, group, "YDim")};
    }
    NothingScanned(vars, t, group, noCv);
    for i := 0 to |vars|
      invariant Scanned(vars, i, t, group, fieldOf, noCv)
    {
      if |vars[i].dimList| == 1 {
        var dim := vars[i].dimList[0].name;
        var dimname := FullName(t, group, dim);
        if dimname in fieldOf {
          DisqualifyStep(vars, i, t, group, fieldOf, noCv, dim);
          noCv := noCv + {dimname};
        } else {
          InsertStep(vars, i, t, group, fieldOf, noCv, dim);
          fieldOf := fieldOf[dimname := FullName(t, group, vars[i].name)];
        }
      } else {
        SkipStep(vars, i, t, group, fieldOf, noCv);
      }
    }
  }

  lemma NothingScanned(vars: seq<HE5Var>, t: Eos5Type, group: string, noCv: set<string>)
    requires noCv == if t == GRID then {FullName(GRID, group, "XDim"), FullName(GRID, group, "YDim")} else {}
    ensures Scanned(vars, 0, t, group, map[], noCv)
  {
    hide FullName;
    Injective(t, group);
    NoneYet(vars);
  }

  lemma DisqualifyStep(vars: seq<HE5Var>, i: nat, t: Eos5Type, group: string,
      fieldOf: map<string, string>, noCv: set<string>, dim: string)
    requires i < |vars| && Uses(vars, i, dim) && Scanned(vars, i, t, group, fieldOf, noCv)
    requires FullName(t, group, dim) in fieldOf
    ensures Scanned(vars, i + 1, t, group, fieldOf, noCv + {FullName(t, group, dim)})
  {
    hide FullName, Shared, UsedBefore;
    Injective(t, group);
    OneMore(vars, i);
    forall d | UsesAlone(vars, i, d) ensures !UsedBefore(vars, i, d) {
      AloneIsFirst(vars, i, d);
    }
  }

  lemma InsertStep(vars: seq<HE5Var>, i: nat, t: Eos5Type, group: string,
      fieldOf: map<string, string>, noCv: set<string>, dim: string)
    requires i < |vars| && Uses(vars, i, dim) && Scanned(vars, i, t, group, fieldOf, noCv)
    requires FullName(t, group, dim) !in fieldOf
    ensures Scanned(vars, i + 1, t, group, fieldOf[FullName(t, group, dim) := FullName(t, group, vars[i].name)], noCv)
  {
    hide FullName, Shared, UsedBefore;
    Injective(t, group);
    OneMore(vars, i);
  }

  lemma SkipStep(vars: seq<HE5Var>, i: nat, t: Eos5Type, group: string,
      fieldOf: map<string, string>, noCv: set<string>)
    requires i < |vars| && |vars[i].dimList| != 1 && Scanned(vars, i, t, group, fieldOf, noCv)
    ensures Scanned(vars, i + 1, t, group, fieldOf, noCv)
  {
    hide FullName, Shared, UsedBefore;
    OneMore(vars, i);
  }

  lemma NoneYet(vars: seq<HE5Var>)
    ensures forall dim :: !UsedBefore(vars, 0, dim) && !Shared(vars, 0, dim)
  {}

  lemma AloneIsFirst(vars: seq<HE5Var>, i: nat, dim: string)
    requires UsesAlone(vars, i, dim)
    ensures !UsedBefore(vars, i, dim) && UsedBefore(vars, i + 1, dim)
  {}

  lemma OneMore(vars: seq<HE5Var>, i: nat)
    requires i < |vars|
    ensures forall dim :: UsedBefore(vars, i + 1, dim) <==> UsedBefore(vars, i, dim) || Uses(vars, i, dim)
    ensures forall dim :: Shared(vars, i + 1, dim) <==>
              Shared(vars, i, dim) || (UsedBefore(vars, i, dim) && Uses(vars, i, dim))
  {}

  lemma Injective(t: Eos5Type, group: string)
    ensures forall a, b :: FullName(t, group, a) == FullName(t, group, b) ==> a == b
  {
    forall a, b | FullName(t, group, a) == FullName(t, group, b) ensures a == b {
      FullNameInjective(t, group, a, b);
    }
  }

  /** The second loop: erase what is disqualified. */
  method Erase(fieldOf: map<string, string>, noCv: set<string>) returns (cvs: map<string, string>)
    ensures cvs == fieldOf - noCv
  {
    cvs := fieldOf;
    var rest := noCv;
    while rest != {}
      invariant rest <= noCv && cvs == fieldOf - (noCv - rest)
    {
      var dim :| dim in rest;
      cvs := cvs - {dim};
      rest := rest - {dim};
    }
  }
}
