/** GMFile: the names of all objects of a file, made CF names and made distinct. */
module ObjectNames {
  import opened Lists
  import opened NameClash
  import opened UniqueNames

  ghost predicate Separate(a: seq<CFObject>, b: seq<CFObject>) {
    forall i, j :: 0 <= i < |a| && 0 <= j < |b| ==> a[i] != b[j]
  }

  /** The four vectors of a file hold distinct objects. */
  ghost predicate SeparateLists(a: seq<CFObject>, b: seq<CFObject>, c: seq<CFObject>, d: seq<CFObject>) {
    && Distinct(a) && Distinct(b) && Distinct(c) && Distinct(d)
    && Separate(a, b) && Separate(a, c) && Separate(a, d) && Separate(b, c) && Separate(b, d) && Separate(c, d)
    && Separate(b, a) && Separate(c, a) && Separate(d, a) && Separate(c, b) && Separate(d, b) && Separate(d, c)
  }

  class GMObjects {
    var cvars: seq<CFObject>
    var spvars: seq<CFObject>
    var vars: seq<CFObject>
    var groups: seq<CFObject>
    var fileAttrTable: string

    ghost predicate Valid()
      reads this
    {
      SeparateLists(cvars, spvars, vars, groups)
    }

    /** The names that must not clash, in the order of the passes. */
    ghost function AllNames(includeAttr: bool): seq<string>
      reads this, cvars, spvars, vars, groups
    {
      NamesOf(cvars) + NamesOf(spvars) + NamesOf(vars) +
      if includeAttr then [fileAttrTable] + NamesOf(groups) else []
    }

    constructor (cvars: seq<CFObject>, spvars: seq<CFObject>, vars: seq<CFObject>, groups: seq<CFObject>)
      requires SeparateLists(cvars, spvars, vars, groups)
      ensures Valid() && fileAttrTable == "HDF5_GLOBAL"
      ensures this.cvars == cvars && this.spvars == spvars && this.vars == vars && this.groups == groups
    {
      this.cvars, this.spvars, this.vars, this.groups := cvars, spvars, vars, groups;
      fileAttrTable := "HDF5_GLOBAL";
    }

    /** Handle_RootGroup_NameClashing: the file attribute table, then the groups. */
    method HandleRootGroupNameClashing(names: set<string>) returns (names': set<string>)
      requires Valid()
      modifies this`fileAttrTable, groups
      ensures fileAttrTable ==
        if old(fileAttrTable) in names then UniqueName(old(fileAttrTable), names) else old(fileAttrTable)
      ensures NamesOf(groups) == FinalNames(names + {fileAttrTable}, old(NamesOf(groups)))
      ensures names' == names + {fileAttrTable} + Elements(NamesOf(groups))
      ensures fileAttrTable !in names && Elements(NamesOf(groups)) !! names + {fileAttrTable}
      ensures Distinct(NamesOf(groups)) && |names'| == |names| + 1 + |groups|
      ensures NamesOf(cvars) == old(NamesOf(cvars)) && NamesOf(spvars) == old(NamesOf(spvars))
      ensures NamesOf(vars) == old(NamesOf(vars))
    {
      hide Distinct, FinalNames, Elements, Separate, NamesOf;
      var tableNames;
      if fileAttrTable in names {
        var unique, more, k := GenUniqueName(fileAttrTable, names, 1);
        fileAttrTable, tableNames := unique, more;
      } else {
        tableNames := names + {fileAttrTable};
      }
      assert NamesOf(groups) == old(NamesOf(groups));
      assert NamesOf(cvars) == old(NamesOf(cvars)) && NamesOf(spvars) == old(NamesOf(spvars));
      assert NamesOf(vars) == old(NamesOf(vars));
      names' := PassOver(tableNames, groups, cvars, spvars, vars);
    }

    /**
    Handle_Obj_NameClashing. Afterwards all names are distinct, the shared set is
    exactly these names, and each pass has renamed as FinalNames says.
    */
    method HandleObjNameClashing(includeAttr: bool) returns (names: set<string>)
      requires Valid()
      modifies this`fileAttrTable, cvars, spvars, vars, groups
      ensures Valid() && Distinct(AllNames(includeAttr))
      ensures names == Elements(AllNames(includeAttr)) && |names| == |AllNames(includeAttr)|
      ensures NamesOf(cvars) == FinalNames({}, old(NamesOf(cvars)))
      ensures NamesOf(spvars) == FinalNames(Elements(NamesOf(cvars)), old(NamesOf(spvars)))
      ensures NamesOf(vars) == FinalNames(Elements(NamesOf(cvars) + NamesOf(spvars)), old(NamesOf(vars)))
      ensures var taken := Elements(NamesOf(cvars) + NamesOf(spvars) + NamesOf(vars));
              if includeAttr then
                && fileAttrTable ==
                   (if old(fileAttrTable) in taken then UniqueName(old(fileAttrTable), taken) else old(fileAttrTable))
                && NamesOf(groups) == FinalNames(taken + {fileAttrTable}, old(NamesOf(groups)))
              else fileAttrTable == old(fileAttrTable) && NamesOf(groups) == old(NamesOf(groups))
    {
      hide FinalNames, Elements, UniqueName, Distinct, NamesOf, Separate;
      NoElements();
      names := PassOver({}, cvars, spvars, vars, groups);
      names := PassOver(names, spvars, cvars, vars, groups);
      Joined(NamesOf(cvars), NamesOf(spvars));
      names := PassOver(names, vars, cvars, spvars, groups);
      Joined(NamesOf(cvars) + NamesOf(spvars), NamesOf(vars));
      if includeAttr {
        names := HandleRootGroupNameClashing(names);
        OneElement(fileAttrTable);
        Joined([fileAttrTable], NamesOf(groups));
        Joined(NamesOf(cvars) + NamesOf(spvars) + NamesOf(vars), [fileAttrTable] + NamesOf(groups));
      } else {
        assert AllNames(false) == NamesOf(cvars) + NamesOf(spvars) + NamesOf(vars);
      }
    }

    /** Flatten_Obj_Name, then Handle_Obj_NameClashing: distinct names, all of them CF names. */
    method MakeObjectNames(digitIsTrue: bool, includeAttr: bool)
      requires Valid() && CFName(fileAttrTable)
      modifies this`fileAttrTable, cvars, spvars, vars, groups
      ensures Valid() && Distinct(AllNames(includeAttr))
      ensures forall s :: s in AllNames(includeAttr) ==> CFName(s)
      ensures NamesOf(cvars) == FinalNames({}, CFStrings(old(NamesOf(cvars)), digitIsTrue))
      ensures NamesOf(spvars) ==
        FinalNames(Elements(NamesOf(cvars)), CFStrings(old(NamesOf(spvars)), digitIsTrue))
      ensures NamesOf(vars) ==
        FinalNames(Elements(NamesOf(cvars) + NamesOf(spvars)), CFStrings(old(NamesOf(vars)), digitIsTrue))
      ensures var taken := Elements(NamesOf(cvars) + NamesOf(spvars) + NamesOf(vars));
              if includeAttr then
                && fileAttrTable ==
                   (if old(fileAttrTable) in taken then UniqueName(old(fileAttrTable), taken) else old(fileAttrTable))
                && NamesOf(groups) ==
                   FinalNames(taken + {fileAttrTable}, CFStrings(old(NamesOf(groups)), digitIsTrue))
              else fileAttrTable == old(fileAttrTable) && NamesOf(groups) == old(NamesOf(groups))
      ensures old(Distinct(AllNames(includeAttr)) && forall s :: s in AllNames(includeAttr) ==> CleanName(s)) ==>
        AllNames(includeAttr) == old(AllNames(includeAttr))
    {
      hide FinalNames, Elements, Distinct, CFName, NamesOf, Separate, CFStrings, UniqueName, CleanName,
        CFString;
      ghost var a0, b0, c0, d0 := NamesOf(cvars), NamesOf(spvars), NamesOf(vars), NamesOf(groups);
      ghost var clean := Distinct(AllNames(includeAttr)) && forall s :: s in AllNames(includeAttr) ==> CleanName(s);
      if clean {
        CleanNamesStay(a0, b0, c0, fileAttrTable, d0, includeAttr, digitIsTrue);
      }
      Flatten(cvars, spvars, vars, groups, digitIsTrue);
      Flatten(spvars, cvars, vars, groups, digitIsTrue);
      Flatten(vars, cvars, spvars, groups, digitIsTrue);
      if includeAttr {
        Flatten(groups, cvars, spvars, vars, digitIsTrue);
      }
      ghost var table := fileAttrTable;
      ghost var a, b, c, d := NamesOf(cvars), NamesOf(spvars), NamesOf(vars), NamesOf(groups);
      var names := HandleObjNameClashing(includeAttr);
      AllFinalNamesCF({}, a);
      AllFinalNamesCF(Elements(NamesOf(cvars)), b);
      AllFinalNamesCF(Elements(NamesOf(cvars) + NamesOf(spvars)), c);
      if includeAttr {
        ghost var taken := Elements(NamesOf(cvars) + NamesOf(spvars) + NamesOf(vars));
        UniqueNameCF(table, taken);
        AllFinalNamesCF(taken + {fileAttrTable}, d);
      }
    }
  }

  /** Letters, digits and underscores, not beginning with a digit. */
  ghost predicate CleanName(s: string) {
    && (forall i :: 0 <= i < |s| ==>
          'a' <= s[i] <= 'z' || 'A' <= s[i] <= 'Z' || '0' <= s[i] <= '9' || s[i] == '_')
    && (s != "" ==> !('0' <= s[0] <= '9'))
  }

  /** Plain names that are different already come through unchanged. */
  lemma CleanNamesStay(a: seq<string>, b: seq<string>, c: seq<string>, table: string, d: seq<string>,
      includeAttr: bool, digitIsTrue: bool)
    requires var all := a + b + c + if includeAttr then [table] + d else [];
             Distinct(all) && forall s :: s in all ==> CleanName(s)
    ensures FinalNames({}, CFStrings(a, digitIsTrue)) == a
    ensures FinalNames(Elements(a), CFStrings(b, digitIsTrue)) == b
    ensures FinalNames(Elements(a + b), CFStrings(c, digitIsTrue)) == c
    ensures includeAttr ==>
      table !in Elements(a + b + c) && FinalNames(Elements(a + b + c) + {table}, CFStrings(d, digitIsTrue)) == d
  {
    hide FinalNames, CFStrings, CleanName;
    var rest := if includeAttr then [table] + d else [];
    PartsOfDistinct(a + b + c, rest);
    PartsOfDistinct(a + b, c);
    PartsOfDistinct(a, b);
    CleanAreKept(a, digitIsTrue);
    CleanAreKept(b, digitIsTrue);
    CleanAreKept(c, digitIsTrue);
    FinalNamesStay({}, a);
    FinalNamesStay(Elements(a), b);
    FinalNamesStay(Elements(a + b), c);
    if includeAttr {
      PartsOfDistinct([table], d);
      assert rest[0] == table;
      CleanAreKept(d, digitIsTrue);
      FinalNamesStay(Elements(a + b + c) + {table}, d);
    }
  }

  lemma PartsOfDistinct(a: seq<string>, b: seq<string>)
    requires Distinct(a + b)
    ensures Distinct(a) && Distinct(b) && Elements(a) !! Elements(b)
    ensures forall x :: x in a + b <==> x in a || x in b
  {
    forall i, j | 0 <= i < |a| && 0 <= j < |b| ensures a[i] != b[j] {
      assert (a + b)[i] == a[i] && (a + b)[|a| + j] == b[j];
    }
    forall i, j | 0 <= i < j < |a| ensures a[i] != a[j] {
      assert (a + b)[i] == a[i] && (a + b)[j] == a[j];
    }
    forall i, j | 0 <= i < j < |b| ensures b[i] != b[j] {
      assert (a + b)[|a| + i] == b[i] && (a + b)[|a| + j] == b[j];
    }
  }

  lemma CleanAreKept(names: seq<string>, digitIsTrue: bool)
    requires forall s :: s in names ==> CleanName(s)
    ensures CFStrings(names, digitIsTrue) == names
  {
    forall i | 0 <= i < |names| ensures CFString(names[i], digitIsTrue) == names[i] {
      assert CleanName(names[i]);
      PlainNameStays(names[i], digitIsTrue);
    }
  }

  lemma UniqueNameCF(str: string, names: set<string>)
    requires CFName(str)
    ensures CFName(UniqueName(str, names))
  {
    NumberedCF(str, FreeIndex(str, names, 1));
  }

  lemma AllFinalNamesCF(names: set<string>, olds: seq<string>)
    requires forall s :: s in olds ==> CFName(s)
    ensures forall s :: s in FinalNames(names, olds) ==> CFName(s)
  {
    FinalNamesCF(names, olds);
  }

  /** One clash pass; the names in the other three lists stay. */
  method PassOver(names: set<string>, objs: seq<CFObject>,
      ghost a: seq<CFObject>, ghost b: seq<CFObject>, ghost c: seq<CFObject>)
    returns (names': set<string>)
    requires Distinct(objs) && Separate(objs, a) && Separate(objs, b) && Separate(objs, c)
    modifies objs
    ensures NamesOf(objs) == FinalNames(names, old(NamesOf(objs)))
    ensures names' == names + Elements(NamesOf(objs)) && Elements(NamesOf(objs)) !! names
    ensures Distinct(NamesOf(objs)) && |names'| == |names| + |objs|
    ensures NamesOf(a) == old(NamesOf(a)) && NamesOf(b) == old(NamesOf(b)) && NamesOf(c) == old(NamesOf(c))
  {
    hide Distinct, FinalNames, Elements;
    names' := HandleGeneralNameClashing(names, objs);
    forall i | 0 <= i < |a| ensures a[i].newname == old(a[i].newname) { assert a[i] !in objs; }
    forall i | 0 <= i < |b| ensures b[i].newname == old(b[i].newname) { assert b[i] !in objs; }
    forall i | 0 <= i < |c| ensures c[i].newname == old(c[i].newname) { assert c[i] !in objs; }
  }

  /** Flatten_Obj_Name on one list of objects. */
  method Flatten(objs: seq<CFObject>, ghost a: seq<CFObject>, ghost b: seq<CFObject>, ghost c: seq<CFObject>,
      digitIsTrue: bool)
    requires Distinct(objs) && Separate(objs, a) && Separate(objs, b) && Separate(objs, c)
    modifies objs
    ensures NamesOf(objs) == CFStrings(old(NamesOf(objs)), digitIsTrue)
    ensures forall i :: 0 <= i < |objs| ==> objs[i].newname == CFString(old(objs[i].newname), digitIsTrue)
    ensures forall s :: s in NamesOf(objs) ==> CFName(s)
    ensures NamesOf(a) == old(NamesOf(a)) && NamesOf(b) == old(NamesOf(b)) && NamesOf(c) == old(NamesOf(c))
  {
    hide CFName, CFString;
    for i := 0 to |objs|
      invariant forall j :: 0 <= j < i ==> objs[j].newname == CFString(old(objs[j].newname), digitIsTrue)
      invariant forall j :: i <= j < |objs| ==> objs[j].newname == old(objs[j].newname)
      invariant forall j :: 0 <= j < i ==> CFName(objs[j].newname)
      invariant forall o: CFObject :: old(allocated(o)) && o !in objs ==> o.newname == old(o.newname)
    {
      var r := GetCFString(objs[i].newname, digitIsTrue);
      objs[i].newname := r;
    }
    forall i | 0 <= i < |a| ensures a[i].newname == old(a[i].newname) { assert a[i] !in objs; }
    forall i | 0 <= i < |b| ensures b[i].newname == old(b[i].newname) { assert b[i] !in objs; }
    forall i | 0 <= i < |c| ensures c[i].newname == old(c[i].newname) { assert c[i] !in objs; }
  }

  lemma OneElement(x: string)
    ensures Elements([x]) == {x} && Distinct([x])
  {}

  lemma NoElements()
    ensures Elements<string>([]) == {} && Distinct<string>([])
  {}

  lemma Joined(a: seq<string>, b: seq<string>)
    requires Distinct(a) && Distinct(b) && Elements(a) !! Elements(b)
    ensures Distinct(a + b) && Elements(a + b) == Elements(a) + Elements(b)
    ensures |Elements(a + b)| == |a + b|
  {
    forall i, j | 0 <= i < |a| && 0 <= j < |b| ensures a[i] != b[j] {
      assert a[i] in Elements(a) && b[j] in Elements(b);
    }
    ElementsCount(a + b);
  }
}
