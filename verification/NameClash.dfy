/**
CF names for objects: replacing the characters CF does not allow, then giving each
object of the file a name of its own.
*/
module NameClash {
  import opened Lists
  import opened UniqueNames
  import opened Numerals

  /** What the templates require of a variable, group or attribute. */
  class CFObject {
    var newname: string

    constructor (name: string)
      ensures newname == name
    {
      newname := name;
    }
  }

  ghost function NamesOf(objs: seq<CFObject>): (names: seq<string>)
    reads objs
    ensures |names| == |objs|
  {
    seq(|objs|, i requires 0 <= i < |objs| reads objs => objs[i].newname)
  }

  // ----- CF characters

  predicate IsAlnum(c: char) {
    'a' <= c <= 'z' || 'A' <= c <= 'Z' || '0' <= c <= '9'
  }

  ghost predicate CFName(s: string) {
    forall i :: 0 <= i < |s| ==> IsAlnum(s[i]) || s[i] == '_'
  }

  /** What becomes of a name: disallowed characters turn into underscores, one may be put in front. */
  function CFString(s: string, digitIsTrue: bool): string {
    (if s != "" && digitIsTrue && '0' <= s[0] <= '9' then "_" else "") +
    seq(|s|, i requires 0 <= i < |s| => if IsAlnum(s[i]) || s[i] == '_' then s[i] else '_')
  }

  function CFStrings(names: seq<string>, digitIsTrue: bool): (r: seq<string>)
    ensures |r| == |names|
  {
    seq(|names|, i requires 0 <= i < |names| => CFString(names[i], digitIsTrue))
  }

  /**
  get_CF_string. The source compares isdigit() with true, so whether a leading digit
  gets an underscore depends on the C library; `digitIsTrue` says which.
  */
  method GetCFString(s: string, digitIsTrue: bool) returns (r: string)
    ensures CFName(r)
    ensures r == CFString(s, digitIsTrue)
    ensures var front := if s != "" && digitIsTrue && '0' <= s[0] <= '9' then 1 else 0;
            && |r| == front + |s|
            && (front == 1 ==> r[0] == '_')
            && forall i :: 0 <= i < |s| ==>
                 r[front + i] ==
                 if 'a' <= s[i] <= 'z' || 'A' <= s[i] <= 'Z' || '0' <= s[i] <= '9' || s[i] == '_' then s[i] else '_'
  {
    if s == "" {
      return s;
    }
    r := s;
    if digitIsTrue && '0' <= r[0] <= '9' {
      r := "_" + r;
    }
    ghost var t := r;
    for i := 0 to |r|
      invariant |r| == |t|
      invariant forall j :: 0 <= j < i ==> r[j] == (if IsAlnum(t[j]) || t[j] == '_' then t[j] else '_')
      invariant forall j :: i <= j < |t| ==> r[j] == t[j]
    {
      if !IsAlnum(r[i]) && r[i] != '_' {
        r := r[i := '_'];
      }
    }
  }

  /** A name that CF allows, not beginning with a digit, stays as it is. */
  lemma PlainNameStays(s: string, digitIsTrue: bool)
    requires CFName(s) && (s != "" ==> !('0' <= s[0] <= '9'))
    ensures CFString(s, digitIsTrue) == s
  {
    assert |CFString(s, digitIsTrue)| == |s|;
  }

  // ----- the renaming, stated index by index

  /** The i-th name is in the shared set, or belongs to an earlier object already. */
  ghost predicate Clashes(names: set<string>, olds: seq<string>, i: nat)
    requires i < |olds|
  {
    olds[i] in names || olds[i] in olds[..i]
  }

  /** The shared set when the i-th object's turn to be renamed comes. */
  ghost function TakenBefore(names: set<string>, olds: seq<string>, i: nat): set<string>
    requires i <= |olds|
  {
    if i == 0 then names + Elements(olds)
    else
      var taken := TakenBefore(names, olds, i - 1);
      if Clashes(names, olds, i - 1) then taken + {UniqueName(olds[i - 1] + "_", taken)} else taken
  }

  ghost function FinalName(names: set<string>, olds: seq<string>, i: nat): string
    requires i < |olds|
  {
    if Clashes(names, olds, i) then UniqueName(olds[i] + "_", TakenBefore(names, olds, i)) else olds[i]
  }

  ghost function FinalNames(names: set<string>, olds: seq<string>): (finals: seq<string>)
    ensures |finals| == |olds|
  {
    seq(|olds|, i requires 0 <= i < |olds| => FinalName(names, olds, i))
  }

  lemma {:induction false} TakenGrows(names: set<string>, olds: seq<string>, i: nat, j: nat)
    requires i <= j <= |olds|
    ensures TakenBefore(names, olds, i) <= TakenBefore(names, olds, j)
    ensures (forall k :: i <= k < j ==> !Clashes(names, olds, k)) ==>
            TakenBefore(names, olds, i) == TakenBefore(names, olds, j)
    decreases j
  {
    if i < j {
      TakenGrows(names, olds, i, j - 1);
    }
  }

  lemma {:induction false} FinalIsTaken(names: set<string>, olds: seq<string>, i: nat, j: nat)
    requires i < j <= |olds|
    ensures FinalName(names, olds, i) in TakenBefore(names, olds, j)
    ensures names + Elements(olds) <= TakenBefore(names, olds, j)
  {
    TakenGrows(names, olds, 0, j);
    TakenGrows(names, olds, i + 1, j);
  }

  lemma FinalNamesDistinct(names: set<string>, olds: seq<string>)
    ensures Distinct(FinalNames(names, olds))
    ensures forall i :: 0 <= i < |olds| ==> FinalName(names, olds, i) !in names
  {
    forall i: nat, j: nat | i < j < |olds| ensures FinalName(names, olds, i) != FinalName(names, olds, j) {
      FinalIsTaken(names, olds, i, j);
      TakenGrows(names, olds, 0, i);
      assert olds[j] in Elements(olds);
      if !Clashes(names, olds, i) && !Clashes(names, olds, j) {
        assert olds[i] in olds[..j];
      }
    }
    forall i: nat | i < |olds| ensures FinalName(names, olds, i) !in names {
      TakenGrows(names, olds, 0, i);
    }
  }

  /** The first object to bear a name keeps it, unless the shared set has it. */
  lemma {:induction false} OldNameSurvives(names: set<string>, olds: seq<string>, i: nat)
    requires i < |olds|
    ensures olds[i] in names + Elements(FinalNames(names, olds))
    decreases i
  {
    if !Clashes(names, olds, i) {
      assert FinalNames(names, olds)[i] == olds[i];
    } else if olds[i] !in names {
      var k :| 0 <= k < i && olds[k] == olds[i];
      OldNameSurvives(names, olds, k);
    }
  }

  lemma {:induction false} TakenIsFinal(names: set<string>, olds: seq<string>, i: nat)
    requires i <= |olds|
    ensures TakenBefore(names, olds, i) <= names + Elements(FinalNames(names, olds))
  {
    if i == 0 {
      forall s | s in Elements(olds) ensures s in names + Elements(FinalNames(names, olds)) {
        var k :| 0 <= k < |olds| && olds[k] == s;
        OldNameSurvives(names, olds, k);
      }
    } else {
      TakenIsFinal(names, olds, i - 1);
      assert FinalNames(names, olds)[i - 1] == FinalName(names, olds, i - 1);
    }
  }

  /** What one pass does to the shared set: it gains exactly one name per object. */
  lemma PassIsExact(names: set<string>, olds: seq<string>)
    ensures var finals := FinalNames(names, olds);
            && Distinct(finals)
            && Elements(finals) !! names
            && TakenBefore(names, olds, |olds|) == names + Elements(finals)
            && |TakenBefore(names, olds, |olds|)| == |names| + |olds|
  {
    var finals := FinalNames(names, olds);
    FinalNamesDistinct(names, olds);
    TakenIsFinal(names, olds, |olds|);
    TakenGrows(names, olds, 0, |olds|);
    forall i: nat | i < |olds| ensures finals[i] in TakenBefore(names, olds, |olds|) {
      FinalIsTaken(names, olds, i, |olds|);
    }
    ElementsCount(finals);
  }

  /**
  A name that was there before gets an underscore and the first number that is free: not
  in the set, no name of the list, and not given to an earlier object. Any other name stays.
  */
  lemma FinalNameIs(names: set<string>, olds: seq<string>, i: nat) returns (k: nat)
    requires i < |olds|
    ensures olds[i] in names || olds[i] in olds[..i] ==>
      && k >= 1 && FinalName(names, olds, i) == olds[i] + "_" + Decimal(k)
      && olds[i] + "_" + Decimal(k) !in names && olds[i] + "_" + Decimal(k) !in olds
      && forall j: nat | 1 <= j < k ::
           var taken := olds[i] + "_" + Decimal(j);
           taken in names || taken in olds || taken in FinalNames(names, olds)[..i]
    ensures !(olds[i] in names || olds[i] in olds[..i]) ==> FinalName(names, olds, i) == olds[i]
  {
    k := 0;
    if Clashes(names, olds, i) {
      var before := TakenBefore(names, olds, i);
      k := UniqueNameIs(olds[i] + "_", before);
      TakenGrows(names, olds, 0, i);
      forall taken | taken in before
        ensures taken in names || taken in olds || taken in FinalNames(names, olds)[..i]
      {
        TakenSource(names, olds, i, taken);
      }
    }
  }

  lemma {:induction false} TakenSource(names: set<string>, olds: seq<string>, i: nat, taken: string)
    requires i <= |olds| && taken in TakenBefore(names, olds, i)
    ensures taken in names || taken in olds || taken in FinalNames(names, olds)[..i]
  {
    if i > 0 {
      if taken in TakenBefore(names, olds, i - 1) {
        TakenSource(names, olds, i - 1, taken);
      } else {
        assert FinalNames(names, olds)[..i][i - 1] == FinalName(names, olds, i - 1);
      }
    }
  }

  /** Nothing changes when no name clashes. */
  lemma FinalNamesStay(names: set<string>, olds: seq<string>)
    requires Distinct(olds) && Elements(olds) !! names
    ensures FinalNames(names, olds) == olds
  {
    forall i: nat | i < |olds| ensures !Clashes(names, olds, i) {
      assert olds[i] in Elements(olds);
    }
  }

  /** CF names stay CF names. */
  lemma FinalNamesCF(names: set<string>, olds: seq<string>)
    requires forall i :: 0 <= i < |olds| ==> CFName(olds[i])
    ensures forall i :: 0 <= i < |olds| ==> CFName(FinalName(names, olds, i))
  {
    forall i: nat | i < |olds| ensures CFName(FinalName(names, olds, i)) {
      if Clashes(names, olds, i) {
        NumberedCF(olds[i] + "_", FreeIndex(olds[i] + "_", TakenBefore(names, olds, i), 1));
      }
    }
  }

  lemma NumberedCF(str: string, i: nat)
    requires CFName(str)
    ensures CFName(Numbered(str, i))
  {
    DecimalHasDigitsOnly(i);
  }

  // ----- the three loops of Handle_General_NameClashing

  ghost predicate Increasing(index: seq<nat>, upTo: nat) {
    && (forall c :: 0 <= c < |index| ==> index[c] < upTo)
    && (forall c, d :: 0 <= c < d < |index| ==> index[c] < index[d])
  }

  /** `index` has exactly the objects below `upTo` whose names clash. */
  ghost predicate ListsClashes(names: set<string>, olds: seq<string>, index: seq<nat>, upTo: nat)
    requires upTo <= |olds|
  {
    forall i :: 0 <= i < upTo ==> (Clashes(names, olds, i) <==> i in index)
  }

  lemma NoClashesYet(names: set<string>, olds: seq<string>)
    ensures Found(names, olds, [], [], 0)
    ensures names + Elements(olds[..0]) == names
  {}

  lemma SeenSoFar(names: set<string>, olds: seq<string>, i: nat)
    requires i < |olds|
    ensures Clashes(names, olds, i) <==> olds[i] in names + Elements(olds[..i])
    ensures Elements(olds[..i + 1]) == Elements(olds[..i]) + {olds[i]}
  {}

  lemma ListsClashesStep(names: set<string>, olds: seq<string>, index: seq<nat>, i: nat)
    requires i < |olds| && Increasing(index, i) && ListsClashes(names, olds, index, i)
    ensures ListsClashes(names, olds, if Clashes(names, olds, i) then index + [i] else index, i + 1)
  {}

  /** What the first loop has found among the first `upTo` objects. */
  ghost predicate Found(names: set<string>, olds: seq<string>, clashNames: seq<string>, index: seq<nat>, upTo: nat)
    requires upTo <= |olds|
  {
    && |clashNames| == |index| && Increasing(index, upTo) && ListsClashes(names, olds, index, upTo)
    && forall c :: 0 <= c < |index| ==> clashNames[c] == olds[index[c]]
  }

  lemma FoundStep(names: set<string>, olds: seq<string>, clashNames: seq<string>, index: seq<nat>, i: nat)
    requires i < |olds| && Found(names, olds, clashNames, index, i)
    ensures if Clashes(names, olds, i) then Found(names, olds, clashNames + [olds[i]], index + [i], i + 1)
            else Found(names, olds, clashNames, index, i + 1)
  {
    hide Clashes, ListsClashes;
    ListsClashesStep(names, olds, index, i);
  }

  /** First loop: insert every name; list the clashing ones. */
  method FindClashes(names: set<string>, objs: seq<CFObject>)
    returns (names': set<string>, clashNames: seq<string>, clToOl: seq<nat>)
    ensures names' == names + Elements(NamesOf(objs))
    ensures |clashNames| == |clToOl| && Increasing(clToOl, |objs|) && ListsClashes(names, NamesOf(objs), clToOl, |objs|)
    ensures forall c :: 0 <= c < |clToOl| ==> clashNames[c] == NamesOf(objs)[clToOl[c]]
  {
    hide Found, ListsClashes, Increasing, Clashes, Elements;
    names', clashNames, clToOl := names, [], [];
    ghost var olds := NamesOf(objs);
    NoClashesYet(names, olds);
    for i := 0 to |objs|
      invariant names' == names + Elements(olds[..i])
      invariant Found(names, olds, clashNames, clToOl, i)
    {
      SeenSoFar(names, olds, i);
      FoundStep(names, olds, clashNames, clToOl, i);
      if objs[i].newname in names' {
        clashNames := clashNames + [objs[i].newname];
        clToOl := clToOl + [i];
      } else {
        names' := names' + {objs[i].newname};
      }
    }
    assert olds[..|objs|] == olds;
    FoundAll(names, olds, clashNames, clToOl);
  }

  lemma FoundAll(names: set<string>, olds: seq<string>, clashNames: seq<string>, index: seq<nat>)
    requires Found(names, olds, clashNames, index, |olds|)
    ensures |clashNames| == |index| && Increasing(index, |olds|) && ListsClashes(names, olds, index, |olds|)
    ensures forall c :: 0 <= c < |index| ==> clashNames[c] == olds[index[c]]
  {}

  /** Second loop: a new name for each clashing one. */
  method ResolveClashes(ghost names: set<string>, ghost olds: seq<string>, names0: set<string>,
      clashNames: seq<string>, ghost index: seq<nat>)
    returns (names': set<string>, resolved: seq<string>)
    requires |clashNames| == |index| && Increasing(index, |olds|) && ListsClashes(names, olds, index, |olds|)
    requires forall c :: 0 <= c < |index| ==> clashNames[c] == olds[index[c]]
    requires names0 == names + Elements(olds)
    ensures names' == TakenBefore(names, olds, |olds|)
    ensures |resolved| == |index|
    ensures forall c :: 0 <= c < |index| ==> resolved[c] == FinalName(names, olds, index[c])
  {
    hide TakenBefore, FinalName, UniqueName, LeastFree, ListsClashes;
    names', resolved := names0, clashNames;
    AtTheStart(names, olds);
    for c := 0 to |clashNames|
      invariant |resolved| == |index|
      invariant names' == TakenBefore(names, olds, if c == 0 then 0 else index[c - 1] + 1)
      invariant forall d :: 0 <= d < c ==> resolved[d] == FinalName(names, olds, index[d])
      invariant forall d :: c <= d < |index| ==> resolved[d] == clashNames[d]
    {
      NoClashBetween(names, olds, index, c);
      TakenGrows(names, olds, if c == 0 then 0 else index[c - 1] + 1, index[c]);
      var temp := resolved[c] + "_";
      var unique, more, k := GenUniqueName(temp, names', 1);
      OneResolved(names, olds, index, c, names', unique);
      names' := more;
      resolved := resolved[c := unique];
    }
    NoClashBetween(names, olds, index, |index|);
    TakenGrows(names, olds, if |index| == 0 then 0 else index[|index| - 1] + 1, |olds|);
  }

  lemma AtTheStart(names: set<string>, olds: seq<string>)
    ensures TakenBefore(names, olds, 0) == names + Elements(olds)
  {}

  lemma OneResolved(names: set<string>, olds: seq<string>, index: seq<nat>, c: nat, taken: set<string>, unique: string)
    requires Increasing(index, |olds|) && ListsClashes(names, olds, index, |olds|) && c < |index|
    requires taken == TakenBefore(names, olds, index[c])
    requires unique == UniqueName(olds[index[c]] + "_", taken)
    ensures unique == FinalName(names, olds, index[c])
    ensures TakenBefore(names, olds, index[c] + 1) == taken + {unique}
  {}

  lemma NoClashBetween(names: set<string>, olds: seq<string>, index: seq<nat>, c: nat)
    requires Increasing(index, |olds|) && ListsClashes(names, olds, index, |olds|) && c <= |index|
    ensures var lo := if c == 0 then 0 else index[c - 1] + 1;
            var hi := if c == |index| then |olds| else index[c];
            lo <= hi && forall k :: lo <= k < hi ==> !Clashes(names, olds, k)
  {
    var lo := if c == 0 then 0 else index[c - 1] + 1;
    var hi := if c == |index| then |olds| else index[c];
    forall d | 0 <= d < |index| ensures index[d] < lo || hi <= index[d] {
      assert d < c ==> index[d] <= index[c - 1];
    }
  }

  /** Third loop: put the new names into the objects. */
  method WriteBack(objs: seq<CFObject>, clToOl: seq<nat>, resolved: seq<string>)
    requires Distinct(objs) && |resolved| == |clToOl| && Increasing(clToOl, |objs|)
    modifies objs
    ensures forall c :: 0 <= c < |clToOl| ==> objs[clToOl[c]].newname == resolved[c]
    ensures forall i :: 0 <= i < |objs| && i !in clToOl ==> objs[i].newname == old(objs[i].newname)
  {
    for c := 0 to |resolved|
      invariant forall d :: 0 <= d < c ==> objs[clToOl[d]].newname == resolved[d]
      invariant forall i :: 0 <= i < |objs| && i !in clToOl ==> objs[i].newname == old(objs[i].newname)
    {
      objs[clToOl[c]].newname := resolved[c];
    }
  }

  method HandleGeneralNameClashing(names: set<string>, objs: seq<CFObject>) returns (names': set<string>)
    requires Distinct(objs)
    modifies objs
    ensures NamesOf(objs) == FinalNames(names, old(NamesOf(objs)))
    ensures names' == names + Elements(NamesOf(objs)) && Elements(NamesOf(objs)) !! names
    ensures Distinct(NamesOf(objs)) && |names'| == |names| + |objs|
    ensures forall i :: 0 <= i < |objs| ==>
      if old(objs[i].newname) in names || exists j :: 0 <= j < i && old(objs[j].newname) == old(objs[i].newname)
      then exists k: nat :: k >= 1 && objs[i].newname == old(objs[i].newname) + "_" + Decimal(k)
      else objs[i].newname == old(objs[i].newname)
  {
    hide TakenBefore, FinalName, ListsClashes, Clashes;
    ghost var olds := NamesOf(objs);
    var names1, clashNames, clToOl := FindClashes(names, objs);
    var resolved;
    names', resolved := ResolveClashes(names, olds, names1, clashNames, clToOl);
    WriteBack(objs, clToOl, resolved);
    forall i | 0 <= i < |objs| ensures objs[i].newname == FinalName(names, olds, i) {
      UnlistedKeepsItsName(names, olds, clToOl, i);
      if i in clToOl {
        var c :| 0 <= c < |clToOl| && clToOl[c] == i;
      } else {
        assert objs[i].newname == olds[i];
      }
    }
    assert NamesOf(objs) == FinalNames(names, olds);
    PassIsExact(names, olds);
    forall i | 0 <= i < |objs|
      ensures if olds[i] in names || exists j :: 0 <= j < i && olds[j] == olds[i]
              then exists k: nat :: k >= 1 && FinalName(names, olds, i) == olds[i] + "_" + Decimal(k)
              else FinalName(names, olds, i) == olds[i]
    {
      var k := FinalNameIs(names, olds, i);
    }
  }

  lemma UnlistedKeepsItsName(names: set<string>, olds: seq<string>, index: seq<nat>, i: nat)
    requires i < |olds| && ListsClashes(names, olds, index, |olds|)
    ensures i in index <==> Clashes(names, olds, i)
    ensures i !in index ==> FinalName(names, olds, i) == olds[i]
  {}
}
