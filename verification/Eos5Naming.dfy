/**
How a dimension of an HDF-EOS5 variable is named after the dimensions of its grid,
swath or zonal average, by size: the rules, and what follows from them for a variable.
*/
module Eos5Naming {
  import opened KeyOrder
  import opened Numerals
  import opened Outcome
  import opened UniqueNames

  datatype Eos5Type = GRID | SWATH | ZA | OTHERVARS

  function TypePrefix(t: Eos5Type): string {
    match t
    case GRID => "/GRIDS/"
    case SWATH => "/SWATHS/"
    case ZA => "/ZAS/"
    case OTHERVARS => ""
  }

  function FullName(t: Eos5Type, group: string, name: string): (full: string)
    ensures full != ""
  {
    TypePrefix(t) + group + "/" + name
  }

  lemma FullNameInjective(t: Eos5Type, group: string, a: string, b: string)
    requires FullName(t, group, a) == FullName(t, group, b)
    ensures a == b
  {
    var p := TypePrefix(t) + group + "/";
    assert (p + a)[|p|..] == a && (p + b)[|p|..] == b;
  }

  lemma FullNameIs(t: Eos5Type, group: string, name: string)
    ensures t == GRID ==> FullName(t, group, name) == "/GRIDS/" + group + "/" + name
    ensures t == SWATH ==> FullName(t, group, name) == "/SWATHS/" + group + "/" + name
    ensures t == ZA ==> FullName(t, group, name) == "/ZAS/" + group + "/" + name
  {}

  /** obtain_string_after_lastslash: empty when nothing follows the last slash. */
  function AfterLastSlash(s: string): (r: string)
    ensures r != "" ==> IsLastPart(s, r)
    decreases |s|
  {
    var pos := LastSlash(s);
    if pos.Some? && pos.value != |s| - 1 then s[pos.value + 1..] else ""
  }

  function LastSlash(s: string): (pos: Option<nat>)
    ensures pos.Some? ==> pos.value < |s| && s[pos.value] == '/' && '/' !in s[pos.value + 1..]
    ensures pos.None? ==> '/' !in s
    decreases |s|
  {
    if s == "" then None
    else if s[|s| - 1] == '/' then Some(|s| - 1)
    else
      var pos := LastSlash(s[..|s| - 1]);
      assert pos.Some? ==> s[pos.value + 1..] == s[..|s| - 1][pos.value + 1..] + [s[|s| - 1]];
      pos
  }

  /** What follows the last slash of a path. */
  ghost predicate IsLastPart(full: string, short: string) {
    && short != "" && '/' !in short
    && |short| < |full| && full[|full| - |short|..] == short && full[|full| - |short| - 1] == '/'
  }

  lemma NoLastPart(s: string)
    ensures AfterLastSlash(s) == "" <==> '/' !in s || s[|s| - 1] == '/'
  {}

  lemma LastPartIs(full: string, short: string)
    ensures IsLastPart(full, short) <==>
            short != "" && '/' !in short && exists dir: string :: full == dir + "/" + short
  {
    if IsLastPart(full, short) {
      assert full == full[..|full| - |short| - 1] + "/" + short;
    }
  }

  /** The name shown: the full one, or what follows the last slash when the file has one group. */
  ghost predicate ShownAs(full: string, newname: string, numGroups: nat) {
    if numGroups > 1 then newname == full else IsLastPart(full, newname)
  }

  /** A metadata name is shown as the metadata has it. */
  ghost predicate ShownIn(full: string, newname: string, numGroups: nat, t: Eos5Type, group: string) {
    ShownAs(full, newname, numGroups) || (numGroups == 1 && full == FullName(t, group, newname))
  }

  // ----- what naming one dimension does, on values

  ghost predicate Section(nameOf: map<nat, string>, sizeOf: map<string, nat>) {
    forall s :: s in nameOf ==> nameOf[s] in sizeOf && sizeOf[nameOf[s]] == s
  }

  /** Another name for a size than the one its section picks. */
  ghost predicate IsAlternative(sizeOf: map<string, nat>, c: string, size: nat, name: string) {
    name in sizeOf && sizeOf[name] == size && name != c
  }

  ghost predicate HasAlternative(sizeOf: map<string, nat>, c: string, size: nat) {
    exists name :: IsAlternative(sizeOf, c, size, name)
  }

  ghost predicate IsFirstAlternative(sizeOf: map<string, nat>, c: string, size: nat, name: string) {
    && IsAlternative(sizeOf, c, size, name)
    && forall m :: IsAlternative(sizeOf, c, size, m) ==> LexLe(name, m)
  }

  lemma AlternativeExists(sizeOf: map<string, nat>, c: string, size: nat, name: string)
    requires IsAlternative(sizeOf, c, size, name)
    ensures HasAlternative(sizeOf, c, size)
  {}

  lemma FirstAlternativeUnique(sizeOf: map<string, nat>, c: string, size: nat, m: string, n: string)
    requires IsFirstAlternative(sizeOf, c, size, m) && IsFirstAlternative(sizeOf, c, size, n)
    ensures m == n
  {
    LexOrder(m, n);
  }

  /** The key that is found first among the alternatives. */
  ghost function FirstAlternative(sizeOf: map<string, nat>, c: string, size: nat): (name: string)
    requires HasAlternative(sizeOf, c, size)
    ensures IsFirstAlternative(sizeOf, c, size, name)
  {
    var all := Alternatives(sizeOf, c, size);
    LeastExists(all);
    var name :| name in all && forall m :: m in all ==> LexLe(name, m);
    name
  }

  ghost function Alternatives(sizeOf: map<string, nat>, c: string, size: nat): (names: set<string>)
    ensures forall n :: n in names <==> IsAlternative(sizeOf, c, size, n)
    ensures names != {} <==> HasAlternative(sizeOf, c, size)
  {
    set n | n in sizeOf && IsAlternative(sizeOf, c, size, n)
  }

  /** The maps of a group, and the names used in the current variable. */
  datatype Maps = Maps(nameOf: map<nat, string>, sizeOf: map<string, nat>, used: set<string>)

  /** Create_Unique_DimName, as a step from one state of the maps to the next. */
  ghost predicate Created(m: Maps, size: nat, name: string, m': Maps) {
    if size in m.nameOf then
      var c := m.nameOf[size];
      if c !in m.used then name == c && m' == m.(used := m.used + {c})
      else if HasAlternative(m.sizeOf, c, size) then IsFirstAlternative(m.sizeOf, c, size, name) && m' == m
      else name !in m.sizeOf && m' == m.(used := m.used + {name}, sizeOf := m.sizeOf[name := size])
    else
      && name !in m.sizeOf
      && m' == Maps(m.nameOf[size := name], m.sizeOf[name := size], m.used + {name})
  }

  /** No recorded name serves the dimension: a new one is needed. */
  ghost predicate NeedsNewName(m: Maps, size: nat) {
    size in m.nameOf ==> m.nameOf[size] in m.used && !HasAlternative(m.sizeOf, m.nameOf[size], size)
  }

  /** The name that Create_Unique_DimName settles on, when `madeUp` is the new one it would make up. */
  ghost function Chosen(m: Maps, size: nat, madeUp: string): string {
    if NeedsNewName(m, size) then madeUp
    else if m.nameOf[size] !in m.used then m.nameOf[size]
    else FirstAlternative(m.sizeOf, m.nameOf[size], size)
  }

  /** Whether it succeeds: a new name must not be recorded yet, and a short name must not be empty. */
  ghost predicate CanCreate(m: Maps, size: nat, madeUp: string, numGroups: nat, t: Eos5Type) {
    && (NeedsNewName(m, size) ==> madeUp !in m.sizeOf && (size in m.nameOf || t != OTHERVARS))
    && (numGroups <= 1 ==> AfterLastSlash(Chosen(m, size, madeUp)) != "")
  }

  // ----- when nothing can go wrong

  ghost predicate EndsWithDigit(s: string) {
    s != "" && '0' <= s[|s| - 1] <= '9'
  }

  /**
  Recorded names have a short form, and a name that the handler did not hand out cannot
  be mistaken for one it will make up: it is no numbered name that starts with `fakes`,
  and if it is a numbered form of the name of a size, then it has that size.
  */
  ghost predicate Tidy(nameOf: map<nat, string>, sizeOf: map<string, nat>, handedOut: set<string>, fakes: string) {
    forall n :: n in sizeOf ==> AfterLastSlash(n) != "" && (n in handedOut || Harmless(nameOf, n, sizeOf[n], fakes))
  }

  ghost predicate Harmless(nameOf: map<nat, string>, n: string, size: nat, fakes: string) {
    && !(fakes <= n && EndsWithDigit(n))
    && forall s, k: nat :: s in nameOf && n == Numbered(nameOf[s] + "_", k) ==> size == s
  }

  lemma {:induction false} LastSlashUnique(s: string, pos: nat)
    requires pos < |s| && s[pos] == '/' && '/' !in s[pos + 1..]
    ensures LastSlash(s) == Some(pos)
    decreases |s|
  {
    if pos < |s| - 1 {
      assert s[|s| - 1] == s[pos + 1..][|s| - pos - 2];
      var tail := s[pos + 1..];
      assert s[..|s| - 1][pos + 1..] == tail[..|tail| - 1];
      LastSlashUnique(s[..|s| - 1], pos);
    }
  }

  lemma AfterLastSlashJoin(dir: string, name: string)
    requires '/' !in name && name != ""
    ensures AfterLastSlash(dir + "/" + name) == name
  {
    var s := dir + "/" + name;
    assert s[|dir|] == '/' && s[|dir| + 1..] == name;
    LastSlashUnique(s, |dir|);
  }

  lemma AfterLastSlashExtends(s: string, t: string)
    requires AfterLastSlash(s) != "" && '/' !in t
    ensures AfterLastSlash(s + t) != ""
  {
    hide LastSlash;
    var pos := LastSlash(s).value;
    assert (s + t)[pos + 1..] == s[pos + 1..] + t;
    LastSlashUnique(s + t, pos);
  }

  /** The shape of a name made up for a size: a numbered form of the name of the size, or a FakeDim. */
  ghost predicate MadeUpFor(nameOf: map<nat, string>, size: nat, madeUp: string, fakes: string) {
    && EndsWithDigit(madeUp) && AfterLastSlash(madeUp) != ""
    && if size in nameOf then exists k: nat :: madeUp == Numbered(nameOf[size] + "_", k) else fakes <= madeUp
  }

  /** On tidy maps a new name that was never handed out is not recorded either. */
  lemma MadeUpIsNew(m: Maps, handedOut: set<string>, fakes: string, madeUp: string, size: nat)
    requires Tidy(m.nameOf, m.sizeOf, handedOut, fakes) && madeUp !in handedOut && NeedsNewName(m, size)
    requires MadeUpFor(m.nameOf, size, madeUp, fakes)
    ensures madeUp !in m.sizeOf
  {
    hide AfterLastSlash, EndsWithDigit, HasAlternative;
    if madeUp in m.sizeOf && size in m.nameOf {
      var k: nat :| madeUp == Numbered(m.nameOf[size] + "_", k);
      assert |madeUp| > |m.nameOf[size]|;
      AlternativeExists(m.sizeOf, m.nameOf[size], size, madeUp);
    }
  }

  /** Recording it keeps the maps tidy. */
  lemma MadeUpIsTidy(m: Maps, handedOut: set<string>, fakes: string, madeUp: string, size: nat)
    requires Tidy(m.nameOf, m.sizeOf, handedOut, fakes) && MadeUpFor(m.nameOf, size, madeUp, fakes)
    ensures var nameOf := if size in m.nameOf then m.nameOf else m.nameOf[size := madeUp];
            Tidy(nameOf, m.sizeOf[madeUp := size], handedOut + {madeUp}, fakes)
  {
    hide AfterLastSlash, EndsWithDigit;
    var nameOf := if size in m.nameOf then m.nameOf else m.nameOf[size := madeUp];
    forall n | n in m.sizeOf && n !in handedOut && n != madeUp
      ensures Harmless(nameOf, n, m.sizeOf[n], fakes)
    {
      forall s, k: nat | s in nameOf && n == Numbered(nameOf[s] + "_", k) ensures m.sizeOf[n] == s {
        if s !in m.nameOf {
          NumberedEndsWell(madeUp + "_", k);
          StillAFake(fakes, madeUp, n, k);
        }
      }
    }
  }

  lemma StillAFake(fakes: string, madeUp: string, n: string, k: nat)
    requires fakes <= madeUp && n == Numbered(madeUp + "_", k)
    ensures fakes <= n
  {
    assert n[..|madeUp|] == madeUp;
  }

  lemma NumberedEndsWell(str: string, k: nat)
    ensures EndsWithDigit(Numbered(str, k))
    ensures '/' !in Decimal(k) && '_' !in Decimal(k)
  {
    DecimalHasDigitsOnly(k);
    var n := |Decimal(k)| - 1;
    assert Numbered(str, k)[|str| + n] == Decimal(k)[n];
  }

  lemma TidyCanCreate(m: Maps, size: nat, madeUp: string, handedOut: set<string>, fakes: string, numGroups: nat,
      t: Eos5Type)
    requires Section(m.nameOf, m.sizeOf) && Tidy(m.nameOf, m.sizeOf, handedOut, fakes) && t != OTHERVARS
    requires MadeUpFor(m.nameOf, size, madeUp, fakes) && madeUp !in handedOut
    ensures CanCreate(m, size, madeUp, numGroups, t)
  {
    hide AfterLastSlash, EndsWithDigit;
    if NeedsNewName(m, size) {
      MadeUpIsNew(m, handedOut, fakes, madeUp, size);
    } else if m.nameOf[size] in m.used {
      var name := FirstAlternative(m.sizeOf, m.nameOf[size], size);
      assert IsAlternative(m.sizeOf, m.nameOf[size], size, name);
    }
  }

  lemma CreatedIsRecorded(m: Maps, size: nat, name: string, m': Maps)
    requires Section(m.nameOf, m.sizeOf) && Created(m, size, name, m')
    ensures Section(m'.nameOf, m'.sizeOf)
    ensures name in m'.sizeOf && m'.sizeOf[name] == size
    ensures forall n :: n in m.sizeOf ==> n in m'.sizeOf && m'.sizeOf[n] == m.sizeOf[n]
  {}

  // ----- the names of one variable

  /** Sizes and names of the dimensions of a variable; "" for one without a name so far. */
  type Labelling = seq<(nat, string)>

  ghost predicate IsNamed(labels: Labelling, i: int) {
    0 <= i < |labels| && labels[i].1 != ""
  }

  ghost predicate AllNamed(labels: Labelling) {
    forall i :: 0 <= i < |labels| ==> labels[i].1 != ""
  }

  ghost predicate AllUnnamed(labels: Labelling) {
    forall i :: 0 <= i < |labels| ==> labels[i].1 == ""
  }

  ghost predicate Recorded(labels: Labelling, sizeOf: map<string, nat>) {
    forall i :: IsNamed(labels, i) ==> labels[i].1 in sizeOf && sizeOf[labels[i].1] == labels[i].0
  }

  ghost predicate DistinctNames(labels: Labelling) {
    forall i, j :: IsNamed(labels, i) && IsNamed(labels, j) && i < j ==> labels[i].1 != labels[j].1
  }

  ghost predicate NoThreeAlike(labels: Labelling) {
    forall i, j, k :: 0 <= i < j < k < |labels| ==> !Alike(labels, i, j, k)
  }

  ghost predicate Alike(labels: Labelling, i: nat, j: nat, k: nat)
    requires i < |labels| && j < |labels| && k < |labels|
  {
    labels[i].0 == labels[j].0 == labels[k].0
  }

  /** Some dimension of the size of the i-th, but not the i-th, has a name that is in use. */
  ghost predicate HasTwin(labels: Labelling, used: set<string>, i: int) {
    exists j :: IsNamed(labels, j) && j != i && 0 <= i < |labels| && labels[j].0 == labels[i].0 && labels[j].1 in used
  }

  /** Every name in use belongs to a dimension; a name not in use was an alternative. */
  ghost predicate Tracked(labels: Labelling, used: set<string>) {
    && (forall n :: n in used ==> exists j :: IsNamed(labels, j) && labels[j].1 == n)
    && (forall i :: IsNamed(labels, i) && labels[i].1 !in used ==> HasTwin(labels, used, i))
  }

  ghost predicate VarInvariant(labels: Labelling, m: Maps) {
    && Section(m.nameOf, m.sizeOf) && "" !in m.sizeOf
    && Recorded(labels, m.sizeOf)
    && Tracked(labels, m.used)
    && (NoThreeAlike(labels) ==> DistinctNames(labels))
  }

  lemma RecordedSnoc(labels: Labelling, k: nat, sizeOf: map<string, nat>, name: string, sizeOf': map<string, nat>)
    requires k < |labels| && Recorded(labels, sizeOf)
    requires forall n :: n in sizeOf ==> n in sizeOf' && sizeOf'[n] == sizeOf[n]
    requires name in sizeOf' && sizeOf'[name] == labels[k].0
    ensures Recorded(labels[k := (labels[k].0, name)], sizeOf')
  {
    var after := labels[k := (labels[k].0, name)];
    forall i | IsNamed(after, i) ensures after[i].1 in sizeOf' && sizeOf'[after[i].1] == after[i].0 {
      if i != k {
        assert IsNamed(labels, i);
      }
    }
  }

  lemma TrackedSnoc(labels: Labelling, k: nat, used: set<string>, name: string, used': set<string>)
    requires k < |labels| && labels[k].1 == "" && name != "" && Tracked(labels, used)
    requires used' == used + {name} || (used' == used && HasTwin(labels, used, k))
    ensures Tracked(labels[k := (labels[k].0, name)], used')
  {
    var after := labels[k := (labels[k].0, name)];
    assert IsNamed(after, k) && after[k].1 == name;
    forall n | n in used' ensures exists j :: IsNamed(after, j) && after[j].1 == n {
      if n in used {
        var j :| IsNamed(labels, j) && labels[j].1 == n;
        assert IsNamed(after, j) && after[j].1 == n;
      }
    }
    forall i | IsNamed(after, i) && after[i].1 !in used' ensures HasTwin(after, used', i) {
      if i != k {
        assert IsNamed(labels, i);
      }
      var j :| IsNamed(labels, j) && j != i && labels[j].0 == labels[i].0 && labels[j].1 in used;
      assert IsNamed(after, j) && after[j] == labels[j];
    }
  }

  /** A name put into use just now differs from the others, unless three dimensions are alike. */
  lemma NewNameDiffers(labels: Labelling, k: nat, sizeOf: map<string, nat>, used: set<string>, name: string)
    requires k < |labels| && labels[k].1 == "" && name !in used
    requires Recorded(labels, sizeOf) && Tracked(labels, used)
    requires name in sizeOf ==> sizeOf[name] == labels[k].0
    requires NoThreeAlike(labels)
    ensures forall i :: IsNamed(labels, i) ==> labels[i].1 != name
  {
    hide NoThreeAlike;
    forall i | IsNamed(labels, i) ensures labels[i].1 != name {
      if labels[i].1 == name {
        var j :| IsNamed(labels, j) && j != i && labels[j].0 == labels[i].0 && labels[j].1 in used;
        ThreeAlike(labels, i, j, k);
        assert false;
      }
    }
  }

  lemma ThreeAlike(labels: Labelling, i: nat, j: nat, k: nat)
    requires i < |labels| && j < |labels| && k < |labels| && i != j && i != k && j != k
    requires labels[i].0 == labels[j].0 == labels[k].0
    ensures !NoThreeAlike(labels)
  {
    var a, c := (if i < j then i else j), (if i < j then j else i);
    var lo, hi := (if k < a then k else a), (if c < k then k else c);
    var mid := i + j + k - lo - hi;
    assert lo < mid < hi && mid in {i, j, k};
    assert Alike(labels, lo, mid, hi);
  }

  lemma AlternativeDiffers(labels: Labelling, k: nat, sizeOf: map<string, nat>, used: set<string>,
      c: string, name: string)
    requires k < |labels| && labels[k].1 == "" && Recorded(labels, sizeOf) && Tracked(labels, used)
    requires c in used && c in sizeOf && sizeOf[c] == labels[k].0 && IsAlternative(sizeOf, c, labels[k].0, name)
    ensures HasTwin(labels, used, k)
    ensures NoThreeAlike(labels) ==> forall i :: IsNamed(labels, i) ==> labels[i].1 != name
  {
    hide NoThreeAlike;
    var j :| IsNamed(labels, j) && labels[j].1 == c;
    if NoThreeAlike(labels) {
      forall i | IsNamed(labels, i) ensures labels[i].1 != name {
        if labels[i].1 == name {
          ThreeAlike(labels, i, j, k);
          assert false;
        }
      }
    }
  }

  lemma DistinctSnoc(labels: Labelling, k: nat, name: string)
    requires k < |labels|
    requires NoThreeAlike(labels) ==> DistinctNames(labels) && forall i :: IsNamed(labels, i) ==> labels[i].1 != name
    ensures var after := labels[k := (labels[k].0, name)];
            NoThreeAlike(after) ==> DistinctNames(after)
  {
    var after := labels[k := (labels[k].0, name)];
    if NoThreeAlike(after) {
      forall a: nat, b: nat, c: nat | a < b < c < |labels| ensures !Alike(labels, a, b, c) {
        assert !Alike(after, a, b, c);
      }
      forall i, j | IsNamed(after, i) && IsNamed(after, j) && i < j ensures after[i].1 != after[j].1 {
        assert i != k ==> IsNamed(labels, i);
        assert j != k ==> IsNamed(labels, j);
      }
    }
  }

  /** One call of Create_Unique_DimName keeps what is known of the variable. */
  lemma StepKeeps(labels: Labelling, k: nat, m: Maps, name: string, m': Maps)
    requires k < |labels| && labels[k].1 == "" && name != ""
    requires VarInvariant(labels, m) && Created(m, labels[k].0, name, m')
    ensures VarInvariant(labels[k := (labels[k].0, name)], m')
  {
    hide Recorded, Tracked, DistinctNames, NoThreeAlike, HasTwin, IsNamed;
    var size := labels[k].0;
    CreatedIsRecorded(m, size, name, m');
    RecordedSnoc(labels, k, m.sizeOf, name, m'.sizeOf);
    if size in m.nameOf && m.nameOf[size] in m.used && HasAlternative(m.sizeOf, m.nameOf[size], size) {
      AlternativeDiffers(labels, k, m.sizeOf, m.used, m.nameOf[size], name);
    } else {
      UsedIsRecorded(labels, m);
      if NoThreeAlike(labels) {
        NewNameDiffers(labels, k, m.sizeOf, m.used, name);
      }
    }
    TrackedSnoc(labels, k, m.used, name, m'.used);
    DistinctSnoc(labels, k, name);
  }

  /** A name of the right size that the variable has not used may be given to an unnamed dimension. */
  lemma AssignKeeps(labels: Labelling, k: nat, m: Maps, name: string)
    requires k < |labels| && labels[k].1 == "" && VarInvariant(labels, m)
    requires name !in m.used && name in m.sizeOf && m.sizeOf[name] == labels[k].0
    ensures VarInvariant(labels[k := (labels[k].0, name)], m.(used := m.used + {name}))
  {
    hide Recorded, Tracked, DistinctNames, NoThreeAlike, HasTwin, IsNamed;
    RecordedSnoc(labels, k, m.sizeOf, name, m.sizeOf);
    if NoThreeAlike(labels) {
      NewNameDiffers(labels, k, m.sizeOf, m.used, name);
    }
    TrackedSnoc(labels, k, m.used, name, m.used + {name});
    DistinctSnoc(labels, k, name);
  }

  lemma NoNamesYet(labels: Labelling, nameOf: map<nat, string>, sizeOf: map<string, nat>)
    requires AllUnnamed(labels) && Section(nameOf, sizeOf) && "" !in sizeOf
    ensures VarInvariant(labels, Maps(nameOf, sizeOf, {}))
  {}

  lemma RecordedStays(labels: Labelling, sizeOf: map<string, nat>, sizeOf': map<string, nat>)
    requires Recorded(labels, sizeOf)
    requires forall n :: n in sizeOf ==> n in sizeOf' && sizeOf'[n] == sizeOf[n]
    ensures Recorded(labels, sizeOf')
  {}

  lemma DoneStays(labels: Labelling, sizeOf: map<string, nat>, sizeOf': map<string, nat>)
    requires Done(labels, sizeOf)
    requires forall n :: n in sizeOf ==> n in sizeOf' && sizeOf'[n] == sizeOf[n]
    ensures Done(labels, sizeOf')
  {
    hide Recorded, NoThreeAlike, DistinctNames;
    RecordedStays(labels, sizeOf, sizeOf');
  }

  /** What a variable ends up with. */
  ghost predicate Done(labels: Labelling, sizeOf: map<string, nat>) {
    AllNamed(labels) && Recorded(labels, sizeOf) && (NoThreeAlike(labels) ==> DistinctNames(labels))
  }

  lemma InvariantIsDone(labels: Labelling, m: Maps)
    requires VarInvariant(labels, m) && AllNamed(labels)
    ensures Done(labels, m.sizeOf)
  {}

  lemma UsedIsRecorded(labels: Labelling, m: Maps)
    requires VarInvariant(labels, m)
    ensures forall n :: n in m.used ==> n in m.sizeOf
  {}

  // ----- variables none of whose dimensions is known by name

  /** After n dimensions: the first of each size has the section's name, the others its first alternative. */
  ghost predicate Forced(labels: Labelling, m: Maps, n: nat)
    requires n <= |labels|
  {
    && (forall i :: 0 <= i < n ==> labels[i].0 in m.nameOf && m.nameOf[labels[i].0] in m.used)
    && (forall i, j :: 0 <= i < j < n && labels[i].0 == labels[j].0 ==>
          IsFirstAlternative(m.sizeOf, m.nameOf[labels[i].0], labels[i].0, labels[j].1))
  }

  lemma AlternativeStays(sizeOf: map<string, nat>, c: string, size: nat, name: string, n: string, size': nat)
    requires IsFirstAlternative(sizeOf, c, size, name) && n !in sizeOf && size' != size
    ensures IsFirstAlternative(sizeOf[n := size'], c, size, name)
  {}

  lemma OnlyAlternative(sizeOf: map<string, nat>, c: string, size: nat, n: string)
    requires !HasAlternative(sizeOf, c, size) && n !in sizeOf && n != c
    ensures IsFirstAlternative(sizeOf[n := size], c, size, n)
  {
    LexOrder(n, n);
    var sizeOf' := sizeOf[n := size];
    forall x | IsAlternative(sizeOf', c, size, x) ensures x == n {
      if x != n {
        assert IsAlternative(sizeOf, c, size, x);
      }
    }
  }

  lemma ForcedStep(labels: Labelling, k: nat, m: Maps, name: string, m': Maps)
    requires k < |labels| && Section(m.nameOf, m.sizeOf)
    requires Forced(labels, m, k) && Created(m, labels[k].0, name, m')
    ensures Forced(labels[k := (labels[k].0, name)], m', k + 1)
  {
    hide IsFirstAlternative, HasAlternative;
    var size, after := labels[k].0, labels[k := (labels[k].0, name)];
    forall i, j | 0 <= i < j <= k && after[i].0 == after[j].0
      ensures IsFirstAlternative(m'.sizeOf, m'.nameOf[after[i].0], after[i].0, after[j].1)
    {
      var s, c := labels[i].0, m.nameOf[labels[i].0];
      if j == k {
        if !HasAlternative(m.sizeOf, c, s) {
          OnlyAlternative(m.sizeOf, c, s, name);
        }
      } else {
        assert IsFirstAlternative(m.sizeOf, c, s, labels[j].1);
        AlternativeIsOne(m.sizeOf, c, s, labels[j].1);
        if s != size && m'.sizeOf != m.sizeOf {
          AlternativeStays(m.sizeOf, c, s, labels[j].1, name, size);
        }
      }
    }
  }

  lemma AlternativeIsOne(sizeOf: map<string, nat>, c: string, size: nat, name: string)
    requires IsFirstAlternative(sizeOf, c, size, name)
    ensures HasAlternative(sizeOf, c, size)
  {}

  /** Three dimensions of one size get only two names. */
  lemma ForcedRepeats(labels: Labelling, m: Maps)
    requires AllNamed(labels) && Forced(labels, m, |labels|) && DistinctNames(labels)
    ensures NoThreeAlike(labels)
  {
    forall i: nat, j: nat, k: nat | i < j < k < |labels| ensures !Alike(labels, i, j, k) {
      if Alike(labels, i, j, k) {
        FirstAlternativeUnique(m.sizeOf, m.nameOf[labels[i].0], labels[i].0, labels[j].1, labels[k].1);
        assert IsNamed(labels, j) && IsNamed(labels, k);
        assert false;
      }
    }
  }
}
