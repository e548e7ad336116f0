/** HDF5CFUtil::gen_unique_name: the first free numbered name. */
module UniqueNames {
  import opened Numerals

  function Numbered(str: string, i: nat): string {
    str + Decimal(i)
  }

  lemma NumberedInjective(str: string, i: nat, j: nat)
    requires Numbered(str, i) == Numbered(str, j)
    ensures i == j
  {
    assert Numbered(str, i)[|str|..] == Decimal(i) && Numbered(str, j)[|str|..] == Decimal(j);
    NumeralInjective(i, j, 10);
  }

  /** `j` is the smallest index, from `start` on, whose name is free. */
  ghost predicate LeastFree(str: string, names: set<string>, start: nat, j: nat) {
    && start <= j
    && Numbered(str, j) !in names
    && forall i: nat | start <= i < j :: Numbered(str, i) in names
  }

  /** The numbered names that are taken already: what makes the search finite. */
  ghost function TakenFrom(str: string, names: set<string>, start: nat): set<string> {
    set s | s in names && IsNumberedFrom(str, start, s)
  }

  ghost predicate IsNumberedFrom(str: string, start: nat, s: string) {
    exists i: nat :: start <= i && s == Numbered(str, i)
  }

  lemma FewerTaken(str: string, names: set<string>, start: nat)
    requires Numbered(str, start) in names
    ensures TakenFrom(str, names, start + 1) < TakenFrom(str, names, start)
  {
    var s := Numbered(str, start);
    assert s in TakenFrom(str, names, start);
    if IsNumberedFrom(str, start + 1, s) {
      var i: nat :| start + 1 <= i && s == Numbered(str, i);
      NumberedInjective(str, start, i);
    }
  }

  /** Pigeonhole: at most |names| indices in a row can be taken. */
  lemma {:induction false} RunIsShort(str: string, names: set<string>, start: nat, j: nat)
    requires start <= j && forall i: nat | start <= i < j :: Numbered(str, i) in names
    ensures j - start <= |names|
    decreases j
  {
    if start < j {
      var last := Numbered(str, j - 1);
      forall i: nat | start <= i < j - 1 ensures Numbered(str, i) in names - {last} {
        if Numbered(str, i) == last {
          NumberedInjective(str, i, j - 1);
        }
      }
      RunIsShort(str, names - {last}, start, j - 1);
    }
  }

  lemma LeastFreeUnique(str: string, names: set<string>, start: nat, j: nat, k: nat)
    requires LeastFree(str, names, start, j) && LeastFree(str, names, start, k)
    ensures j == k
  {}

  /** The index that the search settles on. */
  ghost function FreeIndex(str: string, names: set<string>, start: nat): (j: nat)
    ensures LeastFree(str, names, start, j)
    decreases TakenFrom(str, names, start)
  {
    if Numbered(str, start) in names then
      FewerTaken(str, names, start);
      FreeIndex(str, names, start + 1)
    else start
  }

  ghost function UniqueName(str: string, names: set<string>): (unique: string)
    ensures unique !in names
  {
    Numbered(str, FreeIndex(str, names, 1))
  }

  /** The first of the names with 1, 2, ... that is not taken. */
  lemma UniqueNameIs(str: string, names: set<string>) returns (k: nat)
    ensures k >= 1 && UniqueName(str, names) == str + Decimal(k) && str + Decimal(k) !in names
    ensures forall j: nat | 1 <= j < k :: str + Decimal(j) in names
  {
    k := FreeIndex(str, names, 1);
    assert forall j: nat :: Numbered(str, j) == str + Decimal(j);
  }

  /** The C++ reference parameters come back as out-parameters. */
  method GenUniqueName(str: string, nameList: set<string>, clashIndex: nat)
    returns (unique: string, nameList': set<string>, index: nat)
    ensures LeastFree(str, nameList, clashIndex, index)
    ensures index <= clashIndex + |nameList|
    ensures unique == str + Decimal(index) && nameList' == nameList + {unique}
    ensures unique !in nameList && forall j: nat | clashIndex <= j < index :: str + Decimal(j) in nameList
    ensures clashIndex == 1 ==> unique == UniqueName(str, nameList)
    decreases TakenFrom(str, nameList, clashIndex)
  {
    var newstr := str + Decimal(clashIndex);
    if newstr in nameList {
      FewerTaken(str, nameList, clashIndex);
      unique, nameList', index := GenUniqueName(str, nameList, clashIndex + 1);
    } else {
      unique, nameList', index := newstr, nameList + {newstr}, clashIndex;
    }
    RunIsShort(str, nameList, clashIndex, index);
    LeastFreeUnique(str, nameList, clashIndex, index, FreeIndex(str, nameList, clashIndex));
  }
}
