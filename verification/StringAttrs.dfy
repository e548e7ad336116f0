/**
String attributes: all strings of an attribute are trimmed and packed into one byte
vector with a list of sizes; the DAS generator slices them apart again.
*/
module StringAttrs {
  import opened Outcome
  import opened MixedRadix
  import Escape

  datatype Padding = NullTerm | SpacePad | NullPad

  // ----- packing and slicing, as functions

  function Concat(parts: seq<string>): string {
    if parts == [] then "" else Concat(parts[..|parts| - 1]) + parts[|parts| - 1]
  }

  function Lengths(parts: seq<string>): seq<nat> {
    seq(|parts|, k requires 0 <= k < |parts| => |parts[k]|)
  }

  function Sum(sizes: seq<nat>): nat {
    if sizes == [] then 0 else Sum(sizes[..|sizes| - 1]) + sizes[|sizes| - 1]
  }

  /** The text cut into pieces of the given sizes. */
  function Slices(value: string, sizes: seq<nat>): (parts: seq<string>)
    requires Sum(sizes) == |value|
    ensures |parts| == |sizes|
    decreases sizes
  {
    if sizes == [] then []
    else
      var n, cut := |sizes| - 1, |value| - sizes[|sizes| - 1];
      Slices(value[..cut], sizes[..n]) + [value[cut..]]
  }

  /** Slicing undoes packing. */
  lemma {:induction false} SlicesOfConcat(parts: seq<string>)
    ensures Sum(Lengths(parts)) == |Concat(parts)|
    ensures Slices(Concat(parts), Lengths(parts)) == parts
  {
    if parts != [] {
      var n := |parts| - 1;
      SlicesOfConcat(parts[..n]);
      assert parts == parts[..n] + [parts[n]];
      PackOneMore(parts[..n], parts[n]);
      SliceLast(Concat(parts[..n]), Lengths(parts[..n]), parts[n]);
    }
  }

  lemma SliceLast(text: string, sizes: seq<nat>, last: string)
    requires Sum(sizes) == |text|
    ensures Sum(sizes + [|last|]) == |text + last|
    ensures Slices(text + last, sizes + [|last|]) == Slices(text, sizes) + [last]
  {}

  lemma NothingPacked()
    ensures Concat([]) == ""
  {}

  lemma PackOneMore(parts: seq<string>, part: string)
    ensures Concat(parts + [part]) == Concat(parts) + part
    ensures Lengths(parts + [part]) == Lengths(parts) + [|part|]
  {}

  lemma {:induction false} SumOfPrefix(sizes: seq<nat>, k: nat)
    requires k <= |sizes|
    ensures Sum(sizes[..k]) <= Sum(sizes)
    decreases |sizes| - k
  {
    if k < |sizes| {
      SumOfPrefix(sizes, k + 1);
      assert sizes[..k + 1][..k] == sizes[..k];
    } else {
      assert sizes[..k] == sizes;
    }
  }

  // ----- trimming

  function StripTrailing(s: string, pad: char): string {
    if s != "" && s[|s| - 1] == pad then StripTrailing(s[..|s| - 1], pad) else s
  }

  /** find_first_of: None stands for npos. */
  function FindFirst(s: string, c: char): (pos: Option<nat>)
    ensures pos.None? <==> c !in s
    ensures pos.Some? ==> pos.value < |s| && s[pos.value] == c && c !in s[..pos.value]
    decreases |s|
  {
    if s == "" then None
    else if s[0] == c then Some(0)
    else
      match FindFirst(s[1..], c)
      case None => None
      case Some(k) => assert s[..k + 1] == [s[0]] + s[1..][..k]; Some(k + 1)
  }

  /** find_last_not_of(c) + 1, where npos + 1 wraps around to zero. */
  function AfterLastNot(s: string, c: char): (pos: nat)
    ensures pos <= |s|
    ensures pos > 0 ==> s[pos - 1] != c
    ensures forall k :: pos <= k < |s| ==> s[k] == c
    decreases |s|
  {
    if s == "" || s[|s| - 1] != c then |s| else AfterLastNot(s[..|s| - 1], c)
  }

  /**
  What is kept of one fixed-size string: up to the first NUL; or without its trailing
  blanks and then one blank; or, for null padding, without trailing '0' digits (which
  is what the code compares with).
  */
  function Trimmed(pad: Padding, s: string): string {
    match pad
    case NullTerm => (match FindFirst(s, '\0') case None => s case Some(k) => s[..k])
    case SpacePad => StripTrailing(s, ' ') + " "
    case NullPad => StripTrailing(s, '0')
  }

  /** The text that HDF5 means by a fixed-size string: it without its padding. */
  function Unpadded(pad: Padding, s: string): string {
    match pad
    case NullTerm => (match FindFirst(s, '\0') case None => s case Some(k) => s[..k])
    case SpacePad => StripTrailing(s, ' ')
    case NullPad => StripTrailing(s, '\0')
  }

  /** Null padding is handled right exactly when there is nothing to strip by either rule. */
  ghost predicate NothingToStrip(s: string) {
    s == "" || (s[|s| - 1] != '0' && s[|s| - 1] != '\0')
  }

  /**
  The padding, and only the padding, is removed: always for null-terminated text; from
  space-padded text all but one blank; from null-padded text exactly when it ends with
  neither a zero digit nor a NUL.
  */
  lemma TrimmedExactly(pad: Padding, s: string)
    ensures pad.NullTerm? ==> Trimmed(pad, s) == Unpadded(pad, s)
    ensures pad.SpacePad? ==> Trimmed(pad, s) == Unpadded(pad, s) + " "
    ensures pad.NullPad? ==> (Trimmed(pad, s) == Unpadded(pad, s) <==> NothingToStrip(s))
  {
    StripTrailingCuts(s, '0');
    StripTrailingCuts(s, '\0');
    if s != "" && s[|s| - 1] == '0' {
      assert |StripTrailing(s, '0')| < |s|;
    } else if s != "" && s[|s| - 1] == '\0' {
      assert |StripTrailing(s, '\0')| < |s|;
    }
  }

  /** Null-padded text that loses a digit, and some that keeps its padding. */
  lemma NullPadFails()
    ensures Trimmed(NullPad, "10") == "1" && Unpadded(NullPad, "10") == "10"
    ensures Trimmed(NullPad, "ab\0\0") == "ab\0\0" && Unpadded(NullPad, "ab\0\0") == "ab"
  {
    assert "10"[..1] == "1";
    assert "ab\0\0"[..3] == "ab\0" && "ab\0"[..2] == "ab";
  }

  lemma {:induction false} StripTrailingCuts(s: string, c: char)
    ensures StripTrailing(s, c) == s[..AfterLastNot(s, c)]
    decreases |s|
  {
    if s != "" && s[|s| - 1] == c {
      var t := s[..|s| - 1];
      StripTrailingCuts(t, c);
      assert t[..AfterLastNot(t, c)] == s[..AfterLastNot(t, c)];
    }
  }

  /** The k-th fixed-size piece of the buffer; the last one takes all that is left. */
  function SectionAt(s: string, k: nat, numSect: nat, sectSize: nat): string
    requires k < numSect && (numSect - 1) * sectSize <= |s|
  {
    SectionBounds(k, numSect, sectSize);
    if k < numSect - 1 then s[k * sectSize..k * sectSize + sectSize] else s[(numSect - 1) * sectSize..]
  }

  lemma SectionBounds(k: nat, numSect: nat, sectSize: nat)
    requires k < numSect
    ensures k < numSect - 1 ==> k * sectSize + sectSize <= (numSect - 1) * sectSize
  {
    if k < numSect - 1 {
      MulLe(sectSize, k + 1, numSect - 1);
    }
  }

  /** The sections are the buffer, cut after every sectSize bytes. */
  lemma SectionsAreTheBuffer(s: string, numSect: nat, sectSize: nat, parts: seq<string>)
    requires numSect > 0 && (numSect - 1) * sectSize <= |s| && |parts| == numSect
    requires forall k :: 0 <= k < numSect ==> parts[k] == SectionAt(s, k, numSect, sectSize)
    ensures Concat(parts) == s
    ensures forall k :: 0 <= k < numSect - 1 ==> |parts[k]| == sectSize
  {
    hide SectionAt, Concat;
    var last := numSect - 1;
    FirstSections(s, numSect, sectSize, parts, last);
    SectionIs(s, last, numSect, sectSize);
    assert parts[..last] + [parts[last]] == parts;
    PackOneMore(parts[..last], parts[last]);
    forall k: nat | k < last ensures |parts[k]| == sectSize {
      SectionIs(s, k, numSect, sectSize);
    }
  }

  lemma SectionIs(s: string, k: nat, numSect: nat, sectSize: nat)
    requires k < numSect && (numSect - 1) * sectSize <= |s|
    ensures var to := if k < numSect - 1 then (k + 1) * sectSize else |s|;
            k * sectSize <= to <= |s| && SectionAt(s, k, numSect, sectSize) == s[k * sectSize..to]
  {
    MulLe(sectSize, k, numSect - 1);
    if k < numSect - 1 {
      MulLe(sectSize, k + 1, numSect - 1);
      MulSuccessor(k, sectSize);
    }
  }

  lemma {:induction false} FirstSections(s: string, numSect: nat, sectSize: nat, parts: seq<string>, n: nat)
    requires n < numSect && (numSect - 1) * sectSize <= |s| && |parts| == numSect
    requires forall k :: 0 <= k < numSect ==> parts[k] == SectionAt(s, k, numSect, sectSize)
    ensures n * sectSize <= |s| && Concat(parts[..n]) == s[..n * sectSize]
  {
    hide SectionAt;
    MulLe(sectSize, n, numSect - 1);
    if n > 0 {
      FirstSections(s, numSect, sectSize, parts, n - 1);
      SectionIs(s, n - 1, numSect, sectSize);
      MulSuccessor(n - 1, sectSize);
      assert parts[..n] == parts[..n - 1] + [parts[n - 1]];
      PackOneMore(parts[..n - 1], parts[n - 1]);
    }
  }

  /** A buffer of strings of one size has these strings as its sections. */
  lemma PackedSections(packed: seq<string>, tySize: nat, k: nat)
    requires k < |packed| && forall i :: 0 <= i < |packed| ==> |packed[i]| == tySize
    ensures |Concat(packed)| == |packed| * tySize && (|packed| - 1) * tySize <= |Concat(packed)|
    ensures SectionAt(Concat(packed), k, |packed|, tySize) == packed[k]
  {
    hide SectionAt;
    ConcatLength(packed, tySize);
    var last := |packed| - 1;
    MulSuccessor(last, tySize);
    SectionIs(Concat(packed), k, |packed|, tySize);
    MulSuccessor(k, tySize);
    PieceOfConcat(packed, tySize, k);
  }

  lemma {:induction false} ConcatLength(parts: seq<string>, size: nat)
    requires forall i :: 0 <= i < |parts| ==> |parts[i]| == size
    ensures |Concat(parts)| == |parts| * size
  {
    if parts != [] {
      ConcatLength(parts[..|parts| - 1], size);
      MulSuccessor(|parts| - 1, size);
    }
  }

  lemma {:induction false} PieceOfConcat(parts: seq<string>, size: nat, k: nat)
    requires k < |parts| && forall i :: 0 <= i < |parts| ==> |parts[i]| == size
    ensures k * size <= (k + 1) * size <= |Concat(parts)|
    ensures Concat(parts)[k * size..(k + 1) * size] == parts[k]
  {
    hide Concat;
    var n := |parts| - 1;
    ConcatLength(parts, size);
    ConcatLength(parts[..n], size);
    MulLe(size, k + 1, |parts|);
    MulLe(size, k, k + 1);
    assert parts[..n] + [parts[n]] == parts;
    PackOneMore(parts[..n], parts[n]);
    if k < n {
      PieceOfConcat(parts[..n], size, k);
      PieceOfPrefix(Concat(parts[..n]), parts[n], k * size, (k + 1) * size);
    }
  }

  lemma PieceOfPrefix(s: string, t: string, from: nat, to: nat)
    requires from <= to <= |s|
    ensures (s + t)[from..to] == s[from..to]
  {}

  function TrimmedSections(pad: Padding, s: string, numSect: nat, sectSize: nat): (parts: seq<string>)
    requires numSect > 0 ==> (numSect - 1) * sectSize <= |s|
    ensures |parts| == numSect
  {
    seq(numSect, k requires 0 <= k < numSect => Trimmed(pad, SectionAt(s, k, numSect, sectSize)))
  }

  function UnpaddedSections(pad: Padding, s: string, numSect: nat, sectSize: nat): (parts: seq<string>)
    requires numSect > 0 ==> (numSect - 1) * sectSize <= |s|
    ensures |parts| == numSect
  {
    seq(numSect, k requires 0 <= k < numSect => Unpadded(pad, SectionAt(s, k, numSect, sectSize)))
  }

  /** Null-terminated strings come back as they were packed. */
  lemma NullTermComesBack(strings: seq<string>, packed: seq<string>, tySize: nat)
    requires |strings| == |packed|
    requires forall k :: 0 <= k < |packed| ==>
               strings[k] <= packed[k] && |packed[k]| == tySize && '\0' !in strings[k]
    requires forall k, j :: 0 <= k < |packed| && |strings[k]| <= j < |packed[k]| ==> packed[k][j] == '\0'
    ensures |packed| > 0 ==> (|packed| - 1) * tySize <= |Concat(packed)|
    ensures TrimmedSections(NullTerm, Concat(packed), |packed|, tySize) == strings
  {
    hide SectionAt, Trimmed, Concat;
    if |packed| > 0 {
      PackedSections(packed, tySize, 0);
      forall k: nat | k < |packed|
        ensures Trimmed(NullTerm, SectionAt(Concat(packed), k, |packed|, tySize)) == strings[k]
      {
        PackedSections(packed, tySize, k);
        CutAtNul(strings[k], packed[k]);
      }
    }
  }

  lemma CutAtNul(text: string, packed: string)
    requires text <= packed && '\0' !in text && forall j :: |text| <= j < |packed| ==> packed[j] == '\0'
    ensures Trimmed(NullTerm, packed) == text
  {
    if |text| < |packed| {
      assert packed[|text|] in packed;
    }
  }

  /** Space-padded strings come back with one blank. */
  lemma SpacePadComesBack(strings: seq<string>, packed: seq<string>, tySize: nat)
    requires |strings| == |packed|
    requires forall k :: 0 <= k < |packed| ==> |strings[k]| > 0 && strings[k][..|strings[k]| - 1] <= packed[k]
    requires forall k :: 0 <= k < |packed| ==> |packed[k]| == tySize && strings[k][|strings[k]| - 1] == ' '
    requires forall k :: 0 <= k < |packed| && |strings[k]| > 1 ==> strings[k][|strings[k]| - 2] != ' '
    requires forall k, j :: 0 <= k < |packed| && |strings[k]| - 1 <= j < |packed[k]| ==> packed[k][j] == ' '
    ensures |packed| > 0 ==> (|packed| - 1) * tySize <= |Concat(packed)|
    ensures TrimmedSections(SpacePad, Concat(packed), |packed|, tySize) == strings
  {
    hide SectionAt, Trimmed, Concat;
    if |packed| > 0 {
      PackedSections(packed, tySize, 0);
      forall k: nat | k < |packed|
        ensures Trimmed(SpacePad, SectionAt(Concat(packed), k, |packed|, tySize)) == strings[k]
      {
        PackedSections(packed, tySize, k);
        CutBlanks(strings[k][..|strings[k]| - 1], packed[k]);
      }
    }
  }

  lemma CutBlanks(text: string, packed: string)
    requires text <= packed && (text != "" ==> text[|text| - 1] != ' ')
    requires forall j :: |text| <= j < |packed| ==> packed[j] == ' '
    ensures Trimmed(SpacePad, packed) == text + " "
  {
    StripTrailingCuts(packed, ' ');
    var pos := AfterLastNot(packed, ' ');
    assert pos <= |text| ==> text[..pos] == packed[..pos];
  }

  /** What becomes of the sections of a whole buffer. */
  lemma TrimmedSectionsExactly(pad: Padding, s: string, numSect: nat, sectSize: nat)
    requires numSect > 0 ==> (numSect - 1) * sectSize <= |s|
    ensures var parts := TrimmedSections(pad, s, numSect, sectSize);
            var meant := UnpaddedSections(pad, s, numSect, sectSize);
            && (pad.NullTerm? ==> parts == meant)
            && (pad.SpacePad? ==> forall k :: 0 <= k < numSect ==> parts[k] == meant[k] + " ")
            && (pad.NullPad? ==>
                 (parts == meant <==>
                  forall k :: 0 <= k < numSect ==> NothingToStrip(SectionAt(s, k, numSect, sectSize))))
  {
    hide Trimmed, Unpadded, SectionAt, NothingToStrip;
    var parts, meant := TrimmedSections(pad, s, numSect, sectSize), UnpaddedSections(pad, s, numSect, sectSize);
    forall k: nat | k < numSect
      ensures pad.NullTerm? ==> parts[k] == meant[k]
      ensures pad.SpacePad? ==> parts[k] == meant[k] + " "
      ensures pad.NullPad? ==> (parts[k] == meant[k] <==> NothingToStrip(SectionAt(s, k, numSect, sectSize)))
    {
      TrimmedExactly(pad, SectionAt(s, k, numSect, sectSize));
    }
  }

  /** The size written for a section: that of the full section when no NUL is found. */
  function RecordedSize(pad: Padding, sect: string, sectSize: nat): nat {
    if pad.NullTerm? && '\0' !in sect then sectSize else |Trimmed(pad, sect)|
  }

  /** HDF5CFUtil::trim_string on one section: the text kept and the size recorded for it. */
  method TrimSection(pad: Padding, sect: string, sectSize: nat) returns (kept: string, size: nat)
    ensures kept == Trimmed(pad, sect)
    ensures size == RecordedSize(pad, sect, sectSize)
    ensures size == if pad.NullTerm? && '\0' !in sect then sectSize else |kept|
  {
    var tempPos: Option<nat>;
    match pad {
      case NullTerm => tempPos := FindFirst(sect, '\0');
      case SpacePad => tempPos := Some(AfterLastNot(sect, ' ')); StripTrailingCuts(sect, ' ');
      case NullPad => tempPos := Some(AfterLastNot(sect, '0')); StripTrailingCuts(sect, '0');
    }
    match tempPos {
      case Some(pos) =>
        if pad.SpacePad? {
          kept := if pos == |sect| then sect + " " else sect[..pos + 1];
          size := pos + 1;
        } else {
          kept := sect[..pos];
          size := pos;
        }
      case None =>
        kept := sect;
        size := sectSize;
    }
  }

  method TrimString(pad: Padding, s: string, numSect: nat, sectSize: nat) returns (final: string, newSize: seq<nat>)
    requires numSect > 0 ==> (numSect - 1) * sectSize <= |s|
    ensures final == Concat(TrimmedSections(pad, s, numSect, sectSize))
    ensures |newSize| == numSect
    ensures forall k :: 0 <= k < numSect ==>
      newSize[k] == RecordedSize(pad, SectionAt(s, k, numSect, sectSize), sectSize)
  {
    hide Concat, Trimmed, RecordedSize, SectionAt;
    final, newSize := "", [];
    NothingPacked();
    ghost var parts := TrimmedSections(pad, s, numSect, sectSize);
    for i := 0 to numSect
      invariant final == Concat(parts[..i]) && |newSize| == i
      invariant forall k :: 0 <= k < i ==>
        newSize[k] == RecordedSize(pad, SectionAt(s, k, numSect, sectSize), sectSize)
    {
      var kept, size := TrimSection(pad, SectionAt(s, i, numSect, sectSize), sectSize);
      PackOneMore(parts[..i], kept);
      assert parts[..i + 1] == parts[..i] + [kept];
      final := final + kept;
      newSize := newSize + [size];
    }
    assert parts[..numSect] == parts;
  }

  /** The recorded sizes are right exactly when a last section without a NUL has the full size. */
  lemma SizesRightExactly(pad: Padding, s: string, numSect: nat, sectSize: nat, newSize: seq<nat>)
    requires numSect > 0 && (numSect - 1) * sectSize <= |s| && |newSize| == numSect
    requires forall k :: 0 <= k < numSect ==>
      newSize[k] == RecordedSize(pad, SectionAt(s, k, numSect, sectSize), sectSize)
    ensures newSize == Lengths(TrimmedSections(pad, s, numSect, sectSize)) <==>
            (pad.NullTerm? && '\0' !in SectionAt(s, numSect - 1, numSect, sectSize) ==> |s| == numSect * sectSize)
  {
    hide Trimmed, RecordedSize, SectionAt;
    var parts := TrimmedSections(pad, s, numSect, sectSize);
    var last := numSect - 1;
    MulSuccessor(last, sectSize);
    forall k | 0 <= k < numSect
      ensures newSize[k] == |parts[k]| <==>
              (k == last && pad.NullTerm? && '\0' !in SectionAt(s, k, numSect, sectSize) ==> |s| == numSect * sectSize)
    {
      RecordedSizeIsRight(pad, SectionAt(s, k, numSect, sectSize), sectSize);
      SectionLength(s, k, numSect, sectSize);
    }
    if newSize == Lengths(parts) {
      assert newSize[last] == Lengths(parts)[last];
    }
  }

  lemma MulSuccessor(a: nat, b: nat)
    ensures (a + 1) * b == a * b + b
  {}

  lemma SectionLength(s: string, k: nat, numSect: nat, sectSize: nat)
    requires k < numSect && (numSect - 1) * sectSize <= |s|
    ensures |SectionAt(s, k, numSect, sectSize)| == if k < numSect - 1 then sectSize else |s| - (numSect - 1) * sectSize
  {
    SectionBounds(k, numSect, sectSize);
  }

  lemma RecordedSizeIsRight(pad: Padding, sect: string, sectSize: nat)
    ensures RecordedSize(pad, sect, sectSize) == |Trimmed(pad, sect)| <==>
            (pad.NullTerm? && '\0' !in sect ==> |sect| == sectSize)
  {}

  // ----- reading an attribute

  /** The fixed-length branch of Retrieve_H5_Attr_Value; the buffer holds count strings. */
  method RetrieveFixedStrings(pad: Padding, buffer: string, count: nat, tySize: nat)
    returns (value: string, strsize: seq<nat>)
    requires tySize > 0 && |buffer| == count * tySize
    ensures value == Concat(TrimmedSections(pad, buffer, count, tySize))
    ensures strsize == Lengths(TrimmedSections(pad, buffer, count, tySize))
  {
    var numSect := if |buffer| % tySize == 0 then |buffer| / tySize else |buffer| / tySize + 1;
    QuotientRemainder(tySize, count, 0);
    assert numSect == count;
    if count > 0 {
      MulLe(tySize, count - 1, count);
    }
    value, strsize := TrimString(pad, buffer, numSect, tySize);
    if count > 0 {
      SizesRightExactly(pad, buffer, count, tySize, strsize);
    }
  }

  function OrEmpty(s: Option<string>): string {
    match s case None => "" case Some(t) => t
  }

  function PresentStrings(strings: seq<Option<string>>): seq<string> {
    seq(|strings|, k requires 0 <= k < |strings| => OrEmpty(strings[k]))
  }

  /** The variable-length branch; None stands for NULL. */
  method RetrieveVariableStrings(strings: seq<Option<string>>) returns (value: string, strsize: seq<nat>)
    ensures value == Concat(PresentStrings(strings))
    ensures strsize == Lengths(PresentStrings(strings))
  {
    value, strsize := "", [];
    ghost var parts := PresentStrings(strings);
    for i := 0 to |strings|
      invariant value == Concat(parts[..i]) && strsize == Lengths(parts[..i])
    {
      PackOneMore(parts[..i], parts[i]);
      assert parts[..i + 1] == parts[..i] + [parts[i]];
      if strings[i].Some? {
        value := value + strings[i].value;
        strsize := strsize + [|strings[i].value|];
      } else {
        strsize := strsize + [0];
      }
    }
    assert parts[..|strings|] == parts;
  }

  // ----- writing the DAS

  const NC_JAVA_STR_SIZE_LIMIT := 32767

  predicate KeptVerbatim(name: string) {
    name == "origname" || name == "fullnamepath"
  }

  /** What one string contributes to the DAS: an empty or an over-long one contributes nothing. */
  function Rendered(part: string, name: string, dropLong: bool): seq<string> {
    if part == "" || (dropLong && |part| > NC_JAVA_STR_SIZE_LIMIT) then []
    else [if KeptVerbatim(name) then part else Escape.Subst(Escape.EscapeChar, part)]
  }

  function RenderedAll(parts: seq<string>, name: string, dropLong: bool): seq<string> {
    if parts == [] then []
    else RenderedAll(parts[..|parts| - 1], name, dropLong) + Rendered(parts[|parts| - 1], name, dropLong)
  }

  /** gen_dap_str_attr: the values appended to the attribute table. */
  method GenDapStrAttr(value: string, strsize: seq<nat>, name: string, dropLong: bool) returns (out: seq<string>)
    requires Sum(strsize) == |value|
    ensures out == RenderedAll(Slices(value, strsize), name, dropLong)
  {
    hide Slices, RenderedAll, Sum;
    out := [];
    var pos: nat := 0;
    NothingSliced(value, strsize, name, dropLong);
    for loc := 0 to |strsize|
      invariant pos == Sum(strsize[..loc]) <= |value|
      invariant out == RenderedAll(Slices(value[..pos], strsize[..loc]), name, dropLong)
    {
      SumOfPrefix(strsize, loc + 1);
      SliceOneMore(value, strsize, loc, pos);
      ghost var piece := value[pos..pos + strsize[loc]];
      RenderOneMore(Slices(value[..pos], strsize[..loc]), piece, name, dropLong);
      if strsize[loc] != 0 {
        var temp := value[pos..pos + strsize[loc]];
        pos := pos + strsize[loc];
        if !dropLong || |temp| <= NC_JAVA_STR_SIZE_LIMIT {
          if name != "origname" && name != "fullnamepath" {
            temp := Escape.Escattr(temp);
          }
          out := out + [temp];
        }
      }
    }
    assert strsize[..|strsize|] == strsize && value[..pos] == value;
  }

  lemma NothingSliced(value: string, strsize: seq<nat>, name: string, dropLong: bool)
    ensures Sum(strsize[..0]) == 0 && Slices(value[..0], strsize[..0]) == []
    ensures RenderedAll([], name, dropLong) == []
  {}

  lemma SliceOneMore(value: string, strsize: seq<nat>, loc: nat, pos: nat)
    requires loc < |strsize| && pos == Sum(strsize[..loc])
    requires Sum(strsize[..loc + 1]) <= |value|
    ensures Sum(strsize[..loc + 1]) == pos + strsize[loc]
    ensures Slices(value[..pos + strsize[loc]], strsize[..loc + 1]) ==
            Slices(value[..pos], strsize[..loc]) + [value[pos..pos + strsize[loc]]]
  {
    assert strsize[..loc + 1][..loc] == strsize[..loc];
    var whole := value[..pos + strsize[loc]];
    assert whole[..pos] == value[..pos] && whole[pos..] == value[pos..pos + strsize[loc]];
  }

  lemma RenderOneMore(parts: seq<string>, part: string, name: string, dropLong: bool)
    ensures RenderedAll(parts + [part], name, dropLong) ==
            RenderedAll(parts, name, dropLong) + Rendered(part, name, dropLong)
  {}

  /** What is rendered: the strings one after the other, without empty and, if so asked, over-long ones. */
  lemma RenderedIs(parts: seq<string>, part: string, name: string, dropLong: bool)
    ensures RenderedAll([], name, dropLong) == []
    ensures RenderedAll(parts + [part], name, dropLong) ==
            RenderedAll(parts, name, dropLong) +
            (if part == "" || (dropLong && |part| > 32767) then []
             else if name == "origname" || name == "fullnamepath" then [part]
             else [Escape.Subst(Escape.EscapeChar, part)])
  {}

  /** From the HDF5 buffer to the DAS: the trimmed strings, none shifted, none merged. */
  method FixedStringsToDas(pad: Padding, buffer: string, count: nat, tySize: nat, name: string, dropLong: bool)
    returns (out: seq<string>)
    requires tySize > 0 && |buffer| == count * tySize
    ensures count > 0 ==> (count - 1) * tySize <= |buffer|
    ensures out == RenderedAll(TrimmedSections(pad, buffer, count, tySize), name, dropLong)
    ensures pad.NullTerm? ==> out == RenderedAll(UnpaddedSections(pad, buffer, count, tySize), name, dropLong)
    ensures pad.NullPad? ==>
      (TrimmedSections(pad, buffer, count, tySize) == UnpaddedSections(pad, buffer, count, tySize) <==>
       forall k :: 0 <= k < count ==> NothingToStrip(SectionAt(buffer, k, count, tySize)))
    ensures pad.NullTerm? ==> forall strings: seq<string>, packed: seq<string>
      {:trigger RenderedAll(strings, name, dropLong), Concat(packed)} |
      && |strings| == |packed| == count && buffer == Concat(packed)
      && (forall k :: 0 <= k < count ==> strings[k] <= packed[k] && |packed[k]| == tySize && '\0' !in strings[k])
      && (forall k, j :: 0 <= k < count && |strings[k]| <= j < |packed[k]| ==> packed[k][j] == '\0') ::
      out == RenderedAll(strings, name, dropLong)
    ensures pad.SpacePad? ==> forall strings: seq<string>, packed: seq<string>
      {:trigger RenderedAll(strings, name, dropLong), Concat(packed)} |
      && |strings| == |packed| == count && buffer == Concat(packed)
      && (forall k :: 0 <= k < count ==> |strings[k]| > 0 && strings[k][..|strings[k]| - 1] <= packed[k])
      && (forall k :: 0 <= k < count ==> |packed[k]| == tySize && strings[k][|strings[k]| - 1] == ' ')
      && (forall k :: 0 <= k < count && |strings[k]| > 1 ==> strings[k][|strings[k]| - 2] != ' ')
      && (forall k, j :: 0 <= k < count && |strings[k]| - 1 <= j < |packed[k]| ==> packed[k][j] == ' ') ::
      out == RenderedAll(strings, name, dropLong)
  {
    hide NothingToStrip, SectionAt, Concat, RenderedAll, TrimmedSections, UnpaddedSections;
    var value, strsize := RetrieveFixedStrings(pad, buffer, count, tySize);
    SlicesOfConcat(TrimmedSections(pad, buffer, count, tySize));
    TrimmedSectionsExactly(pad, buffer, count, tySize);
    forall strings: seq<string>, packed: seq<string>
      {:trigger RenderedAll(strings, name, dropLong), Concat(packed)} |
      && pad.NullTerm? && |strings| == |packed| == count && buffer == Concat(packed)
      && (forall k :: 0 <= k < count ==> strings[k] <= packed[k] && |packed[k]| == tySize && '\0' !in strings[k])
      && (forall k, j :: 0 <= k < count && |strings[k]| <= j < |packed[k]| ==> packed[k][j] == '\0')
      ensures RenderedAll(TrimmedSections(pad, buffer, count, tySize), name, dropLong) ==
              RenderedAll(strings, name, dropLong)
    {
      NullTermComesBack(strings, packed, tySize);
    }
    forall strings: seq<string>, packed: seq<string>
      {:trigger RenderedAll(strings, name, dropLong), Concat(packed)} |
      && pad.SpacePad? && |strings| == |packed| == count && buffer == Concat(packed)
      && (forall k :: 0 <= k < count ==> |strings[k]| > 0 && strings[k][..|strings[k]| - 1] <= packed[k])
      && (forall k :: 0 <= k < count ==> |packed[k]| == tySize && strings[k][|strings[k]| - 1] == ' ')
      && (forall k :: 0 <= k < count && |strings[k]| > 1 ==> strings[k][|strings[k]| - 2] != ' ')
      && (forall k, j :: 0 <= k < count && |strings[k]| - 1 <= j < |packed[k]| ==> packed[k][j] == ' ')
      ensures RenderedAll(TrimmedSections(pad, buffer, count, tySize), name, dropLong) ==
              RenderedAll(strings, name, dropLong)
    {
      SpacePadComesBack(strings, packed, tySize);
    }
    out := GenDapStrAttr(value, strsize, name, dropLong);
  }

  method VariableStringsToDas(strings: seq<Option<string>>, name: string, dropLong: bool) returns (out: seq<string>)
    ensures out == RenderedAll(PresentStrings(strings), name, dropLong)
    ensures forall parts: seq<string> |
      && |parts| == |strings|
      && forall k :: 0 <= k < |strings| ==> parts[k] == if strings[k].None? then "" else strings[k].value ::
      out == RenderedAll(parts, name, dropLong)
  {
    forall parts: seq<string> |
      && |parts| == |strings|
      && forall k :: 0 <= k < |strings| ==> parts[k] == if strings[k].None? then "" else strings[k].value
      ensures parts == PresentStrings(strings)
    {
    }
    var value, strsize := RetrieveVariableStrings(strings);
    SlicesOfConcat(PresentStrings(strings));
    out := GenDapStrAttr(value, strsize, name, dropLong);
  }

  /** The strings that are to be seen in the DAS: neither empty nor dropped for their length. */
  function Shown(parts: seq<string>, dropLong: bool): seq<string> {
    if parts == [] then []
    else
      var n := |parts| - 1;
      if parts[n] == "" || (dropLong && |parts[n]| > NC_JAVA_STR_SIZE_LIMIT) then Shown(parts[..n], dropLong)
      else Shown(parts[..n], dropLong) + [parts[n]]
  }

  lemma ShownIs(parts: seq<string>, part: string, dropLong: bool)
    ensures Shown([], dropLong) == []
    ensures Shown(parts + [part], dropLong) ==
            Shown(parts, dropLong) + (if part == "" || (dropLong && |part| > 32767) then [] else [part])
  {}

  /** A reader of the DAS gets back exactly these strings. */
  lemma {:induction false} RenderedDecodes(parts: seq<string>, name: string, dropLong: bool)
    requires forall k :: 0 <= k < |parts| ==> Escape.ByteString(parts[k])
    ensures var out, shown := RenderedAll(parts, name, dropLong), Shown(parts, dropLong);
            && |out| == |shown|
            && forall i :: 0 <= i < |out| ==>
                 if KeptVerbatim(name) then out[i] == shown[i] else Escape.Unescape(out[i]) == Some(shown[i])
  {
    if parts != [] {
      var n := |parts| - 1;
      RenderedDecodes(parts[..n], name, dropLong);
      Escape.UnescapeEscape(parts[n]);
    }
  }

  lemma {:induction false} ShownMembers(parts: seq<string>)
    ensures forall x :: x in Shown(parts, false) ==> x in parts && x != ""
  {
    if parts != [] {
      ShownMembers(parts[..|parts| - 1]);
    }
  }

  lemma {:induction false} StrippedEnd(s: string, c: char)
    ensures StripTrailing(s, c) == "" || StripTrailing(s, c)[|StripTrailing(s, c)| - 1] != c
  {
    if s != "" && s[|s| - 1] == c {
      StrippedEnd(s[..|s| - 1], c);
    }
  }

  lemma ShownSnoc(parts: seq<string>, part: string)
    ensures Shown(parts + [part], false) == if part == "" then Shown(parts, false) else Shown(parts, false) + [part]
  {
    assert (parts + [part])[..|parts|] == parts;
  }

  ghost predicate NoneEndsWith(parts: seq<string>, c: char) {
    forall x :: x in parts && x != "" ==> x[|x| - 1] != c
  }

  /** The last string shown is not empty and does not end with c. */
  lemma LastShown(parts: seq<string>, c: char, x: string)
    requires NoneEndsWith(parts, c) && Shown(parts, false) != []
    requires x == Shown(parts, false)[|Shown(parts, false)| - 1]
    ensures x != "" && x[|x| - 1] != c
  {
    ShownMembers(parts);
  }

  lemma SameLast(kept: seq<string>, k: string, meant: seq<string>, m: string)
    requires Shown(kept + [k], false) == Shown(meant + [m], false)
    requires NoneEndsWith(kept, '0') && NoneEndsWith(meant, '\0')
    requires k == "" && m != "" ==> m[|m| - 1] == '0'
    requires m == "" && k != "" ==> k[|k| - 1] == '\0'
    ensures (k == "" <==> m == "") && Shown(kept, false) == Shown(meant, false)
    ensures k == m
  {
    hide Shown, NoneEndsWith;
    ShownSnoc(kept, k);
    ShownSnoc(meant, m);
    var x, y := Shown(kept, false), Shown(meant, false);
    if k == "" && m != "" {
      assert x[|x| - 1] == m;
      LastShown(kept, '0', m);
    } else if k != "" && m == "" {
      assert y[|y| - 1] == k;
      LastShown(meant, '\0', k);
    } else if k != "" {
      SnocInjective(x, k, y, m);
    }
  }

  lemma SnocInjective<T>(s: seq<T>, a: T, t: seq<T>, b: T)
    requires s + [a] == t + [b]
    ensures s == t && a == b
  {
    assert (s + [a])[|s|] == a && (t + [b])[|t|] == b;
    assert (s + [a])[..|s|] == s && (t + [b])[..|t|] == t;
  }

  /** What reaches the DAS cannot agree by accident: the texts agree section by section. */
  lemma {:induction false} ShownSame(sections: seq<string>, kept: seq<string>, meant: seq<string>)
    requires |kept| == |sections| == |meant|
    requires forall k :: 0 <= k < |kept| ==> kept[k] == StripTrailing(sections[k], '0')
    requires forall k :: 0 <= k < |kept| ==> meant[k] == StripTrailing(sections[k], '\0')
    requires Shown(kept, false) == Shown(meant, false)
    ensures kept == meant
  {
    hide StripTrailing, Shown;
    if kept != [] {
      var n := |kept| - 1;
      NoneStrippedEndsWith(sections[..n], kept[..n], '0');
      NoneStrippedEndsWith(sections[..n], meant[..n], '\0');
      LastStripped(sections[n]);
      assert kept == kept[..n] + [kept[n]] && meant == meant[..n] + [meant[n]];
      SameLast(kept[..n], kept[n], meant[..n], meant[n]);
      ShownSame(sections[..n], kept[..n], meant[..n]);
    }
  }

  lemma NoneStrippedEndsWith(sections: seq<string>, parts: seq<string>, c: char)
    requires |parts| == |sections|
    requires forall k :: 0 <= k < |parts| ==> parts[k] == StripTrailing(sections[k], c)
    ensures NoneEndsWith(parts, c)
  {
    forall k | 0 <= k < |parts| ensures parts[k] != "" ==> parts[k][|parts[k]| - 1] != c {
      StrippedEnd(sections[k], c);
    }
  }

  /** A text that one rule strips to nothing is left alone by the other. */
  lemma LastStripped(s: string)
    ensures var k, m := StripTrailing(s, '0'), StripTrailing(s, '\0');
            && (k == "" && m != "" ==> m[|m| - 1] == '0')
            && (m == "" && k != "" ==> k[|k| - 1] == '\0')
  {}

  /** Null-padded text reaches the DAS as meant exactly when no section has anything to strip. */
  lemma NullPadReachesDasExactly(buffer: string, count: nat, tySize: nat, name: string)
    requires tySize > 0 && |buffer| == count * tySize && Escape.ByteString(buffer)
    ensures count > 0 ==> (count - 1) * tySize <= |buffer|
    ensures RenderedAll(TrimmedSections(NullPad, buffer, count, tySize), name, false) ==
            RenderedAll(UnpaddedSections(NullPad, buffer, count, tySize), name, false) <==>
            forall k :: 0 <= k < count ==> NothingToStrip(SectionAt(buffer, k, count, tySize))
  {
    hide NothingToStrip, SectionAt;
    if count > 0 {
      MulLe(tySize, count - 1, count);
    }
    var kept := TrimmedSections(NullPad, buffer, count, tySize);
    var meant := UnpaddedSections(NullPad, buffer, count, tySize);
    TrimmedSectionsExactly(NullPad, buffer, count, tySize);
    if RenderedAll(kept, name, false) == RenderedAll(meant, name, false) {
      var sections := seq(count, k requires 0 <= k < count => SectionAt(buffer, k, count, tySize));
      forall k: nat | k < count ensures Escape.ByteString(kept[k]) && Escape.ByteString(meant[k]) {
        SectionIsBytes(buffer, k, count, tySize);
        StripTrailingCuts(sections[k], '0');
        StripTrailingCuts(sections[k], '\0');
      }
      SameRendering(kept, meant, name);
      ShownSame(sections, kept, meant);
    }
  }

  lemma SectionIsBytes(s: string, k: nat, numSect: nat, sectSize: nat)
    requires k < numSect && (numSect - 1) * sectSize <= |s| && Escape.ByteString(s)
    ensures Escape.ByteString(SectionAt(s, k, numSect, sectSize))
  {
    SectionBounds(k, numSect, sectSize);
  }

  /** Equal attribute values come from equal texts. */
  lemma SameRendering(a: seq<string>, b: seq<string>, name: string)
    requires forall k :: 0 <= k < |a| ==> Escape.ByteString(a[k])
    requires forall k :: 0 <= k < |b| ==> Escape.ByteString(b[k])
    requires RenderedAll(a, name, false) == RenderedAll(b, name, false)
    ensures Shown(a, false) == Shown(b, false)
  {
    hide RenderedAll, Shown, Escape.Unescape, Escape.ByteString;
    RenderedDecodes(a, name, false);
    RenderedDecodes(b, name, false);
  }
}
