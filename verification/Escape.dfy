/** HDF5CFDAPUtil::escattr: escaping attribute text for the DAS, and reading it back. */
module Escape {
  import opened Outcome
  import opened Numerals

  /** Text as C++ holds it: one byte per character. */
  ghost predicate ByteString(s: string) {
    forall i :: 0 <= i < |s| ==> s[i] < 256 as char
  }

  /** The characters of the source's list: ASCII from space to tilde, and three controls. */
  predicate Printable(c: char) {
    ' ' <= c <= '~' || c in {'\n', '\t', '\r'}
  }

  /** octstring: at least three octal digits, filled with zeros. */
  function Octstring(val: nat): string {
    var digits := Numeral(val, 8);
    if |digits| < 3 then Fill(3 - |digits|) + digits else digits
  }

  function Fill(n: nat): string {
    if n == 0 then "" else "0" + Fill(n - 1)
  }

  // ----- what each pass does to one character

  function BackslashSub(c: char): string {
    if c == '\\' then "\\\\" else [c]
  }

  function OctalSub(c: char): string {
    if Printable(c) then [c] else "\\" + Octstring(c as nat % 256)
  }

  function QuoteSub(c: char): string {
    if c == '\"' then "\\\"" else [c]
  }

  /** The whole code: a character stands for itself or for an escape sequence. */
  function EscapeChar(c: char): string {
    if c == '\\' then "\\\\"
    else if c == '\"' then "\\\""
    else if Printable(c) then [c]
    else "\\" + Octstring(c as nat % 256)
  }

  function Subst(f: char -> string, s: string): string {
    if s == "" then "" else f(s[0]) + Subst(f, s[1..])
  }

  lemma {:induction false} SubstConcat(f: char -> string, s: string, t: string)
    ensures Subst(f, s + t) == Subst(f, s) + Subst(f, t)
  {
    if s == "" {
      assert s + t == t;
    } else {
      assert (s + t)[1..] == s[1..] + t;
      SubstConcat(f, s[1..], t);
    }
  }

  lemma {:induction false} SubstUnchanged(f: char -> string, s: string)
    requires forall i :: 0 <= i < |s| ==> f(s[i]) == [s[i]]
    ensures Subst(f, s) == s
  {
    if s != "" {
      SubstUnchanged(f, s[1..]);
    }
  }

  /** std::string::find and find_first_not_of; the length of the string stands for npos. */
  function Find(s: string, p: char -> bool, from: nat): (ind: nat)
    requires from <= |s|
    ensures from <= ind <= |s|
    ensures forall k :: from <= k < ind ==> !p(s[k])
    ensures ind < |s| ==> p(s[ind])
    decreases |s| - from
  {
    if from == |s| || p(s[from]) then from else Find(s, p, from + 1)
  }

  /** A pass that has rewritten orig[..done] and sees nothing to rewrite before `ind`. */
  ghost predicate Rewritten(f: char -> string, orig: string, done: nat, s: string, ind: nat) {
    && done <= |orig|
    && s == Subst(f, orig[..done]) + orig[done..]
    && |Subst(f, orig[..done])| <= ind <= |s|
    && forall k :: |Subst(f, orig[..done])| <= k < ind ==> f(s[k]) == [s[k]]
  }

  /** Replacing the character found moves the pass beyond it. */
  lemma RewriteStep(f: char -> string, orig: string, done: nat, s: string, ind: nat) returns (done': nat)
    requires Rewritten(f, orig, done, s, ind) && ind < |s|
    ensures done < done' <= |orig|
    ensures var s' := s[..ind] + f(s[ind]) + s[ind + 1..];
            Rewritten(f, orig, done', s', ind + |f(s[ind])|) && |Subst(f, orig[..done'])| == ind + |f(s[ind])|
  {
    hide Subst;
    var start := |Subst(f, orig[..done])|;
    var found := done + (ind - start);
    done' := found + 1;
    assert s[start..] == orig[done..];
    assert s[ind] == s[start..][ind - start] == orig[found];
    assert s[..ind] == Subst(f, orig[..done]) + orig[done..found];
    assert forall k :: 0 <= k < found - done ==> orig[done..found][k] == s[start + k];
    assert s[ind + 1..] == orig[done'..];
    SubstOnce(f, orig, done, found);
  }

  lemma SubstOnce(f: char -> string, orig: string, done: nat, found: nat)
    requires done <= found < |orig|
    requires forall k :: 0 <= k < |orig[done..found]| ==> f(orig[done..found][k]) == [orig[done..found][k]]
    ensures Subst(f, orig[..found + 1]) == Subst(f, orig[..done]) + orig[done..found] + f(orig[found])
  {
    var skipped := orig[done..found];
    SubstUnchanged(f, skipped);
    assert orig[..found + 1] == orig[..done] + skipped + [orig[found]];
    SubstConcat(f, orig[..done], skipped);
    SubstConcat(f, orig[..done] + skipped, [orig[found]]);
    assert Subst(f, [orig[found]]) == f(orig[found]);
  }

  lemma RewriteEnd(f: char -> string, orig: string, done: nat, s: string)
    requires Rewritten(f, orig, done, s, |s|)
    ensures s == Subst(f, orig)
  {
    hide Subst;
    var rest := orig[done..];
    assert forall k :: 0 <= k < |rest| ==> rest[k] == s[|Subst(f, orig[..done])| + k];
    SubstUnchanged(f, rest);
    SubstConcat(f, orig[..done], rest);
    assert orig == orig[..done] + rest;
  }

  lemma NothingRewritten(f: char -> string, orig: string)
    ensures Rewritten(f, orig, 0, orig, 0)
  {}

  // ----- the three loops, each editing the string in place

  method EscapeBackslashes(orig: string) returns (s: string)
    ensures s == Subst(BackslashSub, orig)
  {
    s := orig;
    ghost var done: nat := 0;
    NothingRewritten(BackslashSub, orig);
    var ind: nat := Find(s, c => c == '\\', 0);
    while ind < |s|
      invariant Rewritten(BackslashSub, orig, done, s, ind)
      invariant ind < |s| ==> s[ind] == '\\'
      decreases |orig| - done
    {
      done := RewriteStep(BackslashSub, orig, done, s, ind);
      s := s[..ind] + "\\\\" + s[ind + 1..];
      ind := ind + 2;
      ind := Find(s, c => c == '\\', ind);
    }
    RewriteEnd(BackslashSub, orig, done, s);
  }

  /** The index is not advanced here: what is written is printable, so the search moves on by itself. */
  method EscapeNonPrintables(orig: string) returns (s: string)
    ensures s == Subst(OctalSub, orig)
  {
    hide Rewritten, Octstring, Subst;
    s := orig;
    ghost var done: nat := 0;
    NothingRewritten(OctalSub, orig);
    var ind: nat := Find(s, c => !Printable(c), 0);
    SkipUnchanged(OctalSub, orig, done, s, 0, ind);
    while ind < |s|
      invariant ind <= |s| && done <= |orig| && Rewritten(OctalSub, orig, done, s, ind)
      invariant ind < |s| ==> !Printable(s[ind])
      decreases |orig| - done
    {
      ghost var before: nat := ind;
      var escape := "\\" + Octstring(s[ind] as nat % 256);
      done := RewriteStep(OctalSub, orig, done, s, ind);
      EscapeIsPrintable(s[ind]);
      s := s[..ind] + escape + s[ind + 1..];
      assert s[before..before + |escape|] == escape;
      ind := Find(s, c => !Printable(c), ind);
      PrintableIsSkipped(s, before, escape, ind);
      SkipUnchanged(OctalSub, orig, done, s, before + |escape|, ind);
    }
    RewriteEnd(OctalSub, orig, done, s);
  }

  lemma EscapeIsPrintable(c: char)
    requires !Printable(c)
    ensures OctalSub(c) == "\\" + Octstring(c as nat % 256)
    ensures forall k :: 0 <= k < |OctalSub(c)| ==> Printable(OctalSub(c)[k])
  {
    OctstringIsPrintable(c as nat % 256);
  }

  lemma PrintableIsSkipped(s: string, before: nat, escape: string, ind: nat)
    requires before + |escape| <= |s| && s[before..before + |escape|] == escape && before <= ind <= |s|
    requires forall k :: 0 <= k < |escape| ==> Printable(escape[k])
    requires ind < |s| ==> !Printable(s[ind])
    ensures before + |escape| <= ind
  {
    forall k | before <= k < before + |escape| ensures Printable(s[k]) {
      assert s[k] == s[before..before + |escape|][k - before];
    }
  }

  /** The search has passed over characters that this pass leaves alone. */
  lemma SkipUnchanged(f: char -> string, orig: string, done: nat, s: string, from: nat, ind: nat)
    requires Rewritten(f, orig, done, s, from) && from <= ind <= |s|
    requires forall k :: from <= k < ind ==> f(s[k]) == [s[k]]
    ensures Rewritten(f, orig, done, s, ind)
  {}

  method EscapeQuotes(orig: string) returns (s: string)
    ensures s == Subst(QuoteSub, orig)
  {
    s := orig;
    ghost var done: nat := 0;
    NothingRewritten(QuoteSub, orig);
    var ind: nat := Find(s, c => c == '\"', 0);
    while ind < |s|
      invariant Rewritten(QuoteSub, orig, done, s, ind)
      invariant ind < |s| ==> s[ind] == '\"'
      decreases |orig| - done
    {
      done := RewriteStep(QuoteSub, orig, done, s, ind);
      s := s[..ind] + "\\\"" + s[ind + 1..];
      ind := ind + 2;
      ind := Find(s, c => c == '\"', ind);
    }
    RewriteEnd(QuoteSub, orig, done, s);
  }

  method Escattr(orig: string) returns (s: string)
    ensures s == Subst(EscapeChar, orig)
    ensures ByteString(orig) ==> Unescape(s) == Some(orig)
  {
    s := EscapeBackslashes(orig);
    s := EscapeNonPrintables(s);
    s := EscapeQuotes(s);
    PassesCompose(orig);
    if ByteString(orig) {
      UnescapeEscape(orig);
    }
  }

  lemma {:induction false} PassesCompose(s: string)
    ensures Subst(QuoteSub, Subst(OctalSub, Subst(BackslashSub, s))) == Subst(EscapeChar, s)
  {
    if s != "" {
      var b := BackslashSub(s[0]);
      PassesCompose(s[1..]);
      SubstConcat(OctalSub, b, Subst(BackslashSub, s[1..]));
      SubstConcat(QuoteSub, Subst(OctalSub, b), Subst(OctalSub, Subst(BackslashSub, s[1..])));
      PassesComposeOnce(s[0]);
    }
  }

  lemma PassesComposeOnce(c: char)
    ensures Subst(QuoteSub, Subst(OctalSub, BackslashSub(c))) == EscapeChar(c)
  {
    if c == '\\' {
      SubstUnchanged(OctalSub, "\\\\");
      SubstUnchanged(QuoteSub, "\\\\");
    } else {
      SubstSingle(OctalSub, c);
      if Printable(c) {
        SubstSingle(QuoteSub, c);
      } else {
        OctstringIsPrintable(c as nat % 256);
        SubstUnchanged(QuoteSub, OctalSub(c));
      }
    }
  }

  lemma SubstSingle(f: char -> string, c: char)
    ensures Subst(f, [c]) == f(c)
  {}

  /** The list of the source, one by one: it is the range from space to tilde and three controls. */
  lemma PrintableIs(c: char)
    ensures Printable(c) <==>
            || c in "ABCDEFGHIJKLMNOPQRSTUVWXYZ" || c in "abcdefghijklmnopqrstuvwxyz" || c in "0123456789"
            || c in " ~`!@#$%^&*()_-+={[}]|\\:;<,>.?/'\"\n\t\r"
  {
    Letters(c);
    assert c in "0123456789" <==> '0' <= c <= '9';
    Punctuation(c);
  }

  lemma Letters(c: char)
    ensures c in "ABCDEFGHIJKLMNOPQRSTUVWXYZ" <==> 'A' <= c <= 'Z'
    ensures c in "abcdefghijklmnopqrstuvwxyz" <==> 'a' <= c <= 'z'
  {}

  lemma Punctuation(c: char)
    ensures c in " ~`!@#$%^&*()_-+={[}]|\\:;<,>.?/'\"\n\t\r" <==>
            || ' ' <= c <= '/' || ':' <= c <= '@' || '[' <= c <= '`' || '{' <= c <= '~'
            || c == '\n' || c == '\t' || c == '\r'
  {}

  /** What stands for one byte: itself, an escaped backslash or quote, or three octal digits. */
  lemma EscapedByte(c: char)
    requires c < 256 as char
    ensures Subst(EscapeChar, [c]) ==
            if c == '\\' then "\\\\"
            else if c == '\"' then "\\\""
            else if Printable(c) then [c]
            else ['\\', "01234567"[c as nat / 64], "01234567"[c as nat / 8 % 8], "01234567"[c as nat % 8]]
  {
    hide Octstring, Subst, Printable, Digit;
    SubstSingle(EscapeChar, c);
    OctstringDigits(c as nat);
    OctalDigitIs(c as nat / 64);
    OctalDigitIs(c as nat / 8 % 8);
    OctalDigitIs(c as nat % 8);
  }

  lemma OctalDigitIs(d: nat)
    requires d < 8
    ensures Digit(d) == "01234567"[d]
  {}

  // ----- the code is uniquely decodable

  lemma OctstringDigits(val: nat)
    requires val < 256
    ensures Octstring(val) == [Digit(val / 64), Digit(val / 8 % 8), Digit(val % 8)]
  {
    if val < 8 {
      assert Fill(2) == "00" by { assert Fill(1) == "0" + Fill(0); }
    } else if val < 64 {
      assert Fill(1) == "0" by { assert Fill(1) == "0" + Fill(0); }
      assert Numeral(val, 8) == Numeral(val / 8, 8) + [Digit(val % 8)];
    } else {
      assert val / 8 / 8 == val / 64;
      assert Numeral(val / 8, 8) == Numeral(val / 64, 8) + [Digit(val / 8 % 8)];
      assert Numeral(val, 8) == Numeral(val / 8, 8) + [Digit(val % 8)];
    }
  }

  lemma OctstringIsPrintable(val: nat)
    requires val < 256
    ensures |Octstring(val)| == 3
    ensures forall i :: 0 <= i < 3 ==> '0' <= Octstring(val)[i] <= '7'
  {
    OctstringDigits(val);
  }

  function OctalValue(c: char): (v: nat)
    requires '0' <= c <= '7'
    ensures v < 8
  {
    (c - '0') as nat
  }

  predicate IsOctal(s: string) {
    |s| >= 3 && '0' <= s[0] <= '7' && '0' <= s[1] <= '7' && '0' <= s[2] <= '7'
  }

  /** A decoder for escaped text; None when the text is not an escaped one. */
  function Unescape(s: string): Option<string>
    decreases |s|
  {
    if s == "" then Some("")
    else if s[0] != '\\' then Prepend([s[0]], Unescape(s[1..]))
    else if |s| >= 2 && (s[1] == '\\' || s[1] == '\"') then Prepend([s[1]], Unescape(s[2..]))
    else if IsOctal(s[1..]) then
      var v := 64 * OctalValue(s[1]) + 8 * OctalValue(s[2]) + OctalValue(s[3]);
      Prepend([v as char], Unescape(s[4..]))
    else None
  }

  function Prepend(s: string, rest: Option<string>): Option<string> {
    match rest
    case None => None
    case Some(t) => Some(s + t)
  }

  lemma {:induction false} UnescapeEscape(s: string)
    requires ByteString(s)
    ensures Unescape(Subst(EscapeChar, s)) == Some(s)
  {
    if s != "" {
      var rest := Subst(EscapeChar, s[1..]);
      UnescapeEscape(s[1..]);
      UnescapeOne(s[0], rest);
      assert [s[0]] + s[1..] == s;
    }
  }

  lemma UnescapeOne(c: char, rest: string)
    requires c < 256 as char
    ensures Unescape(EscapeChar(c) + rest) == Prepend([c], Unescape(rest))
  {
    hide Octstring;
    var s := EscapeChar(c) + rest;
    if c == '\\' || c == '\"' {
      assert s[2..] == rest;
    } else if Printable(c) {
      assert s[1..] == rest;
    } else {
      UnescapeOctal(c, rest);
    }
  }

  lemma UnescapeOctal(c: char, rest: string)
    requires c < 256 as char
    ensures Unescape("\\" + Octstring(c as nat) + rest) == Prepend([c], Unescape(rest))
  {
    var v := c as nat;
    var d0, d1, d2 := Digit(v / 64), Digit(v / 8 % 8), Digit(v % 8);
    OctstringDigits(v);
    hide Octstring, Digit;
    var s := "\\" + [d0, d1, d2] + rest;
    assert s[4..] == rest && s[1..][..3] == [d0, d1, d2];
    assert s[1] == d0 && s[2] == d1 && s[3] == d2;
    OctalDigit(v / 64);
    OctalDigit(v / 8 % 8);
    OctalDigit(v % 8);
    assert 64 * (v / 64) + 8 * (v / 8 % 8) + v % 8 == v;
  }

  lemma OctalDigit(d: nat)
    requires d < 8
    ensures '0' <= Digit(d) <= '7' && OctalValue(Digit(d)) == d
  {}

  /** Different texts are escaped differently. */
  lemma EscapeInjective(s: string, t: string)
    requires ByteString(s) && ByteString(t) && Subst(EscapeChar, s) == Subst(EscapeChar, t)
    ensures s == t
  {
    UnescapeEscape(s);
    UnescapeEscape(t);
  }
}
