/**
 * The few Python string operations the renamer relies on, written out over
 * `seq<char>`: `str.isspace`, `strip`, single-character `replace`, `split`
 * on one character, `replace("  ", " ")`, substring search and `str(int)`.
 */
module Text {
  import opened Types

  /** Python's `str.isspace` for one character (also what `\s` matches). */
  predicate IsSpace(c: char) {
    c == ' ' || ('\t' <= c <= '\r') || ('\U{1C}' <= c <= '\U{1F}') ||
    c == '\U{85}' || c == '\U{A0}' || c == '\U{1680}' || ('\U{2000}' <= c <= '\U{200A}') ||
    c == '\U{2028}' || c == '\U{2029}' || c == '\U{202F}' || c == '\U{205F}' || c == '\U{3000}'
  }

  /** `\d`, restricted to the ASCII digits. */
  predicate IsDigit(c: char) {
    '0' <= c <= '9'
  }

  /** `\w`, restricted to ASCII letters, digits and the underscore. */
  predicate IsWordChar(c: char) {
    ('a' <= c <= 'z') || ('A' <= c <= 'Z') || IsDigit(c) || c == '_'
  }

  predicate IsNotSpaceChar(c: char) {
    c != ' '
  }

  /** `s.strip() == ""` */
  predicate IsBlank(s: string) {
    forall i :: 0 <= i < |s| ==> IsSpace(s[i])
  }

  predicate AllWordChars(s: string) {
    forall i :: 0 <= i < |s| ==> IsWordChar(s[i])
  }

  predicate AllDigits(s: string) {
    forall i :: 0 <= i < |s| ==> IsDigit(s[i])
  }

  // ---------------------------------------------------------------- strip

  /** Where the text of `s` starts once the whitespace from `i` on is skipped (`lstrip`). */
  function TextStart(s: string, i: nat): (a: nat)
    requires i <= |s|
    ensures i <= a <= |s|
    ensures forall k :: i <= k < a ==> IsSpace(s[k])
    ensures a < |s| ==> !IsSpace(s[a])
    decreases |s| - i
  {
    if i < |s| && IsSpace(s[i]) then TextStart(s, i + 1) else i
  }

  /** Where the text of `s[a..b]` ends once its trailing whitespace is dropped (`rstrip`). */
  function TextEnd(s: string, a: nat, b: nat): (e: nat)
    requires a <= b <= |s|
    ensures a <= e <= b
    ensures forall k :: e <= k < b ==> IsSpace(s[k])
    ensures e > a ==> !IsSpace(s[e - 1])
    decreases b - a
  {
    if b > a && IsSpace(s[b - 1]) then TextEnd(s, a, b - 1) else b
  }

  /**
   * `s.strip()`: the slice of `s` between its leading and its trailing
   * whitespace; empty exactly when `s` is blank.
   */
  function Strip(s: string): (r: string)
    ensures StripResult(s, r)
    ensures r == [] <==> IsBlank(s)
    ensures r != [] ==> !IsSpace(r[0]) && !IsSpace(r[|r| - 1])
  {
    var a := TextStart(s, 0);
    var e := TextEnd(s, a, |s|);
    assert e > a ==> !IsBlank(s);
    s[a..e]
  }

  /**
   * `r` is `s` with its leading and trailing whitespace removed: a slice of
   * `s` that starts after `a` leading spaces, everything outside it blank.
   */
  ghost predicate StripResult(s: string, r: string) {
    var a := TextStart(s, 0);
    a + |r| <= |s| && r == s[a..a + |r|] &&
    (forall i :: 0 <= i < a ==> IsSpace(s[i])) &&
    (forall i :: a + |r| <= i < |s| ==> IsSpace(s[i]))
  }

  // ------------------------------------------------------- replace, filter

  /** `s.replace(a, b)` for single characters. */
  function ReplaceChar(s: string, a: char, b: char): string {
    seq(|s|, i requires 0 <= i < |s| => if s[i] == a then b else s[i])
  }

  /** The characters of `s` that `keep` accepts, in order. */
  function Filter(keep: char -> bool, s: string): (r: string)
    ensures |r| <= |s|
    ensures forall i :: 0 <= i < |r| ==> keep(r[i])
  {
    if s == [] then [] else (if keep(s[0]) then [s[0]] else []) + Filter(keep, s[1..])
  }

  lemma {:induction false} FilterAppend(keep: char -> bool, a: string, b: string)
    ensures Filter(keep, a + b) == Filter(keep, a) + Filter(keep, b)
  {
    if a != [] {
      assert (a + b)[1..] == a[1..] + b;
      FilterAppend(keep, a[1..], b);
    } else {
      assert a + b == b;
    }
  }

  lemma {:induction false} FilterKeepsAll(keep: char -> bool, s: string)
    requires forall i :: 0 <= i < |s| ==> keep(s[i])
    ensures Filter(keep, s) == s
  {
    if s != [] {
      FilterKeepsAll(keep, s[1..]);
    }
  }

  // --------------------------------------------------- substring search

  /** `pat` occurs in `s` starting at index `i`. */
  predicate OccursAt(s: string, pat: string, i: nat) {
    i + |pat| <= |s| && s[i..i + |pat|] == pat
  }

  ghost predicate Contains(s: string, pat: string) {
    exists i: nat :: OccursAt(s, pat, i)
  }

  /** `s.find(pat, from)` as an option: the first occurrence at or after `from`. */
  function IndexOf(s: string, pat: string, from: nat): (r: Option<nat>)
    ensures r.Some? ==> from <= r.value && OccursAt(s, pat, r.value)
    ensures r.Some? ==> forall k: nat :: from <= k < r.value ==> !OccursAt(s, pat, k)
    ensures r.None? ==> forall k: nat :: from <= k ==> !OccursAt(s, pat, k)
    decreases |s| - from
  {
    if from + |pat| > |s| then None
    else if OccursAt(s, pat, from) then Some(from)
    else IndexOf(s, pat, from + 1)
  }

  lemma OccursAtChar(s: string, c: char, k: nat)
    ensures OccursAt(s, [c], k) <==> k < |s| && s[k] == c
  {
    if k < |s| && s[k] == c {
      assert s[k..k + 1] == [c];
    }
  }

  lemma NoCharOccurrence(s: string, c: char)
    requires forall k: nat :: !OccursAt(s, [c], k)
    ensures c !in s
  {
    if c in s {
      var k :| 0 <= k < |s| && s[k] == c;
      OccursAtChar(s, c, k);
    }
  }

  /** `s.split(pat)[0]`: everything before the first occurrence of `pat`. */
  function BeforeFirst(s: string, pat: string): (r: string)
    ensures |r| <= |s| && r == s[..|r|]
    ensures |r| == |s| || OccursAt(s, pat, |r|)
    ensures forall k: nat :: k < |r| ==> !OccursAt(s, pat, k)
    ensures |pat| > 0 ==> !Contains(r, pat)
  {
    match IndexOf(s, pat, 0)
    case None =>
      s
    case Some(i) =>
      var r := s[..i];
      assert forall k: nat :: OccursAt(r, pat, k) ==> OccursAt(s, pat, k) by {
        forall k: nat | OccursAt(r, pat, k) ensures OccursAt(s, pat, k) {
          assert s[k..k + |pat|] == r[k..k + |pat|];
        }
      }
      r
  }

  /** An occurrence inside a slice is an occurrence in the whole string. */
  lemma OccursInSlice(s: string, a: nat, b: nat, pat: string, k: nat)
    requires a <= b <= |s|
    requires OccursAt(s[a..b], pat, k)
    ensures OccursAt(s, pat, a + k)
  {
    forall j | 0 <= j < |pat| ensures s[a + k + j] == pat[j] {
      assert s[a..b][k..k + |pat|][j] == pat[j];
    }
    assert s[a + k..a + k + |pat|] == pat;
  }

  /** Replacing a character by one that `pat` does not use cannot create `pat`. */
  lemma OccursAfterReplace(s: string, a: char, b: char, pat: string, k: nat)
    requires b !in pat
    requires OccursAt(ReplaceChar(s, a, b), pat, k)
    ensures OccursAt(s, pat, k)
  {
    var r := ReplaceChar(s, a, b);
    forall j | 0 <= j < |pat| ensures s[k + j] == pat[j] {
      assert r[k..k + |pat|][j] == r[k + j];
    }
    assert s[k..k + |pat|] == pat;
  }

  // -------------------------------------------------------------- split

  /** `s.split(sep)` for a one-character separator; never an empty list. */
  function Split(s: string, sep: char): (pieces: seq<string>)
    ensures |pieces| > 0
    ensures forall i :: 0 <= i < |pieces| ==> sep !in pieces[i]
    decreases |s|
  {
    match IndexOf(s, [sep], 0)
    case None =>
      NoCharOccurrence(s, sep);
      [s]
    case Some(i) =>
      assert forall k: nat :: 0 <= k < i ==> !OccursAt(s[..i], [sep], k) by {
        forall k: nat | 0 <= k < i ensures !OccursAt(s[..i], [sep], k) {
          OccursAtChar(s, sep, k);
          OccursAtChar(s[..i], sep, k);
        }
      }
      assert forall k: nat :: i <= k ==> !OccursAt(s[..i], [sep], k);
      NoCharOccurrence(s[..i], sep);
      [s[..i]] + Split(s[i + 1..], sep)
  }

  /** `sep.join(pieces)` */
  function Join(pieces: seq<string>, sep: char): string {
    if |pieces| == 0 then []
    else if |pieces| == 1 then pieces[0]
    else pieces[0] + [sep] + Join(pieces[1..], sep)
  }

  /** Splitting loses nothing: joining the pieces back gives the text. */
  lemma {:induction false} JoinSplit(s: string, sep: char)
    ensures Join(Split(s, sep), sep) == s
    decreases |s|
  {
    match IndexOf(s, [sep], 0)
    case None =>
    case Some(i) =>
      OccursAtChar(s, sep, i);
      var rest := Split(s[i + 1..], sep);
      assert Split(s, sep) == [s[..i]] + rest;
      JoinSplit(s[i + 1..], sep);
      assert s == s[..i] + [sep] + s[i + 1..];
  }

  /** Where the text after the last `sep` before `e` starts (0 when there is none). */
  function AfterLastStart(s: string, sep: char, e: nat): (a: nat)
    requires e <= |s|
    ensures a <= e
    ensures forall k :: a <= k < e ==> s[k] != sep
    ensures a > 0 ==> s[a - 1] == sep
    decreases e
  {
    if e == 0 then 0 else if s[e - 1] == sep then e else AfterLastStart(s, sep, e - 1)
  }

  /** The text after the last `sep` (all of `s` when there is none). */
  function AfterLast(s: string, sep: char): (r: string)
    ensures |r| <= |s| && r == s[|s| - |r|..]
    ensures sep !in r
    ensures |r| < |s| ==> s[|s| - |r| - 1] == sep
  {
    s[AfterLastStart(s, sep, |s|)..]
  }

  /** A suffix free of `sep` that starts the string or follows a `sep` is the text after the last `sep`. */
  lemma AfterLastUnique(s: string, sep: char, r: string)
    requires |r| <= |s| && r == s[|s| - |r|..] && sep !in r
    requires |r| < |s| ==> s[|s| - |r| - 1] == sep
    ensures r == AfterLast(s, sep)
  {
  }

  /** The last piece of `s.split(sep)` is the text after the last `sep`. */
  lemma {:induction false} LastPieceOfSplit(s: string, sep: char)
    ensures var pieces := Split(s, sep); pieces[|pieces| - 1] == AfterLast(s, sep)
    decreases |s|
  {
    var first := IndexOf(s, [sep], 0);
    if first.None? {
      SplitWhole(s, sep);
    } else {
      var i := first.value;
      var tail := s[i + 1..];
      SplitStep(s, sep, i);
      var rest := Split(tail, sep);
      var last := AfterLast(tail, sep);
      LastPieceOfSplit(tail, sep);
      AfterLastOfTail(s, sep, i);
    }
  }

  /** Without a separator the split is the whole text, which is also the text after the last separator. */
  lemma SplitWhole(s: string, sep: char)
    requires IndexOf(s, [sep], 0).None?
    ensures Split(s, sep) == [s] && sep !in s && AfterLast(s, sep) == s
  {
    NoCharOccurrence(s, sep);
    AfterLastUnique(s, sep, s);
  }

  /** With its first separator at `i`, the split is the text before it, then the split of the rest. */
  lemma SplitStep(s: string, sep: char, i: nat)
    requires IndexOf(s, [sep], 0) == Some(i)
    ensures i < |s| && s[i] == sep
    ensures Split(s, sep) == [s[..i]] + Split(s[i + 1..], sep)
  {
    OccursAtChar(s, sep, i);
  }

  /** The text after the last `sep` of what follows a `sep` at `i` is the text after the last `sep` of all of `s`. */
  lemma AfterLastOfTail(s: string, sep: char, i: nat)
    requires i < |s| && s[i] == sep
    ensures AfterLast(s[i + 1..], sep) == AfterLast(s, sep)
  {
    var tail := s[i + 1..];
    var r := AfterLast(tail, sep);
    var n := |s| - |r|;
    assert i + 1 <= n;
    assert r == s[n..] by {
      assert tail[|tail| - |r|..] == s[n..];
    }
    assert s[n - 1] == sep by {
      if n - 1 > i {
        assert tail[|tail| - |r| - 1] == s[n - 1];
      }
    }
    AfterLastUnique(s, sep, r);
  }

  // ----------------------------------------------------- double spaces

  /** `s.replace("  ", " ")`: one left-to-right pass over non-overlapping pairs. */
  function CollapseDoubleSpaces(s: string): (r: string)
    ensures |r| <= |s|
    decreases |s|
  {
    if |s| >= 2 && s[0] == ' ' && s[1] == ' ' then " " + CollapseDoubleSpaces(s[2..])
    else if s == [] then []
    else [s[0]] + CollapseDoubleSpaces(s[1..])
  }

  /** Text with no two adjacent spaces passes through unchanged. */
  lemma {:induction false} CollapseKeepsSingleSpaces(s: string)
    requires forall i :: 0 <= i < |s| - 1 ==> !(s[i] == ' ' && s[i + 1] == ' ')
    ensures CollapseDoubleSpaces(s) == s
    decreases |s|
  {
    if s != [] {
      CollapseKeepsSingleSpaces(s[1..]);
    }
  }

  /** Every space doubled. */
  function DoubleSpaces(s: string): string {
    if s == [] then []
    else (if s[0] == ' ' then "  " else [s[0]]) + DoubleSpaces(s[1..])
  }

  /** Collapsing undoes doubling every space. */
  lemma {:induction false} CollapseUndoesDoubling(s: string)
    ensures CollapseDoubleSpaces(DoubleSpaces(s)) == s
  {
    if s != [] {
      CollapseUndoesDoubling(s[1..]);
      var d := DoubleSpaces(s[1..]);
      if s[0] == ' ' {
        assert DoubleSpaces(s) == "  " + d;
        assert ("  " + d)[2..] == d;
      } else {
        assert DoubleSpaces(s) == [s[0]] + d;
        assert ([s[0]] + d)[1..] == d;
      }
    }
  }

  /** Collapsing only removes spaces: all other characters keep their order. */
  lemma {:induction false} CollapseKeepsOtherChars(s: string)
    ensures Filter(IsNotSpaceChar, CollapseDoubleSpaces(s)) == Filter(IsNotSpaceChar, s)
    decreases |s|
  {
    if |s| >= 2 && s[0] == ' ' && s[1] == ' ' {
      var c := CollapseDoubleSpaces(s[2..]);
      CollapseKeepsOtherChars(s[2..]);
      assert CollapseDoubleSpaces(s) == " " + c;
      assert Filter(IsNotSpaceChar, " " + c) == Filter(IsNotSpaceChar, c) by {
        assert (" " + c)[1..] == c;
      }
      assert Filter(IsNotSpaceChar, s) == Filter(IsNotSpaceChar, s[1..]);
      assert Filter(IsNotSpaceChar, s[1..]) == Filter(IsNotSpaceChar, s[2..]) by {
        assert s[1..][1..] == s[2..];
      }
    } else if s != [] {
      var c := CollapseDoubleSpaces(s[1..]);
      CollapseKeepsOtherChars(s[1..]);
      assert CollapseDoubleSpaces(s) == [s[0]] + c;
      assert ([s[0]] + c)[1..] == c;
    }
  }

  // ----------------------------------------------------------- str(int)

  function DigitChar(d: nat): (c: char)
    requires d < 10
    ensures IsDigit(c)
  {
    ('0' as int + d) as char
  }

  /** `str(n)` for a non-negative integer: decimal digits, no leading zero. */
  function NatToString(n: nat): (r: string)
    ensures |r| > 0 && AllDigits(r)
    ensures (n < 10) <==> (|r| == 1)
  {
    if n < 10 then [DigitChar(n)] else NatToString(n / 10) + [DigitChar(n % 10)]
  }

  /** The number a run of decimal digits spells. */
  function DecimalValue(s: string): nat
    requires AllDigits(s)
  {
    if s == [] then 0 else 10 * DecimalValue(s[..|s| - 1]) + (s[|s| - 1] as int - '0' as int)
  }

  /** Reading the rendering back gives the number: `int(str(n)) == n`. */
  lemma {:induction false} NatToStringValue(n: nat)
    ensures DecimalValue(NatToString(n)) == n
  {
    if n >= 10 {
      var s := NatToString(n);
      assert s[..|s| - 1] == NatToString(n / 10);
      NatToStringValue(n / 10);
    }
  }

  /** Distinct numbers print differently. */
  lemma {:induction false} NatToStringInjective(a: nat, b: nat)
    requires NatToString(a) == NatToString(b)
    ensures a == b
  {
    var s := NatToString(a);
    if a >= 10 && b >= 10 {
      assert DigitChar(a % 10) == s[|s| - 1] == DigitChar(b % 10);
      assert NatToString(a / 10) == s[..|s| - 1] == NatToString(b / 10);
      NatToStringInjective(a / 10, b / 10);
    }
  }
}
