/**
 * The three field cleaners: each takes the list of regular-expression
 * matches found for a field and turns the first one into a token that is
 * safe in a file name, or reports the field absent.
 */
module Cleaners {
  import opened Types
  import opened Text

  /**
   * The only way a cleaner fails: `clean_description` ends by calling
   * `.replace` on `None` (an AttributeError) when no description line is left.
   */
  datatype Crash = NoneHasNoReplace

  // ----------------------------------------------------------- clean_field

  /** `"_" * n` */
  function Underscores(n: nat): string {
    seq(n, _ => '_')
  }

  /**
   * `clean_field(field, limit)`: the first match, stripped, spaces turned
   * into `_`; a non-zero `limit` (Python's truthy limit) makes it exactly
   * `limit` long, cut to its first `limit` characters or padded with `_`.
   */
  function CleanField(matches: seq<string>, limit: nat): (r: Option<string>)
    ensures r.None? <==> matches == []
    ensures r.Some? ==> ' ' !in r.value
    ensures r.Some? && limit == 0 ==> r.value == ReplaceChar(Strip(matches[0]), ' ', '_')
    ensures r.Some? && limit > 0 ==> |r.value| == limit
    ensures r.Some? && limit > 0 ==>
      var f := ReplaceChar(Strip(matches[0]), ' ', '_');
      forall i :: 0 <= i < limit ==> r.value[i] == if i < |f| then f[i] else '_'
  {
    if matches == [] then None
    else
      var field := ReplaceChar(Strip(matches[0]), ' ', '_');
      if limit == 0 then Some(field)
      else if |field| >= limit then Some(field[..limit])
      else Some(field + Underscores(limit - |field|))
  }

  // ------------------------------------------------------------ clean_date

  /** What separates the date from the time of day in the page text. */
  const TimeSeparator := " at"

  /** A date line that only repeats its own heading. */
  const DatePlaceholder := "UploadDate"

  /** The first match cut at its first `" at"`, stripped, `/` turned into `_`. */
  function NormalizedDate(raw: string): (d: string)
    ensures '/' !in d
    ensures !Contains(d, TimeSeparator)
    ensures !Contains(raw, TimeSeparator) ==> d == ReplaceChar(Strip(raw), '/', '_')
  {
    var cut := BeforeFirst(raw, TimeSeparator);
    var stripped := Strip(cut);
    var d := ReplaceChar(stripped, '/', '_');
    assert !Contains(d, TimeSeparator) by {
      forall k: nat | OccursAt(d, TimeSeparator, k) ensures false {
        OccursAfterReplace(stripped, '/', '_', TimeSeparator, k);
        var a := TextStart(cut, 0);
        OccursInSlice(cut, a, a + |stripped|, TimeSeparator, k);
      }
    }
    d
  }

  /**
   * `clean_date(date_field)`: `None` without a match; otherwise the
   * normalized date, or the empty-string sentinel when that date reads
   * "UploadDate" once its spaces are removed.
   */
  function CleanDate(matches: seq<string>): (r: Option<string>)
    ensures r.None? <==> matches == []
    ensures r.Some? ==> '/' !in r.value && !Contains(r.value, TimeSeparator)
    ensures r.Some? && Filter(IsNotSpaceChar, NormalizedDate(matches[0])) == DatePlaceholder ==> r.value == ""
    ensures r.Some? && Filter(IsNotSpaceChar, NormalizedDate(matches[0])) != DatePlaceholder ==>
      r.value == NormalizedDate(matches[0])
  {
    if matches == [] then None
    else
      var date := NormalizedDate(matches[0]);
      if Filter(IsNotSpaceChar, date) == DatePlaceholder then Some("") else Some(date)
  }

  /** Whatever follows the first `" at"` (the time of day) does not reach the result. */
  lemma CleanDateDropsTime(date: string, rest: string)
    requires !Contains(date, TimeSeparator)
    ensures CleanDate([date + TimeSeparator + rest]) == CleanDate([date])
  {
    var s := date + TimeSeparator + rest;
    assert OccursAt(s, TimeSeparator, |date|) by {
      assert s[|date|..|date| + 3] == TimeSeparator;
    }
    forall k: nat | k < |date| ensures !OccursAt(s, TimeSeparator, k) {
      if k + 3 <= |date| {
        assert date[k..k + 3] == s[k..k + 3];
        assert !OccursAt(date, TimeSeparator, k);
      } else {
        // the occurrence would have to run into the separator's own space
        var j := |date| - k;
        assert s[k + j] == ' ' && TimeSeparator[j] != ' ';
        assert k + 3 <= |s| ==> s[k..k + 3][j] == s[k + j];
      }
    }
    assert IndexOf(s, TimeSeparator, 0) == Some(|date|);
    assert BeforeFirst(s, TimeSeparator) == date;
    assert IndexOf(date, TimeSeparator, 0).None?;
  }

  // ----------------------------------------------------- clean_description

  /** `s.replace(" ", "-").replace("_", "-")` */
  function Hyphenate(s: string): (r: string)
    ensures |r| == |s| && ' ' !in r && '_' !in r
    ensures forall i :: 0 <= i < |s| ==> r[i] == if s[i] == ' ' || s[i] == '_' then '-' else s[i]
  {
    ReplaceChar(ReplaceChar(s, ' ', '-'), '_', '-')
  }

  /** `[line for line in lines if line.strip()]` */
  function NonBlankLines(lines: seq<string>): (r: seq<string>)
    ensures |r| <= |lines|
    ensures forall i :: 0 <= i < |r| ==> !IsBlank(r[i]) && r[i] in lines
    ensures forall i :: 0 <= i < |lines| && !IsBlank(lines[i]) ==> lines[i] in r
  {
    if lines == [] then []
    else (if Strip(lines[0]) != [] then [lines[0]] else []) + NonBlankLines(lines[1..])
  }

  /** A last line that is not blank stays the last line after the blank ones are dropped. */
  lemma {:induction false} NonBlankLinesKeepLast(lines: seq<string>)
    requires lines != [] && !IsBlank(lines[|lines| - 1])
    ensures var r := NonBlankLines(lines); r != [] && r[|r| - 1] == lines[|lines| - 1]
  {
    if |lines| > 1 {
      NonBlankLinesKeepLast(lines[1..]);
    }
  }

  /**
   * For stripped text, the last non-blank line is simply the text after its
   * last newline, and there is none only when the text is empty.
   */
  lemma LastNonBlankLine(t: string)
    requires t != [] ==> !IsSpace(t[|t| - 1])
    ensures var r := NonBlankLines(Split(t, '\n'));
      (r == [] <==> t == []) &&
      (r != [] ==> r[|r| - 1] == AfterLast(t, '\n'))
  {
    if t == [] {
      NoLinesInEmptyText();
    } else {
      LastLineOfText(t);
    }
  }

  lemma NoLinesInEmptyText()
    ensures NonBlankLines(Split([], '\n')) == []
  {
    assert Split([], '\n') == [[]];
    assert NonBlankLines([[]]) == [];
  }

  lemma LastLineOfText(t: string)
    requires t != [] && !IsSpace(t[|t| - 1])
    ensures var r := NonBlankLines(Split(t, '\n')); r != [] && r[|r| - 1] == AfterLast(t, '\n')
  {
    var pieces := Split(t, '\n');
    LastPieceOfSplit(t, '\n');
    var last := AfterLast(t, '\n');
    assert last == pieces[|pieces| - 1];
    assert last != [] && last[|last| - 1] == t[|t| - 1];
    NonBlankLinesKeepLast(pieces);
  }

  /**
   * `clean_description(description_field)`: the last non-blank line of the
   * stripped first match, spaces and underscores turned into `-`. Without a
   * match, or with only blank text, Python raises instead of returning.
   */
  function CleanDescription(matches: seq<string>): (r: Result<string, Crash>)
    ensures r.Err? <==> matches == [] || IsBlank(matches[0])
    ensures r.Ok? ==> r.value != [] && ' ' !in r.value && '_' !in r.value
    ensures r.Ok? ==> r.value == Hyphenate(AfterLast(Strip(matches[0]), '\n'))
  {
    if matches == [] then Err(NoneHasNoReplace)
    else
      var text := Strip(matches[0]);
      LastNonBlankLine(text);
      var lines := NonBlankLines(Split(text, '\n'));
      if lines == [] then Err(NoneHasNoReplace)
      else Ok(Hyphenate(lines[|lines| - 1]))
  }
}
