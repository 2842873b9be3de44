/**
 * `parse_text_to_fields`: one page's text to its five raw fields. The
 * script uses Python's `re.findall` with five fixed patterns; they come in
 * three shapes, each with a single capture group, and this module matches
 * exactly those shapes by scanning the text rather than through a general
 * regular-expression engine.
 */
module FieldParser {
  import opened Types
  import opened Text
  import opened Cleaners

  /** The pattern shapes, each with one capture group. */
  datatype Pattern =
    | LineAfter(marker: string)     // marker(.*?)\n   under re.DOTALL
    | PrefixBefore(anchor: string)  // (.*?)anchor     under re.DOTALL
    | DigitsAfter(tag: string)      // tag\s(\d+)

  /** What one match captured, and where the match ends. */
  datatype Match = Match(group: string, end: nat)

  /** A pattern that cannot match the empty string. */
  predicate NonEmptyPattern(p: Pattern) {
    !p.PrefixBefore? || |p.anchor| > 0
  }

  /** The length of the run of digits starting at `k` (a greedy `\d*`). */
  function DigitRun(t: string, k: nat): (n: nat)
    requires k <= |t|
    ensures k + n <= |t|
    ensures forall j :: k <= j < k + n ==> IsDigit(t[j])
    ensures k + n == |t| || !IsDigit(t[k + n])
    decreases |t| - k
  {
    if k < |t| && IsDigit(t[k]) then 1 + DigitRun(t, k + 1) else 0
  }

  /** `tag`, one whitespace character and a digit start at `i`. */
  predicate DigitsAt(t: string, tag: string, i: nat) {
    OccursAt(t, tag, i) && i + |tag| + 1 < |t| &&
    IsSpace(t[i + |tag|]) && IsDigit(t[i + |tag| + 1])
  }

  /** Whether `p` matches when the search starts exactly at `i`. */
  function MatchAt(p: Pattern, t: string, i: nat): (r: Option<Match>)
    requires i <= |t|
    requires NonEmptyPattern(p)
    ensures r.Some? ==> i < r.value.end <= |t|
  {
    match p
    case LineAfter(m) =>
      if OccursAt(t, m, i) then
        (match IndexOf(t, "\n", i + |m|)
         case Some(j) => Some(Match(t[i + |m|..j], j + 1))
         case None => None)
      else None
    case PrefixBefore(a) =>
      (match IndexOf(t, a, i)
       case Some(j) => Some(Match(t[i..j], j + |a|))
       case None => None)
    case DigitsAfter(l) =>
      if DigitsAt(t, l, i) then
        var start := i + |l| + 1;
        var n := DigitRun(t, start);
        Some(Match(t[start..start + n], start + n))
      else None
  }

  /** Whether `p` matches at each position of `t`, the end included. */
  function Positions(p: Pattern, t: string): (ms: seq<Option<Match>>)
    requires NonEmptyPattern(p)
    ensures |ms| == |t| + 1
    ensures forall k :: 0 <= k <= |t| ==> ms[k] == MatchAt(p, t, k)
  {
    seq(|t| + 1, k requires 0 <= k < |t| + 1 => MatchAt(p, t, k))
  }

  /** The first position at or after `from` that holds a match, and that match. */
  function FirstSome(ms: seq<Option<Match>>, from: nat): (r: Option<(nat, Match)>)
    requires from <= |ms|
    ensures r.Some? ==> from <= r.value.0 < |ms| && ms[r.value.0] == Some(r.value.1)
    ensures r.Some? ==> forall k :: from <= k < r.value.0 ==> ms[k].None?
    ensures r.None? ==> forall k :: from <= k < |ms| ==> ms[k].None?
    decreases |ms| - from
  {
    if from == |ms| then None
    else if ms[from].Some? then Some((from, ms[from].value))
    else FirstSome(ms, from + 1)
  }

  /** The leftmost position at or after `from` where `p` matches, and that match. */
  function FirstMatch(p: Pattern, t: string, from: nat): (r: Option<(nat, Match)>)
    requires from <= |t|
    requires NonEmptyPattern(p)
    ensures r.Some? ==> from <= r.value.0 <= |t| && MatchAt(p, t, r.value.0) == Some(r.value.1)
    ensures r.Some? ==> forall k :: from <= k < r.value.0 ==> MatchAt(p, t, k).None?
    ensures r.None? ==> forall k :: from <= k <= |t| ==> MatchAt(p, t, k).None?
  {
    FirstSome(Positions(p, t), from)
  }

  /** `re.findall(p, t[from:])`: the groups of successive non-overlapping matches. */
  function FindAll(p: Pattern, t: string, from: nat): (r: seq<string>)
    requires from <= |t|
    requires NonEmptyPattern(p)
    ensures r == [] <==> FirstMatch(p, t, from).None?
    ensures r != [] ==> r[0] == FirstMatch(p, t, from).value.1.group
    ensures |r| <= |t| - from + 1
    decreases |t| - from
  {
    match FirstMatch(p, t, from)
    case None => []
    case Some((_, m)) => [m.group] + FindAll(p, t, m.end)
  }

  /** `m[0] if m else None` for `m = re.findall(p, t)`. */
  function FirstGroup(p: Pattern, t: string): Option<string>
    requires NonEmptyPattern(p)
  {
    var matches := FindAll(p, t, 0);
    if matches != [] then Some(matches[0]) else None
  }

  // ------------------------------------------------- reference readings

  /**
   * The characters between the first `marker` and the next newline; absent
   * when the marker is missing or no newline follows it.
   */
  function MarkerLine(t: string, marker: string): Option<string> {
    match IndexOf(t, marker, 0)
    case None => None
    case Some(i) =>
      match IndexOf(t, "\n", i + |marker|)
      case None => None
      case Some(j) => Some(t[i + |marker|..j])
  }

  /** The text before the first `anchor`, if there is one. */
  function TextBefore(t: string, anchor: string): Option<string> {
    match IndexOf(t, anchor, 0)
    case None => None
    case Some(i) => Some(t[..i])
  }

  /** A findall list as the cleaners see it: empty, or just its first match. */
  function AsMatches(o: Option<string>): seq<string> {
    match o
    case None => []
    case Some(s) => [s]
  }

  lemma NewlineAt(t: string, j: nat)
    requires j < |t| && t[j] == '\n'
    ensures OccursAt(t, "\n", j)
  {
    assert t[j..j + 1] == "\n";
  }

  /** `findall` is empty exactly when there is no leftmost match, and starts with its group. */
  lemma FindAllHead(p: Pattern, t: string)
    requires NonEmptyPattern(p)
    ensures var r := FindAll(p, t, 0);
      (r == [] <==> FirstMatch(p, t, 0).None?) &&
      (r != [] ==> r[0] == FirstMatch(p, t, 0).value.1.group)
  {
  }

  /** A match at `i` with none before it is the leftmost match. */
  lemma LeftmostMatch(p: Pattern, t: string, i: nat)
    requires NonEmptyPattern(p) && i <= |t|
    requires MatchAt(p, t, i).Some?
    requires forall k :: 0 <= k < i ==> MatchAt(p, t, k).None?
    ensures FirstMatch(p, t, 0) == Some((i, MatchAt(p, t, i).value))
  {
  }

  /** Without a match at any position there is no leftmost one. */
  lemma NoMatch(p: Pattern, t: string)
    requires NonEmptyPattern(p)
    requires forall k :: 0 <= k <= |t| ==> MatchAt(p, t, k).None?
    ensures FirstMatch(p, t, 0).None?
  {
  }

  /** A marker ending in a newline that comes after another one leaves a newline after the first. */
  lemma LaterMarkerGivesNewline(t: string, marker: string, i: nat, k: nat)
    requires |marker| > 0 && marker[|marker| - 1] == '\n'
    requires i < k && OccursAt(t, marker, k)
    ensures IndexOf(t, "\n", i + |marker|).Some?
  {
    assert t[k..k + |marker|][|marker| - 1] == t[k + |marker| - 1];
    NewlineAt(t, k + |marker| - 1);
  }

  /**
   * For a marker ending in a newline, the first match of `marker(.*?)\n`
   * captures the line after the first marker, and there is none when that
   * line is missing.
   */
  lemma LineAfterFirstMatch(t: string, marker: string)
    requires |marker| > 0 && marker[|marker| - 1] == '\n'
    ensures var r := FindAll(LineAfter(marker), t, 0);
      (r == [] <==> MarkerLine(t, marker).None?) &&
      (r != [] ==> r[0] == MarkerLine(t, marker).value)
  {
    var p := LineAfter(marker);
    FindAllHead(p, t);
    var first := IndexOf(t, marker, 0);
    if first.None? {
      forall k | 0 <= k <= |t| ensures MatchAt(p, t, k).None? {
        assert !OccursAt(t, marker, k);
      }
      NoMatch(p, t);
    } else {
      LineAfterFirstMarker(t, marker, first.value);
    }
  }

  lemma LineAfterFirstMarker(t: string, marker: string, i: nat)
    requires |marker| > 0 && marker[|marker| - 1] == '\n'
    requires IndexOf(t, marker, 0) == Some(i)
    ensures var r := FirstMatch(LineAfter(marker), t, 0);
      (r.None? <==> MarkerLine(t, marker).None?) &&
      (r.Some? ==> r.value.1.group == MarkerLine(t, marker).value)
  {
    var p := LineAfter(marker);
    NoLineMatchBefore(t, marker, i);
    var nl := IndexOf(t, "\n", i + |marker|);
    if nl.Some? {
      assert MatchAt(p, t, i) == Some(Match(t[i + |marker|..nl.value], nl.value + 1));
      LeftmostMatch(p, t, i);
    } else {
      NoLineMatchAfter(t, marker, i);
      NoMatch(p, t);
    }
  }

  lemma NoLineMatchBefore(t: string, marker: string, i: nat)
    requires IndexOf(t, marker, 0) == Some(i)
    ensures forall k :: 0 <= k < i ==> MatchAt(LineAfter(marker), t, k).None?
  {
    forall k | 0 <= k < i ensures MatchAt(LineAfter(marker), t, k).None? {
      assert !OccursAt(t, marker, k);
    }
  }

  lemma NoLineMatchAfter(t: string, marker: string, i: nat)
    requires |marker| > 0 && marker[|marker| - 1] == '\n'
    requires IndexOf(t, marker, 0) == Some(i) && IndexOf(t, "\n", i + |marker|).None?
    ensures forall k :: i <= k <= |t| ==> MatchAt(LineAfter(marker), t, k).None?
  {
    forall k | i <= k <= |t| ensures MatchAt(LineAfter(marker), t, k).None? {
      if i < k && OccursAt(t, marker, k) {
        LaterMarkerGivesNewline(t, marker, i, k);
      }
    }
  }

  /** The line after the first marker is missing exactly when no marker is followed, anywhere later, by a newline. */
  lemma MarkerLineAbsent(t: string, marker: string)
    requires |marker| > 0 && marker[|marker| - 1] == '\n'
    ensures MarkerLine(t, marker).None? <==>
      forall k: nat, j: nat :: OccursAt(t, marker, k) && k + |marker| <= j ==> !OccursAt(t, "\n", j)
  {
    match IndexOf(t, marker, 0)
    case None =>
    case Some(i) =>
      match IndexOf(t, "\n", i + |marker|)
      case Some(j) =>
      case None =>
        forall k: nat, j: nat | OccursAt(t, marker, k) && k + |marker| <= j
          ensures !OccursAt(t, "\n", j)
        {
          if i < k {
            LaterMarkerGivesNewline(t, marker, i, k);
          }
        }
  }

  /** The first match of `(.*?)anchor` is the text before the first `anchor`. */
  lemma PrefixBeforeFirstMatch(t: string, anchor: string)
    requires |anchor| > 0
    ensures var r := FindAll(PrefixBefore(anchor), t, 0);
      (r == [] <==> TextBefore(t, anchor).None?) &&
      (r != [] ==> r[0] == TextBefore(t, anchor).value)
  {
    var p := PrefixBefore(anchor);
    FindAllHead(p, t);
    match IndexOf(t, anchor, 0)
    case None =>
      forall k | 0 <= k <= |t| ensures MatchAt(p, t, k).None? {
        assert IndexOf(t, anchor, k).None?;
      }
    case Some(i) =>
      assert MatchAt(p, t, 0) == Some(Match(t[..i], i + |anchor|));
  }

  /** Where `tag\s(\d+)` matches at `i`, it captures the whole digit run after the tag and a whitespace character. */
  lemma DigitsAfterMatchAt(t: string, tag: string, i: nat)
    requires i <= |t|
    ensures MatchAt(DigitsAfter(tag), t, i).Some? <==> DigitsAt(t, tag, i)
    ensures var m := MatchAt(DigitsAfter(tag), t, i); m.Some? ==>
      var g := m.value.group; var start := i + |tag| + 1;
      start + |g| <= |t| && g == t[start..start + |g|] && |g| > 0 && AllDigits(g) &&
      (start + |g| == |t| || !IsDigit(t[start + |g|]))
  {
    if DigitsAt(t, tag, i) {
      var start := i + |tag| + 1;
      var n := DigitRun(t, start);
      assert n > 0;
      var g := t[start..start + n];
      assert forall j :: 0 <= j < n ==> g[j] == t[start + j];
    }
  }

  /**
   * The first match of `tag\s(\d+)` is the whole run of digits after the
   * first place where the tag, one whitespace character and a digit
   * meet; there is none when no such place exists.
   */
  lemma DigitsAfterFirstMatch(t: string, tag: string) returns (i: nat)
    ensures FirstDigitRun(t, tag, FirstGroup(DigitsAfter(tag), t), i)
  {
    var p := DigitsAfter(tag);
    var r := FindAll(p, t, 0);
    FindAllHead(p, t);
    var first := FirstMatch(p, t, 0);
    if first.None? {
      i := 0;
      NoDigitsWithoutMatch(t, tag);
    } else {
      i := first.value.0;
      NoDigitsBeforeMatch(t, tag, i);
      DigitsAfterMatchAt(t, tag, i);
      assert r[0] == MatchAt(p, t, i).value.group;
      assert FirstGroup(p, t) == Some(r[0]);
    }
  }

  /**
   * `g` is the whole run of digits after the first place `i` where `tag`,
   * one whitespace character and a digit meet; `g` is absent exactly when
   * there is no such place.
   */
  ghost predicate FirstDigitRun(t: string, tag: string, g: Option<string>, i: nat) {
    (g.None? <==> forall k: nat :: !DigitsAt(t, tag, k)) &&
    (g.Some? ==>
      DigitsAt(t, tag, i) && (forall k: nat :: k < i ==> !DigitsAt(t, tag, k)) &&
      var start := i + |tag| + 1; var n := |g.value|;
      n > 0 && start + n <= |t| && g.value == t[start..start + n] && AllDigits(g.value) &&
      (start + n == |t| || !IsDigit(t[start + n])))
  }

  lemma NoDigitsWithoutMatch(t: string, tag: string)
    requires FirstMatch(DigitsAfter(tag), t, 0).None?
    ensures forall k: nat :: !DigitsAt(t, tag, k)
  {
    forall k: nat ensures !DigitsAt(t, tag, k) {
      if k <= |t| {
        DigitsAfterMatchAt(t, tag, k);
      }
    }
  }

  lemma NoDigitsBeforeMatch(t: string, tag: string, i: nat)
    requires var first := FirstMatch(DigitsAfter(tag), t, 0); first.Some? && first.value.0 == i
    ensures DigitsAt(t, tag, i)
    ensures forall k: nat :: k < i ==> !DigitsAt(t, tag, k)
  {
    DigitsAfterMatchAt(t, tag, i);
    forall k: nat | k < i ensures !DigitsAt(t, tag, k) {
      DigitsAfterMatchAt(t, tag, k);
    }
  }

  // ------------------------------------------------------------- the parse

  const UploadedByMarker := "Uploaded By\n"
  const TakenDateMarker := "Taken Date\n"
  const UploadDateMarker := "Upload Date\n"
  const DescriptionAnchor := "Description"
  const JobLabel := "Job #:"

  /** `clean_field(uploaded_by, 5)` */
  const UploaderWidth := 5

  /** The tuple `parse_text_to_fields` returns; its description is never None. */
  datatype PageFields = PageFields(
    uploadedBy: Option<string>,
    takenDate: Option<string>,
    uploadDate: Option<string>,
    description: string,
    jobNumber: Option<string>)

  /**
   * `parse_text_to_fields(text)`: collapse double spaces once, find each
   * pattern and clean what was found; the job number is used as found.
   * Fails where `clean_description` raises.
   */
  function ParseTextToFields(text: string): (r: Result<PageFields, Crash>)
    ensures r.Ok? && r.value.uploadedBy.Some? ==> |r.value.uploadedBy.value| == UploaderWidth
    ensures r.Ok? ==> var d := r.value.description; d != [] && ' ' !in d && '_' !in d
    ensures r.Ok? ==> r.value.jobNumber == JobNumber(CollapseDoubleSpaces(text))
  {
    var t := CollapseDoubleSpaces(text);
    var uploadedBy := CleanField(FindAll(LineAfter(UploadedByMarker), t, 0), UploaderWidth);
    var takenDate := CleanDate(FindAll(LineAfter(TakenDateMarker), t, 0));
    var uploadDate := CleanDate(FindAll(LineAfter(UploadDateMarker), t, 0));
    var description := CleanDescription(FindAll(PrefixBefore(DescriptionAnchor), t, 0));
    if description.Err? then Err(description.error)
    else Ok(PageFields(uploadedBy, takenDate, uploadDate, description.value, JobNumber(t)))
  }

  /** `job_number[0] if job_number else None` for the matches of `Job #:\s(\d+)`. */
  function JobNumber(t: string): (job: Option<string>)
    ensures job.Some? ==> job.value != [] && AllDigits(job.value)
  {
    var first := FirstMatch(DigitsAfter(JobLabel), t, 0);
    if first.Some? then
      DigitsAfterMatchAt(t, JobLabel, first.value.0);
      FirstGroup(DigitsAfter(JobLabel), t)
    else
      FirstGroup(DigitsAfter(JobLabel), t)
  }

  /** The cleaners look only at whether there is a match and at the first one. */
  lemma CleanersReadFirstMatch(a: seq<string>, b: seq<string>)
    requires (a == []) == (b == []) && (a != [] ==> a[0] == b[0])
    ensures CleanField(a, UploaderWidth) == CleanField(b, UploaderWidth)
    ensures CleanDate(a) == CleanDate(b)
  {
  }

  /**
   * The three marker fields are the cleaned lines after the first marker of
   * their kind in the collapsed text; absent exactly when that line is.
   */
  lemma ParseMarkerFields(text: string)
    requires ParseTextToFields(text).Ok?
    ensures var t := CollapseDoubleSpaces(text); var f := ParseTextToFields(text).value;
      f.uploadedBy == CleanField(AsMatches(MarkerLine(t, UploadedByMarker)), UploaderWidth) &&
      f.takenDate == CleanDate(AsMatches(MarkerLine(t, TakenDateMarker))) &&
      f.uploadDate == CleanDate(AsMatches(MarkerLine(t, UploadDateMarker))) &&
      (f.uploadedBy.None? <==> MarkerLine(t, UploadedByMarker).None?) &&
      (f.takenDate.None? <==> MarkerLine(t, TakenDateMarker).None?) &&
      (f.uploadDate.None? <==> MarkerLine(t, UploadDateMarker).None?)
  {
    var t := CollapseDoubleSpaces(text);
    LineAfterFirstMatch(t, UploadedByMarker);
    LineAfterFirstMatch(t, TakenDateMarker);
    LineAfterFirstMatch(t, UploadDateMarker);
    CleanersReadFirstMatch(FindAll(LineAfter(UploadedByMarker), t, 0), AsMatches(MarkerLine(t, UploadedByMarker)));
    CleanersReadFirstMatch(FindAll(LineAfter(TakenDateMarker), t, 0), AsMatches(MarkerLine(t, TakenDateMarker)));
    CleanersReadFirstMatch(FindAll(LineAfter(UploadDateMarker), t, 0), AsMatches(MarkerLine(t, UploadDateMarker)));
  }

  /**
   * The parse fails exactly when the collapsed text has no "Description"
   * or only whitespace before it; otherwise the description is the last
   * line before it, hyphenated.
   */
  lemma ParseDescription(text: string)
    ensures var t := CollapseDoubleSpaces(text); var r := ParseTextToFields(text);
      (r.Err? <==> TextBefore(t, DescriptionAnchor).None? || IsBlank(TextBefore(t, DescriptionAnchor).value)) &&
      (r.Ok? ==> r.value.description == Hyphenate(AfterLast(Strip(TextBefore(t, DescriptionAnchor).value), '\n')))
  {
    PrefixBeforeFirstMatch(CollapseDoubleSpaces(text), DescriptionAnchor);
  }

  /**
   * The job number (taken from the collapsed text, as it stands) is the
   * whole digit run after the first "Job #:" that is followed by one
   * whitespace character and a digit; absent when there is no such place.
   */
  lemma JobNumberFound(t: string) returns (i: nat)
    ensures FirstDigitRun(t, JobLabel, JobNumber(t), i)
  {
    assert JobNumber(t) == FirstGroup(DigitsAfter(JobLabel), t);
    i := DigitsAfterFirstMatch(t, JobLabel);
  }
}
