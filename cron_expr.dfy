/**
 * The schedule-expression normaliser of the `POST /schedule` route and the `add` command:
 * an expression that already has the five-field cron shape is used verbatim, anything
 * else goes through the one-phrase table of `parse_human_to_cron`.
 */
module CronExpr {
  import opened Wrappers
  import opened Text

  /** The only phrase the table knows, and the schedule it stands for. */
  const DailyAt5pm: string := "every day at 5pm"
  const DailyAt5pmCron: string := "0 17 * * *"

  // The regex character class of digits and `*`, `/`, `,`, `-` (ASCII digits only).
  predicate IsFieldChar(c: char) {
    '0' <= c <= '9' || c == '*' || c == '/' || c == ',' || c == '-'
  }

  /** The regex class `\s` on str patterns: the characters for which Python's `str.isspace()` holds. */
  predicate IsRegexSpace(c: char) {
    ('\t' <= c <= '\r') || ('\U{1C}' <= c <= ' ') || c == '\U{85}' || c == '\U{A0}' || c == '\U{1680}'
    || ('\U{2000}' <= c <= '\U{200A}') || c == '\U{2028}' || c == '\U{2029}' || c == '\U{202F}'
    || c == '\U{205F}' || c == '\U{3000}'
  }

  /**
   * `s` is matched in full by k groups of (field run, whitespace run) and a final field run. The two classes are disjoint, so each
   * `+` takes the longest run and no backtracking is needed.
   */
  predicate MatchGroups(s: string, k: nat)
    decreases |s|
  {
    var n := SpanLen(s, IsFieldChar);
    0 < n &&
    if k == 0 then n == |s|
    else
      var m := SpanLen(s[n..], IsRegexSpace);
      0 < m && MatchGroups(s[n + m..], k - 1)
  }

  // The cron-shape regex of the routes under `re.match`, where `$` also matches before one final newline.
  // `VerbatimIff` below states exactly which strings it accepts; an accepted one starts with a field character.
  function IsCronExpression(s: string): (b: bool)
    ensures b ==> 0 < |s| && IsFieldChar(s[0])
  {
    MatchGroups(s, 4) || (0 < |s| && s[|s| - 1] == '\n' && MatchGroups(s[..|s| - 1], 4))
  }

  // ----- An independent description of the shape: runs separated by runs -----

  predicate IsRun(w: string, p: char -> bool) {
    w != [] && forall i :: 0 <= i < |w| ==> p(w[i])
  }

  /** fields[0] + seps[0] + fields[1] + ... + fields[|seps|]. */
  function Interleave(fields: seq<string>, seps: seq<string>): string
    requires |fields| == |seps| + 1
    decreases |seps|
  {
    if seps == [] then fields[0] else fields[0] + seps[0] + Interleave(fields[1..], seps[1..])
  }

  /** `s` is the field runs `fields` separated by the whitespace runs `seps`, with nothing before or after. */
  ghost predicate IsSplitting(s: string, fields: seq<string>, seps: seq<string>) {
    |fields| == |seps| + 1
    && (forall f :: f in fields ==> IsRun(f, IsFieldChar))
    && (forall w :: w in seps ==> IsRun(w, IsRegexSpace))
    && Interleave(fields, seps) == s
  }

  /** Five non-empty runs of `0-9 * / , -`, separated by four non-empty runs of whitespace. */
  ghost predicate IsFiveFieldShape(s: string) {
    exists fields, seps :: |seps| == 4 && IsSplitting(s, fields, seps)
  }

  lemma InterleaveStartsWithField(fields: seq<string>, seps: seq<string>)
    requires |fields| == |seps| + 1 && fields[0] != []
    ensures Interleave(fields, seps) != [] && Interleave(fields, seps)[0] == fields[0][0]
  {
  }

  /** One step of the recognizer: a field run, a whitespace run, and k - 1 more groups. */
  lemma {:induction false} MatchGroupsStep(s: string, k: nat)
    ensures 0 < k ==>
      (MatchGroups(s, k) <==>
        var n := SpanLen(s, IsFieldChar);
        0 < n && var m := SpanLen(s[n..], IsRegexSpace); 0 < m && MatchGroups(s[n + m..], k - 1))
  {
  }

  /** A splitting with a separator is a field, a separator, and a shorter splitting. */
  lemma SplittingUncons(s: string, fields: seq<string>, seps: seq<string>)
    requires IsSplitting(s, fields, seps) && seps != []
    ensures IsRun(fields[0], IsFieldChar) && IsRun(seps[0], IsRegexSpace)
    ensures var rest := Interleave(fields[1..], seps[1..]);
            s == fields[0] + seps[0] + rest && IsSplitting(rest, fields[1..], seps[1..])
            && rest != [] && IsFieldChar(rest[0])
  {
    assert fields[0] in fields && fields[1] in fields && seps[0] in seps;
    InterleaveStartsWithField(fields[1..], seps[1..]);
  }

  /** The recognizer's two spans over a field, a separator and the rest. */
  lemma StepSpans(f: string, w: string, rest: string)
    requires IsRun(f, IsFieldChar) && IsRun(w, IsRegexSpace) && rest != [] && IsFieldChar(rest[0])
    ensures var s := f + w + rest;
            SpanLen(s, IsFieldChar) == |f| && SpanLen(s[|f|..], IsRegexSpace) == |w| && s[|f| + |w|..] == rest
  {
    var s := f + w + rest;
    assert s == f + (w + rest);
    SpanLenConcat(f, w + rest, IsFieldChar);
    assert s[|f|..] == w + rest;
    SpanLenConcat(w, rest, IsRegexSpace);
  }

  /** Every splitting is accepted by the recognizer. */
  lemma {:induction false} SplittingMatches(s: string, fields: seq<string>, seps: seq<string>)
    requires IsSplitting(s, fields, seps)
    ensures MatchGroups(s, |seps|)
    decreases |seps|
  {
    var f := fields[0];
    assert f in fields;
    if seps == [] {
      assert s == f + [];
      SpanLenConcat(f, [], IsFieldChar);
    } else {
      SplittingUncons(s, fields, seps);
      var w, rest := seps[0], Interleave(fields[1..], seps[1..]);
      StepSpans(f, w, rest);
      SplittingMatches(rest, fields[1..], seps[1..]);
      MatchGroupsStep(s, |seps|);
    }
  }

  /** A field run and a whitespace run in front of a splitting give a splitting. */
  lemma SplittingPrepend(field: string, sep: string, rest: string, fs: seq<string>, ss: seq<string>)
    requires IsRun(field, IsFieldChar) && IsRun(sep, IsRegexSpace) && IsSplitting(rest, fs, ss)
    ensures IsSplitting(field + sep + rest, [field] + fs, [sep] + ss)
  {
    assert ([field] + fs)[1..] == fs;
    assert ([sep] + ss)[1..] == ss;
  }

  lemma ThreeSlices(s: string, i: nat, j: nat)
    requires i <= j <= |s|
    ensures s == s[..i] + s[i..j] + s[j..]
  {
  }

  /** One recognizer step (a field run, then a whitespace run) in front of a splitting gives a splitting. */
  lemma SplittingCons(s: string, n: nat, m: nat, fs: seq<string>, ss: seq<string>)
    requires 0 < n && n == SpanLen(s, IsFieldChar)
    requires n + m <= |s| && 0 < m && m == SpanLen(s[n..], IsRegexSpace)
    requires IsSplitting(s[n + m..], fs, ss)
    ensures IsSplitting(s, [s[..n]] + fs, [s[n..n + m]] + ss)
  {
    var field, sep := s[..n], s[n..n + m];
    assert IsRun(field, IsFieldChar);
    assert IsRun(sep, IsRegexSpace) by {
      forall i | 0 <= i < m ensures IsRegexSpace(sep[i]) {
        assert sep[i] == s[n..][i];
      }
    }
    ThreeSlices(s, n, n + m);
    SplittingPrepend(field, sep, s[n + m..], fs, ss);
  }

  /** The fields and separators the recognizer walks over. */
  function SplitGroups(s: string, k: nat): (d: (seq<string>, seq<string>))
    requires MatchGroups(s, k)
    ensures |d.1| == k && IsSplitting(s, d.0, d.1)
    decreases k
  {
    var n := SpanLen(s, IsFieldChar);
    if k == 0 then
      ([s], [])
    else
      var m := SpanLen(s[n..], IsRegexSpace);
      var d' := SplitGroups(s[n + m..], k - 1);
      SplittingCons(s, n, m, d'.0, d'.1);
      ([s[..n]] + d'.0, [s[n..n + m]] + d'.1)
  }

  /** The recognizer accepts exactly the five-field shape. */
  lemma FullMatchIff(s: string)
    ensures MatchGroups(s, 4) <==> IsFiveFieldShape(s)
  {
    if MatchGroups(s, 4) {
      var d := SplitGroups(s, 4);
      assert IsSplitting(s, d.0, d.1);
    }
    if IsFiveFieldShape(s) {
      var fields, seps :| |seps| == 4 && IsSplitting(s, fields, seps);
      SplittingMatches(s, fields, seps);
    }
  }

  /**
   * An expression is used verbatim iff it is five runs of `0-9 * / , -` separated by whitespace
   * runs with nothing before or after, optionally followed by a single newline.
   */
  lemma VerbatimIff(s: string)
    ensures IsCronExpression(s) <==>
              IsFiveFieldShape(s) || (0 < |s| && s[|s| - 1] == '\n' && IsFiveFieldShape(s[..|s| - 1]))
  {
    FullMatchIff(s);
    if 0 < |s| {
      FullMatchIff(s[..|s| - 1]);
    }
  }

  // ----- The phrase table and the normaliser -----

  /** `parse_human_to_cron`: the one known phrase, in any letter case, or an error. */
  function ParseHumanToCron(expression: string): (r: Result<string>)
    ensures r.Ok? <==> EqualsIgnoringCase(expression, DailyAt5pm)
    ensures r.Ok? ==> r.value == DailyAt5pmCron
    ensures r.Err? ==> r.error == InvalidExpression
  {
    LowerIffIgnoringCase(expression, DailyAt5pm);
    if Lower(expression) == DailyAt5pm then Ok(DailyAt5pmCron) else Err(InvalidExpression)
  }

  lemma DailyAt5pmCronIsCron()
    ensures IsCronExpression(DailyAt5pmCron)
  {
    var fields := ["0", "17", "*", "*", "*"];
    var seps := [" ", " ", " ", " "];
    assert Interleave(fields, seps) == DailyAt5pmCron;
    assert IsSplitting(DailyAt5pmCron, fields, seps);
    SplittingMatches(DailyAt5pmCron, fields, seps);
  }

  /** The schedule chosen for an expression: verbatim when cron-shaped, else looked up in the phrase table. */
  function Normalize(expression: string): (r: Result<string>)
    ensures IsCronExpression(expression) ==> r == Ok(expression)
    ensures !IsCronExpression(expression) ==>
              if EqualsIgnoringCase(expression, DailyAt5pm) then r == Ok(DailyAt5pmCron) else r == Err(InvalidExpression)
    ensures r.Ok? ==> IsCronExpression(r.value)
  {
    DailyAt5pmCronIsCron();
    if IsCronExpression(expression) then Ok(expression) else ParseHumanToCron(expression)
  }

  /** Normalising a normalised schedule changes nothing. */
  lemma NormalizeIdempotent(expression: string)
    requires Normalize(expression).Ok?
    ensures Normalize(Normalize(expression).value) == Normalize(expression)
  {
  }
}
