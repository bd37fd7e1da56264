/**
 * `ScheduleEntry` and its crontab-line codec: `to_crontab` renders schedule and command,
 * `from_crontab_line` tokenises a line and splits it into five schedule fields and a command.
 */
module Entry {
  import opened Wrappers
  import opened Text

  datatype ScheduleEntry = ScheduleEntry(schedule: string, command: string, mcpManaged: bool)

  /** The substring whose presence in a raw line marks it as managed. */
  const Marker: string := "# mcp"

  /** `to_crontab`: schedule and command separated by one space; the marker is not part of it. */
  function ToCrontab(e: ScheduleEntry): string
  {
    e.schedule + " " + e.command
  }

  // ----- The tokenizer (the whitespace splitting of shlex.split, without quotes or escapes) -----

  /** shlex's whitespace characters. */
  predicate IsShlexSpace(c: char) {
    c == ' ' || c == '\t' || c == '\r' || c == '\n'
  }

  predicate IsWordChar(c: char) {
    !IsShlexSpace(c)
  }

  predicate IsWord(t: string) {
    t != [] && forall i :: 0 <= i < |t| ==> IsWordChar(t[i])
  }

  /** A token that shlex would give back unchanged: no whitespace, no quote, no backslash. */
  predicate IsPlainToken(t: string) {
    IsWord(t) && forall i :: 0 <= i < |t| ==> t[i] != '\'' && t[i] != '"' && t[i] != '\\'
  }

  function Concat(ts: seq<string>): string {
    if ts == [] then "" else ts[0] + Concat(ts[1..])
  }

  /** The characters of `s` that are not shlex whitespace, in order. */
  function NonSpace(s: string): string {
    if s == [] then "" else (if IsShlexSpace(s[0]) then "" else [s[0]]) + NonSpace(s[1..])
  }

  lemma {:induction false} NonSpaceAppend(a: string, b: string)
    ensures NonSpace(a + b) == NonSpace(a) + NonSpace(b)
  {
    if a == [] {
      assert a + b == b;
    } else {
      assert (a + b)[1..] == a[1..] + b;
      NonSpaceAppend(a[1..], b);
    }
  }

  lemma {:induction false} NonSpaceOfWord(t: string)
    requires forall i :: 0 <= i < |t| ==> IsWordChar(t[i])
    ensures NonSpace(t) == t
  {
    if t != [] {
      NonSpaceOfWord(t[1..]);
    }
  }

  /** The tokens are non-empty, whitespace-free, and together hold every non-whitespace character of `s` in order. */
  function Tokenize(s: string): (ts: seq<string>)
    ensures forall t :: t in ts ==> IsWord(t)
    ensures Concat(ts) == NonSpace(s)
    decreases |s|
  {
    if s == [] then []
    else if IsShlexSpace(s[0]) then Tokenize(s[1..])
    else
      var n := SpanLen(s, IsWordChar);
      var word := s[..n];
      assert s == word + s[n..];
      NonSpaceAppend(word, s[n..]);
      NonSpaceOfWord(word);
      [word] + Tokenize(s[n..])
  }

  /** A space between two texts separates their tokens. */
  lemma {:induction false} TokenizeAroundSpace(a: string, b: string)
    ensures Tokenize(a + " " + b) == Tokenize(a) + Tokenize(b)
    decreases |a|
  {
    var s := a + " " + b;
    if a == [] {
      assert s == " " + b;
      assert s[1..] == b;
    } else if IsShlexSpace(a[0]) {
      assert s[1..] == a[1..] + " " + b;
      TokenizeAroundSpace(a[1..], b);
    } else {
      var n := SpanLen(a, IsWordChar);
      var tail := a[n..] + " " + b;
      assert s == a[..n] + tail;
      SpanLenConcat(a[..n], tail, IsWordChar);
      assert s[..n] == a[..n] && s[n..] == tail;
      TokenizeAroundSpace(a[n..], b);
    }
  }

  /** The tokens of an entry's crontab text are the schedule's tokens followed by the command's. */
  lemma ToCrontabTokens(e: ScheduleEntry)
    ensures Tokenize(ToCrontab(e)) == Tokenize(e.schedule) + Tokenize(e.command)
  {
    TokenizeAroundSpace(e.schedule, e.command);
  }

  /** Tokenising words joined by single spaces gives the words back. */
  lemma {:induction false} TokenizeJoin(ts: seq<string>)
    requires forall t :: t in ts ==> IsWord(t)
    ensures Tokenize(Join(ts, " ")) == ts
  {
    if |ts| == 1 {
      var t := ts[0];
      assert IsWord(t);
      assert t == t + [];
      SpanLenConcat(t, [], IsWordChar);
    } else if |ts| > 1 {
      var t, rest := ts[0], Join(ts[1..], " ");
      assert IsWord(t);
      var s := t + " " + rest;
      assert s == t + (" " + rest);
      SpanLenConcat(t, " " + rest, IsWordChar);
      assert s[|t|..] == " " + rest;
      assert (" " + rest)[1..] == rest;
      TokenizeJoin(ts[1..]);
    }
  }

  // ----- What the tokenizer's split means: words woven with whitespace gaps -----

  predicate IsGap(g: string) {
    forall i :: 0 <= i < |g| ==> IsShlexSpace(g[i])
  }

  /** gaps[0] + ts[0] + gaps[1] + ... + ts[|ts| - 1] + gaps[|ts|]. */
  function Weave(gaps: seq<string>, ts: seq<string>): string
    requires |gaps| == |ts| + 1
    decreases |ts|
  {
    if ts == [] then gaps[0] else gaps[0] + ts[0] + Weave(gaps[1..], ts[1..])
  }

  /**
   * `s` is the words `ts` separated by whitespace gaps: a possibly empty gap before the first
   * word and after the last, a non-empty one between consecutive words.
   */
  predicate IsLayout(s: string, ts: seq<string>, gaps: seq<string>) {
    |gaps| == |ts| + 1
    && (forall t :: t in ts ==> IsWord(t))
    && (forall i :: 0 <= i < |gaps| ==> IsGap(gaps[i]))
    && (forall i :: 0 < i < |ts| ==> gaps[i] != [])
    && Weave(gaps, ts) == s
  }

  /** The whitespace gaps around the tokens of `s`. */
  function Gaps(s: string): (gaps: seq<string>)
    ensures IsLayout(s, Tokenize(s), gaps)
    ensures s != [] && IsShlexSpace(s[0]) ==> gaps[0] != []
    decreases |s|
  {
    if s == [] then [""]
    else if IsShlexSpace(s[0]) then
      var g := Gaps(s[1..]);
      GapsCons(s, g, Tokenize(s[1..]));
      [[s[0]] + g[0]] + g[1..]
    else
      var n := SpanLen(s, IsWordChar);
      var g := Gaps(s[n..]);
      WordCons(s, n, g, Tokenize(s[n..]));
      [""] + g
  }

  lemma GapsCons(s: string, g: seq<string>, ts: seq<string>)
    requires s != [] && IsShlexSpace(s[0]) && IsLayout(s[1..], ts, g)
    ensures IsLayout(s, ts, [[s[0]] + g[0]] + g[1..])
  {
    var gaps := [[s[0]] + g[0]] + g[1..];
    assert gaps[1..] == g[1..];
    assert IsGap(gaps[0]) by {
      forall i | 0 <= i < |gaps[0]| ensures IsShlexSpace(gaps[0][i]) {
        if i > 0 { assert gaps[0][i] == g[0][i - 1]; }
      }
    }
    assert forall i :: 0 < i < |gaps| ==> gaps[i] == g[i];
    assert s == [s[0]] + s[1..];
  }

  lemma WordCons(s: string, n: nat, g: seq<string>, ts: seq<string>)
    requires s != [] && !IsShlexSpace(s[0]) && n == SpanLen(s, IsWordChar)
    requires IsLayout(s[n..], ts, g)
    requires s[n..] != [] && IsShlexSpace(s[n..][0]) ==> g[0] != []
    requires s[n..] == [] ==> ts == []
    ensures IsLayout(s, [s[..n]] + ts, [""] + g)
  {
    var word, gaps, words := s[..n], [""] + g, [s[..n]] + ts;
    assert IsWord(word);
    assert gaps[1..] == g && words[1..] == ts;
    assert forall i :: 0 < i < |gaps| ==> gaps[i] == g[i - 1];
    assert s == word + s[n..];
  }

  /** Leading whitespace does not change the tokens. */
  lemma {:induction false} TokenizeSkipsGap(g: string, x: string)
    requires IsGap(g)
    ensures Tokenize(g + x) == Tokenize(x)
  {
    if g != [] {
      assert (g + x)[0] == g[0] && (g + x)[1..] == g[1..] + x;
      assert Tokenize(g + x) == Tokenize(g[1..] + x);
      TokenizeSkipsGap(g[1..], x);
    } else {
      assert g + x == x;
    }
  }

  /** A word followed by nothing or by whitespace is the first token. */
  lemma TokenizeWord(t: string, rest: string)
    requires IsWord(t) && (rest == [] || IsShlexSpace(rest[0]))
    ensures Tokenize(t + rest) == [t] + Tokenize(rest)
  {
    SpanLenConcat(t, rest, IsWordChar);
    assert (t + rest)[0] == t[0];
    assert (t + rest)[..|t|] == t && (t + rest)[|t|..] == rest;
  }

  /** After the first word of a layout comes nothing or whitespace. */
  lemma LayoutTail(ts: seq<string>, gaps: seq<string>)
    requires |ts| > 0 && |gaps| == |ts| + 1
    requires forall i :: 0 <= i < |gaps| ==> IsGap(gaps[i])
    requires forall i :: 0 < i < |ts| ==> gaps[i] != []
    ensures var rest := Weave(gaps[1..], ts[1..]); rest == [] || IsShlexSpace(rest[0])
  {
    var rest := Weave(gaps[1..], ts[1..]);
    if |ts| > 1 {
      assert gaps[1] != [] && IsGap(gaps[1]);
      assert rest == gaps[1] + (ts[1] + Weave(gaps[2..], ts[2..]));
    } else {
      assert rest == gaps[1];
      assert IsGap(gaps[1]);
    }
  }

  /** Words woven with gaps tokenise to exactly those words. */
  lemma {:induction false} LayoutTokenizes(s: string, ts: seq<string>, gaps: seq<string>)
    requires IsLayout(s, ts, gaps)
    ensures Tokenize(s) == ts
    decreases |ts|
  {
    if ts == [] {
      assert s == gaps[0] + [];
      TokenizeSkipsGap(gaps[0], []);
    } else {
      var t, rest := ts[0], Weave(gaps[1..], ts[1..]);
      assert IsWord(t);
      assert s == gaps[0] + (t + rest);
      TokenizeSkipsGap(gaps[0], t + rest);
      LayoutTail(ts, gaps);
      TokenizeWord(t, rest);
      assert IsLayout(rest, ts[1..], gaps[1..]);
      LayoutTokenizes(rest, ts[1..], gaps[1..]);
    }
  }

  /**
   * The tokens of `s` are exactly its maximal whitespace-free runs: `Tokenize(s) == ts` iff `s` is
   * `ts` separated by whitespace gaps that are non-empty between words.
   */
  lemma TokenizeIff(s: string, ts: seq<string>)
    ensures Tokenize(s) == ts <==> exists gaps :: IsLayout(s, ts, gaps)
  {
    if Tokenize(s) == ts {
      assert IsLayout(s, ts, Gaps(s));
    }
    if gaps :| IsLayout(s, ts, gaps) {
      LayoutTokenizes(s, ts, gaps);
    }
  }

  // ----- The line codec -----

  /** `from_crontab_line`: at least six tokens; the first five are the schedule, the rest the command. */
  function FromCrontabLine(line: string): (r: Result<ScheduleEntry>)
    ensures r.Err? <==> |Tokenize(line)| < 6
    ensures r.Err? ==> r.error == InvalidLine
    ensures r.Ok? ==>
              var parts := Tokenize(line);
              r.value.schedule == Join(parts[..5], " ") && r.value.command == Join(parts[5..], " ")
              && Tokenize(r.value.schedule) == parts[..5] && Tokenize(r.value.command) == parts[5..]
    ensures r.Ok? ==> (r.value.mcpManaged <==> exists i: nat :: OccursAt(line, Marker, i))
  {
    var parts := Tokenize(line);
    if |parts| < 6 then Err(InvalidLine)
    else
      TokenizeJoin(parts[..5]);
      TokenizeJoin(parts[5..]);
      Ok(ScheduleEntry(Join(parts[..5], " "), Join(parts[5..], " "), Contains(line, Marker)))
  }

  /** A line made of five schedule words and at least one command word decodes to those words. */
  lemma DecodeJoined(fields: seq<string>, words: seq<string>)
    requires |fields| == 5 && 1 <= |words|
    requires forall t :: t in fields ==> IsWord(t)
    requires forall t :: t in words ==> IsWord(t)
    ensures var line := Join(fields, " ") + " " + Join(words, " ");
            FromCrontabLine(line) == Ok(ScheduleEntry(Join(fields, " "), Join(words, " "), Contains(line, Marker)))
  {
    JoinAppend(fields, words, " ");
    TokenizeJoin(fields + words);
    assert (fields + words)[..5] == fields;
    assert (fields + words)[5..] == words;
  }

  /**
   * Decoding a rendered entry gives back its schedule and command when both consist of plain
   * tokens joined by single spaces; the managed flag is then only whether the text itself holds the marker.
   */
  lemma RoundTrip(e: ScheduleEntry, fields: seq<string>, words: seq<string>)
    requires |fields| == 5 && 1 <= |words|
    requires forall t :: t in fields ==> IsPlainToken(t)
    requires forall t :: t in words ==> IsPlainToken(t)
    requires e.schedule == Join(fields, " ") && e.command == Join(words, " ")
    ensures FromCrontabLine(ToCrontab(e)) == Ok(ScheduleEntry(e.schedule, e.command, Contains(ToCrontab(e), Marker)))
  {
    DecodeJoined(fields, words);
  }

  /** `to_crontab` never emits the marker itself: without a `#` in the entry, decoding its line gives an unmanaged entry. */
  lemma RoundTripDropsManagedFlag(e: ScheduleEntry, fields: seq<string>, words: seq<string>)
    requires |fields| == 5 && 1 <= |words|
    requires forall t :: t in fields ==> IsPlainToken(t)
    requires forall t :: t in words ==> IsPlainToken(t)
    requires e.schedule == Join(fields, " ") && e.command == Join(words, " ")
    requires '#' !in e.schedule && '#' !in e.command
    ensures FromCrontabLine(ToCrontab(e)) == Ok(e.(mcpManaged := false))
  {
    RoundTrip(e, fields, words);
    NotContainsWithoutHead(ToCrontab(e), Marker);
  }

  /** The marker splits into the two tokens `#` and `mcp`. */
  lemma MarkerTokens()
    ensures var markerWords := ["#", "mcp"];
            Join(markerWords, " ") == Marker && forall t :: t in markerWords ==> IsWord(t)
  {
  }

  /**
   * A line as the crontab stores a managed job (the rendered entry followed by ` # mcp`) decodes
   * as managed, but with the marker's two tokens appended to the command.
   */
  lemma MarkedLineKeepsMarkerInCommand(e: ScheduleEntry, fields: seq<string>, words: seq<string>)
    requires |fields| == 5 && 1 <= |words|
    requires forall t :: t in fields ==> IsPlainToken(t)
    requires forall t :: t in words ==> IsPlainToken(t)
    requires e.schedule == Join(fields, " ") && e.command == Join(words, " ")
    ensures FromCrontabLine(ToCrontab(e) + " " + Marker) == Ok(ScheduleEntry(e.schedule, e.command + " " + Marker, true))
  {
    var markerWords := ["#", "mcp"];
    MarkerTokens();
    JoinAppend(words, markerWords, " ");
    var all := words + markerWords;
    assert Join(all, " ") == e.command + " " + Marker;
    var line := ToCrontab(e) + " " + Marker;
    assert line == Join(fields, " ") + " " + Join(all, " ");
    DecodeJoined(fields, all);
    ContainsSuffix(ToCrontab(e) + " ", Marker);
  }
}
