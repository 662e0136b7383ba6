/**
 * `parse_test_line` of `hello.py`: one line of the CI page becomes a record
 * of seven optional fields. The timestamp is matched at the start of the
 * line; the command, duration, exit code and target are searched for in the
 * "rest of the line" that follows a hard-coded link-closing marker; status
 * and link come from an HTML parser and enter the model as an input.
 */
module LineParser {
  import opened Wrappers
  import opened Text
  import Calendar

  /** What the HTML parser reports for a line: the text of the first span
      whose text mentions FAILED or FLAKED, and the href of the first link. */
  datatype Markup = Markup(status: Option<string>, link: Option<string>)

  /** The dictionary `parse_test_line` returns. */
  datatype Record = Record(
    dateTime: Option<string>,
    status: Option<string>,
    link: Option<string>,
    testCommand: Option<string>,
    duration: Option<string>,
    exitCode: Option<nat>,
    target: Option<string>)

  /** `^(\d{2}-\d{2} \d{2}:\d{2}:\d{2}):`: the timestamp's shape, then a colon. */
  const StampTemplate := Calendar.StampFormat + ":"

  /** The marker searched for, and the longer one whose length is skipped. */
  const LinkClose := "</a></span>)"
  const LinkCloseColon := "</a></span>):"

  /** The line begins with a timestamp `MM-DD HH:MM:SS` and a colon. */
  ghost predicate StampShape(line: string) {
    && |line| >= 15
    && IsDigit(line[0]) && IsDigit(line[1]) && line[2] == '-'
    && IsDigit(line[3]) && IsDigit(line[4]) && line[5] == ' '
    && IsDigit(line[6]) && IsDigit(line[7]) && line[8] == ':'
    && IsDigit(line[9]) && IsDigit(line[10]) && line[11] == ':'
    && IsDigit(line[12]) && IsDigit(line[13]) && line[14] == ':'
  }

  /** The `date-time` field (hello.py:15-16). */
  function Timestamp(line: string): (r: Option<string>)
    ensures r.Some? <==> StampShape(line)
    ensures r.Some? ==> r.value == line[..14]
  {
    if Fits(line, StampTemplate) then Some(line[..14]) else None
  }

  /**
   * `rest_of_line` (hello.py:30-33): everything after the first `</a></span>)`
   * and ONE more character, stripped; empty when the marker is missing.
   */
  function RestOfLine(line: string): (rest: string)
    ensures (forall i :: !At(line, i, LinkClose)) ==> rest == ""
  {
    var linkEnd := Find(line, LinkClose) + |LinkCloseColon|;
    if linkEnd > |LinkCloseColon| - 1 then Strip(Drop(line, linkEnd)) else ""
  }

  /** With the marker first at `i`, the rest of the line starts one character after it. */
  lemma RestAfterMarker(line: string, i: nat)
    requires FirstAt(line, i, LinkClose)
    ensures RestOfLine(line) == Strip(Drop(line, i + |LinkClose| + 1))
  {
    FindIsFirst(line, LinkClose);
    assert |LinkClose| + 1 == |LinkCloseColon|;
  }

  /** The three regular expressions searched for in the rest of the line. */
  datatype Pattern =
    | DurationPat   // \((\d+s)\)
    | CodePat       // \(code: (\d+)\)
    | TargetPat     // \(target: ([^)]+)\)

  /** The characters of the capture group, `s[start..end]`. */
  datatype Span = Span(start: nat, end: nat)

  /** A match: where it starts and what its group captured. */
  datatype Hit = Hit(pos: nat, group: Span)

  predicate NotClose(c: char) {
    c != ')'
  }

  /** The matcher: does `pat` match at `p`, and with which group? */
  function MatchAt(pat: Pattern, s: string, p: nat): Option<Span> {
    match pat
    case DurationPat =>
      if At(s, p, "(") then
        var k := RunLength(s, p + 1, IsDigit);
        if k >= 1 && p + k + 2 < |s| && s[p + k + 1] == 's' && s[p + k + 2] == ')'
        then Some(Span(p + 1, p + k + 2)) else None
      else None
    case CodePat =>
      if At(s, p, "(code: ") then
        var k := RunLength(s, p + 7, IsDigit);
        if k >= 1 && p + 7 + k < |s| && s[p + 7 + k] == ')' then Some(Span(p + 7, p + 7 + k)) else None
      else None
    case TargetPat =>
      if At(s, p, "(target: ") then
        var k := RunLength(s, p + 9, NotClose);
        if k >= 1 && p + 9 + k < |s| then Some(Span(p + 9, p + 9 + k)) else None
      else None
  }

  /**
   * What the regular expression means, stated without a scan: a match of
   * `pat` at `p` whose group is `g`.
   */
  ghost predicate RegexMatch(pat: Pattern, s: string, p: nat, g: Span) {
    match pat
    case DurationPat =>
      && At(s, p, "(") && g.start == p + 1 && g.start + 2 <= g.end < |s|
      && AllDigits(s[g.start..g.end - 1]) && s[g.end - 1] == 's' && s[g.end] == ')'
    case CodePat =>
      && At(s, p, "(code: ") && g.start == p + 7 && g.start < g.end < |s|
      && AllDigits(s[g.start..g.end]) && s[g.end] == ')'
    case TargetPat =>
      && At(s, p, "(target: ") && g.start == p + 9 && g.start < g.end < |s|
      && ')' !in s[g.start..g.end] && s[g.end] == ')'
  }

  /** The match `re.search` reports: the leftmost one. */
  ghost predicate FirstRegexMatch(pat: Pattern, s: string, p: nat, g: Span) {
    RegexMatch(pat, s, p, g) && forall q: nat, g': Span :: q < p ==> !RegexMatch(pat, s, q, g')
  }

  /** The matcher agrees with the regular expression, in both directions. */
  lemma MatchAtIsRegex(pat: Pattern, s: string, p: nat, g: Span)
    ensures MatchAt(pat, s, p) == Some(g) <==> RegexMatch(pat, s, p, g)
  {
    match pat
    case DurationPat => DurationMatch(s, p, g);
    case CodePat => CodeMatch(s, p, g);
    case TargetPat => TargetMatch(s, p, g);
  }

  lemma DurationMatch(s: string, p: nat, g: Span)
    ensures MatchAt(DurationPat, s, p) == Some(g) <==> RegexMatch(DurationPat, s, p, g)
  {
    if RegexMatch(DurationPat, s, p, g) {
      var k := RunLength(s, p + 1, IsDigit);
      assert forall j :: p + 1 <= j < g.end - 1 ==> s[j] == s[g.start..g.end - 1][j - (p + 1)];
      assert k == g.end - 1 - (p + 1);
    }
  }

  lemma CodeMatch(s: string, p: nat, g: Span)
    ensures MatchAt(CodePat, s, p) == Some(g) <==> RegexMatch(CodePat, s, p, g)
  {
    if RegexMatch(CodePat, s, p, g) {
      var k := RunLength(s, p + 7, IsDigit);
      assert forall j :: p + 7 <= j < g.end ==> s[j] == s[g.start..g.end][j - (p + 7)];
      assert k == g.end - (p + 7);
    }
  }

  lemma TargetMatch(s: string, p: nat, g: Span)
    ensures MatchAt(TargetPat, s, p) == Some(g) <==> RegexMatch(TargetPat, s, p, g)
  {
    if MatchAt(TargetPat, s, p) == Some(g) {
      var k := RunLength(s, p + 9, NotClose);
      assert forall j :: 0 <= j < k ==> s[g.start..g.end][j] == s[p + 9 + j];
    }
    if RegexMatch(TargetPat, s, p, g) {
      var k := RunLength(s, p + 9, NotClose);
      assert forall j :: p + 9 <= j < g.end ==> s[g.start..g.end][j - (p + 9)] == s[j];
      assert k == g.end - (p + 9);
    }
  }

  /** `re.search(pat, s)`, scanning start positions from `from`. */
  function Search(pat: Pattern, s: string, from: nat): (h: Option<Hit>)
    requires from <= |s|
    ensures h.Some? ==> from <= h.value.pos && MatchAt(pat, s, h.value.pos) == Some(h.value.group)
    ensures h.Some? ==> forall q :: from <= q < h.value.pos ==> MatchAt(pat, s, q).None?
    ensures h.None? ==> forall q :: from <= q <= |s| ==> MatchAt(pat, s, q).None?
    decreases |s| - from
  {
    match MatchAt(pat, s, from)
    case Some(g) => Some(Hit(from, g))
    case None => if from == |s| then None else Search(pat, s, from + 1)
  }

  /** No regular expression here matches at or past the end of the text. */
  lemma RegexMatchInside(pat: Pattern, s: string, p: nat, g: Span)
    requires RegexMatch(pat, s, p, g)
    ensures p < |s| && g.end < |s|
  {
  }

  /** `Search` finds exactly the leftmost match of the regular expression. */
  lemma SearchFindsFirstRegexMatch(pat: Pattern, s: string, p: nat, g: Span)
    ensures Search(pat, s, 0) == Some(Hit(p, g)) <==> FirstRegexMatch(pat, s, p, g)
  {
    if Search(pat, s, 0) == Some(Hit(p, g)) {
      SearchIsFirst(pat, s, p, g);
    }
    if FirstRegexMatch(pat, s, p, g) {
      FirstIsSearched(pat, s, p, g);
    }
  }

  lemma SearchIsFirst(pat: Pattern, s: string, p: nat, g: Span)
    requires Search(pat, s, 0) == Some(Hit(p, g))
    ensures FirstRegexMatch(pat, s, p, g)
  {
    MatchAtIsRegex(pat, s, p, g);
    forall q: nat, g': Span | q < p
      ensures !RegexMatch(pat, s, q, g')
    {
      MatchAtIsRegex(pat, s, q, g');
    }
  }

  lemma FirstIsSearched(pat: Pattern, s: string, p: nat, g: Span)
    requires FirstRegexMatch(pat, s, p, g)
    ensures Search(pat, s, 0) == Some(Hit(p, g))
  {
    var h := Search(pat, s, 0);
    MatchAtIsRegex(pat, s, p, g);
    RegexMatchInside(pat, s, p, g);
    if h.Some? {
      MatchAtIsRegex(pat, s, h.value.pos, h.value.group);
    }
  }

  /** `Search` finds nothing exactly when the regular expression never matches. */
  lemma SearchFailsIffNoRegexMatch(pat: Pattern, s: string)
    ensures Search(pat, s, 0).None? <==> forall q: nat, g: Span :: !RegexMatch(pat, s, q, g)
  {
    var h := Search(pat, s, 0);
    if h.None? {
      forall q: nat, g: Span
        ensures !RegexMatch(pat, s, q, g)
      {
        MatchAtIsRegex(pat, s, q, g);
        if RegexMatch(pat, s, q, g) {
          RegexMatchInside(pat, s, q, g);
        }
      }
    } else {
      MatchAtIsRegex(pat, s, h.value.pos, h.value.group);
    }
  }

  /** What each search captures, when it finds something. */
  lemma HitIsRegexMatch(pat: Pattern, s: string)
    ensures var h := Search(pat, s, 0); h.Some? ==>
      && RegexMatch(pat, s, h.value.pos, h.value.group)
      && h.value.pos <= h.value.group.start <= h.value.group.end <= |s|
      && (pat == DurationPat ==> IsDurationText(s[h.value.group.start..h.value.group.end]))
      && (pat == CodePat ==> AllDigits(s[h.value.group.start..h.value.group.end]))
      && (pat == TargetPat ==> s[h.value.group.start..h.value.group.end] != [] && ')' !in s[h.value.group.start..h.value.group.end])
  {
    var h := Search(pat, s, 0);
    if h.Some? {
      var g := h.value.group;
      MatchAtIsRegex(pat, s, h.value.pos, g);
      if pat == DurationPat {
        assert s[g.start..g.end][..g.end - g.start - 1] == s[g.start..g.end - 1];
      }
    }
  }

  /** A duration as the source captures it: one or more digits, then `s`. */
  predicate IsDurationText(d: string) {
    |d| >= 2 && AllDigits(d[..|d| - 1]) && d[|d| - 1] == 's'
  }

  /** The test command: the stripped text before the leftmost `(<digits>s)`. */
  function TestCommand(rest: string): (r: Option<string>)
    ensures r.Some? <==> Search(DurationPat, rest, 0).Some?
  {
    match Search(DurationPat, rest, 0)
    case Some(h) => HitIsRegexMatch(DurationPat, rest); Some(Strip(rest[..h.pos]))
    case None => None
  }

  /** The duration: what the leftmost `(<digits>s)` captured. */
  function Duration(rest: string): (r: Option<string>)
    ensures r.Some? <==> Search(DurationPat, rest, 0).Some?
    ensures r.Some? ==> IsDurationText(r.value)
  {
    match Search(DurationPat, rest, 0)
    case Some(h) => HitIsRegexMatch(DurationPat, rest); Some(rest[h.group.start..h.group.end])
    case None => None
  }

  /** The exit code: the value of the digits in the leftmost `(code: N)`. */
  function ExitCode(rest: string): (r: Option<nat>)
    ensures r.Some? <==> Search(CodePat, rest, 0).Some?
  {
    match Search(CodePat, rest, 0)
    case Some(h) => HitIsRegexMatch(CodePat, rest); Some(DigitsValue(rest[h.group.start..h.group.end]))
    case None => None
  }

  /** The target: the text of the leftmost `(target: ...)`. */
  function Target(rest: string): (r: Option<string>)
    ensures r.Some? <==> Search(TargetPat, rest, 0).Some?
    ensures r.Some? ==> r.value != [] && ')' !in r.value
  {
    match Search(TargetPat, rest, 0)
    case Some(h) => HitIsRegexMatch(TargetPat, rest); Some(rest[h.group.start..h.group.end])
    case None => None
  }

  /**
   * `parse_test_line` (hello.py:9-60). The test command and the duration
   * come from one match and are present together; the target is non-empty
   * and holds no `)`.
   */
  function ParseLine(line: string, soup: Markup): (r: Record)
    ensures r.dateTime == Timestamp(line)
    ensures r.status == soup.status && r.link == soup.link
    ensures r.testCommand.Some? <==> r.duration.Some?
    ensures r.duration.Some? ==> IsDurationText(r.duration.value)
    ensures r.target.Some? ==> r.target.value != [] && ')' !in r.target.value
  {
    var rest := RestOfLine(line);
    Record(Timestamp(line), soup.status, soup.link, TestCommand(rest), Duration(rest), ExitCode(rest), Target(rest))
  }

  /** Without the link marker nothing is taken from the rest of the line (hello.py:30-33). */
  lemma NoMarkerNoFields(line: string, soup: Markup)
    requires forall i :: !At(line, i, LinkClose)
    ensures var r := ParseLine(line, soup);
      r.testCommand.None? && r.duration.None? && r.exitCode.None? && r.target.None?
  {
    assert RestOfLine(line) == "";
  }

  /**
   * The test command is the stripped text before the leftmost `(<digits>s)`
   * and the duration is what that match captured; with no such match
   * neither field exists (hello.py:36-42).
   */
  lemma CommandAndDurationFromFirstMatch(line: string, soup: Markup)
    ensures var rest, r := RestOfLine(line), ParseLine(line, soup);
      forall p: nat, g: Span :: FirstRegexMatch(DurationPat, rest, p, g) ==>
        r.testCommand == Some(Strip(rest[..p])) && r.duration == Some(rest[g.start..g.end])
    ensures var rest, r := RestOfLine(line), ParseLine(line, soup);
      (forall q: nat, g: Span :: !RegexMatch(DurationPat, rest, q, g)) ==> r.testCommand.None? && r.duration.None?
  {
    var rest := RestOfLine(line);
    forall p: nat, g: Span | FirstRegexMatch(DurationPat, rest, p, g)
      ensures Search(DurationPat, rest, 0) == Some(Hit(p, g))
    {
      SearchFindsFirstRegexMatch(DurationPat, rest, p, g);
    }
    SearchFailsIffNoRegexMatch(DurationPat, rest);
  }

  /** The exit code is the value of the digits in the leftmost `(code: N)` (hello.py:45-46). */
  lemma ExitCodeFromFirstMatch(line: string, soup: Markup)
    ensures var rest, r := RestOfLine(line), ParseLine(line, soup);
      forall p: nat, g: Span :: FirstRegexMatch(CodePat, rest, p, g) ==>
        r.exitCode == Some(DigitsValue(rest[g.start..g.end]))
    ensures var rest, r := RestOfLine(line), ParseLine(line, soup);
      (forall q: nat, g: Span :: !RegexMatch(CodePat, rest, q, g)) ==> r.exitCode.None?
  {
    var rest := RestOfLine(line);
    forall p: nat, g: Span | FirstRegexMatch(CodePat, rest, p, g)
      ensures Search(CodePat, rest, 0) == Some(Hit(p, g))
    {
      SearchFindsFirstRegexMatch(CodePat, rest, p, g);
    }
    SearchFailsIffNoRegexMatch(CodePat, rest);
  }

  /** The target is the text of the leftmost `(target: ...)` (hello.py:49-50). */
  lemma TargetFromFirstMatch(line: string, soup: Markup)
    ensures var rest, r := RestOfLine(line), ParseLine(line, soup);
      forall p: nat, g: Span :: FirstRegexMatch(TargetPat, rest, p, g) ==>
        r.target == Some(rest[g.start..g.end])
    ensures var rest, r := RestOfLine(line), ParseLine(line, soup);
      (forall q: nat, g: Span :: !RegexMatch(TargetPat, rest, q, g)) ==> r.target.None?
  {
    var rest := RestOfLine(line);
    forall p: nat, g: Span | FirstRegexMatch(TargetPat, rest, p, g)
      ensures Search(TargetPat, rest, 0) == Some(Hit(p, g))
    {
      SearchFindsFirstRegexMatch(TargetPat, rest, p, g);
    }
    SearchFailsIffNoRegexMatch(TargetPat, rest);
  }

  /**
   * The source skips the length of `</a></span>):` after finding the
   * shorter `</a></span>)`, so the character right after `)` never reaches
   * the rest of the line, whatever it is (hello.py:30-33).
   */
  lemma CharAfterMarkerIgnored(line: string, i: nat, c: char)
    requires FirstAt(line, i, LinkClose)
    requires i + |LinkClose| < |line|
    ensures RestOfLine(line[i + |LinkClose| := c]) == RestOfLine(line)
  {
    var k := i + |LinkClose|;
    var line' := line[k := c];
    assert line'[i..k] == line[i..k];
    forall j | 0 <= j < i
      ensures !At(line', j, LinkClose)
    {
      assert !At(line, j, LinkClose);
      if j + |LinkClose| <= |line'| {
        assert forall t :: j <= t < j + |LinkClose| ==> line'[t] == line[t];
        assert line'[j..j + |LinkClose|] == line[j..j + |LinkClose|];
      }
    }
    assert Drop(line', k + 1) == Drop(line, k + 1);
    assert FirstAt(line', i, LinkClose);
    RestAfterMarker(line', i);
    RestAfterMarker(line, i);
  }

  /**
   * The tail of a CI line: `(<digits>s) (code: <code>) (target: <target>)`.
   */
  function Tail(digits: string, code: string, target: string): string {
    "(" + digits + "s) " + "(code: " + code + ") " + "(target: " + target + ")"
  }

  /**
   * A line in the shape the CI page prints: some markup (timestamp, status
   * span, link) that closes with `</a></span>):`, then the command and the
   * tail.
   */
  function CiLine(head: string, command: string, digits: string, code: string, target: string): string {
    head + LinkClose + ":" + " " + command + " " + Tail(digits, code, target)
  }

  /** The parts a CI line is built from, under the conditions that make it unambiguous. */
  ghost predicate CiParts(head: string, command: string, digits: string, code: string, target: string) {
    && ')' !in head
    && '(' !in command
    && (command == [] || (!IsSpace(command[0]) && !IsSpace(command[|command| - 1])))
    && digits != [] && AllDigits(digits)
    && code != [] && AllDigits(code)
    && target != [] && ')' !in target
  }

  /**
   * `rest` holds, from position `n` on, the tail of a CI line built from
   * `digits`, `code` and `target`.
   */
  ghost predicate TailShape(rest: string, n: nat, digits: string, code: string, target: string) {
    var d, c, t := |digits|, |code|, |target|;
    && |rest| == n + d + c + t + 23
    && rest[n] == '(' && rest[n + 1..n + d + 1] == digits && rest[n + 1..n + d + 2] == digits + "s"
    && rest[n + d + 1] == 's' && rest[n + d + 2] == ')' && rest[n + d + 3] == ' '
    && rest[n + d + 4..n + d + 11] == "(code: "
    && rest[n + d + 11..n + d + 11 + c] == code && rest[n + d + 11 + c] == ')' && rest[n + d + 12 + c] == ' '
    && rest[n + d + c + 13..n + d + c + 22] == "(target: "
    && rest[n + d + c + 22..n + d + c + 22 + t] == target && rest[n + d + c + 22 + t] == ')'
  }

  /** `pre + Tail(...)` has the shape of a tail after `pre`. */
  lemma {:induction false} TailLayout(pre: string, digits: string, code: string, target: string)
    ensures var rest := pre + Tail(digits, code, target);
      TailShape(rest, |pre|, digits, code, target) && rest[..|pre|] == pre
  {
    TailFront(pre, digits, code, target);
    TailBack(pre, digits, code, target);
    ShapeJoin(pre + Tail(digits, code, target), |pre|, digits, code, target);
  }

  lemma TailFront(pre: string, digits: string, code: string, target: string)
    ensures var rest := pre + Tail(digits, code, target);
      StartShape(rest, |pre|, digits) && rest[..|pre|] == pre
  {
    var rest := pre + Tail(digits, code, target);
    var more := "(code: " + code + ") " + "(target: " + target + ")";
    assert rest == pre + ("(" + digits + "s) ") + more;
    TailStart(rest, pre, digits, more);
  }

  lemma TailBack(pre: string, digits: string, code: string, target: string)
    ensures EndShape(pre + Tail(digits, code, target), |pre| + |digits| + 4, code, target)
  {
    var rest := pre + Tail(digits, code, target);
    var front := pre + ("(" + digits + "s) ");
    assert rest == front + ("(code: " + code + ") ") + ("(target: " + target + ")");
    TailEnd(rest, front, code, target);
  }

  /** The duration part of a tail that starts at `n`. */
  ghost predicate StartShape(rest: string, n: nat, digits: string) {
    var d := |digits|;
    && n + d + 4 <= |rest|
    && rest[n] == '(' && rest[n + 1..n + d + 1] == digits && rest[n + 1..n + d + 2] == digits + "s"
    && rest[n + d + 1] == 's' && rest[n + d + 2] == ')' && rest[n + d + 3] == ' '
  }

  /** The exit-code and target parts of a tail, from `m` to the end. */
  ghost predicate EndShape(rest: string, m: nat, code: string, target: string) {
    var c, t := |code|, |target|;
    && |rest| == m + c + t + 19
    && rest[m..m + 7] == "(code: "
    && rest[m + 7..m + 7 + c] == code && rest[m + 7 + c] == ')' && rest[m + 8 + c] == ' '
    && rest[m + c + 9..m + c + 18] == "(target: "
    && rest[m + c + 18..m + c + 18 + t] == target && rest[m + c + 18 + t] == ')'
  }

  lemma ShapeJoin(rest: string, n: nat, digits: string, code: string, target: string)
    requires StartShape(rest, n, digits) && EndShape(rest, n + |digits| + 4, code, target)
    ensures TailShape(rest, n, digits, code, target)
  {
  }

  /** The duration part of `pre + Tail(...)`. */
  lemma {:induction false} TailStart(rest: string, pre: string, digits: string, more: string)
    requires rest == pre + ("(" + digits + "s) ") + more
    ensures StartShape(rest, |pre|, digits) && rest[..|pre|] == pre
  {
    var n, d := |pre|, |digits|;
    assert rest[n + 1..n + d + 1] == digits;
    assert rest[n + 1..n + d + 2] == digits + "s";
  }

  /** The exit-code and target parts of `pre + Tail(...)`. */
  lemma {:induction false} TailEnd(rest: string, front: string, code: string, target: string)
    requires rest == front + ("(code: " + code + ") ") + ("(target: " + target + ")")
    ensures EndShape(rest, |front|, code, target)
  {
    var m, c, t := |front|, |code|, |target|;
    assert rest[m..m + 7] == "(code: ";
    assert rest[m + 7..m + 7 + c] == code;
    assert rest[m + c + 9..m + c + 18] == "(target: ";
    assert rest[m + c + 18..m + c + 18 + t] == target;
  }

  /** Before the target, the only opening parentheses are those of the duration and the code. */
  lemma {:induction false} TailParens(rest: string, n: nat, digits: string, code: string, target: string)
    requires TailShape(rest, n, digits, code, target)
    requires '(' !in rest[..n]
    requires AllDigits(digits) && AllDigits(code)
    ensures var d, c := |digits|, |code|;
      forall q :: 0 <= q < n + d + c + 13 && q != n && q != n + d + 4 ==> rest[q] != '('
  {
    var d, c := |digits|, |code|;
    var P := n + d + 4;
    assert forall q :: 0 <= q < n ==> rest[q] != '(' by {
      forall q | 0 <= q < n
        ensures rest[q] != '('
      {
        assert rest[q] == rest[..n][q];
      }
    }
    assert forall q :: n < q <= n + d ==> rest[q] != '(' by {
      forall q | n < q <= n + d
        ensures rest[q] != '('
      {
        assert rest[q] == rest[n + 1..n + d + 1][q - n - 1] && IsDigit(digits[q - n - 1]);
      }
    }
    assert forall q :: P < q < P + 7 ==> rest[q] != '(' by {
      forall q | P < q < P + 7
        ensures rest[q] != '('
      {
        assert rest[q] == rest[P..P + 7][q - P];
      }
    }
    assert forall q :: P + 7 <= q < P + 7 + c ==> rest[q] != '(' by {
      forall q | P + 7 <= q < P + 7 + c
        ensures rest[q] != '('
      {
        assert rest[q] == rest[P + 7..P + 7 + c][q - P - 7] && IsDigit(code[q - P - 7]);
      }
    }
  }

  /** The duration search lands on `(<digits>s)`. */
  lemma {:induction false} DurationInTail(rest: string, n: nat, digits: string, code: string, target: string)
    requires TailShape(rest, n, digits, code, target)
    requires '(' !in rest[..n]
    requires digits != [] && AllDigits(digits)
    ensures Search(DurationPat, rest, 0) == Some(Hit(n, Span(n + 1, n + |digits| + 2)))
  {
    var d := |digits|;
    assert rest[n..n + 1] == "(" && rest[n + 1..n + d + 1] == digits;
    forall q | 0 <= q < n
      ensures rest[q] != '('
    {
      assert rest[q] == rest[..n][q];
    }
    DurationFirst(rest, n, d);
  }

  /** The exit-code search lands on `(code: <code>)`. */
  lemma {:induction false} CodeInTail(rest: string, n: nat, digits: string, code: string, target: string)
    requires TailShape(rest, n, digits, code, target)
    requires '(' !in rest[..n]
    requires digits != [] && AllDigits(digits)
    requires code != [] && AllDigits(code)
    ensures var d, c := |digits|, |code|;
      Search(CodePat, rest, 0) == Some(Hit(n + d + 4, Span(n + d + 11, n + d + 11 + c)))
  {
    var d, c := |digits|, |code|;
    var P := n + d + 4;
    assert rest[P..P + 7] == "(code: " && rest[P + 7..P + 7 + c] == code && rest[P + 7 + c] == ')';
    assert rest[n] == '(' && rest[n + 1] == digits[0] && IsDigit(digits[0]);
    TailParens(rest, n, digits, code, target);
    CodeFirst(rest, n, P, c);
  }

  /** The target search lands on `(target: <target>)`. */
  lemma {:induction false} TargetInTail(rest: string, n: nat, digits: string, code: string, target: string)
    requires TailShape(rest, n, digits, code, target)
    requires '(' !in rest[..n]
    requires digits != [] && AllDigits(digits) && AllDigits(code)
    requires target != [] && ')' !in target
    ensures var d, c, t := |digits|, |code|, |target|;
      Search(TargetPat, rest, 0) == Some(Hit(n + d + c + 13, Span(n + d + c + 22, n + d + c + 22 + t)))
  {
    var d, c, t := |digits|, |code|, |target|;
    var P, Q := n + d + 4, n + d + c + 13;
    assert rest[Q..Q + 9] == "(target: " && rest[Q + 9..Q + 9 + t] == target && rest[Q + 9 + t] == ')';
    assert rest[n] == '(' && rest[n + 1] == digits[0] && IsDigit(digits[0]);
    assert rest[P + 1] == rest[P..P + 7][1] == 'c';
    TailParens(rest, n, digits, code, target);
    TargetFirst(rest, n, P, Q, t);
  }

  lemma DurationFirst(rest: string, n: nat, d: nat)
    requires n + d + 2 < |rest| && d >= 1
    requires rest[n..n + 1] == "(" && AllDigits(rest[n + 1..n + d + 1])
    requires rest[n + d + 1] == 's' && rest[n + d + 2] == ')'
    requires forall q :: 0 <= q < n ==> rest[q] != '('
    ensures Search(DurationPat, rest, 0) == Some(Hit(n, Span(n + 1, n + d + 2)))
  {
    forall q: nat, g: Span | q < n
      ensures !RegexMatch(DurationPat, rest, q, g)
    {
      assert rest[q] != '(';
      if q + 1 <= |rest| {
        assert rest[q..q + 1][0] == rest[q];
      }
    }
    FirstIsSearched(DurationPat, rest, n, Span(n + 1, n + d + 2));
  }

  lemma CodeFirst(rest: string, n: nat, P: nat, c: nat)
    requires n < P && P + 7 + c < |rest| && c >= 1
    requires rest[n] == '(' && rest[n + 1] != 'c'
    requires rest[P..P + 7] == "(code: " && AllDigits(rest[P + 7..P + 7 + c]) && rest[P + 7 + c] == ')'
    requires forall q :: 0 <= q < P && q != n ==> rest[q] != '('
    ensures Search(CodePat, rest, 0) == Some(Hit(P, Span(P + 7, P + 7 + c)))
  {
    forall q: nat, g: Span | q < P
      ensures !RegexMatch(CodePat, rest, q, g)
    {
      if q + 7 <= |rest| {
        assert rest[q..q + 7][0] == rest[q] && rest[q..q + 7][1] == rest[q + 1];
      }
    }
    FirstIsSearched(CodePat, rest, P, Span(P + 7, P + 7 + c));
  }

  lemma TargetFirst(rest: string, n: nat, P: nat, Q: nat, t: nat)
    requires n < P < Q && Q + 9 + t < |rest| && t >= 1
    requires rest[n] == '(' && rest[n + 1] != 't' && rest[P + 1] == 'c'
    requires rest[Q..Q + 9] == "(target: " && ')' !in rest[Q + 9..Q + 9 + t] && rest[Q + 9 + t] == ')'
    requires forall q :: 0 <= q < Q && q != n && q != P ==> rest[q] != '('
    ensures Search(TargetPat, rest, 0) == Some(Hit(Q, Span(Q + 9, Q + 9 + t)))
  {
    forall q: nat, g: Span | q < Q
      ensures !RegexMatch(TargetPat, rest, q, g)
    {
      if q + 9 <= |rest| {
        assert rest[q..q + 9][0] == rest[q] && rest[q..q + 9][1] == rest[q + 1];
      }
    }
    FirstIsSearched(TargetPat, rest, Q, Span(Q + 9, Q + 9 + t));
  }

  /** The text before the duration in the rest of a CI line. */
  function CommandPrefix(command: string): string {
    if command == [] then "" else command + " "
  }

  /** The first `</a></span>)` of a CI line is the one after the markup. */
  lemma {:induction false} CiLineMarker(head: string, command: string, digits: string, code: string, target: string)
    requires ')' !in head
    ensures var line := CiLine(head, command, digits, code, target);
      && FirstAt(line, |head|, LinkClose)
      && Drop(line, |head| + |LinkClose| + 1) == " " + command + " " + Tail(digits, code, target)
  {
    var line := CiLine(head, command, digits, code, target);
    var rest0 := " " + command + " " + Tail(digits, code, target);
    var h := |head|;
    assert line == head + LinkClose + ":" + rest0;
    assert line[h..h + 12] == LinkClose;
    forall j | 0 <= j < h
      ensures !At(line, j, LinkClose)
    {
      if j + 11 < h {
        assert line[j + 11] == head[j + 11] && head[j + 11] in head;
      } else {
        assert line[j + 11] == LinkClose[j + 11 - h];
      }
      if j + 12 <= |line| {
        assert line[j..j + 12][11] == line[j + 11];
      }
    }
    assert Drop(line, h + 13) == rest0;
  }

  /** Stripping the text after the marker leaves the command (if any), a space, and the tail. */
  lemma {:induction false} StripCommandTail(command: string, tail: string)
    requires command == [] || (!IsSpace(command[0]) && !IsSpace(command[|command| - 1]))
    requires |tail| >= 1 && tail[0] == '(' && tail[|tail| - 1] == ')'
    ensures Strip(" " + command + " " + tail) == CommandPrefix(command) + tail
  {
    var rest0 := " " + command + " " + tail;
    var rest := CommandPrefix(command) + tail;
    if command == [] {
      assert rest0 == "  " + rest;
      OpenLStrip("  ", rest);
    } else {
      assert rest0 == " " + rest;
      OpenLStrip(" ", rest);
    }
    ClosedRStrip(CommandPrefix(command), tail);
  }

  /** Stripping white space in front of text that starts with something else. */
  lemma OpenLStrip(pad: string, body: string)
    requires AllSpace(pad) && body != [] && !IsSpace(body[0])
    ensures LStrip(pad + body) == body
  {
    var s := pad + body;
    assert s[..|pad|] == pad && s[|pad|..] == body;
    LStripExact(s, |pad|);
  }

  /** Text that ends with `)` has no trailing white space to strip. */
  lemma ClosedRStrip(front: string, tail: string)
    requires |tail| >= 1 && tail[|tail| - 1] == ')'
    ensures RStrip(front + tail) == front + tail
  {
    var s := front + tail;
    assert s[|s| - 1] == ')';
    RStripExact(s, |s|);
  }

  /** The rest of a CI line is the command (if any), a space, and the tail. */
  lemma {:induction false} CiLineRest(head: string, command: string, digits: string, code: string, target: string)
    requires CiParts(head, command, digits, code, target)
    ensures RestOfLine(CiLine(head, command, digits, code, target)) == CommandPrefix(command) + Tail(digits, code, target)
  {
    var line := CiLine(head, command, digits, code, target);
    var tail := Tail(digits, code, target);
    CiLineMarker(head, command, digits, code, target);
    assert tail[0] == '(' && tail[|tail| - 1] == ')';
    StripCommandTail(command, tail);
    RestAfterMarker(line, |head|);
  }

  /** The command is what stripping its prefix gives back. */
  lemma {:induction false} StripCommandPrefix(command: string)
    requires command == [] || (!IsSpace(command[0]) && !IsSpace(command[|command| - 1]))
    ensures Strip(CommandPrefix(command)) == command
  {
    if command != [] {
      var pre := CommandPrefix(command);
      LStripExact(pre, 0);
      RStripExact(pre, |command|);
    }
  }

  /**
   * A line in the shape the CI page prints parses back to its parts: the
   * command, `<digits>s`, the value of the exit code and the target
   * (hello.py:30-50).
   */
  lemma {:induction false} CiLineRoundTrip(head: string, command: string, digits: string, code: string, target: string, soup: Markup)
    requires CiParts(head, command, digits, code, target)
    ensures var line := CiLine(head, command, digits, code, target);
      ParseLine(line, soup) == Record(Timestamp(line), soup.status, soup.link,
        Some(command), Some(digits + "s"), Some(DigitsValue(code)), Some(target))
  {
    var line := CiLine(head, command, digits, code, target);
    var pre := CommandPrefix(command);
    var rest := pre + Tail(digits, code, target);
    assert RestOfLine(line) == rest && TailedRest(rest, |pre|, command, digits, code, target) by {
      CiLineRest(head, command, digits, code, target);
      CiTail(command, digits, code, target);
    }
    ParseTailedLine(line, soup, rest, |pre|, command, digits, code, target);
  }

  /**
   * `rest` is the command, stripped, in its first `n` characters and a tail
   * from there on, with parts that keep each search on its own group.
   */
  ghost predicate TailedRest(rest: string, n: nat, command: string, digits: string, code: string, target: string) {
    && TailShape(rest, n, digits, code, target)
    && '(' !in rest[..n] && Strip(rest[..n]) == command
    && digits != [] && AllDigits(digits)
    && code != [] && AllDigits(code)
    && target != [] && ')' !in target
  }

  /** The rest of a CI line is a tailed rest. */
  lemma {:induction false} CiTail(command: string, digits: string, code: string, target: string)
    requires '(' !in command
    requires command == [] || (!IsSpace(command[0]) && !IsSpace(command[|command| - 1]))
    requires digits != [] && AllDigits(digits)
    requires code != [] && AllDigits(code)
    requires target != [] && ')' !in target
    ensures var pre := CommandPrefix(command);
      TailedRest(pre + Tail(digits, code, target), |pre|, command, digits, code, target)
  {
    var pre := CommandPrefix(command);
    TailLayout(pre, digits, code, target);
    StripCommandPrefix(command);
    assert '(' !in pre;
  }

  /** A line whose rest is a command and a tail parses back to their parts. */
  lemma {:induction false} ParseTailedLine(line: string, soup: Markup, rest: string, n: nat,
                                           command: string, digits: string, code: string, target: string)
    requires RestOfLine(line) == rest
    requires TailedRest(rest, n, command, digits, code, target)
    ensures ParseLine(line, soup) == Record(Timestamp(line), soup.status, soup.link,
      Some(command), Some(digits + "s"), Some(DigitsValue(code)), Some(target))
  {
    TailedDuration(rest, n, digits, code, target);
    TailedExitCode(rest, n, digits, code, target);
    TailedTarget(rest, n, digits, code, target);
  }

  lemma {:induction false} TailedDuration(rest: string, n: nat, digits: string, code: string, target: string)
    requires TailShape(rest, n, digits, code, target)
    requires '(' !in rest[..n]
    requires digits != [] && AllDigits(digits)
    ensures TestCommand(rest) == Some(Strip(rest[..n]))
    ensures Duration(rest) == Some(digits + "s")
  {
    DurationInTail(rest, n, digits, code, target);
  }

  lemma {:induction false} TailedExitCode(rest: string, n: nat, digits: string, code: string, target: string)
    requires TailShape(rest, n, digits, code, target)
    requires '(' !in rest[..n]
    requires digits != [] && AllDigits(digits)
    requires code != [] && AllDigits(code)
    ensures ExitCode(rest) == Some(DigitsValue(code))
  {
    var d, c := |digits|, |code|;
    var g := Span(n + d + 11, n + d + 11 + c);
    CodeInTail(rest, n, digits, code, target);
    assert rest[g.start..g.end] == code;
  }

  lemma {:induction false} TailedTarget(rest: string, n: nat, digits: string, code: string, target: string)
    requires TailShape(rest, n, digits, code, target)
    requires '(' !in rest[..n]
    requires digits != [] && AllDigits(digits) && AllDigits(code)
    requires target != [] && ')' !in target
    ensures Target(rest) == Some(target)
  {
    var d, c, t := |digits|, |code|, |target|;
    var g := Span(n + d + c + 22, n + d + c + 22 + t);
    TargetInTail(rest, n, digits, code, target);
    TargetOfHit(rest, Hit(n + d + c + 13, g));
    assert rest[g.start..g.end] == target;
  }

  /** The target is the group of the hit the target search reports. */
  lemma TargetOfHit(rest: string, h: Hit)
    requires Search(TargetPat, rest, 0) == Some(h)
    ensures h.group.start <= h.group.end <= |rest|
    ensures Target(rest) == Some(rest[h.group.start..h.group.end])
  {
    HitIsRegexMatch(TargetPat, rest);
  }

  /** A CI line starts with the timestamp of its markup. */
  lemma {:induction false} CiLineStamp(stamp: string, markup: string, command: string, digits: string, code: string, target: string)
    requires |stamp| == 14 && StampShape(stamp + ":")
    requires |markup| >= 1 && markup[0] == ':'
    ensures Timestamp(CiLine(stamp + markup, command, digits, code, target)) == Some(stamp)
  {
    var line := CiLine(stamp + markup, command, digits, code, target);
    var probe := stamp + ":";
    assert forall i :: 0 <= i < 15 ==> line[i] == probe[i];
    assert line[..14] == stamp;
  }
}
