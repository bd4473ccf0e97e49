/** The Go command's breakdown of an ALPS document into features and tasks
    (cmd/alps/main.go): cutting Section 6 out of the document, reading its
    `### N.N title` headings into features, and giving each feature one task. */
module Breakdown {
  import opened Strings

  datatype Task = Task(
    id: string,
    name: string,
    description: string,
    acceptanceCriteria: seq<string>,
    estimatedHours: int,
    difficulty: string,
    dependencies: seq<string>,
    priority: int,
    status: string)

  /** `raw` is the text gathered under the feature's heading; it is not part
      of any output. */
  datatype Feature = Feature(id: string, name: string, tasks: seq<Task>, raw: string)

  /** `estimatedDaysTenths` is the estimate in tenths of a day: the
      one-decimal value the output prints. */
  datatype Project = Project(
    name: string,
    createdAt: string,
    totalFeatures: int,
    totalTasks: int,
    estimatedDaysTenths: nat,
    features: seq<Feature>)

  const NotFoundMessage := "section 6 not found"

  // ---------------------------------------------------------------------------
  // Cutting out Section 6
  // ---------------------------------------------------------------------------

  /** The regular expressions' literal space ` `. */
  predicate IsSpaceChar(c: char) {
    c == ' '
  }

  function LowerChar(c: char): char {
    if 'A' <= c <= 'Z' then ((c as int) + 32) as char else c
  }

  /** strings.ToLower, for the letters a heading can contain. */
  function Lower(s: string): (r: string)
    ensures |r| == |s|
    ensures forall i :: 0 <= i < |s| ==> r[i] == LowerChar(s[i])
  {
    seq(|s|, i requires 0 <= i < |s| => LowerChar(s[i]))
  }

  /** Position `p` is where a line begins: `(?m)^`. */
  predicate LineStartAt(s: string, p: nat) {
    p <= |s| && (p == 0 || s[p - 1] == '\n')
  }

  /** `(?m)^## +(?:section|섹션) 6` matches at position `p` of `lower`. */
  predicate Section6HeadingAt(lower: string, p: nat) {
    p + 2 < |lower| && LineStartAt(lower, p)
    && lower[p] == '#' && lower[p + 1] == '#' && lower[p + 2] == ' '
    && var after := lower[p + 2..];
    var n := LeadingCount(after, IsSpaceChar);
    StartsWith(after[n..], "section 6") || StartsWith(after[n..], "섹션 6")
  }

  /** `(?m)^## +` matches at position `q` of `t`. */
  predicate LevelTwoHeadingAt(t: string, q: nat) {
    LineStartAt(t, q) && StartsWith(t[q..], "## ")
  }

  /** Where the first Section 6 heading of the lower-cased text starts. */
  function Section6Start(content: string): (r: Option<nat>)
    ensures r.Some? ==> r.value + 2 < |content|
  {
    var lower := Lower(content);
    FirstFrom(0, |lower|, (p: nat) => Section6HeadingAt(lower, p))
  }

  /** The search finds the leftmost heading, and finds one whenever there is
      one. */
  lemma Section6StartIsFirst(content: string)
    ensures var r := Section6Start(content);
      && (r.Some? ==> Section6HeadingAt(Lower(content), r.value))
      && (r.Some? ==> forall p :: 0 <= p < r.value ==> !Section6HeadingAt(Lower(content), p))
      && (r.None? <==> forall p :: 0 <= p <= |content| ==> !Section6HeadingAt(Lower(content), p))
  {
    var lower := Lower(content);
    var heading := (p: nat) => Section6HeadingAt(lower, p);
    assert forall p: nat :: heading(p) == Section6HeadingAt(lower, p);
    assert Section6Start(content) == FirstFrom(0, |lower|, heading);
    FirstFromIsLeftmost(0, |lower|, heading);
  }

  /** Where the section that starts at `start` ends, counted from `start`:
      the next "## " line, searched for from two characters into the
      section (the heading line itself starts with "##"), or the end. */
  function SectionLength(content: string, start: nat): (n: nat)
    requires start + 2 <= |content|
    ensures 2 <= n <= |content| - start
  {
    var t := content[start..][2..];
    var heading := (q: nat) => LevelTwoHeadingAt(t, q);
    match FirstFrom(0, |t|, heading)
    case None => |content| - start
    case Some(q) => q + 2
  }

  /** The text from the first Section 6 heading of the lower-cased document
      up to the next line that starts with "## ", trimmed. */
  function ExtractSection6(content: string): (r: Result<string, string>)
    ensures r.Failure? ==> r.error == NotFoundMessage
    ensures r.Success? ==> Section6Start(content).Some?
  {
    match Section6Start(content)
    case None => Failure(NotFoundMessage)
    case Some(start) => Success(SectionAt(content, start))
  }

  /** The text from `start` up to the next level-two heading, trimmed. */
  function SectionAt(content: string, start: nat): string
    requires start + 2 <= |content|
  {
    TrimSpace(content[start..start + SectionLength(content, start)])
  }

  /** The error is reported exactly when no line of the lower-cased
      document is a Section 6 heading. */
  lemma ExtractSection6NotFound(content: string)
    ensures ExtractSection6(content).Failure?
        <==> forall p :: 0 <= p <= |content| ==> !Section6HeadingAt(Lower(content), p)
  {
    Section6StartIsFirst(content);
  }

  /** The first Section 6 heading of the document starts at `start`. */
  predicate FirstSection6HeadingAt(content: string, start: nat) {
    Section6HeadingAt(Lower(content), start)
    && forall p :: 0 <= p < start ==> !Section6HeadingAt(Lower(content), p)
  }

  /** A line of `content` starting "## " begins at `e`. */
  predicate NextHeadingAt(content: string, e: nat) {
    0 < e <= |content| && content[e - 1] == '\n' && StartsWith(content[e..], "## ")
  }

  /** The section that starts at `start` ends at `end`: at the first line
      after the heading line that starts "## " (a "### " line does not
      end it), or at the end of the document. */
  predicate SectionEndsAt(content: string, start: nat, end: nat) {
    start + 2 < end <= |content|
    && (end == |content| || NextHeadingAt(content, end))
    && forall e :: start + 2 < e < end ==> !NextHeadingAt(content, e)
  }

  /** Lower-casing never makes or unmakes the heading's marks. */
  lemma LowerKeepsMarks(s: string, i: nat)
    requires i < |s|
    ensures Lower(s)[i] == '#' <==> s[i] == '#'
    ensures Lower(s)[i] == ' ' <==> s[i] == ' '
    ensures Lower(s)[i] == '\n' <==> s[i] == '\n'
  {
  }

  /** Where the next heading search of the text two characters into the
      section finds a match, the document has a "## " line. */
  lemma LevelTwoHeadingShift(content: string, start: nat, q: nat)
    requires start + 2 < |content| && content[start + 2] == ' '
    requires q <= |content| - start - 2
    ensures LevelTwoHeadingAt(content[start..][2..], q) <==> q > 0 && NextHeadingAt(content, start + 2 + q)
  {
    var t := content[start..][2..];
    assert t == content[start + 2..];
    assert t[q..] == content[start + 2 + q..];
    if q == 0 {
      assert t[0] == ' ';
    } else {
      assert t[q - 1] == content[start + 2 + q - 1];
    }
  }

  /** The search for the next heading stops where the section ends. */
  lemma SectionLengthIs(content: string, start: nat, end: nat)
    requires start + 2 < |content| && content[start + 2] == ' '
    requires SectionEndsAt(content, start, end)
    ensures SectionLength(content, start) == end - start
  {
    var t := content[start..][2..];
    var heading := (q: nat) => LevelTwoHeadingAt(t, q);
    assert forall q: nat :: heading(q) == LevelTwoHeadingAt(t, q);
    var next := FirstFrom(0, |t|, heading);
    FirstFromIsLeftmost(0, |t|, heading);
    if end == |content| {
      forall q | 0 <= q <= |t| ensures !LevelTwoHeadingAt(t, q) {
        LevelTwoHeadingShift(content, start, q);
      }
      assert next.None?;
    } else {
      LevelTwoHeadingShift(content, start, end - start - 2);
      forall q | 0 <= q < end - start - 2 ensures !LevelTwoHeadingAt(t, q) {
        LevelTwoHeadingShift(content, start, q);
      }
      assert next == Some(end - start - 2);
    }
  }

  lemma ExtractSection6At(content: string, start: nat)
    requires Section6Start(content).Some? && Section6Start(content).value == start
    ensures start + 2 < |content|
    ensures ExtractSection6(content).Success?
    ensures ExtractSection6(content).value == SectionAt(content, start)
  {
  }

  lemma SectionAtEnd(content: string, start: nat, end: nat)
    requires start + 2 <= |content| && start + SectionLength(content, start) == end
    ensures SectionAt(content, start) == TrimSpace(content[start..end])
  {
    assert content[start..start + SectionLength(content, start)] == content[start..end];
  }

  /** The Go function's result described without its search: the trimmed
      text between the first Section 6 heading and the next "## " line. */
  lemma ExtractSection6Cuts(content: string, start: nat, end: nat)
    requires FirstSection6HeadingAt(content, start)
    requires SectionEndsAt(content, start, end)
    ensures ExtractSection6(content).Success?
    ensures ExtractSection6(content).value == TrimSpace(content[start..end])
  {
    assert Section6Start(content).Some? && Section6Start(content).value == start by {
      Section6StartIsFirst(content);
      var found := Section6Start(content);
      assert Section6HeadingAt(Lower(content), start);
      assert found.Some?;
      assert !(found.value < start);
      assert !(start < found.value);
    }
    assert SectionLength(content, start) == end - start by {
      LowerKeepsMarks(content, start + 2);
      SectionLengthIs(content, start, end);
    }
    ExtractSection6At(content, start);
    SectionAtEnd(content, start, end);
  }

  /** Trimming keeps a text's first two characters when neither is a space. */
  lemma TrimKeepsTwoMarks(s: string)
    requires |s| >= 2 && s[0] == '#' && s[1] == '#'
    ensures StartsWith(TrimSpace(s), "##")
  {
    assert LeadingCount(s, IsGoSpace) == 0;
    var v := TrimSpace(s);
    assert v == s[..|v|];
    assert v[..2] == s[..2];
  }

  /** The section begins with its own "##" heading. */
  lemma ExtractSection6StartsWithHeading(content: string)
    requires ExtractSection6(content).Success?
    ensures StartsWith(ExtractSection6(content).value, "##")
  {
    var start := Section6Start(content).value;
    ExtractSection6At(content, start);
    assert content[start] == '#' && content[start + 1] == '#' by {
      Section6StartIsFirst(content);
      LowerKeepsMarks(content, start);
      LowerKeepsMarks(content, start + 1);
    }
    SectionAtStartsWithMarks(content, start);
  }

  lemma SectionAtStartsWithMarks(content: string, start: nat)
    requires start + 2 <= |content| && content[start] == '#' && content[start + 1] == '#'
    ensures StartsWith(SectionAt(content, start), "##")
  {
    var cut := content[start..start + SectionLength(content, start)];
    assert cut[0] == '#' && cut[1] == '#';
    TrimKeepsTwoMarks(cut);
  }

  // ---------------------------------------------------------------------------
  // Feature headings: `^### +([0-9]+\.[0-9]+) +(.+)$`
  // ---------------------------------------------------------------------------

  /** The two groups the heading pattern captures: the number and the title. */
  datatype HeadingMatch = HeadingMatch(number: string, title: string)

  function Spaces(n: nat): (r: string)
    ensures |r| == n && AllSpace(r, IsSpaceChar)
  {
    seq(n, _ => ' ')
  }

  /** The heading pattern applied to one line: "###", then the rest. */
  function MatchFeatureHeading(line: string): Option<HeadingMatch> {
    if StartsWith(line, "###") then MatchAfterHashes(line[3..]) else None
  }

  /** ` +([0-9]+\.[0-9]+) +(.+)$` after the hashes. */
  function MatchAfterHashes(a: string): Option<HeadingMatch> {
    var n1 := LeadingCount(a, IsSpaceChar);
    if n1 == 0 then None else MatchNumber(a[n1..])
  }

  /** `([0-9]+\.[0-9]+) +(.+)$`: the major digits and the dot, then the rest. */
  function MatchNumber(b: string): Option<HeadingMatch> {
    var d1 := LeadingCount(b, IsDigit);
    if d1 == 0 || d1 == |b| || b[d1] != '.' then None else MatchMinor(b[..d1 + 1], b[d1 + 1..])
  }

  /** The minor digits after `major` (digits and a dot), then ` +(.+)$`. */
  function MatchMinor(major: string, c: string): Option<HeadingMatch> {
    var d2 := LeadingCount(c, IsDigit);
    if d2 == 0 then None
    else match MatchTitle(c[d2..])
      case None => None
      case Some(title) => Some(HeadingMatch(major + c[..d2], title))
  }

  /** ` +(.+)$`. The space run is greedy: it leaves the title starting at
      the first non-space character, or, when only spaces follow, at the
      last of them. `.` does not match a line break and `$` is the end of
      the text. */
  function MatchTitle(r: string): Option<string> {
    if |r| < 2 || r[0] != ' ' || '\n' in r then None
    else
      var n2 := LeadingCount(r, IsSpaceChar);
      Some(if n2 < |r| then r[n2..] else [' '])
  }

  /** Digits, a dot, digits: what the number group matches. */
  predicate IsNumberGroup(s: string) {
    exists k :: 0 < k < |s| - 1 && s[k] == '.' && AllDigits(s[..k]) && AllDigits(s[k + 1..])
  }

  lemma MatchTitleAccepts(n2: nat, title: string)
    requires n2 >= 1 && title != [] && title[0] != ' ' && '\n' !in title
    ensures MatchTitle(Spaces(n2) + title) == Some(title)
  {
    var r := Spaces(n2) + title;
    assert r[..n2] == Spaces(n2) && r[n2..] == title;
    LeadingCountIs(r, IsSpaceChar, n2);
    assert '\n' !in r by {
      forall i | 0 <= i < |r| ensures r[i] != '\n' {
        if i >= n2 {
          assert r[i] == title[i - n2];
        }
      }
    }
  }

  lemma MatchTitleShape(r: string)
    requires MatchTitle(r).Some?
    ensures var t := MatchTitle(r).value;
      && t != [] && '\n' !in t && (t[0] == ' ' ==> t == " ")
      && |t| < |r| && r == Spaces(|r| - |t|) + t
  {
    var n2 := LeadingCount(r, IsSpaceChar);
    var k := if n2 < |r| then n2 else |r| - 1;
    assert MatchTitle(r).value == r[k..];
    assert r[..k] == Spaces(k);
    assert r == r[..k] + r[k..];
  }

  lemma MatchMinorAccepts(major: string, d2: string, n2: nat, title: string)
    requires d2 != [] && AllDigits(d2)
    requires n2 >= 1 && title != [] && title[0] != ' ' && '\n' !in title
    ensures MatchMinor(major, d2 + Spaces(n2) + title) == Some(HeadingMatch(major + d2, title))
  {
    var r := Spaces(n2) + title;
    var c := d2 + r;
    assert c == d2 + Spaces(n2) + title;
    assert c[..|d2|] == d2 && c[|d2|..] == r;
    LeadingCountIs(c, IsDigit, |d2|);
    MatchTitleAccepts(n2, title);
  }

  lemma MatchMinorShape(major: string, c: string)
    requires MatchMinor(major, c).Some?
    ensures var m := MatchMinor(major, c).value;
      && |major| <= |m.number| && m.number[..|major|] == major
      && m.number[|major|..] != [] && AllDigits(m.number[|major|..])
      && |m.number| - |major| + |m.title| < |c|
      && c == m.number[|major|..] + Spaces(|c| - (|m.number| - |major|) - |m.title|) + m.title
      && m.title != [] && '\n' !in m.title && (m.title[0] == ' ' ==> m.title == " ")
  {
    var d2 := LeadingCount(c, IsDigit);
    var m := MatchMinor(major, c).value;
    MatchTitleShape(c[d2..]);
    assert m.number == major + c[..d2];
    assert m.number[|major|..] == c[..d2];
    assert c == c[..d2] + c[d2..];
  }

  lemma MatchNumberAccepts(d1: string, d2: string, n2: nat, title: string)
    requires d1 != [] && d2 != [] && AllDigits(d1) && AllDigits(d2)
    requires n2 >= 1 && title != [] && title[0] != ' ' && '\n' !in title
    ensures MatchNumber(d1 + "." + d2 + Spaces(n2) + title) == Some(HeadingMatch(d1 + "." + d2, title))
  {
    var c := d2 + Spaces(n2) + title;
    var b := d1 + "." + c;
    assert b == d1 + "." + d2 + Spaces(n2) + title;
    assert b[..|d1|] == d1 && b[|d1|] == '.';
    assert b[..|d1| + 1] == d1 + "." && b[|d1| + 1..] == c;
    LeadingCountIs(b, IsDigit, |d1|);
    MatchMinorAccepts(d1 + ".", d2, n2, title);
    assert d1 + "." + d2 == (d1 + ".") + d2;
  }

  lemma MatchNumberShape(b: string, m: HeadingMatch)
    requires MatchNumber(b).Some? && MatchNumber(b).value == m
    ensures IsNumberGroup(m.number)
    ensures |m.number| + |m.title| < |b|
    ensures b == m.number + Spaces(|b| - |m.number| - |m.title|) + m.title
    ensures m.title != [] && '\n' !in m.title && (m.title[0] == ' ' ==> m.title == " ")
  {
    var major, c := SplitMajor(b);
    MatchNumberParts(b, major, c, m);
  }

  /** Text the number pattern accepts starts with its major digits and the
      dot. */
  lemma SplitMajor(b: string) returns (major: string, c: string)
    requires MatchNumber(b).Some?
    ensures |major| >= 2 && major[|major| - 1] == '.' && AllDigits(major[..|major| - 1])
    ensures b == major + c && MatchMinor(major, c).Some? && MatchNumber(b).value == MatchMinor(major, c).value
  {
    var d1 := LeadingCount(b, IsDigit);
    major, c := b[..d1 + 1], b[d1 + 1..];
    assert 0 < d1 < |b| && b[d1] == '.';
    assert MatchMinor(major, c).Some? && MatchNumber(b).value == MatchMinor(major, c).value;
    assert AllDigits(major[..d1]) by {
      assert major[..d1] == b[..d1];
      DigitRun(b, d1);
    }
    assert b == major + c;
  }

  lemma DigitRun(s: string, n: nat)
    requires n <= |s| && AllSpace(s[..n], IsDigit)
    ensures AllDigits(s[..n])
  {
  }

  /** MatchNumberShape once the major part (digits and the dot) is split
      off. */
  lemma MatchNumberParts(b: string, major: string, c: string, m: HeadingMatch)
    requires |major| >= 2 && major[|major| - 1] == '.' && AllDigits(major[..|major| - 1])
    requires b == major + c && MatchMinor(major, c).Some? && MatchMinor(major, c).value == m
    ensures IsNumberGroup(m.number)
    ensures |m.number| + |m.title| < |b|
    ensures b == m.number + Spaces(|b| - |m.number| - |m.title|) + m.title
    ensures m.title != [] && '\n' !in m.title && (m.title[0] == ' ' ==> m.title == " ")
  {
    MatchMinorShape(major, c);
    NumberGroupAfterMajor(major, m.number);
    var minor := m.number[|major|..];
    var sp := Spaces(|c| - |minor| - |m.title|);
    assert m.number == major + minor;
    ConcatAssoc(major, minor + sp, m.title);
    ConcatAssoc(major, minor, sp);
  }

  /** Digits and a dot, followed by digits, make a number group. */
  lemma NumberGroupAfterMajor(major: string, number: string)
    requires |major| >= 2 && major[|major| - 1] == '.' && AllDigits(major[..|major| - 1])
    requires |major| <= |number| && number[..|major|] == major
    requires number[|major|..] != [] && AllDigits(number[|major|..])
    ensures IsNumberGroup(number)
  {
    var k := |major| - 1;
    assert number[k] == major[k];
    assert number[..k] == major[..k];
  }

  /** Every line of the form "###", spaces, digits "." digits, spaces, then a
      title that starts with a non-space and has no line break, is a heading,
      and its groups are that number and that title. */
  lemma MatchFeatureHeadingAccepts(n1: nat, d1: string, d2: string, n2: nat, title: string)
    requires n1 >= 1 && n2 >= 1
    requires d1 != [] && d2 != [] && AllDigits(d1) && AllDigits(d2)
    requires title != [] && title[0] != ' ' && '\n' !in title
    ensures MatchFeatureHeading("###" + Spaces(n1) + d1 + "." + d2 + Spaces(n2) + title)
      == Some(HeadingMatch(d1 + "." + d2, title))
  {
    var b := d1 + "." + d2 + Spaces(n2) + title;
    var line := "###" + Spaces(n1) + d1 + "." + d2 + Spaces(n2) + title;
    assert line == "###" + Spaces(n1) + b;
    assert b[0] == d1[0];
    HeadingAfterHashes(line, n1, b);
    MatchNumberAccepts(d1, d2, n2, title);
  }

  /** After "###" and a run of spaces, the heading pattern is the number
      pattern on the rest. */
  lemma HeadingAfterHashes(line: string, n1: nat, b: string)
    requires n1 >= 1 && line == "###" + Spaces(n1) + b && b != [] && b[0] != ' '
    ensures MatchFeatureHeading(line) == MatchNumber(b)
  {
    var a := Spaces(n1) + b;
    assert StartsWith(line, "###") && line[3..] == a;
    assert a[..n1] == Spaces(n1) && a[n1..] == b;
    LeadingCountIs(a, IsSpaceChar, n1);
  }

  /** A line that ends in two or more spaces right after the number is a
      heading too: the space run gives back its last space, which becomes
      the title " ". */
  lemma BlankTitleAccepted(n1: nat, d1: string, d2: string, n2: nat)
    requires n1 >= 1 && n2 >= 2
    requires d1 != [] && d2 != [] && AllDigits(d1) && AllDigits(d2)
    ensures MatchFeatureHeading("###" + Spaces(n1) + d1 + "." + d2 + Spaces(n2))
      == Some(HeadingMatch(d1 + "." + d2, " "))
  {
    var b := d1 + "." + d2 + Spaces(n2);
    var line := "###" + Spaces(n1) + d1 + "." + d2 + Spaces(n2);
    assert line == "###" + Spaces(n1) + b;
    assert b[0] == d1[0];
    HeadingAfterHashes(line, n1, b);
    BlankTitleAfterNumber(d1, d2, n2);
  }

  lemma BlankTitleAfterNumber(d1: string, d2: string, n2: nat)
    requires n2 >= 2 && d1 != [] && d2 != [] && AllDigits(d1) && AllDigits(d2)
    ensures MatchNumber(d1 + "." + d2 + Spaces(n2)) == Some(HeadingMatch(d1 + "." + d2, " "))
  {
    var c := d2 + Spaces(n2);
    var b := d1 + "." + c;
    assert b == d1 + "." + d2 + Spaces(n2);
    assert b[..|d1|] == d1 && b[|d1|] == '.';
    assert b[..|d1| + 1] == d1 + "." && b[|d1| + 1..] == c;
    LeadingCountIs(b, IsDigit, |d1|);
    BlankTitleAfterMinor(d1 + ".", d2, n2);
    assert d1 + "." + d2 == (d1 + ".") + d2;
  }

  lemma BlankTitleAfterMinor(major: string, d2: string, n2: nat)
    requires n2 >= 2 && d2 != [] && AllDigits(d2)
    ensures MatchMinor(major, d2 + Spaces(n2)) == Some(HeadingMatch(major + d2, " "))
  {
    var r := Spaces(n2);
    var c := d2 + r;
    assert c[..|d2|] == d2 && c[|d2|..] == r;
    LeadingCountIs(c, IsDigit, |d2|);
    assert r[..n2] == r;
    LeadingCountIs(r, IsSpaceChar, n2);
    assert '\n' !in r;
  }

  /** What a match guarantees: the line is "###", a space run, the number
      (digits "." digits), a space run and the title; the title is not
      empty, has no line break, and starts with a space only when it is the
      single space left of a run that ends the line. */
  lemma MatchFeatureHeadingShape(line: string)
    requires MatchFeatureHeading(line).Some?
    ensures var m := MatchFeatureHeading(line).value;
      && IsNumberGroup(m.number)
      && m.title != [] && '\n' !in m.title && (m.title[0] == ' ' ==> m.title == " ")
      && exists n1: nat, n2: nat :: n1 >= 1 && n2 >= 1
           && line == "###" + Spaces(n1) + m.number + Spaces(n2) + m.title
  {
    var n1, b := SplitAfterHashes(line);
    HeadingShapeAfterHashes(line, n1, b, MatchNumber(b).value);
  }

  /** A heading line is "###", a run of spaces, then text the number
      pattern accepts. */
  lemma SplitAfterHashes(line: string) returns (n1: nat, b: string)
    requires MatchFeatureHeading(line).Some?
    ensures n1 >= 1 && line == "###" + Spaces(n1) + b
    ensures MatchNumber(b).Some? && MatchFeatureHeading(line).value == MatchNumber(b).value
  {
    var a := line[3..];
    n1 := LeadingCount(a, IsSpaceChar);
    b := a[n1..];
    assert StartsWith(line, "###") && MatchAfterHashes(a).Some?;
    assert n1 >= 1 && MatchNumber(b).Some? && MatchFeatureHeading(line).value == MatchNumber(b).value;
    assert line == "###" + Spaces(n1) + b by {
      SpacesOf(a[..n1]);
      SplitAt(a, n1);
      SplitAt(line, 3);
    }
  }

  /** MatchFeatureHeadingShape once the hashes and the first space run are
      split off. */
  lemma HeadingShapeAfterHashes(line: string, n1: nat, b: string, m: HeadingMatch)
    requires n1 >= 1 && line == "###" + Spaces(n1) + b
    requires MatchNumber(b).Some? && MatchNumber(b).value == m
    ensures IsNumberGroup(m.number)
    ensures m.title != [] && '\n' !in m.title && (m.title[0] == ' ' ==> m.title == " ")
    ensures exists n1: nat, n2: nat ::
      n1 >= 1 && n2 >= 1 && line == "###" + Spaces(n1) + m.number + Spaces(n2) + m.title
  {
    MatchNumberShape(b, m);
    HeadingLayout(line, n1, b, m.number, m.title);
  }

  lemma SpacesOf(s: string)
    requires AllSpace(s, IsSpaceChar)
    ensures s == Spaces(|s|)
  {
  }

  /** The layout of a heading line once its number and title are known. */
  lemma HeadingLayout(line: string, n1: nat, b: string, number: string, title: string)
    requires n1 >= 1 && line == "###" + Spaces(n1) + b
    requires |number| + |title| < |b| && b == number + Spaces(|b| - |number| - |title|) + title
    ensures exists n1: nat, n2: nat ::
      n1 >= 1 && n2 >= 1 && line == "###" + Spaces(n1) + number + Spaces(n2) + title
  {
    var n2 := |b| - |number| - |title|;
    var head := "###" + Spaces(n1);
    ConcatAssoc(head, number + Spaces(n2), title);
    ConcatAssoc(head, number, Spaces(n2));
    assert line == head + number + Spaces(n2) + title;
  }

  // ---------------------------------------------------------------------------
  // Features: one per heading line, with the lines below it as raw text
  // ---------------------------------------------------------------------------

  function TrimPrefix(s: string, prefix: string): string {
    if StartsWith(s, prefix) then s[|prefix|..] else s
  }

  /** The feature a heading opens: its id is "F" and the number without a
      leading "6.", its name the trimmed title, and it has no text yet. */
  function NewFeature(m: HeadingMatch): Feature {
    Feature("F" + TrimPrefix(m.number, "6."), TrimSpace(m.title), [], "")
  }

  /** A heading numbered 6.N gives the id "FN"; any other number is kept
      whole after the "F". */
  lemma FeatureIdOf(d1: string, d2: string, title: string)
    requires d1 != [] && AllDigits(d1)
    ensures NewFeature(HeadingMatch(d1 + "." + d2, title)).id
      == if d1 == "6" then "F" + d2 else "F" + d1 + "." + d2
  {
    var number := d1 + "." + d2;
    if d1 == "6" {
      assert number[..2] == "6.";
      assert number[2..] == d2;
    } else {
      assert !StartsWith(number, "6.") by {
        if |d1| == 1 {
          assert d1 == [d1[0]];
          assert number[0] == d1[0];
        } else {
          assert number[1] == d1[1];
          assert IsDigit(d1[1]);
        }
      }
    }
  }

  /** The raw text after a line is added, as the loop builds it: a line
      break between the old text and the line, unless there is no old text. */
  function AppendLine(raw: string, line: string): string {
    (if raw != "" then raw + "\n" else raw) + line
  }

  function DropLeadingEmpty(lines: seq<string>): (r: seq<string>)
    ensures r != [] ==> r[0] != ""
  {
    if lines != [] && lines[0] == "" then DropLeadingEmpty(lines[1..]) else lines
  }

  /** The raw text of a feature whose heading is followed by `body`: its
      lines joined by line breaks, leaving out the empty lines before the
      first non-empty one (the raw text is still empty when they come). */
  function RawOf(body: seq<string>): string {
    Join(DropLeadingEmpty(body), "\n")
  }

  lemma {:induction false} DropLeadingEmptySnoc(body: seq<string>, line: string)
    ensures DropLeadingEmpty(body + [line])
      == if DropLeadingEmpty(body) == [] then DropLeadingEmpty([line]) else DropLeadingEmpty(body) + [line]
  {
    if body == [] {
      assert body + [line] == [line];
    } else if body[0] == "" {
      assert (body + [line])[1..] == body[1..] + [line];
      DropLeadingEmptySnoc(body[1..], line);
    }
  }

  /** Adding lines one at a time as the loop does builds exactly the join
      of the body without its leading empty lines. */
  lemma RawOfSnoc(body: seq<string>, line: string)
    ensures RawOf(body + [line]) == AppendLine(RawOf(body), line)
  {
    DropLeadingEmptySnoc(body, line);
    var d := DropLeadingEmpty(body);
    if d != [] {
      JoinSnoc(d, "\n", line);
      JoinStartsWithFirst(d, "\n");
    }
  }

  /** The indices of the heading lines, in order. */
  function Headings(lines: seq<string>): seq<nat> {
    Survivors(lines, MatchFeatureHeading)
  }

  /** `hs` are increasing indices of heading lines. */
  predicate HeadingIndices(lines: seq<string>, hs: seq<nat>) {
    && (forall j :: 0 <= j < |hs| ==> hs[j] < |lines| && MatchFeatureHeading(lines[hs[j]]).Some?)
    && (forall j :: 0 <= j < |hs| - 1 ==> hs[j] < hs[j + 1])
  }

  /** The feature opened by the heading line at `at`, with the lines after
      it up to `stop` as its raw text. */
  function FeatureFrom(lines: seq<string>, at: nat, stop: nat): Feature
    requires at < stop <= |lines| && MatchFeatureHeading(lines[at]).Some?
  {
    NewFeature(MatchFeatureHeading(lines[at]).value).(raw := RawOf(lines[at + 1..stop]))
  }

  /** The j-th feature: from the j-th heading line up to the next one, or to
      the end. */
  function FeatureAt(lines: seq<string>, hs: seq<nat>, j: nat): Feature
    requires HeadingIndices(lines, hs) && j < |hs|
  {
    FeatureFrom(lines, hs[j], if j + 1 < |hs| then hs[j + 1] else |lines|)
  }

  function FeaturesAt(lines: seq<string>, hs: seq<nat>): (fs: seq<Feature>)
    requires HeadingIndices(lines, hs)
    ensures |fs| == |hs|
  {
    seq(|hs|, j requires 0 <= j < |hs| => FeatureAt(lines, hs, j))
  }

  /** The features of a section's lines: one per heading line, in order. */
  function FeaturesOf(lines: seq<string>): (fs: seq<Feature>)
    ensures |fs| == |Headings(lines)|
  {
    var hs := Headings(lines);
    assert HeadingIndices(lines, hs);
    FeaturesAt(lines, hs)
  }

  lemma HeadingsSnoc(lines: seq<string>, line: string)
    ensures Headings(lines + [line])
      == Headings(lines) + (if MatchFeatureHeading(line).Some? then [|lines|] else [])
  {
    assert (lines + [line])[..|lines|] == lines;
  }

  /** A feature that ends before the last line does not see it. */
  lemma FeatureFromSnoc(lines: seq<string>, line: string, at: nat, stop: nat)
    requires at < stop <= |lines| && MatchFeatureHeading(lines[at]).Some?
    ensures (lines + [line])[at] == lines[at]
    ensures FeatureFrom(lines + [line], at, stop) == FeatureFrom(lines, at, stop)
  {
    assert (lines + [line])[at + 1..stop] == lines[at + 1..stop];
  }

  /** The feature that runs to the end takes one more line into its raw
      text. */
  lemma FeatureFromExtend(lines: seq<string>, line: string, at: nat)
    requires at < |lines| && MatchFeatureHeading(lines[at]).Some?
    ensures (lines + [line])[at] == lines[at]
    ensures var f := FeatureFrom(lines, at, |lines|);
      FeatureFrom(lines + [line], at, |lines| + 1) == f.(raw := AppendLine(f.raw, line))
  {
    assert (lines + [line])[at + 1..|lines| + 1] == lines[at + 1..|lines|] + [line];
    RawOfSnoc(lines[at + 1..|lines|], line);
  }

  /** The features before the last heading are unaffected by one more line. */
  lemma FeaturesAtSnoc(lines: seq<string>, line: string, hs: seq<nat>, j: nat)
    requires HeadingIndices(lines, hs) && j + 1 < |hs|
    ensures HeadingIndices(lines + [line], hs)
    ensures FeatureAt(lines + [line], hs, j) == FeatureAt(lines, hs, j)
  {
    FeatureFromSnoc(lines, line, hs[j], hs[j + 1]);
  }

  /** A new heading at the end closes the feature that ran to the end
      without changing it. */
  lemma FeatureAtClosed(lines: seq<string>, line: string, hs: seq<nat>, j: nat)
    requires HeadingIndices(lines, hs) && j < |hs|
    requires HeadingIndices(lines + [line], hs + [|lines|])
    ensures FeatureAt(lines + [line], hs + [|lines|], j) == FeatureAt(lines, hs, j)
  {
    var stop := if j + 1 < |hs| then hs[j + 1] else |lines|;
    assert FeatureAt(lines + [line], hs + [|lines|], j) == FeatureFrom(lines + [line], hs[j], stop);
    FeatureFromSnoc(lines, line, hs[j], stop);
  }

  lemma HeadingIndicesSnoc(lines: seq<string>, line: string, hs: seq<nat>)
    requires HeadingIndices(lines, hs) && MatchFeatureHeading(line).Some?
    ensures HeadingIndices(lines + [line], hs + [|lines|])
  {
    var all, hs' := lines + [line], hs + [|lines|];
    forall j | 0 <= j < |hs'|
      ensures hs'[j] < |all| && MatchFeatureHeading(all[hs'[j]]).Some?
    {
      if j < |hs| {
        assert hs'[j] == hs[j] && all[hs[j]] == lines[hs[j]];
      } else {
        assert hs'[j] == |lines| && all[|lines|] == line;
      }
    }
    forall j | 0 <= j < |hs'| - 1 ensures hs'[j] < hs'[j + 1] {
      assert hs'[j] == hs[j];
    }
  }

  lemma FeaturesAtNewHeading(lines: seq<string>, line: string, hs: seq<nat>)
    requires HeadingIndices(lines, hs) && MatchFeatureHeading(line).Some?
    ensures HeadingIndices(lines + [line], hs + [|lines|])
    ensures FeaturesAt(lines + [line], hs + [|lines|])
      == FeaturesAt(lines, hs) + [NewFeature(MatchFeatureHeading(line).value)]
  {
    var all, hs' := lines + [line], hs + [|lines|];
    HeadingIndicesSnoc(lines, line, hs);
    var fs, fs' := FeaturesAt(lines, hs), FeaturesAt(all, hs');
    forall j | 0 <= j < |hs| ensures fs'[j] == fs[j] {
      FeatureAtClosed(lines, line, hs, j);
    }
    var nf := NewFeature(MatchFeatureHeading(line).value);
    FeatureAtLastLine(all, hs');
    assert all[|lines|] == line;
    SnocEqual(fs', fs, nf);
  }

  lemma FeatureAtLastLine(lines: seq<string>, hs: seq<nat>)
    requires HeadingIndices(lines, hs) && hs != [] && hs[|hs| - 1] == |lines| - 1
    ensures FeatureAt(lines, hs, |hs| - 1) == NewFeature(MatchFeatureHeading(lines[|lines| - 1]).value)
  {
    FeatureFromLastLine(lines);
  }

  /** A heading on the last line opens a feature with no raw text yet. */
  lemma FeatureFromLastLine(lines: seq<string>)
    requires lines != [] && MatchFeatureHeading(lines[|lines| - 1]).Some?
    ensures FeatureFrom(lines, |lines| - 1, |lines|) == NewFeature(MatchFeatureHeading(lines[|lines| - 1]).value)
  {
    assert lines[|lines|..|lines|] == [];
  }

  /** A heading line closes the open feature and opens a new one. */
  lemma FeaturesOfSnocHeading(lines: seq<string>, line: string)
    requires MatchFeatureHeading(line).Some?
    ensures FeaturesOf(lines + [line]) == FeaturesOf(lines) + [NewFeature(MatchFeatureHeading(line).value)]
  {
    HeadingsSnoc(lines, line);
    assert HeadingIndices(lines, Headings(lines));
    FeaturesAtNewHeading(lines, line, Headings(lines));
  }

  /** Any other line goes to the raw text of the open feature, if there is
      one. */
  lemma FeaturesOfSnocOther(lines: seq<string>, line: string)
    requires MatchFeatureHeading(line).None?
    ensures var fs := FeaturesOf(lines);
      FeaturesOf(lines + [line])
        == if fs == [] then [] else fs[..|fs| - 1] + [fs[|fs| - 1].(raw := AppendLine(fs[|fs| - 1].raw, line))]
  {
    var all := lines + [line];
    var hs := Headings(lines);
    assert Headings(all) == hs by {
      HeadingsSnoc(lines, line);
    }
    assert HeadingIndices(lines, hs);
    var fs, fs' := FeaturesAt(lines, hs), FeaturesAt(all, hs);
    assert FeaturesOf(all) == fs';
    if hs != [] {
      FeaturesAtExtendLast(lines, line, hs);
    }
  }

  /** With the same headings, one more line changes only the last feature,
      whose raw text takes the line. */
  lemma FeaturesAtExtendLast(lines: seq<string>, line: string, hs: seq<nat>)
    requires HeadingIndices(lines, hs) && hs != []
    ensures HeadingIndices(lines + [line], hs)
    ensures var fs := FeaturesAt(lines, hs);
      FeaturesAt(lines + [line], hs) == fs[..|fs| - 1] + [fs[|fs| - 1].(raw := AppendLine(fs[|fs| - 1].raw, line))]
  {
    var all := lines + [line];
    var fs, fs' := FeaturesAt(lines, hs), FeaturesAt(all, hs);
    var k := |hs| - 1;
    var last := fs[k].(raw := AppendLine(fs[k].raw, line));
    assert fs'[k] == last by {
      var at := hs[k];
      assert fs[k] == FeatureFrom(lines, at, |lines|);
      assert fs'[k] == FeatureFrom(all, at, |all|);
      FeatureFromExtend(lines, line, at);
    }
    forall j | 0 <= j < k ensures fs'[j] == fs[..k][j] {
      FeaturesAtSnoc(lines, line, hs, j);
    }
    SnocEqual(fs', fs[..k], last);
  }

  /** A feature read from `rest` is the same feature when lines come before
      `rest`, as long as it keeps its heading and its end. */
  lemma FeatureFromShift(pre: seq<string>, rest: seq<string>, at: nat, stop: nat, at': nat, stop': nat)
    requires at < stop <= |rest| && MatchFeatureHeading(rest[at]).Some?
    requires at' == |pre| + at && stop' == |pre| + stop
    ensures (pre + rest)[at'] == rest[at]
    ensures FeatureFrom(pre + rest, at', stop') == FeatureFrom(rest, at, stop)
  {
    var all := pre + rest;
    IndexAfterPrefix(pre, rest, at, at');
    SliceAfterPrefix(pre, rest, at + 1, stop, at' + 1, stop');
    FeatureFromSameLines(all, at', stop', rest, at, stop);
  }

  /** Two features read from the same heading line and the same body lines
      are equal. */
  lemma FeatureFromSameLines(xs: seq<string>, at: nat, stop: nat, ys: seq<string>, at': nat, stop': nat)
    requires at < stop <= |xs| && at' < stop' <= |ys|
    requires MatchFeatureHeading(ys[at']).Some? && xs[at] == ys[at']
    requires xs[at + 1..stop] == ys[at' + 1..stop']
    ensures MatchFeatureHeading(xs[at]).Some?
    ensures FeatureFrom(xs, at, stop) == FeatureFrom(ys, at', stop')
  {
  }

  /** Shifting every heading index by the lines put in front gives the same
      features. */
  lemma FeaturesAtShift(pre: seq<string>, rest: seq<string>, hs: seq<nat>, hs': seq<nat>)
    requires HeadingIndices(rest, hs)
    requires |hs'| == |hs| && forall j :: 0 <= j < |hs| ==> hs'[j] == |pre| + hs[j]
    ensures HeadingIndices(pre + rest, hs')
    ensures FeaturesAt(pre + rest, hs') == FeaturesAt(rest, hs)
  {
    var all := pre + rest;
    assert HeadingIndices(all, hs') by {
      forall j | 0 <= j < |hs| ensures hs'[j] < |all| && all[hs'[j]] == rest[hs[j]] {
      }
    }
    var fs, fs' := FeaturesAt(rest, hs), FeaturesAt(all, hs');
    forall j | 0 <= j < |hs| ensures fs'[j] == fs[j] {
      FeatureAtShift(pre, rest, hs, hs', j);
    }
  }

  lemma FeatureAtShift(pre: seq<string>, rest: seq<string>, hs: seq<nat>, hs': seq<nat>, j: nat)
    requires HeadingIndices(rest, hs) && HeadingIndices(pre + rest, hs') && j < |hs|
    requires |hs'| == |hs| && forall j :: 0 <= j < |hs| ==> hs'[j] == |pre| + hs[j]
    ensures FeatureAt(pre + rest, hs', j) == FeatureAt(rest, hs, j)
  {
    var stop := if j + 1 < |hs| then hs[j + 1] else |rest|;
    var stop' := if j + 1 < |hs'| then hs'[j + 1] else |pre + rest|;
    FeatureFromShift(pre, rest, hs[j], stop, hs'[j], stop');
  }

  /** Lines before the first heading line belong to no feature: they are
      ignored. */
  lemma PreambleIgnored(pre: seq<string>, rest: seq<string>)
    requires forall i :: 0 <= i < |pre| ==> MatchFeatureHeading(pre[i]).None?
    ensures FeaturesOf(pre + rest) == FeaturesOf(rest)
  {
    var hs, hs' := Headings(rest), Headings(pre + rest);
    SurvivorsAfterFailures(pre, rest, MatchFeatureHeading);
    assert HeadingIndices(rest, hs);
    FeaturesAtShift(pre, rest, hs, hs');
  }

  lemma SnocEqual<T>(xs: seq<T>, front: seq<T>, last: T)
    requires |xs| == |front| + 1 && xs[|front|] == last
    requires forall j :: 0 <= j < |front| ==> xs[j] == front[j]
    ensures xs == front + [last]
  {
  }

  /** Splits the section into lines and walks them with the feature being
      filled in; a heading line closes it and opens the next. */
  method ParseFeatures(section: string) returns (features: seq<Feature>)
    ensures features == FeaturesOf(Split(section, "\n"))
  {
    var lines := Split(section, "\n");
    features := [];
    var current: Option<Feature> := None;
    for i := 0 to |lines|
      invariant features + Values(current) == FeaturesOf(lines[..i])
      invariant current.None? <==> FeaturesOf(lines[..i]) == []
    {
      var line := lines[i];
      ghost var before, after := FeaturesOf(lines[..i]), FeaturesOf(lines[..i + 1]);
      var m := MatchFeatureHeading(line);
      if m.Some? {
        assert after == before + [NewFeature(m.value)] by {
          TakeSnoc(lines, i);
          FeaturesOfSnocHeading(lines[..i], line);
        }
        if current.Some? {
          features := features + [current.value];
        }
        current := Some(NewFeature(m.value));
        continue;
      }
      assert after == if before == [] then [] else
          before[..|before| - 1] + [before[|before| - 1].(raw := AppendLine(before[|before| - 1].raw, line))] by {
        TakeSnoc(lines, i);
        FeaturesOfSnocOther(lines[..i], line);
      }
      if current.Some? {
        var f := current.value;
        var raw := f.raw;
        if raw != "" {
          raw := raw + "\n";
        }
        raw := raw + line;
        current := Some(f.(raw := raw));
        assert before == features + [f];
      }
    }
    assert lines[..|lines|] == lines;
    if current.Some? {
      features := features + [current.value];
    }
  }

  // ---------------------------------------------------------------------------
  // Tasks: one per feature, by position
  // ---------------------------------------------------------------------------

  /** "T" and the 1-based position, then ".1": the `T%d.1` format. */
  function TaskId(n: nat): string {
    "T" + Decimal(n) + ".1"
  }

  /** The task for the feature at 0-based position `i`. */
  function TaskFor(i: nat, f: Feature): Task {
    Task(TaskId(i + 1), "Implement " + f.name, TrimSpace(f.raw), [], 0, "Medium", [], 1, "Not Started")
  }

  /** Fills a task slot per feature, in order. */
  method GenerateTasks(features: seq<Feature>) returns (tasks: seq<Task>)
    ensures |tasks| == |features|
    ensures forall i :: 0 <= i < |features| ==> tasks[i] == TaskFor(i, features[i])
  {
    var slots := new Task[|features|];
    for i := 0 to |features|
      invariant forall k :: 0 <= k < i ==> slots[k] == TaskFor(k, features[k])
    {
      FillSlot(slots, i, features[i]);
    }
    tasks := slots[..];
  }

  method FillSlot(slots: array<Task>, i: nat, f: Feature)
    requires i < slots.Length
    modifies slots
    ensures slots[i] == TaskFor(i, f)
    ensures forall k :: 0 <= k < slots.Length && k != i ==> slots[k] == old(slots[k])
  {
    slots[i] := TaskFor(i, f);
  }

  /** The number in a task id reads back as the position it was made from. */
  lemma TaskIdReadsBack(n: nat)
    ensures var t := TaskId(n);
      |t| >= 4 && t[0] == 'T' && t[|t| - 2..] == ".1"
      && AllDigits(t[1..|t| - 2]) && ParseDecimal(t[1..|t| - 2]) == n
  {
    var t := TaskId(n);
    assert t[1..|t| - 2] == Decimal(n);
    DecimalRoundTrip(n);
  }

  /** Tasks made for different positions have different ids. */
  lemma TaskIdsDistinct(i: nat, j: nat)
    requires i != j
    ensures TaskId(i) != TaskId(j)
  {
    if TaskId(i) == TaskId(j) {
      TaskIdReadsBack(i);
      TaskIdReadsBack(j);
    }
  }

  /** A task's description is its feature's raw text without surrounding
      white space, and is empty exactly when that text is all white space. */
  lemma TaskDescriptionTrimmed(i: nat, f: Feature)
    ensures var d := TaskFor(i, f).description;
      && (d == [] <==> AllSpace(f.raw, IsGoSpace))
      && (d != [] ==> !IsGoSpace(d[0]) && !IsGoSpace(d[|d| - 1]))
  {
  }
}
