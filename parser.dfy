/** The Python front-end (src/parser.py): cut Section 6 out of an ALPS
    document, split it into subsection blocks, enrich each block through an
    extractor that may fail, and validate the assembled section. The
    extractor (a hosted language model in the source) is a parameter
    `extract`; `None` stands for any exception it raises. */
module AlpsParser {
  import opened Strings

  /** ALPSSubsection: one feature of Section 6 as the extractor reports it. */
  datatype Subsection = Subsection(
    number: string,
    title: string,
    content: string,
    userStory: string,
    technicalDescription: string,
    complexity: Option<string>)

  /** ALPSSection: a section with its ordered subsections. */
  datatype Section = Section(
    number: string,
    title: string,
    content: string,
    subsections: seq<Subsection>)

  /** The two ALPSParseError causes extract_section_6 can raise. */
  datatype ParseError = TooFewSections(found: nat) | SectionEmpty

  function Message(e: ParseError): string {
    match e
    case TooFewSections(n) => "Document contains only " + Decimal(n) + " sections, Section 6 not found"
    case SectionEmpty => "Section 6 content is empty"
  }

  /** Different errors give different messages; in particular the message
      of a short document tells how many parts it has. */
  lemma MessageNamesError(e1: ParseError, e2: ParseError)
    requires e1 != e2
    ensures Message(e1) != Message(e2)
  {
    if e1.TooFewSections? != e2.TooFewSections? {
      assert Message(e1)[0] != Message(e2)[0];
    } else if Message(e1) == Message(e2) && e1.TooFewSections? {
      var p := "Document contains only ";
      var d1, d2 := Decimal(e1.found), Decimal(e2.found);
      assert |d1| == |d2|;
      assert Message(e1)[|p|..|p| + |d1|] == d1;
      assert Message(e2)[|p|..|p| + |d2|] == d2;
      DecimalInjective(e1.found, e2.found);
    }
  }

  const SectionDelimiter := "\n---\n"
  const SubsectionDelimiter := "\n### "

  // ---------------------------------------------------------------------------
  // extract_section_6
  // ---------------------------------------------------------------------------

  /** Section 6 is the sixth part (index 5) of the document split on the
      horizontal-rule delimiter, stripped. Fewer than six parts is an error
      that reports how many there were; a blank sixth part is an error too. */
  function ExtractSection6(content: string): (r: Result<string, ParseError>)
    ensures var parts := Split(content, SectionDelimiter);
      && (r == Failure(TooFewSections(|parts|)) <==> |parts| < 6)
      && (r == Failure(SectionEmpty) <==> |parts| >= 6 && IsBlank(parts[5]))
      && (r.Success? <==> |parts| >= 6 && !IsBlank(parts[5]))
      && (r.Success? ==> r.value == Strip(parts[5]))
    ensures r.Success? ==>
      && r.value != []
      && !IsPySpace(r.value[0])
      && !IsPySpace(r.value[|r.value| - 1])
  {
    var sections := Split(content, SectionDelimiter);
    if |sections| < 6 then
      Failure(TooFewSections(|sections|))
    else
      var section6 := Strip(sections[5]);
      if section6 == [] then Failure(SectionEmpty) else Success(section6)
  }

  /** The extracted section is verbatim text of the document: it sits right
      after the fifth delimiter and the leading whitespace of the sixth part. */
  lemma ExtractSection6Verbatim(content: string)
    requires ExtractSection6(content).Success?
    ensures var parts := Split(content, SectionDelimiter);
      var at := |Join(parts[..5], SectionDelimiter)| + |SectionDelimiter| + LeadingCount(parts[5], IsPySpace);
      var v := ExtractSection6(content).value;
      at + |v| <= |content| && content[at..at + |v|] == v
  {
    var parts := Split(content, SectionDelimiter);
    assert ExtractSection6(content).value == Strip(parts[5]);
    JoinSplit(content, SectionDelimiter);
    SixthPartVerbatim(content, parts);
  }

  lemma SixthPartVerbatim(content: string, parts: seq<string>)
    requires content == Join(parts, SectionDelimiter) && |parts| >= 6
    ensures var at := |Join(parts[..5], SectionDelimiter)| + |SectionDelimiter| + LeadingCount(parts[5], IsPySpace);
      var v := Strip(parts[5]);
      at + |v| <= |content| && content[at..at + |v|] == v
  {
    JoinPartAt(parts, SectionDelimiter, 5);
    StrippedPieceVerbatim(content, |Join(parts[..5], SectionDelimiter)| + |SectionDelimiter|, parts[5]);
  }

  /** Stripping a piece of a text leaves a stretch of that text. */
  lemma StrippedPieceVerbatim(whole: string, start: nat, piece: string)
    requires start + |piece| <= |whole| && whole[start..start + |piece|] == piece
    ensures var at := start + LeadingCount(piece, IsPySpace);
      var v := Strip(piece);
      at + |v| <= |whole| && whole[at..at + |v|] == v
  {
    var l := LeadingCount(piece, IsPySpace);
    var v := Strip(piece);
    StripIsSlice(piece, l, v);
    SubSliceAt(whole, start, piece, l, v);
  }

  // ---------------------------------------------------------------------------
  // parse_subsections
  // ---------------------------------------------------------------------------

  /** One piece of the split section: stripped, or dropped when blank. */
  function NonBlank(piece: string): Option<string> {
    var c := Strip(piece);
    if c == [] then None else Some(c)
  }

  /** The blocks handed to the extractor: the pieces after the first
      subsection delimiter (the text before it is preamble), stripped, blank
      ones dropped. */
  function SubsectionBlocks(sectionContent: string): seq<string> {
    FilterMap(Split(sectionContent, SubsectionDelimiter)[1..], NonBlank)
  }

  /** Every block is non-empty, already stripped and free of the delimiter,
      there are no more blocks than pieces after the preamble, and the
      blocks are the stripped non-blank pieces in source order. */
  lemma SubsectionBlocksShape(sectionContent: string)
    ensures var pieces := Split(sectionContent, SubsectionDelimiter)[1..];
      var blocks := SubsectionBlocks(sectionContent);
      var kept := Survivors(pieces, NonBlank);
      && |blocks| <= |pieces|
      && |kept| == |blocks|
      && (forall j :: 0 <= j < |blocks| ==>
            blocks[j] == Strip(pieces[kept[j]]) && blocks[j] != []
            && Strip(blocks[j]) == blocks[j] && NoOccurrence(blocks[j], SubsectionDelimiter))
      && (forall i :: 0 <= i < |pieces| && i !in kept ==> IsBlank(pieces[i]))
  {
    var pieces := Split(sectionContent, SubsectionDelimiter)[1..];
    var blocks := SubsectionBlocks(sectionContent);
    var kept := Survivors(pieces, NonBlank);
    FilterMapAtSurvivors(pieces, NonBlank);
    forall j | 0 <= j < |blocks|
      ensures blocks[j] == Strip(pieces[kept[j]]) && blocks[j] != []
      ensures Strip(blocks[j]) == blocks[j] && NoOccurrence(blocks[j], SubsectionDelimiter)
    {
      var piece := pieces[kept[j]];
      TrimIdempotent(piece, IsPySpace);
      StripKeepsNoOccurrence(piece, SubsectionDelimiter);
    }
  }

  /** A piece free of the delimiter stays free of it once stripped. */
  lemma StripKeepsNoOccurrence(piece: string, sep: string)
    requires NoOccurrence(piece, sep)
    ensures NoOccurrence(Strip(piece), sep)
  {
    var c := Strip(piece);
    var l := LeadingCount(piece, IsPySpace);
    forall j | 0 <= j <= |c| ensures !OccursAt(c, sep, j) {
      if j + |sep| <= |c| {
        assert c[j..j + |sep|] == piece[l + j..l + j + |sep|];
        assert !OccursAt(piece, sep, l + j);
      }
    }
  }

  /** The preamble does not matter: any text before the first subsection
      heading can be dropped without changing the blocks. In particular a
      heading on the first line of the section (no newline before it) is
      preamble and yields no block. */
  lemma PreambleDiscarded(preamble: string, rest: string)
    requires NoOccurrence(preamble, SubsectionDelimiter)
    ensures SubsectionBlocks(preamble + SubsectionDelimiter + rest)
         == SubsectionBlocks(SubsectionDelimiter + rest)
  {
    var d := SubsectionDelimiter;
    var s := preamble + d + rest;
    var t := d + rest;
    FirstDelimiterAfterPreamble(preamble, rest);
    assert OccursAt(t, d, 0) by { assert t[..|d|] == d; }
    assert s[|preamble| + |d|..] == rest;
    assert t[|d|..] == rest;
  }

  lemma FirstDelimiterAfterPreamble(preamble: string, rest: string)
    requires NoOccurrence(preamble, SubsectionDelimiter)
    ensures Find(preamble + SubsectionDelimiter + rest, SubsectionDelimiter, 0) == Some(|preamble|)
  {
    var d := SubsectionDelimiter;
    var s := preamble + d + rest;
    assert OccursAt(s, d, |preamble|) by {
      assert s[|preamble|..|preamble| + |d|] == d;
    }
    forall j | 0 <= j < |preamble| ensures !OccursAt(s, d, j) {
      if j + |d| <= |preamble| {
        assert s[j..j + |d|] == preamble[j..j + |d|];
        assert !OccursAt(preamble, d, j);
      } else if j + |d| <= |s| {
        // The delimiter's only newline is its first character, but the
        // newline that opens the real delimiter would fall inside it.
        assert s[j..j + |d|][|preamble| - j] == '\n';
      }
    }
  }

  /** parse_subsections: one extractor call per non-blank block, in order;
      a failing call loses only its own block. */
  method ParseSubsections(sectionContent: string, extract: string -> Option<Subsection>)
    returns (subsections: seq<Subsection>)
    ensures subsections == FilterMap(SubsectionBlocks(sectionContent), extract)
  {
    subsections := [];
    var contents := Split(sectionContent, SubsectionDelimiter)[1..];
    ghost var blocks: seq<string> := [];
    for i := 0 to |contents|
      invariant blocks == FilterMap(contents[..i], NonBlank)
      invariant subsections == FilterMap(blocks, extract)
    {
      FilterMapSnoc(contents, i, NonBlank);
      var content := Strip(contents[i]);
      if content == [] {
        continue;
      }
      FilterMapSnoc(blocks + [content], |blocks|, extract);
      assert (blocks + [content])[..|blocks|] == blocks;
      blocks := blocks + [content];
      match extract(content)
      case Some(subsection) =>
        subsections := subsections + [subsection];
      case None =>
    }
    assert contents[..|contents|] == contents;
  }

  // ---------------------------------------------------------------------------
  // validate_section_6
  // ---------------------------------------------------------------------------

  const ContentEmptyIssue := "Section 6 content is empty"
  const NoSubsectionsIssue := "No subsections found in Section 6"
  const MissingNumberIssue := "Subsection missing number"
  const DuplicateNumbersIssue := "Duplicate subsection numbers found"

  function MissingTitleIssue(number: string): string {
    "Subsection " + number + " missing title"
  }

  function EmptyContentIssue(number: string): string {
    "Subsection " + number + " has empty content"
  }

  /** The issues one subsection contributes, in the order they are checked. */
  function IssuesOf(s: Subsection): seq<string> {
    (if s.number == "" then [MissingNumberIssue] else [])
    + (if s.title == "" then [MissingTitleIssue(s.number)] else [])
    + (if IsBlank(s.content) then [EmptyContentIssue(s.number)] else [])
  }

  function Numbers(subs: seq<Subsection>): (numbers: seq<string>)
    ensures |numbers| == |subs|
    ensures forall k :: 0 <= k < |subs| ==> numbers[k] == subs[k].number
  {
    seq(|subs|, k requires 0 <= k < |subs| => subs[k].number)
  }

  predicate HasDuplicates(xs: seq<string>) {
    exists i, j :: 0 <= i < j < |xs| && xs[i] == xs[j]
  }

  /** The full issue list of a section, in the order the checks run. */
  function Issues(section: Section): seq<string> {
    (if IsBlank(section.content) then [ContentEmptyIssue] else [])
    + (if section.subsections == [] then [NoSubsectionsIssue] else [])
    + FlatMap(section.subsections, IssuesOf)
    + (if HasDuplicates(Numbers(section.subsections)) then [DuplicateNumbersIssue] else [])
  }

  /** What a usable Section 6 is: non-blank content, at least one
      subsection, each with a number, a title and non-blank content, and no
      number used twice. */
  predicate WellFormed(section: Section) {
    && !IsBlank(section.content)
    && section.subsections != []
    && (forall k :: 0 <= k < |section.subsections| ==> IssuesOf(section.subsections[k]) == [])
    && !HasDuplicates(Numbers(section.subsections))
  }

  /** A subsection contributes no issue exactly when it has a number, a
      title and non-blank content. */
  lemma IssuesOfEmptyIff(s: Subsection)
    ensures IssuesOf(s) == [] <==> s.number != "" && s.title != "" && !IsBlank(s.content)
  {
  }

  /** is_valid: the issue list is empty exactly for a well-formed section. */
  lemma NoIssuesIffWellFormed(section: Section)
    ensures Issues(section) == [] <==> WellFormed(section)
  {
    FlatMapEmptyIff(section.subsections, IssuesOf);
  }

  /** No per-subsection issue reads like one of the section-level issues:
      each starts "Subsection". */
  lemma IssuesOfAvoidSectionIssues(subs: seq<Subsection>)
    ensures Count(FlatMap(subs, IssuesOf), DuplicateNumbersIssue) == 0
    ensures Count(FlatMap(subs, IssuesOf), ContentEmptyIssue) == 0
    ensures Count(FlatMap(subs, IssuesOf), NoSubsectionsIssue) == 0
  {
    forall k, x | 0 <= k < |subs| && x in IssuesOf(subs[k]) ensures x[..2] == "Su" {
      var s := subs[k];
      assert x == MissingNumberIssue || x == MissingTitleIssue(s.number) || x == EmptyContentIssue(s.number);
    }
    assert DuplicateNumbersIssue[..2] == "Du";
    assert ContentEmptyIssue[..2] == "Se";
    assert NoSubsectionsIssue[..2] == "No";
    CountFlatMapAbsent(subs, IssuesOf, DuplicateNumbersIssue);
    CountFlatMapAbsent(subs, IssuesOf, ContentEmptyIssue);
    CountFlatMapAbsent(subs, IssuesOf, NoSubsectionsIssue);
  }

  /** Each section-level issue appears once when its condition holds and
      never otherwise; in particular "Duplicate subsection numbers found"
      appears exactly once when some number repeats. */
  lemma SectionIssuesOnce(section: Section)
    ensures Count(Issues(section), DuplicateNumbersIssue)
         == (if HasDuplicates(Numbers(section.subsections)) then 1 else 0)
    ensures Count(Issues(section), ContentEmptyIssue) == (if IsBlank(section.content) then 1 else 0)
    ensures Count(Issues(section), NoSubsectionsIssue) == (if section.subsections == [] then 1 else 0)
  {
    var subs := section.subsections;
    var a := if IsBlank(section.content) then [ContentEmptyIssue] else [];
    var b := if subs == [] then [NoSubsectionsIssue] else [];
    var c := FlatMap(subs, IssuesOf);
    var d := if HasDuplicates(Numbers(subs)) then [DuplicateNumbersIssue] else [];
    assert Issues(section) == ((a + b) + c) + d;
    IssuesOfAvoidSectionIssues(subs);
    assert ContentEmptyIssue != NoSubsectionsIssue && ContentEmptyIssue != DuplicateNumbersIssue
        && NoSubsectionsIssue != DuplicateNumbersIssue by {
      assert ContentEmptyIssue[..2] == "Se";
      assert NoSubsectionsIssue[..2] == "No";
      assert DuplicateNumbersIssue[..2] == "Du";
    }
    CountFourParts(a, b, c, d, DuplicateNumbersIssue);
    CountFourParts(a, b, c, d, ContentEmptyIssue);
    CountFourParts(a, b, c, d, NoSubsectionsIssue);
    var dup := HasDuplicates(Numbers(subs));
    CountOptional(IsBlank(section.content), ContentEmptyIssue, DuplicateNumbersIssue);
    CountOptional(subs == [], NoSubsectionsIssue, DuplicateNumbersIssue);
    CountOptional(dup, DuplicateNumbersIssue, DuplicateNumbersIssue);
    CountOptional(IsBlank(section.content), ContentEmptyIssue, ContentEmptyIssue);
    CountOptional(subs == [], NoSubsectionsIssue, ContentEmptyIssue);
    CountOptional(dup, DuplicateNumbersIssue, ContentEmptyIssue);
    CountOptional(IsBlank(section.content), ContentEmptyIssue, NoSubsectionsIssue);
    CountOptional(subs == [], NoSubsectionsIssue, NoSubsectionsIssue);
    CountOptional(dup, DuplicateNumbersIssue, NoSubsectionsIssue);
  }

  /** The elements of a list, as Python's set(numbers). */
  function Elements(xs: seq<string>): (r: set<string>)
    ensures forall x :: x in r <==> x in xs
  {
    if xs == [] then {} else Elements(xs[..|xs| - 1]) + {xs[|xs| - 1]}
  }

  /** len(numbers) != len(set(numbers)) detects exactly a repeated number. */
  lemma {:induction false} DistinctIffSetSameSize(xs: seq<string>)
    ensures |Elements(xs)| <= |xs|
    ensures |Elements(xs)| == |xs| <==> !HasDuplicates(xs)
  {
    if xs != [] {
      var front, x := xs[..|xs| - 1], xs[|xs| - 1];
      DistinctIffSetSameSize(front);
      if x in front {
        assert Elements(xs) == Elements(front);
        var i :| 0 <= i < |front| && front[i] == x;
        assert xs[i] == xs[|xs| - 1];
      } else {
        assert Elements(xs) == Elements(front) + {x};
        if HasDuplicates(xs) {
          var i, j :| 0 <= i < j < |xs| && xs[i] == xs[j];
          assert j < |front|;
          assert front[i] == front[j];
        }
        if HasDuplicates(front) {
          var i, j :| 0 <= i < j < |front| && front[i] == front[j];
          assert xs[i] == xs[j];
        }
      }
    }
  }

  /** One iteration of the loop over the subsections: its three checks, in
      order. */
  method CheckSubsection(issues: seq<string>, subsection: Subsection) returns (issues': seq<string>)
    ensures issues' == issues + IssuesOf(subsection)
  {
    issues' := issues;
    if subsection.number == "" {
      issues' := issues' + [MissingNumberIssue];
    }
    ghost var first := issues';
    if subsection.title == "" {
      issues' := issues' + [MissingTitleIssue(subsection.number)];
    }
    ghost var second := issues';
    if IsBlank(subsection.content) {
      issues' := issues' + [EmptyContentIssue(subsection.number)];
    }
    assert issues' == issues + IssuesOf(subsection) by {
      var a := if subsection.number == "" then [MissingNumberIssue] else [];
      var b := if subsection.title == "" then [MissingTitleIssue(subsection.number)] else [];
      var c := if IsBlank(subsection.content) then [EmptyContentIssue(subsection.number)] else [];
      assert first == issues + a;
      assert second == issues + a + b;
      assert issues' == issues + a + b + c;
      assert IssuesOf(subsection) == a + b + c;
    }
  }

  /** The two section-level checks, in order. */
  method CheckSectionLevel(section: Section) returns (issues: seq<string>)
    ensures issues == (if IsBlank(section.content) then [ContentEmptyIssue] else [])
      + (if section.subsections == [] then [NoSubsectionsIssue] else [])
  {
    issues := [];
    if IsBlank(section.content) {
      issues := issues + [ContentEmptyIssue];
    }
    if section.subsections == [] {
      issues := issues + [NoSubsectionsIssue];
    }
  }

  /** The last check: a number used by two subsections, found by comparing
      the list of numbers with the set of them. */
  method CheckDuplicateNumbers(issues: seq<string>, subs: seq<Subsection>) returns (issues': seq<string>)
    ensures issues' == issues + (if HasDuplicates(Numbers(subs)) then [DuplicateNumbersIssue] else [])
  {
    var numbers := seq(|subs|, k requires 0 <= k < |subs| => subs[k].number);
    assert numbers == Numbers(subs);
    DistinctIffSetSameSize(numbers);
    issues' := issues;
    if |numbers| != |Elements(numbers)| {
      issues' := issues' + [DuplicateNumbersIssue];
    }
  }

  /** validate_section_6: collect every issue, without stopping at the first,
      and report validity as the absence of issues. */
  method ValidateSection6(section: Section) returns (isValid: bool, issues: seq<string>)
    ensures isValid <==> issues == []
    ensures issues == Issues(section)
    ensures isValid <==> WellFormed(section)
  {
    issues := CheckSectionLevel(section);
    var subs := section.subsections;
    ghost var before := issues;
    for k := 0 to |subs|
      invariant issues == before + FlatMap(subs[..k], IssuesOf)
    {
      var subsection := subs[k];
      FlatMapSnoc(subs, k, IssuesOf);
      issues := CheckSubsection(issues, subsection);
      ConcatAssoc(before, FlatMap(subs[..k], IssuesOf), IssuesOf(subsection));
    }
    assert subs[..|subs|] == subs;
    issues := CheckDuplicateNumbers(issues, subs);
    isValid := |issues| == 0;
    NoIssuesIffWellFormed(section);
  }
}
