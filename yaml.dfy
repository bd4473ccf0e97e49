/** The Go command's YAML writer (cmd/alps/main.go): the quoting helper and
    the nested loops that write a project line by line into a builder. */
module Yaml {
  import opened Strings
  import opened Breakdown

  // ---------------------------------------------------------------------------
  // Quoting
  // ---------------------------------------------------------------------------

  /** strings.ReplaceAll for a one-character pattern: every occurrence of
      `target` becomes `replacement`, the rest is kept. */
  function ReplaceAll(s: string, target: char, replacement: string): string {
    if s == [] then []
    else
      var c := s[|s| - 1];
      ReplaceAll(s[..|s| - 1], target, replacement) + (if c == target then replacement else [c])
  }

  lemma {:induction false} ReplaceAllAppend(a: string, b: string, target: char, replacement: string)
    ensures ReplaceAll(a + b, target, replacement) == ReplaceAll(a, target, replacement) + ReplaceAll(b, target, replacement)
    decreases |b|
  {
    if b == [] {
      assert a + b == a;
    } else {
      var b', c := b[..|b| - 1], b[|b| - 1];
      var piece := if c == target then replacement else [c];
      ReplaceAllAppend(a, b', target, replacement);
      AppendFront(a, b);
      assert ReplaceAll(a + b, target, replacement) == ReplaceAll(a + b', target, replacement) + piece;
      ConcatAssoc(ReplaceAll(a, target, replacement), ReplaceAll(b', target, replacement), piece);
    }
  }

  /** Double quotes become `\"` and line breaks `\n`; nothing else changes,
      a backslash included. */
  function Escape(s: string): string {
    ReplaceAll(ReplaceAll(s, '"', "\\\""), '\n', "\\n")
  }

  function EscapeChar(c: char): string {
    if c == '"' then "\\\"" else if c == '\n' then "\\n" else [c]
  }

  /** The two passes of Escape act on each character on its own. */
  function EscapeEach(s: string): string {
    if s == [] then [] else EscapeEach(s[..|s| - 1]) + EscapeChar(s[|s| - 1])
  }

  lemma {:induction false} EscapeEachAppend(a: string, b: string)
    ensures EscapeEach(a + b) == EscapeEach(a) + EscapeEach(b)
    decreases |b|
  {
    if b == [] {
      assert a + b == a;
    } else {
      var b', c := b[..|b| - 1], b[|b| - 1];
      EscapeEachAppend(a, b');
      AppendFront(a, b);
      assert EscapeEach(a + b) == EscapeEach(a + b') + EscapeChar(c);
      assert EscapeEach(b) == EscapeEach(b') + EscapeChar(c);
      ConcatAssoc(EscapeEach(a), EscapeEach(b'), EscapeChar(c));
    }
  }

  /** Replacing quotes first and line breaks second is escaping each
      character: the backslash-quote the first pass writes holds no line
      break for the second pass to touch. */
  lemma {:induction false} EscapeIsPerCharacter(s: string)
    ensures Escape(s) == EscapeEach(s)
  {
    if s != [] {
      var front, c := s[..|s| - 1], s[|s| - 1];
      EscapeIsPerCharacter(front);
      var quoted := ReplaceAll(front, '"', "\\\"");
      var piece := if c == '"' then "\\\"" else [c];
      assert ReplaceAll(s, '"', "\\\"") == quoted + piece;
      ReplaceAllAppend(quoted, piece, '\n', "\\n");
      if c == '"' {
        assert ReplaceAll(piece, '\n', "\\n") == ReplaceAll(piece[..1], '\n', "\\n") + ['"'];
        assert piece[..1] == "\\";
        assert ReplaceAll(piece[..1], '\n', "\\n") == ReplaceAll([], '\n', "\\n") + "\\";
      } else {
        assert piece[..0] == [];
      }
    }
  }

  /** The escaped text has no line break, so it stays on one line. */
  lemma {:induction false} EscapeHasNoLineBreak(s: string)
    ensures '\n' !in Escape(s)
  {
    EscapeIsPerCharacter(s);
    EscapeEachHasNoLineBreak(s);
  }

  lemma {:induction false} EscapeEachHasNoLineBreak(s: string)
    ensures '\n' !in EscapeEach(s)
  {
    if s != [] {
      EscapeEachHasNoLineBreak(s[..|s| - 1]);
    }
  }

  /** Every double quote in `t` has a backslash right before it. */
  predicate QuotesEscaped(t: string) {
    forall i :: 0 <= i < |t| && t[i] == '"' ==> i > 0 && t[i - 1] == '\\'
  }

  lemma QuotesEscapedAppend(a: string, b: string)
    requires QuotesEscaped(a) && QuotesEscaped(b)
    ensures QuotesEscaped(a + b)
  {
    var t := a + b;
    forall i | 0 <= i < |t| && t[i] == '"' ensures i > 0 && t[i - 1] == '\\' {
      if i >= |a| {
        assert b[i - |a|] == '"';
        assert t[i - 1] == b[i - |a| - 1];
      }
    }
  }

  /** Every double quote in the escaped text is preceded by a backslash, so
      none of them ends the quoted YAML value. */
  lemma {:induction false} EscapeQuotesEscaped(s: string)
    ensures QuotesEscaped(Escape(s))
  {
    EscapeIsPerCharacter(s);
    EscapeEachQuotesEscaped(s);
  }

  lemma {:induction false} EscapeEachQuotesEscaped(s: string)
    ensures QuotesEscaped(EscapeEach(s))
  {
    if s != [] {
      var c := s[|s| - 1];
      EscapeEachQuotesEscaped(s[..|s| - 1]);
      var e := EscapeChar(c);
      assert QuotesEscaped(e) by {
        if c == '"' {
          assert e == ['\\', '"'];
        }
      }
      QuotesEscapedAppend(EscapeEach(s[..|s| - 1]), e);
    }
  }

  /** How a YAML reader decodes the two escapes Escape writes, `\n` and
      `\"`; any other character stands for itself. */
  function Unescape(t: string): string
    decreases |t|
  {
    if t == [] then []
    else if |t| >= 2 && t[0] == '\\' && t[1] == 'n' then "\n" + Unescape(t[2..])
    else if |t| >= 2 && t[0] == '\\' && t[1] == '"' then "\"" + Unescape(t[2..])
    else [t[0]] + Unescape(t[1..])
  }

  /** Reading back what Escape wrote gives the original text, for any text
      without a backslash. */
  lemma EscapeRoundTrip(s: string)
    requires '\\' !in s
    ensures Unescape(Escape(s)) == s
  {
    EscapeIsPerCharacter(s);
    EscapeEachRoundTrip(s);
  }

  lemma {:induction false} EscapeEachRoundTrip(s: string)
    requires '\\' !in s
    ensures Unescape(EscapeEach(s)) == s
    decreases |s|
  {
    if s != [] {
      var c, rest := s[0], s[1..];
      assert s == [c] + rest;
      EscapeEachAppend([c], rest);
      assert EscapeEach([c]) == EscapeChar(c) by {
        assert [c][..0] == [];
      }
      EscapeEachRoundTrip(rest);
      var e := EscapeEach(rest);
      if c == '"' {
        UnescapePair('"', e);
      } else if c == '\n' {
        UnescapePair('n', e);
      } else {
        UnescapeOther(c, e);
      }
    }
  }

  lemma UnescapePair(x: char, e: string)
    requires x == 'n' || x == '"'
    ensures Unescape(['\\', x] + e) == [if x == 'n' then '\n' else '"'] + Unescape(e)
  {
    assert (['\\', x] + e)[2..] == e;
  }

  lemma UnescapeOther(c: char, e: string)
    requires c != '\\'
    ensures Unescape([c] + e) == [c] + Unescape(e)
  {
    assert ([c] + e)[1..] == e;
  }

  /** Text with no double quote and no line break is written as it is. */
  lemma {:induction false} EscapeEachPlain(s: string)
    requires '"' !in s && '\n' !in s
    ensures EscapeEach(s) == s
  {
    if s != [] {
      EscapeEachPlain(s[..|s| - 1]);
      assert s == s[..|s| - 1] + [s[|s| - 1]];
    }
  }

  /** A backslash followed by the letter n and a line break are written the
      same way: the quoting is not one-to-one once the text has
      backslashes. */
  lemma EscapeConfusesBackslash(backslashN: string, lineBreak: string)
    requires backslashN == ['\\', 'n'] && lineBreak == ['\n']
    ensures backslashN != lineBreak && Escape(backslashN) == Escape(lineBreak)
  {
    assert Escape(backslashN) == backslashN by {
      EscapeIsPerCharacter(backslashN);
      EscapeEachPlain(backslashN);
    }
    assert Escape(lineBreak) == backslashN by {
      EscapeIsPerCharacter(lineBreak);
      assert lineBreak[..0] == [];
    }
  }

  // ---------------------------------------------------------------------------
  // The document, line by line
  // ---------------------------------------------------------------------------

  /** `%.1f` of a non-negative number of tenths. */
  function OneDecimal(tenths: nat): string {
    Decimal(tenths / 10) + "." + [DigitChar(tenths % 10)]
  }

  function HeaderLines(p: Project): seq<string> {
    [ "project:",
      "  name: \"" + p.name + "\"",
      "  created_at: \"" + p.createdAt + "\"",
      "  total_features: " + IntDecimal(p.totalFeatures),
      "  total_tasks: " + IntDecimal(p.totalTasks),
      "  estimated_days: " + OneDecimal(p.estimatedDaysTenths),
      "",
      "features:" ]
  }

  /** A task's block: only its name and description are quoted with
      Escape; acceptance criteria and dependencies are always written as
      empty lists. */
  function TaskLines(t: Task): seq<string> {
    [ "      - id: \"" + t.id + "\"",
      "        name: \"" + Escape(t.name) + "\"",
      "        description: \"" + Escape(t.description) + "\"",
      "        acceptance_criteria: []",
      "        estimated_hours: " + IntDecimal(t.estimatedHours),
      "        difficulty: \"" + t.difficulty + "\"",
      "        dependencies: []",
      "        priority: " + IntDecimal(t.priority),
      "        status: \"" + t.status + "\"" ]
  }

  function FeatureHeadLines(f: Feature): seq<string> {
    [ "  - id: \"" + f.id + "\"",
      "    name: \"" + Escape(f.name) + "\"",
      "    tasks:" ]
  }

  function FeatureLines(f: Feature): seq<string> {
    FeatureHeadLines(f) + FlatMap(f.tasks, TaskLines)
  }

  /** The lines of the YAML document: the project header, then each feature
      followed by each of its tasks. */
  function YamlLines(p: Project): seq<string> {
    HeaderLines(p) + FlatMap(p.features, FeatureLines)
  }

  /** strings.Builder, written to one line at a time; the lines written so
      far are kept alongside the text as a ghost record. */
  class Builder {
    var text: string
    ghost var lines: seq<string>

    ghost predicate Valid()
      reads this
    {
      text == Text(lines)
    }

    constructor ()
      ensures Valid() && lines == [] && text == ""
    {
      text := "";
      lines := [];
    }

    /** WriteString of a line and its line break. */
    method WriteLine(l: string)
      requires Valid()
      modifies this
      ensures Valid() && lines == old(lines) + [l] && text == old(text) + Line(l)
    {
      TextSnoc(lines, l);
      text := text + Line(l);
      lines := lines + [l];
    }
  }

  method WriteHeader(b: Builder, p: Project)
    requires b.Valid()
    modifies b
    ensures b.Valid() && b.lines == old(b.lines) + HeaderLines(p)
  {
    b.WriteLine("project:");
    b.WriteLine("  name: \"" + p.name + "\"");
    b.WriteLine("  created_at: \"" + p.createdAt + "\"");
    b.WriteLine("  total_features: " + IntDecimal(p.totalFeatures));
    b.WriteLine("  total_tasks: " + IntDecimal(p.totalTasks));
    b.WriteLine("  estimated_days: " + OneDecimal(p.estimatedDaysTenths));
    b.WriteLine("");
    b.WriteLine("features:");
  }

  method WriteFeatureHead(b: Builder, f: Feature)
    requires b.Valid()
    modifies b
    ensures b.Valid() && b.lines == old(b.lines) + FeatureHeadLines(f)
  {
    b.WriteLine("  - id: \"" + f.id + "\"");
    b.WriteLine("    name: \"" + Escape(f.name) + "\"");
    b.WriteLine("    tasks:");
  }

  method WriteTask(b: Builder, t: Task)
    requires b.Valid()
    modifies b
    ensures b.Valid() && b.lines == old(b.lines) + TaskLines(t)
  {
    b.WriteLine("      - id: \"" + t.id + "\"");
    b.WriteLine("        name: \"" + Escape(t.name) + "\"");
    b.WriteLine("        description: \"" + Escape(t.description) + "\"");
    b.WriteLine("        acceptance_criteria: []");
    b.WriteLine("        estimated_hours: " + IntDecimal(t.estimatedHours));
    b.WriteLine("        difficulty: \"" + t.difficulty + "\"");
    b.WriteLine("        dependencies: []");
    b.WriteLine("        priority: " + IntDecimal(t.priority));
    b.WriteLine("        status: \"" + t.status + "\"");
  }

  /** One iteration of the outer loop: the feature's lines, then the inner
      loop over its tasks. */
  method WriteFeature(b: Builder, f: Feature)
    requires b.Valid()
    modifies b
    ensures b.Valid() && b.lines == old(b.lines) + FeatureLines(f)
  {
    WriteFeatureHead(b, f);
    ghost var head := b.lines;
    for k := 0 to |f.tasks|
      invariant b.Valid()
      invariant b.lines == head + FlatMap(f.tasks[..k], TaskLines)
    {
      WriteTask(b, f.tasks[k]);
      FlatMapSnoc(f.tasks, k, TaskLines);
      ConcatAssoc(head, FlatMap(f.tasks[..k], TaskLines), TaskLines(f.tasks[k]));
    }
    assert f.tasks[..|f.tasks|] == f.tasks;
    ConcatAssoc(old(b.lines), FeatureHeadLines(f), FlatMap(f.tasks, TaskLines));
  }

  /** Writes the header, then for each feature its lines and, nested, the
      lines of each of its tasks. */
  method ToYaml(p: Project) returns (out: string)
    ensures out == Text(YamlLines(p))
  {
    var b := new Builder();
    WriteHeader(b, p);
    for i := 0 to |p.features|
      invariant b.Valid()
      invariant b.lines == HeaderLines(p) + FlatMap(p.features[..i], FeatureLines)
    {
      WriteFeature(b, p.features[i]);
      FlatMapSnoc(p.features, i, FeatureLines);
      ConcatAssoc(HeaderLines(p), FlatMap(p.features[..i], FeatureLines), FeatureLines(p.features[i]));
    }
    assert p.features[..|p.features|] == p.features;
    out := b.text;
  }

  // ---------------------------------------------------------------------------
  // Reading the document back
  // ---------------------------------------------------------------------------

  predicate NoBreak(l: string) {
    '\n' !in l
  }

  /** The fields written between quotes without escaping hold no line
      break. */
  predicate TaskPlainOneLine(t: Task) {
    NoBreak(t.id) && NoBreak(t.difficulty) && NoBreak(t.status)
  }

  predicate FeaturePlainOneLine(f: Feature) {
    NoBreak(f.id) && forall k :: 0 <= k < |f.tasks| ==> TaskPlainOneLine(f.tasks[k])
  }

  predicate PlainOneLine(p: Project) {
    NoBreak(p.name) && NoBreak(p.createdAt) &&
    forall i :: 0 <= i < |p.features| ==> FeaturePlainOneLine(p.features[i])
  }

  lemma DecimalOneLine(n: nat)
    ensures NoBreak(Decimal(n))
  {
    var d := Decimal(n);
    forall k | 0 <= k < |d| ensures d[k] != '\n' {
      assert IsDigit(d[k]);
    }
  }

  lemma TaskLinesOneLine(t: Task)
    requires TaskPlainOneLine(t)
    ensures forall j :: 0 <= j < |TaskLines(t)| ==> NoBreak(TaskLines(t)[j])
  {
    EscapeHasNoLineBreak(t.name);
    EscapeHasNoLineBreak(t.description);
  }

  lemma FeatureHeadLinesOneLine(f: Feature)
    requires NoBreak(f.id)
    ensures forall j :: 0 <= j < |FeatureHeadLines(f)| ==> NoBreak(FeatureHeadLines(f)[j])
  {
    EscapeHasNoLineBreak(f.name);
  }

  lemma {:induction false} FeatureLinesOneLine(f: Feature)
    requires FeaturePlainOneLine(f)
    ensures forall j :: 0 <= j < |FeatureLines(f)| ==> NoBreak(FeatureLines(f)[j])
  {
    FeatureHeadLinesOneLine(f);
    forall i | 0 <= i < |f.tasks|
      ensures forall j :: 0 <= j < |TaskLines(f.tasks[i])| ==> NoBreak(TaskLines(f.tasks[i])[j])
    {
      TaskLinesOneLine(f.tasks[i]);
    }
    FlatMapEvery(f.tasks, TaskLines, NoBreak);
    EveryAppend(FeatureHeadLines(f), FlatMap(f.tasks, TaskLines), NoBreak);
  }

  lemma HeaderLinesOneLine(p: Project)
    requires NoBreak(p.name) && NoBreak(p.createdAt)
    ensures forall j :: 0 <= j < |HeaderLines(p)| ==> NoBreak(HeaderLines(p)[j])
  {
    DecimalOneLine(p.estimatedDaysTenths / 10);
  }

  lemma {:induction false} YamlLinesOneLine(p: Project)
    requires PlainOneLine(p)
    ensures forall j :: 0 <= j < |YamlLines(p)| ==> NoBreak(YamlLines(p)[j])
  {
    HeaderLinesOneLine(p);
    forall i | 0 <= i < |p.features|
      ensures forall j :: 0 <= j < |FeatureLines(p.features[i])| ==> NoBreak(FeatureLines(p.features[i])[j])
    {
      FeatureLinesOneLine(p.features[i]);
    }
    FlatMapEvery(p.features, FeatureLines, NoBreak);
    EveryAppend(HeaderLines(p), FlatMap(p.features, FeatureLines), NoBreak);
  }

  /** The document splits at its line breaks into exactly the lines that
      were written, followed by the empty text after the final break. */
  lemma YamlReadsBack(p: Project)
    requires PlainOneLine(p)
    ensures Split(Text(YamlLines(p)), "\n") == YamlLines(p) + [""]
  {
    YamlLinesOneLine(p);
    SplitText(YamlLines(p));
  }

  const FeatureIdKey := "  - id: \""
  const TaskIdKey := "      - id: \""

  /** The id on a line that opens a feature's entry, if the line is one. */
  function FeatureIdEntry(l: string): Option<string> {
    if StartsWith(l, FeatureIdKey) && |l| > |FeatureIdKey| && l[|l| - 1] == '"'
    then Some(l[|FeatureIdKey|..|l| - 1])
    else None
  }

  /** The id on a line that opens a task's entry, if the line is one. */
  function TaskIdEntry(l: string): Option<string> {
    if StartsWith(l, TaskIdKey) && |l| > |TaskIdKey| && l[|l| - 1] == '"'
    then Some(l[|TaskIdKey|..|l| - 1])
    else None
  }

  predicate NotFeatureIdLine(l: string) {
    FeatureIdEntry(l).None?
  }

  predicate NotTaskIdLine(l: string) {
    TaskIdEntry(l).None?
  }

  lemma PrefixMismatch(l: string, prefix: string, k: nat)
    requires k < |prefix| && (k >= |l| || l[k] != prefix[k])
    ensures !StartsWith(l, prefix)
  {
    if |prefix| <= |l| {
      assert l[..|prefix|][k] == l[k];
    }
  }

  lemma KeyedLine(key: string, id: string)
    ensures var l := key + id + "\"";
      StartsWith(l, key) && |l| > |key| && l[|l| - 1] == '"' && l[|key|..|l| - 1] == id
  {
    var l := key + id + "\"";
    assert l[..|key|] == key;
    assert l[|key|..|l| - 1] == id;
  }

  /** No header line opens a feature or a task. */
  lemma HeaderHasNoIds(p: Project)
    ensures forall j :: 0 <= j < |HeaderLines(p)| ==> NotFeatureIdLine(HeaderLines(p)[j])
    ensures forall j :: 0 <= j < |HeaderLines(p)| ==> NotTaskIdLine(HeaderLines(p)[j])
  {
    var h := HeaderLines(p);
    forall j | 0 <= j < |h| ensures NotFeatureIdLine(h[j]) && NotTaskIdLine(h[j]) {
      PrefixMismatch(h[j], FeatureIdKey, 2);
      PrefixMismatch(h[j], TaskIdKey, 6);
    }
  }

  /** Every line of a task's block is indented past a feature's key. */
  lemma TaskLinesNoFeatureId(t: Task)
    ensures forall j :: 0 <= j < |TaskLines(t)| ==> NotFeatureIdLine(TaskLines(t)[j])
  {
    var ls := TaskLines(t);
    forall j | 0 <= j < |ls| ensures NotFeatureIdLine(ls[j]) {
      PrefixMismatch(ls[j], FeatureIdKey, 2);
    }
  }

  /** Every line of a task's block after its first is indented past a
      task's key. */
  lemma TaskFieldsNoTaskId(t: Task)
    ensures forall j :: 1 <= j < |TaskLines(t)| ==> NotTaskIdLine(TaskLines(t)[j])
  {
    var ls := TaskLines(t);
    forall j | 1 <= j < |ls| ensures NotTaskIdLine(ls[j]) {
      PrefixMismatch(ls[j], TaskIdKey, 6);
    }
  }

  /** The first line of a task's block, and no other, is a task id line. */
  lemma TaskLinesIds(t: Task)
    ensures FilterMap(TaskLines(t), TaskIdEntry) == [t.id]
  {
    var ls := TaskLines(t);
    KeyedLine(TaskIdKey, t.id);
    assert TaskIdEntry(ls[0]) == Some(t.id);
    TaskFieldsNoTaskId(t);
    assert ls == [ls[0]] + ls[1..];
    FilterMapNone(ls[1..], TaskIdEntry);
    FilterMapAppend([ls[0]], ls[1..], TaskIdEntry);
    assert [ls[0]][..0] == [];
  }

  /** The first line of a feature's head, and no other, is a feature id
      line; none of them is a task id line. */
  lemma FeatureHeadIds(f: Feature)
    ensures FilterMap(FeatureHeadLines(f), FeatureIdEntry) == [f.id]
    ensures FilterMap(FeatureHeadLines(f), TaskIdEntry) == []
  {
    var head := FeatureHeadLines(f);
    KeyedLine(FeatureIdKey, f.id);
    assert FeatureIdEntry(head[0]) == Some(f.id);
    forall j | 0 <= j < |head| ensures NotTaskIdLine(head[j]) {
      PrefixMismatch(head[j], TaskIdKey, 6);
    }
    forall j | 1 <= j < |head| ensures NotFeatureIdLine(head[j]) {
      PrefixMismatch(head[j], FeatureIdKey, 2);
    }
    FilterMapNone(head, TaskIdEntry);
    assert head == [head[0]] + head[1..];
    FilterMapNone(head[1..], FeatureIdEntry);
    FilterMapAppend([head[0]], head[1..], FeatureIdEntry);
    assert [head[0]][..0] == [];
  }

  function IdOfTask(t: Task): seq<string> {
    [t.id]
  }

  function IdOfFeature(f: Feature): seq<string> {
    [f.id]
  }

  /** The ids of a feature's tasks, in order. */
  function TaskIdsOf(f: Feature): seq<string> {
    FlatMap(f.tasks, IdOfTask)
  }

  lemma {:induction false} FeatureLinesIds(f: Feature)
    ensures FilterMap(FeatureLines(f), FeatureIdEntry) == [f.id]
    ensures FilterMap(FeatureLines(f), TaskIdEntry) == TaskIdsOf(f)
  {
    var head, body := FeatureHeadLines(f), FlatMap(f.tasks, TaskLines);
    forall i | 0 <= i < |f.tasks|
      ensures forall j :: 0 <= j < |TaskLines(f.tasks[i])| ==> NotFeatureIdLine(TaskLines(f.tasks[i])[j])
      ensures FilterMap(TaskLines(f.tasks[i]), TaskIdEntry) == IdOfTask(f.tasks[i])
    {
      TaskLinesNoFeatureId(f.tasks[i]);
      TaskLinesIds(f.tasks[i]);
    }
    FlatMapEvery(f.tasks, TaskLines, NotFeatureIdLine);
    FilterMapNone(body, FeatureIdEntry);
    FilterMapOverFlatMap(f.tasks, TaskLines, TaskIdEntry, IdOfTask);
    FeatureHeadIds(f);
    FilterMapAppend(head, body, FeatureIdEntry);
    FilterMapAppend(head, body, TaskIdEntry);
  }

  /** The feature id lines of the document list the features' ids, one per
      feature and in order. */
  lemma {:induction false} YamlFeatureIds(p: Project)
    ensures var ids := FilterMap(YamlLines(p), FeatureIdEntry);
      |ids| == |p.features| && forall i :: 0 <= i < |p.features| ==> ids[i] == p.features[i].id
  {
    HeaderHasNoIds(p);
    FilterMapNone(HeaderLines(p), FeatureIdEntry);
    forall i | 0 <= i < |p.features|
      ensures FilterMap(FeatureLines(p.features[i]), FeatureIdEntry) == IdOfFeature(p.features[i])
    {
      FeatureLinesIds(p.features[i]);
    }
    FilterMapOverFlatMap(p.features, FeatureLines, FeatureIdEntry, IdOfFeature);
    FilterMapAppend(HeaderLines(p), FlatMap(p.features, FeatureLines), FeatureIdEntry);
    FlatMapSingletons(p.features, IdOfFeature);
  }

  /** The task id lines of the document list every task's id, feature by
      feature and task by task. */
  lemma {:induction false} YamlTaskIds(p: Project)
    ensures FilterMap(YamlLines(p), TaskIdEntry) == FlatMap(p.features, TaskIdsOf)
  {
    HeaderHasNoIds(p);
    FilterMapNone(HeaderLines(p), TaskIdEntry);
    forall i | 0 <= i < |p.features|
      ensures FilterMap(FeatureLines(p.features[i]), TaskIdEntry) == TaskIdsOf(p.features[i])
    {
      FeatureLinesIds(p.features[i]);
    }
    FilterMapOverFlatMap(p.features, FeatureLines, TaskIdEntry, TaskIdsOf);
    FilterMapAppend(HeaderLines(p), FlatMap(p.features, FeatureLines), TaskIdEntry);
  }
}
