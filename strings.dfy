/** Text and sequence primitives shared by the two front-ends: the standard
    library calls they rely on (str.strip / strings.TrimSpace, str.split /
    strings.Split, str.join, %d formatting), stated once with their meaning. */
module Strings {

  datatype Option<+T> = None | Some(value: T)

  datatype Result<+T, +E> = Success(value: T) | Failure(error: E)

  // ---------------------------------------------------------------------------
  // Whitespace and trimming
  // ---------------------------------------------------------------------------

  /** Go's unicode.IsSpace: what strings.TrimSpace removes. */
  predicate IsGoSpace(c: char) {
    c == ' ' || ('\t' <= c <= '\r')
    || c == '\U{85}' || c == '\U{A0}' || c == '\U{1680}'
    || ('\U{2000}' <= c <= '\U{200A}')
    || c == '\U{2028}' || c == '\U{2029}' || c == '\U{202F}' || c == '\U{205F}' || c == '\U{3000}'
  }

  /** Python's str.isspace: what str.strip() removes. It is Go's set plus the
      ASCII file, group, record and unit separators U+001C..U+001F. */
  predicate IsPySpace(c: char) {
    IsGoSpace(c) || ('\U{1C}' <= c <= '\U{1F}')
  }

  predicate AllSpace(s: string, space: char -> bool) {
    forall i :: 0 <= i < |s| ==> space(s[i])
  }

  /** How many characters at the front of `s` satisfy `space`. */
  function LeadingCount(s: string, space: char -> bool): (n: nat)
    ensures n <= |s| && AllSpace(s[..n], space)
    ensures n < |s| ==> !space(s[n])
  {
    if s != [] && space(s[0]) then 1 + LeadingCount(s[1..], space) else 0
  }

  /** How many characters at the back of `s` satisfy `space`. */
  function TrailingCount(s: string, space: char -> bool): (n: nat)
    ensures n <= |s| && AllSpace(s[|s| - n..], space)
    ensures n < |s| ==> !space(s[|s| - n - 1])
  {
    if s != [] && space(s[|s| - 1]) then 1 + TrailingCount(s[..|s| - 1], space) else 0
  }

  /** A run of `n` spaces that stops at a non-space is the leading run. */
  lemma {:induction false} LeadingCountIs(s: string, space: char -> bool, n: nat)
    requires n <= |s| && AllSpace(s[..n], space)
    requires n < |s| ==> !space(s[n])
    ensures LeadingCount(s, space) == n
  {
    if n > 0 {
      assert space(s[..n][0]);
      assert s[1..][..n - 1] == s[..n][1..];
      LeadingCountIs(s[1..], space, n - 1);
    }
  }

  /** Removes every leading and trailing character that satisfies `space`:
      the result is the infix of `s` after its leading run of spaces and
      before a trailing all-space rest, it neither starts nor ends with a
      space, and it is empty exactly when `s` is all space. */
  function Trim(s: string, space: char -> bool): (r: string)
    ensures r == [] <==> AllSpace(s, space)
    ensures r != [] ==> !space(r[0]) && !space(r[|r| - 1])
    ensures LeadingCount(s, space) + |r| <= |s|
    ensures r == s[LeadingCount(s, space)..LeadingCount(s, space) + |r|]
    ensures AllSpace(s[LeadingCount(s, space) + |r|..], space)
  {
    var a := LeadingCount(s, space);
    if a == |s| then
      assert s[..a] == s;
      []
    else
      var b := TrailingCount(s, space);
      assert b < |s| - a;
      assert !AllSpace(s, space) by { assert !space(s[a]); }
      s[a..|s| - b]
  }

  /** Python's str.strip() with no argument. */
  function Strip(s: string): (r: string)
    ensures r == [] <==> AllSpace(s, IsPySpace)
    ensures r != [] ==> !IsPySpace(r[0]) && !IsPySpace(r[|r| - 1])
  {
    Trim(s, IsPySpace)
  }

  /** What Strip keeps is the stretch after the leading white space. */
  lemma StripIsSlice(s: string, l: nat, v: string)
    requires l == LeadingCount(s, IsPySpace) && v == Strip(s)
    ensures l + |v| <= |s| && v == s[l..l + |v|]
  {
  }

  /** Go's strings.TrimSpace. */
  function TrimSpace(s: string): (r: string)
    ensures r == [] <==> AllSpace(s, IsGoSpace)
    ensures r != [] ==> !IsGoSpace(r[0]) && !IsGoSpace(r[|r| - 1])
  {
    Trim(s, IsGoSpace)
  }

  /** A string Python's `not s.strip()` calls blank. */
  predicate IsBlank(s: string) {
    AllSpace(s, IsPySpace)
  }

  /** Trimming something already trimmed changes nothing. */
  lemma TrimIdempotent(s: string, space: char -> bool)
    ensures Trim(Trim(s, space), space) == Trim(s, space)
  {
    var r := Trim(s, space);
    if r != [] {
      assert LeadingCount(r, space) == 0;
      assert TrailingCount(r, space) == 0;
    }
  }

  // ---------------------------------------------------------------------------
  // Prefixes, occurrences, splitting and joining
  // ---------------------------------------------------------------------------

  predicate StartsWith(s: string, prefix: string) {
    |prefix| <= |s| && s[..|prefix|] == prefix
  }

  lemma ConcatAssoc<T>(a: seq<T>, b: seq<T>, c: seq<T>)
    ensures (a + b) + c == a + (b + c)
  {
  }

  /** The front and the last element of a concatenation whose second part
      is not empty. */
  lemma AppendFront<T>(xs: seq<T>, ys: seq<T>)
    requires ys != []
    ensures (xs + ys)[..|xs + ys| - 1] == xs + ys[..|ys| - 1]
    ensures (xs + ys)[|xs + ys| - 1] == ys[|ys| - 1]
  {
  }

  lemma SplitAt<T>(s: seq<T>, n: nat)
    requires n <= |s|
    ensures s == s[..n] + s[n..]
  {
  }

  lemma TakeSnoc<T>(s: seq<T>, i: nat)
    requires i < |s|
    ensures s[..i + 1] == s[..i] + [s[i]]
  {
  }

  /** A slice of `rest` read through `pre + rest`. */
  lemma SliceAfterPrefix<T>(pre: seq<T>, rest: seq<T>, a: nat, b: nat, a': nat, b': nat)
    requires a <= b <= |rest| && a' == |pre| + a && b' == |pre| + b
    ensures (pre + rest)[a'..b'] == rest[a..b]
  {
  }

  lemma IndexAfterPrefix<T>(pre: seq<T>, rest: seq<T>, i: nat, i': nat)
    requires i < |rest| && i' == |pre| + i
    ensures (pre + rest)[i'] == rest[i]
  {
  }

  /** A part of a piece that sits at `start` in `whole` sits at
      `start + l` in `whole`. */
  lemma SubSliceAt<T>(whole: seq<T>, start: nat, piece: seq<T>, l: nat, v: seq<T>)
    requires start + |piece| <= |whole| && whole[start..start + |piece|] == piece
    requires l + |v| <= |piece| && v == piece[l..l + |v|]
    ensures whole[start + l..start + l + |v|] == v
  {
    forall i | 0 <= i < |v| ensures whole[start + l..start + l + |v|][i] == v[i] {
      assert v[i] == piece[l + i] == whole[start + l + i];
    }
  }

  /** `sep` occurs in `s` starting at index `i`. */
  predicate OccursAt(s: string, sep: string, i: nat) {
    i + |sep| <= |s| && s[i..i + |sep|] == sep
  }

  predicate NoOccurrence(s: string, sep: string) {
    forall j :: 0 <= j <= |s| ==> !OccursAt(s, sep, j)
  }

  /** The leftmost occurrence of `sep` at or after `from`. */
  function Find(s: string, sep: string, from: nat): (r: Option<nat>)
    requires from <= |s|
    ensures r.Some? ==> from <= r.value && OccursAt(s, sep, r.value)
    ensures r.Some? ==> forall j :: from <= j < r.value ==> !OccursAt(s, sep, j)
    ensures r.None? <==> forall j :: from <= j <= |s| ==> !OccursAt(s, sep, j)
    decreases |s| - from
  {
    if OccursAt(s, sep, from) then Some(from)
    else if from == |s| then None
    else Find(s, sep, from + 1)
  }

  /** The least position in [from, end] where `P` holds: the leftmost match
      of a pattern tried at every position in turn. */
  function FirstFrom(from: nat, end: nat, P: nat -> bool): (r: Option<nat>)
    requires from <= end
    ensures r.Some? ==> from <= r.value <= end && P(r.value)
    decreases end - from
  {
    if P(from) then Some(from)
    else if from == end then None
    else FirstFrom(from + 1, end, P)
  }

  /** The position found is a match with no match before it, and there is
      none only when no position matches. */
  lemma {:induction false} FirstFromIsLeftmost(from: nat, end: nat, P: nat -> bool)
    requires from <= end
    ensures var r := FirstFrom(from, end, P);
      && (r.Some? ==> forall q :: from <= q < r.value ==> !P(q))
      && (r.None? <==> forall q :: from <= q <= end ==> !P(q))
    decreases end - from
  {
    if !P(from) && from < end {
      FirstFromIsLeftmost(from + 1, end, P);
    }
  }

  /** Python's str.split(sep) and Go's strings.Split(s, sep) for a non-empty
      separator: cut at the leftmost occurrence, then go on with what follows
      it, so occurrences are taken left to right and never overlap. Every
      part is free of the separator. */
  function Split(s: string, sep: string): (parts: seq<string>)
    requires |sep| > 0
    ensures |parts| >= 1
    ensures forall k :: 0 <= k < |parts| ==> NoOccurrence(parts[k], sep)
    decreases |s|
  {
    match Find(s, sep, 0)
    case None => [s]
    case Some(i) =>
      var head := s[..i];
      assert NoOccurrence(head, sep) by {
        forall j | 0 <= j <= |head| ensures !OccursAt(head, sep, j) {
          if j + |sep| <= |head| {
            assert head[j..j + |sep|] == s[j..j + |sep|];
            assert !OccursAt(s, sep, j);
          }
        }
      }
      [head] + Split(s[i + |sep|..], sep)
  }

  /** The parts put back together with `sep` between them: what Split
      undoes (JoinSplit), and how a feature's raw text is assembled. */
  function Join(parts: seq<string>, sep: string): string {
    if |parts| == 0 then ""
    else if |parts| == 1 then parts[0]
    else parts[0] + sep + Join(parts[1..], sep)
  }

  /** Splitting loses nothing: joining the parts back with the separator
      gives the original text. */
  lemma {:induction false} JoinSplit(s: string, sep: string)
    requires |sep| > 0
    ensures Join(Split(s, sep), sep) == s
    decreases |s|
  {
    match Find(s, sep, 0)
    case None =>
    case Some(i) =>
      var tail := s[i + |sep|..];
      var rest := Split(tail, sep);
      JoinSplit(tail, sep);
      assert Split(s, sep) == [s[..i]] + rest;
      assert ([s[..i]] + rest)[1..] == rest;
      assert Join([s[..i]] + rest, sep) == s[..i] + sep + Join(rest, sep);
      assert s == s[..i] + sep + tail;
  }

  lemma {:induction false} JoinSnoc(parts: seq<string>, sep: string, last: string)
    requires |parts| >= 1
    ensures Join(parts + [last], sep) == Join(parts, sep) + sep + last
  {
    if |parts| == 1 {
      assert parts + [last] == [parts[0], last];
    } else {
      JoinSnoc(parts[1..], sep, last);
      assert (parts + [last])[1..] == parts[1..] + [last];
    }
  }

  /** Joining two non-empty lists is joining their joins. */
  lemma {:induction false} JoinAppend(a: seq<string>, b: seq<string>, sep: string)
    requires |a| >= 1 && |b| >= 1
    ensures Join(a + b, sep) == Join(a, sep) + sep + Join(b, sep)
  {
    if |a| == 1 {
      assert (a + b)[1..] == b;
    } else {
      JoinAppend(a[1..], b, sep);
      assert (a + b)[1..] == a[1..] + b;
    }
  }

  /** The first part is where the joined text starts. */
  lemma JoinStartsWithFirst(parts: seq<string>, sep: string)
    requires |parts| >= 1
    ensures StartsWith(Join(parts, sep), parts[0])
  {
    if |parts| > 1 {
      var t := Join(parts, sep);
      assert t == parts[0] + (sep + Join(parts[1..], sep));
      assert t[..|parts[0]|] == parts[0];
    }
  }

  /** Where the k-th part sits in the joined text: right after the join of
      the parts before it and one separator. */
  lemma JoinPartAt(parts: seq<string>, sep: string, k: nat)
    requires 0 < k < |parts|
    ensures var at := |Join(parts[..k], sep)| + |sep|;
      at + |parts[k]| <= |Join(parts, sep)| && Join(parts, sep)[at..at + |parts[k]|] == parts[k]
  {
    var front, back := Join(parts[..k], sep), Join(parts[k..], sep);
    assert parts == parts[..k] + parts[k..];
    JoinAppend(parts[..k], parts[k..], sep);
    JoinStartsWithFirst(parts[k..], sep);
    var t := Join(parts, sep);
    assert t == front + sep + back;
    assert t[|front| + |sep|..] == back;
  }

  // ---------------------------------------------------------------------------
  // Decimal rendering, as Go's %d and Python's f-string {n} print integers
  // ---------------------------------------------------------------------------

  predicate IsDigit(c: char) {
    '0' <= c <= '9'
  }

  predicate AllDigits(s: string) {
    forall i :: 0 <= i < |s| ==> IsDigit(s[i])
  }

  function DigitChar(d: nat): (c: char)
    requires d < 10
    ensures IsDigit(c)
  {
    (('0' as int) + d) as char
  }

  function DigitValue(c: char): nat
    requires IsDigit(c)
  {
    (c as int) - ('0' as int)
  }

  /** The shortest decimal spelling of `n`: digits only, no leading zero. */
  function Decimal(n: nat): (r: string)
    ensures r != [] && AllDigits(r)
    ensures r[0] == '0' ==> r == "0"
  {
    if n < 10 then [DigitChar(n)] else Decimal(n / 10) + [DigitChar(n % 10)]
  }

  /** Go's %d of a possibly negative int. */
  function IntDecimal(i: int): (r: string)
    ensures r != []
    ensures '\n' !in r
  {
    if i < 0 then "-" + Decimal(-i) else Decimal(i)
  }

  function ParseDecimal(s: string): nat
    requires AllDigits(s)
  {
    if s == [] then 0 else ParseDecimal(s[..|s| - 1]) * 10 + DigitValue(s[|s| - 1])
  }

  /** Reading back the decimal spelling gives the number. */
  lemma {:induction false} DecimalRoundTrip(n: nat)
    ensures ParseDecimal(Decimal(n)) == n
  {
    if n >= 10 {
      DecimalRoundTrip(n / 10);
      var r := Decimal(n);
      assert r[..|r| - 1] == Decimal(n / 10);
    }
  }

  /** Distinct numbers have distinct spellings. */
  lemma DecimalInjective(m: nat, n: nat)
    requires Decimal(m) == Decimal(n)
    ensures m == n
  {
    DecimalRoundTrip(m);
    DecimalRoundTrip(n);
  }

  // ---------------------------------------------------------------------------
  // Keeping the successful results of a per-item step, in order
  // ---------------------------------------------------------------------------

  /** Applies `f` to every item in order and keeps the values of the calls
      that succeed: a loop that appends on success and skips on failure. */
  function FilterMap<A, B>(xs: seq<A>, f: A -> Option<B>): (ys: seq<B>)
    ensures |ys| <= |xs|
  {
    if xs == [] then []
    else FilterMap(xs[..|xs| - 1], f) + Values(f(xs[|xs| - 1]))
  }

  /** The value of a successful call as a one-element sequence, or nothing. */
  function Values<B>(o: Option<B>): seq<B> {
    match o
    case Some(y) => [y]
    case None => []
  }

  /** One more item adds at most its own value at the end. */
  lemma FilterMapSnoc<A, B>(xs: seq<A>, i: nat, f: A -> Option<B>)
    requires i < |xs|
    ensures FilterMap(xs[..i + 1], f) == FilterMap(xs[..i], f) + Values(f(xs[i]))
  {
    assert xs[..i + 1][..i] == xs[..i];
  }

  /** The indices of the items on which `f` succeeds, in increasing order. */
  function Survivors<A, B>(xs: seq<A>, f: A -> Option<B>): (idx: seq<nat>)
    ensures forall j :: 0 <= j < |idx| ==> idx[j] < |xs| && f(xs[idx[j]]).Some?
    ensures forall j, k :: 0 <= j < k < |idx| ==> idx[j] < idx[k]
    ensures forall i :: 0 <= i < |xs| && f(xs[i]).Some? ==> i in idx
  {
    if xs == [] then []
    else
      var front := xs[..|xs| - 1];
      var rest := Survivors(front, f);
      assert forall j :: 0 <= j < |rest| ==> xs[rest[j]] == front[rest[j]];
      rest + (if f(xs[|xs| - 1]).Some? then [|xs| - 1] else [])
  }

  /** No item survives when `f` fails on all of them. */
  lemma {:induction false} SurvivorsNone<A, B>(xs: seq<A>, f: A -> Option<B>)
    requires forall i :: 0 <= i < |xs| ==> f(xs[i]).None?
    ensures Survivors(xs, f) == []
  {
    if xs != [] {
      SurvivorsNone(xs[..|xs| - 1], f);
    }
  }

  /** Items on which `f` fails, put in front, only shift the indices of
      the surviving items by their number. */
  lemma {:induction false} SurvivorsAfterFailures<A, B>(pre: seq<A>, rest: seq<A>, f: A -> Option<B>)
    requires forall i :: 0 <= i < |pre| ==> f(pre[i]).None?
    ensures |Survivors(pre + rest, f)| == |Survivors(rest, f)|
    ensures forall j :: 0 <= j < |Survivors(rest, f)| ==>
      Survivors(pre + rest, f)[j] == |pre| + Survivors(rest, f)[j]
    decreases |rest|
  {
    if rest == [] {
      assert pre + rest == pre;
      SurvivorsNone(pre, f);
    } else {
      var front := rest[..|rest| - 1];
      SurvivorsAfterFailures(pre, front, f);
      AppendFront(pre, rest);
    }
  }

  /** The kept values are exactly the results on the surviving items, in the
      items' order. */
  lemma {:induction false} FilterMapAtSurvivors<A, B>(xs: seq<A>, f: A -> Option<B>)
    ensures |FilterMap(xs, f)| == |Survivors(xs, f)|
    ensures forall j :: 0 <= j < |FilterMap(xs, f)| ==>
      f(xs[Survivors(xs, f)[j]]) == Some(FilterMap(xs, f)[j])
  {
    if xs != [] {
      var front, last := xs[..|xs| - 1], xs[|xs| - 1];
      FilterMapAtSurvivors(front, f);
      var ys, idx := FilterMap(front, f), Survivors(front, f);
      assert FilterMap(xs, f) == ys + Values(f(last));
      assert Survivors(xs, f) == idx + (if f(last).Some? then [|xs| - 1] else []);
      forall j | 0 <= j < |FilterMap(xs, f)|
        ensures f(xs[Survivors(xs, f)[j]]) == Some(FilterMap(xs, f)[j])
      {
        if j < |ys| {
          assert xs[idx[j]] == front[idx[j]];
        }
      }
    }
  }

  /** A step over a concatenation is the concatenation of the steps: what
      happens to one item depends on that item alone. */
  lemma {:induction false} FilterMapAppend<A, B>(xs: seq<A>, ys: seq<A>, f: A -> Option<B>)
    ensures FilterMap(xs + ys, f) == FilterMap(xs, f) + FilterMap(ys, f)
    decreases |ys|
  {
    if ys == [] {
      assert xs + ys == xs;
    } else {
      var ys' := ys[..|ys| - 1];
      var last := Values(f(ys[|ys| - 1]));
      FilterMapAppend(xs, ys', f);
      AppendFront(xs, ys);
      assert FilterMap(xs + ys, f) == FilterMap(xs + ys', f) + last;
      ConcatAssoc(FilterMap(xs, f), FilterMap(ys', f), last);
    }
  }

  /** When every call succeeds nothing is dropped: the i-th result belongs to
      the i-th item. */
  lemma {:induction false} FilterMapAllSucceed<A, B>(xs: seq<A>, f: A -> Option<B>)
    requires forall i :: 0 <= i < |xs| ==> f(xs[i]).Some?
    ensures |FilterMap(xs, f)| == |xs|
    ensures forall i :: 0 <= i < |xs| ==> FilterMap(xs, f)[i] == f(xs[i]).value
  {
    if xs != [] {
      FilterMapAllSucceed(xs[..|xs| - 1], f);
    }
  }

  /** Failure isolation: a failing item drops out and leaves the results of
      the items before and after it as they would be on their own. */
  lemma FilterMapDropsFailure<A, B>(xs: seq<A>, k: nat, f: A -> Option<B>)
    requires k < |xs| && f(xs[k]).None?
    ensures FilterMap(xs, f) == FilterMap(xs[..k], f) + FilterMap(xs[k + 1..], f)
  {
    var before, after := xs[..k], xs[k + 1..];
    var middle := before + [xs[k]];
    assert FilterMap(xs, f) == FilterMap(middle, f) + FilterMap(after, f) by {
      assert xs == middle + after;
      FilterMapAppend(middle, after, f);
    }
    assert FilterMap(middle, f) == FilterMap(before, f) by {
      assert middle[..|middle| - 1] == before;
    }
  }

  /** If exactly one of N calls fails, the result holds the other N - 1
      values in their original relative order. */
  lemma OneFailureLeavesTheRest<A, B>(xs: seq<A>, k: nat, f: A -> Option<B>)
    requires k < |xs| && f(xs[k]).None?
    requires forall i :: 0 <= i < |xs| && i != k ==> f(xs[i]).Some?
    ensures |FilterMap(xs, f)| == |xs| - 1
    ensures forall j :: 0 <= j < |xs| - 1 ==>
      FilterMap(xs, f)[j] == f(xs[if j < k then j else j + 1]).value
  {
    FilterMapDropsFailure(xs, k, f);
    var before, after := xs[..k], xs[k + 1..];
    FilterMapAllSucceed(before, f);
    FilterMapAllSucceed(after, f);
  }

  /** Applies `f` to every item in order and concatenates what it returns:
      a loop that appends each item's contribution to one list. */
  function FlatMap<A, B>(xs: seq<A>, f: A -> seq<B>): seq<B> {
    if xs == [] then [] else FlatMap(xs[..|xs| - 1], f) + f(xs[|xs| - 1])
  }

  /** What one item contributes does not depend on the others. */
  lemma {:induction false} FlatMapAppend<A, B>(xs: seq<A>, ys: seq<A>, f: A -> seq<B>)
    ensures FlatMap(xs + ys, f) == FlatMap(xs, f) + FlatMap(ys, f)
    decreases |ys|
  {
    if ys == [] {
      assert xs + ys == xs;
    } else {
      var ys', last := ys[..|ys| - 1], ys[|ys| - 1];
      FlatMapAppend(xs, ys', f);
      AppendFront(xs, ys);
      assert FlatMap(xs + ys, f) == FlatMap(xs + ys', f) + f(last);
      ConcatAssoc(FlatMap(xs, f), FlatMap(ys', f), f(last));
    }
  }

  lemma FlatMapSnoc<A, B>(xs: seq<A>, i: nat, f: A -> seq<B>)
    requires i < |xs|
    ensures FlatMap(xs[..i + 1], f) == FlatMap(xs[..i], f) + f(xs[i])
  {
    assert xs[..i + 1][..i] == xs[..i];
  }

  /** The flattened list is empty exactly when every item contributes nothing. */
  lemma {:induction false} FlatMapEmptyIff<A, B>(xs: seq<A>, f: A -> seq<B>)
    ensures FlatMap(xs, f) == [] <==> forall i :: 0 <= i < |xs| ==> f(xs[i]) == []
  {
    if xs != [] {
      var front := xs[..|xs| - 1];
      FlatMapEmptyIff(front, f);
      assert forall i :: 0 <= i < |front| ==> front[i] == xs[i];
    }
  }

  /** A line as it is written out: followed by a line break. */
  function Line(l: string): string {
    l + "\n"
  }

  /** Lines written one after another, each followed by a line break. */
  function Text(lines: seq<string>): string {
    FlatMap(lines, Line)
  }

  lemma TextSnoc(lines: seq<string>, l: string)
    ensures Text(lines + [l]) == Text(lines) + Line(l)
  {
    assert (lines + [l])[..|lines|] == lines;
  }

  lemma TextCons(l: string, lines: seq<string>)
    ensures Text([l] + lines) == Line(l) + Text(lines)
  {
    FlatMapAppend([l], lines, Line);
    assert [l][..0] == [];
  }

  /** Splitting written lines at line breaks gives the lines back, and an
      empty last part after the final break, provided no line holds a
      break of its own. */
  lemma {:induction false} SplitText(lines: seq<string>)
    requires forall k :: 0 <= k < |lines| ==> '\n' !in lines[k]
    ensures Split(Text(lines), "\n") == lines + [""]
  {
    if lines == [] {
      assert Find("", "\n", 0) == None;
    } else {
      var l, rest := lines[0], lines[1..];
      assert lines == [l] + rest;
      TextCons(l, rest);
      SplitAtFirstBreak(Text(lines), l, Text(rest));
      SplitText(rest);
    }
  }

  /** A text that starts with a line free of breaks and a break splits into
      that line and the splits of the rest. */
  lemma SplitAtFirstBreak(s: string, l: string, tail: string)
    requires '\n' !in l && s == l + "\n" + tail
    ensures Split(s, "\n") == [l] + Split(tail, "\n")
  {
    assert OccursAt(s, "\n", |l|) by {
      assert s[|l|..|l| + 1] == "\n";
    }
    forall j | 0 <= j < |l| ensures !OccursAt(s, "\n", j) {
      assert s[j] == l[j];
    }
    var found := Find(s, "\n", 0);
    assert found == Some(|l|) by {
      assert found.Some?;
    }
    assert s[..|l|] == l && s[|l| + 1..] == tail;
  }

  /** A filter over a flattened list is the flattening of the filters of
      the pieces, when each piece filters to `k` of its item. */
  lemma {:induction false} FilterMapOverFlatMap<A, B, C>(xs: seq<A>, g: A -> seq<B>, h: B -> Option<C>, k: A -> seq<C>)
    requires forall i :: 0 <= i < |xs| ==> FilterMap(g(xs[i]), h) == k(xs[i])
    ensures FilterMap(FlatMap(xs, g), h) == FlatMap(xs, k)
  {
    if xs != [] {
      var front, last := xs[..|xs| - 1], xs[|xs| - 1];
      FilterMapOverFlatMap(front, g, h, k);
      FilterMapAppend(FlatMap(front, g), g(last), h);
    }
  }

  /** Flattening one-element pieces lists their elements, item by item. */
  lemma {:induction false} FlatMapSingletons<A, B>(xs: seq<A>, k: A -> seq<B>)
    requires forall i :: 0 <= i < |xs| ==> |k(xs[i])| == 1
    ensures |FlatMap(xs, k)| == |xs|
    ensures forall i :: 0 <= i < |xs| ==> FlatMap(xs, k)[i] == k(xs[i])[0]
  {
    if xs != [] {
      FlatMapSingletons(xs[..|xs| - 1], k);
    }
  }

  /** A property of every element of two lists holds of every element of
      their concatenation. */
  lemma EveryAppend<T>(xs: seq<T>, ys: seq<T>, P: T -> bool)
    requires forall i :: 0 <= i < |xs| ==> P(xs[i])
    requires forall i :: 0 <= i < |ys| ==> P(ys[i])
    ensures forall i :: 0 <= i < |xs + ys| ==> P((xs + ys)[i])
  {
  }

  /** A property every piece's elements have holds of every element of
      the flattened list. */
  lemma {:induction false} FlatMapEvery<A, B>(xs: seq<A>, f: A -> seq<B>, P: B -> bool)
    requires forall i, j :: 0 <= i < |xs| && 0 <= j < |f(xs[i])| ==> P(f(xs[i])[j])
    ensures forall j :: 0 <= j < |FlatMap(xs, f)| ==> P(FlatMap(xs, f)[j])
  {
    if xs != [] {
      FlatMapEvery(xs[..|xs| - 1], f, P);
    }
  }

  /** Nothing is kept when every call fails. */
  lemma {:induction false} FilterMapNone<A, B>(xs: seq<A>, f: A -> Option<B>)
    requires forall i :: 0 <= i < |xs| ==> f(xs[i]).None?
    ensures FilterMap(xs, f) == []
  {
    if xs != [] {
      FilterMapNone(xs[..|xs| - 1], f);
    }
  }

  /** How many times `x` occurs in `xs`. */
  function Count<T(==)>(xs: seq<T>, x: T): nat {
    if xs == [] then 0 else Count(xs[..|xs| - 1], x) + (if xs[|xs| - 1] == x then 1 else 0)
  }

  lemma {:induction false} CountAppend<T>(a: seq<T>, b: seq<T>, x: T)
    ensures Count(a + b, x) == Count(a, x) + Count(b, x)
    decreases |b|
  {
    if b == [] {
      assert a + b == a;
    } else {
      CountAppend(a, b[..|b| - 1], x);
      AppendFront(a, b);
    }
  }

  /** How often `x` occurs in a list holding `y` or nothing. */
  lemma CountOptional<T>(present: bool, y: T, x: T)
    ensures Count(if present then [y] else [], x) == if present && x == y then 1 else 0
  {
    if present {
      assert [y][..0] == [];
    }
  }

  lemma CountFourParts<T>(a: seq<T>, b: seq<T>, c: seq<T>, d: seq<T>, x: T)
    ensures Count(((a + b) + c) + d, x) == Count(a, x) + Count(b, x) + Count(c, x) + Count(d, x)
  {
    CountAppend(a, b, x);
    CountAppend(a + b, c, x);
    CountAppend((a + b) + c, d, x);
  }

  lemma {:induction false} CountAbsent<T>(xs: seq<T>, x: T)
    requires x !in xs
    ensures Count(xs, x) == 0
  {
    if xs != [] {
      CountAbsent(xs[..|xs| - 1], x);
    }
  }

  /** An element no item contributes never occurs in the flattened list. */
  lemma {:induction false} CountFlatMapAbsent<A, B>(xs: seq<A>, f: A -> seq<B>, x: B)
    requires forall i :: 0 <= i < |xs| ==> x !in f(xs[i])
    ensures Count(FlatMap(xs, f), x) == 0
  {
    if xs != [] {
      var front := xs[..|xs| - 1];
      CountFlatMapAbsent(front, f, x);
      CountAbsent(f(xs[|xs| - 1]), x);
      CountAppend(FlatMap(front, f), f(xs[|xs| - 1]), x);
    }
  }
}
