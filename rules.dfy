/**
 * Reading the rules file of generator/sequence_transform_data.py: the
 * per-line split of parse_file_lines and the validation loop of parse_file.
 * The file is given as its list of lines; opening and reading it is not
 * part of this model.
 */
module Rules {
  import opened Wrappers
  import opened Errors
  import opened PyStr

  /** Longest context parse_file accepts. */
  const MAX_CONTEXT_LENGTH: nat := 127

  /** One "context -> correction" line, numbered from 1. */
  datatype LineItem = LineItem(lineNumber: nat, context: string, correction: string)

  /**
   * What the generator parse_file_lines yields before it stops: the parsed
   * rules and, when a line is malformed, the error it exits with there.
   */
  datatype LineStream = LineStream(items: seq<LineItem>, stop: Option<Error>)

  /** A line parse_file_lines ignores: blank, or starting with the comment string. */
  predicate Ignored(line: string, comment: string) {
    var s := Strip(line);
    s == [] || comment <= s
  }

  /**
   * One line of parse_file_lines: None for an ignored line, otherwise the
   * stripped halves around the first separator. A line without the separator
   * or with an empty context is a syntax error; an empty separator makes
   * str.split raise.
   */
  function ParseLine(line: string, separator: string, comment: string, lineNumber: nat)
    : Result<Option<(string, string)>, Error>
  {
    var s := Strip(line);
    if s == [] || Find(s, comment) == 0 then Ok(None)
    else if separator == [] then Err(EmptySeparator)
    else
      var parts := SplitOnce(s, separator);
      if |parts| != 2 then Err(SyntaxError(lineNumber))
      else
        var context := Strip(parts[0]);
        if context == [] then Err(SyntaxError(lineNumber))
        else Ok(Some((context, Strip(parts[1]))))
  }

  /** What ParseLine decides, case by case. */
  lemma ParseLineCases(line: string, separator: string, comment: string, lineNumber: nat)
    ensures var r := ParseLine(line, separator, comment, lineNumber);
      && (r == Ok(None) <==> Ignored(line, comment))
      && (r.Err? && separator == [] ==> r.error == EmptySeparator)
      && (r.Err? && separator != [] ==> r.error == SyntaxError(lineNumber))
      && (r.Err? && separator != [] <==>
            separator != [] && !Ignored(line, comment) && (Find(Strip(line), separator) == -1
              || Strip(Strip(line)[..Find(Strip(line), separator)]) == []))
      && (r.Ok? && r.value.Some? ==>
            var s := Strip(line);
            var i := Find(s, separator);
            && separator != [] && 0 <= i
            && r.value.value.0 == Strip(s[..i]) != []
            && r.value.value.1 == Strip(s[i + |separator|..]))
  {
    var s := Strip(line);
    FindZeroIsPrefix(s, comment);
    if s != [] && Find(s, comment) != 0 && separator != [] && Find(s, separator) != -1 {
      var i := Find(s, separator);
      var parts := SplitOnce(s, separator);
      assert parts[0] == s[..i] && parts[1] == s[i + |separator|..];
    }
  }

  /** No whitespace at either end (what str.strip leaves). */
  predicate Trimmed(s: string) {
    s == [] || (!IsSpace(s[0]) && !IsSpace(s[|s| - 1]))
  }

  /**
   * Writing a rule as context + separator + correction and parsing the line
   * gives the rule back, provided the separator first occurs after the
   * context and the line does not start with the comment string.
   */
  lemma FormatThenParse(context: string, correction: string, separator: string, comment: string, n: nat)
    requires context != [] && Trimmed(context) && Trimmed(correction)
    requires separator != [] && Trimmed(separator)
    requires forall i :: 0 <= i < |context| ==> !OccursAt(context + separator, separator, i)
    requires !(comment <= context + separator + correction)
    ensures ParseLine(context + separator + correction, separator, comment, n) == Ok(Some((context, correction)))
  {
    var line := context + separator + correction;
    assert line[0] == context[0];
    assert line[|line| - 1] == if correction == [] then separator[|separator| - 1] else correction[|correction| - 1];
    StripNoSpace(line);
    FindZeroIsPrefix(line, comment);
    SeparatorAfterContext(context, correction, separator);
    StripNoSpace(context);
    StripNoSpace(correction);
    var parts := SplitOnce(line, separator);
    assert parts == [context, correction];
  }

  /** The separator first occurs right after the context. */
  lemma SeparatorAfterContext(context: string, correction: string, separator: string)
    requires forall i :: 0 <= i < |context| ==> !OccursAt(context + separator, separator, i)
    ensures Find(context + separator + correction, separator) == |context|
  {
    var line := context + separator + correction;
    forall i | 0 <= i < |context| ensures !OccursAt(line, separator, i) {
      assert !OccursAt(context + separator, separator, i);
      if i + |separator| <= |line| {
        assert line[i..i + |separator|] == (context + separator)[i..i + |separator|];
      }
    }
    assert line[|context|..|context| + |separator|] == separator;
    FindIsFirst(line, separator, |context|);
  }

  /** Line numbers strictly increase along the stream. */
  predicate Increasing(items: seq<LineItem>) {
    forall a, b :: 0 <= a < b < |items| ==> items[a].lineNumber < items[b].lineNumber
  }

  /** An item before a stream whose line numbers are all larger keeps it increasing. */
  lemma IncreasingCons(x: LineItem, rest: seq<LineItem>)
    requires Increasing(rest)
    requires forall it :: it in rest ==> x.lineNumber < it.lineNumber
    ensures Increasing([x] + rest)
  {
    var s := [x] + rest;
    forall a, b | 0 <= a < b < |s| ensures s[a].lineNumber < s[b].lineNumber {
      assert s[b] == rest[b - 1];
      if a > 0 {
        assert s[a] == rest[a - 1];
      }
    }
  }

  /** What ParseLine says about one line. */
  type Verdict = Result<Option<(string, string)>, Error>

  /** The verdict on every line, line index j having line number j + 1. */
  function Verdicts(lines: seq<string>, separator: string, comment: string): (v: seq<Verdict>)
    ensures |v| == |lines|
    ensures forall j :: 0 <= j < |lines| ==> v[j] == ParseLine(lines[j], separator, comment, j + 1)
  {
    seq(|lines|, j requires 0 <= j < |lines| => ParseLine(lines[j], separator, comment, j + 1))
  }

  /** The line an item was read from has that item's rule as its verdict. */
  predicate FromLine(it: LineItem, v: seq<Verdict>) {
    0 < it.lineNumber <= |v| && v[it.lineNumber - 1] == Ok(Some((it.context, it.correction)))
  }

  /** A verdict that is a rule. */
  predicate IsRule(verdict: Verdict) {
    verdict.Ok? && verdict.value.Some?
  }

  /**
   * Every rule line with index in [lo, hi) appears as an item, and every
   * item comes from such a line.
   */
  predicate Covers(items: seq<LineItem>, v: seq<Verdict>, lo: nat, hi: nat)
    requires lo <= hi <= |v|
  {
    && (forall it :: it in items ==> lo < it.lineNumber <= hi && FromLine(it, v))
    && (forall j :: lo <= j < hi && IsRule(v[j]) ==> exists it :: it in items && it.lineNumber == j + 1)
  }

  /** Every line with index in [lo, hi) parses without error. */
  predicate AllParse(v: seq<Verdict>, lo: nat, hi: nat)
    requires lo <= hi <= |v|
  {
    forall j :: lo <= j < hi ==> v[j].Ok?
  }

  /** parse_file_lines from line index `i` on, over the verdicts of the lines. */
  function StreamFrom(v: seq<Verdict>, i: nat): (r: LineStream)
    requires i <= |v|
    decreases |v| - i
    ensures forall it :: it in r.items ==> i < it.lineNumber && FromLine(it, v)
  {
    if i == |v| then LineStream([], None)
    else if v[i].Err? then LineStream([], Some(v[i].error))
    else if v[i].value.None? then StreamFrom(v, i + 1)
    else
      var rest := StreamFrom(v, i + 1);
      var item := LineItem(i + 1, v[i].value.value.0, v[i].value.value.1);
      assert forall it :: it in [item] + rest.items ==> it == item || it in rest.items;
      LineStream([item] + rest.items, rest.stop)
  }

  /** The stream's line numbers strictly increase. */
  lemma {:induction false} StreamFromIncreasing(v: seq<Verdict>, i: nat)
    requires i <= |v|
    decreases |v| - i
    ensures Increasing(StreamFrom(v, i).items)
  {
    if i < |v| && v[i].Ok? {
      StreamFromIncreasing(v, i + 1);
      var rest := StreamFrom(v, i + 1);
      if v[i].value.Some? {
        IncreasingCons(StreamFrom(v, i).items[0], rest.items);
      }
    }
  }

  /** The index of the first line from `i` on that fails to parse, or |v|. */
  function FirstBad(v: seq<Verdict>, i: nat): (e: nat)
    requires i <= |v|
    decreases |v| - i
    ensures i <= e <= |v|
    ensures AllParse(v, i, e)
    ensures e < |v| ==> v[e].Err?
  {
    if i == |v| || v[i].Err? then i else FirstBad(v, i + 1)
  }

  /**
   * The stream stops exactly at the first line that fails to parse, with its
   * error, and holds an item for every rule line before that one.
   */
  lemma {:induction false} StreamFromStops(v: seq<Verdict>, i: nat)
    requires i <= |v|
    decreases |v| - i
    ensures var r := StreamFrom(v, i);
      var e := FirstBad(v, i);
      && (r.stop.None? <==> e == |v|)
      && (r.stop.Some? ==> e < |v| && v[e] == Err(r.stop.value))
      && Covers(r.items, v, i, e)
  {
    var r := StreamFrom(v, i);
    if i < |v| {
      if v[i].Err? {
        assert Covers(r.items, v, i, i);
      } else {
        StreamFromStops(v, i + 1);
        var rest := StreamFrom(v, i + 1);
        var e := FirstBad(v, i + 1);
        assert FirstBad(v, i) == e;
        if v[i].value.None? {
          assert r == rest;
          CoversSkip(rest.items, v, i, e);
        } else {
          var item := LineItem(i + 1, v[i].value.value.0, v[i].value.value.1);
          assert r == LineStream([item] + rest.items, rest.stop);
          CoversCons(item, rest.items, v, i, e);
        }
      }
    }
  }

  /** A line that is not a rule can be put in front of the covered range. */
  lemma CoversSkip(items: seq<LineItem>, v: seq<Verdict>, lo: nat, hi: nat)
    requires lo < hi <= |v|
    requires Covers(items, v, lo + 1, hi) && !IsRule(v[lo])
    ensures Covers(items, v, lo, hi)
  {
  }

  /** A rule line's item can be put in front of the covered range. */
  lemma CoversCons(x: LineItem, items: seq<LineItem>, v: seq<Verdict>, lo: nat, hi: nat)
    requires lo < hi <= |v|
    requires Covers(items, v, lo + 1, hi)
    requires x.lineNumber == lo + 1 && FromLine(x, v)
    ensures Covers([x] + items, v, lo, hi)
  {
    assert forall it :: it in [x] + items ==> it == x || it in items;
    forall j | lo <= j < hi && IsRule(v[j])
      ensures exists it :: it in [x] + items && it.lineNumber == j + 1
    {
      if j == lo {
        assert x in [x] + items;
      } else {
        var it :| it in items && it.lineNumber == j + 1;
        assert it in [x] + items;
      }
    }
  }

  /** parse_file_lines: the lines are numbered from 1. */
  function ParseFileLines(lines: seq<string>, separator: string, comment: string): (r: LineStream)
    ensures forall it :: it in r.items ==> FromLine(it, Verdicts(lines, separator, comment))
  {
    StreamFrom(Verdicts(lines, separator, comment), 0)
  }

  /** Every rule parse_file_lines yields has a non-empty context, and both halves are stripped. */
  lemma ParsedItemsTrimmed(lines: seq<string>, separator: string, comment: string)
    ensures forall it :: it in ParseFileLines(lines, separator, comment).items ==>
      it.context != [] && Trimmed(it.context) && Trimmed(it.correction)
  {
    var v := Verdicts(lines, separator, comment);
    forall it | it in ParseFileLines(lines, separator, comment).items
      ensures it.context != [] && Trimmed(it.context) && Trimmed(it.correction)
    {
      assert FromLine(it, v);
      assert v[it.lineNumber - 1] == ParseLine(lines[it.lineNumber - 1], separator, comment, it.lineNumber);
      ParseLineTrimmed(lines[it.lineNumber - 1], separator, comment, it.lineNumber);
    }
  }

  /** A rule ParseLine reads has a non-empty context and both halves stripped. */
  lemma ParseLineTrimmed(line: string, separator: string, comment: string, lineNumber: nat)
    ensures var r := ParseLine(line, separator, comment, lineNumber);
      r.Ok? && r.value.Some? ==>
        r.value.value.0 != [] && Trimmed(r.value.value.0) && Trimmed(r.value.value.1)
  {
    var s := Strip(line);
    if !(s == [] || Find(s, comment) == 0) && separator != [] {
      var parts := SplitOnce(s, separator);
      if |parts| == 2 {
        StripTrimmed(parts[0]);
        StripTrimmed(parts[1]);
      }
    }
  }

  /** What str.strip() returns has no whitespace at either end. */
  lemma StripTrimmed(s: string)
    ensures Trimmed(Strip(s))
  {
  }

  /**
   * parse_file_lines stops with no error exactly when every line parses, and
   * then it yields exactly the rule lines; otherwise it stops with the error
   * of the first bad line, having yielded the rule lines before it.
   */
  lemma ParseFileLinesStops(lines: seq<string>, separator: string, comment: string)
    ensures var v := Verdicts(lines, separator, comment);
      var r := ParseFileLines(lines, separator, comment);
      var e := FirstBad(v, 0);
      && (r.stop.None? <==> AllParse(v, 0, |v|))
      && (r.stop.None? ==> Covers(r.items, v, 0, |v|))
      && (r.stop.Some? ==> e < |v| && v[e] == Err(r.stop.value) && AllParse(v, 0, e) && Covers(r.items, v, 0, e))
  {
    var v := Verdicts(lines, separator, comment);
    StreamFromStops(v, 0);
  }

  /** The contexts of a list of items. */
  function Contexts(items: seq<LineItem>): set<string> {
    set it | it in items :: it.context
  }

  lemma ContextsAppend(items: seq<LineItem>, x: LineItem)
    ensures Contexts(items + [x]) == Contexts(items) + {x.context}
  {
    assert forall it :: it in items + [x] <==> it in items || it == x;
  }

  /** The items whose context no earlier item has: the ones parse_file keeps. */
  function FirstOccurrences(items: seq<LineItem>): (r: seq<LineItem>) {
    if items == [] then []
    else
      var prev := FirstOccurrences(items[..|items| - 1]);
      var last := items[|items| - 1];
      if last.context in Contexts(items[..|items| - 1]) then prev else prev + [last]
  }

  /** The kept items are items of the list, and every context of the list is kept. */
  lemma {:induction false} FirstOccurrencesSub(items: seq<LineItem>)
    ensures forall it :: it in FirstOccurrences(items) ==> it in items
    ensures Contexts(FirstOccurrences(items)) == Contexts(items)
  {
    if items != [] {
      var init := items[..|items| - 1];
      var last := items[|items| - 1];
      assert items == init + [last];
      FirstOccurrencesSub(init);
      ContextsAppend(init, last);
      ContextsAppend(FirstOccurrences(init), last);
    }
  }

  /** No two items share a context. */
  predicate DistinctContexts(items: seq<LineItem>) {
    forall a, b :: 0 <= a < b < |items| ==> items[a].context != items[b].context
  }

  /** The kept items have pairwise different contexts. */
  lemma {:induction false} FirstOccurrencesDistinct(items: seq<LineItem>)
    ensures DistinctContexts(FirstOccurrences(items))
  {
    if items != [] {
      var init := items[..|items| - 1];
      var last := items[|items| - 1];
      FirstOccurrencesDistinct(init);
      var prev := FirstOccurrences(init);
      FirstOccurrencesSub(init);
      if last.context !in Contexts(init) {
        var r := prev + [last];
        assert FirstOccurrences(items) == r;
        forall a, b | 0 <= a < b < |r| ensures r[a].context != r[b].context {
          assert r[a] == prev[a];
          if b == |prev| {
            assert prev[a] in prev;
            assert prev[a].context in Contexts(prev);
            assert prev[a].context != last.context;
          } else {
            assert r[b] == prev[b];
            assert prev[a].context != prev[b].context;
          }
        }
      } else {
        assert FirstOccurrences(items) == prev;
      }
    }
  }

  /** An item is kept exactly when no earlier item has its context. */
  lemma {:induction false} FirstOccurrencesKeeps(items: seq<LineItem>, k: nat)
    requires k < |items| && Increasing(items)
    ensures items[k] in FirstOccurrences(items) <==>
      forall j :: 0 <= j < k ==> items[j].context != items[k].context
  {
    IncreasingLastNew(items);
    if k == |items| - 1 {
      KeepsLast(items);
    } else {
      IncreasingPrefix(items, |items| - 1);
      FirstOccurrencesKeeps(items[..|items| - 1], k);
      KeepsEarlier(items, k);
    }
  }

  /**
   * An item before the last, new, one is kept exactly as it is kept from the
   * items without the last one.
   */
  lemma KeepsEarlier(items: seq<LineItem>, k: nat)
    requires k < |items| - 1 && items[|items| - 1] !in items[..|items| - 1]
    requires var init := items[..|items| - 1];
      init[k] in FirstOccurrences(init) <==> forall j :: 0 <= j < k ==> init[j].context != init[k].context
    ensures items[k] in FirstOccurrences(items) <==>
      forall j :: 0 <= j < k ==> items[j].context != items[k].context
  {
    var init := items[..|items| - 1];
    var last := items[|items| - 1];
    Snoc(items);
    assert items[k] == init[k];
    var prev := FirstOccurrences(init);
    assert items[k] in FirstOccurrences(items) <==> items[k] in prev by {
      assert items[k] in init;
      assert FirstOccurrences(items) == prev || FirstOccurrences(items) == prev + [last];
    }
    assert forall j :: 0 <= j < k ==> items[j] == init[j];
  }

  /** A non-empty list is its front followed by its last element. */
  lemma Snoc<T>(s: seq<T>)
    requires s != []
    ensures s == s[..|s| - 1] + [s[|s| - 1]]
  {
  }

  /** Line numbers that increase keep doing so in a prefix. */
  lemma IncreasingPrefix(items: seq<LineItem>, n: nat)
    requires n <= |items| && Increasing(items)
    ensures Increasing(items[..n])
  {
  }

  /** With increasing line numbers the last item does not occur earlier. */
  lemma IncreasingLastNew(items: seq<LineItem>)
    requires items != [] && Increasing(items)
    ensures items[|items| - 1] !in items[..|items| - 1]
  {
    var k := |items| - 1;
    forall m | 0 <= m < k ensures items[..k][m] != items[k] {
      assert items[m].lineNumber < items[k].lineNumber;
    }
  }

  /** The last item, new to the list, is kept exactly when no earlier item has its context. */
  lemma KeepsLast(items: seq<LineItem>)
    requires items != [] && items[|items| - 1] !in items[..|items| - 1]
    ensures var k := |items| - 1;
      items[k] in FirstOccurrences(items) <==> forall j :: 0 <= j < k ==> items[j].context != items[k].context
  {
    var k := |items| - 1;
    var init := items[..k];
    var last := items[k];
    var prev := FirstOccurrences(init);
    Snoc(items);
    FirstOccurrencesSub(init);
    assert last !in prev;
    if last.context in Contexts(init) {
      assert FirstOccurrences(items) == prev;
      var it :| it in init && it.context == last.context;
      var j :| 0 <= j < |init| && init[j] == it;
      assert items[j].context == items[k].context;
    } else {
      assert FirstOccurrences(items) == prev + [last];
      forall j | 0 <= j < k ensures items[j].context != items[k].context {
        assert items[j] == init[j] && init[j] in init;
        assert items[j].context in Contexts(init);
      }
    }
  }

  /** FirstOccurrences of a prefix is a prefix of FirstOccurrences. */
  lemma {:induction false} FirstOccurrencesPrefix(items: seq<LineItem>, k: nat)
    requires k <= |items|
    ensures FirstOccurrences(items[..k]) <= FirstOccurrences(items)
    decreases |items| - k
  {
    if k < |items| {
      FirstOccurrencesPrefix(items, k + 1);
      var a := items[..k + 1];
      assert a[..|a| - 1] == items[..k];
    } else {
      assert items[..k] == items;
    }
  }

  /**
   * The error parse_file exits with for a first-seen item, if any: only the
   * characters before the last one are looked up in the alphabet map.
   */
  function CheckItem(it: LineItem, charMap: map<char, int>): (r: Option<Error>)
    ensures r.None? <==>
      (forall c :: c in ButLast(it.context) ==> c in charMap) && |it.context| <= MAX_CONTEXT_LENGTH
    ensures r.Some? ==> r.value in {InvalidCharacters(it.lineNumber), SequenceTooLong(it.lineNumber)}
    ensures r == Some(SequenceTooLong(it.lineNumber)) ==>
      forall c :: c in ButLast(it.context) ==> c in charMap
  {
    if exists c :: c in ButLast(it.context) && c !in charMap then Some(InvalidCharacters(it.lineNumber))
    else if |it.context| > MAX_CONTEXT_LENGTH then Some(SequenceTooLong(it.lineNumber))
    else None
  }

  /** The error of the first item that fails its check. */
  function FirstFailure(items: seq<LineItem>, charMap: map<char, int>): (r: Option<Error>)
    ensures r.None? <==> forall it :: it in items ==> CheckItem(it, charMap).None?
  {
    if items == [] then None
    else if CheckItem(items[0], charMap).Some? then CheckItem(items[0], charMap)
    else
      assert forall it :: it in items ==> it == items[0] || it in items[1..];
      FirstFailure(items[1..], charMap)
  }

  /** FirstFailure is the check error of an item all of whose predecessors pass. */
  lemma {:induction false} FirstFailureIsFirst(items: seq<LineItem>, charMap: map<char, int>)
    requires FirstFailure(items, charMap).Some?
    ensures exists k :: (
      && 0 <= k < |items| && CheckItem(items[k], charMap) == FirstFailure(items, charMap)
      && forall j :: 0 <= j < k ==> CheckItem(items[j], charMap).None?)
  {
    if CheckItem(items[0], charMap).None? {
      var rest := items[1..];
      assert FirstFailure(items, charMap) == FirstFailure(rest, charMap);
      FirstFailureIsFirst(rest, charMap);
      var k :| 0 <= k < |rest| && CheckItem(rest[k], charMap) == FirstFailure(rest, charMap)
        && forall j :: 0 <= j < k ==> CheckItem(rest[j], charMap).None?;
      assert items[k + 1] == rest[k];
      PassesShift(items, k, charMap);
    } else {
      assert CheckItem(items[0], charMap) == FirstFailure(items, charMap);
    }
  }

  /** A passing first item followed by k passing items makes k + 1 passing items. */
  lemma PassesShift(items: seq<LineItem>, k: nat, charMap: map<char, int>)
    requires k < |items| && CheckItem(items[0], charMap).None?
    requires forall j :: 0 <= j < k ==> CheckItem(items[1..][j], charMap).None?
    ensures forall j :: 0 <= j < k + 1 ==> CheckItem(items[j], charMap).None?
  {
    forall j | 0 < j < k + 1 ensures CheckItem(items[j], charMap).None? {
      assert items[j] == items[1..][j - 1];
    }
  }

  /** A failure in a prefix is the first failure of the whole list. */
  lemma {:induction false} FirstFailurePrefix(a: seq<LineItem>, b: seq<LineItem>, charMap: map<char, int>)
    requires a <= b && FirstFailure(a, charMap).Some?
    ensures FirstFailure(b, charMap) == FirstFailure(a, charMap)
  {
    if CheckItem(a[0], charMap).None? {
      assert a[1..] <= b[1..];
      FirstFailurePrefix(a[1..], b[1..], charMap);
    }
  }

  /** The rules of a list of items, in order. */
  function RulesOf(items: seq<LineItem>): (r: seq<(string, string)>)
    ensures |r| == |items|
    ensures forall k :: 0 <= k < |items| ==> r[k] == (items[k].context, items[k].correction)
  {
    seq(|items|, k requires 0 <= k < |items| => (items[k].context, items[k].correction))
  }

  /** One more item of the stream: its context is seen, and it is kept if new. */
  lemma FirstOccurrencesStep(items: seq<LineItem>, k: nat)
    requires k < |items|
    ensures Contexts(items[..k + 1]) == Contexts(items[..k]) + {items[k].context}
    ensures FirstOccurrences(items[..k + 1]) ==
      if items[k].context in Contexts(items[..k]) then FirstOccurrences(items[..k])
      else FirstOccurrences(items[..k]) + [items[k]]
  {
    var pre1 := items[..k + 1];
    assert pre1[..|pre1| - 1] == items[..k] && pre1[|pre1| - 1] == items[k];
    assert pre1 == items[..k] + [items[k]];
    ContextsAppend(items[..k], items[k]);
  }

  /** A new item that fails its check is the first failure of the whole stream. */
  lemma FailureAtStep(items: seq<LineItem>, k: nat, charMap: map<char, int>)
    requires k < |items|
    requires items[k].context !in Contexts(items[..k])
    requires FirstFailure(FirstOccurrences(items[..k]), charMap).None?
    requires CheckItem(items[k], charMap).Some?
    ensures FirstFailure(FirstOccurrences(items), charMap) == CheckItem(items[k], charMap)
  {
    FirstOccurrencesStep(items, k);
    var pre := FirstOccurrences(items[..k]);
    var pre1 := FirstOccurrences(items[..k + 1]);
    assert FirstFailure(pre1, charMap) == CheckItem(items[k], charMap) by {
      FirstFailureAt(pre, items[k], charMap);
    }
    FirstOccurrencesPrefix(items, k + 1);
    FirstFailurePrefix(pre1, FirstOccurrences(items), charMap);
  }

  /** After items that all pass, a failing item is the first failure. */
  lemma {:induction false} FirstFailureAt(items: seq<LineItem>, x: LineItem, charMap: map<char, int>)
    requires FirstFailure(items, charMap).None? && CheckItem(x, charMap).Some?
    ensures FirstFailure(items + [x], charMap) == CheckItem(x, charMap)
  {
    if items != [] {
      assert (items + [x])[1..] == items[1..] + [x];
      assert items[0] in items;
      assert forall it :: it in items[1..] ==> it in items;
      FirstFailureAt(items[1..], x, charMap);
    } else {
      assert (items + [x])[1..] == [];
    }
  }

  lemma RulesOfAppend(items: seq<LineItem>, x: LineItem)
    ensures RulesOf(items + [x]) == RulesOf(items) + [(x.context, x.correction)]
  {
  }

  /** Adding an item that passes its check keeps a list free of failures. */
  lemma FirstFailureAppend(items: seq<LineItem>, x: LineItem, charMap: map<char, int>)
    requires FirstFailure(items, charMap).None? && CheckItem(x, charMap).None?
    ensures FirstFailure(items + [x], charMap).None?
  {
    assert forall it :: it in items + [x] ==> it in items || it == x;
  }

  /** A new item that passes its check is kept: its rule is added and the kept items still pass. */
  lemma KeepNew(items: seq<LineItem>, k: nat, seen: set<string>, rules: seq<(string, string)>, charMap: map<char, int>)
    requires k < |items| && seen == Contexts(items[..k]) && items[k].context !in seen
    requires rules == RulesOf(FirstOccurrences(items[..k]))
    requires FirstFailure(FirstOccurrences(items[..k]), charMap).None? && CheckItem(items[k], charMap).None?
    ensures seen + {items[k].context} == Contexts(items[..k + 1])
    ensures rules + [(items[k].context, items[k].correction)] == RulesOf(FirstOccurrences(items[..k + 1]))
    ensures FirstFailure(FirstOccurrences(items[..k + 1]), charMap).None?
  {
    FirstOccurrencesStep(items, k);
    FirstFailureAppend(FirstOccurrences(items[..k]), items[k], charMap);
    RulesOfAppend(FirstOccurrences(items[..k]), items[k]);
  }

  /** An item whose context was seen is skipped: the kept items and the contexts stay as they are. */
  lemma SkipSeen(items: seq<LineItem>, k: nat, seen: set<string>, rules: seq<(string, string)>, charMap: map<char, int>)
    requires k < |items| && seen == Contexts(items[..k]) && items[k].context in seen
    requires rules == RulesOf(FirstOccurrences(items[..k]))
    requires FirstFailure(FirstOccurrences(items[..k]), charMap).None?
    ensures seen == Contexts(items[..k + 1])
    ensures rules == RulesOf(FirstOccurrences(items[..k + 1]))
    ensures FirstFailure(FirstOccurrences(items[..k + 1]), charMap).None?
  {
    FirstOccurrencesStep(items, k);
  }

  /**
   * What parse_file returns for a stream: the first failing kept item's
   * error, else the stream's syntax error, else the kept rules.
   */
  function KeptRules(s: LineStream, charMap: map<char, int>): Result<seq<(string, string)>, Error> {
    var kept := FirstOccurrences(s.items);
    match FirstFailure(kept, charMap)
    case Some(e) => Err(e)
    case None => if s.stop.Some? then Err(s.stop.value) else Ok(RulesOf(kept))
  }

  /** A new item that fails its check decides what parse_file returns. */
  lemma FailureDecides(s: LineStream, k: nat, charMap: map<char, int>)
    requires k < |s.items| && s.items[k].context !in Contexts(s.items[..k])
    requires FirstFailure(FirstOccurrences(s.items[..k]), charMap).None?
    requires CheckItem(s.items[k], charMap).Some?
    ensures KeptRules(s, charMap) == Err(CheckItem(s.items[k], charMap).value)
  {
    FailureAtStep(s.items, k, charMap);
  }

  /** Once every item is read without a failure, parse_file returns the syntax error or the kept rules. */
  lemma EndDecides(s: LineStream, k: nat, rules: seq<(string, string)>, charMap: map<char, int>)
    requires k == |s.items| && rules == RulesOf(FirstOccurrences(s.items[..k]))
    requires FirstFailure(FirstOccurrences(s.items[..k]), charMap).None?
    ensures KeptRules(s, charMap) == if s.stop.Some? then Err(s.stop.value) else Ok(rules)
  {
    assert s.items[..k] == s.items;
  }

  /**
   * The loop of parse_file over what parse_file_lines yields: it keeps the set
   * of contexts seen so far, skips a repeated context, and exits at the first
   * kept rule whose checked characters are not all in `charMap` or that is
   * longer than 127 characters. A syntax error further down the file is
   * reported only if no kept rule before it failed.
   */
  method KeepFirstRules(s: LineStream, charMap: map<char, int>)
    returns (r: Result<seq<(string, string)>, Error>)
    ensures r == KeptRules(s, charMap)
  {
    var items := s.items;
    var seen: set<string> := {};
    var rules: seq<(string, string)> := [];
    var k := 0;
    while k < |items|
      invariant k <= |items|
      invariant seen == Contexts(items[..k])
      invariant rules == RulesOf(FirstOccurrences(items[..k]))
      invariant FirstFailure(FirstOccurrences(items[..k]), charMap).None?
    {
      var it := items[k];
      if it.context in seen {
        SkipSeen(items, k, seen, rules, charMap);
        k := k + 1;
        continue;
      }
      var check := CheckItem(it, charMap);
      if check.Some? {
        FailureDecides(s, k, charMap);
        return Err(check.value);
      }
      KeepNew(items, k, seen, rules, charMap);
      rules := rules + [(it.context, it.correction)];
      seen := seen + {it.context};
      k := k + 1;
    }
    EndDecides(s, k, rules, charMap);
    if s.stop.Some? {
      return Err(s.stop.value);
    }
    return Ok(rules);
  }

  /** parse_file: the rules of the file, in order, the first one for each context. */
  method ParseFile(lines: seq<string>, charMap: map<char, int>, separator: string, comment: string)
    returns (r: Result<seq<(string, string)>, Error>)
    ensures var s := ParseFileLines(lines, separator, comment);
      && (r.Ok? <==> (s.stop.None? && FirstFailure(FirstOccurrences(s.items), charMap).None?))
      && (r.Ok? ==> r.value == RulesOf(FirstOccurrences(s.items)))
      && (r.Err? && FirstFailure(FirstOccurrences(s.items), charMap).Some? ==>
            r.error == FirstFailure(FirstOccurrences(s.items), charMap).value)
      && (r.Err? && FirstFailure(FirstOccurrences(s.items), charMap).None? ==> s.stop == Some(r.error))
  {
    r := KeepFirstRules(ParseFileLines(lines, separator, comment), charMap);
  }

  /** The rules parse_file returns have pairwise different contexts, all checked. */
  lemma ParsedRulesDistinct(lines: seq<string>, charMap: map<char, int>, separator: string, comment: string)
    requires ParseFileLines(lines, separator, comment).stop.None?
    ensures var rules := RulesOf(FirstOccurrences(ParseFileLines(lines, separator, comment).items));
      forall a, b :: 0 <= a < b < |rules| ==> rules[a].0 != rules[b].0
  {
    FirstOccurrencesDistinct(ParseFileLines(lines, separator, comment).items);
  }
}
