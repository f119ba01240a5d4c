/**
 * complete_trie of generator/sequence_transform_data.py: every match gets the
 * backspaces and output that turn what the keyboard would have produced for
 * its context into its target.
 *
 * The source mutates the 'RESULT' dictionaries in place and recurses through
 * complete_node and get_trie_result. Here each of them is a function from the
 * current state (the trie and the set of outputs) to the next one. The
 * functions also carry the set of matches whose complete_node is still
 * running: meeting one of them again unresolved is where the source would
 * recurse without end, and here it is the error ResolutionCycle.
 */
module Resolver {
  import opened Wrappers
  import opened Errors
  import opened PyStr
  import opened Tries

  /** The trie and the set `outputs` of complete_trie. */
  datatype State = State(trie: Trie, outputs: set<string>)

  /** The fields of a match that complete_trie never changes. */
  predicate SameRule(a: Match, b: Match) {
    a.context == b.context && a.target == b.target && a.result.func == b.result.func
  }

  /**
   * `b` is a later trie than `a`: the same matches with the same rules, a
   * resolved match keeps its result, and a newly resolved one has a
   * non-negative backspace count.
   */
  predicate Grows(a: Trie, b: Trie) {
    && a.Keys == b.Keys
    && forall p :: p in a ==>
         && SameRule(a[p], b[p])
         && (Resolved(a[p]) ==> b[p] == a[p])
         && (!Resolved(a[p]) && Resolved(b[p]) ==> b[p].result.backspaces >= 0)
  }

  /** The matches in `s` are left as they were. */
  predicate Untouched(a: Trie, b: Trie, s: set<string>) {
    forall p :: p in s && p in a ==> p in b && b[p] == a[p]
  }

  /** The outputs of the matches that are unresolved in `a` and resolved in `b`. */
  function NewOutputs(a: Trie, b: Trie): set<string> {
    set p | p in a && p in b && !Resolved(a[p]) && Resolved(b[p]) :: b[p].result.output
  }

  /** What a step of complete_trie guarantees about the state it returns. */
  predicate Step(a: State, b: State, s: set<string>) {
    && Grows(a.trie, b.trie)
    && Untouched(a.trie, b.trie, s)
    && b.outputs == a.outputs + NewOutputs(a.trie, b.trie)
  }

  lemma GrowsTrans(a: Trie, b: Trie, c: Trie)
    requires Grows(a, b) && Grows(b, c)
    ensures Grows(a, c)
  {
  }

  lemma NewOutputsTrans(a: Trie, b: Trie, c: Trie)
    requires Grows(a, b) && Grows(b, c)
    ensures NewOutputs(a, c) == NewOutputs(a, b) + NewOutputs(b, c)
  {
    forall o | o in NewOutputs(a, b) ensures o in NewOutputs(a, c) {
      var p :| p in a && p in b && !Resolved(a[p]) && Resolved(b[p]) && b[p].result.output == o;
      assert c[p] == b[p];
    }
    forall o | o in NewOutputs(b, c) ensures o in NewOutputs(a, c) {
      var p :| p in b && p in c && !Resolved(b[p]) && Resolved(c[p]) && c[p].result.output == o;
      assert !Resolved(a[p]);
    }
    forall o | o in NewOutputs(a, c) ensures o in NewOutputs(a, b) + NewOutputs(b, c) {
      var p :| p in a && p in c && !Resolved(a[p]) && Resolved(c[p]) && c[p].result.output == o;
      if Resolved(b[p]) {
        assert c[p] == b[p];
      }
    }
  }

  /** Two steps make a step. */
  lemma StepTrans(a: State, b: State, c: State, s: set<string>)
    requires Step(a, b, s) && Step(b, c, s)
    ensures Step(a, c, s)
  {
    GrowsTrans(a.trie, b.trie, c.trie);
    NewOutputsTrans(a.trie, b.trie, c.trie);
  }

  lemma StepRefl(a: State, s: set<string>)
    ensures Step(a, a, s)
  {
    assert NewOutputs(a.trie, a.trie) == {};
  }

  /** A step that keeps more matches untouched keeps fewer untouched. */
  lemma StepSmaller(a: State, b: State, s: set<string>, s': set<string>)
    requires Step(a, b, s) && s' <= s
    ensures Step(a, b, s')
  {
  }

  /**
   * The edit complete_node derives from the simulated buffer: a leading
   * word-break character is dropped, the buffer is kept up to its longest
   * common prefix with the target, the rest of the buffer is backspaced and
   * the rest of the target is typed, word breaks written as spaces.
   */
  function Edit(expanded: string, target: string, wordbreak: char): (r: (nat, string))
    ensures r.0 <= |Unbroken(expanded, wordbreak)|
  {
    var buffer := Unbroken(expanded, wordbreak);
    var i := CommonPrefixLength(buffer, target);
    (|buffer| - i, ReplaceChar(target[i..], wordbreak, ' '))
  }

  /** The simulated buffer without a leading word-break character. */
  function Unbroken(expanded: string, wordbreak: char): (r: string)
    ensures expanded != [] && expanded[0] == wordbreak ==> r == expanded[1..]
    ensures !(expanded != [] && expanded[0] == wordbreak) ==> r == expanded
  {
    if expanded != [] && expanded[0] == wordbreak then expanded[1..] else expanded
  }

  /**
   * The edit is minimal and correct: the part of the buffer it keeps is the
   * longest prefix shared with the target, and when the context's last key
   * is pressed on that buffer, backspacing it and the kept-off tail and
   * typing the output leaves the target (word breaks written as spaces).
   */
  lemma EditIsMinimal(expanded: string, target: string, wordbreak: char, last: char, k: nat)
    requires k <= |Unbroken(expanded, wordbreak)| && k <= |target|
    requires Unbroken(expanded, wordbreak)[..k] == target[..k]
    ensures var buffer := Unbroken(expanded, wordbreak);
      var (backspaces, output) := Edit(expanded, target, wordbreak);
      var kept := |buffer| - backspaces;
      && k <= kept
      && buffer[..kept] == target[..kept]
      && output == ReplaceChar(target[kept..], wordbreak, ' ')
      && Apply(buffer + [last], Completion(backspaces, 0, output)) == target[..kept] + output
  {
    var buffer := Unbroken(expanded, wordbreak);
    var i := CommonPrefixLength(buffer, target);
    CommonPrefixAtLeast(buffer, target, k);
    var output := ReplaceChar(target[i..], wordbreak, ' ');
    assert Edit(expanded, target, wordbreak) == (|buffer| - i, output);
    var typed := buffer + [last];
    assert |typed| - (|buffer| - i + 1) == i;
    assert typed[..i] == buffer[..i];
    assert Apply(typed, Completion(|buffer| - i, 0, output)) == typed[..i] + output;
  }

  /** Completion stored by complete_node: the edit and the rule's output function. */
  function Completed(m: Match, expanded: string, wordbreak: char): (c: Match)
    ensures SameRule(m, c) && c.result.backspaces >= 0
  {
    var (backspaces, output) := Edit(expanded, m.target, wordbreak);
    Match(m.context, m.target, Completion(backspaces, m.result.func, output))
  }

  /**
   * complete_node(context, completion) for the unresolved match at `p`:
   * simulates typing all but the last character of the context, then stores
   * the edit from the simulated buffer to the target. Also returns the
   * simulated buffer.
   */
  function CompleteNode(st: State, dom: set<string>, running: set<string>, p: string, wordbreak: char)
    : (r: Result<(State, string), Error>)
    requires st.trie.Keys == dom && p in dom && p !in running && !Resolved(st.trie[p])
    decreases dom - running, 0, 0
    ensures r.Ok? ==> Step(st, r.value.0, running)
    ensures r.Ok? ==> r.value.1 == SimBuffer(r.value.0.trie, ButLast(st.trie[p].context))
    ensures r.Ok? ==> r.value.0.trie[p] == Completed(st.trie[p], r.value.1, wordbreak)
    ensures r.Ok? && Fixed(st.trie, wordbreak) ==> Fixed(r.value.0.trie, wordbreak)
  {
    var m := st.trie[p];
    var scanned :- Scan(st, dom, running + {p}, ButLast(m.context), 0, [], wordbreak);
    var (st1, expanded) := scanned;
    var done := Completed(m, expanded, wordbreak);
    var st2 := State(st1.trie[p := done], st1.outputs + {done.result.output});
    ResolveOne(st, st1, st2, p, done, running);
    assert st1.trie[p] == m;
    SimFromUpdate(st1.trie, p, done, ButLast(m.context), 0, []);
    FixedAfterResolve(st1.trie, p, done, wordbreak);
    Ok((st2, expanded))
  }

  /** Storing the completion of an unresolved match extends a step. */
  lemma ResolveOne(st: State, st1: State, st2: State, p: string, done: Match, running: set<string>)
    requires p in st.trie && !Resolved(st.trie[p]) && p !in running
    requires Step(st, st1, running + {p})
    requires SameRule(st.trie[p], done) && Resolved(done) && done.result.backspaces >= 0
    requires st2 == State(st1.trie[p := done], st1.outputs + {done.result.output})
    ensures Step(st, st2, running)
  {
    assert st1.trie[p] == st.trie[p];
    assert NewOutputs(st.trie, st2.trie) == NewOutputs(st.trie, st1.trie) + {done.result.output} by {
      forall o | o in NewOutputs(st.trie, st2.trie) ensures o in NewOutputs(st.trie, st1.trie) + {done.result.output} {
        var q :| q in st.trie && q in st2.trie && !Resolved(st.trie[q]) && Resolved(st2.trie[q]) && st2.trie[q].result.output == o;
        if q != p {
          assert st2.trie[q] == st1.trie[q];
        }
      }
      forall o | o in NewOutputs(st.trie, st1.trie) ensures o in NewOutputs(st.trie, st2.trie) {
        var q :| q in st.trie && q in st1.trie && !Resolved(st.trie[q]) && Resolved(st1.trie[q]) && st1.trie[q].result.output == o;
        assert q != p;
        assert st2.trie[q] == st1.trie[q];
      }
      assert p in st.trie && p in st2.trie && st2.trie[p] == done;
    }
  }

  /**
   * The loop of complete_node over the characters `chars` of the context
   * (all but the last): the raw context so far is looked up first, and only
   * if it has no match the simulated buffer is; a match replaces its
   * backspaced tail of the buffer by its output.
   */
  function Scan(st: State, dom: set<string>, running: set<string>, chars: string, j: nat, expanded: string, wordbreak: char)
    : (r: Result<(State, string), Error>)
    requires st.trie.Keys == dom && j <= |chars|
    decreases dom - running, 2, |chars| - j
    ensures r.Ok? ==> Step(st, r.value.0, running)
    ensures r.Ok? ==> r.value.1 == SimFrom(r.value.0.trie, chars, j, expanded)
    ensures r.Ok? ==> HitsResolved(r.value.0.trie, chars, j, expanded)
    ensures r.Ok? && Fixed(st.trie, wordbreak) ==> Fixed(r.value.0.trie, wordbreak)
  {
    if j == |chars| then
      StepRefl(st, running);
      Ok((st, expanded))
    else
      var back := chars[..j + 1];
      var expanded1 := expanded + [chars[j]];
      var first :- GetTrieResult(st, dom, running, back, wordbreak);
      var second :- if first.1.None? then GetTrieResult(first.0, dom, running, expanded1, wordbreak) else Ok(first);
      var expanded2 := if second.1.Some? then Apply(expanded1, second.1.value) else expanded1;
      var rest :- Scan(second.0, dom, running, chars, j + 1, expanded2, wordbreak);
      ScanLink(st, dom, running, chars, j, expanded, wordbreak, first, second, expanded2, rest);
      Ok(rest)
  }

  /** One iteration of the loop of complete_node followed by the rest of the loop is the loop from that key. */
  lemma ScanLink(st: State, dom: set<string>, running: set<string>, chars: string, j: nat, expanded: string,
      wordbreak: char, first: (State, Option<Completion>), second: (State, Option<Completion>), expanded2: string,
      rest: (State, string))
    requires st.trie.Keys == dom && j < |chars|
    requires Step(st, first.0, running) && WalkResult(dom, Reverse(chars[..j + 1]), 0, None, first)
    requires Fixed(st.trie, wordbreak) ==> Fixed(first.0.trie, wordbreak)
    requires first.1.None? ==>
      && Step(first.0, second.0, running)
      && WalkResult(dom, Reverse(expanded + [chars[j]]), 0, None, second)
      && (Fixed(first.0.trie, wordbreak) ==> Fixed(second.0.trie, wordbreak))
    requires first.1.Some? ==> second == first
    requires expanded2 == if second.1.Some? then Apply(expanded + [chars[j]], second.1.value) else expanded + [chars[j]]
    requires Step(second.0, rest.0, running)
    requires rest.1 == SimFrom(rest.0.trie, chars, j + 1, expanded2) && HitsResolved(rest.0.trie, chars, j + 1, expanded2)
    requires Fixed(second.0.trie, wordbreak) ==> Fixed(rest.0.trie, wordbreak)
    ensures Step(st, rest.0, running)
    ensures rest.1 == SimFrom(rest.0.trie, chars, j, expanded)
    ensures HitsResolved(rest.0.trie, chars, j, expanded)
    ensures Fixed(st.trie, wordbreak) ==> Fixed(rest.0.trie, wordbreak)
  {
    StepRefl(first.0, running);
    StepTrans(st, first.0, second.0, running);
    StepTrans(st, second.0, rest.0, running);
    ScanStep(dom, chars, j, expanded, first, second, rest.0.trie, expanded2);
  }

  /** What a match does to the simulated buffer: del buffer[-(backspaces + 1):], then the output. */
  function Apply(buffer: string, c: Completion): (r: string)
    ensures c.backspaces >= 0 && c.backspaces + 1 <= |buffer| ==>
      r == buffer[..|buffer| - (c.backspaces + 1)] + c.output
    ensures c.backspaces >= 0 && c.backspaces + 1 > |buffer| ==> r == c.output
  {
    DeleteFrom(buffer, -(c.backspaces + 1)) + c.output
  }

  /** get_trie_result(buffer): the walk down the trie along the reversed buffer. */
  function GetTrieResult(st: State, dom: set<string>, running: set<string>, buffer: string, wordbreak: char)
    : (r: Result<(State, Option<Completion>), Error>)
    requires st.trie.Keys == dom
    decreases dom - running, 1, |buffer| + 1
    ensures r.Ok? ==> Step(st, r.value.0, running)
    ensures r.Ok? ==> WalkResult(dom, Reverse(buffer), 0, None, r.value)
    ensures r.Ok? && Fixed(st.trie, wordbreak) ==> Fixed(r.value.0.trie, wordbreak)
  {
    Walk(st, dom, running, Reverse(buffer), 0, None, wordbreak)
  }

  /** The largest j in (i, |rev|] whose rev[..j] is a key, if any. */
  function LongestKey(dom: set<string>, rev: string, i: nat): (r: Option<nat>)
    requires i <= |rev|
    decreases |rev| - i
    ensures r.Some? ==> i < r.value <= |rev| && rev[..r.value] in dom
    ensures r.Some? ==> forall j :: r.value < j <= |rev| ==> rev[..j] !in dom
    ensures r.None? ==> forall j :: i < j <= |rev| ==> rev[..j] !in dom
  {
    if i == |rev| then None
    else
      var later := LongestKey(dom, rev, i + 1);
      if later.Some? then later
      else if rev[..i + 1] in dom then Some(i + 1)
      else None
  }

  /**
   * What a walk from depth i returns: every key on the path below depth i is
   * resolved, and the result is that of the deepest one (or `longest` if
   * there is none).
   */
  predicate WalkResult(dom: set<string>, rev: string, i: nat, longest: Option<Completion>, r: (State, Option<Completion>))
    requires i <= |rev|
  {
    && (forall j :: i < j <= |rev| && rev[..j] in dom ==> rev[..j] in r.0.trie && Resolved(r.0.trie[rev[..j]]))
    && r.1 == match LongestKey(dom, rev, i)
              case None => longest
              case Some(j) => if rev[..j] in r.0.trie then Some(r.0.trie[rev[..j]].result) else None
  }

  /**
   * The loop of get_trie_result from depth i: stops where the path leaves the
   * trie, resolves an unresolved match it passes, and remembers the last
   * match seen.
   */
  function Walk(st: State, dom: set<string>, running: set<string>, rev: string, i: nat, longest: Option<Completion>, wordbreak: char)
    : (r: Result<(State, Option<Completion>), Error>)
    requires st.trie.Keys == dom && i <= |rev|
    decreases dom - running, 1, |rev| - i
    ensures r.Ok? ==> Step(st, r.value.0, running)
    ensures r.Ok? ==> WalkResult(dom, rev, i, longest, r.value)
    ensures r.Ok? && Fixed(st.trie, wordbreak) ==> Fixed(r.value.0.trie, wordbreak)
  {
    if i == |rev| then
      StepRefl(st, running);
      Ok((st, longest))
    else
      var q := rev[..i + 1];
      if !IsNode(st.trie, q) then
        StepRefl(st, running);
        OffTheTrie(st.trie, rev, i);
        Ok((st, longest))
      else if q !in st.trie then
        var r :- Walk(st, dom, running, rev, i + 1, longest, wordbreak);
        WalkSkip(dom, rev, i, longest, r);
        Ok(r)
      else if Resolved(st.trie[q]) then
        var r :- Walk(st, dom, running, rev, i + 1, Some(st.trie[q].result), wordbreak);
        assert r.0.trie[q] == st.trie[q];
        WalkMatch(dom, rev, i, longest, r);
        Ok(r)
      else if q in running then
        Err(ResolutionCycle(st.trie[q].context))
      else
        var completed :- CompleteNode(st, dom, running, q, wordbreak);
        var st1 := completed.0;
        var r :- Walk(st1, dom, running, rev, i + 1, Some(st1.trie[q].result), wordbreak);
        StepTrans(st, st1, r.0, running);
        assert r.0.trie[q] == st1.trie[q];
        WalkMatch(dom, rev, i, longest, r);
        Ok(r)
  }

  /** A walk step past a node without a match keeps the result of the rest of the walk. */
  lemma WalkSkip(dom: set<string>, rev: string, i: nat, longest: Option<Completion>, r: (State, Option<Completion>))
    requires i < |rev| && rev[..i + 1] !in dom && WalkResult(dom, rev, i + 1, longest, r)
    ensures WalkResult(dom, rev, i, longest, r)
  {
  }

  /**
   * A walk step over a resolved match: the rest of the walk, started with
   * that match as the last one seen, gives the result from this depth.
   */
  lemma WalkMatch(dom: set<string>, rev: string, i: nat, longest: Option<Completion>, r: (State, Option<Completion>))
    requires i < |rev| && rev[..i + 1] in dom && rev[..i + 1] in r.0.trie && Resolved(r.0.trie[rev[..i + 1]])
    requires WalkResult(dom, rev, i + 1, Some(r.0.trie[rev[..i + 1]].result), r)
    ensures WalkResult(dom, rev, i, longest, r)
  {
  }

  /** Once the path leaves the trie, no key lies further along it. */
  lemma OffTheTrie(t: Trie, rev: string, i: nat)
    requires i < |rev| && !IsNode(t, rev[..i + 1])
    ensures forall j :: i < j <= |rev| ==> rev[..j] !in t
  {
    forall j | i < j <= |rev| ensures rev[..j] !in t {
      assert rev[..i + 1] <= rev[..j];
    }
  }

  /**
   * The key of the deepest match along the reversed `buffer`: the match
   * get_trie_result(buffer) returns, now that the path is resolved.
   */
  function LookupKey(dom: set<string>, buffer: string): (r: Option<string>)
    ensures r.Some? ==> r.value in dom
  {
    var rev := Reverse(buffer);
    match LongestKey(dom, rev, 0)
    case None => None
    case Some(j) => Some(rev[..j])
  }

  /**
   * The match complete_node applies after the typed key: the one for the raw
   * context so far, or, when there is none, the one for the simulated buffer
   * with the key appended.
   */
  function HitKey(dom: set<string>, raw: string, typed: string): (r: Option<string>)
    ensures r.Some? ==> r.value in dom
  {
    if LookupKey(dom, raw).Some? then LookupKey(dom, raw) else LookupKey(dom, typed)
  }

  /** The simulated buffer after key `chars[j]`, with the results of trie `t`. */
  function SimStep(t: Trie, chars: string, j: nat, expanded: string): string
    requires j < |chars|
  {
    var typed := expanded + [chars[j]];
    match HitKey(t.Keys, chars[..j + 1], typed)
    case None => typed
    case Some(k) => Apply(typed, t[k].result)
  }

  /** The simulated buffer after keys chars[j..], starting from `expanded`. */
  function SimFrom(t: Trie, chars: string, j: nat, expanded: string): string
    requires j <= |chars|
    decreases |chars| - j
  {
    if j == |chars| then expanded else SimFrom(t, chars, j + 1, SimStep(t, chars, j, expanded))
  }

  /**
   * What typing `chars` on the keyboard produces once the matches of `t`
   * are in place: the reference for the simulated buffer of complete_node.
   */
  function SimBuffer(t: Trie, chars: string): string {
    SimFrom(t, chars, 0, [])
  }

  /** Every match the simulation of chars[j..] applies is resolved in `t`. */
  predicate HitsResolved(t: Trie, chars: string, j: nat, expanded: string)
    requires j <= |chars|
    decreases |chars| - j
  {
    j == |chars| ||
    (var hit := HitKey(t.Keys, chars[..j + 1], expanded + [chars[j]]);
     && (hit.Some? ==> Resolved(t[hit.value]))
     && HitsResolved(t, chars, j + 1, SimStep(t, chars, j, expanded)))
  }

  /**
   * A walk along `buffer` returns the result the final trie holds at the
   * deepest key, which the walk has resolved.
   */
  lemma WalkLookup(dom: set<string>, buffer: string, x: (State, Option<Completion>), fin: Trie)
    requires x.0.trie.Keys == dom && WalkResult(dom, Reverse(buffer), 0, None, x) && Grows(x.0.trie, fin)
    ensures fin.Keys == dom
    ensures LookupKey(dom, buffer).None? ==> x.1.None?
    ensures LookupKey(dom, buffer).Some? ==>
      Resolved(fin[LookupKey(dom, buffer).value]) && x.1 == Some(fin[LookupKey(dom, buffer).value].result)
  {
    var rev := Reverse(buffer);
    var lk := LongestKey(dom, rev, 0);
    if lk.Some? {
      var k := rev[..lk.value];
      assert k in x.0.trie && Resolved(x.0.trie[k]);
      assert fin[k] == x.0.trie[k];
    }
  }

  /**
   * One simulated key: if the walks along the raw context and along the
   * buffer returned what the final trie holds, the buffer after the key is
   * the reference step, and the match it applies is resolved.
   */
  lemma ScanStep(dom: set<string>, chars: string, j: nat, expanded: string, first: (State, Option<Completion>),
      second: (State, Option<Completion>), fin: Trie, expanded2: string)
    requires j < |chars|
    requires first.0.trie.Keys == dom && WalkResult(dom, Reverse(chars[..j + 1]), 0, None, first)
    requires first.1.None? ==>
      second.0.trie.Keys == dom && WalkResult(dom, Reverse(expanded + [chars[j]]), 0, None, second)
    requires first.1.Some? ==> second == first
    requires Grows(first.0.trie, second.0.trie) && Grows(second.0.trie, fin)
    requires expanded2 == if second.1.Some? then Apply(expanded + [chars[j]], second.1.value) else expanded + [chars[j]]
    ensures SimStep(fin, chars, j, expanded) == expanded2
    ensures var hit := HitKey(fin.Keys, chars[..j + 1], expanded + [chars[j]]);
      hit.Some? ==> Resolved(fin[hit.value])
  {
    GrowsTrans(first.0.trie, second.0.trie, fin);
    WalkLookup(dom, chars[..j + 1], first, fin);
    if first.1.None? {
      WalkLookup(dom, expanded + [chars[j]], second, fin);
    }
  }

  /** Changing a match the simulation never applies leaves the simulation alone. */
  lemma {:induction false} SimFromUpdate(t: Trie, p: string, m: Match, chars: string, j: nat, expanded: string)
    requires j <= |chars| && p in t && !Resolved(t[p]) && HitsResolved(t, chars, j, expanded)
    ensures SimFrom(t[p := m], chars, j, expanded) == SimFrom(t, chars, j, expanded)
    ensures HitsResolved(t[p := m], chars, j, expanded)
    decreases |chars| - j
  {
    if j < |chars| {
      var t' := t[p := m];
      var next := SimStep(t, chars, j, expanded);
      SimStepUpdate(t, p, m, chars, j, expanded);
      SimFromUpdate(t, p, m, chars, j + 1, next);
      assert SimFrom(t', chars, j, expanded) == SimFrom(t', chars, j + 1, next);
    }
  }

  /** One simulated key that does not apply the changed match gives the same buffer. */
  lemma SimStepUpdate(t: Trie, p: string, m: Match, chars: string, j: nat, expanded: string)
    requires j < |chars| && p in t && !Resolved(t[p])
    requires var hit := HitKey(t.Keys, chars[..j + 1], expanded + [chars[j]]);
      hit.Some? ==> Resolved(t[hit.value])
    ensures SimStep(t[p := m], chars, j, expanded) == SimStep(t, chars, j, expanded)
    ensures var hit := HitKey(t[p := m].Keys, chars[..j + 1], expanded + [chars[j]]);
      hit.Some? ==> Resolved(t[p := m][hit.value])
  {
    var t' := t[p := m];
    assert t'.Keys == t.Keys;
    var hit := HitKey(t.Keys, chars[..j + 1], expanded + [chars[j]]);
    if hit.Some? {
      assert t'[hit.value] == t[hit.value];
    }
  }

  /**
   * A match is settled in `t` when its result is the edit from the reference
   * simulation of its context's keys but the last, and that simulation only
   * applies resolved matches.
   */
  predicate Settled(t: Trie, p: string, wordbreak: char)
    requires p in t
  {
    var chars := ButLast(t[p].context);
    && HitsResolved(t, chars, 0, [])
    && t[p] == Completed(t[p], SimBuffer(t, chars), wordbreak)
  }

  /** Every resolved match of `t` is settled. */
  predicate Fixed(t: Trie, wordbreak: char) {
    forall p :: p in t && Resolved(t[p]) ==> Settled(t, p, wordbreak)
  }

  /** A trie without resolved matches is trivially settled. */
  lemma FixedStart(t: Trie, wordbreak: char)
    requires AllUnresolved(t)
    ensures Fixed(t, wordbreak)
  {
  }

  /**
   * Storing the edit of the reference simulation for an unresolved match
   * keeps every resolved match settled, and settles the new one.
   */
  lemma FixedAfterResolve(t: Trie, p: string, done: Match, wordbreak: char)
    requires p in t && !Resolved(t[p])
    requires HitsResolved(t, ButLast(t[p].context), 0, [])
    requires done == Completed(t[p], SimBuffer(t, ButLast(t[p].context)), wordbreak)
    ensures Fixed(t, wordbreak) ==> Fixed(t[p := done], wordbreak)
  {
    var t' := t[p := done];
    SimFromUpdate(t, p, done, ButLast(t[p].context), 0, []);
    if Fixed(t, wordbreak) {
      forall q | q in t' && Resolved(t'[q]) ensures Settled(t', q, wordbreak) {
        if q != p {
          assert Settled(t, q, wordbreak);
          SimFromUpdate(t, p, done, ButLast(t[q].context), 0, []);
        }
      }
    }
  }

  /**
   * Two overlapping rules, ab -> x and abc -> y, resolved. Typing "a" gives
   * "a", so ab backspaces one character and types x. Typing "ab" on the
   * keyboard then gives "x", so abc backspaces one character and types y.
   * Each stored result is the edit from the simulation with the other.
   */
  lemma OverlappingRules(wordbreak: char)
    requires wordbreak !in "abxy"
    ensures var ab := Match("ab", "x", Completion(1, 0, "x"));
      var abc := Match("abc", "y", Completion(1, 0, "y"));
      var t := map["ba" := ab, "cba" := abc];
      && SimBuffer(t, "a") == "a" && Completed(ab, SimBuffer(t, "a"), wordbreak) == ab
      && SimBuffer(t, "ab") == "x" && Completed(abc, SimBuffer(t, "ab"), wordbreak) == abc
  {
    var ab := Match("ab", "x", Completion(1, 0, "x"));
    var abc := Match("abc", "y", Completion(1, 0, "y"));
    var t := map["ba" := ab, "cba" := abc];
    OverlappingLookups(t.Keys);
    OverlappingSim(t);
    OneCharEdit(ab, 'a', 'x', wordbreak);
    OneCharEdit(abc, 'x', 'y', wordbreak);
  }

  /** The deepest keys along "a" and "ab" for the rules ab and abc. */
  lemma OverlappingLookups(dom: set<string>)
    requires dom == {"ba", "cba"}
    ensures LookupKey(dom, "a") == None && LookupKey(dom, "ab") == Some("ba")
  {
    assert Reverse("a") == "a" by { assert "a"[1..] == []; }
    assert "a"[..1] == "a";
    assert LongestKey(dom, "a", 1) == None;
    assert Reverse("ab") == "ba" by {
      assert "ab"[1..] == "b";
      assert "b"[1..] == [];
    }
    assert "ba"[..2] == "ba";
    assert LongestKey(dom, "ba", 2) == None;
    assert LongestKey(dom, "ba", 1) == Some(2);
  }

  /** The simulation of "a" and "ab" for the rules ab and abc. */
  lemma OverlappingSim(t: Trie)
    requires t == map["ba" := Match("ab", "x", Completion(1, 0, "x")), "cba" := Match("abc", "y", Completion(1, 0, "y"))]
    requires LookupKey(t.Keys, "a") == None && LookupKey(t.Keys, "ab") == Some("ba")
    ensures SimBuffer(t, "a") == "a" && SimBuffer(t, "ab") == "x"
  {
    assert "ab"[..1] == "a" && "a"[..1] == "a" && "ab"[..2] == "ab";
    var e: string := [];
    assert e + ['a'] == "a";
    assert SimStep(t, "a", 0, []) == "a";
    assert SimStep(t, "ab", 0, []) == "a";
    assert "a" + ['b'] == "ab";
    assert HitKey(t.Keys, "ab", "ab") == Some("ba");
    assert DeleteFrom("ab", -2) == [];
    assert SimStep(t, "ab", 1, "a") == "x";
  }

  /** A one-character buffer and a different one-character target: backspace one, type the target. */
  lemma OneCharEdit(m: Match, have: char, want: char, wordbreak: char)
    requires m.target == [want] && have != want && have != wordbreak && want != wordbreak
    requires m.result == Completion(1, m.result.func, [want])
    ensures Completed(m, [have], wordbreak) == m
  {
    assert CommonPrefixLength([have], [want]) == 0;
    assert [want][0..] == [want];
    assert ReplaceChar([want], wordbreak, ' ') == [want];
  }

  /** Every match listed in order[k..] is resolved. */
  predicate ResolvedFrom(t: Trie, order: seq<string>, k: nat) {
    forall j :: k <= j < |order| && order[j] in t ==> Resolved(t[order[j]])
  }

  /**
   * traverse_trienode over the matches in the order `order`: each match still
   * unresolved when it is reached is completed.
   */
  function ResolveAll(st: State, dom: set<string>, order: seq<string>, k: nat, wordbreak: char)
    : (r: Result<State, Error>)
    requires st.trie.Keys == dom && k <= |order|
    decreases |order| - k
    ensures r.Ok? ==> Step(st, r.value, {})
    ensures r.Ok? ==> ResolvedFrom(r.value.trie, order, k)
    ensures r.Ok? && Fixed(st.trie, wordbreak) ==> Fixed(r.value.trie, wordbreak)
  {
    if k == |order| then
      StepRefl(st, {});
      Ok(st)
    else if order[k] in dom && !Resolved(st.trie[order[k]]) then
      var completed :- CompleteNode(st, dom, {}, order[k], wordbreak);
      var r :- ResolveAll(completed.0, dom, order, k + 1, wordbreak);
      StepTrans(st, completed.0, r, {});
      assert Resolved(r.trie[order[k]]);
      Ok(r)
    else
      var r :- ResolveAll(st, dom, order, k + 1, wordbreak);
      assert order[k] in dom ==> Resolved(r.trie[order[k]]);
      Ok(r)
  }

  /**
   * complete_trie: the completed trie and the set of outputs. The source
   * visits the matches in the iteration order of its nested dictionaries;
   * here that order is the parameter `order`.
   */
  function CompleteTrie(t: Trie, wordbreak: char, order: seq<string>): (r: Result<State, Error>)
    ensures r.Ok? ==> Grows(t, r.value.trie)
    ensures r.Ok? ==> r.value.outputs == NewOutputs(t, r.value.trie)
    ensures r.Ok? ==> forall p :: p in order && p in t ==> Resolved(r.value.trie[p])
    ensures r.Ok? && Fixed(t, wordbreak) ==> Fixed(r.value.trie, wordbreak)
  {
    var r := ResolveAll(State(t, {}), t.Keys, order, 0, wordbreak);
    if r.Ok? then
      forall p | p in order && p in t ensures Resolved(r.value.trie[p]) {
        var j :| 0 <= j < |order| && order[j] == p;
        assert ResolvedFrom(r.value.trie, order, 0);
      }
      r
    else r
  }

  /** All outputs of a trie. */
  function AllOutputs(t: Trie): set<string> {
    set p | p in t :: t[p].result.output
  }

  /**
   * For a trie from make_trie and an order listing every match: afterwards
   * every match is resolved with a non-negative backspace count, the rules
   * are unchanged, and the returned outputs are exactly the outputs of the
   * trie. Every result is the edit from what typing its context's keys but
   * the last produces with the final results of all the other matches, and
   * that simulation only applies resolved matches: the completed trie is a
   * fixed point of complete_node.
   */
  lemma CompleteTrieResolvesAll(t: Trie, wordbreak: char, order: seq<string>)
    requires AllUnresolved(t)
    requires forall p :: p in t ==> p in order
    requires CompleteTrie(t, wordbreak, order).Ok?
    ensures var st := CompleteTrie(t, wordbreak, order).value;
      && st.trie.Keys == t.Keys
      && (forall p :: p in t ==> SameRule(t[p], st.trie[p]) && st.trie[p].result.backspaces >= 0)
      && st.outputs == AllOutputs(st.trie)
      && (forall p :: p in t ==>
            && st.trie[p] == Completed(t[p], SimBuffer(st.trie, ButLast(t[p].context)), wordbreak)
            && HitsResolved(st.trie, ButLast(t[p].context), 0, []))
  {
    var st := CompleteTrie(t, wordbreak, order).value;
    FixedStart(t, wordbreak);
    forall p | p in t
      ensures st.trie[p] == Completed(t[p], SimBuffer(st.trie, ButLast(t[p].context)), wordbreak)
      ensures HitsResolved(st.trie, ButLast(t[p].context), 0, [])
    {
      assert Resolved(st.trie[p]) && Settled(st.trie, p, wordbreak);
    }
    forall p | p in t ensures st.trie[p].result.backspaces >= 0 {
      assert Resolved(st.trie[p]);
    }
    assert NewOutputs(t, st.trie) == AllOutputs(st.trie) by {
      forall o | o in AllOutputs(st.trie) ensures o in NewOutputs(t, st.trie) {
        var p :| p in st.trie && st.trie[p].result.output == o;
        assert Resolved(st.trie[p]);
      }
    }
  }
}
