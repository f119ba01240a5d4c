/**
 * The trie of make_trie in generator/sequence_transform_data.py. The source
 * nests one dictionary per character, the context written backwards, with a
 * 'MATCH' entry where a context ends. Here the trie is the map from each
 * reversed context to its match; the nodes of the nested dictionaries are the
 * prefixes of its keys.
 */
module Tries {
  import opened Wrappers
  import opened Errors
  import opened PyStr

  /** The 'BACKSPACES' value of a match that complete_trie has not reached yet. */
  const UNRESOLVED: int := -1

  /** The 'RESULT' dictionary of a match. */
  datatype Completion = Completion(backspaces: int, func: int, output: string)

  /** A 'MATCH' entry: the rule's context, its target and its result. */
  datatype Match = Match(context: string, target: string, result: Completion)

  /** Reversed context -> match. */
  type Trie = map<string, Match>

  predicate Resolved(m: Match) {
    m.result.backspaces != UNRESOLVED
  }

  /** A node of the nested dictionaries: a prefix of some reversed context. */
  predicate IsNode(t: Trie, p: string) {
    exists k :: k in t && p <= k
  }

  /** The characters under which node `p` has a child. */
  function Children(t: Trie, p: string): (cs: set<char>) {
    set k | k in t && |p| < |k| && k[..|p|] == p :: k[|p|]
  }

  /** `c` is a child of node `p` exactly when p + [c] is a node. */
  lemma ChildrenIff(t: Trie, p: string, c: char)
    ensures c in Children(t, p) <==> IsNode(t, p + [c])
  {
    if c in Children(t, p) {
      var k :| k in t && |p| < |k| && k[..|p|] == p && k[|p|] == c;
      assert k[..|p| + 1] == p + [c];
    }
    if IsNode(t, p + [c]) {
      var k :| k in t && p + [c] <= k;
      assert k[..|p|] == p;
    }
  }

  /** Length of the longest key (ghost: only termination measures use it). */
  ghost function MaxKeyLength(t: Trie): (n: nat)
    ensures forall k :: k in t ==> |k| <= n
  {
    if t == map[] then 0
    else
      var k :| k in t;
      var rest := MaxKeyLength(t - {k});
      assert forall j :: j in t ==> j == k || j in t - {k};
      if |k| < rest then rest else |k|
  }

  /** No node is deeper than the longest key. */
  lemma NodeDepth(t: Trie, p: string)
    requires IsNode(t, p)
    ensures |p| <= MaxKeyLength(t)
  {
    var k :| k in t && p <= k;
  }

  /** The smallest character of a non-empty set. */
  function MinChar(s: set<char>): (m: char)
    requires s != {}
    ensures m in s && forall x :: x in s ==> m <= x
  {
    MinCharExists(s);
    var m :| m in s && forall x :: x in s ==> m <= x;
    m
  }

  lemma MinCharExists(s: set<char>)
    requires s != {}
    ensures exists m :: m in s && forall x :: x in s ==> m <= x
    decreases |s|
  {
    var y :| y in s;
    if s != {y} {
      MinCharExists(s - {y});
      var m :| m in s - {y} && forall x :: x in s - {y} ==> m <= x;
      var r := if y < m then y else m;
      forall x | x in s ensures r <= x {
        if x != y {
          assert x in s - {y};
        }
      }
    } else {
      assert forall x :: x in s ==> y <= x;
    }
  }

  /** ''.join(sorted(chars)): the characters in increasing order, each once. */
  function SortedChars(s: set<char>): (r: string)
    ensures |r| == |s|
    ensures forall c :: c in s <==> c in r
    ensures forall i, j :: 0 <= i < j < |r| ==> r[i] < r[j]
    decreases |s|
  {
    if s == {} then []
    else
      var m := MinChar(s);
      var rest := SortedChars(s - {m});
      SortedCons(s, m, rest);
      [m] + rest
  }

  /** The smallest character followed by the others in increasing order lists the set in increasing order. */
  lemma SortedCons(s: set<char>, m: char, rest: string)
    requires m in s && forall x :: x in s ==> m <= x
    requires |rest| == |s - {m}| && forall c :: c in s - {m} <==> c in rest
    requires forall i, j :: 0 <= i < j < |rest| ==> rest[i] < rest[j]
    ensures var r := [m] + rest;
      && |r| == |s|
      && (forall c :: c in s <==> c in r)
      && (forall i, j :: 0 <= i < j < |r| ==> r[i] < r[j])
  {
    var r := [m] + rest;
    assert |s - {m}| == |s| - 1;
    forall c | c in s ensures c in r {
      if c != m {
        assert c in s - {m};
      }
    }
    forall i, j | 0 <= i < j < |r| ensures r[i] < r[j] {
      assert r[j] == rest[j - 1] && rest[j - 1] in s - {m};
      if i > 0 {
        assert r[i] == rest[i - 1];
      }
    }
  }

  /**
   * The match make_trie stores for one rule: a final output-function
   * character is split off the correction and becomes FUNC; otherwise FUNC is
   * 0. The result starts unresolved with an empty output.
   */
  function RuleMatch(context: string, correction: string, funcMap: map<char, int>): (m: Match)
    requires correction != []
    ensures m.context == context
    ensures m.result == Completion(UNRESOLVED, m.result.func, "")
    ensures correction[|correction| - 1] in funcMap ==>
      m.target + [correction[|correction| - 1]] == correction
      && m.result.func == funcMap[correction[|correction| - 1]]
    ensures correction[|correction| - 1] !in funcMap ==> m.target == correction && m.result.func == 0
  {
    var last := correction[|correction| - 1];
    if last in funcMap then
      Match(context, correction[..|correction| - 1], Completion(UNRESOLVED, funcMap[last], ""))
    else
      Match(context, correction, Completion(UNRESOLVED, 0, ""))
  }

  /**
   * The trie after inserting the rules in order: a later rule with the same
   * context replaces the earlier match. An empty correction fails at
   * correction[-1].
   */
  function TrieOf(rules: seq<(string, string)>, funcMap: map<char, int>): Result<Trie, Error> {
    if rules == [] then Ok(map[])
    else
      var last := rules[|rules| - 1];
      var t :- TrieOf(rules[..|rules| - 1], funcMap);
      if last.1 == [] then Err(EmptyCorrection(last.0))
      else Ok(t[Reverse(last.0) := RuleMatch(last.0, last.1, funcMap)])
  }

  /**
   * make_trie: walks (and creates) the path of the reversed context for each
   * rule and stores the rule's match at its end.
   */
  method MakeTrie(rules: seq<(string, string)>, funcMap: map<char, int>) returns (r: Result<Trie, Error>)
    ensures r == TrieOf(rules, funcMap)
  {
    var trie: Trie := map[];
    var k := 0;
    while k < |rules|
      invariant k <= |rules|
      invariant TrieOf(rules[..k], funcMap) == Ok(trie)
    {
      var (context, correction) := rules[k];
      assert rules[..k + 1][..k] == rules[..k];
      if correction == [] {
        r := Err(EmptyCorrection(context));
        TrieOfErrorStays(rules, k + 1, funcMap);
        return;
      }
      trie := trie[Reverse(context) := RuleMatch(context, correction, funcMap)];
      k := k + 1;
    }
    assert rules[..k] == rules;
    return Ok(trie);
  }

  /** Once inserting a prefix of the rules fails, the whole list fails the same way. */
  lemma {:induction false} TrieOfErrorStays(rules: seq<(string, string)>, k: nat, funcMap: map<char, int>)
    requires k <= |rules| && TrieOf(rules[..k], funcMap).Err?
    ensures TrieOf(rules, funcMap) == TrieOf(rules[..k], funcMap)
    decreases |rules| - k
  {
    if k < |rules| {
      var a := rules[..k + 1];
      assert a[..|a| - 1] == rules[..k];
      TrieOfErrorStays(rules, k + 1, funcMap);
    } else {
      assert rules[..k] == rules;
    }
  }

  /**
   * make_trie fails exactly when some correction is empty, and then with the
   * context of the first such rule.
   */
  lemma {:induction false} TrieOfFails(rules: seq<(string, string)>, funcMap: map<char, int>)
    ensures TrieOf(rules, funcMap).Err? <==> exists i :: 0 <= i < |rules| && rules[i].1 == []
    ensures TrieOf(rules, funcMap).Err? ==> exists i :: (
      && 0 <= i < |rules| && rules[i].1 == []
      && (forall j :: 0 <= j < i ==> rules[j].1 != [])
      && TrieOf(rules, funcMap).error == EmptyCorrection(rules[i].0))
  {
    if rules != [] {
      var init := rules[..|rules| - 1];
      TrieOfFails(init, funcMap);
      assert forall j :: 0 <= j < |init| ==> rules[j] == init[j];
    }
  }

  /** Every match make_trie builds sits at its reversed context and is unresolved. */
  predicate WellFormed(t: Trie) {
    forall p :: p in t ==> p == Reverse(t[p].context)
  }

  predicate AllUnresolved(t: Trie) {
    forall p :: p in t ==> t[p].result.backspaces == UNRESOLVED && t[p].result.output == ""
  }

  /** The reversed contexts of the rules. */
  function ReversedContexts(rules: seq<(string, string)>): set<string> {
    set i | 0 <= i < |rules| :: Reverse(rules[i].0)
  }

  lemma ReversedContextsSnoc(rules: seq<(string, string)>)
    requires rules != []
    ensures ReversedContexts(rules)
      == ReversedContexts(rules[..|rules| - 1]) + {Reverse(rules[|rules| - 1].0)}
  {
    var init := rules[..|rules| - 1];
    forall i | 0 <= i < |init| ensures rules[i] == init[i] { }
    forall x | x in ReversedContexts(rules)
      ensures x in ReversedContexts(init) || x == Reverse(rules[|rules| - 1].0)
    {
      var i :| 0 <= i < |rules| && x == Reverse(rules[i].0);
      if i < |init| {
        assert x == Reverse(init[i].0);
      }
    }
    forall x | x in ReversedContexts(init) ensures x in ReversedContexts(rules) {
      var i :| 0 <= i < |init| && x == Reverse(init[i].0);
      assert x == Reverse(rules[i].0);
    }
  }

  /** The keys of the trie are the reversed contexts of the rules. */
  lemma {:induction false} TrieOfKeys(rules: seq<(string, string)>, funcMap: map<char, int>)
    requires TrieOf(rules, funcMap).Ok?
    ensures TrieOf(rules, funcMap).value.Keys == ReversedContexts(rules)
  {
    if rules != [] {
      var init := rules[..|rules| - 1];
      TrieOfKeys(init, funcMap);
      ReversedContextsSnoc(rules);
    }
  }

  /** Each match sits at its own reversed context, and every result is unresolved. */
  lemma {:induction false} TrieOfShape(rules: seq<(string, string)>, funcMap: map<char, int>)
    requires TrieOf(rules, funcMap).Ok?
    ensures var t := TrieOf(rules, funcMap).value;
      WellFormed(t) && AllUnresolved(t)
  {
    if rules != [] {
      var init := rules[..|rules| - 1];
      TrieOfShape(init, funcMap);
      var last := rules[|rules| - 1];
      ReverseReverse(last.0);
      assert TrieOf(rules, funcMap).value
        == TrieOf(init, funcMap).value[Reverse(last.0) := RuleMatch(last.0, last.1, funcMap)];
    }
  }

  /** The match of a context is that of the last rule with that context. */
  lemma {:induction false} TrieOfLastWins(rules: seq<(string, string)>, funcMap: map<char, int>, i: nat)
    requires TrieOf(rules, funcMap).Ok? && i < |rules|
    requires forall j :: i < j < |rules| ==> rules[j].0 != rules[i].0
    ensures rules[i].1 != []
    ensures Reverse(rules[i].0) in TrieOf(rules, funcMap).value
    ensures TrieOf(rules, funcMap).value[Reverse(rules[i].0)] == RuleMatch(rules[i].0, rules[i].1, funcMap)
  {
    var init := rules[..|rules| - 1];
    var last := rules[|rules| - 1];
    if i < |rules| - 1 {
      assert init[i] == rules[i];
      TrieOfLastWins(init, funcMap, i);
      ReverseReverse(rules[i].0);
      ReverseReverse(last.0);
    }
  }
}
