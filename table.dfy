/**
 * The table of serialize_trie in generator/sequence_transform_data.py: the
 * nested `traverse` lists the trie's nodes depth first, one entry per node,
 * except that a run of nodes with a single child and no match is folded into
 * the entry of the node where the run starts (a chain entry).
 */
module Table {
  import opened Wrappers
  import opened Errors
  import opened PyStr
  import opened Tries

  const TRIE_MATCH_BIT: nat := 0x8000
  const TRIE_BRANCH_BIT: nat := 0x4000

  /**
   * The layout of a table entry: the trie node (path from the root) it was
   * made for, the 'chars' of its chain or branches and the table indices of
   * the entries it 'links' to. Its 'data' words are NodeData of its node.
   */
  datatype Entry = Entry(node: string, chars: string, links: seq<nat>)

  /** The first word of a match: node type in the two top bits, then the output function, the backspace count and the output length. */
  function MatchCode(hasChildren: bool, func: nat, backspaces: nat, len: nat): (code: nat)
    ensures code >= TRIE_MATCH_BIT
    ensures func < 8 && backspaces < 16 && len < 128 ==> code < 0x10000
  {
    TRIE_MATCH_BIT + (if hasChildren then TRIE_BRANCH_BIT else 0) + func * 2048 + backspaces * 128 + len
  }

  /**
   * Within the bounds the source asserts, the fields of the match word do
   * not overlap: each can be read back from the word.
   */
  lemma MatchCodeFields(hasChildren: bool, func: nat, backspaces: nat, len: nat)
    requires func < 8 && backspaces < 16 && len < 128
    ensures var code := MatchCode(hasChildren, func, backspaces, len);
      && code / TRIE_MATCH_BIT == 1
      && (code / TRIE_BRANCH_BIT) % 2 == (if hasChildren then 1 else 0)
      && (code / 2048) % 8 == func
      && (code / 128) % 16 == backspaces
      && code % 128 == len
  {
    var code := MatchCode(hasChildren, func, backspaces, len);
    var h := if hasChildren then 1 else 0;
    var low := backspaces * 128 + len;
    assert code == (16 + 8 * h + func) * 2048 + low && 0 <= low < 2048;
    assert code / 2048 == 16 + 8 * h + func;
    assert code == (2 + h) * TRIE_BRANCH_BIT + (func * 2048 + low) && 0 <= func * 2048 + low < TRIE_BRANCH_BIT;
    assert code / TRIE_BRANCH_BIT == 2 + h;
    assert code == (256 + 128 * h + 16 * func + backspaces) * 128 + len;
    assert code / 128 == 256 + 128 * h + 16 * func + backspaces;
  }

  /**
   * The two data words of the match at `p`, or the error the source raises:
   * the KeyError of a missing output, then the three field asserts.
   */
  function MatchData(m: Match, hasChildren: bool, completions: map<string, nat>): (r: Result<seq<int>, Error>)
    ensures r.Ok? <==> (m.result.output in completions && 0 <= m.result.func < 8
      && 0 <= m.result.backspaces < 16 && |m.result.output| < 128)
    ensures r.Ok? ==> r.value == [MatchCode(hasChildren, m.result.func as nat, m.result.backspaces as nat, |m.result.output|),
      completions[m.result.output]]
    ensures m.result.output !in completions ==> r == Err(MissingOutput(m.result.output))
    ensures m.result.output in completions && !(0 <= m.result.func < 8) ==> r == Err(FuncOutOfRange(m.context))
    ensures (m.result.output in completions && 0 <= m.result.func < 8 && !(0 <= m.result.backspaces < 16))
      ==> r == Err(BackspacesOutOfRange(m.context))
    ensures (m.result.output in completions && 0 <= m.result.func < 8 && 0 <= m.result.backspaces < 16
      && |m.result.output| >= 128) ==> r == Err(OutputTooLong(m.context))
  {
    var c := m.result;
    if c.output !in completions then Err(MissingOutput(c.output))
    else if !(0 <= c.func < 8) then Err(FuncOutOfRange(m.context))
    else if !(0 <= c.backspaces < 16) then Err(BackspacesOutOfRange(m.context))
    else if !(|c.output| < 128) then Err(OutputTooLong(m.context))
    else Ok([MatchCode(hasChildren, c.func as nat, c.backspaces as nat, |c.output|), completions[c.output]])
  }

  /** The data words of node `p`: its match's, or none when it has no match. */
  function NodeData(t: Trie, completions: map<string, nat>, p: string): (r: Result<seq<int>, Error>)
    ensures p !in t ==> r == Ok([])
    ensures p in t ==> r == MatchData(t[p], Children(t, p) != {}, completions)
  {
    if p in t then MatchData(t[p], Children(t, p) != {}, completions) else Ok([])
  }

  /** A node the chain of a chain entry passes through: no match and exactly one child. */
  predicate PassThrough(t: Trie, q: string) {
    q !in t && |Children(t, q)| == 1
  }

  /**
   * The end of the chain that starts at node `q`: the first node from `q` on
   * down that has a match or does not have exactly one child.
   */
  function ChainEnd(t: Trie, q: string): (r: string)
    requires IsNode(t, q)
    decreases MaxKeyLength(t) - |q|
    ensures q <= r && IsNode(t, r) && !PassThrough(t, r)
  {
    if PassThrough(t, q) then
      var c := MinChar(Children(t, q));
      ChildrenIff(t, q, c);
      NodeDepth(t, q + [c]);
      NodeDepth(t, q);
      var r := ChainEnd(t, q + [c]);
      assert q <= q + [c] <= r;
      r
    else q
  }

  /**
   * Every node the chain passes before its end has no match and has the
   * next character of the chain as its only child.
   */
  lemma {:induction false} ChainEndPath(t: Trie, q: string, m: nat)
    requires IsNode(t, q) && |q| <= m < |ChainEnd(t, q)|
    ensures PassThrough(t, ChainEnd(t, q)[..m])
    ensures Children(t, ChainEnd(t, q)[..m]) == {ChainEnd(t, q)[m]}
    decreases MaxKeyLength(t) - |q|
  {
    var r := ChainEnd(t, q);
    assert PassThrough(t, q);
    var c := MinChar(Children(t, q));
    ChildrenIff(t, q, c);
    NodeDepth(t, q + [c]);
    NodeDepth(t, q);
    assert r == ChainEnd(t, q + [c]);
    assert r[..|q| + 1] == q + [c];
    if m == |q| {
      assert r[..m] == q;
      assert Children(t, q) == {c} by {
        forall x | x in Children(t, q) ensures x == c {
          OneElement(Children(t, q), x, c);
        }
      }
    } else {
      ChainEndPath(t, q + [c], m);
    }
  }

  /** The one element of a singleton set. */
  lemma OneElement<T>(s: set<T>, x: T, y: T)
    requires |s| == 1 && x in s && y in s
    ensures x == y
  {
    if x != y {
      assert {x, y} <= s;
      assert |{x, y}| == 2;
      SubsetSize({x, y}, s);
    }
  }

  lemma SubsetSize<T>(a: set<T>, b: set<T>)
    requires a <= b
    ensures |a| <= |b|
  {
    assert b == a + (b - a);
  }

  /**
   * The while loop of `traverse` that extends a chain: it steps down while
   * the node has one child and no match.
   */
  method FollowChain(t: Trie, q0: string) returns (q: string)
    requires IsNode(t, q0)
    ensures q == ChainEnd(t, q0)
  {
    q := q0;
    while PassThrough(t, q)
      invariant IsNode(t, q) && ChainEnd(t, q) == ChainEnd(t, q0)
      decreases MaxKeyLength(t) - |q|
    {
      var c := MinChar(Children(t, q));
      ChildrenIff(t, q, c);
      NodeDepth(t, q + [c]);
      NodeDepth(t, q);
      q := q + [c];
    }
  }

  /**
   * `traverse(trie_node)` for node `p`, whose entry goes at index `base`:
   * the node's entry, then the entries below it. A node with no children is
   * a leaf. The data words of each entry are those of its node (NodeData),
   * computed in the same order as the entries, so that the first failing one
   * in table order is the error `traverse` stops with.
   */
  function Traverse(t: Trie, p: string, base: nat): (r: seq<Entry>)
    decreases MaxKeyLength(t) - |p|, 2
    ensures r != [] && r[0].node == p
  {
    var cs := Children(t, p);
    if cs == {} then [Entry(p, [], [])]
    else if |cs| == 1 then TraverseChain(t, p, base)
    else TraverseBranch(t, p, base)
  }

  /**
   * A node with one child: one entry for the whole chain from the child down
   * to its end, then the entries of the node at the end.
   */
  function TraverseChain(t: Trie, p: string, base: nat): (r: seq<Entry>)
    requires |Children(t, p)| == 1
    decreases MaxKeyLength(t) - |p|, 1
    ensures r != [] && r[0].node == p
  {
    var c := MinChar(Children(t, p));
    ChildrenIff(t, p, c);
    NodeDepth(t, p + [c]);
    var q := ChainEnd(t, p + [c]);
    NodeDepth(t, q);
    [Entry(p, q[|p|..], [base + 1])] + Traverse(t, q, base + 1)
  }

  /** A node with several children: its entry, then each child's entries in character order. */
  function TraverseBranch(t: Trie, p: string, base: nat): (r: seq<Entry>)
    requires |Children(t, p)| >= 2
    decreases MaxKeyLength(t) - |p|, 1
    ensures r != [] && r[0].node == p
  {
    var chars := SortedChars(Children(t, p));
    ChildrenIff(t, p, chars[0]);
    NodeDepth(t, p + [chars[0]]);
    var sub := TraverseChildren(t, p, chars, 0, base + 1);
    [Entry(p, chars, sub.1)] + sub.0
  }

  /**
   * The list comprehension over a branch's characters from the k-th on: the
   * entries of each child's subtree one after another from index `start`,
   * and the index of each child's entry.
   */
  function TraverseChildren(t: Trie, p: string, chars: string, k: nat, start: nat): (r: (seq<Entry>, seq<nat>))
    requires k <= |chars| && |p| < MaxKeyLength(t)
    decreases MaxKeyLength(t) - |p|, 0, |chars| - k
    ensures |r.1| == |chars| - k
  {
    if k == |chars| then ([], [])
    else
      var sub := Traverse(t, p + [chars[k]], start);
      var rest := TraverseChildren(t, p, chars, k + 1, start + |sub|);
      (sub + rest.0, [start] + rest.1)
  }

  /**
   * Entry `e` is the entry of its node: a node without children is a leaf,
   * a node with one child a chain entry (one link) and a node with more a
   * branch entry listing its children in character order, one link each.
   */
  predicate NodeOk(t: Trie, e: Entry) {
    var cs := Children(t, e.node);
    && (cs == {} ==> e.chars == [] && e.links == [])
    && (|cs| == 1 ==> |e.links| == 1 && e.chars != [])
    && (|cs| >= 2 ==> e.chars == SortedChars(cs) && |e.links| == |e.chars| && |e.links| >= 2)
  }

  /**
   * The links of entry `i` of `es`, a stretch of the table that starts at
   * index `base`: a chain entry's chars lead to the node of the very next
   * entry; a branch entry's first child comes right after it and each link
   * points at the entry of the child under the corresponding character.
   */
  predicate LinksOk(es: seq<Entry>, base: nat, i: nat)
    requires i < |es|
  {
    var e := es[i];
    && (|e.links| == 1 ==>
         e.links[0] == base + i + 1 && i + 1 < |es| && es[i + 1].node == e.node + e.chars)
    && (|e.links| >= 2 ==>
         && |e.chars| == |e.links| && e.links[0] == base + i + 1
         && forall k :: 0 <= k < |e.links| ==>
              base + i < e.links[k] < base + |es| && es[e.links[k] - base].node == e.node + [e.chars[k]])
  }

  predicate NodesOk(t: Trie, es: seq<Entry>) {
    forall i :: 0 <= i < |es| ==> NodeOk(t, es[i])
  }

  predicate AllLinksOk(es: seq<Entry>, base: nat) {
    forall i :: 0 <= i < |es| ==> LinksOk(es, base, i)
  }

  predicate TableOk(t: Trie, es: seq<Entry>, base: nat) {
    NodesOk(t, es) && AllLinksOk(es, base)
  }

  /** Well-formed links stay well formed inside a larger stretch that contains them. */
  lemma Lift(part: seq<Entry>, whole: seq<Entry>, base: nat, off: nat, partBase: nat)
    requires off + |part| <= |whole| && whole[off..off + |part|] == part && partBase == base + off
    requires forall i :: 0 <= i < |part| ==> LinksOk(part, partBase, i)
    ensures forall i :: off <= i < off + |part| ==> LinksOk(whole, base, i)
  {
    forall i | off <= i < off + |part| ensures LinksOk(whole, base, i) {
      assert whole[i] == part[i - off];
      assert LinksOk(part, base + off, i - off);
      var e := part[i - off];
      if |e.links| == 1 {
        assert whole[i + 1] == part[i - off + 1];
      }
      if |e.links| >= 2 {
        forall k | 0 <= k < |e.links|
          ensures base + i < e.links[k] < base + |whole| && whole[e.links[k] - base].node == e.node + [e.chars[k]]
        {
          assert whole[e.links[k] - base] == part[e.links[k] - (base + off)];
        }
      }
    }
  }

  lemma NodesConcat(t: Trie, a: seq<Entry>, b: seq<Entry>)
    requires NodesOk(t, a) && NodesOk(t, b)
    ensures NodesOk(t, a + b)
  {
    forall i | 0 <= i < |a + b| ensures NodeOk(t, (a + b)[i]) {
      if i < |a| {
        assert (a + b)[i] == a[i];
      } else {
        assert (a + b)[i] == b[i - |a|];
      }
    }
  }

  /** A well-formed stretch with one more well-formed entry in front. */
  lemma ConsTable(t: Trie, e: Entry, rest: seq<Entry>, base: nat, restBase: nat)
    requires restBase == base + 1
    requires TableOk(t, rest, restBase)
    requires NodeOk(t, e) && LinksOk([e] + rest, base, 0)
    ensures TableOk(t, [e] + rest, base)
  {
    assert NodesOk(t, [e]);
    NodesConcat(t, [e], rest);
    ConsLinksOk(e, rest, base, restBase);
  }

  lemma ConsLinksOk(e: Entry, rest: seq<Entry>, base: nat, restBase: nat)
    requires restBase == base + 1
    requires AllLinksOk(rest, restBase) && LinksOk([e] + rest, base, 0)
    ensures AllLinksOk([e] + rest, base)
  {
    Lift(rest, [e] + rest, base, 1, restBase);
  }

  /** Two well-formed stretches, one after the other. */
  lemma ConcatTable(t: Trie, a: seq<Entry>, b: seq<Entry>, base: nat, bBase: nat)
    requires bBase == base + |a|
    requires TableOk(t, a, base) && TableOk(t, b, bBase)
    ensures TableOk(t, a + b, base)
  {
    NodesConcat(t, a, b);
    ConcatLinksOk(a, b, base, bBase);
  }

  lemma ConcatLinksOk(a: seq<Entry>, b: seq<Entry>, base: nat, bBase: nat)
    requires bBase == base + |a|
    requires AllLinksOk(a, base) && AllLinksOk(b, bBase)
    ensures AllLinksOk(a + b, base)
  {
    Lift(a, a + b, base, 0, base);
    Lift(b, a + b, base, |a|, bBase);
  }

  /** Every entry `traverse` makes is the entry of its node, with links as described. */
  lemma {:induction false} TraverseShape(t: Trie, p: string, base: nat)
    ensures TableOk(t, Traverse(t, p, base), base)
    decreases MaxKeyLength(t) - |p|, 2
  {
    var es := Traverse(t, p, base);
    var cs := Children(t, p);
    if cs == {} {
      assert NodeOk(t, es[0]) && LinksOk(es, base, 0);
    } else if |cs| == 1 {
      TraverseChainShape(t, p, base);
    } else {
      TraverseBranchShape(t, p, base);
    }
  }

  lemma {:induction false} TraverseChainShape(t: Trie, p: string, base: nat)
    requires |Children(t, p)| == 1
    ensures TableOk(t, TraverseChain(t, p, base), base)
    decreases MaxKeyLength(t) - |p|, 1
  {
    var es := TraverseChain(t, p, base);
    var c := MinChar(Children(t, p));
    ChildrenIff(t, p, c);
    NodeDepth(t, p + [c]);
    var q := ChainEnd(t, p + [c]);
    NodeDepth(t, q);
    var rest := Traverse(t, q, base + 1);
    assert es == [Entry(p, q[|p|..], [base + 1])] + rest;
    TraverseShape(t, q, base + 1);
    assert p + [c] <= q;
    assert q == p + q[|p|..];
    assert LinksOk(es, base, 0);
    ConsTable(t, es[0], rest, base, base + 1);
  }

  lemma {:induction false} TraverseBranchShape(t: Trie, p: string, base: nat)
    requires |Children(t, p)| >= 2
    ensures TableOk(t, TraverseBranch(t, p, base), base)
    decreases MaxKeyLength(t) - |p|, 1
  {
    var es := TraverseBranch(t, p, base);
    var chars := SortedChars(Children(t, p));
    ChildrenIff(t, p, chars[0]);
    NodeDepth(t, p + [chars[0]]);
    var sub := TraverseChildren(t, p, chars, 0, base + 1);
    var e := Entry(p, chars, sub.1);
    assert es == [e] + sub.0;
    TraverseChildrenShape(t, p, chars, 0, base + 1);
    TraverseChildrenLinks(t, p, chars, 0, base + 1);
    BranchLinks(e, sub.0, base);
    assert NodeOk(t, e);
    ConsTable(t, e, sub.0, base, base + 1);
  }

  /** The j-th of `links` points into `es` (a stretch from `start`) at the child of `p` under chars[k + j]. */
  predicate PointsAt(es: seq<Entry>, start: nat, links: seq<nat>, p: string, chars: string, k: nat) {
    forall j :: 0 <= j < |links| ==>
      k + j < |chars| && start <= links[j] < start + |es| && es[links[j] - start].node == p + [chars[k + j]]
  }

  /** A branch entry whose links point at its children's entries right after it. */
  lemma BranchLinks(e: Entry, rest: seq<Entry>, base: nat)
    requires |e.links| >= 2 && |e.chars| == |e.links| && e.links[0] == base + 1
    requires PointsAt(rest, base + 1, e.links, e.node, e.chars, 0)
    ensures LinksOk([e] + rest, base, 0)
  {
    var es := [e] + rest;
    forall k | 0 <= k < |e.links|
      ensures base < e.links[k] < base + |es| && es[e.links[k] - base].node == e.node + [e.chars[k]]
    {
      assert es[e.links[k] - base] == rest[e.links[k] - (base + 1)];
    }
  }

  /** The entries of a branch's children are well formed. */
  lemma {:induction false} TraverseChildrenShape(t: Trie, p: string, chars: string, k: nat, start: nat)
    requires k <= |chars| && |p| < MaxKeyLength(t)
    ensures TableOk(t, TraverseChildren(t, p, chars, k, start).0, start)
    decreases MaxKeyLength(t) - |p|, 0, |chars| - k
  {
    if k < |chars| {
      var es := TraverseChildren(t, p, chars, k, start).0;
      var sub := Traverse(t, p + [chars[k]], start);
      var rest := TraverseChildren(t, p, chars, k + 1, start + |sub|).0;
      assert es == sub + rest;
      TraverseShape(t, p + [chars[k]], start);
      TraverseChildrenShape(t, p, chars, k + 1, start + |sub|);
      ConcatTable(t, sub, rest, start, start + |sub|);
    } else {
      assert TraverseChildren(t, p, chars, k, start).0 == [];
    }
  }

  /**
   * The j-th link of the children's list points at the entry of the child
   * under the (k + j)-th character, the first right at `start`.
   */
  lemma {:induction false} TraverseChildrenLinks(t: Trie, p: string, chars: string, k: nat, start: nat)
    requires k <= |chars| && |p| < MaxKeyLength(t)
    ensures var (es, links) := TraverseChildren(t, p, chars, k, start);
      && (k < |chars| ==> links[0] == start)
      && PointsAt(es, start, links, p, chars, k)
    decreases |chars| - k
  {
    if k < |chars| {
      var (es, links) := TraverseChildren(t, p, chars, k, start);
      var sub := Traverse(t, p + [chars[k]], start);
      var rest := TraverseChildren(t, p, chars, k + 1, start + |sub|);
      assert es == sub + rest.0 && links == [start] + rest.1;
      TraverseChildrenLinks(t, p, chars, k + 1, start + |sub|);
      ConsLinks(sub, rest.0, rest.1, start, p, chars, k);
    }
  }

  /** One more child's subtree in front of the list. */
  lemma ConsLinks(sub: seq<Entry>, es: seq<Entry>, links: seq<nat>, start: nat, p: string, chars: string, k: nat)
    requires sub != [] && k < |chars| && sub[0].node == p + [chars[k]]
    requires PointsAt(es, start + |sub|, links, p, chars, k + 1)
    ensures PointsAt(sub + es, start, [start] + links, p, chars, k)
  {
    var all := sub + es;
    var ls := [start] + links;
    forall j | 0 <= j < |ls|
      ensures k + j < |chars| && start <= ls[j] < start + |all| && all[ls[j] - start].node == p + [chars[k + j]]
    {
      if j > 0 {
        assert ls[j] == links[j - 1];
        assert all[ls[j] - start] == es[ls[j] - (start + |sub|)];
      }
    }
  }
}
