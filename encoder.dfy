/**
 * The words of serialize_trie and encode_link in
 * generator/sequence_transform_data.py: each table entry is turned into
 * 16-bit words (its data, then its chars and links), the offset of every
 * entry is the number of words before it, and a branch link is the offset
 * of the entry it points to.
 */
module Encoder {
  import opened Wrappers
  import opened Errors
  import opened Tries
  import opened Table
  import opened Bits

  /** Largest offset a link word can hold. */
  const MAX_OFFSET: nat := 0xffff

  /** encode_link: the link word, the offset of the entry linked to, which must fit in 16 bits. */
  function EncodeLink(offset: int): (r: Result<seq<int>, Error>)
    ensures r.Ok? <==> 0 <= offset <= MAX_OFFSET
    ensures r.Ok? ==> r.value == [offset]
  {
    if 0 <= offset <= MAX_OFFSET then Ok([offset]) else Err(LinkOutOfRange(offset))
  }

  /** The first character of `s` the map lacks, if any. */
  function MissingChar(s: string, cm: map<char, int>): (r: Option<char>)
    ensures r.None? <==> forall k :: 0 <= k < |s| ==> s[k] in cm
    ensures r.Some? ==> r.value !in cm
  {
    if s == [] then None
    else if s[0] !in cm then Some(s[0])
    else
      var r := MissingChar(s[1..], cm);
      assert forall k :: 1 <= k < |s| ==> s[k] == s[1..][k - 1];
      r
  }

  /** The result names the first character missing from the map. */
  lemma {:induction false} MissingCharIsFirst(s: string, cm: map<char, int>)
    requires MissingChar(s, cm).Some?
    ensures exists k :: 0 <= k < |s| && s[k] == MissingChar(s, cm).value && forall j :: 0 <= j < k ==> s[j] in cm
  {
    if s[0] in cm {
      MissingCharIsFirst(s[1..], cm);
      var k :| 0 <= k < |s[1..]| && s[1..][k] == MissingChar(s[1..], cm).value
        && forall j :: 0 <= j < k ==> s[1..][j] in cm;
      assert s[k + 1] == MissingChar(s, cm).value;
      forall j | 0 <= j < k + 1 ensures s[j] in cm {
        if j > 0 {
          assert s[j] == s[1..][j - 1];
        }
      }
    } else {
      assert s[0] == MissingChar(s, cm).value;
    }
  }

  /** [char_map[c] for c in chars]: the codes of the characters, or the KeyError of the first unknown one. */
  function CharCodes(s: string, cm: map<char, int>): (r: Result<seq<int>, Error>)
    ensures r.Err? <==> MissingChar(s, cm).Some?
    ensures r.Err? ==> r.error == UnknownCharacter(MissingChar(s, cm).value)
    ensures r.Ok? ==> |r.value| == |s| && forall k :: 0 <= k < |s| ==> r.value[k] == cm[s[k]]
  {
    if s == [] then Ok([])
    else if s[0] !in cm then Err(UnknownCharacter(s[0]))
    else
      var rest :- CharCodes(s[1..], cm);
      Ok([cm[s[0]]] + rest)
  }

  /** Every link of `links` indexes a sequence of length `n`. */
  predicate LinksBelow(links: seq<nat>, n: nat) {
    forall j :: 0 <= j < |links| ==> links[j] < n
  }

  /** Every link of every entry indexes the table. */
  predicate LinksWithin(es: seq<Entry>) {
    forall i :: 0 <= i < |es| ==> LinksBelow(es[i].links, |es|)
  }

  /** Every offset fits in a link word. */
  predicate InRange(offsets: seq<int>) {
    forall i :: 0 <= i < |offsets| ==> 0 <= offsets[i] <= MAX_OFFSET
  }

  function Min(a: nat, b: nat): nat {
    if a < b then a else b
  }

  /**
   * The loop over zip(chars, links) of a branch entry: for each pair the
   * character's code, the first one with the branch bit set, then the link
   * word of the entry linked to.
   */
  function BranchWords(chars: string, links: seq<nat>, offsets: seq<int>, cm: map<char, int>, first: bool): (r: Result<seq<int>, Error>)
    requires LinksBelow(links, |offsets|)
  {
    if chars == [] || links == [] then Ok([])
    else if chars[0] !in cm then Err(UnknownCharacter(chars[0]))
    else
      var code := if first then OrBit(cm[chars[0]], TRIE_BRANCH_BIT) else cm[chars[0]];
      var link :- EncodeLink(offsets[links[0]]);
      var rest :- BranchWords(chars[1..], links[1..], offsets, cm, false);
      Ok([code] + link + rest)
  }

  /** `serialize(e)`: the words of an entry with data words `data`, given the current offsets. */
  function Serialize(data: seq<int>, e: Entry, offsets: seq<int>, cm: map<char, int>): (r: Result<seq<int>, Error>)
    requires LinksBelow(e.links, |offsets|)
  {
    if e.links == [] then Ok(data)
    else if |e.links| == 1 then
      var codes :- CharCodes(e.chars, cm);
      Ok(data + codes + [0])
    else
      var words :- BranchWords(e.chars, e.links, offsets, cm, true);
      Ok(data + words + [0])
  }

  /** The characters `serialize` looks up: all of a chain's, one per link of a branch's. */
  function UsedChars(e: Entry): string {
    if e.links == [] then []
    else if |e.links| == 1 then e.chars
    else e.chars[..Min(|e.chars|, |e.links|)]
  }

  /** The number of words of an entry. */
  function EntrySize(data: seq<int>, e: Entry): nat {
    if e.links == [] then |data|
    else if |e.links| == 1 then |data| + |e.chars| + 1
    else |data| + 2 * Min(|e.chars|, |e.links|) + 1
  }

  /**
   * With offsets that fit in link words, the zip fails exactly at the first
   * unknown character, and otherwise gives two words per pair.
   */
  lemma {:induction false} BranchWordsInRange(chars: string, links: seq<nat>, offsets: seq<int>, cm: map<char, int>, first: bool)
    requires LinksBelow(links, |offsets|) && InRange(offsets)
    ensures var r := BranchWords(chars, links, offsets, cm, first);
      var m := MissingChar(chars[..Min(|chars|, |links|)], cm);
      && (r.Err? <==> m.Some?)
      && (r.Err? ==> r.error == UnknownCharacter(m.value))
      && (r.Ok? ==> |r.value| == 2 * Min(|chars|, |links|))
  {
    if chars != [] && links != [] {
      var n := Min(|chars|, |links|);
      assert chars[..n][1..] == chars[1..][..Min(|chars| - 1, |links| - 1)];
      assert chars[..n][0] == chars[0];
      assert LinksBelow(links[1..], |offsets|);
      assert offsets[links[0]] == offsets[links[0]];
      BranchWordsInRange(chars[1..], links[1..], offsets, cm, false);
    } else {
      assert chars[..Min(|chars|, |links|)] == [];
    }
  }

  /**
   * With offsets that fit in link words, serialize fails exactly when one of
   * the characters it looks up is unknown, with the first of them, and
   * otherwise gives EntrySize words: encode_link never fails.
   */
  lemma SerializeInRange(data: seq<int>, e: Entry, offsets: seq<int>, cm: map<char, int>)
    requires LinksBelow(e.links, |offsets|) && InRange(offsets)
    ensures var r := Serialize(data, e, offsets, cm);
      var m := MissingChar(UsedChars(e), cm);
      && (r.Err? <==> m.Some?)
      && (r.Err? ==> r.error == UnknownCharacter(m.value))
      && (r.Ok? ==> |r.value| == EntrySize(data, e))
  {
    if |e.links| >= 2 {
      BranchWordsInRange(e.chars, e.links, offsets, cm, true);
    }
  }

  /** The k-th pair of the zip: its code word and its link word. */
  lemma {:induction false} BranchWordAt(chars: string, links: seq<nat>, offsets: seq<int>, cm: map<char, int>, first: bool, k: nat)
    requires LinksBelow(links, |offsets|) && BranchWords(chars, links, offsets, cm, first).Ok?
    requires k < |chars| && k < |links|
    ensures var w := BranchWords(chars, links, offsets, cm, first).value;
      && 2 * k + 1 < |w|
      && chars[k] in cm
      && w[2 * k] == (if first && k == 0 then OrBit(cm[chars[k]], TRIE_BRANCH_BIT) else cm[chars[k]])
      && w[2 * k + 1] == offsets[links[k]]
  {
    assert LinksBelow(links[1..], |offsets|);
    if k > 0 {
      BranchWordAt(chars[1..], links[1..], offsets, cm, false, k - 1);
      assert chars[1..][k - 1] == chars[k] && links[1..][k - 1] == links[k];
    }
  }

  /** The codes of a table's characters stay clear of the branch bit (the alphabet is small). */
  predicate SmallCodes(cm: map<char, int>) {
    forall c :: c in cm ==> 0 <= cm[c] < TRIE_BRANCH_BIT
  }

  /**
   * The layout of an entry's words: its data first; a leaf has nothing
   * more; a chain has the codes of its characters and a 0; a branch has one
   * code and one link word per child, the link word being the offset of the
   * child's entry, and a closing 0. Only the first code of a branch has the
   * branch bit set.
   */
  lemma SerializeShape(data: seq<int>, e: Entry, offsets: seq<int>, cm: map<char, int>, k: nat)
    requires LinksBelow(e.links, |offsets|) && Serialize(data, e, offsets, cm).Ok?
    ensures var w := Serialize(data, e, offsets, cm).value;
      && |data| <= |w| && w[..|data|] == data
      && (e.links == [] ==> w == data)
      && (|e.links| == 1 ==> (
            && |w| == |data| + |e.chars| + 1 && w[|w| - 1] == 0
            && (k < |e.chars| ==> e.chars[k] in cm && w[|data| + k] == cm[e.chars[k]])))
      && (|e.links| >= 2 ==> (
            && w[|w| - 1] == 0
            && (k < |e.chars| && k < |e.links| ==> (
                 && |data| + 2 * k + 1 < |w| - 1
                 && w[|data| + 2 * k + 1] == offsets[e.links[k]]
                 && (SmallCodes(cm) ==> ((w[|data| + 2 * k] / TRIE_BRANCH_BIT) % 2 == 1 <==> k == 0))))))
  {
    var w := Serialize(data, e, offsets, cm).value;
    if |e.links| >= 2 {
      var words := BranchWords(e.chars, e.links, offsets, cm, true).value;
      assert w == data + words + [0];
      if k < |e.chars| && k < |e.links| {
        BranchWordAt(e.chars, e.links, offsets, cm, true, k);
        assert w[|data| + 2 * k] == words[2 * k];
        assert w[|data| + 2 * k + 1] == words[2 * k + 1];
      }
    }
  }

  /** The k-th link word of a branch entry, which follows the data and k code and link pairs, is the offset it links to. */
  lemma SerializeLinkWord(data: seq<int>, e: Entry, offsets: seq<int>, cm: map<char, int>, k: nat)
    requires LinksBelow(e.links, |offsets|) && Serialize(data, e, offsets, cm).Ok?
    requires |e.links| >= 2 && k < |e.chars| && k < |e.links|
    ensures var w := Serialize(data, e, offsets, cm).value;
      |data| + 2 * k + 1 < |w| && w[|data| + 2 * k + 1] == offsets[e.links[k]]
  {
    var words := BranchWords(e.chars, e.links, offsets, cm, true).value;
    var w := data + words + [0];
    assert Serialize(data, e, offsets, cm).value == w;
    BranchWordAt(e.chars, e.links, offsets, cm, true, k);
    assert w[|data| + 2 * k + 1] == words[2 * k + 1];
  }

  /** `n` zeros: the offsets of entries the loop has not reached yet. */
  function Zeros(n: nat): (z: seq<int>)
    ensures |z| == n && InRange(z)
  {
    seq(n, i => 0)
  }

  /**
   * The offset loop of serialize_trie over the first k entries: each entry
   * gets the running total as its offset and is serialised (with the
   * offsets of later entries still 0) and the total must stay within 16
   * bits. The offsets and the final total, or the first error.
   */
  function OffsetLoop(data: seq<seq<int>>, es: seq<Entry>, cm: map<char, int>, k: nat): (r: Result<(seq<int>, int), Error>)
    requires |data| == |es| && k <= |es| && LinksWithin(es)
    ensures r.Ok? ==> |r.value.0| == k
  {
    if k == 0 then Ok(([], 0))
    else
      var before :- OffsetLoop(data, es, cm, k - 1);
      var offsets := before.0 + [before.1] + Zeros(|es| - k);
      assert LinksBelow(es[k - 1].links, |offsets|);
      var words :- Serialize(data[k - 1], es[k - 1], offsets, cm);
      var total := before.1 + |words|;
      if total > MAX_OFFSET then Err(TableTooLarge(total))
      else Ok((before.0 + [before.1], total))
  }

  /** The final list comprehension: the words of the first k entries one after another. */
  function Flatten(data: seq<seq<int>>, es: seq<Entry>, offsets: seq<int>, cm: map<char, int>, k: nat): (r: Result<seq<int>, Error>)
    requires |data| == |es| == |offsets| && k <= |es| && LinksWithin(es)
  {
    if k == 0 then Ok([])
    else
      var before :- Flatten(data, es, offsets, cm, k - 1);
      assert LinksBelow(es[k - 1].links, |offsets|);
      var words :- Serialize(data[k - 1], es[k - 1], offsets, cm);
      Ok(before + words)
  }

  /** The words of a table whose entries have data words `data`. */
  function SerializeTable(data: seq<seq<int>>, es: seq<Entry>, cm: map<char, int>): Result<seq<int>, Error>
    requires |data| == |es| && LinksWithin(es)
  {
    var loop :- OffsetLoop(data, es, cm, |es|);
    Flatten(data, es, loop.0, cm, |es|)
  }

  /** One step of the offset loop that succeeds: the entry's offset is the total so far, which grows by its size. */
  lemma OffsetLoopStep(data: seq<seq<int>>, es: seq<Entry>, cm: map<char, int>, k: nat)
    requires |data| == |es| && 0 < k <= |es| && LinksWithin(es)
    requires OffsetLoop(data, es, cm, k).Ok?
    ensures OffsetLoop(data, es, cm, k - 1).Ok?
    ensures var before := OffsetLoop(data, es, cm, k - 1).value;
      var total := before.1 + EntrySize(data[k - 1], es[k - 1]);
      && OffsetLoop(data, es, cm, k).value == (before.0 + [before.1], total)
      && MissingChar(UsedChars(es[k - 1]), cm).None?
      && total <= MAX_OFFSET
    decreases k, 0
  {
    var before := OffsetLoop(data, es, cm, k - 1).value;
    if k > 1 {
      OffsetLoopBounds(data, es, cm, k - 1);
    }
    var current := before.0 + [before.1] + Zeros(|es| - k);
    assert InRange(current);
    assert LinksBelow(es[k - 1].links, |current|);
    SerializeInRange(data[k - 1], es[k - 1], current, cm);
  }

  /**
   * What the offset loop computes: the offsets start at 0, all offsets and
   * the total fit in 16 bits, and every entry's characters are known.
   */
  lemma {:induction false} OffsetLoopBounds(data: seq<seq<int>>, es: seq<Entry>, cm: map<char, int>, k: nat)
    requires |data| == |es| && k <= |es| && LinksWithin(es)
    requires OffsetLoop(data, es, cm, k).Ok?
    ensures var (offsets, total) := OffsetLoop(data, es, cm, k).value;
      && 0 <= total <= MAX_OFFSET
      && InRange(offsets)
      && (k > 0 ==> offsets[0] == 0)
      && (forall i :: 0 <= i < k ==> offsets[i] <= total)
      && (forall i :: 0 <= i < k ==> MissingChar(UsedChars(es[i]), cm).None?)
    decreases k, 1
  {
    if k > 0 {
      OffsetLoopBounds(data, es, cm, k - 1);
      OffsetLoopStep(data, es, cm, k);
    }
  }

  /** Each offset is the one before plus the size of the entry before; the total is the size of all. */
  predicate Consecutive(data: seq<seq<int>>, es: seq<Entry>, offsets: seq<int>, total: int)
    requires |offsets| <= |es| == |data|
  {
    forall i :: 0 <= i < |offsets| ==>
      offsets[i] + EntrySize(data[i], es[i]) == if i + 1 < |offsets| then offsets[i + 1] else total
  }

  /** The offsets of the loop lie back to back, each entry taking EntrySize words. */
  lemma {:induction false} OffsetLoopFacts(data: seq<seq<int>>, es: seq<Entry>, cm: map<char, int>, k: nat)
    requires |data| == |es| && k <= |es| && LinksWithin(es)
    requires OffsetLoop(data, es, cm, k).Ok?
    ensures Consecutive(data, es, OffsetLoop(data, es, cm, k).value.0, OffsetLoop(data, es, cm, k).value.1)
  {
    if k > 0 {
      OffsetLoopStep(data, es, cm, k);
      OffsetLoopFacts(data, es, cm, k - 1);
      var before := OffsetLoop(data, es, cm, k - 1).value;
      ConsecutiveSnoc(data, es, before.0, before.1, before.1 + EntrySize(data[k - 1], es[k - 1]));
    }
  }

  /** The fact Consecutive states about entry i. */
  lemma ConsecutiveAt(data: seq<seq<int>>, es: seq<Entry>, offsets: seq<int>, total: int, i: nat)
    requires |offsets| <= |es| == |data| && Consecutive(data, es, offsets, total) && i < |offsets|
    ensures offsets[i] + EntrySize(data[i], es[i]) == if i + 1 < |offsets| then offsets[i + 1] else total
  {
  }

  /** Appending the total as one more offset keeps the offsets back to back. */
  lemma ConsecutiveSnoc(data: seq<seq<int>>, es: seq<Entry>, offsets: seq<int>, last: int, total: int)
    requires |offsets| < |es| == |data| && Consecutive(data, es, offsets, last)
    requires total == last + EntrySize(data[|offsets|], es[|offsets|])
    ensures Consecutive(data, es, offsets + [last], total)
  {
    var more := offsets + [last];
    forall i | 0 <= i < |more|
      ensures more[i] + EntrySize(data[i], es[i]) == if i + 1 < |more| then more[i + 1] else total
    {
      if i < |offsets| {
        ConsecutiveAt(data, es, offsets, last, i);
        assert more[i] == offsets[i] && more[i + 1] == if i + 1 < |offsets| then offsets[i + 1] else last;
      }
    }
  }

  /** `w` sits in `words` from index `at` on. */
  predicate Placed(words: seq<int>, w: seq<int>, at: int) {
    0 <= at && at + |w| <= |words| && words[at..at + |w|] == w
  }

  /**
   * Once the offset loop succeeds the final serialisation cannot fail (so
   * encode_link never reports a link beyond 64KB), and the words of entry i
   * sit at its offset.
   */
  lemma {:induction false} FlattenLayout(data: seq<seq<int>>, es: seq<Entry>, cm: map<char, int>, offsets: seq<int>, total: int, k: nat)
    requires |data| == |es| && k <= |es| && LinksWithin(es)
    requires OffsetLoop(data, es, cm, |es|) == Ok((offsets, total))
    ensures Flatten(data, es, offsets, cm, k).Ok?
    ensures var words := Flatten(data, es, offsets, cm, k).value;
      && |words| == (if k < |es| then offsets[k] else total)
      && forall i :: 0 <= i < k ==>
           Serialize(data[i], es[i], offsets, cm).Ok? && Placed(words, Serialize(data[i], es[i], offsets, cm).value, offsets[i])
  {
    if k > 0 {
      FlattenLayout(data, es, cm, offsets, total, k - 1);
      var before := Flatten(data, es, offsets, cm, k - 1).value;
      OffsetAt(data, es, cm, offsets, total, k - 1);
      var w := Serialize(data[k - 1], es[k - 1], offsets, cm).value;
      var words := before + w;
      assert Flatten(data, es, offsets, cm, k) == Ok(words);
      forall i | 0 <= i < k
        ensures Serialize(data[i], es[i], offsets, cm).Ok? && Placed(words, Serialize(data[i], es[i], offsets, cm).value, offsets[i])
      {
        if i < k - 1 {
          PlacedPrefix(before, w, Serialize(data[i], es[i], offsets, cm).value, offsets[i]);
        } else {
          PlacedSuffix(before, w);
        }
      }
    } else if |es| > 0 {
      OffsetAt(data, es, cm, offsets, total, 0);
    } else {
      assert OffsetLoop(data, es, cm, 0) == Ok(([], 0));
    }
  }

  /**
   * What the offset loop gives one entry: its characters are known, so it
   * serialises with the final offsets to EntrySize words, and the next
   * entry's offset (or the total, after the last entry) is its own plus that
   * size; the first offset is 0.
   */
  lemma OffsetAt(data: seq<seq<int>>, es: seq<Entry>, cm: map<char, int>, offsets: seq<int>, total: int, i: nat)
    requires |data| == |es| && i < |es| && LinksWithin(es)
    requires OffsetLoop(data, es, cm, |es|) == Ok((offsets, total))
    ensures |offsets| == |es| && InRange(offsets) && LinksBelow(es[i].links, |offsets|)
    ensures Serialize(data[i], es[i], offsets, cm).Ok?
    ensures |Serialize(data[i], es[i], offsets, cm).value| == EntrySize(data[i], es[i])
    ensures offsets[i] + EntrySize(data[i], es[i]) == if i + 1 < |es| then offsets[i + 1] else total
    ensures offsets[0] == 0
  {
    OffsetLoopBounds(data, es, cm, |es|);
    OffsetLoopFacts(data, es, cm, |es|);
    ConsecutiveAt(data, es, offsets, total, i);
    assert LinksBelow(es[i].links, |offsets|);
    SerializeInRange(data[i], es[i], offsets, cm);
  }

  /** Words appended sit right after the words before them. */
  lemma PlacedSuffix(before: seq<int>, w: seq<int>)
    ensures Placed(before + w, w, |before|)
  {
    assert (before + w)[|before|..|before| + |w|] == w;
  }

  /** Placed words stay placed when more words follow. */
  lemma PlacedPrefix(before: seq<int>, more: seq<int>, w: seq<int>, at: int)
    requires Placed(before, w, at)
    ensures Placed(before + more, w, at)
  {
    assert (before + more)[at..at + |w|] == before[at..at + |w|];
  }

  /** The data words of the first k entries, each that of its node, in table order; or the first error. */
  function TableData(t: Trie, completions: map<string, nat>, es: seq<Entry>, k: nat): (r: Result<seq<seq<int>>, Error>)
    requires k <= |es|
    ensures r.Ok? ==> |r.value| == k
  {
    if k == 0 then Ok([])
    else
      var before :- TableData(t, completions, es, k - 1);
      var d :- NodeData(t, completions, es[k - 1].node);
      Ok(before + [d])
  }

  /**
   * The data words are found exactly when every entry's node has them, and
   * are then those of each entry's node; otherwise the error is that of the
   * first entry whose node fails, as `traverse` meets them depth first.
   */
  lemma {:induction false} TableDataFacts(t: Trie, completions: map<string, nat>, es: seq<Entry>, k: nat)
    requires k <= |es|
    ensures var r := TableData(t, completions, es, k);
      && (r.Ok? <==> forall i :: 0 <= i < k ==> NodeData(t, completions, es[i].node).Ok?)
      && (r.Ok? ==> forall i :: 0 <= i < k ==> NodeData(t, completions, es[i].node) == Ok(r.value[i]))
      && (r.Err? ==> exists i :: (0 <= i < k && NodeData(t, completions, es[i].node) == Err(r.error)
            && forall j :: 0 <= j < i ==> NodeData(t, completions, es[j].node).Ok?))
  {
    if k > 0 {
      TableDataFacts(t, completions, es, k - 1);
      var r := TableData(t, completions, es, k);
      var before := TableData(t, completions, es, k - 1);
      if before.Ok? && r.Ok? {
        forall i | 0 <= i < k ensures NodeData(t, completions, es[i].node) == Ok(r.value[i]) {
          if i < k - 1 {
            assert r.value[i] == before.value[i];
          }
        }
      }
      if before.Ok? && r.Err? {
        assert NodeData(t, completions, es[k - 1].node) == Err(r.error);
      }
    }
  }

  /** The links of the table `traverse` builds from the root index the table. */
  lemma TraverseWithin(t: Trie)
    ensures LinksWithin(Traverse(t, [], 0))
  {
    var es := Traverse(t, [], 0);
    TraverseShape(t, [], 0);
    forall i | 0 <= i < |es| ensures LinksBelow(es[i].links, |es|) {
      assert LinksOk(es, 0, i);
    }
  }

  /** serialize_trie: the table of the trie's nodes, then its words, or the first error. */
  function TrieWords(t: Trie, cm: map<char, int>, completions: map<string, nat>): Result<seq<int>, Error> {
    var es := Traverse(t, [], 0);
    var data :- TableData(t, completions, es, |es|);
    TraverseWithin(t);
    SerializeTable(data, es, cm)
  }

  /** Once the offset loop fails it fails the same way to the end. */
  lemma {:induction false} OffsetLoopErrorStays(data: seq<seq<int>>, es: seq<Entry>, cm: map<char, int>, k: nat)
    requires |data| == |es| && k <= |es| && LinksWithin(es)
    requires OffsetLoop(data, es, cm, k).Err?
    ensures OffsetLoop(data, es, cm, |es|) == OffsetLoop(data, es, cm, k)
    decreases |es| - k
  {
    if k < |es| {
      OffsetLoopErrorStays(data, es, cm, k + 1);
    }
  }

  /**
   * serialize_trie: lays out the trie's table, computes the offset of each
   * entry in one loop and collects the words of all entries in another.
   */
  method SerializeTrie(t: Trie, cm: map<char, int>, completions: map<string, nat>) returns (r: Result<seq<int>, Error>)
    ensures r == TrieWords(t, cm, completions)
  {
    var es := Traverse(t, [], 0);
    var data :- TableData(t, completions, es, |es|);
    TraverseWithin(t);
    var loop :- ComputeOffsets(data, es, cm);
    var words := CollectWords(data, es, cm, loop.0, loop.1);
    return Ok(words);
  }

  /** The offset loop: each entry's offset is the running total, which must stay within 16 bits. */
  method ComputeOffsets(data: seq<seq<int>>, es: seq<Entry>, cm: map<char, int>) returns (r: Result<(seq<int>, int), Error>)
    requires |data| == |es| && LinksWithin(es)
    ensures r == OffsetLoop(data, es, cm, |es|)
  {
    var offsets := Zeros(|es|);
    var total := 0;
    var i := 0;
    while i < |es|
      invariant i <= |es| && |offsets| == |es|
      invariant OffsetLoop(data, es, cm, i) == Ok((offsets[..i], total))
      invariant forall j :: i <= j < |es| ==> offsets[j] == 0
    {
      var current := offsets[i := total];
      OffsetLoopNext(data, es, cm, i, offsets, total);
      var serialized := Serialize(data[i], es[i], current, cm);
      if serialized.Err? {
        OffsetLoopErrorStays(data, es, cm, i + 1);
        return Err(serialized.error);
      }
      offsets := current;
      total := total + |serialized.value|;
      if total > MAX_OFFSET {
        OffsetLoopErrorStays(data, es, cm, i + 1);
        return Err(TableTooLarge(total));
      }
      i := i + 1;
    }
    assert offsets[..i] == offsets;
    return Ok((offsets, total));
  }

  /**
   * One turn of the offset loop on the method's offsets list, in which the
   * entries not reached yet still hold 0: the entry gets the total as its
   * offset and is serialised with that list.
   */
  lemma OffsetLoopNext(data: seq<seq<int>>, es: seq<Entry>, cm: map<char, int>, i: nat, offsets: seq<int>, total: int)
    requires |data| == |es| && i < |es| && LinksWithin(es) && |offsets| == |es|
    requires OffsetLoop(data, es, cm, i) == Ok((offsets[..i], total))
    requires forall j :: i <= j < |es| ==> offsets[j] == 0
    ensures var current := offsets[i := total];
      && LinksBelow(es[i].links, |current|)
      && OffsetLoop(data, es, cm, i + 1) == match Serialize(data[i], es[i], current, cm)
           case Err(e) => Err(e)
           case Ok(w) => if total + |w| > MAX_OFFSET then Err(TableTooLarge(total + |w|)) else Ok((current[..i + 1], total + |w|))
  {
    var current := offsets[i := total];
    assert current == offsets[..i] + [total] + Zeros(|es| - (i + 1));
    assert current[..i + 1] == offsets[..i] + [total];
    assert LinksBelow(es[i].links, |current|);
  }

  /** The final list comprehension, which cannot fail once the offsets are known. */
  method CollectWords(data: seq<seq<int>>, es: seq<Entry>, cm: map<char, int>, offsets: seq<int>, total: int) returns (words: seq<int>)
    requires |data| == |es| && LinksWithin(es)
    requires OffsetLoop(data, es, cm, |es|) == Ok((offsets, total))
    ensures Flatten(data, es, offsets, cm, |es|) == Ok(words)
  {
    words := [];
    var j := 0;
    while j < |es|
      invariant j <= |es| && Flatten(data, es, offsets, cm, j) == Ok(words)
    {
      FlattenLayout(data, es, cm, offsets, total, j + 1);
      assert LinksBelow(es[j].links, |offsets|);
      words := words + Serialize(data[j], es[j], offsets, cm).value;
      j := j + 1;
    }
  }

  /**
   * A chain entry's child is the very next entry, and its words start right
   * after the chain's closing 0: the chain needs no link word.
   */
  lemma ChainChildFollows(data: seq<seq<int>>, es: seq<Entry>, cm: map<char, int>, offsets: seq<int>, total: int, i: nat)
    requires |data| == |es| && AllLinksOk(es, 0) && LinksWithin(es)
    requires OffsetLoop(data, es, cm, |es|) == Ok((offsets, total))
    requires i < |es| && |es[i].links| == 1
    ensures i + 1 < |es| && es[i + 1].node == es[i].node + es[i].chars
    ensures Serialize(data[i], es[i], offsets, cm).Ok?
    ensures offsets[i + 1] == offsets[i] + |Serialize(data[i], es[i], offsets, cm).value|
  {
    assert LinksOk(es, 0, i);
    OffsetAt(data, es, cm, offsets, total, i);
  }

  /**
   * The k-th link word of a branch entry is the offset of the entry of the
   * child under its k-th character.
   */
  lemma BranchLinkTarget(data: seq<seq<int>>, es: seq<Entry>, cm: map<char, int>, offsets: seq<int>, total: int, i: nat, k: nat)
    requires |data| == |es| && AllLinksOk(es, 0) && LinksWithin(es)
    requires OffsetLoop(data, es, cm, |es|) == Ok((offsets, total))
    requires i < |es| && |es[i].links| >= 2 && k < |es[i].links|
    ensures Serialize(data[i], es[i], offsets, cm).Ok?
    ensures var w := Serialize(data[i], es[i], offsets, cm).value;
      var child := es[i].links[k];
      && |data[i]| + 2 * k + 1 < |w|
      && k < |es[i].chars| && i < child < |es| && es[child].node == es[i].node + [es[i].chars[k]]
      && w[|data[i]| + 2 * k + 1] == offsets[child]
  {
    var e := es[i];
    assert LinksOk(es, 0, i);
    assert |e.chars| == |e.links|;
    var child := e.links[k];
    assert i < child < |es| && es[child].node == e.node + [e.chars[k]];
    OffsetAt(data, es, cm, offsets, total, i);
    SerializeLinkWord(data[i], e, offsets, cm, k);
  }
}
