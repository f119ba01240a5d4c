/**
 * serialize_outputs of generator/sequence_transform_data.py: all outputs are
 * packed into one character pool, longest first, and an output that already
 * occurs somewhere in the pool is not added again but pointed into.
 */
module Pool {
  import opened Wrappers
  import opened Errors
  import opened PyStr

  /** completions_str, completions_map and max_completion_len. */
  datatype Pool = Pool(text: string, offsets: map<string, nat>, longest: nat)

  /**
   * The pool after placing the outputs of `order` one by one: an output the
   * pool already contains is mapped to its first occurrence, any other is
   * appended and mapped to where it starts.
   */
  function PoolOf(order: seq<string>): Pool {
    if order == [] then Pool([], map[], 0)
    else
      var p := PoolOf(order[..|order| - 1]);
      var o := order[|order| - 1];
      var i := Find(p.text, o);
      var longest := if p.longest < |o| then |o| else p.longest;
      if i == -1 then Pool(p.text + o, p.offsets[o := |p.text|], longest)
      else Pool(p.text, p.offsets[o := i], longest)
  }

  /** `o` occurs somewhere in `s`. */
  predicate Contains(s: string, o: string) {
    exists i :: 0 <= i <= |s| && OccursAt(s, o, i)
  }

  /**
   * Placing one more output: the pool is unchanged when the output already
   * occurs in it, and otherwise grows by exactly the output.
   */
  lemma PoolGrowth(order: seq<string>, o: string)
    ensures var before := PoolOf(order).text;
      PoolOf(order + [o]).text == if Contains(before, o) then before else before + o
  {
    var a := order + [o];
    assert a[..|a| - 1] == order;
    var before := PoolOf(order).text;
    if Contains(before, o) {
      var i :| 0 <= i <= |before| && OccursAt(before, o, i);
      assert Find(before, o) != -1;
    }
  }

  /** The pool only ever grows at its end. */
  lemma {:induction false} PoolPrefix(order: seq<string>, k: nat)
    requires k <= |order|
    ensures PoolOf(order[..k]).text <= PoolOf(order).text
    decreases |order| - k
  {
    if k < |order| {
      PoolPrefix(order, k + 1);
      var a := order[..k + 1];
      assert a[..|a| - 1] == order[..k];
    } else {
      assert order[..k] == order;
    }
  }

  /** The pool spells out `o` at the offset the map gives it. */
  predicate Spells(p: Pool, o: string) {
    o in p.offsets && p.offsets[o] + |o| <= |p.text| && p.text[p.offsets[o]..p.offsets[o] + |o|] == o
  }

  /** The map holds exactly the outputs placed. */
  lemma {:induction false} PoolKeys(order: seq<string>)
    ensures PoolOf(order).offsets.Keys == set o | o in order
  {
    if order != [] {
      var init := order[..|order| - 1];
      PoolKeys(init);
      assert order == init + [order[|order| - 1]];
      assert (set o | o in order) == (set o | o in init) + {order[|order| - 1]};
    }
  }

  /** Every output placed is mapped to an offset where the pool spells it out. */
  lemma {:induction false} PoolPlaces(order: seq<string>)
    ensures forall o :: o in order ==> Spells(PoolOf(order), o)
  {
    if order != [] {
      var init := order[..|order| - 1];
      var last := order[|order| - 1];
      PoolPlaces(init);
      var p0 := PoolOf(init);
      var p := PoolOf(order);
      assert order == init + [last];
      PlacesLast(init, last);
      forall o | o in order && o != last ensures Spells(p, o) {
        assert o in init;
        SpellsGrow(p0, p, o);
      }
    }
  }

  /** Placing "cat" and then "at": "at" is found inside "cat" at offset 1 and the pool stays 3 characters long. */
  lemma CatThenAt()
    ensures PoolOf(["cat", "at"]) == Pool("cat", map["cat" := 0, "at" := 1], 3)
  {
    var a: seq<string> := ["cat", "at"];
    assert a[..1] == ["cat"];
    assert ["cat"][..0] == [];
    assert Find([], "cat") == -1;
    var ca: string := "cat";
    assert ca[0..2][0] == 'c' != "at"[0];
    assert ca[1..3] == "at" by {
      assert |ca[1..3]| == 2 && ca[1..3][0] == 'a' && ca[1..3][1] == 't';
    }
    FindIsFirst(ca, "at", 1);
    assert PoolOf(["cat"]) == Pool("cat", map["cat" := 0], 3);
  }

  /** The output placed last is spelled out where the map says. */
  lemma PlacesLast(init: seq<string>, last: string)
    ensures Spells(PoolOf(init + [last]), last)
  {
    var a := init + [last];
    assert a[..|a| - 1] == init && a[|a| - 1] == last;
    var p0 := PoolOf(init);
    var i := Find(p0.text, last);
    if i == -1 {
      assert PoolOf(a) == Pool(p0.text + last, p0.offsets[last := |p0.text|], PoolOf(a).longest);
      assert (p0.text + last)[|p0.text|..|p0.text| + |last|] == last;
    } else {
      assert PoolOf(a) == Pool(p0.text, p0.offsets[last := i], PoolOf(a).longest);
      assert OccursAt(p0.text, last, i);
    }
  }

  /** An output spelled out in a pool stays so when the pool grows at its end and keeps its offset. */
  lemma SpellsGrow(p0: Pool, p: Pool, o: string)
    requires Spells(p0, o) && p0.text <= p.text && o in p.offsets && p.offsets[o] == p0.offsets[o]
    ensures Spells(p, o)
  {
    var i := p0.offsets[o];
    assert p.text[i..i + |o|] == p0.text[i..i + |o|];
  }

  /** The returned maximum is the length of the longest output placed (0 if none). */
  lemma {:induction false} PoolLongest(order: seq<string>)
    ensures forall o :: o in order ==> |o| <= PoolOf(order).longest
    ensures order == [] ==> PoolOf(order).longest == 0
    ensures order != [] ==> exists o :: o in order && |o| == PoolOf(order).longest
  {
    if order != [] {
      var init := order[..|order| - 1];
      PoolLongest(init);
      assert order == init + [order[|order| - 1]];
    }
  }

  /** `c` is a character of one of the outputs in `order`. */
  predicate CharOf(c: char, order: seq<string>) {
    exists o, j :: o in order && 0 <= j < |o| && o[j] == c
  }

  /** Every character of the pool is a character of some output placed. */
  lemma {:induction false} PoolChars(order: seq<string>)
    ensures forall k :: 0 <= k < |PoolOf(order).text| ==> CharOf(PoolOf(order).text[k], order)
  {
    if order != [] {
      var init := order[..|order| - 1];
      var last := order[|order| - 1];
      PoolChars(init);
      assert order == init + [last];
      var before := PoolOf(init).text;
      var text := PoolOf(order).text;
      assert text == before || text == before + last;
      forall k | 0 <= k < |text| ensures CharOf(text[k], order) {
        if k < |before| {
          assert text[k] == before[k];
          assert CharOf(before[k], init);
          var o, j :| o in init && 0 <= j < |o| && o[j] == before[k];
          assert o in order && 0 <= j < |o| && o[j] == text[k];
        } else {
          var j := k - |before|;
          assert text == before + last;
          assert last in order && 0 <= j < |last| && last[j] == text[k];
        }
      }
    }
  }

  predicate IsAscii(s: string) {
    forall k :: 0 <= k < |s| ==> s[k] as int < 128
  }

  /** list(bytes(s, 'ascii')): the character codes, or the encoding error. */
  function AsciiBytes(s: string): (r: Result<seq<int>, Error>)
    ensures r.Ok? <==> IsAscii(s)
    ensures r.Ok? ==> |r.value| == |s| && forall k :: 0 <= k < |s| ==> r.value[k] == s[k] as int
    ensures r.Err? ==> r.error == NonAsciiOutput(s)
  {
    if IsAscii(s) then Ok(seq(|s|, k requires 0 <= k < |s| => s[k] as int)) else Err(NonAsciiOutput(s))
  }

  /** The pool encodes exactly when every output placed is ASCII. */
  lemma PoolAsciiIff(order: seq<string>)
    ensures IsAscii(PoolOf(order).text) <==> forall o :: o in order ==> IsAscii(o)
  {
    var p := PoolOf(order);
    PoolPlaces(order);
    PoolChars(order);
    assert forall o :: o in order ==> Spells(p, o);
    if IsAscii(p.text) {
      forall o | o in order ensures IsAscii(o) {
        forall k | 0 <= k < |o| ensures o[k] as int < 128 {
          assert Spells(p, o);
          assert o[k] == p.text[p.offsets[o]..p.offsets[o] + |o|][k] == p.text[p.offsets[o] + k];
        }
      }
    }
    if forall o :: o in order ==> IsAscii(o) {
      forall k | 0 <= k < |p.text| ensures p.text[k] as int < 128 {
        assert CharOf(p.text[k], order);
        var o, j :| o in order && 0 <= j < |o| && o[j] == p.text[k];
      }
    }
  }

  /** A set of strings has a longest element. */
  lemma LongestExists(s: set<string>)
    requires s != {}
    ensures exists o :: o in s && forall x :: x in s ==> |x| <= |o|
    decreases |s|
  {
    var y :| y in s;
    if s != {y} {
      LongestExists(s - {y});
      var m :| m in s - {y} && forall x :: x in s - {y} ==> |x| <= |m|;
      var r := if |m| < |y| then y else m;
      forall x | x in s ensures |x| <= |r| {
        if x != y {
          assert x in s - {y};
        }
      }
    } else {
      assert forall x :: x in s ==> |x| <= |y|;
    }
  }

  /** `order` lists the set `outputs`, each once, longest first. */
  predicate LongestFirst(order: seq<string>, outputs: set<string>) {
    && (forall i :: 0 <= i < |order| ==> order[i] in outputs)
    && (forall o :: o in outputs ==> o in order)
    && (forall i, j :: 0 <= i < j < |order| ==> order[i] != order[j] && |order[i]| >= |order[j]|)
  }

  /**
   * Whatever order of equal lengths is used, the pool of a longest-first
   * order maps exactly the outputs, spells each at its offset, and its
   * maximum is the length of the longest output.
   */
  lemma LongestFirstPool(order: seq<string>, outputs: set<string>)
    requires LongestFirst(order, outputs)
    ensures PoolOf(order).offsets.Keys == outputs
    ensures forall o :: o in outputs ==> Spells(PoolOf(order), o)
    ensures forall o :: o in outputs ==> |o| <= PoolOf(order).longest
    ensures outputs != {} ==> exists o :: o in outputs && |o| == PoolOf(order).longest
    ensures outputs == {} ==> PoolOf(order).longest == 0
  {
    PoolKeys(order);
    PoolPlaces(order);
    PoolLongest(order);
    assert (set o | o in order) == outputs;
    if order == [] {
      assert outputs == {};
    }
  }

  /**
   * sorted(outputs, key=len, reverse=True): the outputs, each once, longest
   * first. Outputs of equal length come in the set's iteration order, which
   * the source leaves to Python; here any order of them may come out.
   */
  method LongestFirstOrder(outputs: set<string>) returns (order: seq<string>)
    ensures LongestFirst(order, outputs)
  {
    var remaining := outputs;
    order := [];
    while remaining != {}
      invariant remaining <= outputs
      invariant forall i :: 0 <= i < |order| ==> order[i] in outputs && order[i] !in remaining
      invariant forall o :: o in outputs ==> o in order || o in remaining
      invariant forall i, j :: 0 <= i < j < |order| ==> order[i] != order[j] && |order[i]| >= |order[j]|
      invariant forall i, x :: 0 <= i < |order| && x in remaining ==> |order[i]| >= |x|
      decreases |remaining|
    {
      LongestExists(remaining);
      var o :| o in remaining && forall x :: x in remaining ==> |x| <= |o|;
      order := order + [o];
      remaining := remaining - {o};
    }
  }

  /**
   * serialize_outputs: places the outputs longest first (`order` is the
   * order this run used) and returns the pool's bytes, the offset of each
   * output and the longest length.
   */
  method SerializeOutputs(outputs: set<string>) returns (r: Result<(seq<int>, map<string, nat>, nat), Error>, order: seq<string>)
    ensures LongestFirst(order, outputs)
    ensures var p := PoolOf(order);
      r == (match AsciiBytes(p.text)
        case Ok(bytes) => Ok((bytes, p.offsets, p.longest))
        case Err(e) => Err(e))
  {
    order := LongestFirstOrder(outputs);
    var text: string := [];
    var offsets: map<string, nat> := map[];
    var offset: nat := 0;
    var longest: nat := 0;
    var k := 0;
    while k < |order|
      invariant k <= |order|
      invariant PoolOf(order[..k]) == Pool(text, offsets, longest)
      invariant offset == |text|
    {
      var o := order[k];
      var a := order[..k + 1];
      assert a[..|a| - 1] == order[..k] && a[|a| - 1] == o;
      longest := if longest < |o| then |o| else longest;
      var i := Find(text, o);
      if i == -1 {
        offsets := offsets[o := offset];
        text := text + o;
        offset := offset + |o|;
      } else {
        offsets := offsets[o := i];
      }
      k := k + 1;
    }
    assert order[..k] == order;
    var bytes :- AsciiBytes(text);
    r := Ok((bytes, offsets, longest));
  }
}
