/**
 * The Python `str` built-ins the generator relies on, stated over `seq<char>`:
 * strip, find, split with maxsplit 1, slicing-based reverse, replace, and the
 * character-by-character common-prefix loop of complete_node.
 */
module PyStr {

  /** Characters for which Python's str.isspace() holds (what str.strip() removes). */
  predicate IsSpace(c: char) {
    ('\t' <= c <= '\r') || ('\U{1c}' <= c <= ' ') || c == '\U{85}' || c == '\U{a0}' ||
    c == '\U{1680}' || ('\U{2000}' <= c <= '\U{200a}') || c == '\U{2028}' || c == '\U{2029}' ||
    c == '\U{202f}' || c == '\U{205f}' || c == '\U{3000}'
  }

  /** The number of whitespace characters that start `s`. */
  function LeadingSpaces(s: string): (i: nat)
    ensures i <= |s|
    ensures forall k :: 0 <= k < i ==> IsSpace(s[k])
    ensures i < |s| ==> !IsSpace(s[i])
  {
    if s == [] || !IsSpace(s[0]) then 0 else 1 + LeadingSpaces(s[1..])
  }

  /** The index where the whitespace that ends `s` begins. */
  function TrailingStart(s: string): (j: nat)
    ensures j <= |s|
    ensures forall k :: j <= k < |s| ==> IsSpace(s[k])
    ensures 0 < j ==> !IsSpace(s[j - 1])
  {
    if s == [] || !IsSpace(s[|s| - 1]) then |s| else TrailingStart(s[..|s| - 1])
  }

  /** str.strip(): `s` without the whitespace at either end. */
  function Strip(s: string): (r: string)
    ensures LeadingSpaces(s) == |s| ==> r == []
    ensures LeadingSpaces(s) < |s| ==>
      LeadingSpaces(s) < TrailingStart(s) && r == s[LeadingSpaces(s)..TrailingStart(s)]
    ensures r != [] ==> !IsSpace(r[0]) && !IsSpace(r[|r| - 1])
  {
    var i := LeadingSpaces(s);
    if i == |s| then []
    else
      var j := TrailingStart(s);
      s[i..j]
  }

  /** A string with no whitespace at either end is its own strip. */
  lemma StripNoSpace(s: string)
    requires s == [] || (!IsSpace(s[0]) && !IsSpace(s[|s| - 1]))
    ensures Strip(s) == s
  {
    if s != [] {
      assert LeadingSpaces(s) == 0;
      assert TrailingStart(s) == |s|;
      assert s[0..|s|] == s;
    }
  }

  /** `sub` occurs in `s` at index `i`. */
  predicate OccursAt(s: string, sub: string, i: nat) {
    i + |sub| <= |s| && s[i..i + |sub|] == sub
  }

  function FindFrom(s: string, sub: string, i: nat): (r: int)
    requires i <= |s|
    ensures r == -1 || (i <= r && OccursAt(s, sub, r))
    ensures r == -1 ==> forall k :: i <= k <= |s| ==> !OccursAt(s, sub, k)
    ensures r != -1 ==> forall k :: i <= k < r ==> !OccursAt(s, sub, k)
    decreases |s| - i
  {
    if OccursAt(s, sub, i) then i
    else if i == |s| then -1
    else FindFrom(s, sub, i + 1)
  }

  /** str.find(sub): the lowest index at which `sub` occurs in `s`, or -1. */
  function Find(s: string, sub: string): (r: int)
    ensures -1 <= r <= |s|
    ensures r == -1 <==> forall k :: 0 <= k <= |s| ==> !OccursAt(s, sub, k)
    ensures r != -1 ==> OccursAt(s, sub, r) && forall k :: 0 <= k < r ==> !OccursAt(s, sub, k)
  {
    FindFrom(s, sub, 0)
  }

  /** line.find(prefix) == 0 holds exactly when `prefix` starts `line`. */
  lemma FindZeroIsPrefix(line: string, prefix: string)
    ensures Find(line, prefix) == 0 <==> prefix <= line
  {
    if prefix <= line { assert line[0..|prefix|] == prefix; assert OccursAt(line, prefix, 0); }
  }

  /** The first occurrence is the one Find reports. */
  lemma FindIsFirst(s: string, sub: string, i: nat)
    requires OccursAt(s, sub, i)
    requires forall k :: 0 <= k < i ==> !OccursAt(s, sub, k)
    ensures Find(s, sub) == i
  {
  }

  /** str.split(sep, 1) for a non-empty separator. */
  function SplitOnce(s: string, sep: string): (r: seq<string>)
    requires sep != []
    ensures Find(s, sep) == -1 ==> r == [s]
    ensures Find(s, sep) != -1 ==>
      && |r| == 2 && s == r[0] + sep + r[1]
      && |r[0]| == Find(s, sep)
  {
    var i := Find(s, sep);
    if i == -1 then [s]
    else
      assert s == s[..i] + s[i..i + |sep|] + s[i + |sep|..];
      [s[..i], s[i + |sep|..]]
  }

  /** s[::-1] */
  function Reverse(s: string): (r: string)
    ensures |r| == |s| && forall k :: 0 <= k < |s| ==> r[k] == s[|s| - 1 - k]
  {
    if s == [] then [] else Reverse(s[1..]) + [s[0]]
  }

  lemma {:induction false} ReverseReverse(s: string)
    ensures Reverse(Reverse(s)) == s
  {
    var r := Reverse(s);
    assert |Reverse(r)| == |s|;
    forall k | 0 <= k < |s| ensures Reverse(r)[k] == s[k] {
      assert Reverse(r)[k] == r[|s| - 1 - k];
    }
  }

  /** Reversing a prefix of the reversal gives the matching suffix. */
  lemma ReversePrefixIsSuffix(s: string, j: nat)
    requires j <= |s|
    ensures Reverse(s)[..j] == Reverse(s[|s| - j..])
  {
    var a, b := Reverse(s)[..j], Reverse(s[|s| - j..]);
    forall k | 0 <= k < j ensures a[k] == b[k] {
      assert a[k] == s[|s| - 1 - k];
      assert b[k] == s[|s| - j..][j - 1 - k];
    }
  }

  /** s[:-1]: all but the last character (nothing for the empty string). */
  function ButLast<T>(s: seq<T>): (r: seq<T>)
    ensures s != [] ==> s == r + [s[|s| - 1]]
    ensures s == [] ==> r == []
  {
    if s == [] then [] else s[..|s| - 1]
  }

  /**
   * The index a slice start m denotes in a list of length n: a negative start
   * counts from the end, and both are clamped to [0, n].
   */
  function SliceStart(n: nat, m: int): (k: nat)
    ensures k <= n
    ensures m < 0 ==> k as int == if n + m < 0 then 0 else n + m
    ensures 0 <= m ==> k as int == if m < n then m else n
  {
    if m < 0 then (if n + m < 0 then 0 else n + m) else (if m < n then m else n)
  }

  /** del l[m:]: keeps the part before slice start m. */
  function DeleteFrom<T>(l: seq<T>, m: int): (r: seq<T>)
    ensures r == l[..SliceStart(|l|, m)]
  {
    l[..SliceStart(|l|, m)]
  }

  /** s.replace(from, to) for single characters. */
  function ReplaceChar(s: string, from: char, to: char): (r: string)
    ensures |r| == |s|
    ensures forall k :: 0 <= k < |s| ==> r[k] == (if s[k] == from then to else s[k])
  {
    if s == [] then [] else [if s[0] == from then to else s[0]] + ReplaceChar(s[1..], from, to)
  }

  /** The length of the longest common prefix of `a` and `b`. */
  function CommonPrefixLength(a: string, b: string): (i: nat)
    ensures i <= |a| && i <= |b|
    ensures a[..i] == b[..i]
    ensures i == |a| || i == |b| || a[i] != b[i]
  {
    if a == [] || b == [] || a[0] != b[0] then 0
    else
      var n := CommonPrefixLength(a[1..], b[1..]);
      assert a[..n + 1] == [a[0]] + a[1..][..n];
      assert b[..n + 1] == [b[0]] + b[1..][..n];
      n + 1
  }

  /**
   * The while loop of complete_node: advance `i` while the characters agree.
   * It computes the longest common prefix.
   */
  method CommonPrefixLoop(a: string, b: string) returns (i: nat)
    ensures i == CommonPrefixLength(a, b)
  {
    i := 0;
    while i < |a| && i < |b| && a[i] == b[i]
      invariant i <= |a| && i <= |b|
      invariant a[..i] == b[..i]
    {
      assert a[..i + 1] == a[..i] + [a[i]];
      assert b[..i + 1] == b[..i] + [b[i]];
      i := i + 1;
    }
    CommonPrefixUnique(a, b, i);
  }

  /** A shared prefix is no longer than the longest common prefix. */
  lemma {:induction false} CommonPrefixAtLeast(a: string, b: string, k: nat)
    requires k <= |a| && k <= |b| && a[..k] == b[..k]
    ensures k <= CommonPrefixLength(a, b)
  {
    if k > 0 {
      assert a[0] == a[..k][0] == b[..k][0] == b[0];
      assert a[1..][..k - 1] == a[..k][1..] == b[..k][1..] == b[1..][..k - 1];
      CommonPrefixAtLeast(a[1..], b[1..], k - 1);
    }
  }

  /** The three conditions on a common prefix length determine it. */
  lemma CommonPrefixUnique(a: string, b: string, i: nat)
    requires i <= |a| && i <= |b| && a[..i] == b[..i]
    requires i == |a| || i == |b| || a[i] != b[i]
    ensures i == CommonPrefixLength(a, b)
  {
    var n := CommonPrefixLength(a, b);
    assert forall k :: 0 <= k < i ==> a[k] == a[..i][k] == b[..i][k] == b[k];
    assert forall k :: 0 <= k < n ==> a[k] == a[..n][k] == b[..n][k] == b[k];
  }
}
