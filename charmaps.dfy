/**
 * The alphabet map (character -> triecode) and the output-function map of
 * generator/sequence_transform_data.py.
 */
module CharMaps {
  import opened Wrappers
  import opened Errors
  import Bits

  const KC_A: nat := 0x04
  const KC_SPC: nat := 0x2c
  const KC_MINUS: nat := 0x2D
  const KC_SEMICOLON: nat := 0x33
  const KC_1: nat := 0x1E
  const MOD_LSFT: nat := 0x0200
  const KC_MAGIC_0: nat := 0x0100
  const OUTPUT_FUNC_1: nat := 1
  const OUTPUT_FUNC_COUNT_MAX: nat := 7
  /** digits[1:] + digits[0]: the number row of a keyboard. */
  const QMK_DIGITS: string := "1234567890"

  /** S(code) = MOD_LSFT | code. */
  function Shifted(code: nat): nat {
    Bits.OrBit(code, MOD_LSFT)
  }

  /** generate_range: the characters of `chars` numbered from `start`. */
  function GenerateRange(start: int, chars: string): (r: seq<(char, int)>)
    ensures |r| == |chars|
    ensures forall i :: 0 <= i < |chars| ==> r[i] == (chars[i], start + i)
  {
    seq(|chars|, i requires 0 <= i < |chars| => (chars[i], start + i))
  }

  /** dict(pairs): a later pair for the same key replaces an earlier one. */
  function DictOf(ps: seq<(char, int)>): (m: map<char, int>)
  {
    if ps == [] then map[]
    else
      var init := ps[..|ps| - 1];
      var m := DictOf(init)[ps[|ps| - 1].0 := ps[|ps| - 1].1];
      assert ps == init + [ps[|ps| - 1]];
      m
  }

  /** The keys of dict(pairs) are the first components of the pairs. */
  lemma {:induction false} DictOfKeys(ps: seq<(char, int)>)
    ensures DictOf(ps).Keys == set p | p in ps :: p.0
  {
    if ps != [] {
      var init := ps[..|ps| - 1];
      DictOfKeys(init);
      assert ps == init + [ps[|ps| - 1]];
    }
  }

  /** Every value of dict(pairs) comes from one of the pairs. */
  lemma {:induction false} DictOfValueFrom(ps: seq<(char, int)>, k: char)
    requires k in DictOf(ps)
    ensures exists i :: 0 <= i < |ps| && ps[i] == (k, DictOf(ps)[k])
  {
    var last := ps[|ps| - 1];
    if last.0 != k {
      var init := ps[..|ps| - 1];
      DictOfValueFrom(init, k);
      var i :| 0 <= i < |init| && init[i] == (k, DictOf(init)[k]);
      assert ps[i] == init[i];
    }
  }

  /** The value dict() keeps for a key is that of its last pair. */
  lemma {:induction false} DictOfLast(ps: seq<(char, int)>, i: nat)
    requires i < |ps|
    requires forall j :: i < j < |ps| ==> ps[j].0 != ps[i].0
    ensures ps[i].0 in DictOf(ps) && DictOf(ps)[ps[i].0] == ps[i].1
  {
    if i < |ps| - 1 {
      DictOfLast(ps[..|ps| - 1], i);
    }
  }

  /** Pairs that do not mention a key leave its value alone. */
  lemma {:induction false} DictOfAppend(a: seq<(char, int)>, b: seq<(char, int)>, k: char)
    requires k in DictOf(a)
    requires forall p :: p in b ==> p.0 != k
    ensures k in DictOf(a + b) && DictOf(a + b)[k] == DictOf(a)[k]
  {
    if b == [] {
      assert a + b == a;
    } else {
      var b' := b[..|b| - 1];
      assert (a + b)[..|a + b| - 1] == a + b';
      assert (a + b)[|a + b| - 1] == b[|b| - 1];
      DictOfAppend(a, b', k);
    }
  }

  /** A key that a later list mentions takes its value from that list. */
  lemma {:induction false} DictOfOverride(a: seq<(char, int)>, b: seq<(char, int)>, k: char)
    requires k in DictOf(b)
    ensures k in DictOf(a + b) && DictOf(a + b)[k] == DictOf(b)[k]
  {
    var b' := b[..|b| - 1];
    assert (a + b)[..|a + b| - 1] == a + b';
    assert (a + b)[|a + b| - 1] == b[|b| - 1];
    if b[|b| - 1].0 != k {
      assert k in DictOf(b');
      DictOfOverride(a, b', k);
    }
  }

  /** The keys of a range are the characters it numbers. */
  lemma RangeKeys(start: int, chars: string, k: char)
    requires k !in chars
    ensures forall p :: p in GenerateRange(start, chars) ==> p.0 != k
  {
  }

  /** The letters a..z with their keycodes KC_A..KC_Z. */
  function Letters(): (r: seq<(char, int)>)
    ensures |r| == 26
    ensures forall i :: 0 <= i < 26 ==> r[i] == ((('a' as int) + i) as char, KC_A + i)
  {
    seq(26, i requires 0 <= i < 26 => ((('a' as int) + i) as char, KC_A + i))
  }

  /** The punctuation rows, `shiftedPunct` being the row numbered from S(KC_MINUS). */
  function PunctuationPairs(shiftedPunct: string): seq<(char, int)> {
    GenerateRange(KC_SEMICOLON, ";'`,./") +
    GenerateRange(Shifted(KC_SEMICOLON), ":\"~<>?") +
    GenerateRange(KC_MINUS, "-=[]\\") +
    GenerateRange(Shifted(KC_MINUS), shiftedPunct)
  }

  /** The digit rows, the magic characters, the word-break character and the letters. */
  function RemainingPairs(magic: string, wordbreak: char): seq<(char, int)> {
    GenerateRange(KC_1, QMK_DIGITS) +
    GenerateRange(Shifted(KC_1), "!@#$%^&*()") +
    GenerateRange(KC_MAGIC_0, magic) +
    [(wordbreak, KC_SPC)] +
    Letters()
  }

  /** The list of pairs generate_context_char_map hands to dict(). */
  function ContextPairs(magic: string, wordbreak: char, shiftedPunct: string): seq<(char, int)> {
    PunctuationPairs(shiftedPunct) + RemainingPairs(magic, wordbreak)
  }

  /**
   * generate_context_char_map as written: the source literal "_+\{\}|" is not an
   * escape sequence in Python, so it is the seven characters _ + \ { \ } |.
   */
  function ContextCharMapAsWritten(magic: string, wordbreak: char): map<char, int> {
    DictOf(ContextPairs(magic, wordbreak, "_+\\{\\}|"))
  }

  /** generate_context_char_map as intended: the shifted row is _ + { } |. */
  function ContextCharMap(magic: string, wordbreak: char): map<char, int> {
    DictOf(ContextPairs(magic, wordbreak, "_+{}|"))
  }

  /** A punctuation character outside the configured characters is not remapped later. */
  lemma RemainingAvoid(magic: string, wordbreak: char, k: char)
    requires k !in magic && k != wordbreak
    requires k !in QMK_DIGITS && k !in "!@#$%^&*()" && !('a' <= k <= 'z')
    ensures forall p :: p in RemainingPairs(magic, wordbreak) ==> p.0 != k
  {
    RangeKeys(KC_1, QMK_DIGITS, k);
    RangeKeys(Shifted(KC_1), "!@#$%^&*()", k);
    RangeKeys(KC_MAGIC_0, magic, k);
    forall p | p in Letters() ensures p.0 != k {
      var i :| 0 <= i < 26 && Letters()[i] == p;
    }
  }

  /** The value of a punctuation character is decided by the punctuation rows. */
  lemma PunctuationDecides(magic: string, wordbreak: char, shiftedPunct: string, k: char)
    requires k in DictOf(PunctuationPairs(shiftedPunct))
    requires k !in magic && k != wordbreak
    requires k !in QMK_DIGITS && k !in "!@#$%^&*()" && !('a' <= k <= 'z')
    ensures k in DictOf(ContextPairs(magic, wordbreak, shiftedPunct))
    ensures DictOf(ContextPairs(magic, wordbreak, shiftedPunct))[k] == DictOf(PunctuationPairs(shiftedPunct))[k]
  {
    RemainingAvoid(magic, wordbreak, k);
    DictOfAppend(PunctuationPairs(shiftedPunct), RemainingPairs(magic, wordbreak), k);
  }

  /** ':' always takes S(KC_SEMICOLON) from its own row. */
  lemma PunctuationColon(shiftedPunct: string)
    requires ':' !in shiftedPunct
    ensures ':' in DictOf(PunctuationPairs(shiftedPunct))
    ensures DictOf(PunctuationPairs(shiftedPunct))[':'] == 0x233
  {
    var s1 := GenerateRange(KC_SEMICOLON, ";'`,./");
    var s2 := GenerateRange(Shifted(KC_SEMICOLON), ":\"~<>?");
    var s3 := GenerateRange(KC_MINUS, "-=[]\\");
    var s4 := GenerateRange(Shifted(KC_MINUS), shiftedPunct);
    DictOfLast(s2, 0);
    DictOfOverride(s1, s2, ':');
    RangeKeys(KC_MINUS, "-=[]\\", ':');
    DictOfAppend(s1 + s2, s3, ':');
    RangeKeys(Shifted(KC_MINUS), shiftedPunct, ':');
    DictOfAppend(s1 + s2 + s3, s4, ':');
  }

  /** The character at the last position of the shifted row takes its code from it. */
  lemma PunctuationShiftedRow(shiftedPunct: string, i: nat)
    requires i < |shiftedPunct|
    requires forall j :: i < j < |shiftedPunct| ==> shiftedPunct[j] != shiftedPunct[i]
    ensures shiftedPunct[i] in DictOf(PunctuationPairs(shiftedPunct))
    ensures DictOf(PunctuationPairs(shiftedPunct))[shiftedPunct[i]] == Shifted(KC_MINUS) + i
  {
    var s1 := GenerateRange(KC_SEMICOLON, ";'`,./");
    var s2 := GenerateRange(Shifted(KC_SEMICOLON), ":\"~<>?");
    var s3 := GenerateRange(KC_MINUS, "-=[]\\");
    var s4 := GenerateRange(Shifted(KC_MINUS), shiftedPunct);
    DictOfLast(s4, i);
    DictOfOverride(s1 + s2 + s3, s4, shiftedPunct[i]);
  }

  /** '\\' keeps its unshifted code when the shifted row does not repeat it. */
  lemma PunctuationBackslash(shiftedPunct: string)
    requires '\\' !in shiftedPunct
    ensures '\\' in DictOf(PunctuationPairs(shiftedPunct))
    ensures DictOf(PunctuationPairs(shiftedPunct))['\\'] == KC_MINUS + 4
  {
    var s1 := GenerateRange(KC_SEMICOLON, ";'`,./");
    var s2 := GenerateRange(Shifted(KC_SEMICOLON), ":\"~<>?");
    var s3 := GenerateRange(KC_MINUS, "-=[]\\");
    var s4 := GenerateRange(Shifted(KC_MINUS), shiftedPunct);
    DictOfLast(s3, 4);
    DictOfOverride(s1 + s2, s3, '\\');
    RangeKeys(Shifted(KC_MINUS), shiftedPunct, '\\');
    DictOfAppend(s1 + s2 + s3, s4, '\\');
  }

  /**
   * As written, '|' receives S(KC_SEMICOLON), the triecode of ':' (so the two
   * characters are indistinguishable in the trie), and '\\' receives the shifted
   * backslash code S(0x31) instead of 0x31.
   */
  lemma AsWrittenPipeCollidesWithColon(magic: string, wordbreak: char)
    requires '|' !in magic && ':' !in magic && '\\' !in magic
    requires wordbreak != '|' && wordbreak != ':' && wordbreak != '\\'
    ensures '|' in ContextCharMapAsWritten(magic, wordbreak) && ':' in ContextCharMapAsWritten(magic, wordbreak)
    ensures '\\' in ContextCharMapAsWritten(magic, wordbreak)
    ensures ContextCharMapAsWritten(magic, wordbreak)['|'] == 0x233
    ensures ContextCharMapAsWritten(magic, wordbreak)[':'] == 0x233
    ensures ContextCharMapAsWritten(magic, wordbreak)['\\'] == 0x231
  {
    var sp := "_+\\{\\}|";
    PunctuationShiftedRow(sp, 6);
    PunctuationDecides(magic, wordbreak, sp, '|');
    PunctuationColon(sp);
    PunctuationDecides(magic, wordbreak, sp, ':');
    PunctuationShiftedRow(sp, 4);
    PunctuationDecides(magic, wordbreak, sp, '\\');
  }

  /**
   * As intended, each of _ + { } | gets the shifted code of the key it shares
   * with - = [ ] \\, '\\' keeps its unshifted code, and '|' and ':' differ.
   */
  lemma ShiftedRowMatchesUnshifted(magic: string, wordbreak: char)
    requires forall c :: c in "_+{}|" ==> c !in magic && c != wordbreak
    requires '\\' !in magic && ':' !in magic
    requires wordbreak != '\\' && wordbreak != ':'
    ensures forall i :: 0 <= i < 5 ==>
      "_+{}|"[i] in ContextCharMap(magic, wordbreak) &&
      ContextCharMap(magic, wordbreak)["_+{}|"[i]] == Shifted(KC_MINUS + i)
    ensures '\\' in ContextCharMap(magic, wordbreak) && '|' in ContextCharMap(magic, wordbreak)
    ensures ':' in ContextCharMap(magic, wordbreak)
    ensures ContextCharMap(magic, wordbreak)['\\'] == KC_MINUS + 4
    ensures ContextCharMap(magic, wordbreak)['|'] != ContextCharMap(magic, wordbreak)[':']
  {
    CorrectedShiftedRow(magic, wordbreak);
    assert "_+{}|"[4] == '|';
    var sp := "_+{}|";
    PunctuationBackslash(sp);
    PunctuationDecides(magic, wordbreak, sp, '\\');
    PunctuationColon(sp);
    PunctuationDecides(magic, wordbreak, sp, ':');
  }

  /** Each of _ + { } | gets the shifted code of the fifth to ninth punctuation key. */
  lemma CorrectedShiftedRow(magic: string, wordbreak: char)
    requires forall c :: c in "_+{}|" ==> c !in magic && c != wordbreak
    ensures forall i :: 0 <= i < 5 ==>
      "_+{}|"[i] in ContextCharMap(magic, wordbreak) &&
      ContextCharMap(magic, wordbreak)["_+{}|"[i]] == Shifted(KC_MINUS + i)
  {
    var sp := "_+{}|";
    forall i | 0 <= i < 5
      ensures sp[i] in ContextCharMap(magic, wordbreak)
      ensures ContextCharMap(magic, wordbreak)[sp[i]] == Shifted(KC_MINUS + i)
    {
      PunctuationShiftedRow(sp, i);
      PunctuationDecides(magic, wordbreak, sp, sp[i]);
    }
  }

  /** The letters come last, so every letter keeps its keycode whatever the configuration. */
  lemma LettersKeepTheirCodes(magic: string, wordbreak: char, shiftedPunct: string, i: nat)
    requires i < 26
    ensures ((('a' as int) + i) as char) in DictOf(ContextPairs(magic, wordbreak, shiftedPunct))
    ensures DictOf(ContextPairs(magic, wordbreak, shiftedPunct))[(('a' as int) + i) as char] == KC_A + i
  {
    var ps := ContextPairs(magic, wordbreak, shiftedPunct);
    var n := |ps| - 26;
    assert ps[n + i] == Letters()[i];
    forall j | n + i < j < |ps| ensures ps[j].0 != ps[n + i].0 {
      assert ps[j] == Letters()[j - n];
    }
    DictOfLast(ps, n + i);
  }

  /**
   * generate_output_func_char_map: more than seven characters is fatal;
   * otherwise character i gets code OUTPUT_FUNC_1 + i.
   */
  function OutputFuncCharMap(chars: string): (r: Result<map<char, int>, Error>)
    ensures r.Err? <==> |chars| > OUTPUT_FUNC_COUNT_MAX
    ensures r.Err? ==> r.error == TooManyOutputFuncChars(|chars|)
    ensures r.Ok? ==> r.value.Keys == set c | c in chars
    ensures r.Ok? ==> forall c :: c in r.value ==> 1 <= r.value[c] <= OUTPUT_FUNC_COUNT_MAX
  {
    if |chars| > OUTPUT_FUNC_COUNT_MAX then Err(TooManyOutputFuncChars(|chars|))
    else
      var ps := seq(|chars|, i requires 0 <= i < |chars| => (chars[i], OUTPUT_FUNC_1 + i));
      var m := DictOf(ps);
      DictOfKeys(ps);
      assert forall c :: c in chars ==> c in m by {
        forall c | c in chars ensures c in m {
          var i :| 0 <= i < |chars| && chars[i] == c;
          assert ps[i] in ps;
        }
      }
      assert forall c :: c in m ==> c in chars && 1 <= m[c] <= OUTPUT_FUNC_COUNT_MAX by {
        forall c | c in m ensures c in chars && 1 <= m[c] <= OUTPUT_FUNC_COUNT_MAX {
          DictOfValueFrom(ps, c);
        }
      }
      Ok(m)
  }

  /**
   * The code generate_output_func_char_map gives a character: OUTPUT_FUNC_1
   * plus the position of its last occurrence in the list.
   */
  lemma OutputFuncCode(chars: string, i: nat)
    requires i < |chars| <= OUTPUT_FUNC_COUNT_MAX
    requires forall j :: i < j < |chars| ==> chars[j] != chars[i]
    ensures OutputFuncCharMap(chars).Ok?
    ensures chars[i] in OutputFuncCharMap(chars).value
    ensures OutputFuncCharMap(chars).value[chars[i]] == OUTPUT_FUNC_1 + i
  {
    var ps := seq(|chars|, k requires 0 <= k < |chars| => (chars[k], OUTPUT_FUNC_1 + k));
    assert OutputFuncCharMap(chars).value == DictOf(ps);
    DictOfLast(ps, i);
  }
}
