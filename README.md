# Sequence-transform rule compiler and key buffer, in Dafny

This project models two parts of qmk_sequence_transform.

The first is the rule compiler in `generator/sequence_transform_data.py`. It turns a
dictionary of `context -> correction` lines into a trie, encoded as 16-bit words, plus a
pool of output strings. It runs as a pipeline:

- **Alphabet.** The alphabet map (`CharMaps`) and the output-function map.
- **Reading rules** (`Rules`). The per-line split of `parse_file_lines` and the
  validation loop of `parse_file`.
- **Building the trie** (`Tries`). `make_trie` builds a trie keyed by the reversed
  context.
- **Resolving overlaps** (`Resolver`). `complete_trie` with `complete_node` and
  `get_trie_result`.
- **The output pool** (`Pool`). `serialize_outputs`.
- **Encoding the trie.** The table that `serialize_trie`'s `traverse` builds (`Table`),
  and the words of that table with their offsets and links (`Encoder`).

The second is the circular key buffer of the keyboard firmware, `keybuffer.c`
(`KeyBuffers`). It is a class over an array that holds the most recent keypresses.

`PyStr` models the Python `str` operations the generator relies on: `strip`, `find`,
`split(sep, 1)`, reversing by slicing, `replace`, and slice deletion. `Wrappers`
models `Option` and `Result`. `Errors` lists every fatal exit and every uncaught
exception of the generator; each becomes an `Err` result.

How the model represents the source:

- **The trie.** The source nests one dictionary per character. Here the trie is a
  `map<string, Match>` from each reversed context to its `MATCH` entry. A node of the
  nested dictionaries is a prefix of a key, and its children are the next characters of
  the keys that extend it (`Tries.Children`).
- **Mutation and recursion.** `complete_trie` resolves matches in place and recurses.
  Here each step is a function from the state (the trie and the set of outputs) to the
  next state. A termination measure is the set of matches whose `complete_node` is still
  running. Meeting one of them again is where the source would recurse without end; here
  it is the error `ResolutionCycle`.
- **The offset loop.** The offset loop of `serialize_trie` is a method
  (`Encoder.ComputeOffsets`), proved equal to a function (`Encoder.OffsetLoop`). A
  second method (`Encoder.CollectWords`) collects the final words.
- **The key buffer.** `st_key_buffer_t` is a class whose `data` field is an array. Its
  operations are methods that update `context_len` and `cur_pos` and write
  `data[cur_pos]`.

Where the code and the documented design differ, the model follows the code:

1. **Empty correction.** A line with an empty correction is accepted by the parser. It
   then fails in `make_trie` at `correction[-1]` (`EmptyCorrection`).
2. **Which buffer is looked up first.** `complete_node` looks up the raw typed prefix first.
   It consults the simulated buffer only when the raw prefix has no match.
3. **Where the limits are checked.** The backspace and output-length limits are checked only
   by the `assert`s of `serialize_trie`, not when a match is resolved.
4. **Branch order.** A branch lists its children sorted by character, not by triecode.
5. **Where the pool is checked.** `serialize_outputs` and `serialize_trie` check neither
   the size of the output pool nor the pool offset written as a match's second word. The
   main program checks both afterwards: every trie word must lie in 0..0xffff, and that
   includes the pool offsets; every pool byte must lie in 0..0xff.
6. **Duplicate contexts.** Two rules with the same context are not an error in `make_trie`.
   The later rule's match replaces the earlier one. `parse_file` has already dropped such
   duplicates.

## Model

| member | source | states |
|---|---|---|
| CharMaps.DictOf | generator/sequence_transform_data.py:112 | the reference definition of dict(pairs): the pairs are inserted in order, so a later pair for a key replaces an earlier one |
| CharMaps.ContextCharMapAsWritten | generator/sequence_transform_data.py:111-121 | the reference definition of generate_context_char_map as written: dict() of the ranges, the magic characters, the word break and the letters, in that order |
| CharMaps.ContextCharMap | generator/sequence_transform_data.py:111-121 | the reference definition of generate_context_char_map with the intended shifted row "_+{}\|" |
| CharMaps.LettersKeepTheirCodes | generator/sequence_transform_data.py:111-121 | the letters come last in the dict, so a..z always map to KC_A..KC_Z, whatever the magic and word-break characters |
| CharMaps.AsWrittenPipeCollidesWithColon | generator/sequence_transform_data.py:111-116 | as written, '\|' and ':' both map to 0x233, and '\\' maps to 0x231 instead of its unshifted code |
| CharMaps.CorrectedShiftedRow | generator/sequence_transform_data.py:115-116 | with the intended row "_+{}\|", each of _ + { } \| gets the shifted code of the key it shares with - = [ ] \\ |
| CharMaps.ShiftedRowMatchesUnshifted | generator/sequence_transform_data.py:111-121 | with the intended row, '\\' keeps 0x31 and '\|' and ':' get different codes |
| CharMaps.OutputFuncCharMap | generator/sequence_transform_data.py:133-138 | fails exactly when there are more than seven characters; otherwise the keys are the characters and every code lies in 1..7 |
| CharMaps.OutputFuncCode | generator/sequence_transform_data.py:138 | with at most seven characters, a character gets code OUTPUT_FUNC_1 + i, where i is the position of its last occurrence |
| CharMaps.DictOfLast | generator/sequence_transform_data.py:112-121 | in dict(pairs) the value of a key is that of its last pair |
| PyStr.Strip | generator/sequence_transform_data.py:300 | str.strip: the string without its leading and trailing whitespace, which then has none at either end |
| PyStr.Find | generator/sequence_transform_data.py:302 | str.find: -1 exactly when the substring never occurs, else the lowest index at which it occurs |
| PyStr.FindZeroIsPrefix | generator/sequence_transform_data.py:302 | line.find(comment) == 0 exactly when the line starts with the comment string |
| PyStr.SplitOnce | generator/sequence_transform_data.py:305 | str.split(sep, 1): a single piece when sep does not occur, otherwise the parts before and after its first occurrence |
| PyStr.ReverseReverse | generator/sequence_transform_data.py:195 | reversing the context twice gives it back |
| PyStr.ReplaceChar | generator/sequence_transform_data.py:249 | replace: every occurrence of the one character is replaced and nothing else changes |
| PyStr.CommonPrefixLoop | generator/sequence_transform_data.py:241-246 | the while loop of complete_node stops at the longest common prefix |
| PyStr.CommonPrefixAtLeast | generator/sequence_transform_data.py:241-246 | every shared prefix is at most as long as the one the loop finds |
| Rules.ParseLine | generator/sequence_transform_data.py:300-312 | the reference definition of one line of parse_file_lines: strip, skip a blank or comment line, split once at the separator, strip both halves, and reject a missing separator or an empty context |
| Rules.ParseLineCases | generator/sequence_transform_data.py:300-312 | a line is skipped exactly when it is blank or starts with the comment string; otherwise it is a syntax error exactly when the separator is missing or the context strips to nothing, and else the two stripped halves around the first separator |
| Rules.FormatThenParse | generator/sequence_transform_data.py:300-312 | writing context + separator + correction and parsing the line gives the rule back |
| Rules.ParseLineTrimmed | generator/sequence_transform_data.py:305-312 | a rule read from a line has a non-empty context and both halves stripped |
| Rules.ParsedItemsTrimmed | generator/sequence_transform_data.py:291-312 | every rule parse_file_lines yields has a non-empty stripped context and a stripped correction |
| Rules.ParseFileLines | generator/sequence_transform_data.py:291-312 | the lines are numbered from 1, and every rule it yields comes from the line with that number |
| Rules.StreamFromIncreasing | generator/sequence_transform_data.py:295-299 | the yielded line numbers strictly increase |
| Rules.ParseFileLinesStops | generator/sequence_transform_data.py:291-312 | it stops without error exactly when every line parses, and then yields exactly the rule lines; otherwise it stops with the first bad line's error, having yielded the rule lines before it |
| Rules.CheckItem | generator/sequence_transform_data.py:162-169 | a first-seen rule fails exactly when a character of context[:-1] is not in the map (checked first) or the context is longer than 127 |
| Rules.FirstFailureIsFirst | generator/sequence_transform_data.py:157-169 | the reported error is that of a kept rule all of whose predecessors pass |
| Rules.FirstOccurrencesDistinct | generator/sequence_transform_data.py:154-160 | the kept rules have pairwise different contexts |
| Rules.FirstOccurrencesKeeps | generator/sequence_transform_data.py:157-160 | a rule is kept exactly when no earlier rule has its context |
| Rules.FirstOccurrencesSub | generator/sequence_transform_data.py:157-172 | the kept rules come from the file, and every context of the file is kept |
| Rules.FirstOccurrencesPrefix | generator/sequence_transform_data.py:171-172 | rules are only ever appended: what is kept from a prefix of the file is a prefix of what is kept |
| Rules.KeepFirstRules | generator/sequence_transform_data.py:153-174 | the loop returns the first failing kept rule's error, else the stream's syntax error, else the kept rules in file order |
| Rules.ParseFile | generator/sequence_transform_data.py:142-174 | parse_file succeeds exactly when no line is malformed and no kept rule fails its check; then it returns the first rule for each context in file order, and otherwise the right error |
| Rules.ParsedRulesDistinct | generator/sequence_transform_data.py:154-174 | the returned rules have pairwise different contexts |
| Tries.TrieOf | generator/sequence_transform_data.py:178-207 | the reference definition of make_trie: the rules inserted in order at their reversed contexts, failing at the first empty correction |
| Tries.RuleMatch | generator/sequence_transform_data.py:187-205 | a final output-function character is split off the correction and its code becomes FUNC; otherwise FUNC is 0 and the target is the whole correction; the result starts with BACKSPACES -1 and an empty output |
| Tries.MakeTrie | generator/sequence_transform_data.py:178-207 | the loop builds the trie of all rules: each rule's match sits at its reversed context |
| Tries.TrieOfFails | generator/sequence_transform_data.py:184-189 | make_trie fails exactly when some correction is empty, and then at the first such rule |
| Tries.TrieOfKeys | generator/sequence_transform_data.py:195-198 | the matches sit exactly at the reversed contexts of the rules |
| Tries.TrieOfShape | generator/sequence_transform_data.py:195-205 | each match sits at the reverse of its own context, and every result is unresolved |
| Tries.TrieOfLastWins | generator/sequence_transform_data.py:184-205 | the match at a context is that of the last rule with that context |
| Tries.SortedChars | generator/sequence_transform_data.py:414 | ''.join(sorted(keys)): each character once, in increasing order |
| Resolver.Edit | generator/sequence_transform_data.py:236-249 | backspaces never exceed the length of the simulated buffer |
| Resolver.EditIsMinimal | generator/sequence_transform_data.py:236-253 | the kept part of the buffer is the longest prefix it shares with the target; the output is the rest of the target with word breaks as spaces; backspacing and typing it after the last key gives that prefix followed by the output |
| Resolver.Apply | generator/sequence_transform_data.py:232-233 | a match removes its backspaces plus one characters from the end of the simulated buffer (all of it if shorter) and appends its output |
| Resolver.Completed | generator/sequence_transform_data.py:248-253 | the stored result keeps the rule and has a non-negative backspace count |
| Resolver.CompleteNode | generator/sequence_transform_data.py:214-253 | the stored result is the edit from SimBuffer of the context's keys but the last, computed with the results the call leaves in the trie; matches already resolved keep their results, the new outputs are added to the set, and a trie of settled matches stays settled |
| Resolver.Scan | generator/sequence_transform_data.py:220-233 | the loop over context[:-1] returns SimFrom of the trie it leaves, every match it applies is resolved there, it never changes a resolved match, it adds exactly the new outputs, and it keeps a trie of settled matches settled |
| Resolver.LookupKey | generator/sequence_transform_data.py:255-274 | the key of the deepest match along the reversed buffer, always a key of the trie |
| Resolver.HitKey | generator/sequence_transform_data.py:222-225 | the match for the raw context so far, or the one for the simulated buffer when there is none |
| Resolver.SimStep | generator/sequence_transform_data.py:220-233 | the reference definition of one key of the loop: append the key, then apply the hit match's backspaces and output |
| Resolver.SimFrom | generator/sequence_transform_data.py:219-233 | the reference definition of the loop: SimStep for each remaining key |
| Resolver.SimBuffer | generator/sequence_transform_data.py:216-233 | the reference definition of the simulated buffer: what typing the keys from an empty buffer produces with the trie's results |
| Resolver.WalkLookup | generator/sequence_transform_data.py:255-274 | a walk returns none exactly when LookupKey finds no key, and otherwise the result the final trie holds at that key, which is resolved |
| Resolver.ScanStep | generator/sequence_transform_data.py:220-233 | one iteration of the loop computes SimStep with the final results, and the match it applies is resolved |
| Resolver.SimFromUpdate | generator/sequence_transform_data.py:246-250 | storing a result for an unresolved match that the simulation never applies leaves the simulation unchanged |
| Resolver.FixedAfterResolve | generator/sequence_transform_data.py:246-250 | storing the edit of the simulation for an unresolved match keeps every settled match settled, and settles the new one |
| Resolver.FixedStart | generator/sequence_transform_data.py:198-205 | a trie from make_trie has no resolved match, so it is trivially settled |
| Resolver.OverlappingRules | generator/sequence_transform_data.py:214-253 | for ab -> x and abc -> y: typing "a" gives "a", so ab stores backspaces 1 and output x; typing "ab" gives "x", so abc stores backspaces 1 and output y; each result is the edit from the simulation with the other |
| Resolver.LongestKey | generator/sequence_transform_data.py:259-272 | the deepest match along the reversed buffer, if any |
| Resolver.GetTrieResult | generator/sequence_transform_data.py:255-274 | get_trie_result resolves every match on the path first and returns the result of the longest match, or none |
| Resolver.Walk | generator/sequence_transform_data.py:259-272 | the walk from a depth resolves every match below it on the path and returns the deepest match's result, or the last one seen above |
| Resolver.OffTheTrie | generator/sequence_transform_data.py:260-261 | once the path leaves the trie no match lies further along it, so stopping there loses nothing |
| Resolver.ResolveAll | generator/sequence_transform_data.py:276-284 | traverse_trienode completes every match still unresolved when reached, and leaves every visited match resolved |
| Resolver.StepTrans | generator/sequence_transform_data.py:269-270 | steps compose: a result, once stored, is never changed again, so each match is resolved at most once |
| Resolver.CompleteTrie | generator/sequence_transform_data.py:211-287 | afterwards the rules are unchanged, the resolved matches keep their results, the visited matches are resolved, the returned set is the outputs of the newly resolved matches, and a trie of settled matches stays settled |
| Resolver.CompleteTrieResolvesAll | generator/sequence_transform_data.py:211-287 | for a trie from make_trie, every match ends with BACKSPACES >= 0, and the returned set is exactly the set of all OUTPUTs; every result is the edit from SimBuffer of its context's keys but the last under the final trie, and that simulation applies only resolved matches |
| Pool.PoolOf | generator/sequence_transform_data.py:325-337 | the reference definition of the loop of serialize_outputs: an output already in the pool is mapped to its first occurrence, any other is appended and mapped to where it starts |
| Pool.PoolGrowth | generator/sequence_transform_data.py:327-337 | the pool stays the same when the output already occurs in it, and otherwise grows by exactly the output |
| Pool.PoolPrefix | generator/sequence_transform_data.py:332 | the pool only grows at its end |
| Pool.PoolKeys | generator/sequence_transform_data.py:331-337 | the map holds exactly the outputs placed |
| Pool.PoolPlaces | generator/sequence_transform_data.py:327-337 | every output equals pool[map[o] : map[o] + len(o)] |
| Pool.PoolLongest | generator/sequence_transform_data.py:326 | the returned maximum is the length of the longest output, or 0 if there is none |
| Pool.CatThenAt | generator/sequence_transform_data.py:327-337 | for "cat" then "at", "at" is found at offset 1 of a 3-character pool |
| Pool.AsciiBytes | generator/sequence_transform_data.py:342 | bytes(s, 'ascii') gives each character's code, and fails exactly on a non-ASCII character |
| Pool.PoolAsciiIff | generator/sequence_transform_data.py:342 | the pool encodes exactly when every output is ASCII |
| Pool.LongestFirstOrder | generator/sequence_transform_data.py:325 | sorted(outputs, key=len, reverse=True): each output once, longest first |
| Pool.LongestFirstPool | generator/sequence_transform_data.py:316-345 | for any longest-first order, the map holds exactly the outputs, each spelled at its offset, and the maximum is the longest length |
| Pool.SerializeOutputs | generator/sequence_transform_data.py:316-345 | the loop builds the pool of its longest-first order, and returns its bytes, offsets and maximum, or the encoding error |
| Table.MatchCode | generator/sequence_transform_data.py:372-385 | the match word has the match bit set, and fits in 16 bits within the asserted bounds |
| Table.MatchCodeFields | generator/sequence_transform_data.py:371-385 | within the asserted bounds the fields do not overlap: match bit, branch bit (set iff the node has children), function, backspaces and length all read back |
| Table.MatchData | generator/sequence_transform_data.py:364-389 | the two match words; otherwise the KeyError of a missing output, then the failed assert on FUNC, then on BACKSPACES, then on the output length, in that order |
| Table.ChainEnd | generator/sequence_transform_data.py:406-409 | the chain stops at the first node with a match or without exactly one child |
| Table.ChainEndPath | generator/sequence_transform_data.py:400-409 | every node before the chain's end has no match and the next chain character as its only child |
| Table.FollowChain | generator/sequence_transform_data.py:406-408 | the while loop reaches the end of the chain |
| Table.Traverse | generator/sequence_transform_data.py:361-419 | traverse lists the entry of the node first |
| Table.TraverseShape | generator/sequence_transform_data.py:396-416 | every entry is its node's: a leaf has no links, a chain one link to the very next entry, which is the node at the chain's end, a branch one link per sorted child to that child's entry |
| Table.TraverseChildrenLinks | generator/sequence_transform_data.py:413-416 | the k-th link of a branch points at the entry of the child under its k-th character, the first right after the branch |
| Encoder.EncodeLink | generator/sequence_transform_data.py:456-464 | the link word is the offset, and fails exactly when the offset does not fit in 0..0xffff |
| Encoder.CharCodes | generator/sequence_transform_data.py:432 | the codes of the characters, or the KeyError of the first unknown one |
| Encoder.MissingCharIsFirst | generator/sequence_transform_data.py:432 | the KeyError names the first character missing from the map |
| Encoder.BranchWordsInRange | generator/sequence_transform_data.py:435-438 | with in-range offsets the zip fails exactly at the first unknown character, and otherwise gives two words per pair |
| Encoder.Serialize | generator/sequence_transform_data.py:424-440 | the reference definition of serialize: a leaf's data words alone; a chain's data words, its characters' codes and a closing 0, with no link word; a branch's data words, a code and a link word per child (the branch bit on the first code only), and a closing 0 |
| Encoder.SerializeInRange | generator/sequence_transform_data.py:424-440 | with in-range offsets, serialize fails exactly on an unknown character and otherwise gives the entry's size in words |
| Encoder.BranchWordAt | generator/sequence_transform_data.py:437-438 | the k-th pair is the k-th character's code (branch bit on the first only) and the offset of the k-th link |
| Encoder.SerializeShape | generator/sequence_transform_data.py:424-440 | the data words come first; a leaf has nothing more; chain and branch entries end in 0; a branch's link words are offsets; only the first branch code carries 0x4000 |
| Encoder.OffsetLoop | generator/sequence_transform_data.py:442-449 | the reference definition of the offset loop: one offset per entry so far, each entry serialised with the offsets of the entries before it |
| Encoder.OffsetLoopBounds | generator/sequence_transform_data.py:442-449 | the offsets start at 0, every offset and the total lie within 0xffff, and every entry's characters are known |
| Encoder.OffsetLoopFacts | generator/sequence_transform_data.py:442-449 | each offset is the previous one plus the size of the entry before: the offsets are prefix sums of the entry sizes |
| Encoder.ComputeOffsets | generator/sequence_transform_data.py:442-449 | the loop, which writes offsets into one list, computes the offset loop |
| Encoder.OffsetAt | generator/sequence_transform_data.py:442-452 | after the loop each entry serialises with the final offsets to its size, and the next offset is its own plus that size |
| Encoder.FlattenLayout | generator/sequence_transform_data.py:451-452 | once the offsets are known the final serialisation cannot fail (encode_link never fires), and the words of every entry sit at its offset |
| Encoder.CollectWords | generator/sequence_transform_data.py:451-452 | the final comprehension concatenates the entries' words |
| Encoder.TableData | generator/sequence_transform_data.py:361-394 | the data words of the entries in table order, one list per entry, or the first error |
| Encoder.TrieWords | generator/sequence_transform_data.py:349-452 | the reference definition of serialize_trie: traverse, the data words, the offset loop and the final concatenation, or the first error |
| Encoder.TableDataFacts | generator/sequence_transform_data.py:361-394 | the data words are those of each entry's node, or the error of the first node that fails, in table order |
| Encoder.SerializeTrie | generator/sequence_transform_data.py:349-452 | serialize_trie builds the table, computes its offsets, and returns the words or the first error |
| Encoder.ChainChildFollows | generator/sequence_transform_data.py:400-411 | a chain's child is the very next entry, and its words start right after the chain's closing 0 |
| Encoder.BranchLinkTarget | generator/sequence_transform_data.py:413-438 | the k-th link word of a branch is the offset of the entry of the child under the k-th character |
| KeyBuffers.StoredKeycode | keybuffer.c:99-103 | a shifted letter is stored as the plain letter, and any other keycode unchanged |
| KeyBuffers.KeyBuffer.Normalised | keybuffer.c:20-22 | a negative index counts from the oldest keypress |
| KeyBuffers.KeyBuffer.RealIndex | keybuffer.c:18-32 | -1 exactly when the index is outside [-context_len, context_len), otherwise a slot in [0, size), the latest one moved back by the index |
| KeyBuffers.RealIndexIsMod | keybuffer.c:27-31 | the slot is (cur_pos - index) mod size, and distinct indices have distinct slots |
| KeyBuffers.KeyBuffer.Get | keybuffer.c:82-89 | none (NULL) exactly for an index out of range, otherwise the keypress in its slot |
| KeyBuffers.KeyBuffer.GetKeycode | keybuffer.c:76-80 | KC_NO for an index out of range, otherwise the key pressed in its slot |
| KeyBuffers.KeyBuffer.Resize | keybuffer.c:34-59 | a delta of magnitude above size changes nothing; otherwise the context length is clamped to [0, size], the latest slot moves by delta round the array, and the buffer stays valid |
| KeyBuffers.ResizeIsMod | keybuffer.c:49-56 | moving the latest slot is adding delta modulo size |
| KeyBuffers.KeyBuffer.Push | keybuffer.c:97-110 | index 0 holds the stored keycode with action 0xffff, the old index i is now at i + 1, the context grows by one up to size, and only the new slot is written |
| KeyBuffers.KeyBuffer.Pop | keybuffer.c:112-115 | popping more than size changes nothing; otherwise the context shrinks by num, floored at 0, and index i holds what index i + num held |
| KeyBuffers.KeyBuffer.Reset | keybuffer.c:91-95 | afterwards the buffer holds exactly one keypress, a space |
| KeyBuffers.TypeThree | keybuffer.c:64-75 | after typing a, b, c into an empty buffer, indices 0, 1, 2 give c, b, a, indices -1, -2, -3 give a, b, c, and indices 3 and -4 give KC_NO |

## Left out

- **Command line, configuration and file I/O.** Argument parsing, loading the JSON configuration, and opening and reading the dictionary are left out, as is writing the header. The dictionary is given as its list of lines. Magic characters, word break, separator and comment string are parameters.
- **Text emission.** Building the generated C header (banners, hex formatting, line wrapping, write-if-changed) is formatting and I/O, so it is left out.
- **Messages and exits.** `quiet_print`, the coloured messages and `uprintf` are left out. Each `sys.exit(1)`, each failed `assert` and each uncaught exception becomes an `Err` result of `Errors.Error`.
- **The global `max_backspaces`.** It is a side channel that serialize_trie only reports, so it is not modelled.
- **Python's iteration order.** The order of equal-length outputs in `sorted(outputs, ...)` depends on set hashing. The order in which `traverse_trienode` meets the matches depends on dictionary insertion. Both are left to the caller: `Pool.SerializeOutputs` returns the order it used, and `Resolver.CompleteTrie` takes the order as a parameter. Which outputs and which pool layout a particular Python run produces is therefore not modelled.
- **Resolver.CompleteTrie:** it promises resolution only for the matches listed in `order`. `Resolver.CompleteTrieResolvesAll` adds all of them when `order` lists every match, which is what the traversal of all nested dictionaries does; the traversal itself is not modelled.
- **Resolver.CompleteNode:** where the source would recurse without end, because a match needs itself to be resolved, the model returns `ResolutionCycle`. The Python `RecursionError` is not modelled.
- **Table.TraverseShape:** it proves that every entry describes its own node and links correctly. It does not prove that every node of the trie gets an entry.
- **In-place deletion in serialize_trie.** The source deletes each `MATCH` from its node while traversing. The model never changes the trie. It counts a node's children without the match, which is what the deletion achieves, and computes the data words in table order (`Encoder.TableData`), the order in which `traverse` meets them.
- **Unreachable link error.** `Encoder.FlattenLayout` proves that the `LinkOutOfRange` error of encode_link cannot arise once the offset loop has succeeded.
- **The main program's range checks.** After `serialize_trie`, the main program asserts that every trie word lies in 0..0xffff, pool offsets included, and that every pool byte lies in 0..0xff. That program is left out, so these two checks are not modelled. A pool offset above 0xffff therefore appears in `Encoder.SerializeTrie`'s words instead of an error.
- **Header constants.** `keybuffer.c` takes `QK_LSFT`, `IS_ALPHA_KEYCODE`, `KC_SPC`, `KC_NO` and `ST_DEFAULT_KEY_ACTION` from headers that are not part of this model. They are written as the firmware's values: QK_LSFT 0x0200, letters KC_A..KC_Z, KC_SPC 0x2C, KC_NO 0. `lowkey` is the low byte of the keycode, which is what the `uint8_t` conversion keeps.
- **Buffer size.** The buffer's size is assumed positive (`KeyBuffer.Valid`). With size 0 the source writes outside its array. The model does not have a buffer initialiser; the source shown has none either, and the constructor only creates an empty buffer.
- **KeyBuffers.KeyBuffer.Get:** it returns the keypress value rather than a pointer into the array, so writes through the returned pointer are not modelled.
- **Debug output and test harness.** `st_key_buffer_print` only prints. `tester/test_cursor.c` depends on cursor functions that are not part of this model.

## Findings

| source | as written | input that shows it | evidently intended | confidence | as-written member | corrected member |
|---|---|---|---|---|---|---|
| generator/sequence_transform_data.py:116 | the literal `"_+\{\}|"` keeps its backslashes, because `\{` and `\}` are not Python escapes; the shifted row is then the seven characters `_ + \ { \ } \|` | any configuration whose magic and word-break characters avoid `\|`, `:` and `\`: `\|` gets 0x233, the code of `:`, and `\` gets 0x231 instead of 0x31 | the five characters `_+{}\|`: each gets the shifted code of its unshifted key, `\|` differs from `:`, and `\` keeps 0x31 | high; not executed | CharMaps.AsWrittenPipeCollidesWithColon | CharMaps.ShiftedRowMatchesUnshifted |

`CharMaps.ContextCharMapAsWritten` is the map as the code builds it. `CharMaps.ContextCharMap` is the corrected map. The rest of the model takes the alphabet map as a parameter, so either one can be supplied.
