# maria, modelled in Dafny

maria is a pangenome read aligner. It indexes a variation graph (GFA) by a
*tag array*: for each suffix-array rank of the text spelled by the graph's
paths, the tag names the node, strand and offset where that suffix starts.
Random access to the text goes through a straight-line program (SLP), a
grammar whose rules each derive two symbols. The repository also ships
helper scripts that transcode Re-Pair rule tables, turn GFA walks into paths,
turn fastmap output into SAM, and build the column array of a multiple
sequence alignment (MSA).

This project models those cores as Dafny functions, methods and classes and
proves what the code promises. Parts that change state step by step are
written as methods with loops; each method's `ensures` ties its result to a
specification function, and lemmas prove the properties of those functions.

The files are:

| file | module | what it models |
|---|---|---|
| `wrappers.dfy` | `Wrappers` | `Option`, used for every panic or error path |
| `text.dfy` | `Text` | decimal printing and parsing (`usize::from_str`, Python `int`), whitespace splitting (Rust `split_whitespace`, Python `split`), `split` on one character, `trim`, line splitting |
| `plain_slp.dfy` | `PlainSlp` | `scripts/print_plain_slp.c`: decoding a Re-Pair `.R` file into `left right` lines, with the error exits |
| `grammar.dfy` | `Slp` | `Grammar::from_file`, `print`, `len` and `index` of `src/grammar.rs` and `src/bin/main3/grammar.rs` |
| `slp_from_bytes.dfy` | `SlpFromBytes` | `Grammar::from_bytes`: pairing a text level by level into rules |
| `permutations.dfy` | `Permutations` | `permutation_invert`, `permutation_apply`, `argsort` (and `inverse_suffix_array` of `src/naive.rs`) |
| `suffix_array.dfy` | `SuffixArrays` | `SuffixArray::create` for `[usize]` in `src/arrays.rs` |
| `pf_helpers.dfy` | `PfHelpers` | `join`, `get_lengths`, `get_node_ids`, `get_node_pos`, `get_sequence_position`, `get_right_context_rank` and the sorting loop of `PFData::new` |
| `merge_block.dfy` | `MergeBlock` | `Block` (`new`, `next`, `argmin`), the k-way merge of one block |
| `block_scan.dfy` | `BlockScan` | the scan of the ranks into blocks (`print_tag_array`, the loops of the `main`s, `get_block_at`) |
| `prefix_free.dfy` | `PrefixFree` | `get_triggers`, `split_prefix_free`, `add_segment`, `normalize` |
| `gfa_writer.dfy` | `GfaWriter` | `print_gfa` and `into_path_step` |
| `graph_pos.dfy` | `GraphPositions` | `GraphPos::from_str`, `Direction` display, `Default`, `to_path` |
| `graph_layout.dfy` | `GraphLayout` | `parse_graph`, `process_graph`, `extract_path`, `get_sampled_arrays` of `src/main.rs` |
| `lce.dfy` | `Query` | `lce` (text, grammar and Python), `get_lower`, `get_upper`, `list_unique`, `get_graph_positions` |
| `runs.dfy` | `Runs` | run-boundary sampling (`get_sampled_arrays` of `src/bin/main.rs`, `rl_encode`), `doc_listing` |
| `mems.dfy` | `Mems` | `MEM::from_str`, `parse_MEM`, `get_mems`, `MEMReader` |
| `predecessor.dfy` | `Predecessor` | `argpred` |
| `dna.dfy` | `Dna` | `reverse_complement` |
| `naive.dfy` | `Naive` | `parse_segments`, `get_sequence`, `create_sequence`, `tag_array` |
| `tables.dfy` | `Tables` | hash maps filled by `insert` in order (`create_map`, the length tables) |
| `tags.dfy` | `TagFile` | the tag file written by `create_tag` and read by `read_tag_array`; `write_table` |
| `msa_columns.dfy` | `MsaColumns` | `parse_msa`, `map_msa_to_T`, `find_P`/`find_row`, `construct_col` (both copies of `create_col.py`) |
| `msa_search.dfy` | `MsaSearch` | `rindex_query`, `has_boundary`/`linsearch`, `get_cols` |
| `walks2paths.dfy` | `WalksToPaths` | `scripts/walks2paths.py` |
| `fastmap2sam.dfy` | `FastmapToSam` | `scripts/fastmap2sam.py` |

Conventions:

- A Rust panic, a Python exception and a C error exit are all modelled as
  `None`, or as an outcome with a non-zero status.
- Byte strings (DNA, segment names, lines) are `string`s with one character
  per byte.
- Rust `usize` is `nat`, bounded by `USIZE_MAX` where the source parses a
  number.
- `usize::MAX` in `Block` is an explicit `Exhausted` rank.
- C `unsigned int` is a 32-bit word.
- The suffix array, inverse suffix array and LCP array that come from
  external libraries are inputs with stated properties.

The C transcoder computes the rule count of a `.R` file by integer division
(scripts/print_plain_slp.c:98): when the size after the 4-byte header is not
a multiple of 8, the trailing bytes are ignored and no error is reported.
`PlainSlp.ReadREncoded` states this behaviour.

## Model

| member | source | states |
|---|---|---|
| Text.ParseUsize | src/grammar.rs:31 | `str::parse::<usize>`: the empty text fails; a result is at most `usize::MAX` |
| Text.ParseUsizeOfDec | src/grammar.rs:31 | every `usize` printed in decimal parses back to itself |
| Text.NatToDecShape | src/grammar.rs:100 | a decimal spelling is non-empty, all digits, has no leading zero unless it is 0, and denotes the number |
| Text.ParsePyIntOfDec | scripts/fastmap2sam.py:43 | Python `int` reads back every printed integer, sign included |
| Text.TokensAreTokens | src/grammar.rs:30 | every token of a whitespace split is non-empty and holds no whitespace |
| Text.TokensOfJoin | src/grammar.rs:30 | splitting tokens joined by one whitespace character gives back the tokens |
| Text.TokensSplitAt | src/grammar.rs:30 | a whitespace character splits the tokens of the two sides apart |
| Text.SplitWhitespaceOfTrim | src/bin/main3/grammar.rs:26 | trimming a line does not change its whitespace split |
| Text.FindChar | src/naive.rs:12-18 | the index of the first occurrence of a character, or the length when there is none |
| Text.SplitOnJoin | src/main.rs:141 | `split(c)` of parts joined with `c` (none containing `c`) gives back the parts |
| Text.JoinSplitOn | src/main.rs:141 | joining the pieces of `split(c)` with `c` gives back the text |
| Text.LinesOfUnlines | src/main.rs:140 | `lines()` of text written line by line gives back the lines |
| PlainSlp.Le32RoundTrip | scripts/print_plain_slp.c:35-37 | a 32-bit word stored little-endian reads back as itself |
| PlainSlp.RuleCount | scripts/print_plain_slp.c:98 | `n = (size - 4) / 8`: n pairs fit after the header and the leftover is under one pair |
| PlainSlp.ReadR | scripts/print_plain_slp.c:88-104 | a file under 4 bytes fails; on success there are `n` rules, each the pair stored at offset 4 + 8k |
| PlainSlp.EncodeRLayout | scripts/print_plain_slp.c:88-104 | every header and rule word of an encoded file lies where the decoder reads it |
| PlainSlp.ReadREncoded | scripts/print_plain_slp.c:98-104 | decoding an encoded table gives back the header and the rules, whatever fewer than 8 trailing bytes follow |
| PlainSlp.RuleLine | scripts/print_plain_slp.c:52-54 | a rule line holds no newline and does not end in a carriage return |
| PlainSlp.RuleLines | scripts/print_plain_slp.c:129-131 | one line per rule, in record order |
| PlainSlp.RuleIndexOfId | scripts/print_plain_slp.c:53 | subtracting `alph` from `alph + k` (mod 2^32) gives back k, so rule k is printed |
| PlainSlp.UsageError | scripts/print_plain_slp.c:67-73 | any argument count other than one name exits 1 and writes nothing |
| PlainSlp.TranscodeSucceeds | scripts/print_plain_slp.c:76-127 | exit 0 exactly when `.R` is readable and decodes, `.C` is readable and the output can be opened; a failing run writes nothing |
| PlainSlp.CFileNotRead | scripts/print_plain_slp.c:108-118 | the contents of the `.C` file never change the outcome |
| PlainSlp.HeaderOnlyEmptyOutput | scripts/print_plain_slp.c:129-133 | a header-only `.R` gives an empty output and exit 0 |
| PlainSlp.TranscodeEncoded | scripts/print_plain_slp.c:56-134 | transcoding an encoded table writes exactly its rule lines to `<base>.plainslp` |
| PlainSlp.PrintPlain | scripts/print_plain_slp.c:56-134 | the program's loops compute the outcome of `Transcode` |
| Slp.Size | src/grammar.rs:38-40 | a terminal has size 1; a rule's size is the sum of its operands' sizes, and is at least 2 |
| Slp.RuleSize | src/grammar.rs:38-40 | the size of rule k is the length of its expansion |
| Slp.ExpandPrefix | src/grammar.rs:38-39 | rules added later do not change what an earlier symbol derives |
| Slp.Len | src/grammar.rs:105 | `len()` is the length of the root's expansion, between 2 and `usize::MAX` |
| Slp.LineSymbols | src/grammar.rs:29-34 | a line reads as a rule exactly when it has two whitespace-separated decimal words |
| Slp.ParseRules | src/grammar.rs:27-34 | parsing succeeds exactly when every line reads as a rule, and rule k comes from line k |
| Slp.Build | src/grammar.rs:38-45 | the table gives a grammar exactly when it is non-empty, every operand is a terminal or an earlier rule, and every size fits a `usize` |
| Slp.BuildValid | src/grammar.rs:38-45 | every valid grammar is what `from_file` builds from its own rule table |
| Slp.PushRule | src/grammar.rs:35-40 | pushing a rule on earlier symbols keeps the table valid and computes its size from the sizes already pushed |
| Slp.FromLines | src/grammar.rs:20-46 | the push loop computes `ParseGrammar` of the lines |
| Slp.ReadRule | src/grammar.rs:28-40 | one iteration of the loop reads the next line or fails as the source panics |
| Slp.OverflowsAt | src/grammar.rs:40 | a rule whose size exceeds `usize::MAX` makes the whole parse fail |
| Slp.FailsAt | src/grammar.rs:38-39 | a forward reference makes the whole parse fail |
| Slp.MalformedAt | src/grammar.rs:34 | a malformed line makes the whole parse fail |
| Slp.ParsedTable | src/grammar.rs:20-46 | lines that spell a valid grammar's rules parse to that grammar |
| Slp.Descend | src/grammar.rs:114-123 | one descent step keeps `skipped <= index < skipped + size(symbol)` and follows the expansion |
| Slp.Index | src/grammar.rs:111-125 | `grammar[index]` is a terminal; below `len()` it is the index-th symbol of the text |
| Slp.Print | src/grammar.rs:98-103 | `print` writes one "left right" line per rule, and reading the text back gives the same grammar |
| Slp.ParseRulesOfText | src/grammar.rs:98-103 | the printed lines parse back into the same rule table |
| Slp.ParseGrammarTrimmedSame | src/bin/main3/grammar.rs:16-49 | both readers (with and without `trim`) build the same grammar from the same lines |
| Slp.ExpandPush | src/grammar.rs:38-40 | adding a rule keeps the table ordered and leaves earlier expansions unchanged |
| Slp.TranscodedRulesParse | scripts/print_plain_slp.c:52-54 | the `.plainslp` lines the transcoder writes are parsed by `from_file` into that rule table; the grammar built from them has exactly that table, and is built exactly when the table is non-empty, refers only to earlier rules and no size exceeds `usize::MAX` |
| SlpFromBytes.SpellAppend | src/grammar.rs:56-74 | spelling a symbol sequence distributes over concatenation |
| SlpFromBytes.SpellPush | src/grammar.rs:61-64 | adding a rule does not change what a sequence over earlier symbols spells |
| SlpFromBytes.MapOkDistinct | src/grammar.rs:59-62 | the rule map gives each pair one id, so no two rules are equal |
| SlpFromBytes.PairStep | src/grammar.rs:58-70 | one pairing step keeps the level invariant: the new level spells the same prefix |
| SlpFromBytes.ReuseStep | src/grammar.rs:66-68 | a pair already seen reuses its id |
| SlpFromBytes.NewStep | src/grammar.rs:61-65 | a new pair gets the next id and a new rule |
| SlpFromBytes.PairLevel | src/grammar.rs:56-73 | one level of pairing gives a shorter sequence that spells the same text |
| SlpFromBytes.CarryLast | src/grammar.rs:71 | carrying an odd trailing symbol up keeps the spelling |
| SlpFromBytes.EndLevel | src/grammar.rs:71-73 | closing a level gives a shorter sequence that still spells the text |
| SlpFromBytes.FromBytes | src/grammar.rs:49-95 | a grammar exists exactly when the text has at least 2 bytes; it is valid, its rules are distinct and it derives the text |
| SlpFromBytes.Finish | src/grammar.rs:76-94 | the last rule derives the text and every size fits a `usize` |
| SlpFromBytes.ById | src/grammar.rs:76-85 | sorting the map by id recovers the rules in creation order |
| SlpFromBytes.BuildTable | src/grammar.rs:83-90 | the table loop computes `Build` of the rules |
| SlpFromBytes.BuildOverflows | src/grammar.rs:89 | a rule whose size exceeds `usize::MAX` makes `Build` fail |
| Permutations.Invert | src/pf.rs:282-286 | for every i, `inv[perm[i]]` is written by a later-or-equal index that holds the same value; for a permutation, `inv` is its inverse and a permutation |
| Permutations.InvertOfPermutation | src/naive.rs:41-45 | over a permutation the last writer of each slot leaves the inverse, so `isa[sa[i]] = i` |
| Permutations.Apply | src/pf.rs:288-294 | `result[perm[i]] = data[i]`; slots no index reaches keep 0 |
| Permutations.PlacedMultiset | src/pf.rs:288-294 | placing through a permutation keeps the multiset of values |
| Permutations.ArgSort | src/pf.rs:296-302 | the rank of i is below the rank of j exactly when d[i] < d[j], or they are equal and i < j |
| Permutations.PlacedByRankSorted | src/pf.rs:60-64 | `permutation_apply(argsort(d), d)` is d sorted ascending, as a permutation of d |
| Permutations.SortedUnique | src/pf.rs:296-302 | two listings sorted by the same strict order coincide |
| Permutations.SortIndicesFacts | src/arrays.rs:18-24 | sorting the indices by a strict order lists each of 0..n-1 once, in order |
| SuffixArrays.LexTotal | src/arrays.rs:23 | Rust slice order is total on distinct sequences |
| SuffixArrays.LexTransitive | src/arrays.rs:23 | Rust slice order is transitive |
| SuffixArrays.PrefixFirst | src/arrays.rs:23 | a proper prefix sorts before the longer sequence |
| SuffixArrays.Create | src/arrays.rs:16-27 | the result is a permutation of 0..n whose suffixes are in increasing order |
| SuffixArrays.SuffixArrayUnique | src/arrays.rs:16-27 | a text has one suffix array |
| SuffixArrays.TestSuffixArray | src/arrays.rs:46-48 | the suffix array of [3,1,4,2,1,3,0] is [6,4,1,3,5,0,2] |
| PfHelpers.Join | src/pf.rs:212-224 | `join` builds `JoinOf(slice)`: each vector shifted by 2 and closed by 1, then a final 0 |
| PfHelpers.JoinLength | src/pf.rs:212-224 | the length is the sum of the lengths, plus one per vector, plus one |
| PfHelpers.SeparateJoin | src/pf.rs:212-224 | 0 and 1 occur only as separators: cutting at them gives back the vectors |
| PfHelpers.JoinShape | src/bin/main2.rs:82-94 | the output ends with its only 0, and every other element is at least 1 |
| PfHelpers.Lengths | src/pf.rs:226-233 | one length per segment, then one more entry 1 |
| PfHelpers.NodeIds | src/pf.rs:235-243 | at rank `isa[i]` stands the number of separators before text position i |
| PfHelpers.NodePos | src/pf.rs:245-254 | at rank `isa[i]` stands the offset of i from the last separator before it |
| PfHelpers.JoinPosition | src/pf.rs:212-224 | offset o of segment k lies at its start plus o, after k separators and o elements of that segment |
| PfHelpers.SentinelPosition | src/pf.rs:222 | the final 0 comes after all separators, at offset 0 |
| PfHelpers.RankToSegment | src/pf.rs:235-254 | the rank of offset o of segment k is mapped to id k and position o |
| PfHelpers.SequencePosition | src/pf.rs:256-266 | each segment gets the list of start offsets of its occurrences in the path text |
| PfHelpers.PosListAscending | src/pf.rs:256-266 | each segment's start offsets are ascending |
| PfHelpers.RightContextRank | src/pf.rs:268-280 | each segment gets the ranks of the suffixes right after its occurrences, with a sorted suffix array |
| PfHelpers.ListsAligned | src/pf.rs:256-280 | each segment has as many context ranks as start offsets |
| PfHelpers.SortContexts | src/pf.rs:60-64 | every rank list ends up ascending and a permutation of itself; its offsets are permuted the same way |
| MergeBlock.ArgMin | src/bin/main3/block.rs:51-58 | `argmin` returns the first index of the least rank, or 0 when every rank is exhausted |
| MergeBlock.FirstMinExhausted | src/bin/main3/block.rs:51-58 | the least rank is exhausted exactly when every rank is |
| MergeBlock.FirstMinExamples | src/bin/main2.rs:278-285 | ties go to the first index, and all-exhausted gives 0 |
| MergeBlock.NextNone | src/bin/main3/block.rs:32-33 | `next` returns None exactly when every row is exhausted, and then changes nothing |
| MergeBlock.NextEmits | src/bin/main3/block.rs:34-38 | the triple is (seq_pos[id[k]][idx[k]] + pos[k], id[k], pos[k]) for k = argmin |
| MergeBlock.NextKeeps | src/bin/main3/block.rs:40-45 | only row k moves: its index grows by 1 and its rank becomes the next one, or exhausted |
| MergeBlock.NextUsesOne | src/bin/main3/block.rs:31-48 | each emitted triple uses up exactly one outstanding occurrence |
| MergeBlock.NextKeepsOrder | src/bin/main3/block.rs:31-48 | with ascending lists, the emitted rank is at most every rank still outstanding |
| MergeBlock.Block.constructor | src/bin/main3/block.rs:11-27 | every row starts at occurrence 0 with the first rank of its segment |
| MergeBlock.Block.Next | src/bin/main3/block.rs:31-49 | `next` changes the state as `NextOf` says, and the outstanding count drops by one on each emit |
| MergeBlock.FirstRanks | src/bin/main3/block.rs:16-19 | the first rank of each row's segment, with every row at occurrence 0, is a consistent merge state |
| MergeBlock.PickOrderMembers | src/bin/main3/block.rs:31-48 | the merge from a state takes exactly the occurrences still outstanding in it, as many as there are |
| MergeBlock.PickOrderFinds | src/bin/main3/block.rs:31-48 | every outstanding occurrence has a place in the merge order |
| MergeBlock.PickOrderDistinct | src/bin/main3/block.rs:31-48 | the merge takes no occurrence twice |
| MergeBlock.PickOrderSorted | src/bin/main3/block.rs:31-48 | with ascending rank lists, the merge takes occurrences in ascending right-context rank |
| MergeBlock.NextPickNone | src/bin/main3/block.rs:32-33 | `next` returns None exactly when the merge from the current state takes nothing |
| MergeBlock.NextPick | src/bin/main3/block.rs:32-47 | otherwise `next` yields the triple of the merge's first pair, and the merge from the new state is the rest |
| MergeBlock.DrainStep | src/bin/main2.rs:177-179 | one turn of the drain loop extends the triples printed so far by the triple of the next pair the merge takes |
| MergeBlock.Block.Drain | src/bin/main2.rs:176-179 | the `for` loop over a block yields the triples of the merge's pairs in the merge's order, one per outstanding occurrence, and leaves every row exhausted |
| BlockScan.BlockEnd | src/bin/main2.rs:173-174 | the block end is the first rank e at or after j whose LCP is below `remaining` |
| BlockScan.BlocksOrdered | src/bin/main3/main.rs:70-86 | the blocks are non-empty, inside the ranks, and consecutive without overlap |
| BlockScan.BlocksCover | src/bin/main3/main.rs:70-86 | every rank with more than `overlap` characters left lies in a block; skipped ranks have at most `overlap` |
| BlockScan.FindEnd | src/bin/main2.rs:173-174 | the inner loop stops at `BlockEnd` |
| BlockScan.FreshOutstanding | src/bin/main3/block.rs:16-23 | a fresh block owes every occurrence of its rows' segments, `RowCount` of its rows |
| BlockScan.BlockOutputLength | src/bin/main2.rs:176-179 | a block prints one triple per occurrence of each of its rows' segments |
| BlockScan.BlockOutputHas | src/bin/main2.rs:176-179 | the triple (seq_pos + pos, id, pos) of every occurrence of every row of a block is printed |
| BlockScan.BlockOutputSorted | src/bin/main2.rs:176-179 | with ascending rank lists, a block prints its occurrences in ascending right-context rank |
| BlockScan.BlocksOutputHas | src/bin/main2.rs:169-182 | the triple of every occurrence of every row of every printed block is in the output |
| BlockScan.ScanSkip | src/bin/main2.rs:172 | a rank with at most `overlap` characters left is skipped without changing the blocks still to come |
| BlockScan.ScanBlock | src/bin/main2.rs:173-181 | a long-enough rank opens the next listed block i..j and the scan continues from j |
| BlockScan.PrintedSnoc | src/bin/main2.rs:176-181 | the output after one more block is the earlier output followed by that block's triples |
| BlockScan.PrintedStep | src/bin/main2.rs:176-181 | printing the next listed block after the blocks so far gives the output of the longer list |
| BlockScan.ScanPrintsAll | src/bin/main2.rs:169-182 | every occurrence of the segment of every long-enough rank from the start on is printed |
| BlockScan.ScanCovers | src/bin/main2.rs:169-182 | the same for all such ranks and occurrences at once |
| BlockScan.RunBlock | src/bin/main2.rs:176-179 | a fresh `Block` over the rows i..j, drained, yields `BlockOutput` of i..j |
| BlockScan.ScanFrom | src/bin/main2.rs:169-182 | the scan loop prints the triples of the blocks `Blocks` lists from its start, block after block, each block's in merge order |
| BlockScan.PrintTagArray | src/bin/main2.rs:160-183 | `print_tag_array` prints the blocks of the scan from rank \|len\|+1, in order |
| BlockScan.TagArray | src/bin/main3/pf.rs:77 | the scan from rank \|len\| (the ranks of the separators and the final 0 sort first) prints its blocks in order and covers every occurrence of every long-enough data rank |
| BlockScan.SkippedFirstRank | src/bin/main2.rs:169 | on the one-segment example "AC", starting at \|len\|+1 loses the block (2, 3) that starts at rank \|len\| |
| BlockScan.GetBlockAtAsWritten | src/pf.rs:144-166 | `get_block_at` as written: None only when `start` is past the last rank, and then a block that starts where the unbounded skip loop stops |
| BlockScan.GetBlockAtOverrun | src/pf.rs:147-151 | on the example, the skip loop from rank 3 runs past the last rank |
| BlockScan.GetBlockAt | src/pf.rs:144-166 | with the skip bounded: None exactly when no block is left, else the first block from `start` |
| BlockScan.StartAtZero | src/pf.rs:85-93 | starting at rank 0 finds the same blocks when the separator ranks are too short to open one |
| PrefixFree.Chunks | src/pf.rs:313-319 | every trigger cut from the trigger file has the trigger length |
| PrefixFree.GetTriggers | src/pf.rs:313-319 | the loop cuts `size` characters and skips one separator, as `Chunks` |
| PrefixFree.ChunksOfJoined | src/pf.rs:313-319 | triggers written one per separated chunk are read back |
| PrefixFree.SplitPieces | src/pf.rs:368-388 | splitting succeeds exactly when there is a trigger and it is no longer than the text |
| PrefixFree.SplitFacts | src/pf.rs:368-388 | every piece but the last ends with a trigger, consecutive pieces overlap by k characters, no trigger occurs inside a piece, and dropping the overlaps spells the text |
| PrefixFree.AddedFacts | src/pf.rs:353-366 | a new piece gets id = map size; a known one keeps its id and the map does not change |
| PrefixFree.AddAllFacts | src/pf.rs:353-366 | adding pieces keeps ids dense and names each piece's id in the path |
| PrefixFree.PrefixFreeGraph.constructor | src/bin/pfp_graph.rs:25-26 | the state starts empty: no segments, no paths |
| PrefixFree.PrefixFreeGraph.AddSegment | src/pf.rs:353-366 | the map gains the piece if new, and the path gains its id |
| PrefixFree.PrefixFreeGraph.SplitPrefixFree | src/pf.rs:368-388 | on success the map gains the new pieces and the paths gain the text's path; on failure nothing changes |
| PrefixFree.BelowTotal | src/pf.rs:338 | byte-string order is total |
| PrefixFree.InsertSortedFacts | src/pf.rs:338 | inserting into a sorted list keeps it sorted and adds exactly the element |
| PrefixFree.SortedNames | src/pf.rs:337-338 | the segment names, strictly sorted, each once |
| PrefixFree.NewIds | src/pf.rs:340-341 | the old id of the i-th name in order is mapped to i |
| PrefixFree.Rename | src/pf.rs:344-346 | every path entry is replaced by its new id, keeping the shape |
| PrefixFree.Normalize | src/pf.rs:334-351 | the names come out sorted, and every renamed path step names the same segment string as before |
| GfaWriter.PrintGfa | src/pf.rs:418-440 | the writer loop produces `Gfa(segments, paths, k)` |
| GfaWriter.WriteSegments | src/pf.rs:425-429 | the header line and one S line per segment id, in order |
| GfaWriter.WritePath | src/pf.rs:430-438 | the P line of a path with steps "id+" joined by ",", then its L lines |
| GfaWriter.PathBlocksShape | src/pf.rs:430-438 | output exists exactly when no path is empty; then each path gives one P line and \|path\|-1 L lines |
| GfaWriter.GfaShape | src/pf.rs:418-440 | 1 + \|segments\| + the steps of all paths lines; the header is "H\tVN:Z:1.1" and line 1+i is segment i's S line |
| GfaWriter.LinkLinesAt | src/pf.rs:435-437 | the L line after step j links step j to step j+1 with overlap "kM" |
| GfaWriter.StepsFieldParses | src/pf.rs:432-433 | the steps field of a P line parses back as the same ids, forward, offset 0 |
| GfaWriter.IntoPathStep | src/pf.rs:390-394 | a result exactly when the step is non-empty and its head parses: the id and the last byte |
| GfaWriter.IntoPathStepOfWord | src/pf.rs:390-394 | a written step word reads back as its id and '+' |
| GfaWriter.IntoPathStepExample | src/pf.rs:446-450 | "2+" gives (2, '+') |
| GraphPositions.DirectionText | src/gp.rs:14-21 | forward displays "+", reverse "-" |
| GraphPositions.DirectionRoundTrip | src/gp.rs:14-21 | a direction's sign reads back as it, and only a sign reads as a direction |
| GraphPositions.DefaultGraphPos | src/gp.rs:23-28 | the default position is {id 0, forward, pos 0} |
| GraphPositions.ParseGraphPos | src/gp.rs:39-48 | a result exactly when the head parses as a `usize` and the last byte is '+' or '-'; the offset is 0 |
| GraphPositions.ParseStepText | src/gp.rs:39-48 | `from_str` of id followed by the displayed direction gives back (id, direction, 0) |
| GraphPositions.ToPath | src/gp.rs:52-61 | '>' and the id for forward, '<' and the id for reverse |
| GraphPositions.ToPathInjective | src/gp.rs:52-61 | two positions with the same walk text agree on id and direction |
| GraphPositions.ParseExamples | src/bin/main3.rs:63-73 | "12+", "12-" and "7+" parse as stated; a bad last byte or head fails |
| GraphLayout.ParsePiecesAll | src/main.rs:199-201 | the steps parse exactly when every piece is non-empty and parses |
| GraphLayout.ParseStepsText | src/main.rs:199-201 | writing a step list and parsing it back gives the same steps at offset 0 |
| GraphLayout.ParsePathsAll | src/bin/main3/main.rs:98-102 | parsing fails at the first path that does not parse, and succeeds when all do |
| GraphLayout.Offsets | src/main.rs:203-209 | 0, then each entry the previous plus the node's length; one more entry than steps |
| GraphLayout.OffsetsPrefix | src/main.rs:203-209 | an offset is the total length of the nodes before it |
| GraphLayout.OffsetsAscending | src/main.rs:203-209 | offsets never decrease and grow across a node of positive length |
| GraphLayout.LocateInNode | src/bin/main3/main.rs:79-83 | the offset of the node found by `argpred` is at most the position, so the in-node offset is non-negative |
| GraphLayout.ParseGraph | src/bin/main3/main.rs:93-113 | the steps of all paths in order, and start[k] the running sum of lengths before step k, with no sentinel |
| GraphLayout.ParseProcessAgree | src/main.rs:180-211 | `parse_graph` and `process_graph` list the same steps and starts; `process_graph` adds the total as sentinel |
| GraphLayout.ProcessGraph | src/main.rs:180-211 | the loops compute `Layout`: path starts and names, node starts with a sentinel, node names |
| GraphLayout.LayoutFirstStep | src/main.rs:196 | a path's start is the offset of its first step |
| GraphLayout.LayoutUnknown | src/main.rs:205 | a step naming a segment without a length makes `process_graph` fail |
| GraphLayout.ExtractPath | src/main.rs:150-168 | pstart = sa - node start, pend = pstart + len, plen the length of the listed nodes, and pstart <= pend <= plen |
| GraphLayout.WalkNodes | src/main.rs:161-164 | the loop lists, from the first node, every node starting before the match's end |
| GraphLayout.ExtractPathExample | src/main.rs:170-178 | a match of 3 at position 5 of a 10-character node gives (">0", 10, 5, 8) |
| GraphLayout.LocateTag | src/main.rs:225-226 | the tag is the node found by `argpred` with the offset from its start |
| GraphLayout.SampledArrays | src/main.rs:215-250 | the sampled arrays are the run-boundary samples of the located tags |
| Runs.RunStartsSpec | src/main.rs:236 | run starts ascend and are 0 and every index whose tag differs from its predecessor |
| Runs.Sample | src/bin/main.rs:82-96 | equal lengths, at least 2; the last samples are the last entries |
| Runs.SampleIsRunBoundaries | src/main.rs:221-249 | the samples are the first and last (sa, tag) of every maximal run, in order |
| Runs.SampleRuns | src/bin/main.rs:82-96 | the sampling loop computes `Sample` |
| Runs.RlEncode | scripts/create_col.py:76-90 | `rl_encode` computes the same run-boundary samples over (C, R) |
| Runs.CollapseFacts | scripts/create_col.py:194-198 | collapsing starts with the first value and has no equal neighbours |
| Runs.RunsConstant | scripts/create_col.py:76-90 | consecutive runs hold different values |
| Runs.DocListing | scripts/create_col.py:194-198 | `doc_listing(C, i, j)` is C[i:j] with adjacent duplicates collapsed, or [C[i]] when the range is empty |
| Predecessor.ArgPred | src/bin/main3/pred.rs:6-10 | the largest index whose value is at most `item` |
| Predecessor.LastAtMost | src/bin/main3/pred.rs:6-10 | the value there is at most `item` and every later value exceeds it |
| Predecessor.LastAtMostLocates | src/bin/main3.rs:104-108 | over starts beginning at 0 the predecessor exists, the next start is above `item`, and a last value at most `item` gives len - 1 |
| Query.LcpFacts | src/bin/main.rs:147-149 | the sequences agree below their LCP, and at it one ends or they differ |
| Query.LcpIs | src/bin/main.rs:147-149 | the LCP is the only length with those properties |
| Query.LexLessAtLcp | src/bin/main.rs:156-159 | Rust order is decided at the LCP |
| Query.LceText | src/bin/main.rs:150-161 | l is the LCP of the two suffixes and f holds exactly when suffix s1 is smaller; equal starts give (n - s1, false); the panic is unreachable |
| Query.LceGrammar | src/main.rs:291-302 | the same over the text the grammar derives |
| Query.ScanGrammar | src/main.rs:296 | the scan stops at the LCP of the two suffixes |
| Query.PyLce | scripts/create_col.py:103-113 | the LCP of the suffixes, with f exactly when suffix i is smaller or equal |
| Query.LceExampleRun | src/bin/main.rs:228-229 | lce("AAAAAAAAAA$", 0, 5) = (5, false) |
| Query.LceExampleHalves | src/bin/main.rs:230-231 | lce("AAAA$AAAA$", 0, 5) = (5, false) |
| Query.LceExampleMismatch | src/bin/main.rs:232-233 | lce("AGCTGCTGCTTGATGCTGATCG$", 1, 4) = (6, true) |
| Query.LceExampleSelf | src/bin/main.rs:234 | lce of a suffix with itself is its length and false |
| Query.GetLower | src/bin/main.rs:163-174 | r in [1, \|sa\|]; rank r-1 is 0 or below the pattern, rank r is not |
| Query.GetUpper | src/bin/main.rs:176-188 | r in [1, \|sa\|]; rank r-1 is 0 or not above the pattern, rank r is |
| Query.SortedNonDecreasing | src/bin/main.rs:190-195 | a suffix array sorted strictly is non-decreasing, so the searches accept it |
| Query.SampledNonDecreasing | src/main.rs:215-250 | the sampled suffix array, which repeats the last rank of one run and the first of the next, is non-decreasing |
| Query.SearchPartition | src/main.rs:261-286 | over non-decreasing suffixes (repeats allowed) the two results split ranks 1.. into below, matching and above |
| Query.ListUnique | src/main.rs:304-314 | the keys are the distinct tags, each with the sa value of its last occurrence |
| Query.ListUniqueSet | src/bin/main.rs:139-145 | the set holds exactly the tags of the input |
| Query.GraphPositions | src/bin/main.rs:190-195 | over non-decreasing suffixes, lower <= upper, the ranks in between match the pattern, and the result is the set of their tags |
| Mems.ParseMem | src/bin/main3/mem.rs:55-61 | drop the first and last characters, split at ',', two `usize`s |
| Mems.ParseMemText | src/bin/main.rs:55-63 | "(a,b)" parses back as (a, b) |
| Mems.Adjusted | src/bin/main.rs:124-125 | the reported position is ptr + ptr / 29850 |
| Mems.Place | src/bin/main.rs:121-126 | each MEM (a, b) becomes (adjusted ptrs[a], b), in order; a bad index fails |
| Mems.GetMems | src/bin/main.rs:99-137 | the loop computes `AllMems` of the two line lists |
| Mems.ReadLinePair | src/bin/main.rs:115-128 | a header line contributes nothing, and any other pair contributes its placed MEMs |
| Mems.ExtraLinesIgnored | src/bin/main.rs:114 | lines past the end of the shorter file are never read |
| Mems.HeadersOnly | src/bin/main.rs:115 | header lines contribute nothing, whatever the pointer line holds |
| Mems.FailureStays | src/bin/main.rs:116-119 | once a line fails to parse, the whole run fails |
| Mems.Triples | src/bin/main3/mem.rs:45-49 | each MEM (a, b) becomes (b, a, ptrs[a]), one per MEM, in order |
| Mems.NextOf | src/bin/main3/mem.rs:23-51 | None at the end of either file; fails on differing headers or a header without '>'; otherwise the record id and triples, consuming two lines of each file |
| Mems.MemReader.constructor | src/bin/main3/mem.rs:12-17 | the reader starts at the first line of both files |
| Mems.MemReader.Next | src/bin/main3/mem.rs:23-51 | one call gives `NextOf` of the remaining lines and advances past them |
| Mems.NextOfWritten | src/bin/main3/mem.rs:23-51 | a record written as header, one MEM and pointers reads back as its id and triple |
| Dna.Complement | src/lib.rs:8-16 | A/T and C/G swap, N stays, and every other byte fails |
| Dna.RevComp | src/lib.rs:5-19 | a result exactly for DNA input, and then it is the reverse complement |
| Dna.ReverseComplement | src/lib.rs:5-19 | the loop filling position n-1-i computes `RevComp` |
| Dna.RevCompInvolution | src/lib.rs:5-19 | the reverse complement of a reverse complement is the input |
| Dna.RevCompConcat | src/lib.rs:5-19 | the reverse complement of a concatenation is the swapped reverse complements |
| Dna.RevCompRejects | src/lib.rs:15 | one non-DNA byte makes the call fail |
| Dna.RevCompExample | src/lib.rs:5-19 | "ACCGTN" gives "NACGGT" |
| Naive.ParseSegments | src/naive.rs:8-23 | the loop computes the comma-separated steps, each (all but its last byte, last byte) |
| Naive.SegmentsOfJoined | src/naive.rs:8-23 | steps joined with commas parse back as the same steps |
| Naive.JoinedOfSegments | src/naive.rs:8-23 | the parsed steps, rejoined with commas, give back the text |
| Naive.GetSequence | src/naive.rs:25-39 | the loop computes `SequenceOf`: node strings, reverse-complemented for a sign other than '+' |
| Naive.SequenceLength | src/naive.rs:25-39 | over DNA nodes the sequence exists, is DNA and has the total node length |
| Naive.SequenceBackwards | src/naive.rs:25-39 | walking a path backwards with flipped signs spells the reverse complement |
| Naive.CreateSequence | src/naive.rs:72-89 | the loop computes `TextOf`: each path's sequence followed by "$", and the lengths |
| Naive.TextShape | src/naive.rs:72-89 | one length per path, and lengths[k] is the index of the k-th "$" |
| Naive.TagArray | src/naive.rs:47-70 | the loops compute `TagArrayOf` |
| Naive.TagArrayPlaces | src/naive.rs:47-70 | for an injective isa, each text position's tag (name and sign, offset) lands at its rank and separator ranks keep ("", 0) |
| Naive.TagArrayUnknown | src/naive.rs:60 | a step naming an unknown node makes `tag_array` fail |
| Naive.LabelsMatchText | src/naive.rs:47-89 | the tags line up with the text: one per position, the default exactly at the "$"s |
| Tables.Inserted | src/naive.rs:91-101 | the keys are exactly the inserted keys |
| Tables.InsertedLast | src/naive.rs:96-99 | each key holds the value of its last insertion |
| Tables.Insert | src/main.rs:186-187 | the insert loop computes `Inserted` |
| TagFile.WriteTags | src/main.rs:81-85 | one "sa\tid±:pos" line per sample, in order |
| TagFile.ReadTagLine | src/main.rs:140-145 | two tab-separated fields, the first a `usize`, the second parsed by `GraphPos::from_str`, so offset 0 |
| TagFile.TagLineUnreadable | src/main.rs:144 | no line `create_tag` writes can be read by `read_tag_array` |
| TagFile.TagArrayUnreadable | src/main.rs:138-148 | reading a non-empty tag file `create_tag` wrote always fails |
| TagFile.ReadTagLineFixed | src/main.rs:140-145 | the reader with the offset split off at ':' |
| TagFile.TagLineRoundTrip | src/main.rs:82-83 | the fixed reader reads a written line back as (sa, tag) |
| TagFile.TagArrayRoundTrip | src/main.rs:74-88 | the fixed reader reads a written tag file back as the sampled arrays |
| TagFile.WriteTable | src/generate_tag.rs:41-57 | one row per suffix-array entry, in order |
| TagFile.RowFields | src/generate_tag.rs:45-54 | a row splits at tabs into sa, tag name, offset and the rotation seq[sa..] + seq[..sa] |
| TagFile.TableLines | src/generate_tag.rs:54 | every row ends with a newline, and the rows read back as lines |
| TagFile.RowRotation | src/generate_tag.rs:50-53 | the rotation has the text's length and character k is seq[(sa + k) mod n] |
| MsaColumns.ColsSpell | scripts/create_col.py:6-15 | the gap-free columns of a row spell the row without gaps |
| MsaColumns.ColumnMapAt | scripts/create_col.py:6-15 | one key per non-gap character: (row, ungapped index) maps to its column |
| MsaColumns.ParseMsa | scripts/create_col.py:6-15 | every row ends with '$' afterwards, and the dictionary is the column map of those rows |
| MsaColumns.ParseMsaFile | create_col.py:13-23 | `parese_msa` builds the column map of the rows as given |
| MsaColumns.EndedColumnMap | create_col.py:25-34 | appending '$' adds exactly one entry per row, for the '$' |
| MsaColumns.MapMsaToT | scripts/create_col.py:17-29 | the loops compute `MsaToT` |
| MsaColumns.TextMapAt | scripts/create_col.py:17-27 | non-gap characters are numbered 0, 1, 2, … in row-major order |
| MsaColumns.MsaToTPoints | scripts/create_col.py:17-29 | each non-gap character maps to its position in T, and the last key to the total |
| MsaColumns.TextIsConcat | scripts/create_col.py:49 | T is the gap-free rows, each closed by '$', then '#' |
| MsaColumns.EndPositions | scripts/create_col.py:52-55 | EP is 0 and then one past every '$' of T |
| MsaColumns.EndPositionsOfText | scripts/create_col.py:52-55 | EP lists the start of each row in T, then the index of the final '#' |
| MsaColumns.EndPositionsAscend | create_col.py:58-61 | EP ascends strictly and ends at the final '#' |
| MsaColumns.FirstAboveIs | scripts/create_col.py:31-39 | over ascending entries the scan finds an entry above p exactly when the last one is |
| MsaColumns.FindRowBetween | scripts/create_col.py:36-39 | for EP[0] <= p < EP[-1], `find_row` gives u with EP[u] <= p < EP[u+1] and `find_P` gives p - EP[u] |
| MsaColumns.LocateInRow | scripts/create_col.py:31-39 | a position before the final '#' lies in exactly one row, at the found offset |
| MsaColumns.ConstructCol | scripts/create_col.py:48-74 | the loops compute `ColumnsOf` |
| MsaColumns.ColumnAt | scripts/create_col.py:60-72 | on a well-formed MSA each rank gets the column of the character before its suffix |
| MsaColumns.ColumnsCorrect | create_col.py:67-79 | `construct_col` on a well-formed MSA and a suffix array of T succeeds with one correct column per rank, and len(msa)+1 for the '#' rank |
| MsaColumns.ColumnsOfEmptyMsa | scripts/create_col.py:60-72 | an empty MSA makes `construct_col` fail |
| MsaSearch.FirstFromIs | scripts/create_col.py:92-101 | the least start in range where P occurs, -1 exactly when there is none |
| MsaSearch.RindexQuery | scripts/create_col.py:92-101 | the first occurrence starting below n - m, else -1 |
| MsaSearch.RindexQueryMissesLastStart | scripts/create_col.py:95 | "A" in "A" gives -1 |
| MsaSearch.FindFirst | scripts/create_col.py:92-101 | -1 exactly when P occurs nowhere in T, else the first start |
| MsaSearch.FindFirstFindsLastStart | scripts/create_col.py:95 | the corrected query finds the occurrence at the end |
| MsaSearch.LinSearch | scripts/create_col.py:165-174 | the loop returns i + (not upper) for the first test that is done, as `LinSpec` states |
| MsaSearch.TestsAgree | scripts/create_col.py:145-163 | the upward test at i and the downward test at i - 1 are the same test, so both directions test in the same order |
| MsaSearch.LinSearchAgree | scripts/create_col.py:200-205 | both searches of `get_cols` return the same index |
| MsaSearch.GetCols | scripts/create_col.py:200-205 | a result exactly when the search finds a boundary, and then the one column C[index] |
| WalksToPaths.ToPathNodeOfToPath | scripts/walks2paths.py:5-9 | `to_pathnode` inverts `to_path`: the text reads back as the step, offset 0 |
| WalksToPaths.ToPathNodeExamples | scripts/walks2paths.py:5-9 | ">12" gives "12+" and "<7" gives "7-" |
| WalksToPaths.WalkNodes | scripts/walks2paths.py:31 | every match of `[><][0-9]+` is a walk node |
| WalksToPaths.WalkNodesOfWalk | scripts/walks2paths.py:31 | the matches in a written walk are its steps' walk texts, in order |
| WalksToPaths.PathStepsOfWalk | scripts/walks2paths.py:31-33 | the steps field built from a written walk lists the steps "id±" |
| WalksToPaths.EmitWalkLine | scripts/walks2paths.py:28-34 | a seven-field W line becomes "P\t<sample>\t<steps>\t*" |
| WalksToPaths.WalkLineToPathLine | scripts/walks2paths.py:28-34 | a W line over a walk becomes the P line listing the walk's steps joined by "," |
| WalksToPaths.Run | scripts/walks2paths.py:12-34 | a wrong argument count prints the usage line and stops; otherwise the output is `Converted(lines)` |
| WalksToPaths.ConvertedWithoutWalks | scripts/walks2paths.py:21-27 | without W lines, the H, S and L lines are echoed and the others dropped |
| WalksToPaths.ConvertedStopped | scripts/walks2paths.py:30 | once a W line that does not split into seven fields stops the script, the later lines print nothing |
| FastmapToSam.HeaderLineFields | scripts/fastmap2sam.py:5-7 | the @SQ line splits at tabs into "@SQ", "SN:name", "LN:length" |
| FastmapToSam.SamLineFields | scripts/fastmap2sam.py:50-53 | a SAM line has 12 tab-separated fields: QNAME, FLAG, RNAME, POS, 60, tlen"M", "*", "0", TLEN, "*", "*", "" |
| FastmapToSam.FlagText | scripts/fastmap2sam.py:39 | FLAG is 0 exactly on a '+' position and 16 otherwise |
| FastmapToSam.Header | scripts/fastmap2sam.py:5-7 | one header line per FASTA record |
| FastmapToSam.PrintHits | scripts/fastmap2sam.py:37-53 | the hit loop prints `HitLines` |
| FastmapToSam.FastmapToSamLines | scripts/fastmap2sam.py:10-53 | the output is the header and then the lines of every hit, carrying the query name across lines |
| FastmapToSam.OneLinePerHit | scripts/fastmap2sam.py:35-53 | every hit of an EM line produces exactly one SAM line |
| FastmapToSam.QueryIsLastSq | scripts/fastmap2sam.py:33-34 | hits are printed with the name of the latest SQ line |
| FastmapToSam.MappedStopped | scripts/fastmap2sam.py:32-53 | once a line stops the script, later lines print nothing |

## Findings

| source | as written | input that shows it | evidently intended | confidence | as-written member | corrected member |
|---|---|---|---|---|---|---|
| src/bin/main2.rs:169 | the block scan starts at rank len.len() + 1 (also src/bin/main3.rs:147, src/bin/main3/main.rs:70, src/bin/main3/pf.rs:77) | the one-segment graph "AC" with overlap 1 (segment join [67,69,1,0], suffix array [3,2,0,1], len [2,1]): rank 2 = len.len() is the suffix "AC", with 2 characters left, and the scan from rank 3 never prints its block (2, 3) | start at len.len(), the number of separator and sentinel ranks that sort first | not executed | BlockScan.SkippedFirstRank | BlockScan.TagArray |
| src/pf.rs:147-151 | `get_block_at` skips short ranks with no bound on `start` | the same graph: after block (2, 3), `get_block_at(3)` skips rank 3 (1 character left) and reads rank 4, past the last rank | stop and return None when no rank is left | not executed | BlockScan.GetBlockAtOverrun | BlockScan.GetBlockAt |
| src/main.rs:82-83 | `create_tag` writes "sa\tid±:pos", and `read_tag_array` parses the second field with `GraphPos::from_str` (src/main.rs:144), which reads "id±" only | any tag line, e.g. "5\t3+:0": the last byte of "3+:0" is '0', so parsing fails and `align` panics | parse "id±" and ":pos" separately | not executed | TagFile.TagArrayUnreadable | TagFile.TagArrayRoundTrip |
| scripts/create_col.py:95 | `rindex_query` loops over `range(n - m)` and never tries the last start n - m | T = "A", P = "A" gives -1 | `range(n - m + 1)` | not executed | MsaSearch.RindexQueryMissesLastStart | MsaSearch.FindFirstFindsLastStart |

## Left out

- File, stream and stdout I/O, `stat`, `fopen` and `fread`: contents and sizes are parameters, and outputs are strings or line lists.
- The GFA parser, the `bio` suffix-array and LCP functions, `pfg::pf::PFData::from_graph`, `pydivsufsort` and `Bio.SeqIO` are external libraries. Their results (segments, paths, SA, ISA, LCP, FASTA records) are inputs with stated properties.
- `clap` argument handling (src/cli.rs) and the `main` functions that only wire files to the modelled functions (src/main.rs:27-72, src/generate_tag.rs:21-39, src/bin/pfp_graph.rs). These are plumbing.
- `align` (src/main.rs:91-125): its GAF output is constant columns around `extract_path` and `get_graph_positions`, which are modelled.
- `reconstruct_path` (src/pf.rs:396-416) works on the GFA crate's structures; `load_trigs` (src/pf.rs:321-332) is a file read.
- `PFData::print`, `print_tag` and the debug `println!`s are printing only.
- `PFDataIterator::next` of src/bin/main3/pf.rs:93-160 moves its block out of a borrow and never sets `idx`. Only its block-boundary scan is modelled, in `BlockScan`.
- `check` and `binsearch` (scripts/create_col.py:116-143, 176-192) are never called by `get_cols`, and `search` (scripts/create_col.py:207-208) is a stub.
- The module-level code of create_col.py (lines 84-94) and the `__main__` block of scripts/create_col.py (lines 210-230) are file I/O around `construct_col`.
- HashMap and HashSet iteration order: `list_unique` results are a map and a set.
- The concrete results of `test_binsearch` (src/bin/main.rs:238-253) are not evaluated: that would need the suffix array of a 24-symbol text. `Query.SearchPartition` states the general property instead.
- The test that compares the `u8` and `usize` suffix arrays (src/arrays.rs:35-45): the `u8` version is the `bio` library.
- The test modules (src/tests1.rs, src/tests/, src/bin/main3/tests/) print or read fixed data files.
- Query.LceGrammar: takes a valid grammar; a malformed grammar's panics are not modelled.
- MsaSearch.GetCols: `occ1` is a natural. A -1 from `rindex_query` is not passed in, which Python would read as the last character.
- Text.ParseUsize and Text.ParsePyInt: Python's `int` also accepts surrounding whitespace and underscores, and neither is modelled.
- Permutations.Apply: `permutation_apply` panics when `data` is shorter than `perm`; the model requires it to be long enough.
- PfHelpers.Join: the model requires every value to be at most `maxValue` - 2; the source adds 2 to `u8` values without a check (src/pf.rs:218), so bytes 254 and 255 overflow (a panic in a debug build, a wrap-around in a release build), which is not modelled.
- TagFile.WriteTable: tag names and the text are modelled as strings; the `str::from_utf8(...).unwrap()` panics on bytes that are not UTF-8 (src/generate_tag.rs:47, 51-52) are not modelled.
- GfaWriter.PrintGfa: segments are modelled as strings; the `expect("Cannot convert seq to UTF8")` panic on a segment that is not UTF-8 (src/pf.rs:427) is not modelled.
- MergeBlock.Block.constructor: requires every row's segment to have at least one occurrence; `rc_rank[*i][0]` panics on a segment with none (src/bin/main3/block.rs:18), which is not modelled.
- Runs.DocListing: requires `i < len(C)` and `j <= len(C)`; the `IndexError` Python raises otherwise (scripts/create_col.py:195-197) is not modelled.
- PlainSlp.PrintPlain: requires every readable file to hold fewer than 12 + 8 * INT_MAX bytes (about 16 GB); on a larger `.R` file the C `int` rule count and loop counter overflow (scripts/print_plain_slp.c:98, 129), which is not modelled.
- Rust `usize` overflow in sums and offsets is ruled out by preconditions, except where the source parses numbers (`USIZE_MAX`) or computes grammar sizes (`Slp.Build` fails on overflow).
