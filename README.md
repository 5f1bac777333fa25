# lindera-cc-cedict-builder: dictionary and cost-matrix builders in Dafny

This project models the two builders at the core of the CC-CEDICT
dictionary compiler for the Lindera tokenizer (`src/lindera.rs`).

`Lindera::build_dict` does four things:

- It groups the dictionary entries by traditional form, in a `BTreeMap`
  ordered by key bytes. An entry whose cost is below `i16::MIN` is dropped.
- It writes the pinyin/definition payload blob (`dict.words`) and one
  little-endian u32 offset per entry (`dict.wordsidx`).
- It packs one trie value `(id << 5) | len` per group for the
  double-array builder (`dict.da`).
- It writes the groups' `WordEntry` records in key order (`dict.vals`).

`Lindera::build_cost_matrix` decodes `matrix.def` as UTF-8, splits it into
lines and whitespace-separated `i32` fields, and fills a vector of
`2 + forward_size * backward_size` i16 cells. That vector starts with the
two sizes, and every other cell starts as `i16::MAX`. Each later line
writes its cost at `2 + backward_id + forward_id * backward_size`. The
vector is then written as little-endian i16 values (`matrix.mtx`).

Modules:

- `Ints` makes the fixed-width integers and `as` casts explicit.
- `Bits` covers `<<`, `>>`, `|` and `&`.
- `ByteOrder` and `GroupMap` model the ordered map.
- `LittleEndian` covers the byteorder writes and their readers.
- `Utf8` models `str::from_utf8`.
- `Text` models `lines`, `split_whitespace` and `i32::from_str`.
- `DictBuilder` and `CostMatrix` model the two builders.

Every loop of the source is a `method` with its invariants. Each method
is proved equal to a declarative function of its inputs. The properties
are lemmas about those functions.

Arithmetic on `u32` wraps at 2^32, as a release build does. The output
files are the values the methods return.

Where the code does something a reader might not expect, the model
follows the code:

- The cost filter checks only the lower bound. A cost above `i16::MAX`
  is kept and truncated by `as i16` (`DictBuilder.CostAboveRangeTruncated`).
- The word id in each `WordEntry` is the entry's index in the source
  list. It is not the dense counter; that counter only goes into the trie
  value.
- A dropped entry still gets its payload record and its offset.
- Matrix lines are not checked against the sizes. An out-of-range
  backward id writes into the next row
  (`CostMatrix.BackwardIdOverflowsIntoNextRow`). A negative id is read as
  a large u32 (`CostMatrix.OutOfRangeCellPanics`).

## Model

| member | source | states |
|---|---|---|
| DictBuilder.GroupWords | src/lindera.rs:28-46 | the loop builds a valid map (keys strictly ascending, no empty list) equal to the grouping function, and the list under every key is exactly that key's group |
| DictBuilder.GroupMembership | src/lindera.rs:30-45 | entry j is in the group of `key` iff its cost is at least -32768 and its traditional form is `key`; the k-th record is `WordEntry(WordId(j as u32, true), cost as i16, 0)` of the k-th such entry, in source order |
| DictBuilder.GroupingContents | src/lindera.rs:28-46 | the map's keys are strictly ascending, are exactly the traditional forms of kept entries, and each list is that key's group |
| DictBuilder.GroupingSize | src/lindera.rs:30-46 | the map holds one record per kept entry in all |
| DictBuilder.CostAboveRangeTruncated | src/lindera.rs:31-43 | a cost of 40000 is not dropped and is stored as -25536 |
| GroupMap.PushEntryCorrect | src/lindera.rs:38-45 | `entry(key).or_insert_with(Vec::new).push(v)` keeps the map sorted and duplicate-free, adds `key` if absent, appends `v` to its list and changes no other list |
| GroupMap.FlattenSlice | src/lindera.rs:95-99 | the k-th list occupies the range of the value stream that starts after the lists of the groups before it |
| DictBuilder.WriteWords | src/lindera.rs:54-62 | `dict.words` is every entry's record in source order, and `dict.wordsidx` is the u32 stream of the offsets taken before each append |
| DictBuilder.OffsetsPrefixSums | src/lindera.rs:54-60 | the first offset is 0 and each next offset is the previous one plus the previous record's length (for a payload below 2^32 bytes) |
| DictBuilder.OffsetsMonotone | src/lindera.rs:54-60 | offsets never decrease |
| DictBuilder.PayloadLookupRoundTrip | src/lindera.rs:54-62 | the u32 at byte 4i of `dict.wordsidx` points at entry i's record in `dict.words` |
| LittleEndian.U32StreamAt | src/lindera.rs:58 | reading the i-th little-endian u32 of the index gives back the i-th value written |
| DictBuilder.PackUnpack | src/lindera.rs:81 | `val >> 5` gives the start's low 27 bits and `val & 31` gives the length |
| DictBuilder.BuildKeyset | src/lindera.rs:66-85 | the loop yields the pair list, with `id` and `lastlen`, of the keyset function; on a group whose length cast `as u32` is 32 or more it stops with that group |
| DictBuilder.OversizedIff | src/lindera.rs:76-80 | the length assertion fails iff some group's length cast `as u32` is 32 or more (a group of 2^32 to 2^32 + 31 records passes); otherwise there is one pair per group, keyed by its key, with length at most 31 |
| DictBuilder.HugeGroupPasses | src/lindera.rs:76-81 | a group of exactly 2^32 records passes the length assertion and packs length 0 |
| DictBuilder.KeysetAscending | src/lindera.rs:73-86 | the keys handed to the trie builder are strictly ascending by bytes, so they are unique |
| DictBuilder.StartIsRecordsBefore | src/lindera.rs:66-84 | the counter `id` on reaching group k is the number of records in the groups before it, mod 2^32 |
| DictBuilder.PairAddressesGroup | src/lindera.rs:73-99 | unpacking pair k's value gives the range of the value stream that holds group k (stream below 2^27 records) |
| DictBuilder.TrieValueAddressesGroup | src/lindera.rs:27-102 | for every trie pair, `val >> 5` and `val & 31` select from `dict.vals` exactly the records of that key's entries, in source order (fewer than 2^27 kept entries) |
| DictBuilder.FinalCounters | src/lindera.rs:74-89 | at the end `id == lastlen ==` the number of kept entries, mod 2^32 |
| DictBuilder.WriteValues | src/lindera.rs:95-99 | the nested loop writes the flattened groups in key order |
| DictBuilder.BuildDict | src/lindera.rs:27-102 | `dict.words`/`dict.wordsidx` are always written; the build aborts on an oversized group or a trie-builder failure, and otherwise returns the trie bytes and the flattened groups |
| DictBuilder.SingleEntry | src/lindera.rs:28-85 | one entry 你好 of cost 10 gives one group with `WordEntry(WordId(0, true), 10, 0)`, trie value 1 (start 0, length 1), and counters ending at 1 |
| Utf8.DecodeEncode | src/lindera.rs:106 | every text's UTF-8 encoding decodes back to it |
| Utf8.EncodeDecode | src/lindera.rs:106 | bytes accepted by `from_utf8` are exactly the encoding of the text they decode to |
| Utf8.DecodeAscii | src/lindera.rs:106 | ASCII bytes decode one character each, to the same code |
| Text.LinesOfUnlines | src/lindera.rs:107 | `lines` gives back lines written with '\n' terminators (no '\n' inside, no trailing '\r') |
| Text.LinesHaveNoNewline | src/lindera.rs:107 | no line yielded by `lines` contains '\n' |
| Text.SplitYieldsFields | src/lindera.rs:108-109 | every piece from `split_whitespace` is non-empty and has no whitespace |
| Text.SplitOfUnwords | src/lindera.rs:108-109 | `split_whitespace` gives back fields joined by spaces |
| Text.ParseFormat | src/lindera.rs:110 | `i32::from_str` reads every i32 back from its decimal form |
| Text.ParseRejectsOverflow | src/lindera.rs:110-111 | a decimal number above i32::MAX is a parse error, not a wrapped value |
| CostMatrix.ParseFormatFields | src/lindera.rs:108-111 | a line of numbers written in decimal parses back to those numbers |
| CostMatrix.ParseRows | src/lindera.rs:105-113 | the loop collects every line's fields and stops with an error at the first line that does not parse |
| CostMatrix.FailsIff | src/lindera.rs:106-111 | the builder returns an error iff `matrix.def` is not UTF-8 or some line has a non-i32 field; it returns a `Utf8Error` iff decoding fails |
| CostMatrix.TextFailsIff | src/lindera.rs:107-113 | on decoded text the builder returns an error iff some line has a field that is not an i32, and that error is never a UTF-8 error |
| CostMatrix.ReadsWrittenMatrix | src/lindera.rs:106-113 | a `matrix.def` written from a table of i32 rows builds the same as those rows |
| CostMatrix.FillCosts | src/lindera.rs:119-127 | the array fill equals the cell function: sizes in cells 0 and 1, i16::MAX elsewhere, each line's cost at its index; the first short line or out-of-range index panics |
| CostMatrix.WriteCosts | src/lindera.rs:132-134 | `matrix.mtx` is the cells as consecutive little-endian i16 values |
| CostMatrix.BuildFromRows | src/lindera.rs:114-134 | after parsing, the builder equals the function of the rows: missing or short header panics, and otherwise it fills then writes |
| CostMatrix.BuildCostMatrix | src/lindera.rs:104-137 | the whole builder equals the function of the `matrix.def` bytes |
| CostMatrix.BuiltIff | src/lindera.rs:114-127 | once parsed, the builder never errors; it finishes iff there is a header and no later line is short or out of range; every cell then holds the last cost written to it, or its initial value |
| CostMatrix.MatrixLayout | src/lindera.rs:115-134 | a built matrix has `2 + (f as u32 * b as u32)` cells (wrapping), cells 0 and 1 are the sizes as i16, and every cell reads back from its two bytes of the file |
| CostMatrix.CellsOfInRangeLines | src/lindera.rs:116-127 | with non-negative sizes whose product fits a u32 and every id in range, the build succeeds with exactly `2 + f * b` cells, and the cell of (fid, bid) holds the cost of the last line naming that pair, truncated to i16, or i16::MAX |
| CostMatrix.InRangeBuilds | src/lindera.rs:114-127 | with non-negative sizes whose product fits a u32 and every id in range, no line panics, the sizes are read unchanged, and the vector has `2 + f * b` cells, each holding the last cost written to it or its initial value |
| CostMatrix.PairInjective | src/lindera.rs:126 | distinct in-range (forward_id, backward_id) pairs have distinct cells |
| Ints.U16ThenI16 | src/lindera.rs:125-126 | `cost as u16 as i16` equals `cost as i16` |
| CostMatrix.EmptyMatrixPanics | src/lindera.rs:114-115 | an empty `matrix.def` panics on the missing header |
| CostMatrix.SmallMatrix | src/lindera.rs:115-127 | sizes 2 2 with line "0 1 50" give cells [2, 2, MAX, 50, MAX, MAX] |
| CostMatrix.BackwardIdOverflowsIntoNextRow | src/lindera.rs:123-126 | the line "0 2 7" under sizes 2 2 writes the cell of (1, 0) |
| CostMatrix.OutOfRangeCellPanics | src/lindera.rs:123-126 | forward id 2 under sizes 2 2 panics at index 6 of 6; forward id -1 panics at index 2^32 |

## Left out

- `src/mecab.rs` (reading the MeCab/CC-CEDICT source files), `build_chardef`, `build_unk`, `src/main.rs` and `src/error.rs` are not part of this model.
- File creation, `BufWriter` writes, `flush` and their I/O errors are not modelled. The methods return the bytes that would be written.
- The `println!` diagnostics and the headword field `word.word` they print are not modelled.
- bincode's `serialize_into` is a function parameter. The payload properties hold for any serialiser.
- `WordEntry::serialize` is not modelled. `dict.vals` is the sequence of records in write order, not their bytes.
- The double-array construction of the yada crate is a function parameter. The model does not say what the trie bytes are.
- u32 overflow (`forward_size * backward_size`, `id += len`, `lastlen += len`, `forward_id * backward_size`, `backward_id + …`) is modelled with release-mode wrap-around. A debug build panics on overflow instead; that panic is not modelled.
- Allocation failure for a huge cost vector is not modelled.
- DictBuilder.TrieValueAddressesGroup: requires fewer than 2^27 kept entries (dropped entries do not count). Above that, `id << 5` drops the start's high bits and the value no longer addresses the group.
- DictBuilder.OffsetsPrefixSums: requires a payload shorter than 2^32 bytes. Past that, `offset as u32` wraps; `Offsets` models the wrap but the lemma does not describe it.
- DictBuilder.PayloadLookupRoundTrip: requires a payload shorter than 2^32 bytes, for the same reason.
- DictBuilder.OffsetsMonotone: requires a payload shorter than 2^32 bytes; past that, a wrapped offset is smaller than the one before it.
- `str::lines` is modelled as the current standard library defines it: a final line without '\n' keeps a trailing '\r'. Either way, '\r' is whitespace to `split_whitespace`, so the parsed fields are the same.
