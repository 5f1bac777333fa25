/** `Lindera::build_dict` (src/lindera.rs:27-102): groups the dictionary
    entries by traditional form, writes the payload blob with its offset
    index, packs one trie value per group and writes the value records.

    The four files are modelled as the sequences that would be written:
    `dict.words` and `dict.wordsidx` as bytes, `dict.da` as the bytes the
    trie builder returned, `dict.vals` as the sequence of `WordEntry`
    records (their byte layout belongs to `WordEntry::serialize`, outside
    this repository). The bincode serialiser and the double-array builder
    are parameters. */
module DictBuilder {
  import opened Ints
  import opened Options
  import opened ByteOrder
  import opened GroupMap
  import opened LittleEndian
  import opened Bits

  /** One source entry. Its traditional form is kept as its UTF-8 bytes,
      the order `String` keys compare in. The headword `word.word` only
      appears in a diagnostic and is not modelled. */
  datatype Word = Word(traditional: Key, cost: i32, pinyin: string, definition: string)

  /** `WordId(index, is_known)` of lindera_core. */
  datatype WordId = WordId(id: u32, known: bool)

  /** `WordEntry { word_id, word_cost, cost_id }` of lindera_core. */
  datatype WordEntry = WordEntry(wordId: WordId, wordCost: i16, costId: u16)

  /** bincode's `serialize_into` applied to `vec![pinyin, definition]`:
      the bytes appended to the payload buffer for one entry. */
  type Serialiser = (string, string) -> seq<byte>

  /** `DoubleArrayBuilder::build`: the trie bytes, or `None` on failure. */
  type TrieBuilder = seq<(Key, u32)> -> Option<seq<byte>>

  /** Why a build stops: the `assert!`s on the group length and on the
      trie builder's result. */
  datatype Abort = OversizedGroup(key: Key, len: u32) | DoubleArrayBuildError

  /** What build_dict leaves behind. Either way `dict.words` and
      `dict.wordsidx` were already written when the trie was built. */
  datatype DictOutcome =
    | Built(words: seq<byte>, wordsIdx: seq<byte>, da: seq<byte>, vals: seq<WordEntry>)
    | Aborted(words: seq<byte>, wordsIdx: seq<byte>, reason: Abort)

  // ---------------------------------------------------------------------
  // Grouping (src/lindera.rs:28-46)

  /** The cost filter: only a cost below `i16::MIN` drops an entry; no
      upper bound is checked. */
  predicate Kept(w: Word)
  {
    !(w.cost < I16_MIN)
  }

  /** The record pushed for the entry at source index `i`: the source index
      (not a running counter) as word id, flagged known, the cost cast with
      `as i16`, and cost id 0. */
  function EntryFor(i: nat, w: Word): WordEntry
  {
    WordEntry(WordId(AsU32(i), true), AsI16(w.cost), 0)
  }

  /** The source indices below `n` of kept entries with traditional form
      `key`, in ascending order. */
  function Matches(ws: seq<Word>, n: nat, key: Key): (m: seq<nat>)
    requires n <= |ws|
    ensures forall k :: 0 <= k < |m| ==> m[k] < n
  {
    if n == 0 then []
    else Matches(ws, n - 1, key) + (if Kept(ws[n - 1]) && ws[n - 1].traditional == key then [n - 1] else [])
  }

  /** The records of the entries at the given source indices. */
  function EntriesAt(ws: seq<Word>, idx: seq<nat>): (es: seq<WordEntry>)
    requires forall k :: 0 <= k < |idx| ==> idx[k] < |ws|
    ensures |es| == |idx|
  {
    seq(|idx|, k requires 0 <= k < |idx| => EntryFor(idx[k], ws[idx[k]]))
  }

  /** The group of `key` after the first `n` entries have been read. */
  function GroupBefore(ws: seq<Word>, n: nat, key: Key): seq<WordEntry>
    requires n <= |ws|
  {
    EntriesAt(ws, Matches(ws, n, key))
  }

  /** The group of `key`: the records of all kept entries with that
      traditional form, in source order. */
  function GroupOf(ws: seq<Word>, key: Key): seq<WordEntry>
  {
    GroupBefore(ws, |ws|, key)
  }

  /** The map after the first `n` entries have been pushed. */
  ghost function Grouping(ws: seq<Word>, n: nat): (gs: seq<Group<WordEntry>>)
    requires n <= |ws|
    ensures Valid(gs)
  {
    if n == 0 then []
    else
      var gs := Grouping(ws, n - 1);
      if Kept(ws[n - 1]) then
        PushEntryCorrect(gs, ws[n - 1].traditional, EntryFor(n - 1, ws[n - 1]));
        PushEntry(gs, ws[n - 1].traditional, EntryFor(n - 1, ws[n - 1]))
      else gs
  }

  /** The loop of src/lindera.rs:30-46 filling `word_entry_map`. */
  method GroupWords(ws: seq<Word>) returns (groups: seq<Group<WordEntry>>)
    ensures groups == Grouping(ws, |ws|)
    ensures Valid(groups)
    ensures forall key :: Lookup(groups, key) == GroupOf(ws, key)
  {
    groups := [];
    for i := 0 to |ws|
      invariant groups == Grouping(ws, i)
    {
      var word := ws[i];
      if word.cost < I16_MIN {
        continue;
      }
      groups := PushEntry(groups, word.traditional, WordEntry(WordId(AsU32(i), true), AsI16(word.cost), 0));
    }
    forall key
      ensures Lookup(groups, key) == GroupOf(ws, key)
    {
      GroupingLookup(ws, |ws|, key);
    }
  }

  /** Source indices of a group are exactly the kept entries with that
      key, strictly ascending (source order). */
  lemma MatchesExactly(ws: seq<Word>, n: nat, key: Key)
    requires n <= |ws|
    ensures forall j :: j in Matches(ws, n, key) <==> 0 <= j < n && Kept(ws[j]) && ws[j].traditional == key
    ensures forall a, b :: 0 <= a < b < |Matches(ws, n, key)| ==> Matches(ws, n, key)[a] < Matches(ws, n, key)[b]
  {
    MatchesMembers(ws, n, key);
    MatchesAscending(ws, n, key);
  }

  lemma {:induction false} MatchesMembers(ws: seq<Word>, n: nat, key: Key)
    requires n <= |ws|
    ensures forall j :: j in Matches(ws, n, key) <==> 0 <= j < n && Kept(ws[j]) && ws[j].traditional == key
  {
    if n > 0 {
      MatchesMembers(ws, n - 1, key);
      var m := Matches(ws, n - 1, key);
      var extra := if Kept(ws[n - 1]) && ws[n - 1].traditional == key then [n - 1] else [];
      var r := m + extra;
      assert Matches(ws, n, key) == r;
      forall j
        ensures j in r <==> 0 <= j < n && Kept(ws[j]) && ws[j].traditional == key
      {
        assert j in r <==> j in m || j in extra;
      }
    }
  }

  lemma {:induction false} MatchesAscending(ws: seq<Word>, n: nat, key: Key)
    requires n <= |ws|
    ensures forall a, b :: 0 <= a < b < |Matches(ws, n, key)| ==> Matches(ws, n, key)[a] < Matches(ws, n, key)[b]
  {
    if n > 0 {
      MatchesAscending(ws, n - 1, key);
      var m := Matches(ws, n - 1, key);
      var extra := if Kept(ws[n - 1]) && ws[n - 1].traditional == key then [n - 1] else [];
      var r := m + extra;
      assert Matches(ws, n, key) == r;
      forall a, b | 0 <= a < b < |r|
        ensures r[a] < r[b]
      {
        assert r[a] == m[a];
        if b < |m| {
          assert r[b] == m[b];
        }
      }
    }
  }

  /** One more entry read extends its own group by its record and leaves
      the other groups alone. */
  lemma GroupBeforeStep(ws: seq<Word>, n: nat, key: Key)
    requires n < |ws|
    ensures GroupBefore(ws, n + 1, key) ==
      if Kept(ws[n]) && ws[n].traditional == key then GroupBefore(ws, n, key) + [EntryFor(n, ws[n])]
      else GroupBefore(ws, n, key)
  {
    var m := Matches(ws, n, key);
    if Kept(ws[n]) && ws[n].traditional == key {
      assert Matches(ws, n + 1, key) == m + [n];
      assert EntriesAt(ws, m + [n]) == EntriesAt(ws, m) + [EntryFor(n, ws[n])];
    }
  }

  /** The map built by the loop holds, under each key, exactly that key's
      group. */
  lemma {:induction false} GroupingLookup(ws: seq<Word>, n: nat, key: Key)
    requires n <= |ws|
    ensures Lookup(Grouping(ws, n), key) == GroupBefore(ws, n, key)
  {
    if n > 0 {
      GroupingLookup(ws, n - 1, key);
      GroupBeforeStep(ws, n - 1, key);
      var gs := Grouping(ws, n - 1);
      var w := ws[n - 1];
      if Kept(w) {
        var e := EntryFor(n - 1, w);
        PushEntryCorrect(gs, w.traditional, e);
        assert Grouping(ws, n) == PushEntry(gs, w.traditional, e);
        assert Lookup(Grouping(ws, n), key) ==
          if key == w.traditional then Lookup(gs, key) + [e] else Lookup(gs, key);
      } else {
        assert Grouping(ws, n) == gs;
      }
    }
  }

  /** The grouping as a whole: keys strictly ascending (so unique), exactly
      the traditional forms of kept entries, each group holding that key's
      records in source order. */
  lemma GroupingContents(ws: seq<Word>)
    ensures StrictlyAscending(Keys(Grouping(ws, |ws|)))
    ensures forall key :: key in Keys(Grouping(ws, |ws|)) <==>
      exists j :: 0 <= j < |ws| && Kept(ws[j]) && ws[j].traditional == key
    ensures forall i :: 0 <= i < |Grouping(ws, |ws|)| ==>
      Grouping(ws, |ws|)[i].members == GroupOf(ws, Grouping(ws, |ws|)[i].key)
  {
    var gs := Grouping(ws, |ws|);
    forall key
      ensures key in Keys(gs) <==> exists j :: 0 <= j < |ws| && Kept(ws[j]) && ws[j].traditional == key
    {
      LookupPresent(gs, key);
      GroupingLookup(ws, |ws|, key);
      MatchesExactly(ws, |ws|, key);
      var m := Matches(ws, |ws|, key);
      assert |GroupOf(ws, key)| == |m|;
      if m != [] {
        var j := m[0];
        assert j in m;
        assert 0 <= j < |ws| && Kept(ws[j]) && ws[j].traditional == key;
      }
      if exists j :: 0 <= j < |ws| && Kept(ws[j]) && ws[j].traditional == key {
        var j :| 0 <= j < |ws| && Kept(ws[j]) && ws[j].traditional == key;
        assert j in m;
      }
    }
    forall i | 0 <= i < |gs|
      ensures gs[i].members == GroupOf(ws, gs[i].key)
    {
      LookupAt(gs, i);
      GroupingLookup(ws, |ws|, gs[i].key);
    }
  }

  /** Entry `j` lands in the group of `key` exactly when it is kept and its
      traditional form is `key`; a dropped entry (cost below -32768) is in
      no group, and the k-th member of a group is the record of its k-th
      matching entry in source order. */
  lemma GroupMembership(ws: seq<Word>, key: Key)
    ensures forall j :: j in Matches(ws, |ws|, key) <==> 0 <= j < |ws| && ws[j].cost >= -0x8000 && ws[j].traditional == key
    ensures |GroupOf(ws, key)| == |Matches(ws, |ws|, key)|
    ensures forall k :: 0 <= k < |GroupOf(ws, key)| ==>
      var j := Matches(ws, |ws|, key)[k];
      GroupOf(ws, key)[k] == WordEntry(WordId(AsU32(j), true), AsI16(ws[j].cost), 0)
    ensures forall a, b :: 0 <= a < b < |Matches(ws, |ws|, key)| ==> Matches(ws, |ws|, key)[a] < Matches(ws, |ws|, key)[b]
  {
    MatchesExactly(ws, |ws|, key);
  }

  /** The number of kept entries among the first `n`. */
  function KeptCount(ws: seq<Word>, n: nat): (c: nat)
    requires n <= |ws|
    ensures c <= n
  {
    if n == 0 then 0 else KeptCount(ws, n - 1) + (if Kept(ws[n - 1]) then 1 else 0)
  }

  /** The grouped records, concatenated, number exactly the kept entries. */
  lemma {:induction false} GroupingSize(ws: seq<Word>, n: nat)
    requires n <= |ws|
    ensures |Flatten(Grouping(ws, n))| == KeptCount(ws, n)
  {
    if n > 0 {
      GroupingSize(ws, n - 1);
      if Kept(ws[n - 1]) {
        FlattenPush(Grouping(ws, n - 1), ws[n - 1].traditional, EntryFor(n - 1, ws[n - 1]));
      }
    }
  }

  // ---------------------------------------------------------------------
  // Payload blob and its offset index (src/lindera.rs:54-64)

  /** The bytes appended for one entry. */
  function Record(w: Word, ser: Serialiser): seq<byte>
  {
    ser(w.pinyin, w.definition)
  }

  /** The payload buffer after all of `ws` has been serialised: every
      entry, dropped ones included, in source order. */
  function Payload(ws: seq<Word>, ser: Serialiser): seq<byte>
  {
    if ws == [] then [] else Payload(ws[..|ws| - 1], ser) + Record(ws[|ws| - 1], ser)
  }

  /** The offset recorded for each entry: the buffer length before its
      record is appended, cast with `as u32`. */
  function Offsets(ws: seq<Word>, ser: Serialiser): (offs: seq<u32>)
    ensures |offs| == |ws|
  {
    seq(|ws|, i requires 0 <= i < |ws| => AsU32(|Payload(ws[..i], ser)|))
  }

  /** The loop of src/lindera.rs:55-60 and the write of src/lindera.rs:62:
      `dict.words` and `dict.wordsidx`. */
  method WriteWords(ws: seq<Word>, ser: Serialiser) returns (words: seq<byte>, wordsIdx: seq<byte>)
    ensures words == Payload(ws, ser)
    ensures wordsIdx == U32Stream(Offsets(ws, ser))
  {
    var buffer: seq<byte> := [];
    wordsIdx := [];
    for i := 0 to |ws|
      invariant buffer == Payload(ws[..i], ser)
      invariant wordsIdx == U32Stream(Offsets(ws, ser)[..i])
    {
      var offset := |buffer|;
      wordsIdx := wordsIdx + U32Bytes(AsU32(offset));
      buffer := buffer + ser(ws[i].pinyin, ws[i].definition);
      assert ws[..i + 1][..i] == ws[..i];
      assert Offsets(ws, ser)[..i + 1][..i] == Offsets(ws, ser)[..i];
    }
    assert ws[..|ws|] == ws;
    assert Offsets(ws, ser)[..|ws|] == Offsets(ws, ser);
    words := buffer;
  }

  /** The payload of a prefix of the entries is a prefix of the payload. */
  lemma {:induction false} PayloadPrefix(ws: seq<Word>, ser: Serialiser, i: nat)
    requires i <= |ws|
    ensures Payload(ws[..i], ser) <= Payload(ws, ser)
  {
    if i < |ws| {
      var init := ws[..|ws| - 1];
      PayloadPrefix(init, ser, i);
      assert init[..i] == ws[..i];
    } else {
      assert ws[..i] == ws;
    }
  }

  /** Entry `i`'s offset is the length of the payload before it, and its
      record follows there. */
  lemma OffsetAt(ws: seq<Word>, ser: Serialiser, i: nat)
    requires i < |ws| && |Payload(ws, ser)| < TWO_32
    ensures Offsets(ws, ser)[i] == |Payload(ws[..i], ser)|
    ensures Offsets(ws, ser)[i] + |Record(ws[i], ser)| == |Payload(ws[..i + 1], ser)| <= |Payload(ws, ser)|
    ensures Payload(ws, ser)[Offsets(ws, ser)[i]..Offsets(ws, ser)[i] + |Record(ws[i], ser)|] == Record(ws[i], ser)
  {
    var before := Payload(ws[..i], ser);
    var rec := Record(ws[i], ser);
    PayloadPrefix(ws, ser, i + 1);
    assert ws[..i + 1][..i] == ws[..i];
    assert Payload(ws[..i + 1], ser) == before + rec;
    var p := Payload(ws, ser);
    assert p[..|before| + |rec|] == before + rec;
    assert p[|before|..|before| + |rec|] == (before + rec)[|before|..];
  }

  /** The first offset is 0 and each next one is the previous plus the
      length of the previous record. */
  lemma OffsetsPrefixSums(ws: seq<Word>, ser: Serialiser)
    requires |Payload(ws, ser)| < TWO_32
    ensures |ws| > 0 ==> Offsets(ws, ser)[0] == 0
    ensures forall i :: 0 <= i < |ws| - 1 ==> Offsets(ws, ser)[i + 1] == Offsets(ws, ser)[i] + |Record(ws[i], ser)|
  {
    if |ws| > 0 {
      OffsetAt(ws, ser, 0);
      assert ws[..0] == [];
    }
    forall i | 0 <= i < |ws| - 1
      ensures Offsets(ws, ser)[i + 1] == Offsets(ws, ser)[i] + |Record(ws[i], ser)|
    {
      OffsetAt(ws, ser, i);
      OffsetAt(ws, ser, i + 1);
    }
  }

  /** Offsets never decrease. */
  lemma OffsetsMonotone(ws: seq<Word>, ser: Serialiser)
    requires |Payload(ws, ser)| < TWO_32
    ensures forall i, j :: 0 <= i <= j < |ws| ==> Offsets(ws, ser)[i] <= Offsets(ws, ser)[j]
  {
    forall i, j | 0 <= i <= j < |ws|
      ensures Offsets(ws, ser)[i] <= Offsets(ws, ser)[j]
    {
      OffsetAt(ws, ser, i);
      OffsetAt(ws, ser, j);
      PayloadPrefix(ws[..j], ser, i);
      assert ws[..j][..i] == ws[..i];
    }
  }

  /** Looking an entry up the way a reader of the two files does: read the
      u32 at `4 * i` of `dict.wordsidx`, then that entry's record starts
      there in `dict.words`. */
  lemma PayloadLookupRoundTrip(ws: seq<Word>, ser: Serialiser, i: nat)
    requires i < |ws| && |Payload(ws, ser)| < TWO_32
    ensures var idx := U32Stream(Offsets(ws, ser));
      var off := U32At(idx, 4 * i);
      && off + |Record(ws[i], ser)| <= |Payload(ws, ser)|
      && Payload(ws, ser)[off..off + |Record(ws[i], ser)|] == Record(ws[i], ser)
  {
    var offs := Offsets(ws, ser);
    U32StreamAt(offs, i);
    OffsetAt(ws, ser, i);
    assert U32At(U32Stream(offs), 4 * i) == offs[i];
  }

  // ---------------------------------------------------------------------
  // Trie values (src/lindera.rs:66-89)

  /** `word_entries.len() as u32`. */
  function LenOf(g: Group<WordEntry>): u32
  {
    AsU32(|g.members|)
  }

  /** The sum of the (cast) group lengths. */
  function SumLens(gs: seq<Group<WordEntry>>): nat
  {
    if gs == [] then 0 else SumLens(gs[..|gs| - 1]) + LenOf(gs[|gs| - 1])
  }

  /** The value of the counter `id` when group `k` is reached: the lengths
      of the groups before it, added with u32 wrap-around. */
  function StartOf(gs: seq<Group<WordEntry>>, k: nat): u32
    requires k <= |gs|
  {
    AsU32(SumLens(gs[..k]))
  }

  /** `(id << 5) | len` on u32. */
  function Pack(start: u32, len: u32): (v: u32)
    requires len < 32
    ensures v == (start % 0x800_0000) * 32 + len
  {
    PackValue(start, len);
    BitOr(Shl(start, 5), len)
  }

  /** The shift drops the top five bits of `start`; the or then adds `len`. */
  lemma PackValue(start: u32, len: u32)
    requires len < 32
    ensures BitOr(Shl(start, 5), len) == (start % 0x800_0000) * 32 + len
  {
    Pow2Of5();
    var k := start % 0x800_0000;
    assert start * 32 == (start / 0x800_0000) * TWO_32 + k * 32;
    assert Shl(start, 5) == k * 32;
    Times32(k);
    OrDisjoint(k * 32, len, 5);
  }

  /** The trie value splits back into the group's start (its low 27 bits,
      which is all of it below 2^27) and its length: `val >> 5` and
      `val & 31`. */
  lemma PackUnpack(start: u32, len: u32)
    requires len < 32
    ensures Shr(Pack(start, len), 5) == start % 0x800_0000
    ensures BitAnd(Pack(start, len), 31) == len
  {
    var k := start % 0x800_0000;
    Pow2Of5();
    Times32(k);
    ShrHigh(k * 32, len, 5);
    AndLow(k * 32, len, 5);
  }

  /** Index of the first group whose length cast `as u32` is 32 or more,
      `|gs|` if none. */
  function FirstOversized(gs: seq<Group<WordEntry>>): (k: nat)
    ensures k <= |gs|
    ensures k < |gs| ==> LenOf(gs[k]) >= 32
    ensures forall j :: 0 <= j < k ==> LenOf(gs[j]) < 32
  {
    if gs == [] then 0
    else if LenOf(gs[0]) >= 32 then 0
    else 1 + FirstOversized(gs[1..])
  }

  /** The key/value list handed to the trie builder, with the final values
      of `id` and `lastlen`; or the group that fails the length assertion. */
  datatype KeysetOutcome =
    | Keyset(pairs: seq<(Key, u32)>, id: u32, lastLen: u32)
    | Oversized(key: Key, len: u32)

  /** The pair pushed for group `i`: its key and `(id << 5) | len`. */
  function PairOf(gs: seq<Group<WordEntry>>, i: nat): (Key, u32)
    requires i < |gs| && LenOf(gs[i]) < 32
  {
    (gs[i].key, Pack(StartOf(gs, i), LenOf(gs[i])))
  }

  function KeysetOf(gs: seq<Group<WordEntry>>): KeysetOutcome
  {
    var k := FirstOversized(gs);
    if k < |gs| then Oversized(gs[k].key, LenOf(gs[k]))
    else Keyset(seq(|gs|, i requires 0 <= i < |gs| => PairOf(gs, i)), StartOf(gs, |gs|), StartOf(gs, |gs|))
  }

  /** The counter after one more group. */
  lemma StartStep(gs: seq<Group<WordEntry>>, k: nat)
    requires k < |gs|
    ensures StartOf(gs, k + 1) == AsU32(StartOf(gs, k) + LenOf(gs[k]))
  {
    assert gs[..k + 1][..k] == gs[..k];
    AddWrapped(SumLens(gs[..k]), LenOf(gs[k]));
  }

  /** The loop of src/lindera.rs:73-85 over the map in key order. */
  method BuildKeyset(gs: seq<Group<WordEntry>>) returns (r: KeysetOutcome)
    ensures r == KeysetOf(gs)
  {
    var id: u32 := 0;
    var lastLen: u32 := 0;
    var keyset: seq<(Key, u32)> := [];
    assert gs[..0] == [];
    for k := 0 to |gs|
      invariant forall j :: 0 <= j < k ==> LenOf(gs[j]) < 32
      invariant id == StartOf(gs, k) && lastLen == id
      invariant |keyset| == k && forall i :: 0 <= i < k ==> keyset[i] == PairOf(gs, i)
    {
      var len := AsU32(|gs[k].members|);
      if len >= 32 {
        assert FirstOversized(gs) == k;
        return Oversized(gs[k].key, len);
      }
      var val := Pack(id, len);
      assert (gs[k].key, val) == PairOf(gs, k);
      keyset := keyset + [(gs[k].key, val)];
      StartStep(gs, k);
      id := AsU32(id + len);
      lastLen := AsU32(lastLen + len);
    }
    assert FirstOversized(gs) == |gs|;
    assert keyset == seq(|gs|, i requires 0 <= i < |gs| => PairOf(gs, i));
    r := Keyset(keyset, id, lastLen);
  }

  /** The assertion sees the length after `as u32`: a group of exactly
      2^32 records counts as empty and passes. */
  lemma HugeGroupPasses(g: Group<WordEntry>)
    requires |g.members| == TWO_32
    ensures KeysetOf([g]).Keyset? && KeysetOf([g]).pairs[0] == (g.key, 0)
  {
    assert LenOf(g) == 0;
    assert FirstOversized([g]) == 1;
    assert Flatten([g][..0]) == [];
  }

  /** A build aborts on the length assertion exactly when some group's
      length cast `as u32` is 32 or more; otherwise every group packs a
      length of at most 31 and there is one pair per group, keyed by the
      group's key. */
  lemma OversizedIff(gs: seq<Group<WordEntry>>)
    ensures KeysetOf(gs).Oversized? <==> exists k :: 0 <= k < |gs| && LenOf(gs[k]) >= 32
    ensures KeysetOf(gs).Keyset? ==>
      && |KeysetOf(gs).pairs| == |gs|
      && forall k :: 0 <= k < |gs| ==> LenOf(gs[k]) <= 31 && KeysetOf(gs).pairs[k].0 == gs[k].key
  {
    var k := FirstOversized(gs);
    if k == |gs| {
      assert forall j :: 0 <= j < |gs| ==> LenOf(gs[j]) < 32;
    }
  }

  /** The key/value list is strictly ascending by key bytes: no duplicate
      keys, as the double-array builder requires. */
  lemma KeysetAscending(ws: seq<Word>)
    ensures var ks := KeysetOf(Grouping(ws, |ws|));
      ks.Keyset? ==> StrictlyAscending(seq(|ks.pairs|, i requires 0 <= i < |ks.pairs| => ks.pairs[i].0))
  {
    var gs := Grouping(ws, |ws|);
    var ks := KeysetOf(gs);
    if ks.Keyset? {
      OversizedIff(gs);
      assert seq(|ks.pairs|, i requires 0 <= i < |ks.pairs| => ks.pairs[i].0) == Keys(gs);
    }
  }

  /** The u32 sum of the cast lengths is the number of records, modulo
      2^32. */
  lemma {:induction false} SumLensWrapped(gs: seq<Group<WordEntry>>)
    ensures AsU32(SumLens(gs)) == AsU32(|Flatten(gs)|)
  {
    if gs != [] {
      var n := |gs| - 1;
      var init := gs[..n];
      var m := |gs[n].members|;
      SumLensWrapped(init);
      FlattenSnoc(gs, n);
      assert gs[..n + 1] == gs;
      AddWrapped(m, SumLens(init));
      AddWrapped(SumLens(init), m);
      AddWrapped(|Flatten(init)|, m);
    }
  }

  /** The counter `id` when group `k` is reached is the number of records
      in the groups before it, modulo 2^32. */
  lemma StartIsRecordsBefore(gs: seq<Group<WordEntry>>, k: nat)
    requires k <= |gs|
    ensures StartOf(gs, k) == AsU32(|Flatten(gs[..k])|)
  {
    SumLensWrapped(gs[..k]);
  }

  /** Unpacking the k-th trie value gives the number of records before
      group k and group k's length, when fewer than 2^27 records precede
      it. */
  lemma PairUnpacks(gs: seq<Group<WordEntry>>, k: nat)
    requires KeysetOf(gs).Keyset? && k < |gs|
    requires |Flatten(gs[..k])| < 0x800_0000 && |gs[k].members| < TWO_32
    ensures var v := KeysetOf(gs).pairs[k].1;
      Shr(v, 5) == |Flatten(gs[..k])| && BitAnd(v, 31) == |gs[k].members|
  {
    KeysetPairAt(gs, k);
    StartIsRecordsBefore(gs, k);
    var start := StartOf(gs, k);
    var len := LenOf(gs[k]);
    assert start % 0x800_0000 == |Flatten(gs[..k])|;
    PackUnpack(start, len);
  }

  /** Unpacking the k-th trie value gives the position of group k in the
      flattened stream and its length, when the stream is shorter than
      2^27. */
  lemma PairAddressesGroup(gs: seq<Group<WordEntry>>, k: nat)
    requires |Flatten(gs)| < 0x800_0000
    requires KeysetOf(gs).Keyset? && k < |gs|
    ensures var v := KeysetOf(gs).pairs[k].1;
      && KeysetOf(gs).pairs[k].0 == gs[k].key
      && Shr(v, 5) == |Flatten(gs[..k])|
      && BitAnd(v, 31) == |gs[k].members|
      && |Flatten(gs[..k])| + |gs[k].members| <= |Flatten(gs)|
      && Flatten(gs)[Shr(v, 5)..Shr(v, 5) + BitAnd(v, 31)] == gs[k].members
  {
    KeysetPairAt(gs, k);
    FlattenSlice(gs, k);
    PairUnpacks(gs, k);
  }

  /** Pair k of a keyset: group k's key and its packed start and length. */
  lemma KeysetPairAt(gs: seq<Group<WordEntry>>, k: nat)
    requires KeysetOf(gs).Keyset? && k < |gs|
    ensures LenOf(gs[k]) < 32
    ensures KeysetOf(gs).pairs[k] == PairOf(gs, k)
  {
    assert FirstOversized(gs) == |gs|;
  }

  /** The central property of the dictionary: for every pair handed to the
      trie builder, unpacking its value as a reader does (`val >> 5`,
      `val & 31`) gives a range of the value stream holding exactly that
      key's group, in source order; its start is the number of records of
      the groups before it. Holds when fewer than 2^27 entries are kept,
      so that no start outgrows its 27 bits. */
  lemma TrieValueAddressesGroup(ws: seq<Word>, k: nat)
    requires KeptCount(ws, |ws|) < 0x800_0000
    requires KeysetOf(Grouping(ws, |ws|)).Keyset?
    requires k < |KeysetOf(Grouping(ws, |ws|)).pairs|
    ensures var gs := Grouping(ws, |ws|);
      var pair := KeysetOf(gs).pairs[k];
      var v := pair.1;
      && Shr(v, 5) == |Flatten(gs[..k])|
      && Shr(v, 5) + BitAnd(v, 31) <= |Flatten(gs)|
      && Flatten(gs)[Shr(v, 5)..Shr(v, 5) + BitAnd(v, 31)] == GroupOf(ws, pair.0)
  {
    var gs := Grouping(ws, |ws|);
    OversizedIff(gs);
    assert k < |gs|;
    GroupingSize(ws, |ws|);
    assert |Flatten(gs)| < 0x800_0000;
    GroupingContents(ws);
    assert gs[k].members == GroupOf(ws, gs[k].key);
    PairAddressesGroup(gs, k);
  }

  /** At the end `id == lastlen ==` the number of kept entries, modulo
      2^32 (the number itself for any input of fewer than 2^32 entries). */
  lemma FinalCounters(ws: seq<Word>)
    ensures var ks := KeysetOf(Grouping(ws, |ws|));
      ks.Keyset? ==> ks.id == ks.lastLen == AsU32(KeptCount(ws, |ws|))
  {
    var gs := Grouping(ws, |ws|);
    GroupingSize(ws, |ws|);
    StartIsRecordsBefore(gs, |gs|);
    assert gs[..|gs|] == gs;
  }

  /** Only the lower bound is checked: a cost of 40000 is kept and its
      record carries `40000 as i16`, which is -25536. */
  lemma CostAboveRangeTruncated(i: nat, w: Word)
    requires w.cost == 40000
    ensures Kept(w) && EntryFor(i, w).wordCost == -25536
  {
  }

  // ---------------------------------------------------------------------
  // Value records (src/lindera.rs:91-100) and the whole build

  /** The nested loop of src/lindera.rs:95-99: every group's records, the
      groups in key order. */
  method WriteValues(gs: seq<Group<WordEntry>>) returns (vals: seq<WordEntry>)
    ensures vals == Flatten(gs)
  {
    vals := [];
    for k := 0 to |gs|
      invariant vals == Flatten(gs[..k])
    {
      var entries := gs[k].members;
      for j := 0 to |entries|
        invariant vals == Flatten(gs[..k]) + entries[..j]
      {
        vals := vals + [entries[j]];
      }
      assert entries[..|entries|] == entries;
      FlattenSnoc(gs, k);
    }
    assert gs[..|gs|] == gs;
  }

  /** `Lindera::build_dict`. */
  method BuildDict(ws: seq<Word>, ser: Serialiser, buildTrie: TrieBuilder) returns (r: DictOutcome)
    ensures r.words == Payload(ws, ser)
    ensures r.wordsIdx == U32Stream(Offsets(ws, ser))
    ensures var gs := Grouping(ws, |ws|);
      match KeysetOf(gs)
      case Oversized(key, len) => r == Aborted(r.words, r.wordsIdx, OversizedGroup(key, len))
      case Keyset(pairs, _, _) =>
        match buildTrie(pairs)
        case None => r == Aborted(r.words, r.wordsIdx, DoubleArrayBuildError)
        case Some(da) => r == Built(r.words, r.wordsIdx, da, Flatten(gs))
  {
    var groups := GroupWords(ws);
    var words, wordsIdx := WriteWords(ws, ser);
    var ks := BuildKeyset(groups);
    if ks.Oversized? {
      return Aborted(words, wordsIdx, OversizedGroup(ks.key, ks.len));
    }
    var da := buildTrie(ks.pairs);
    if da.None? {
      return Aborted(words, wordsIdx, DoubleArrayBuildError);
    }
    var vals := WriteValues(groups);
    r := Built(words, wordsIdx, da.value, vals);
  }

  /** One entry for 你好 (UTF-8 E4 BD A0 E5 A5 BD) with cost 10: one group
      holding the entry's record, keyed by its bytes with value `(0 << 5) | 1`,
      and counters ending at 1. */
  lemma SingleEntry(pinyin: string, definition: string)
    ensures var key: Key := [0xE4, 0xBD, 0xA0, 0xE5, 0xA5, 0xBD];
      var ws := [Word(key, 10, pinyin, definition)];
      && Grouping(ws, 1) == [Group(key, [WordEntry(WordId(0, true), 10, 0)])]
      && KeysetOf(Grouping(ws, 1)) == Keyset([(key, 1)], 1, 1)
  {
    var key: Key := [0xE4, 0xBD, 0xA0, 0xE5, 0xA5, 0xBD];
    var ws := [Word(key, 10, pinyin, definition)];
    var gs := Grouping(ws, 1);
    assert Grouping(ws, 0) == [];
    assert EntryFor(0, ws[0]) == WordEntry(WordId(0, true), 10, 0);
    assert gs == PushEntry([], key, EntryFor(0, ws[0]));
    assert StartOf(gs, 0) == 0 by {
      assert gs[..0] == [];
    }
    assert StartOf(gs, 1) == 1 by {
      assert gs[..1] == gs;
      assert gs[..1][..0] == [];
    }
    PackValue(0, 1);
    assert Pack(0, 1) == 1;
  }
}
