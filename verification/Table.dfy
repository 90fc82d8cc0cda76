/**
 Tables: data blocks, an index block with shortened keys whose entry for a block is written only when the next key is
 known, and a filter block; and the lookup that has to find its way through all three.
 */
module Table {
  import opened Basics
  import opened Coding
  import opened Comparator
  import opened Block
  import opened FilterBlock

  const BLOCK_TRAILER_SIZE := 5

  /** Files stay far from the end of 64-bit offsets. */
  const MAX_FILE := 0x1000_0000_0000_0000
  const NO_COMPRESSION: Byte := 0

  datatype BlockHandle = BlockHandle(offset: nat, size: nat)

  function EncodeHandle(h: BlockHandle): Slice {
    Varint(h.offset) + Varint(h.size)
  }

  /** Two 64-bit varints; None if either is cut short. */
  function DecodeHandle(s: Slice): Option<BlockHandle> {
    match ReadVarint(s, 10)
    case None => None
    case Some((offset, n)) =>
      match ReadVarint(s[n..], 10)
      case None => None
      case Some((size, m)) => Some(BlockHandle(offset % TWO_64, size % TWO_64))
  }

  lemma HandleRoundTrip(h: BlockHandle)
    requires h.offset < TWO_64 && h.size < TWO_64
    ensures DecodeHandle(EncodeHandle(h)) == Some(h)
  {
    var a, b := Varint(h.offset), Varint(h.size);
    Pow128Ten();
    VarintRoundTrip(h.offset, 10, b);
    VarintRoundTrip(h.size, 10, []);
    assert (a + b)[|a|..] == b == b + [];
  }

  /** The bytes of a block with its trailer: contents, compression type, masked checksum of both. */
  function RawBlock(crc: Crc, contents: Slice): (s: seq<Byte>)
    ensures |s| == |contents| + BLOCK_TRAILER_SIZE
  {
    contents + ([NO_COMPRESSION] + EncodeFixed32(Mask(crc(contents + [NO_COMPRESSION]))))
  }

  ghost predicate BlockIn(crc: Crc, file: seq<Byte>, h: BlockHandle, contents: Slice) {
    h.size == |contents| && h.offset < TWO_64 && h.size < TWO_64 && h.offset + h.size + BLOCK_TRAILER_SIZE <= |file| &&
    file[h.offset..h.offset + h.size + BLOCK_TRAILER_SIZE] == RawBlock(crc, contents)
  }

  /** The stored checksum is that of the contents and of the byte that says how they are compressed. */
  ghost predicate ChecksumOk(crc: Crc, file: seq<Byte>, h: BlockHandle)
    requires h.offset + h.size + BLOCK_TRAILER_SIZE <= |file|
  {
    var at := h.offset + h.size;
    crc(file[h.offset..at + 1]) == Unmask(DecodeFixed32(file[at + 1..at + 5]))
  }

  /** Reads the block at a handle; None if the file is too short or the checksum, when asked for, does not fit. */
  method ReadBlock(crc: Crc, file: seq<Byte>, verifyChecksums: bool, h: BlockHandle, ghost contents: Slice)
    returns (r: Option<Slice>)
    ensures BlockIn(crc, file, h, contents) ==> r == Some(contents)
    ensures r.Some? ==> h.offset + h.size <= |file| && r.value == file[h.offset..h.offset + h.size]
    ensures r.Some? <==>
            && h.offset + h.size + BLOCK_TRAILER_SIZE <= |file| && file[h.offset + h.size] == NO_COMPRESSION
            && (verifyChecksums ==> ChecksumOk(crc, file, h))
  {
    var n := h.size;
    if |file| < h.offset + n + BLOCK_TRAILER_SIZE {
      return None;
    }
    var data := file[h.offset..h.offset + n + BLOCK_TRAILER_SIZE];
    if BlockIn(crc, file, h, contents) { RawBlockTells(crc, contents); }
    assert data[n + 1..] == file[h.offset + n + 1..h.offset + n + 5];
    assert data[..n + 1] == file[h.offset..h.offset + n + 1];
    hide RawBlock, DecodeFixed32, Unmask;
    if verifyChecksums {
      var expected := Unmask(DecodeFixed32(data[n + 1..]));
      if crc(data[..n + 1]) != expected {
        return None;
      }
    }
    if data[n] != NO_COMPRESSION {
      return None;
    }
    return Some(data[..n]);
  }

  lemma RawBlockTells(crc: Crc, contents: Slice)
    ensures var data, n := RawBlock(crc, contents), |contents|;
            data[..n] == contents && data[n] == NO_COMPRESSION &&
            crc(data[..n + 1]) == Unmask(DecodeFixed32(data[n + 1..]))
  {
    var data, n := RawBlock(crc, contents), |contents|;
    var sum := Mask(crc(contents + [NO_COMPRESSION]));
    assert data[..n + 1] == contents + [NO_COMPRESSION];
    assert data[n + 1..] == EncodeFixed32(sum) + [];
    Fixed32RoundTrip(sum, []);
    UnmaskMask(crc(contents + [NO_COMPRESSION]));
  }

  // ---------------------------------------------------------------------------------------------------------------
  // What a table holds.

  datatype DataBlock = DataBlock(handle: BlockHandle, layout: Layout, data: seq<Byte>, offsets: seq<U32>)

  function Contents(b: DataBlock): Slice
    requires |b.offsets| < TWO_32
  {
    Finished(b.data, b.offsets)
  }

  ghost predicate BlockOk(crc: Crc, before: Order, file: seq<Byte>, b: DataBlock) {
    && |b.offsets| < TWO_32 && BlockIn(crc, file, b.handle, Contents(b))
    && Describes(b.layout, b.data) && OffsetsOf(b.layout, b.offsets) && Ascending(before, b.layout.entries)
  }

  ghost predicate BlocksOk(crc: Crc, before: Order, file: seq<Byte>, blocks: seq<DataBlock>) {
    forall i :: 0 <= i < |blocks| ==> BlockOk(crc, before, file, blocks[i])
  }

  /** Block `i` has the entries from `cuts[i]` up to `cuts[i + 1]`; every block has some. */
  ghost predicate CutsOk(entries: seq<Pair>, cuts: seq<nat>, blocks: seq<DataBlock>) {
    && |cuts| == |blocks| + 1 && cuts[0] == 0
    && (forall i :: 0 <= i < |cuts| ==> cuts[i] <= |entries|)
    && (forall i, j :: 0 <= i < j < |cuts| ==> cuts[i] < cuts[j])
    && (forall i :: 0 <= i < |blocks| ==> blocks[i].layout.entries == entries[cuts[i]..cuts[i + 1]])
  }

  /**
   The index key of a block is not before the last key of the block and is before the first of the next. Where it is not
   the last key itself, its user key too is before that of the next block.
   */
  ghost predicate IndexKeyOk(c: Comparator, key: Slice, entries: seq<Pair>, end: nat)
    requires 0 < end <= |entries|
  {
    && |key| >= TRAILER && NotAfter(Internal(c).before, entries[end - 1].key, key)
    && (end < |entries| ==>
          && |entries[end].key| >= TRAILER && InternalLess(c.before, key, entries[end].key)
          && (key == entries[end - 1].key || c.before(ExtractUserKey(key), ExtractUserKey(entries[end].key))))
  }

  ghost predicate IndexOk(c: Comparator, index: seq<Pair>, entries: seq<Pair>, cuts: seq<nat>, blocks: seq<DataBlock>)
    requires CutsOk(entries, cuts, blocks)
  {
    |index| <= |blocks| &&
    forall i :: 0 <= i < |index| ==>
      index[i].value == EncodeHandle(blocks[i].handle) && IndexKeyOk(c, index[i].key, entries, cuts[i + 1])
  }

  ghost predicate InternalKeys(entries: seq<Pair>) {
    forall i :: 0 <= i < |entries| ==> |entries[i].key| >= TRAILER
  }

  /** The position of the first entry that is not before the key. */
  ghost function First(c: Comparator, entries: seq<Pair>, k: Slice): (i: nat)
    ensures i <= |entries|
  {
    FirstFrom(Internal(c).before, entries, k, 0)
  }

  lemma FirstFromIsAt(before: Order, entries: seq<Pair>, k: Slice, i: nat)
    requires StrictOrder(before) && Ascending(before, entries) && i <= |entries|
    requires i > 0 ==> before(entries[i - 1].key, k)
    requires i < |entries| ==> !before(entries[i].key, k)
    ensures FirstFrom(before, entries, k, 0) == i
  {
    forall j | 0 <= j < i ensures before(entries[j].key, k) {
      if j < i - 1 { assert before(entries[j].key, entries[i - 1].key); }
    }
  }

  /** No index key reaches the key: no entry does. */
  lemma PastTheEnd(c: Comparator, index: seq<Pair>, entries: seq<Pair>, cuts: seq<nat>, blocks: seq<DataBlock>,
                   k: Slice)
    requires Lawful(c) && Ascending(Internal(c).before, entries) && CutsOk(entries, cuts, blocks)
    requires IndexOk(c, index, entries, cuts, blocks) && |index| == |blocks| && cuts[|blocks|] == |entries|
    requires First(c, index, k) == |index|
    ensures First(c, entries, k) == |entries|
  {
    InternalLawful(c);
    var n := |entries|;
    if n > 0 {
      assert cuts[|blocks|] == n && |blocks| > 0;
      assert IndexKeyOk(c, index[|index| - 1].key, entries, cuts[|blocks|]);
    }
    FirstFromIsAt(Internal(c).before, entries, k, n);
  }

  /**
   The index leads to the block that has the first entry not before the key, unless that entry is of another user key.
   */
  lemma IndexLeads(c: Comparator, index: seq<Pair>, entries: seq<Pair>, cuts: seq<nat>, blocks: seq<DataBlock>,
                   k: Slice)
    requires Lawful(c) && Ascending(Internal(c).before, entries) && CutsOk(entries, cuts, blocks)
    requires InternalKeys(entries)
    requires IndexOk(c, index, entries, cuts, blocks) && |index| == |blocks| && |k| >= TRAILER
    requires First(c, index, k) < |index|
    ensures var i := First(c, index, k);
            var j := First(c, blocks[i].layout.entries, k);
            if cuts[i] + j < cuts[i + 1] then First(c, entries, k) == cuts[i] + j
            else First(c, entries, k) == cuts[i + 1] &&
                 (cuts[i + 1] < |entries| ==> ExtractUserKey(entries[cuts[i + 1]].key) != ExtractUserKey(k))
  {
    hide CutsOk, IndexOk, Lawful, InternalKeys, IndexKeyOk, NotAfter, InternalLess, StrictOrder, Ascending, First,
         FirstFrom;
    var i := First(c, index, k);
    CutsAround(entries, cuts, blocks, i);
    InternalIsStrict(c);
    AroundBlock(c, index, entries, cuts, blocks, k, i);
    WithinBlock(c, entries, cuts[i], cuts[i + 1], index[i].key, k);
  }

  lemma CutsAround(entries: seq<Pair>, cuts: seq<nat>, blocks: seq<DataBlock>, i: nat)
    requires CutsOk(entries, cuts, blocks) && i < |blocks|
    ensures |cuts| == |blocks| + 1 && cuts[i] < cuts[i + 1] <= |entries|
  {
  }

  lemma InternalIsStrict(c: Comparator)
    requires Lawful(c)
    ensures StrictOrder(Internal(c).before)
  {
    InternalLawful(c);
  }

  lemma WithinBlock(c: Comparator, entries: seq<Pair>, from: nat, to: nat, key: Slice, k: Slice)
    requires Lawful(c) && StrictOrder(Internal(c).before) && Ascending(Internal(c).before, entries)
    requires from < to <= |entries| && |key| >= TRAILER && |k| >= TRAILER && |entries[to - 1].key| >= TRAILER
    requires (from > 0 ==> InternalLess(c.before, entries[from - 1].key, k)) && !InternalLess(c.before, key, k)
    requires to < |entries| ==>
               |entries[to].key| >= TRAILER && InternalLess(c.before, key, entries[to].key) &&
               (key == entries[to - 1].key || c.before(ExtractUserKey(key), ExtractUserKey(entries[to].key)))
    ensures var j := First(c, entries[from..to], k);
            if from + j < to then First(c, entries, k) == from + j
            else First(c, entries, k) == to &&
                 (to < |entries| ==> ExtractUserKey(entries[to].key) != ExtractUserKey(k))
  {
    var before := Internal(c).before;
    hide Lawful, StrictOrder, Ascending, FirstFrom, InternalLess;
    FirstInPart(before, entries, k, from, to);
    var j := First(c, entries[from..to], k);
    if from + j == to && to < |entries| {
      Beyond(c, entries[to - 1].key, key, entries[to].key, k);
      FirstFromIsAt(before, entries, k, to);
    }
  }

  /** What the index entry the key leads to, and the one before it, say about the block between them. */
  lemma AroundBlock(c: Comparator, index: seq<Pair>, entries: seq<Pair>, cuts: seq<nat>, blocks: seq<DataBlock>,
                    k: Slice, i: nat)
    requires Lawful(c) && CutsOk(entries, cuts, blocks) && InternalKeys(entries)
    requires IndexOk(c, index, entries, cuts, blocks) && i < |index| && |k| >= TRAILER
    requires StrictOrder(Internal(c).before) && i == First(c, index, k)
    ensures cuts[i] < cuts[i + 1] <= |entries| && blocks[i].layout.entries == entries[cuts[i]..cuts[i + 1]]
    ensures cuts[i] > 0 ==> InternalLess(c.before, entries[cuts[i] - 1].key, k)
    ensures !InternalLess(c.before, index[i].key, k) && |index[i].key| >= TRAILER
    ensures |entries[cuts[i + 1] - 1].key| >= TRAILER
    ensures var to := cuts[i + 1];
            to < |entries| ==>
              |entries[to].key| >= TRAILER && InternalLess(c.before, index[i].key, entries[to].key) &&
              (index[i].key == entries[to - 1].key ||
               c.before(ExtractUserKey(index[i].key), ExtractUserKey(entries[to].key)))
  {
    assert IndexKeyOk(c, index[i].key, entries, cuts[i + 1]);
    if i > 0 {
      assert IndexKeyOk(c, index[i - 1].key, entries, cuts[i]);
      assert Internal(c).before(index[i - 1].key, k);
    }
  }

  /** If no entry before a part reaches the key, the first that does is the first in the part, or comes after it. */
  lemma FirstInPart(before: Order, entries: seq<Pair>, k: Slice, from: nat, to: nat)
    requires StrictOrder(before) && Ascending(before, entries) && from <= to <= |entries|
    requires from > 0 ==> before(entries[from - 1].key, k)
    ensures var j := FirstFrom(before, entries[from..to], k, 0);
            (from + j < to || to == |entries| ==> FirstFrom(before, entries, k, 0) == from + j) &&
            (from + j == to && from < to ==> before(entries[to - 1].key, k))
  {
    var part := entries[from..to];
    var j := FirstFrom(before, part, k, 0);
    if j > 0 { assert part[j - 1] == entries[from + j - 1]; }
    if j < |part| { assert part[j] == entries[from + j]; }
    if from + j < to || to == |entries| { FirstFromIsAt(before, entries, k, from + j); }
  }

  lemma Beyond(c: Comparator, last: Slice, key: Slice, next: Slice, k: Slice)
    requires Lawful(c) && |last| >= TRAILER && |key| >= TRAILER && |next| >= TRAILER && |k| >= TRAILER
    requires InternalLess(c.before, last, k) && !InternalLess(c.before, key, k) && InternalLess(c.before, key, next)
    requires key == last || c.before(ExtractUserKey(key), ExtractUserKey(next))
    ensures !InternalLess(c.before, next, k) && ExtractUserKey(next) != ExtractUserKey(k)
  {
    InternalLawful(c);
  }

  // ---------------------------------------------------------------------------------------------------------------
  // Lookup.

  datatype TableLayout = TableLayout(entries: seq<Pair>, cuts: seq<nat>, blocks: seq<DataBlock>, index: DataBlock,
                                     filters: seq<Byte>, filterOffsets: seq<U32>, groups: seq<seq<Slice>>)

  ghost predicate TableOk(crc: Crc, c: Comparator, file: seq<Byte>, t: TableLayout) {
    && Lawful(c) && Ascending(Internal(c).before, t.entries) && InternalKeys(t.entries)
    && CutsOk(t.entries, t.cuts, t.blocks) && t.cuts[|t.blocks|] == |t.entries|
    && BlocksOk(crc, Internal(c).before, file, t.blocks) && BlockOk(crc, Internal(c).before, file, t.index)
    && |t.index.layout.entries| == |t.blocks| && IndexOk(c, t.index.layout.entries, t.entries, t.cuts, t.blocks)
  }

  /** Every key of a data block is among those of the filter for the offset of the block. */
  ghost predicate FilterCovers(entries: seq<Pair>, cuts: seq<nat>, blocks: seq<DataBlock>, groups: seq<seq<Slice>>,
                               pending: seq<Slice>)
    requires CutsOk(entries, cuts, blocks)
  {
    forall i, j :: 0 <= i < |blocks| && cuts[i] <= j < cuts[i + 1] ==>
      entries[j].key in Group(groups, pending, FilterIndex(blocks[i].handle.offset))
  }

  ghost predicate FilterFor(t: TableLayout, reader: FilterBlockReader)
    requires CutsOk(t.entries, t.cuts, t.blocks)
  {
    && reader.Reads(t.filters, t.filterOffsets)
    && FiltersOk(reader.policy, t.groups, t.filterOffsets, t.filters)
    && FilterCovers(t.entries, t.cuts, t.blocks, t.groups, [])
  }

  function At(entries: seq<Pair>, i: nat): Option<Pair> {
    if i < |entries| then Some(entries[i]) else None
  }

  class Table {
    const crc: Crc
    const user: Comparator
    const file: seq<Byte>
    const verifyChecksums: bool
    const indexContents: Slice
    const filter: FilterBlockReader?
    ghost const t: TableLayout

    ghost predicate Shape() {
      filter != null ==> filter.Shape()
    }

    /** The table is one that a builder finished, with the entries of `t`. */
    ghost predicate Genuine() {
      && TableOk(crc, user, file, t) && indexContents == Contents(t.index)
      && (filter != null ==> FilterFor(t, filter))
    }

    constructor (crc: Crc, user: Comparator, file: seq<Byte>, verifyChecksums: bool, indexContents: Slice,
                 filter: FilterBlockReader?, ghost t: TableLayout)
      requires filter != null ==> filter.Shape()
      ensures Shape() && this.crc == crc && this.user == user && this.file == file && this.t == t
      ensures this.indexContents == indexContents && this.filter == filter
    {
      this.crc, this.user, this.file, this.verifyChecksums := crc, user, file, verifyChecksums;
      this.indexContents, this.filter, this.t := indexContents, filter, t;
    }

    /** The first pair of a block that is not before the key. */
    method SeekContents(contents: Slice, k: Slice, ghost b: DataBlock) returns (r: Option<Pair>)
      ensures BlockOk(crc, Internal(user).before, file, b) && Lawful(user) && contents == Contents(b) ==>
                r == At(b.layout.entries, First(user, b.layout.entries, k))
    {
      if Lawful(user) { InternalLawful(user); }
      hide BlockIn, Describes, OffsetsOf, Ascending, StrictOrder, FirstFrom;
      var block := NewIterator(Internal(user).before, contents, b.layout, b.data, b.offsets);
      if !block.Opened? {
        return None;
      }
      block.iter.Seek(k);
      if !block.iter.IsValid() {
        return None;
      }
      return Some(Pair(block.iter.key, block.iter.value));
    }

    /** The same for the data block that an index value tells of. */
    method SeekInBlock(indexValue: Slice, k: Slice, ghost b: DataBlock) returns (r: Option<Pair>)
      ensures BlockOk(crc, Internal(user).before, file, b) && Lawful(user) && indexValue == EncodeHandle(b.handle) ==>
                r == At(b.layout.entries, First(user, b.layout.entries, k))
    {
      ghost var genuine := BlockOk(crc, Internal(user).before, file, b) && indexValue == EncodeHandle(b.handle);
      var handle := DecodeHandle(indexValue);
      if genuine { HandleRoundTrip(b.handle); }
      if handle.None? {
        return None;
      }
      hide EncodeHandle, DecodeHandle, BlockIn, Lawful;
      var contents :=
          ReadBlock(crc, file, verifyChecksums, handle.value, if |b.offsets| < TWO_32 then Contents(b) else []);
      if contents.None? {
        return None;
      }
      r := SeekContents(contents.value, k, b);
    }

    /** Entry `g` is there and has the user key of `k`. */
    ghost predicate SameUser(g: nat, k: Slice) {
      g < |t.entries| && |t.entries[g].key| >= TRAILER && |k| >= TRAILER &&
          ExtractUserKey(t.entries[g].key) == ExtractUserKey(k)
    }

    /** The filter for the block that the index leads to does not match. */
    ghost predicate Rejects(k: Slice)
      requires |k| >= TRAILER
    {
      var i := First(user, t.index.layout.entries, k);
      filter != null && i < |t.blocks| && FilterRejects(filter, t.blocks[i].handle.offset, k)
    }

    ghost predicate FilterRejects(reader: FilterBlockReader, blockOffset: nat, k: Slice)
      requires |k| >= TRAILER
    {
      var f := FilterIndex(blockOffset);
      f < |t.filterOffsets| &&
      var from, to := t.filterOffsets[f], FilterEnd(t.filterOffsets, |t.filters|, f);
      from <= to <= |t.filters| && !reader.policy.Matches(k, t.filters[from..to])
    }

    /**
     The lookup hands back nothing but the first entry that is not before the key, and that entry whenever it has the
     user key of the key. Where the filter rejects the key, no data block is looked into and nothing is handed back.
     */
    method InternalGet(k: Slice) returns (r: Option<Pair>)
      requires Shape() && |k| >= TRAILER
      ensures Genuine() ==> (r.Some? ==> r == At(t.entries, First(user, t.entries, k)))
      ensures Genuine() ==> (SameUser(First(user, t.entries, k), k) ==> r.Some?)
      ensures Genuine() ==> (Rejects(k) ==> r.None?)
    {
      ghost var genuine := Genuine();
      ghost var index := t.index.layout.entries;
      var found := SeekContents(indexContents, k, t.index);
      if found.None? {
        if genuine { PastTheEnd(user, index, t.entries, t.cuts, t.blocks, k); }
        return None;
      }
      ghost var i := First(user, index, k);
      if genuine { Led(k, i); }
      hide Genuine, IndexOk, Shape, First;
      var handle := DecodeHandle(found.value.value);
      if filter != null && handle.Some? {
        if genuine && SameUser(First(user, t.entries, k), k) { Accepted(k, i); }
        var may := filter.KeyMayMatch(handle.value.offset, k, t.filters, t.filterOffsets);
        if !may {
          return None;
        }
      }
      r := SeekInBlock(found.value.value, k, if i < |t.blocks| then t.blocks[i] else t.index);
    }

    /** What the index says about where the first entry not before the key can be. */
    lemma Led(k: Slice, i: nat)
      requires Genuine() && |k| >= TRAILER && i == First(user, t.index.layout.entries, k) &&
               i < |t.index.layout.entries|
      ensures i < |t.blocks| && t.index.layout.entries[i].value == EncodeHandle(t.blocks[i].handle)
      ensures DecodeHandle(EncodeHandle(t.blocks[i].handle)) == Some(t.blocks[i].handle)
      ensures BlockOk(crc, Internal(user).before, file, t.blocks[i]) && Lawful(user)
      ensures LeadsTo(k, i)
    {
      assert BlockOk(crc, Internal(user).before, file, t.blocks[i]);
      assert BlockIn(crc, file, t.blocks[i].handle, Contents(t.blocks[i]));
      HandleRoundTrip(t.blocks[i].handle);
      hide BlockOk, EncodeHandle, DecodeHandle, Lawful, Ascending, First, BlockIn, LeadsTo, BlocksOk, InternalKeys,
           IndexKeyOk, FilterFor;
      LedTo(k, i);
    }

    lemma LedTo(k: Slice, i: nat)
      requires TableOk(crc, user, file, t) && |k| >= TRAILER && i == First(user, t.index.layout.entries, k)
      requires i < |t.index.layout.entries|
      ensures LeadsTo(k, i)
    {
      hide BlockOk, Lawful, Ascending, First, IndexOk, BlocksOk;
      IndexLeads(user, t.index.layout.entries, t.entries, t.cuts, t.blocks, k);
      BlockEntries(t.entries, t.cuts, t.blocks, i);
    }

    lemma BlockEntries(entries: seq<Pair>, cuts: seq<nat>, blocks: seq<DataBlock>, i: nat)
      requires CutsOk(entries, cuts, blocks) && i < |blocks|
      ensures cuts[i] < cuts[i + 1] <= |entries| && blocks[i].layout.entries == entries[cuts[i]..cuts[i + 1]]
      ensures InternalKeys(entries) ==> forall g :: 0 <= g < |entries| ==> |entries[g].key| >= TRAILER
    {
    }

    /** The first entry not before the key is the one that block `i` has, or else has another user key. */
    ghost predicate LeadsTo(k: Slice, i: nat) {
      var g := First(user, t.entries, k);
      i < |t.blocks| && i + 1 < |t.cuts| &&
      var j := First(user, t.blocks[i].layout.entries, k);
      if j < |t.blocks[i].layout.entries| then
        g < |t.entries| && t.entries[g] == t.blocks[i].layout.entries[j] && t.cuts[i] <= g < t.cuts[i + 1]
      else
        !SameUser(g, k)
    }

    /** The filter never stands between the key and an entry with its user key. */
    lemma Accepted(k: Slice, i: nat)
      requires Genuine() && filter != null && LeadsTo(k, i) && SameUser(First(user, t.entries, k), k)
      ensures var f := FilterIndex(t.blocks[i].handle.offset);
              filter.Reads(t.filters, t.filterOffsets) && f < |t.filterOffsets| &&
              t.filterOffsets[f] <= FilterEnd(t.filterOffsets, |t.filters|, f) <= |t.filters| &&
              filter.policy.Matches(k, t.filters[t.filterOffsets[f]..FilterEnd(t.filterOffsets, |t.filters|, f)])
    {
      assert FilterFor(t, filter);
      FilterAccepts(t, filter, i, First(user, t.entries, k), k);
    }
  }

  lemma FilterAccepts(t: TableLayout, filter: FilterBlockReader, i: nat, g: nat, k: Slice)
    requires CutsOk(t.entries, t.cuts, t.blocks) && FilterFor(t, filter) && i < |t.blocks|
    requires t.cuts[i] <= g < t.cuts[i + 1]
    requires |t.entries[g].key| >= TRAILER && |k| >= TRAILER && ExtractUserKey(t.entries[g].key) == ExtractUserKey(k)
    ensures var f := FilterIndex(t.blocks[i].handle.offset);
            f < |t.filterOffsets| &&
            t.filterOffsets[f] <= FilterEnd(t.filterOffsets, |t.filters|, f) <= |t.filters| &&
            filter.policy.Matches(k, t.filters[t.filterOffsets[f]..FilterEnd(t.filterOffsets, |t.filters|, f)])
  {
    var f := FilterIndex(t.blocks[i].handle.offset);
    assert t.entries[g].key in Group(t.groups, [], f);
    hide FilterIndex, CutsOk, FilterCovers;
    var m :| 0 <= m < |t.groups[f]| && t.groups[f][m] == t.entries[g].key;
    assert FilterOk(filter.policy, t.groups, t.filterOffsets, t.filters, f);
    filter.policy.NeverRejects(t.groups[f], t.filters[t.filterOffsets[f]..FilterEnd(t.filterOffsets, |t.filters|, f)],
                               m, k);
  }

  // ---------------------------------------------------------------------------------------------------------------
  // Building.

  /**
   What has been added is in the blocks written so far and in the one being built. The index lacks an entry only for a
   block just written, and then the block being built is empty.
   */
  ghost predicate BuildOk(crc: Crc, c: Comparator, file: seq<Byte>, entries: seq<Pair>, cuts: seq<nat>,
                          blocks: seq<DataBlock>, data: seq<Pair>, index: seq<Pair>, pending: bool)
  {
    && Lawful(c) && Ascending(Internal(c).before, entries) && InternalKeys(entries)
    && CutsOk(entries, cuts, blocks) && BlocksOk(crc, Internal(c).before, file, blocks)
    && data == entries[cuts[|blocks|]..] && IndexOk(c, index, entries, cuts, blocks)
    && |index| == |blocks| - (if pending then 1 else 0)
    && (if pending then |blocks| > 0 && data == [] else |blocks| > 0 ==> data != [])
  }

  /** All keys are in the filter of their block. */
  ghost predicate CoverOk(size: nat, entries: seq<Pair>, cuts: seq<nat>, blocks: seq<DataBlock>,
                          groups: seq<seq<Slice>>, pending: seq<Slice>)
  {
    && CutsOk(entries, cuts, blocks) && |groups| == FilterIndex(size)
    && FilterCovers(entries, cuts, blocks, groups, pending)
    && forall j :: cuts[|blocks|] <= j < |entries| ==> entries[j].key in pending
  }

  ghost predicate CanFollow(c: Comparator, entries: seq<Pair>, e: Pair) {
    |e.key| >= TRAILER && (entries == [] || InternalLess(c.before, Block.Last(entries).key, e.key))
  }

  class TableBuilder {
    const crc: Crc
    const user: Comparator
    const blockSize: nat
    const dataBlock: BlockBuilder
    const indexBlock: BlockBuilder
    const hasFilter: bool
    const filterBlock: FilterBlockBuilder
    var file: seq<Byte>
    var lastKey: Slice
    var numEntries: nat
    var closed: bool
    var pendingIndexEntry: bool
    var pendingHandle: BlockHandle
    ghost var entries: seq<Pair>
    ghost var cuts: seq<nat>
    ghost var blocks: seq<DataBlock>

    ghost predicate Objects()
      reads dataBlock, indexBlock, filterBlock
    {
      && dataBlock != indexBlock && dataBlock.before == indexBlock.before == Internal(user).before
      && dataBlock.Valid() && indexBlock.Valid() && (hasFilter ==> filterBlock.Valid())
    }

    ghost predicate Valid()
      reads this, dataBlock, indexBlock, filterBlock
    {
      && Objects() && !closed && numEntries == |entries|
      && BuildOk(crc, user, file, entries, cuts, blocks, dataBlock.layout.entries, indexBlock.layout.entries,
                 pendingIndexEntry)
      && (hasFilter ==> CoverOk(|file|, entries, cuts, blocks, filterBlock.groups, filterBlock.pending))
      && (entries != [] ==> lastKey == Block.Last(entries).key)
      && (pendingIndexEntry ==> blocks != [] && pendingHandle == Block.Last(blocks).handle)
    }

    /** Without a filter policy, `hasFilter` is false and no use is made of the filter block. */
    constructor (crc: Crc, user: Comparator, blockSize: nat, restartInterval: nat, hasFilter: bool,
                 policy: InternalFilterPolicy)
      requires Lawful(user) && restartInterval >= 1 && 1 <= policy.user.k <= 30
      ensures Valid() && entries == [] && file == [] && fresh(dataBlock) && fresh(indexBlock) && fresh(filterBlock)
    {
      hide BlockBuilder.Valid, FilterBlockBuilder.Valid, BuildOk, CoverOk, Lawful, FiltersOk, Flattens;
      this.crc, this.user, this.blockSize := crc, user, blockSize;
      dataBlock := new BlockBuilder(Internal(user).before, restartInterval);
      indexBlock := new BlockBuilder(Internal(user).before, 1);
      this.hasFilter := hasFilter;
      filterBlock := new FilterBlockBuilder(policy);
      file, lastKey, numEntries, closed, pendingIndexEntry, pendingHandle := [], [], 0, false, false, BlockHandle(0, 0);
      entries, cuts, blocks := [], [0], [];
      new;
      NothingBuilt(crc, user);
      if hasFilter {
        filterBlock.StartBlock(0);
        assert filterBlock.groups == [] && Group(filterBlock.groups, filterBlock.pending, 0) == [];
      }
    }

    /** Sizes stay below what the 32-bit offsets of blocks can tell. */
    ghost predicate Room(key: Slice, value: Slice)
      reads `lastKey, dataBlock, indexBlock
    {
      |dataBlock.buffer| + |key| + |value| + 15 < TWO_32 && |indexBlock.buffer| + |lastKey| + 35 < TWO_32
    }

    /** One more entry in the block being built; it settles the index key of the block before. */
    method AddEntry(key: Slice, value: Slice)
      requires Valid() && Room(key, value) && CanFollow(user, entries, Pair(key, value))
      modifies this, dataBlock, indexBlock, filterBlock
      ensures Valid() && entries == old(entries) + [Pair(key, value)] && file == old(file) && blocks == old(blocks)
      ensures dataBlock.layout.entries == old(dataBlock.layout.entries) + [Pair(key, value)]
      ensures filterBlock.result == old(filterBlock.result)
      ensures hasFilter ==> filterBlock.pending == old(filterBlock.pending) + [key]
    {
      hide BlockBuilder.Valid, FilterBlockBuilder.Valid, BuildOk, CoverOk, Lawful, InternalLess, StrictOrder,
           InternalSeparator;
      hide EncodeHandle;
      ghost var e := Pair(key, value);
      BeforeAdding(crc, user, file, entries, cuts, blocks, dataBlock.layout.entries, indexBlock.layout.entries,
                   pendingIndexEntry, e);
      AfterAdding(crc, user, file, entries, cuts, blocks, dataBlock.layout.entries, indexBlock.layout.entries,
                  pendingIndexEntry, e);
      SettleIndex(key);
      if hasFilter {
        FilterOneMore(|file|, entries, cuts, blocks, filterBlock.groups, filterBlock.pending, e);
        filterBlock.AddKey(key);
      }
      lastKey := key;
      numEntries := numEntries + 1;
      dataBlock.Add(key, value);
      entries := entries + [e];
    }

    /** The entry of the block before, if it is still missing, under a key between that block and the key to come. */
    method SettleIndex(key: Slice)
      requires indexBlock.Valid() && StrictOrder(indexBlock.before) && indexBlock.before == Internal(user).before
      requires |indexBlock.buffer| + |lastKey| + 35 < TWO_32
      requires pendingIndexEntry ==>
                 var k := InternalSeparator(user, lastKey, key);
                 |k| <= |lastKey| && |EncodeHandle(pendingHandle)| <= 20 &&
                 (indexBlock.layout.entries == [] ||
                  InternalLess(user.before, Block.Last(indexBlock.layout.entries).key, k))
      modifies this`lastKey, this`pendingIndexEntry, indexBlock
      ensures indexBlock.Valid() && !pendingIndexEntry
      ensures indexBlock.layout.entries ==
              if old(pendingIndexEntry) then
                old(indexBlock.layout.entries) +
                    [Pair(InternalSeparator(user, old(lastKey), key), EncodeHandle(pendingHandle))]
              else old(indexBlock.layout.entries)
    {
      hide BlockBuilder.Valid, StrictOrder, InternalLess, InternalSeparator, EncodeHandle;
      if pendingIndexEntry {
        lastKey := InternalSeparator(user, lastKey, key);
        var handleEncoding := EncodeHandle(pendingHandle);
        indexBlock.Add(lastKey, handleEncoding);
        pendingIndexEntry := false;
      }
    }

    method WriteRawBlock(contents: Slice) returns (handle: BlockHandle)
      requires |file| + |contents| + BLOCK_TRAILER_SIZE < TWO_64
      modifies this`file
      ensures file == old(file) + RawBlock(crc, contents) && handle == BlockHandle(|old(file)|, |contents|)
      ensures BlockIn(crc, file, handle, contents)
    {
      handle := BlockHandle(|file|, |contents|);
      ghost var was := file;
      var trailer := [NO_COMPRESSION] + EncodeFixed32(Mask(crc(contents + [NO_COMPRESSION])));
      hide EncodeFixed32, Mask;
      file := file + contents;
      file := file + trailer;
      assert file == was + RawBlock(crc, contents);
      assert file[|was|..] == RawBlock(crc, contents);
    }

    /** Finishes a block, writes it with its trailer and makes its builder ready for the next. */
    method WriteBlock(block: BlockBuilder) returns (handle: BlockHandle, ghost b: DataBlock)
      requires block.Valid() && |file| + 8 * TWO_32 < TWO_64
      modifies this`file, block
      ensures block.Valid() && block.layout.entries == [] && old(file) <= file && |file| <= |old(file)| + 8 * TWO_32
      ensures BlockOk(crc, block.before, file, b) && b.layout.entries == old(block.layout.entries)
      ensures b.handle == handle && handle.offset == |old(file)| && handle.size == old(block.CurrentSizeEstimate())
    {
      ghost var data, layout, offsets := block.buffer, block.layout, block.restarts;
      assert Ascending(block.before, layout.entries) && |data| < TWO_32;
      hide Describes, OffsetsOf, Ascending;
      var raw := block.Finish();
      assert |raw| == |data| + 4 * |offsets| + 4;
      hide Finished, BlockIn, RawBlock;
      handle := WriteRawBlock(raw);
      block.Reset();
      b := DataBlock(handle, layout, data, offsets);
    }

    /** Writes the block being built; its index entry has to wait for the next key. */
    method Flush()
      requires Valid() && |file| + 8 * TWO_32 < TWO_64 && (hasFilter ==> filterBlock.Small())
      modifies this, dataBlock, filterBlock
      ensures Valid() && entries == old(entries) && dataBlock.layout.entries == []
      ensures if old(dataBlock.layout.entries) == [] then blocks == old(blocks)
              else Closed(old(blocks), old(dataBlock.layout.entries), old(dataBlock.CurrentSizeEstimate()), blocks)
      ensures |file| <= |old(file)| + 8 * TWO_32 && (hasFilter ==> filterBlock.Small()) && lastKey == old(lastKey)
    {
      hide BlockBuilder.Valid, FilterBlockBuilder.Valid, FilterBlockBuilder.Small, BuildOk, CoverOk, CutsOk, BlockOk;
      EmptyOrNot(dataBlock);
      if dataBlock.buffer == [] {
        return;
      }
      ghost var before, data := file, dataBlock.layout.entries;
      ghost var b;
      pendingHandle, b := WriteBlock(dataBlock);
      AfterFlush(crc, user, before, file, entries, cuts, blocks, data, indexBlock.layout.entries, pendingIndexEntry, b);
      DataIs(crc, user, before, entries, cuts, blocks, data, indexBlock.layout.entries, pendingIndexEntry);
      pendingIndexEntry := true;
      if hasFilter {
        StartFilter(|before|, data, b);
      }
      cuts := cuts + [|entries|];
      blocks := blocks + [b];
    }

    /** Keys to come belong to the filter for where the next block starts. */
    method StartFilter(ghost size: nat, ghost data: seq<Pair>, ghost b: DataBlock)
      requires filterBlock.Valid() && filterBlock.Small() && size <= |file|
      requires CoverOk(size, entries, cuts, blocks, filterBlock.groups, filterBlock.pending)
      requires CutsOk(entries, cuts, blocks) && data != [] && data == entries[cuts[|blocks|]..]
      requires b.layout.entries == data && b.handle.offset == size
      modifies filterBlock
      ensures filterBlock.Valid() && filterBlock.Small()
      ensures CoverOk(|file|, entries, cuts + [|entries|], blocks + [b], filterBlock.groups, filterBlock.pending)
    {
      hide FilterBlockBuilder.Valid, CoverOk, CutsOk, Group, FilterIndex;
      ghost var groups, pending := filterBlock.groups, filterBlock.pending;
      FilterIndexGrows(size, |file|);
      GroupsOf(size, entries, cuts, blocks, groups, pending);
      filterBlock.StartBlock(|file|);
      FilterAfterFlush(size, |file|, entries, cuts, blocks, groups, pending, filterBlock.groups, filterBlock.pending,
                       b);
    }

    lemma EmptyOrNot(block: BlockBuilder)
      requires block.Valid()
      ensures block.buffer == [] <==> block.layout.entries == []
    {
    }

    /** One block more has been written, with these entries and of this size. */
    ghost predicate Closed(before: seq<DataBlock>, data: seq<Pair>, size: nat, after: seq<DataBlock>) {
      && |after| == |before| + 1 && after[..|before|] == before
      && Block.Last(after).layout.entries == data && Block.Last(after).handle.size == size
    }

    /**
     Adds an entry; the block being built is written as soon as, and only when, it has reached `blockSize`, and is below
     it else.
     */
    method Add(key: Slice, value: Slice)
      requires Valid() && Room(key, value) && CanFollow(user, entries, Pair(key, value)) && |file| < MAX_FILE
      requires hasFilter ==> filterBlock.SmallWithOneMore()
      modifies this, dataBlock, indexBlock, filterBlock
      ensures Valid() && entries == old(entries) + [Pair(key, value)]
      ensures if blocks == old(blocks) then
                && file == old(file) && dataBlock.layout.entries == old(dataBlock.layout.entries) + [Pair(key, value)]
                && dataBlock.CurrentSizeEstimate() < blockSize
              else
                && dataBlock.layout.entries == [] && |blocks| > 0 && Block.Last(blocks).handle.size >= blockSize
                && Closed(old(blocks), old(dataBlock.layout.entries) + [Pair(key, value)],
                          Block.Last(blocks).handle.size, blocks)
    {
      hide Objects, Valid, BuildOk, CoverOk, FilterBlockBuilder.Valid, BlockBuilder.Valid;
      AddEntry(key, value);
      var estimatedBlockSize := dataBlock.CurrentSizeEstimate();
      if estimatedBlockSize >= blockSize {
        Flush();
      }
    }

    /** The filter block goes behind the data blocks. */
    method WriteFilter()
        returns (handle: BlockHandle, ghost filters: seq<Byte>, ghost offsets: seq<U32>, ghost groups: seq<seq<Slice>>)
      requires filterBlock.Valid() && filterBlock.Small() && |file| < 2 * MAX_FILE
      requires CoverOk(|file|, entries, cuts, blocks, filterBlock.groups, filterBlock.pending)
      modifies `file, filterBlock
      ensures old(file) <= file && |file| < 11 * MAX_FILE
      ensures FiltersOk(filterBlock.policy, groups, offsets, filters) && |filters| < TWO_32
      ensures BlockIn(crc, file, handle, FinishedFilters(filters, offsets))
      ensures CutsOk(entries, cuts, blocks) && FilterCovers(entries, cuts, blocks, groups, [])
    {
      hide FilterBlockBuilder.Valid, CutsOk, Group, FilterIndex, BlockIn, FilterBlockBuilder.Small, FiltersOk;
      ghost var was, pending := filterBlock.groups, filterBlock.pending;
      GroupsOf(|file|, entries, cuts, blocks, was, pending);
      FilterCount(|file|);
      var contents;
      contents, filters := filterBlock.Finish();
      offsets, groups := filterBlock.filterOffsets, filterBlock.groups;
      CoveredStill(|file|, entries, cuts, blocks, was, pending, groups);
      FilterBlockSize(filterBlock.policy, groups, offsets, filters);
      handle := WriteRawBlock(contents);
    }

    /** The last index key need only be no smaller than the last key. */
    method FinishIndex()
      requires indexBlock.Valid() && indexBlock.before == Internal(user).before
      requires |indexBlock.buffer| + |lastKey| + 35 < TWO_32
      requires BuildOk(crc, user, file, entries, cuts, blocks, [], indexBlock.layout.entries, pendingIndexEntry)
      requires (entries != [] ==> lastKey == Block.Last(entries).key)
      requires pendingIndexEntry ==> blocks != [] && pendingHandle == Block.Last(blocks).handle
      modifies `lastKey, `pendingIndexEntry, indexBlock
      ensures indexBlock.Valid() && IndexComplete(user, indexBlock.layout.entries, entries, cuts, blocks)
    {
      hide BlockBuilder.Valid, BuildOk, InternalSuccessor, IndexOk, EncodeHandle, InternalLess, CutsOk, StrictOrder;
      LastIndex(crc, user, file, entries, cuts, blocks, indexBlock.layout.entries, pendingIndexEntry);
      if pendingIndexEntry {
        lastKey := InternalSuccessor(user, lastKey);
        var handleEncoding := EncodeHandle(pendingHandle);
        indexBlock.Add(lastKey, handleEncoding);
        pendingIndexEntry := false;
      }
    }

    /** Writes what is left: the last data block, the filter block and the index block. */
    method Finish() returns (indexHandle: BlockHandle, filterHandle: BlockHandle, ghost t: TableLayout)
      requires Valid() && |file| < MAX_FILE && |indexBlock.buffer| + |lastKey| + 35 < TWO_32
      requires hasFilter ==> filterBlock.Small()
      modifies this, dataBlock, indexBlock, filterBlock
      ensures closed && t.entries == old(entries)
      ensures Written(crc, user, file, indexHandle, hasFilter, filterBlock.policy, filterHandle, t)
    {
      hide BlockBuilder.Valid, FilterBlockBuilder.Valid, FilterBlockBuilder.Small, BuildOk, CoverOk, CutsOk, BlockOk,
           IndexOk;
      hide BlockIn, FiltersOk, FilterCovers, TableOk;
      ghost var filters: seq<Byte>, filterOffsets: seq<U32>, groups: seq<seq<Slice>> := [], [], [];
      Flush();
      closed := true;
      filterHandle := BlockHandle(0, 0);
      ghost var data := file;
      if hasFilter {
        filterHandle, filters, filterOffsets, groups := WriteFilter();
      }
      BuildGrows(crc, user, data, file, entries, cuts, blocks, [], indexBlock.layout.entries, pendingIndexEntry);
      ghost var index, pending := indexBlock.layout.entries, pendingIndexEntry;
      data := file;
      FinishIndex();
      ghost var ib;
      indexHandle, ib := WriteBlock(indexBlock);
      t := TableLayout(entries, cuts, blocks, ib, filters, filterOffsets, groups);
      TableIs(crc, user, data, file, t, index, pending);
      if hasFilter { FilterStaysWritten(crc, data, file, filterHandle, FinishedFilters(filters, filterOffsets)); }
    }
  }

  ghost predicate IndexComplete(c: Comparator, index: seq<Pair>, entries: seq<Pair>, cuts: seq<nat>,
                                blocks: seq<DataBlock>) {
    CutsOk(entries, cuts, blocks) && cuts[|blocks|] == |entries| && |index| == |blocks| &&
        IndexOk(c, index, entries, cuts, blocks)
  }

  /** The filter block is in the file, and tells of every key in the table. */
  ghost predicate FilterWritten(crc: Crc, file: seq<Byte>, policy: InternalFilterPolicy, handle: BlockHandle,
                                t: TableLayout) {
    && CutsOk(t.entries, t.cuts, t.blocks) && |t.filters| < TWO_32
    && BlockIn(crc, file, handle, FinishedFilters(t.filters, t.filterOffsets))
    && FiltersOk(policy, t.groups, t.filterOffsets, t.filters)
    && FilterCovers(t.entries, t.cuts, t.blocks, t.groups, [])
  }

  lemma FilterStaysWritten(crc: Crc, file: seq<Byte>, file': seq<Byte>, h: BlockHandle, contents: Slice)
    requires BlockIn(crc, file, h, contents) && file <= file'
    ensures BlockIn(crc, file', h, contents)
  {
    hide RawBlock;
    assert file'[h.offset..h.offset + h.size + BLOCK_TRAILER_SIZE] ==
             file[h.offset..h.offset + h.size + BLOCK_TRAILER_SIZE];
  }

  lemma FilterCount(size: nat)
    ensures FilterIndex(size) <= size
  {
  }

  lemma FilterBlockSize(policy: InternalFilterPolicy, groups: seq<seq<Slice>>, offsets: seq<U32>, filters: seq<Byte>)
    requires FiltersOk(policy, groups, offsets, filters) && |filters| < TWO_32
    ensures |FinishedFilters(filters, offsets)| == |filters| + 4 * |groups| + 5
  {
    FilterParts(filters, offsets);
  }

  lemma CoveredStill(size: nat, entries: seq<Pair>, cuts: seq<nat>, blocks: seq<DataBlock>, groups: seq<seq<Slice>>,
                     pending: seq<Slice>, groups': seq<seq<Slice>>)
    requires CoverOk(size, entries, cuts, blocks, groups, pending)
    requires forall i: nat :: Group(groups', [], i) == Group(groups, pending, i)
    ensures CutsOk(entries, cuts, blocks) && FilterCovers(entries, cuts, blocks, groups', [])
  {
  }

  lemma BuildGrows(crc: Crc, c: Comparator, file: seq<Byte>, file': seq<Byte>, entries: seq<Pair>, cuts: seq<nat>,
                   blocks: seq<DataBlock>, data: seq<Pair>, index: seq<Pair>, pending: bool)
    requires BuildOk(crc, c, file, entries, cuts, blocks, data, index, pending) && file <= file'
    ensures BuildOk(crc, c, file', entries, cuts, blocks, data, index, pending)
  {
    BlocksStay(crc, Internal(c).before, file, file', blocks);
    hide Lawful, Ascending, InternalKeys, CutsOk, BlocksOk, IndexOk;
  }

  lemma BlocksStay(crc: Crc, before: Order, file: seq<Byte>, file': seq<Byte>, blocks: seq<DataBlock>)
    requires BlocksOk(crc, before, file, blocks) && file <= file'
    ensures BlocksOk(crc, before, file', blocks)
  {
    forall i | 0 <= i < |blocks| ensures BlockOk(crc, before, file', blocks[i]) {
      BlockStays(crc, before, file, file', blocks[i]);
    }
  }

  /** What adding the last index entry asks, and that with it the index is complete. */
  lemma LastIndex(crc: Crc, c: Comparator, file: seq<Byte>, entries: seq<Pair>, cuts: seq<nat>, blocks: seq<DataBlock>,
                  index: seq<Pair>, pending: bool)
    requires BuildOk(crc, c, file, entries, cuts, blocks, [], index, pending)
    ensures StrictOrder(Internal(c).before) && CutsOk(entries, cuts, blocks) && cuts[|blocks|] == |entries|
    ensures !pending ==> |index| == |blocks| && IndexOk(c, index, entries, cuts, blocks)
    ensures pending ==>
              entries != [] && blocks != [] && |EncodeHandle(Block.Last(blocks).handle)| <= 20 &&
              var key := InternalSuccessor(c, Block.Last(entries).key);
              |key| <= |Block.Last(entries).key| &&
                  (index == [] || InternalLess(c.before, Block.Last(index).key, key)) &&
              |index| + 1 == |blocks| &&
              IndexOk(c, index + [Pair(key, EncodeHandle(Block.Last(blocks).handle))], entries, cuts, blocks)
  {
    InternalLawful(c);
    LastCut(entries, cuts, blocks);
    if pending {
      assert BlockOk(crc, Internal(c).before, file, Block.Last(blocks));
      HandleLength(Block.Last(blocks).handle);
      assert cuts[|blocks|] > cuts[0];
      SuccessorIsRight(c, index, entries, cuts, blocks);
    }
  }

  lemma SuccessorIsRight(c: Comparator, index: seq<Pair>, entries: seq<Pair>, cuts: seq<nat>, blocks: seq<DataBlock>)
    requires Lawful(c) && CutsOk(entries, cuts, blocks) && IndexOk(c, index, entries, cuts, blocks)
    requires InternalKeys(entries)
    requires Ascending(Internal(c).before, entries) && entries != []
    requires |index| == |blocks| - 1 && cuts[|blocks|] == |entries|
    ensures var key := InternalSuccessor(c, Block.Last(entries).key);
            |key| <= |Block.Last(entries).key| && (index == [] || InternalLess(c.before, Block.Last(index).key, key)) &&
            IndexOk(c, index + [Pair(key, EncodeHandle(Block.Last(blocks).handle))], entries, cuts, blocks)
  {
    LastKeyFits(c, entries);
    var key := InternalSuccessor(c, Block.Last(entries).key);
    if index != [] {
      var m := cuts[|index|];
      assert IndexKeyOk(c, Block.Last(index).key, entries, m);
      assert m < |entries|;
      Follows(c, entries, m, Block.Last(index).key, key);
    }
    assert IndexKeyOk(c, key, entries, cuts[|blocks|]);
    hide Lawful, InternalSuccessor, InternalLess, IndexKeyOk, CutsOk, Ascending, InternalKeys;
  }

  lemma LastKeyFits(c: Comparator, entries: seq<Pair>)
    requires Lawful(c) && InternalKeys(entries) && entries != []
    ensures var key := InternalSuccessor(c, Block.Last(entries).key);
            |key| <= |Block.Last(entries).key| && IndexKeyOk(c, key, entries, |entries|)
  {
    InternalLawful(c);
    var last := Block.Last(entries).key;
    assert NotAfter(Internal(c).before, last, Internal(c).successor(last));
  }

  /** What is before an entry is before any key that is not before the last entry. */
  lemma Follows(c: Comparator, entries: seq<Pair>, m: nat, a: Slice, key: Slice)
    requires Lawful(c) && Ascending(Internal(c).before, entries) && m < |entries|
    requires InternalLess(c.before, a, entries[m].key)
    requires NotAfter(Internal(c).before, Block.Last(entries).key, key)
    ensures InternalLess(c.before, a, key)
  {
    InternalLawful(c);
    assert entries[m] == Block.Last(entries) || InternalLess(c.before, entries[m].key, Block.Last(entries).key);
  }

  lemma TableIs(crc: Crc, c: Comparator, file: seq<Byte>, file': seq<Byte>, t: TableLayout, index: seq<Pair>,
                pending: bool)
    requires BuildOk(crc, c, file, t.entries, t.cuts, t.blocks, [], index, pending) && file <= file'
    requires IndexComplete(c, t.index.layout.entries, t.entries, t.cuts, t.blocks)
    requires BlockOk(crc, Internal(c).before, file', t.index)
    ensures TableOk(crc, c, file', t)
  {
    LastCut(t.entries, t.cuts, t.blocks);
    BlocksStay(crc, Internal(c).before, file, file', t.blocks);
    hide Lawful, Ascending, InternalKeys, CutsOk, BlocksOk, IndexOk, BlockOk;
  }

  lemma DataIs(crc: Crc, c: Comparator, file: seq<Byte>, entries: seq<Pair>, cuts: seq<nat>, blocks: seq<DataBlock>,
               data: seq<Pair>, index: seq<Pair>, pending: bool)
    requires BuildOk(crc, c, file, entries, cuts, blocks, data, index, pending)
    ensures CutsOk(entries, cuts, blocks) && data == entries[cuts[|blocks|]..]
  {
  }

  lemma FilterIndexGrows(a: nat, b: nat)
    requires a <= b
    ensures FilterIndex(a) <= FilterIndex(b)
  {
  }

  lemma GroupsOf(size: nat, entries: seq<Pair>, cuts: seq<nat>, blocks: seq<DataBlock>, groups: seq<seq<Slice>>,
                 pending: seq<Slice>)
    requires CoverOk(size, entries, cuts, blocks, groups, pending)
    ensures |groups| == FilterIndex(size)
  {
  }

  lemma MoreBlocks(crc: Crc, before: Order, file: seq<Byte>, file': seq<Byte>, blocks: seq<DataBlock>, b: DataBlock)
    requires BlocksOk(crc, before, file, blocks) && file <= file' && BlockOk(crc, before, file', b)
    ensures BlocksOk(crc, before, file', blocks + [b])
  {
    forall i | 0 <= i < |blocks| + 1 ensures BlockOk(crc, before, file', (blocks + [b])[i]) {
      if i < |blocks| { BlockStays(crc, before, file, file', blocks[i]); }
    }
  }

  lemma BlockStays(crc: Crc, before: Order, file: seq<Byte>, file': seq<Byte>, b: DataBlock)
    requires BlockOk(crc, before, file, b) && file <= file'
    ensures BlockOk(crc, before, file', b)
  {
    var h := b.handle;
    hide RawBlock, Describes, OffsetsOf, Ascending, Contents;
    assert file'[h.offset..h.offset + h.size + BLOCK_TRAILER_SIZE] ==
             file[h.offset..h.offset + h.size + BLOCK_TRAILER_SIZE];
  }

  lemma CutsMore(entries: seq<Pair>, cuts: seq<nat>, blocks: seq<DataBlock>, b: DataBlock)
    requires CutsOk(entries, cuts, blocks) && cuts[|blocks|] < |entries|
    requires b.layout.entries == entries[cuts[|blocks|]..]
    ensures CutsOk(entries, cuts + [|entries|], blocks + [b])
  {
  }

  /** Writing the block being built keeps all in order; now the index lacks its entry. */
  lemma AfterFlush(crc: Crc, c: Comparator, file: seq<Byte>, file': seq<Byte>, entries: seq<Pair>, cuts: seq<nat>,
                   blocks: seq<DataBlock>, data: seq<Pair>, index: seq<Pair>, pending: bool, b: DataBlock)
    requires BuildOk(crc, c, file, entries, cuts, blocks, data, index, pending) && data != [] && file <= file'
    requires BlockOk(crc, Internal(c).before, file', b) && b.layout.entries == data
    ensures BuildOk(crc, c, file', entries, cuts + [|entries|], blocks + [b], [], index, true)
  {
    hide Lawful, Ascending, InternalKeys, BlocksOk, IndexKeyOk, BlockOk;
    MoreBlocks(crc, Internal(c).before, file, file', blocks, b);
    CutsMore(entries, cuts, blocks, b);
    forall i | 0 <= i < |index|
      ensures index[i].value == EncodeHandle((blocks + [b])[i].handle)
      ensures IndexKeyOk(c, index[i].key, entries, (cuts + [|entries|])[i + 1])
    {
      assert (cuts + [|entries|])[i + 1] == cuts[i + 1];
    }
  }

  lemma FilterAfterFlush(size: nat, size': nat, entries: seq<Pair>, cuts: seq<nat>, blocks: seq<DataBlock>,
                         groups: seq<seq<Slice>>, pending: seq<Slice>, groups': seq<seq<Slice>>, pending': seq<Slice>,
                         b: DataBlock)
    requires CoverOk(size, entries, cuts, blocks, groups, pending) && b.layout.entries != []
    requires b.layout.entries == entries[cuts[|blocks|]..] && b.handle.offset == size
    requires |groups'| == FilterIndex(size')
    requires forall i: nat :: Group(groups', pending', i) == Group(groups, pending, i)
    ensures CoverOk(size', entries, cuts + [|entries|], blocks + [b], groups', pending')
  {
    CutsMore(entries, cuts, blocks, b);
    var cuts', blocks' := cuts + [|entries|], blocks + [b];
    forall i, j | 0 <= i < |blocks'| && cuts'[i] <= j < cuts'[i + 1]
      ensures entries[j].key in Group(groups', pending', FilterIndex(blocks'[i].handle.offset))
    {
      if i < |blocks| {
        assert entries[j].key in Group(groups, pending, FilterIndex(blocks[i].handle.offset));
      } else {
        assert pending == Group(groups, pending, |groups|) && entries[j].key in pending;
      }
    }
  }

  lemma NothingBuilt(crc: Crc, c: Comparator)
    requires Lawful(c)
    ensures BuildOk(crc, c, [], [], [0], [], [], [], false) && CoverOk(0, [], [0], [], [], [])
  {
  }

  lemma HandleLength(h: BlockHandle)
    requires h.offset < TWO_64 && h.size < TWO_64
    ensures |EncodeHandle(h)| <= 20
  {
    Pow128Ten();
    hide Pow128, Varint;
    VarintRoundTrip(h.offset, 10, []);
    VarintRoundTrip(h.size, 10, []);
  }

  /** What adding an entry asks of the builders of the data block and of the index block. */
  lemma BeforeAdding(crc: Crc, c: Comparator, file: seq<Byte>, entries: seq<Pair>, cuts: seq<nat>,
                     blocks: seq<DataBlock>, data: seq<Pair>, index: seq<Pair>, pending: bool, e: Pair)
    requires BuildOk(crc, c, file, entries, cuts, blocks, data, index, pending) && CanFollow(c, entries, e)
    ensures StrictOrder(Internal(c).before) && (data == [] || InternalLess(c.before, Block.Last(data).key, e.key))
    ensures pending ==>
              entries != [] && blocks != [] && |EncodeHandle(Block.Last(blocks).handle)| <= 20 &&
              var key := InternalSeparator(c, Block.Last(entries).key, e.key);
              |key| <= |Block.Last(entries).key| && (index == [] || InternalLess(c.before, Block.Last(index).key, key))
  {
    InternalLawful(c);
    if pending {
      assert BlockOk(crc, Internal(c).before, file, Block.Last(blocks));
      HandleLength(Block.Last(blocks).handle);
      hide Lawful, InternalLess, IndexOk, Ascending, InternalKeys, StrictOrder;
      assert entries[cuts[|blocks|]..] == [];
      assert cuts[|blocks|] > cuts[0];
      SeparatorIsRight(c, index, entries, cuts, blocks, e);
    }
  }

  /** With the entry, and the index entry that waited for it, everything is as it should be again. */
  lemma AfterAdding(crc: Crc, c: Comparator, file: seq<Byte>, entries: seq<Pair>, cuts: seq<nat>,
                    blocks: seq<DataBlock>, data: seq<Pair>, index: seq<Pair>, pending: bool, e: Pair)
    requires BuildOk(crc, c, file, entries, cuts, blocks, data, index, pending) && CanFollow(c, entries, e)
    requires pending ==> entries != [] && blocks != []
    ensures var index' := if pending then
                            index + [Pair(InternalSeparator(c, Block.Last(entries).key, e.key),
                                          EncodeHandle(Block.Last(blocks).handle))]
                          else index;
            BuildOk(crc, c, file, entries + [e], cuts, blocks, data + [e], index', false)
  {
    AppendEntry(entries, cuts, blocks, e);
    OneMoreEntry(c, entries, e);
    hide Lawful, InternalLess, Ascending, InternalKeys, StrictOrder, IndexOk, InternalSeparator, EncodeHandle, BlocksOk,
         CutsOk;
    LastCut(entries, cuts, blocks);
    if pending {
      IndexAfterSeparator(c, index, entries, cuts, blocks, e);
    } else {
      AppendBehindIndex(c, index, entries, cuts, blocks, e);
    }
  }

  lemma LastCut(entries: seq<Pair>, cuts: seq<nat>, blocks: seq<DataBlock>)
    requires CutsOk(entries, cuts, blocks)
    ensures |cuts| == |blocks| + 1 && cuts[|blocks|] <= |entries|
    ensures entries[cuts[|blocks|]..] == [] <==> cuts[|blocks|] == |entries|
  {
  }

  lemma OneMoreEntry(c: Comparator, entries: seq<Pair>, e: Pair)
    requires Lawful(c) && Ascending(Internal(c).before, entries) && InternalKeys(entries) && CanFollow(c, entries, e)
    ensures Ascending(Internal(c).before, entries + [e]) && InternalKeys(entries + [e])
  {
    InternalLawful(c);
    AscendingExtended(Internal(c).before, entries, e);
  }

  /** A key joins the filter of the block being built; those of the blocks before stay covered. */
  lemma FilterOneMore(size: nat, entries: seq<Pair>, cuts: seq<nat>, blocks: seq<DataBlock>, groups: seq<seq<Slice>>,
                      pending: seq<Slice>, e: Pair)
    requires CoverOk(size, entries, cuts, blocks, groups, pending)
    ensures CoverOk(size, entries + [e], cuts, blocks, groups, pending + [e.key])
  {
    AppendEntry(entries, cuts, blocks, e);
    forall i, j | 0 <= i < |blocks| && cuts[i] <= j < cuts[i + 1]
      ensures (entries + [e])[j].key in Group(groups, pending + [e.key], FilterIndex(blocks[i].handle.offset))
    {
      assert entries[j].key in Group(groups, pending, FilterIndex(blocks[i].handle.offset));
      assert (entries + [e])[j] == entries[j];
    }
  }

  /** Everything about the blocks stays when an entry is appended behind them. */
  lemma AppendEntry(entries: seq<Pair>, cuts: seq<nat>, blocks: seq<DataBlock>, e: Pair)
    requires CutsOk(entries, cuts, blocks)
    ensures CutsOk(entries + [e], cuts, blocks) && (entries + [e])[cuts[|blocks|]..] == entries[cuts[|blocks|]..] + [e]
  {
    forall i | 0 <= i < |blocks| ensures blocks[i].layout.entries == (entries + [e])[cuts[i]..cuts[i + 1]] {
      assert (entries + [e])[cuts[i]..cuts[i + 1]] == entries[cuts[i]..cuts[i + 1]];
    }
  }

  /** Index keys of blocks that are followed by something already stay right. */
  lemma AppendBehindIndex(c: Comparator, index: seq<Pair>, entries: seq<Pair>, cuts: seq<nat>, blocks: seq<DataBlock>,
                          e: Pair)
    requires CutsOk(entries, cuts, blocks) && CutsOk(entries + [e], cuts, blocks)
    requires IndexOk(c, index, entries, cuts, blocks)
    requires |index| > 0 ==> cuts[|index|] < |entries|
    ensures IndexOk(c, index, entries + [e], cuts, blocks)
  {
    forall i | 0 <= i < |index|
      ensures index[i].value == EncodeHandle(blocks[i].handle)
      ensures IndexKeyOk(c, index[i].key, entries + [e], cuts[i + 1])
    {
      assert IndexKeyOk(c, index[i].key, entries, cuts[i + 1]);
      assert cuts[i + 1] <= cuts[|index|];
    }
  }

  /** The shortest separator is a right key for the block in front of the new entry, and after all index keys before. */
  lemma SeparatorIsRight(c: Comparator, index: seq<Pair>, entries: seq<Pair>, cuts: seq<nat>, blocks: seq<DataBlock>,
                         e: Pair)
    requires Lawful(c) && CutsOk(entries, cuts, blocks) && IndexOk(c, index, entries, cuts, blocks)
    requires InternalKeys(entries)
    requires Ascending(Internal(c).before, entries) && entries != [] && CanFollow(c, entries, e)
    requires |index| == |blocks| - 1 && cuts[|blocks|] == |entries|
    ensures var key := InternalSeparator(c, Block.Last(entries).key, e.key);
            |key| <= |Block.Last(entries).key| && IndexKeyOk(c, key, entries + [e], |entries|) &&
            (index == [] || InternalLess(c.before, Block.Last(index).key, key))
  {
    var last := Block.Last(entries).key;
    var key := InternalSeparator(c, last, e.key);
    InternalLawful(c);
    assert Separates(Internal(c), last, e.key);
    SeparatorUserKey(c, last, e.key);
    assert (entries + [e])[|entries|] == e && (entries + [e])[|entries| - 1] == Block.Last(entries);
    if index != [] {
      var m := cuts[|index|];
      assert IndexKeyOk(c, Block.Last(index).key, entries, m);
      assert m < |entries|;
      assert entries[m] == Block.Last(entries) || InternalLess(c.before, entries[m].key, last);
    }
  }

  lemma IndexAfterSeparator(c: Comparator, index: seq<Pair>, entries: seq<Pair>, cuts: seq<nat>, blocks: seq<DataBlock>,
                            e: Pair)
    requires Lawful(c) && CutsOk(entries, cuts, blocks) && IndexOk(c, index, entries, cuts, blocks)
    requires InternalKeys(entries)
    requires Ascending(Internal(c).before, entries) && entries != [] && CanFollow(c, entries, e)
    requires |index| == |blocks| - 1 && cuts[|blocks|] == |entries|
    ensures var key := InternalSeparator(c, Block.Last(entries).key, e.key);
            CutsOk(entries + [e], cuts, blocks) &&
            IndexOk(c, index + [Pair(key, EncodeHandle(Block.Last(blocks).handle))], entries + [e], cuts, blocks)
  {
    SeparatorIsRight(c, index, entries, cuts, blocks, e);
    AppendEntry(entries, cuts, blocks, e);
    assert |index| > 0 ==> cuts[|index|] < cuts[|blocks|];
    AppendBehindIndex(c, index, entries, cuts, blocks, e);
    hide Lawful, InternalSeparator, InternalLess, IndexKeyOk, CutsOk;
  }

  /** The file is that of a finished table with the index and the filter at these handles. */
  ghost predicate Written(crc: Crc, user: Comparator, file: seq<Byte>, indexHandle: BlockHandle, hasFilter: bool,
                          policy: InternalFilterPolicy, filterHandle: BlockHandle, t: TableLayout)
  {
    TableOk(crc, user, file, t) && t.index.handle == indexHandle &&
    (hasFilter ==> FilterWritten(crc, file, policy, filterHandle, t))
  }

  /** What opening a table comes to once the footer has told where the index and the filter are. */
  method Open(crc: Crc, user: Comparator, file: seq<Byte>, verifyChecksums: bool, indexHandle: BlockHandle,
              hasFilter: bool, policy: InternalFilterPolicy, filterHandle: BlockHandle, ghost t: TableLayout)
    returns (table: Table?)
    ensures table != null ==> fresh(table) && table.Shape() && table.user == user && table.t == t
    ensures Written(crc, user, file, indexHandle, hasFilter, policy, filterHandle, t) ==>
              table != null && table.Genuine()
  {
    hide BlockIn, TableOk, FilterCovers, FiltersOk, CutsOk;
    ghost var genuine := TableOk(crc, user, file, t) && t.index.handle == indexHandle;
    if genuine { IndexIn(crc, user, file, t); }
    var index := ReadBlock(crc, file, verifyChecksums, indexHandle, if |t.index.offsets| < TWO_32 then Contents(t.index)
                           else []);
    if index.None? {
      return null;
    }
    var reader: FilterBlockReader? := null;
    if hasFilter {
      var filter := ReadBlock(crc, file, verifyChecksums, filterHandle,
                              if |t.filters| < TWO_32 then FinishedFilters(t.filters, t.filterOffsets) else []);
      if filter.Some? {
        reader := new FilterBlockReader(policy, filter.value);
      }
    }
    table := new Table(crc, user, file, verifyChecksums, index.value, reader, t);
  }

  lemma IndexIn(crc: Crc, c: Comparator, file: seq<Byte>, t: TableLayout)
    requires TableOk(crc, c, file, t)
    ensures |t.index.offsets| < TWO_32 && BlockIn(crc, file, t.index.handle, Contents(t.index))
    ensures CutsOk(t.entries, t.cuts, t.blocks)
  {
  }
}
