/**
 The filter block of a table: one filter for every 2 KB of file offsets, holding the keys of the data blocks that start
 there.
 */
module FilterBlock {
  import opened Basics
  import opened Coding
  import opened Comparator
  import opened Bloom

  const FILTER_BASE_LG: Byte := 11
  const FILTER_BASE := 2048

  /** Which filter a data block at the offset uses. */
  function FilterIndex(blockOffset: nat): nat { blockOffset / FILTER_BASE }

  /** `block_offset >> base_lg_`. */
  function IndexOf(blockOffset: nat, baseLg: nat): nat {
    if baseLg == 0 then blockOffset else IndexOf(blockOffset / 2, baseLg - 1)
  }

  /** One filter for every 2 KB of offsets, which the last byte of the block tells: 11 is the logarithm of 2048. */
  lemma BaseIs(blockOffset: nat, n: nat)
    ensures FilterIndex(blockOffset) == n <==> 2048 * n <= blockOffset < 2048 * n + 2048
    ensures FILTER_BASE_LG == 11
    ensures IndexOf(2047, FILTER_BASE_LG as nat) == 0 && IndexOf(2048, FILTER_BASE_LG as nat) == 1
  {
    assert IndexOf(2048, 11) == IndexOf(512, 9) == IndexOf(128, 7) == IndexOf(32, 5) == IndexOf(8, 3) == IndexOf(2, 1);
    assert IndexOf(2047, 11) == IndexOf(511, 9) == IndexOf(127, 7) == IndexOf(31, 5) == IndexOf(7, 3) == IndexOf(1, 1);
  }

  ghost predicate AllInternal(keys: seq<Slice>) {
    forall i :: 0 <= i < |keys| ==> |keys[i]| >= TRAILER
  }

  /** The filter policy for internal keys: it only ever shows the user keys to the policy of the application. */
  class InternalFilterPolicy {
    const user: BloomFilterPolicy

    constructor (user: BloomFilterPolicy)
      ensures this.user == user
    {
      this.user := user;
    }

    ghost function UserKeys(keys: seq<Slice>): (r: seq<Slice>)
      requires AllInternal(keys)
      ensures |r| == |keys| && forall i :: 0 <= i < |r| ==> r[i] == ExtractUserKey(keys[i])
    {
      seq(|keys|, i requires 0 <= i < |keys| => ExtractUserKey(keys[i]))
    }

    ghost predicate IsFilter(keys: seq<Slice>, filter: seq<Byte>) {
      1 <= user.k <= 30 && AllInternal(keys) && user.IsFilter(UserKeys(keys), filter)
    }

    ghost predicate Matches(key: Slice, filter: seq<Byte>) {
      |key| >= TRAILER && user.Matches(ExtractUserKey(key), filter)
    }

    method CreateFilter(keys: seq<Slice>, dst: seq<Byte>) returns (r: seq<Byte>)
      requires 1 <= user.k <= 30 && AllInternal(keys)
      ensures |dst| <= |r| && r[..|dst|] == dst && IsFilter(keys, r[|dst|..])
    {
      var mkey: seq<Slice> := [];
      for i := 0 to |keys|
        invariant |mkey| == i && forall j :: 0 <= j < i ==> mkey[j] == ExtractUserKey(keys[j])
      {
        mkey := mkey + [ExtractUserKey(keys[i])];
      }
      assert mkey == UserKeys(keys);
      r := user.CreateFilter(mkey, dst);
    }

    method KeyMayMatch(key: Slice, filter: seq<Byte>) returns (r: bool)
      requires |key| >= TRAILER
      ensures r <==> Matches(key, filter)
    {
      r := user.KeyMayMatch(ExtractUserKey(key), filter);
    }

    /** A key matches the filter of any keys among which is one with the same user key. */
    lemma NeverRejects(keys: seq<Slice>, filter: seq<Byte>, i: nat, key: Slice)
      requires IsFilter(keys, filter) && i < |keys| && |key| >= TRAILER
      requires ExtractUserKey(key) == ExtractUserKey(keys[i])
      ensures Matches(key, filter)
    {
      assert UserKeys(keys)[i] == ExtractUserKey(key);
      user.NeverRejects(UserKeys(keys), filter, ExtractUserKey(key));
    }
  }

  /** Key number `i` of those flattened into one string. */
  function Piece(flat: Slice, start: seq<nat>, i: nat): Slice
    requires i < |start|
  {
    var end := if i + 1 < |start| then start[i + 1] else |flat|;
    if start[i] <= end <= |flat| then flat[start[i]..end] else []
  }

  ghost predicate Flattens(keys: seq<Slice>, flat: Slice, start: seq<nat>) {
    && |start| == |keys|
    && (forall i :: 0 <= i < |start| ==> start[i] <= |flat|)
    && (forall i :: 0 <= i < |start| - 1 ==> start[i] <= start[i + 1])
    && (forall i :: 0 <= i < |keys| ==> Piece(flat, start, i) == keys[i])
  }

  lemma FlattenOneMore(keys: seq<Slice>, flat: Slice, start: seq<nat>, key: Slice)
    requires Flattens(keys, flat, start)
    ensures Flattens(keys + [key], flat + key, start + [|flat|])
  {
    var start', flat' := start + [|flat|], flat + key;
    forall i | 0 <= i < |keys| + 1 ensures Piece(flat', start', i) == (keys + [key])[i] {
      if i < |keys| {
        var end := if i + 1 < |start| then start[i + 1] else |flat|;
        assert flat'[start[i]..end] == flat[start[i]..end];
        assert Piece(flat, start, i) == keys[i];
      } else {
        assert flat'[|flat|..] == key;
      }
    }
  }

  /** Where the filter number `i` ends in the bytes of all filters. */
  function FilterEnd(offsets: seq<U32>, size: nat, i: nat): nat
    requires i < |offsets|
  {
    if i + 1 < |offsets| then offsets[i + 1] else size
  }

  /** Filter number `i` is the one for its keys; without keys it takes no bytes. */
  ghost predicate FilterOk(policy: InternalFilterPolicy, groups: seq<seq<Slice>>, offsets: seq<U32>, result: seq<Byte>,
                           i: nat)
    requires |groups| == |offsets| && i < |groups|
  {
    var from, to := offsets[i], FilterEnd(offsets, |result|, i);
    from <= to <= |result| && if groups[i] == [] then from == to else policy.IsFilter(groups[i], result[from..to])
  }

  ghost predicate FiltersOk(policy: InternalFilterPolicy, groups: seq<seq<Slice>>, offsets: seq<U32>,
                            result: seq<Byte>) {
    |groups| == |offsets| && forall i :: 0 <= i < |groups| ==> FilterOk(policy, groups, offsets, result, i)
  }

  lemma OneMoreFilter(policy: InternalFilterPolicy, groups: seq<seq<Slice>>, offsets: seq<U32>, result: seq<Byte>,
                      keys: seq<Slice>, result': seq<Byte>)
    requires FiltersOk(policy, groups, offsets, result) && |result| < TWO_32
    requires result <= result' && if keys == [] then result' == result else policy.IsFilter(keys, result'[|result|..])
    ensures FiltersOk(policy, groups + [keys], offsets + [|result|], result')
  {
    forall i | 0 <= i < |groups| + 1 ensures FilterOk(policy, groups + [keys], offsets + [|result|], result', i) {
      if i < |groups| {
        FilterStays(policy, groups, offsets, result, keys, result', i);
      }
    }
  }

  lemma FilterStays(policy: InternalFilterPolicy, groups: seq<seq<Slice>>, offsets: seq<U32>, result: seq<Byte>,
                    keys: seq<Slice>, result': seq<Byte>, i: nat)
    requires |groups| == |offsets| && i < |groups| && FilterOk(policy, groups, offsets, result, i)
    requires |result| < TWO_32 && result <= result'
    ensures FilterOk(policy, groups + [keys], offsets + [|result|], result', i)
  {
    var from, to := offsets[i], FilterEnd(offsets, |result|, i);
    assert FilterEnd(offsets + [|result|], |result'|, i) == to;
    assert result'[from..to] == result[from..to];
  }

  /** The keys that belong to filter number `i`. */
  function Group(groups: seq<seq<Slice>>, pending: seq<Slice>, i: nat): seq<Slice> {
    if i < |groups| then groups[i] else if i == |groups| then pending else []
  }

  function FinishedFilters(result: seq<Byte>, offsets: seq<U32>): seq<Byte>
    requires |result| < TWO_32
  {
    result + (Fixed32Array(offsets) + (EncodeFixed32(|result|) + [FILTER_BASE_LG]))
  }

  class FilterBlockBuilder {
    const policy: InternalFilterPolicy
    var keys: Slice
    var start: seq<nat>
    var result: seq<Byte>
    var filterOffsets: seq<U32>
    ghost var groups: seq<seq<Slice>>
    ghost var pending: seq<Slice>

    ghost predicate Valid()
      reads this
    {
      && 1 <= policy.user.k <= 30 && AllInternal(pending) && Flattens(pending, keys, start)
      && FiltersOk(policy, groups, filterOffsets, result)
    }

    /** The filters written so far fit the 32-bit offsets they are found by. */
    ghost predicate Small()
      reads this
    {
      Space() < TWO_32
    }

    /** The size of all filters with that of the pending keys. */
    ghost function Space(): nat
      reads this
    {
      |result| + if pending == [] then 0 else policy.user.BitsFor(|pending|) / 8 + 1
    }

    /** They still do with one more key. */
    ghost predicate SmallWithOneMore()
      reads this
    {
      |result| + policy.user.BitsFor(|pending| + 1) / 8 + 1 < TWO_32
    }

    constructor (policy: InternalFilterPolicy)
      requires 1 <= policy.user.k <= 30
      ensures Valid() && groups == [] && pending == [] && result == [] && this.policy == policy
    {
      this.policy := policy;
      keys, start, result, filterOffsets, groups, pending := [], [], [], [], [], [];
    }

    /** Which keys belong to which filter does not change; the next keys belong to that of the block offset. */
    method StartBlock(blockOffset: nat)
      requires Valid() && Small() && FilterIndex(blockOffset) >= |groups|
      modifies this
      ensures Valid() && |groups| == FilterIndex(blockOffset)
      ensures forall i: nat :: Group(groups, pending, i) == old(Group(groups, pending, i))
      ensures Small()
    {
      var filterIndex := FilterIndex(blockOffset);
      while filterIndex > |filterOffsets|
        invariant Valid() && |filterOffsets| <= filterIndex
        invariant forall i: nat :: Group(groups, pending, i) == old(Group(groups, pending, i))
        invariant Small()
      {
        GenerateFilter();
      }
    }

    method AddKey(key: Slice)
      requires Valid() && |key| >= TRAILER
      modifies this`keys, this`start, this`pending
      ensures Valid() && pending == old(pending) + [key]
    {
      FlattenOneMore(pending, keys, start, key);
      pending := pending + [key];
      start := start + [|keys|];
      keys := keys + key;
    }

    method GenerateFilter()
      requires Valid() && |result| < TWO_32
      modifies this
      ensures Valid() && groups == old(groups) + [old(pending)] && pending == []
      ensures |result| <= old(Space())
    {
      var numKeys := |start|;
      if numKeys == 0 {
        OneMoreFilter(policy, groups, filterOffsets, result, [], result);
        filterOffsets := filterOffsets + [|result|];
        groups := groups + [[]];
        return;
      }
      var tmpKeys: seq<Slice> := [];
      for i := 0 to numKeys
        invariant |tmpKeys| == i && forall j :: 0 <= j < i ==> tmpKeys[j] == pending[j]
      {
        tmpKeys := tmpKeys + [Piece(keys, start, i)];
      }
      assert tmpKeys == pending;
      var r := policy.CreateFilter(tmpKeys, result);
      OneMoreFilter(policy, groups, filterOffsets, result, pending, r);
      filterOffsets := filterOffsets + [|result|];
      result := r;
      groups, pending := groups + [pending], [];
      keys, start := [], [];
    }

    /** The contents of the filter block: the filters, where each starts, and how to find that. */
    method Finish() returns (r: Slice, ghost filters: seq<Byte>)
      requires Valid() && Small()
      modifies this
      ensures |filters| < TWO_32 && r == FinishedFilters(filters, filterOffsets)
      ensures FiltersOk(policy, groups, filterOffsets, filters)
      ensures pending == [] && forall i: nat :: Group(groups, pending, i) == old(Group(groups, pending, i))
      ensures |groups| <= |old(groups)| + 1
    {
      if start != [] {
        GenerateFilter();
      }
      filters := result;
      ghost var offsets, all := filterOffsets, groups;
      assert Fixed32Array(filterOffsets[..0]) == [];
      hide FiltersOk, Flattens;
      var arrayOffset := |result|;
      var i := 0;
      while i < |filterOffsets|
        invariant i <= |filterOffsets| && result == filters + Fixed32Array(filterOffsets[..i])
        invariant filterOffsets == offsets && groups == all && pending == []
      {
        assert filterOffsets[..i + 1][..i] == filterOffsets[..i];
        result := result + EncodeFixed32(filterOffsets[i]);
        i := i + 1;
      }
      assert filterOffsets[..i] == filterOffsets;
      result := result + EncodeFixed32(arrayOffset);
      result := result + [FILTER_BASE_LG];
      r := result;
    }
  }

  lemma FourBits(b: nat, n: nat)
    ensures IndexOf(b, n + 4) == IndexOf(b / 16, n)
  {
    assert b / 2 / 2 == b / 4 && b / 4 / 2 == b / 8 && b / 8 / 2 == b / 16;
    assert IndexOf(b, n + 4) == IndexOf(b / 2, n + 3) == IndexOf(b / 4, n + 2);
    assert IndexOf(b / 4, n + 2) == IndexOf(b / 8, n + 1) == IndexOf(b / 16, n);
  }

  lemma ThreeBits(b: nat)
    ensures IndexOf(b, 3) == b / 8
  {
    assert IndexOf(b, 3) == IndexOf(b / 2, 2) == IndexOf(b / 2 / 2, 1) == b / 2 / 2 / 2;
  }

  /** A shift by the default base is a division by 2 KB. */
  lemma DefaultIndex(b: nat)
    ensures IndexOf(b, 11) == FilterIndex(b)
  {
    FourBits(b, 7);
    FourBits(b / 16, 3);
    ThreeBits(b / 16 / 16);
    hide IndexOf;
    assert b / 16 / 16 / 8 == b / 2048;
  }
  lemma FilterParts(filters: seq<Byte>, offsets: seq<U32>)
    requires |filters| < TWO_32
    ensures var c := FinishedFilters(filters, offsets);
            |c| == |filters| + 4 * |offsets| + 5 && c[..|filters|] == filters && c[|c| - 1] == FILTER_BASE_LG &&
            DecodeFixed32(c[|c| - 5..]) == |filters|
  {
    var c := FinishedFilters(filters, offsets);
    assert c[|c| - 5..] == EncodeFixed32(|filters|) + [FILTER_BASE_LG];
    Fixed32RoundTrip(|filters|, [FILTER_BASE_LG]);
  }

  /** The offset of filter `i`; behind the last stands where the filters end. */
  lemma WordAt(filters: seq<Byte>, offsets: seq<U32>, i: nat)
    requires |filters| < TWO_32 && i <= |offsets|
    ensures var c := FinishedFilters(filters, offsets);
            |filters| + 4 * i + 4 <= |c| &&
            DecodeFixed32(c[|filters| + 4 * i..]) == if i < |offsets| then offsets[i] else |filters|
  {
    var c := FinishedFilters(filters, offsets);
    FilterParts(filters, offsets);
    if i < |offsets| {
      var rest := EncodeFixed32(|filters|) + [FILTER_BASE_LG];
      Fixed32ArrayAt(offsets, i, rest);
      assert c[|filters| + 4 * i..] == (Fixed32Array(offsets) + rest)[4 * i..];
    }
  }

  class FilterBlockReader {
    const policy: InternalFilterPolicy
    const data: Slice
    const offset: nat
    const num: nat
    const baseLg: nat

    constructor (policy: InternalFilterPolicy, contents: Slice)
      ensures this.policy == policy && Shape()
      ensures forall filters, offsets :: |filters| < TWO_32 && contents == FinishedFilters(filters, offsets) ==>
                Reads(filters, offsets)
    {
      this.policy, this.data := policy, contents;
      var n := |contents|;
      if n < 5 || DecodeFixed32(contents[n - 5..]) > n - 5 {
        this.offset, this.num, this.baseLg := 0, 0, 0;
      } else {
        var lastWord := DecodeFixed32(contents[n - 5..]);
        this.offset, this.num, this.baseLg := lastWord, (n - 5 - lastWord) / 4, contents[n - 1];
      }
      new;
      forall filters, offsets | |filters| < TWO_32 && contents == FinishedFilters(filters, offsets)
        ensures Reads(filters, offsets)
      {
        FilterParts(filters, offsets);
      }
    }

    predicate Shape() {
      num > 0 ==> offset + 4 * num + 5 <= |data|
    }

    /** The reader sees these filters at these offsets. */
    ghost predicate Reads(filters: seq<Byte>, offsets: seq<U32>) {
      && |filters| < TWO_32 && data == FinishedFilters(filters, offsets)
      && offset == |filters| && num == |offsets| && baseLg == FILTER_BASE_LG as nat
    }

    /** Whether the filter for data blocks at the offset matches the key; where there is none everything matches. */
    method KeyMayMatch(blockOffset: nat, key: Slice, ghost filters: seq<Byte>, ghost offsets: seq<U32>)
        returns (r: bool)
      requires |key| >= TRAILER && Shape()
      ensures Reads(filters, offsets) && FilterIndex(blockOffset) >= |offsets| ==> r
      ensures Reads(filters, offsets) && FilterIndex(blockOffset) < |offsets| ==>
                var i := FilterIndex(blockOffset);
                var from, to := offsets[i], FilterEnd(offsets, |filters|, i);
                from <= to <= |filters| ==> (r <==> policy.Matches(key, filters[from..to]))
    {
      var index := IndexOf(blockOffset, baseLg);
      if Reads(filters, offsets) { WordsRead(blockOffset, filters, offsets); }
      hide FinishedFilters, DecodeFixed32, FilterIndex, IndexOf, Reads;
      if index < num {
        var start := DecodeFixed32(data[offset + index * 4..]);
        var limit := DecodeFixed32(data[offset + index * 4 + 4..]);
        if start <= limit && limit <= offset {
          r := policy.KeyMayMatch(key, data[start..limit]);
          return;
        } else if start == limit {
          return false;
        }
      }
      return true;
    }

    lemma WordsRead(blockOffset: nat, filters: seq<Byte>, offsets: seq<U32>)
      requires Shape() && Reads(filters, offsets)
      ensures var i := IndexOf(blockOffset, baseLg);
              i == FilterIndex(blockOffset) && offset == |filters| && num == |offsets| &&
              (i < num ==>
                 DecodeFixed32(data[offset + i * 4..]) == offsets[i] &&
                 DecodeFixed32(data[offset + i * 4 + 4..]) == FilterEnd(offsets, |filters|, i))
      ensures forall a, b :: 0 <= a <= b <= |filters| ==> data[a..b] == filters[a..b]
    {
      DefaultIndex(blockOffset);
      FilterParts(filters, offsets);
      hide FinishedFilters, DecodeFixed32;
      var i := FilterIndex(blockOffset);
      if i < |offsets| {
        WordAt(filters, offsets, i);
        WordAt(filters, offsets, i + 1);
        assert |filters| + 4 * (i + 1) == offset + i * 4 + 4;
      }
      forall a, b | 0 <= a <= b <= |filters| ensures data[a..b] == filters[a..b] {
        assert data[..|filters|][a..b] == data[a..b];
      }
    }
  }
}
