/**
 The write-ahead log: records cut into fragments that never cross a 32 KB block, and a reader that gives back what a
 crash left whole. Files are byte sequences; the checksum is any function of the bytes.
 */
module Log {
  import opened Basics
  import opened Coding

  const BLOCK_SIZE := 32768
  const HEADER_SIZE := 7

  const FULL_TYPE: Byte := 1
  const FIRST_TYPE: Byte := 2
  const MIDDLE_TYPE: Byte := 3
  const LAST_TYPE: Byte := 4
  const EOF := 5
  const BAD_RECORD := 6


  function Zeros(n: nat): (s: seq<Byte>)
    ensures |s| == n
  {
    seq(n, _ => 0)
  }

  /** The trailer a writer leaves at file position `at`: what is left of the block when no header fits. */
  function Pad(at: nat): (n: nat)
    ensures n < HEADER_SIZE && BLOCK_SIZE - (at + n) % BLOCK_SIZE >= HEADER_SIZE
  {
    var leftover := BLOCK_SIZE - at % BLOCK_SIZE;
    if leftover < HEADER_SIZE then leftover else 0
  }

  /** How much of `rec` the next fragment takes. */
  function Cut(at: nat, rec: Slice): (n: nat)
    ensures n <= |rec| && (at + Pad(at)) % BLOCK_SIZE + HEADER_SIZE + n <= BLOCK_SIZE
  {
    var avail := BLOCK_SIZE - (at + Pad(at)) % BLOCK_SIZE - HEADER_SIZE;
    if |rec| < avail then |rec| else avail
  }

  function TypeOf(begin: bool, end: bool): Byte {
    if begin && end then FULL_TYPE else if begin then FIRST_TYPE else if end then LAST_TYPE else MIDDLE_TYPE
  }

  function Header(crc: Crc, t: Byte, payload: Slice): (h: seq<Byte>)
    requires |payload| <= 0xffff
    ensures |h| == HEADER_SIZE && h[6] == t
  {
    EncodeFixed32(Mask(crc([t] + payload))) + [LowByte(|payload|), LowByte(|payload| / 0x100), t]
  }

  /** One trailer, header and fragment at position `at`. */
  function Piece(crc: Crc, at: nat, rec: Slice, begin: bool): (s: seq<Byte>)
    ensures |s| == Pad(at) + HEADER_SIZE + Cut(at, rec)
  {
    var n := Cut(at, rec);
    Zeros(Pad(at)) + Header(crc, TypeOf(begin, n == |rec|), rec[..n]) + rec[..n]
  }

  /**
   The format in numbers: zeros up to a block of 32 KB if fewer than seven bytes are left of one, then checksum, length
   and type, then as much of the record as the block has room for.
   */
  lemma PieceFormat(crc: Crc, at: nat, rec: Slice, begin: bool)
    ensures var p := Pad(at);
            var n := Cut(at, rec);
            var s := Piece(crc, at, rec, begin);
            && (forall i :: 0 <= i < p ==> s[i] == 0)
            && |s| == p + 7 + n && s[p..p + 4] == EncodeFixed32(Mask(crc([s[p + 6]] + rec[..n])))
            && s[p + 4] as int + 256 * s[p + 5] as int == n
            && s[p + 6] == (if begin then (if n == |rec| then 1 else 2) else if n == |rec| then 4 else 3)
            && s[p + 7..] == rec[..n]
  {
    var p, n := Pad(at), Cut(at, rec);
    var h := Header(crc, TypeOf(begin, n == |rec|), rec[..n]);
    var s := Piece(crc, at, rec, begin);
    HeaderFormat(crc, TypeOf(begin, n == |rec|), rec[..n]);
    assert s == Zeros(p) + h + rec[..n];
    hide EncodeFixed32, Mask, Header, Piece, Cut, Pad;
    assert s[p..p + 7] == h;
    assert h[..4] == s[p..p + 4] && h[4] == s[p + 4] && h[5] == s[p + 5] && h[6] == s[p + 6];
  }

  lemma HeaderFormat(crc: Crc, t: Byte, payload: Slice)
    requires |payload| <= 0xffff
    ensures var h := Header(crc, t, payload);
            h[..4] == EncodeFixed32(Mask(crc([t] + payload))) && h[4] as int + 256 * h[5] as int == |payload| &&
            h[6] == t
  {
    hide EncodeFixed32, Mask;
  }

  /** Zeros only if fewer than seven bytes are left; a piece ends in the block of its header, at its end unless last. */
  lemma PieceFillsBlock(crc: Crc, at: nat, rec: Slice, begin: bool)
    ensures Pad(at) == if 32768 - at % 32768 < 7 then 32768 - at % 32768 else 0
    ensures (at + |Piece(crc, at, rec, begin)| - 1) / 32768 == (at + Pad(at)) / 32768
    ensures Cut(at, rec) < |rec| ==> (at + |Piece(crc, at, rec, begin)|) % 32768 == 0
  {
    hide Piece;
  }

  /** All fragments of `rec` from position `at` on. */
  function Emit(crc: Crc, at: nat, rec: Slice, begin: bool): (s: seq<Byte>)
    ensures |s| >= HEADER_SIZE
    decreases |rec|, HeaderFillsBlock(at)
  {
    var piece := Piece(crc, at, rec, begin);
    var n := Cut(at, rec);
    if n == |rec| then piece else piece + Emit(crc, at + |piece|, rec[n..], false)
  }

  /** What follows the first fragment. */
  function Tail(crc: Crc, at: nat, rec: Slice, begin: bool): seq<Byte> {
    var rest := rec[Cut(at, rec)..];
    if rest == [] then [] else Emit(crc, at + |Piece(crc, at, rec, begin)|, rest, false)
  }

  lemma EmitIs(crc: Crc, at: nat, rec: Slice, begin: bool)
    ensures Emit(crc, at, rec, begin) == Piece(crc, at, rec, begin) + Tail(crc, at, rec, begin)
  {
    hide Piece, Cut, Pad;
  }

  lemma TailIs(crc: Crc, at: nat, rec: Slice, begin: bool)
    ensures Tail(crc, at, rec, begin) == if Cut(at, rec) < |rec| then
              Emit(crc, at + |Piece(crc, at, rec, begin)|, rec[Cut(at, rec)..], false) else []
  {
    hide Emit, Piece, Pad, Cut;
  }

  lemma Assoc<T>(a: seq<T>, b: seq<T>, c: seq<T>)
    ensures a + (b + c) == (a + b) + c
  {
  }

  /** No byte of the block is left after a header at `at`. */
  predicate HeaderFillsBlock(at: nat) {
    (at + Pad(at)) % BLOCK_SIZE + HEADER_SIZE == BLOCK_SIZE
  }

  /** A fragment is empty only for an empty record or at the end of a block; the next one then is not. */
  lemma EmptyFragment(crc: Crc, at: nat, rec: Slice, begin: bool)
    requires Cut(at, rec) == 0 && rec != []
    ensures HeaderFillsBlock(at) && !HeaderFillsBlock(at + |Piece(crc, at, rec, begin)|)
  {
  }

  /** The log of a list of records. */
  function LogOf(crc: Crc, records: seq<Slice>): seq<Byte> {
    if records == [] then [] else
      var log := LogOf(crc, records[..|records| - 1]);
      log + Emit(crc, |log|, records[|records| - 1], true)
  }

  lemma LogAppend(crc: Crc, records: seq<Slice>, record: Slice)
    ensures LogOf(crc, records + [record]) == LogOf(crc, records) + Emit(crc, |LogOf(crc, records)|, record, true)
  {
    assert (records + [record])[..|records|] == records;
  }

  class Writer {
    const crc: Crc
    var dest: seq<Byte>
    var blockOffset: nat
    ghost var records: seq<Slice>

    ghost predicate Positioned()
      reads this
    {
      blockOffset <= BLOCK_SIZE && (blockOffset - |dest|) % BLOCK_SIZE == 0
    }

    ghost predicate Valid()
      reads this
    {
      Positioned() && dest == LogOf(crc, records)
    }

    constructor (crc: Crc)
      ensures Valid() && records == [] && this.crc == crc && dest == []
    {
      this.crc, dest, blockOffset, records := crc, [], 0, [];
    }

    method AddRecord(slice: Slice)
      requires Valid()
      modifies this
      ensures Valid() && records == old(records) + [slice]
    {
      ghost var was := dest;
      LogAppend(crc, records, slice);
      var left := slice;
      var begin := true;
      var more := true;
      hide Emit, Piece, Pad, LogOf, Cut, HeaderFillsBlock, Tail;
      while more
        invariant Positioned() && records == old(records)
        invariant was + Emit(crc, |was|, slice, true) == dest + (if more then Emit(crc, |dest|, left, begin) else [])
        decreases more, |left|, HeaderFillsBlock(|dest|)
      {
        EmitIs(crc, |dest|, left, begin);
        Assoc(dest, Piece(crc, |dest|, left, begin), Tail(crc, |dest|, left, begin));
        if left != [] && Cut(|dest|, left) == 0 { EmptyFragment(crc, |dest|, left, begin); }
        TailIs(crc, |dest|, left, begin);
        var n := AddFragment(left, begin);
        left := left[n..];
        begin := false;
        more := |left| > 0;
      }
      assert dest + [] == dest;
      records := records + [slice];
    }

    /** The body of the fragment loop. */
    method AddFragment(left: Slice, begin: bool) returns (n: nat)
      requires Positioned()
      modifies this`dest, this`blockOffset
      ensures Positioned() && n == Cut(|old(dest)|, left) && dest == old(dest) + Piece(crc, |old(dest)|, left, begin)
    {
      SwitchBlock();
      var avail := BLOCK_SIZE - blockOffset - HEADER_SIZE;
      n := if |left| < avail then |left| else avail;
      var end := |left| == n;
      hide Pad, Zeros, Header;
      EmitPhysicalRecord(TypeOf(begin, end), left[..n]);
    }

    method SwitchBlock()
      requires Positioned()
      modifies this`dest, this`blockOffset
      ensures dest == old(dest) + Zeros(Pad(|old(dest)|)) && blockOffset == |dest| % BLOCK_SIZE
    {
      var leftover := BLOCK_SIZE - blockOffset;
      if leftover < HEADER_SIZE {
        if leftover > 0 {
          dest := dest + Zeros(leftover);
        }
        blockOffset := 0;
      }
    }

    method EmitPhysicalRecord(t: Byte, fragment: Slice)
      requires Positioned() && blockOffset + HEADER_SIZE + |fragment| <= BLOCK_SIZE
      modifies this`dest, this`blockOffset
      ensures Positioned() && dest == old(dest) + (Header(crc, t, fragment) + fragment)
      ensures blockOffset == old(blockOffset) + HEADER_SIZE + |fragment|
    {
      var buf := [LowByte(|fragment|), LowByte(|fragment| / 0x100), t];
      dest := dest + (EncodeFixed32(Mask(crc([t] + fragment))) + buf);
      dest := dest + fragment;
      blockOffset := blockOffset + HEADER_SIZE + |fragment|;
    }
  }

  /** Position `pos` of `log` holds what a writer emits there for the rest `rec` of a record, and then `rest`. */
  ghost predicate Holds(crc: Crc, log: seq<Byte>, pos: nat, rec: Slice, begin: bool, rest: seq<Byte>) {
    pos <= |log| && log[pos..] == Emit(crc, pos, rec, begin) + rest
  }

  predicate AtBlock(at: nat) { at % BLOCK_SIZE == 0 }

  /** The `n` bytes at position `at` lie in one block. */
  predicate InBlock(at: nat, n: nat) { n > 0 ==> at % BLOCK_SIZE + n <= BLOCK_SIZE }

  lemma NothingIsInBlock(at: nat)
    ensures InBlock(at, 0) && AtBlock(0)
  {
  }

  lemma BlockAt(at: nat)
    requires AtBlock(at)
    ensures AtBlock(at + BLOCK_SIZE) && forall n: nat :: n <= BLOCK_SIZE ==> InBlock(at, n)
  {
  }

  lemma InRestOfBlock(at: nat, n: nat, m: nat)
    requires InBlock(at, n) && m <= n
    ensures InBlock(at + m, n - m)
  {
  }

  /** Unless the file ends there, what is buffered reaches to the end of the block. */
  lemma TrailerOrNot(at: nat, n: nat)
    requires InBlock(at, n)
    ensures n >= HEADER_SIZE ==> Pad(at) == 0
    ensures n < HEADER_SIZE && AtBlock(at + n) ==> Pad(at) == n && Pad(at + n) == 0
  {
  }

  lemma FragmentIn(at: nat, n: nat, m: nat)
    requires n > 0 && InBlock(at, n) && AtBlock(at + n) && at % BLOCK_SIZE + m <= BLOCK_SIZE
    ensures m <= n
  {
  }

  lemma TwoBytes(n: nat)
    requires n <= 0xffff
    ensures LowByte(n) as int + LowByte(n / 0x100) as int * 0x100 == n
  {
  }

  /** A header tells the length, type and checksum of its fragment. */
  lemma HeaderTells(crc: Crc, t: Byte, payload: Slice, buffer: seq<Byte>)
    requires |payload| <= 0xffff && |buffer| >= HEADER_SIZE && buffer[..HEADER_SIZE] == Header(crc, t, payload)
    ensures buffer[4] as int + buffer[5] as int * 0x100 == |payload| && buffer[6] == t
    ensures Unmask(DecodeFixed32(buffer)) == crc([t] + payload)
  {
    var sum := Mask(crc([t] + payload));
    var tail := [LowByte(|payload|), LowByte(|payload| / 0x100), t];
    TwoBytes(|payload|);
    hide EncodeFixed32, DecodeFixed32, Mask, Unmask, LowByte;
    var head := EncodeFixed32(sum) + tail;
    assert buffer == buffer[..HEADER_SIZE] + buffer[HEADER_SIZE..] == head + buffer[HEADER_SIZE..];
    Assoc(EncodeFixed32(sum), tail, buffer[HEADER_SIZE..]);
    Fixed32RoundTrip(sum, tail + buffer[HEADER_SIZE..]);
    UnmaskMask(crc([t] + payload));
    assert buffer[4] == head[4] && buffer[5] == head[5] && buffer[6] == head[6];
  }

  lemma PayloadOf(header: seq<Byte>, t: Byte, payload: Slice, buffer: seq<Byte>)
    requires |header| == HEADER_SIZE && header[6] == t && HEADER_SIZE + |payload| <= |buffer|
    requires buffer[..HEADER_SIZE + |payload|] == header + payload
    ensures buffer[6..HEADER_SIZE + |payload|] == [t] + payload
    ensures buffer[HEADER_SIZE..HEADER_SIZE + |payload|] == payload
  {
    var f := header + payload;
    assert f[6..] == [t] + payload && f[HEADER_SIZE..] == payload;
    assert buffer[6..HEADER_SIZE + |payload|] == f[6..];
    assert buffer[HEADER_SIZE..HEADER_SIZE + |payload|] == f[HEADER_SIZE..];
  }

  /** What has been read of a record, and what is left of it. */
  ghost predicate Collected(scratch: Slice, left: Slice, rec: Slice) { scratch + left == rec }

  lemma CollectMore(scratch: Slice, fragment: Slice, left: Slice, rec: Slice)
    requires Collected(scratch, left, rec) && fragment <= left
    ensures Collected(scratch + fragment, left[|fragment|..], rec)
    ensures fragment == left ==> scratch + fragment == rec
    ensures scratch == [] ==> scratch + fragment == fragment
  {
    assert left == fragment + left[|fragment|..];
  }

  /** What the loop of `ReadRecord` keeps between pieces. */
  datatype Gathered = Gathered(done: bool, record: Slice, scratch: Slice, fragmented: bool, prospective: int)

  /** A piece that fits what came before it. */
  predicate Expected(kind: int, fragmented: bool) {
    if fragmented then kind == MIDDLE_TYPE as int || kind == LAST_TYPE as int
    else kind == FULL_TYPE as int || kind == FIRST_TYPE as int
  }

  function Gathering(kind: int, fragment: Slice, physical: int, g: Gathered): Gathered {
    if kind == FULL_TYPE as int then g.(done := true, record := fragment, prospective := physical)
    else if kind == FIRST_TYPE as int then g.(prospective := physical, scratch := fragment, fragmented := true)
    else if kind == MIDDLE_TYPE as int then g.(scratch := g.scratch + fragment)
    else g.(done := true, record := g.scratch + fragment)
  }

  lemma GatherMore(kind: int, fragment: Slice, physical: int, g: Gathered, begin: bool, end: bool)
    requires begin == !g.fragmented && !g.done && (begin ==> g.scratch == []) && kind == TypeOf(begin, end) as int
    ensures Expected(kind, g.fragmented)
    ensures var n := Gathering(kind, fragment, physical, g);
            n.done == end && (end ==> n.record == g.scratch + fragment) &&
                (!end ==> n.scratch == g.scratch + fragment && n.fragmented) &&
            n.prospective == if begin then physical else g.prospective
  {
    if begin { assert g.scratch + fragment == fragment; }
  }

  /** Whatever pieces come: what is gathered grows only by pieces that fit. */
  predicate Gathers(kind: int, fragment: Slice, g: Gathered, n: Gathered) {
    && (n.done ==> if kind == FULL_TYPE as int then n.record == fragment
                   else kind == LAST_TYPE as int && g.fragmented && n.record == g.scratch + fragment)
    && (!n.done && n.fragmented ==>
          (kind == FIRST_TYPE as int && n.scratch == fragment) ||
          (kind == MIDDLE_TYPE as int && g.fragmented && n.scratch == g.scratch + fragment))
  }

  /** A fragment and where it stands. */
  datatype Found = Found(at: nat, payload: Slice)

  ghost function Joined(fs: seq<Found>): Slice {
    if fs == [] then [] else Joined(fs[..|fs| - 1]) + fs[|fs| - 1].payload
  }

  class Reader {
    const crc: Crc
    const file: seq<Byte>
    const checksum: bool
    var filePos: nat
    var buffer: seq<Byte>
    var eof: bool
    var endOfBufferOffset: nat
    var lastRecordOffset: int
    var drops: seq<nat>

    /** What is buffered lies right before the file position and within one block. */
    ghost predicate Valid()
      reads this
    {
      && |buffer| <= filePos <= |file| && buffer == file[filePos - |buffer|..filePos] && endOfBufferOffset == filePos
      && (if eof then filePos == |file| else AtBlock(filePos)) && InBlock(filePos - |buffer|, |buffer|)
    }

    ghost function Pos(): (p: nat)
      requires |buffer| <= filePos
      reads this
    {
      filePos - |buffer|
    }

    constructor (crc: Crc, file: seq<Byte>, checksum: bool)
      ensures Valid() && Pos() == 0 && drops == [] && this.crc == crc && this.file == file
    {
      this.crc, this.file, this.checksum := crc, file, checksum;
      filePos, buffer, eof, endOfBufferOffset, lastRecordOffset, drops := 0, [], false, 0, 0, [];
      assert file[0..0] == [];
      NothingIsInBlock(0);
      hide InBlock, AtBlock;
    }

    method ReportCorruption(bytes: nat)
      requires Valid()
      modifies this`drops
      ensures Valid() && drops == old(drops) + [bytes]
    {
      drops := drops + [bytes];
    }

    /** Reading the next block; a short one is the last. */
    method ReadBlock()
      requires Valid() && !eof
      modifies this`filePos, this`buffer, this`eof, this`endOfBufferOffset
      ensures Valid() && Pos() == old(filePos)
      ensures |buffer| <= BLOCK_SIZE && (eof <==> |buffer| < BLOCK_SIZE)
    {
      BlockAt(filePos);
      hide InBlock, AtBlock;
      var end := if |file| - filePos < BLOCK_SIZE then |file| else filePos + BLOCK_SIZE;
      buffer := file[filePos..end];
      filePos := end;
      endOfBufferOffset := endOfBufferOffset + |buffer|;
      if |buffer| < BLOCK_SIZE {
        eof := true;
      }
    }

    /** Skips a trailer if the position is in one. `more` says whether there is room for a header. */
    method SkipTrailer() returns (more: bool)
      requires Valid()
      modifies this`filePos, this`buffer, this`eof, this`endOfBufferOffset
      ensures Valid()
      ensures more ==> |buffer| >= HEADER_SIZE && Pos() == old(Pos() + Pad(Pos()))
      ensures !more ==> |file| < old(Pos() + Pad(Pos())) + HEADER_SIZE
    {
      hide InBlock, AtBlock, Pad;
      while |buffer| < HEADER_SIZE
        invariant Valid()
        invariant Pos() == old(Pos()) || (Pos() == old(Pos() + Pad(Pos())) && (eof || |buffer| == BLOCK_SIZE))
        decreases !eof, |file| - filePos
      {
        TrailerOrNot(Pos(), |buffer|);
        NothingIsInBlock(filePos);
        buffer := [];
        if eof {
          return false;
        }
        ReadBlock();
      }
      TrailerOrNot(Pos(), |buffer|);
      return true;
    }

    /** `file` is what a crash left of `log`, in which a fragment of type `t` stands at position `at`. */
    ghost predicate FragmentAt(log: seq<Byte>, at: nat, t: Byte, payload: Slice)
    {
      && file <= log && 1 <= t <= 4 && at % BLOCK_SIZE + HEADER_SIZE + |payload| <= BLOCK_SIZE
      && at + HEADER_SIZE + |payload| <= |log|
      && log[at..at + HEADER_SIZE + |payload|] == Header(crc, t, payload) + payload
    }

    lemma FragmentBuffered(log: seq<Byte>, t: Byte, payload: Slice)
      requires Valid() && |buffer| >= HEADER_SIZE && FragmentAt(log, Pos(), t, payload)
      ensures buffer[4] as int + buffer[5] as int * 0x100 == |payload| && buffer[6] == t && t >= 1
      ensures Unmask(DecodeFixed32(buffer)) == crc([t] + payload)
      ensures HEADER_SIZE + |payload| <= |buffer| ==>
                buffer[6..HEADER_SIZE + |payload|] == [t] + payload &&
                    buffer[HEADER_SIZE..HEADER_SIZE + |payload|] == payload
      ensures HEADER_SIZE + |payload| > |buffer| ==> eof
    {
      var at := Pos();
      if !eof { FragmentIn(at, |buffer|, HEADER_SIZE + |payload|); }
      hide Header, InBlock, AtBlock;
      BufferedPart(log, at, |buffer|, HEADER_SIZE + |payload|, HEADER_SIZE);
      HeaderTells(crc, t, payload, buffer);
      if HEADER_SIZE + |payload| <= |buffer| {
        BufferedPart(log, at, |buffer|, HEADER_SIZE + |payload|, HEADER_SIZE + |payload|);
        PayloadOf(Header(crc, t, payload), t, payload, buffer);
      }
    }

    lemma BufferedPart(log: seq<Byte>, at: nat, n: nat, m: nat, k: nat)
      requires at + n <= |file| && file <= log && buffer == file[at..at + n] && at + m <= |log| && k <= n && k <= m
      ensures buffer[..k] == log[at..at + m][..k]
    {
    }

    method RemovePrefix(n: nat)
      requires Valid() && n <= |buffer|
      modifies this`buffer
      ensures Valid() && Pos() == old(Pos()) + n
    {
      InRestOfBlock(Pos(), |buffer|, n);
      hide InBlock, AtBlock;
      buffer := buffer[n..];
    }

    /** At this position of the file stands a fragment whose checksum, if that is asked for, is right. */
    ghost predicate Intact(at: nat, kind: int, payload: Slice) {
      && at + HEADER_SIZE + |payload| <= |file| && file[at + HEADER_SIZE..at + HEADER_SIZE + |payload|] == payload
      && file[at + 6] as int == kind && file[at + 4] as int + file[at + 5] as int * 0x100 == |payload|
      && (checksum ==> Unmask(DecodeFixed32(file[at..at + 4])) == crc([file[at + 6]] + payload))
    }

    /** A whole fragment is buffered, and its checksum is wrong. */
    ghost predicate Damaged()
      reads this
    {
      |buffer| >= HEADER_SIZE &&
      var n := buffer[4] as int + buffer[5] as int * 0x100;
      checksum && HEADER_SIZE + n <= |buffer| && (n > 0 || buffer[6] > 0) &&
      Unmask(DecodeFixed32(buffer)) != crc(buffer[6..HEADER_SIZE + n])
    }

    /** Unless the end was met or something was dropped, an intact fragment ends where the position is now. */
    ghost predicate HandedBack(before: nat, kind: int, result: Slice, pos: nat) {
      kind != EOF && kind != BAD_RECORD ==>
        before + HEADER_SIZE + |result| <= pos && Intact(pos - HEADER_SIZE - |result|, kind, result)
    }

    lemma IsIntact(n: nat)
      requires Valid() && HEADER_SIZE + n <= |buffer| && n == buffer[4] as int + buffer[5] as int * 0x100
      requires checksum ==> crc(buffer[6..HEADER_SIZE + n]) == Unmask(DecodeFixed32(buffer))
      ensures HandedBack(Pos(), buffer[6] as int, buffer[HEADER_SIZE..HEADER_SIZE + n], Pos() + HEADER_SIZE + n)
    {
      var at, header := Pos(), buffer;
      hide InBlock, AtBlock, Unmask;
      assert forall i :: 0 <= i < |header| ==> header[i] == file[at + i];
      var payload := header[HEADER_SIZE..HEADER_SIZE + n];
      assert file[at + HEADER_SIZE..at + HEADER_SIZE + n] == payload;
      assert header[6..HEADER_SIZE + n] == [file[at + 6]] + payload;
      assert DecodeFixed32(file[at..at + 4]) == DecodeFixed32(header);
    }

    /**
     Takes the fragment at the position off the buffer; a fragment cut short by a crash is no corruption. Whatever the
     file is, no fragment with a wrong checksum is handed back: what is buffered is dropped, and that is reported.
     */
    method ParseFragment(ghost log: seq<Byte>, ghost t: Byte, ghost payload: Slice) returns (kind: int, result: Slice)
      requires Valid() && |buffer| >= HEADER_SIZE
      modifies this`buffer, this`drops
      ensures Valid() && Pos() > old(Pos()) && 0 <= kind < 256
      ensures FragmentAt(log, old(Pos()), t, payload) ==>
                drops == old(drops) &&
                (if old(Pos()) + HEADER_SIZE + |payload| <= |file|
                 then kind == t as int && result == payload && Pos() == old(Pos()) + HEADER_SIZE + |payload|
                 else kind == EOF)
      ensures HandedBack(old(Pos()), kind, result, Pos())
      ensures old(Damaged()) ==> kind == BAD_RECORD && buffer == [] && drops == old(drops) + [old(|buffer|)]
    {
      if FragmentAt(log, Pos(), t, payload) {
        FragmentBuffered(log, t, payload);
      }
      hide FragmentAt, InBlock, AtBlock, Header, Intact, Unmask, DecodeFixed32;
      var header := buffer;
      var kindByte: int := header[6] as int;
      var length: nat := header[4] as int + header[5] as int * 0x100;
      if HEADER_SIZE + length > |buffer| {
        var dropSize := |buffer|;
        RemovePrefix(dropSize);
        if !eof {
          ReportCorruption(dropSize);
          return BAD_RECORD, [];
        }
        return EOF, [];
      }
      if kindByte == 0 && length == 0 {
        RemovePrefix(|buffer|);
        return BAD_RECORD, [];
      }
      if checksum {
        var expected := Unmask(DecodeFixed32(header));
        var actual := crc(header[6..HEADER_SIZE + length]);
        if actual != expected {
          var dropSize := |buffer|;
          RemovePrefix(dropSize);
          ReportCorruption(dropSize);
          return BAD_RECORD, [];
        }
      }
      IsIntact(length);
      RemovePrefix(HEADER_SIZE + length);
      return kindByte, header[HEADER_SIZE..HEADER_SIZE + length];
    }

    /** `file` is what a crash left of `log`, in which the next piece of a record stands at position `at`. */
    ghost predicate PieceAt(log: seq<Byte>, at: nat, rec: Slice, begin: bool)
    {
      var piece := Piece(crc, at, rec, begin);
      file <= log && at + |piece| <= |log| && log[at..at + |piece|] == piece
    }

    lemma PieceFragment(log: seq<Byte>, at: nat, rec: Slice, begin: bool)
      requires PieceAt(log, at, rec, begin)
      ensures FragmentAt(log, at + Pad(at), TypeOf(begin, Cut(at, rec) == |rec|), rec[..Cut(at, rec)])
    {
      var piece := Piece(crc, at, rec, begin);
      var t := TypeOf(begin, Cut(at, rec) == |rec|);
      var payload := rec[..Cut(at, rec)];
      assert piece == Zeros(Pad(at)) + (Header(crc, t, payload) + payload);
      hide Header, Pad, Cut, Piece;
      assert piece[Pad(at)..] == Header(crc, t, payload) + payload;
      assert log[at..at + |piece|][Pad(at)..] == log[at + Pad(at)..at + |piece|];
    }

    /** The piece was read, if the file has all of it; else the end was met. */
    ghost predicate CameBack(at: nat, rec: Slice, begin: bool, kind: int, result: Slice, pos: nat) {
      var next := at + |Piece(crc, at, rec, begin)|;
      if next <= |file|
      then kind == TypeOf(begin, Cut(at, rec) == |rec|) as int && result == rec[..Cut(at, rec)] && pos == next
      else kind == EOF
    }

    lemma PieceCameBack(at: nat, rec: Slice, begin: bool, kind: int, result: Slice, pos: nat)
      requires if at + Pad(at) + HEADER_SIZE + Cut(at, rec) <= |file|
               then kind == TypeOf(begin, Cut(at, rec) == |rec|) as int && result == rec[..Cut(at, rec)] &&
                    pos == at + Pad(at) + HEADER_SIZE + Cut(at, rec)
               else kind == EOF
      ensures CameBack(at, rec, begin, kind, result, pos)
    {
      PieceLength(at, rec, begin);
      hide Piece;
    }

    /**
     On any file the position only moves forward. Where a writer put a piece of a record, that piece comes back if the
     file has all of it, and the end of the file is met without complaint if not.
     */
    method ReadPhysicalRecord(ghost log: seq<Byte>, ghost rec: Slice, ghost begin: bool)
        returns (kind: int, result: Slice)
      requires Valid()
      modifies this
      ensures Valid() && 0 <= kind < 256 && (kind != EOF ==> Pos() > old(Pos()))
      ensures old(Pos()) == |file| ==> kind == EOF && drops == old(drops)
      ensures PieceAt(log, old(Pos()), rec, begin) ==>
                drops == old(drops) && CameBack(old(Pos()), rec, begin, kind, result, Pos())
      ensures HandedBack(old(Pos()), kind, result, Pos())
    {
      ghost var at := Pos();
      if PieceAt(log, at, rec, begin) { PieceFragment(log, at, rec, begin); }
      hide Pad, FragmentAt, Piece, Cut, PieceAt, Valid, CameBack, HandedBack, Damaged;
      var more := SkipTrailer();
      if !more {
        PieceCameBack(at, rec, begin, EOF, [], Pos());
        NothingBack(at, Pos());
        return EOF, [];
      }
      ghost var start := Pos();
      kind, result := ParseFragment(log, TypeOf(begin, Cut(at, rec) == |rec|), rec[..Cut(at, rec)]);
      if PieceAt(log, at, rec, begin) { PieceCameBack(at, rec, begin, kind, result, Pos()); }
      BackFromEarlier(at, start, kind, result, Pos());
    }

    lemma BackFromEarlier(before: nat, start: nat, kind: int, result: Slice, pos: nat)
      requires before <= start && HandedBack(start, kind, result, pos)
      ensures HandedBack(before, kind, result, pos)
    {
    }

    lemma NothingBack(before: nat, pos: nat)
      ensures HandedBack(before, EOF, [], pos)
    {
    }

    /**
     `file` is what a crash left of `log`, in which the rest of a record and then `rest` follow from position `at`.
     */
    ghost predicate RecordAt(log: seq<Byte>, at: nat, rec: Slice, begin: bool, rest: seq<Byte>)
    {
      file <= log && at <= |log| && log[at..] == Emit(crc, at, rec, begin) + rest
    }

    lemma RecordPiece(log: seq<Byte>, at: nat, rec: Slice, begin: bool, rest: seq<Byte>)
      requires RecordAt(log, at, rec, begin, rest)
      ensures PieceAt(log, at, rec, begin)
      ensures var next := at + |Piece(crc, at, rec, begin)|;
              if Cut(at, rec) == |rec| then |Emit(crc, at, rec, begin)| == |Piece(crc, at, rec, begin)|
              else RecordAt(log, next, rec[Cut(at, rec)..], false, rest) &&
                   next + |Emit(crc, next, rec[Cut(at, rec)..], false)| == at + |Emit(crc, at, rec, begin)|
    {
      EmitIs(crc, at, rec, begin);
      TailIs(crc, at, rec, begin);
      hide Piece, Emit, Tail, Pad, Cut;
      var piece, tail := Piece(crc, at, rec, begin), Tail(crc, at, rec, begin);
      assert log[at..] == piece + (tail + rest);
      assert log[at..at + |piece|] == log[at..][..|piece|] == piece;
      assert log[at + |piece|..] == log[at..][|piece|..] == tail + rest;
    }

    ghost function End(at: nat, rec: Slice, begin: bool): nat {
      at + |Emit(crc, at, rec, begin)|
    }

    /** What reading one piece of the record does, told in terms of the record. */
    ghost predicate PieceRead(log: seq<Byte>, at: nat, left: Slice, begin: bool, rest: seq<Byte>, kind: int,
                              fragment: Slice)
      requires |buffer| <= filePos
      reads this
    {
      if kind == EOF then |file| < End(at, left, begin)
      else if fragment == left then
        kind == (if begin then FULL_TYPE else LAST_TYPE) as int && Pos() == End(at, left, begin) <= |file|
      else
        kind == (if begin then FIRST_TYPE else MIDDLE_TYPE) as int && fragment <= left && Pos() <= |file| &&
        RecordAt(log, Pos(), left[|fragment|..], false, rest) &&
            End(Pos(), left[|fragment|..], false) == End(at, left, begin)
    }

    method ReadPiece(ghost log: seq<Byte>, ghost left: Slice, ghost begin: bool, ghost rest: seq<Byte>)
      returns (kind: int, fragment: Slice, physical: int)
      requires Valid()
      modifies this
      ensures Valid() && 0 <= kind < 256 && (kind != EOF ==> Pos() > old(Pos()))
      ensures old(Pos()) == |file| ==> kind == EOF && drops == old(drops)
      ensures RecordAt(log, old(Pos()), left, begin, rest) ==>
                drops == old(drops) && PieceRead(log, old(Pos()), left, begin, rest, kind, fragment) &&
                (kind != EOF ==> physical == old(Pos() + Pad(Pos())))
      ensures HandedBack(old(Pos()), kind, fragment, Pos())
    {
      ghost var at := Pos();
      if RecordAt(log, at, left, begin, rest) { RecordPiece(log, at, left, begin, rest); }
      hide Pad, Piece, Cut, PieceAt, RecordAt, Valid, PieceRead, CameBack, HandedBack;
      kind, fragment := ReadPhysicalRecord(log, left, begin);
      PositionOf();
      physical := endOfBufferOffset - |buffer| - HEADER_SIZE - |fragment|;
      if RecordAt(log, at, left, begin, rest) { TellsOfRecord(log, at, left, begin, rest, kind, fragment); }
    }

    lemma TellsOfRecord(log: seq<Byte>, at: nat, left: Slice, begin: bool, rest: seq<Byte>, kind: int, fragment: Slice)
      requires |buffer| <= filePos && RecordAt(log, at, left, begin, rest)
      requires CameBack(at, left, begin, kind, fragment, Pos())
      ensures PieceRead(log, at, left, begin, rest, kind, fragment)
      ensures kind != EOF ==> Pos() == at + Pad(at) + HEADER_SIZE + |fragment|
    {
      RecordPiece(log, at, left, begin, rest);
      PieceLength(at, left, begin);
      CutTakes(at, left);
      hide Pad, Piece, Emit, Cut, PieceAt, RecordAt;
    }

    lemma PositionOf()
      requires Valid()
      ensures |buffer| <= filePos <= |file| && endOfBufferOffset == filePos
    {
    }

    lemma CutTakes(at: nat, rec: Slice)
      ensures rec[..Cut(at, rec)] == rec <==> Cut(at, rec) == |rec|
      ensures |rec[..Cut(at, rec)]| == Cut(at, rec) && rec[..Cut(at, rec)] <= rec
    {
    }

    lemma PieceLength(at: nat, rec: Slice, begin: bool)
      ensures |Piece(crc, at, rec, begin)| == Pad(at) + HEADER_SIZE + Cut(at, rec) <= |Emit(crc, at, rec, begin)|
    {
      EmitIs(crc, at, rec, begin);
    }

    /** What the loop of `ReadRecord` does with a piece: some pieces end it. */
    method Gather(kind: int, fragment: Slice, physical: int, g: Gathered) returns (n: Gathered)
      requires Valid() && 0 <= kind < 256 && kind != EOF && !g.done
      modifies this`drops, this`lastRecordOffset
      ensures Valid()
      ensures Expected(kind, g.fragmented) ==>
                drops == old(drops) && n == Gathering(kind, fragment, physical, g) &&
                    (n.done ==> lastRecordOffset == n.prospective)
      ensures Gathers(kind, fragment, g, n)
    {
      n := g;
      if kind == FULL_TYPE as int {
        if g.fragmented && g.scratch != [] {
          ReportCorruption(|g.scratch|);
        }
        lastRecordOffset := physical;
        n := g.(done := true, record := fragment, prospective := physical);
      } else if kind == FIRST_TYPE as int {
        if g.fragmented && g.scratch != [] {
          ReportCorruption(|g.scratch|);
        }
        n := g.(prospective := physical, scratch := fragment, fragmented := true);
      } else if kind == MIDDLE_TYPE as int {
        if !g.fragmented {
          ReportCorruption(|fragment|);
        } else {
          n := g.(scratch := g.scratch + fragment);
        }
      } else if kind == LAST_TYPE as int {
        if !g.fragmented {
          ReportCorruption(|fragment|);
        } else {
          lastRecordOffset := g.prospective;
          n := g.(done := true, record := g.scratch + fragment);
        }
      } else if kind == BAD_RECORD {
        if g.fragmented {
          ReportCorruption(|g.scratch|);
          n := g.(fragmented := false, scratch := []);
        }
      } else {
        ReportCorruption(|fragment| + if g.fragmented then |g.scratch| else 0);
        n := g.(fragmented := false, scratch := []);
      }
    }

    /** Intact fragments one behind the other between two positions; `whole` says that the last one ends the record. */
    ghost predicate MadeOf(fs: seq<Found>, whole: bool, from: nat, to: nat) {
      && fs != [] && from <= fs[0].at && fs[|fs| - 1].at + HEADER_SIZE + |fs[|fs| - 1].payload| <= to
      && (forall i :: 0 <= i < |fs| ==>
            Intact(fs[i].at, TypeOf(i == 0, whole && i == |fs| - 1) as int, fs[i].payload))
      && forall i :: 0 < i < |fs| ==> fs[i - 1].at + HEADER_SIZE + |fs[i - 1].payload| <= fs[i].at
    }

    lemma FirstFragment(from: nat, before: nat, kind: int, fragment: Slice, pos: nat)
      requires from <= before && HandedBack(before, kind, fragment, pos)
      requires kind == FULL_TYPE as int || kind == FIRST_TYPE as int
      ensures pos >= HEADER_SIZE + |fragment|
      ensures MadeOf([Found(pos - HEADER_SIZE - |fragment|, fragment)], kind == FULL_TYPE as int, from, pos)
      ensures Joined([Found(pos - HEADER_SIZE - |fragment|, fragment)]) == fragment
    {
      hide Intact;
      assert Joined([]) == [];
    }

    lemma NextFragment(fs: seq<Found>, from: nat, before: nat, kind: int, fragment: Slice, pos: nat)
      requires MadeOf(fs, false, from, before) && HandedBack(before, kind, fragment, pos)
      requires kind == MIDDLE_TYPE as int || kind == LAST_TYPE as int
      ensures pos >= HEADER_SIZE + |fragment|
      ensures MadeOf(fs + [Found(pos - HEADER_SIZE - |fragment|, fragment)], kind == LAST_TYPE as int, from, pos)
      ensures Joined(fs + [Found(pos - HEADER_SIZE - |fragment|, fragment)]) == Joined(fs) + fragment
    {
      hide Intact;
      assert (fs + [Found(pos - HEADER_SIZE - |fragment|, fragment)])[..|fs|] == fs;
    }

    /** What has been gathered of a record is made of fragments up to here. */
    ghost predicate SoFar(fs: seq<Found>, from: nat, to: nat, g: Gathered) {
      g.fragmented ==> MadeOf(fs, false, from, to) && g.scratch == Joined(fs)
    }

    lemma OneMoreFragment(fs: seq<Found>, from: nat, before: nat, kind: int, fragment: Slice, pos: nat, g: Gathered,
                          n: Gathered) returns (fs': seq<Found>)
      requires from <= before && HandedBack(before, kind, fragment, pos) && SoFar(fs, from, before, g) && !g.done
      requires Gathers(kind, fragment, g, n)
      ensures if n.done then MadeOf(fs', true, from, pos) && n.record == Joined(fs') else SoFar(fs', from, pos, n)
    {
      hide MadeOf, Joined, HandedBack;
      fs' := fs;
      if kind == FULL_TYPE as int || kind == FIRST_TYPE as int {
        FirstFragment(from, before, kind, fragment, pos);
        fs' := [Found(pos - HEADER_SIZE - |fragment|, fragment)];
      } else if g.fragmented && (kind == MIDDLE_TYPE as int || kind == LAST_TYPE as int) {
        NextFragment(fs, from, before, kind, fragment, pos);
        fs' := fs + [Found(pos - HEADER_SIZE - |fragment|, fragment)];
      }
    }

    /**
     The next record, if the file has all of it. What is left of one cut short is dropped without complaint. On any
     other file the position still only moves forward, and a record handed back is made of fragments in the file whose
     checksums are right.
     */
    method ReadRecord(ghost log: seq<Byte>, ghost rec: Slice, ghost rest: seq<Byte>)
        returns (ok: bool, record: Slice, ghost fs: seq<Found>)
      requires Valid()
      modifies this
      ensures Valid() && (ok ==> Pos() > old(Pos()))
      ensures old(Pos()) == |file| ==> !ok && drops == old(drops)
      ensures RecordAt(log, old(Pos()), rec, true, rest) ==>
                drops == old(drops) &&
                (if old(End(Pos(), rec, true)) <= |file|
                 then ok && record == rec && Pos() == old(End(Pos(), rec, true)) &&
                     lastRecordOffset == old(Pos() + Pad(Pos()))
                 else !ok)
      ensures ok ==> MadeOf(fs, true, old(Pos()), Pos()) && record == Joined(fs)
    {
      ghost var start, end := Pos(), End(Pos(), rec, true);
      ghost var genuine := RecordAt(log, Pos(), rec, true, rest);
      ghost var begin, left := true, rec;
      assert Collected([], rec, rec);
      var g := Gathered(false, [], [], false, 0);
      fs := [];
      assert SoFar(fs, Pos(), Pos(), g);
      hide Pad, End, RecordAt, Valid, Collected, Gathering, Expected, MadeOf, Joined, HandedBack, Gathers, SoFar;
      while true
        invariant Valid() && start <= Pos() && (start == |file| ==> Pos() == start && drops == old(drops)) && !g.done
        invariant genuine ==>
                    RecordAt(log, Pos(), left, begin, rest) && End(Pos(), left, begin) == end && drops == old(drops)
        invariant genuine ==> begin == !g.fragmented && Collected(g.scratch, left, rec)
        invariant genuine ==> if begin then g.scratch == [] && Pos() == start else g.prospective == start + Pad(start)
        invariant SoFar(fs, start, Pos(), g)
        decreases |file| - Pos()
      {
        ghost var at := Pos();
        var kind, fragment, physical := ReadPiece(log, left, begin, rest);
        if kind == EOF {
          return false, [], [];
        }
        ghost var was := g;
        if genuine {
          CollectMore(g.scratch, fragment, left, rec);
          GatherMore(kind, fragment, physical, g, begin, fragment == left);
        }
        g := Gather(kind, fragment, physical, g);
        fs := OneMoreFragment(fs, start, at, kind, fragment, Pos(), was, g);
        if g.done {
          return true, g.record, fs;
        }
        if genuine {
          left := left[|fragment|..];
          begin := false;
        }
      }
    }
  }

  lemma {:induction false} LogPrefix(crc: Crc, records: seq<Slice>, k: nat)
    requires k <= |records|
    ensures LogOf(crc, records[..k]) <= LogOf(crc, records)
    decreases |records|
  {
    if k == |records| {
      assert records[..k] == records;
    } else {
      var front := records[..|records| - 1];
      LogPrefix(crc, front, k);
      assert front[..k] == records[..k];
    }
  }

  /** After the first `k` records of a log comes the next one, and then some rest. */
  lemma LogSplit(crc: Crc, records: seq<Slice>, k: nat) returns (rest: seq<Byte>)
    requires k < |records|
    ensures var at := |LogOf(crc, records[..k])|;
            at <= |LogOf(crc, records)| && LogOf(crc, records)[at..] == Emit(crc, at, records[k], true) + rest &&
            |LogOf(crc, records[..k + 1])| == at + |Emit(crc, at, records[k], true)|
  {
    var log, before, upTo := LogOf(crc, records), LogOf(crc, records[..k]), LogOf(crc, records[..k + 1]);
    assert records[..k + 1] == records[..k] + [records[k]];
    LogAppend(crc, records[..k], records[k]);
    LogPrefix(crc, records, k + 1);
    rest := log[|upTo|..];
    hide LogOf, Emit;
    assert log == upTo + rest;
    Assoc(before, Emit(crc, |before|, records[k], true), rest);
  }

  function LengthOf(crc: Crc, records: seq<Slice>, k: nat): nat
    requires k <= |records|
  {
    |LogOf(crc, records[..k])|
  }

  /** One more record after the first `k`, if the file has all of it. */
  method ReadNext(reader: Reader, ghost records: seq<Slice>, ghost k: nat) returns (ok: bool, record: Slice)
    requires reader.Valid() && reader.file <= LogOf(reader.crc, records)
    requires k <= |records| && reader.Pos() == LengthOf(reader.crc, records, k)
    modifies reader
    ensures reader.Valid() && reader.drops == old(reader.drops) && reader.Pos() <= |reader.file|
    ensures ok ==> k < |records| && record == records[k] && reader.Pos() == LengthOf(reader.crc, records, k + 1)
    ensures !ok && k < |records| ==> |reader.file| < LengthOf(reader.crc, records, k + 1)
  {
    ghost var log := LogOf(reader.crc, records);
    ghost var rest: seq<Byte>, next: Slice := [], [];
    reader.PositionOf();
    if k < |records| {
      rest := LogSplit(reader.crc, records, k);
      next := records[k];
    } else {
      assert records[..k] == records;
    }
    hide LogOf, Emit;
    ghost var fs;
    ok, record, fs := reader.ReadRecord(log, next, rest);
    reader.PositionOf();
  }

  /**
   Wherever a crash cuts the log, reading it gives back exactly the records that lie before the cut as a whole, in
   order, and reports no corruption.
   */
  method Replay(crc: Crc, file: seq<Byte>, checksum: bool, ghost records: seq<Slice>)
    returns (out: seq<Slice>, drops: seq<nat>, ghost k: nat)
    requires file <= LogOf(crc, records)
    ensures k <= |records| && out == records[..k] && drops == []
    ensures LengthOf(crc, records, k) <= |file| && (k < |records| ==> |file| < LengthOf(crc, records, k + 1))
  {
    var reader := new Reader(crc, file, checksum);
    assert LogOf(crc, records[..0]) == [];
    assert LengthOf(crc, records, 0) == 0 && file <= LogOf(reader.crc, records);
    hide LogOf, LengthOf, Reader.Valid;
    out, k := [], 0;
    var more := true;
    while more
      invariant reader.Valid() && reader.drops == [] && reader.crc == crc && reader.file == file
      invariant k <= |records| && out == records[..k] && reader.Pos() <= |file|
      invariant LengthOf(crc, records, k) <= |file| && (more ==> reader.Pos() == LengthOf(crc, records, k))
      invariant !more && k < |records| ==> |file| < LengthOf(crc, records, k + 1)
      decreases more, |records| - k
    {
      var ok, record := ReadNext(reader, records, k);
      if ok {
        out := out + [record];
        k := k + 1;
      }
      more := ok;
    }
    drops := reader.drops;
  }
}
