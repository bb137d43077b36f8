/** What each `RingBuffer` operation does to the state, and what that means for readers over whole runs. */
module RingBufferModel {
  import opened Wrappers
  import opened Bytes
  import opened Intervals

  datatype State = State(
    capacity: nat,
    total: nat,
    data: bytes,
    fileOffset: nat,
    filled: seq<Range>,
    play: nat)

  ghost predicate Inv(s: State) {
    |s.data| == s.capacity && Canonical(s.filled, s.total)
  }

  function Zeros(n: nat): bytes {
    seq(n, _ => 0)
  }

  function New(capacity: nat, total: nat): State {
    State(capacity, total, Zeros(capacity), 0, [], 0)
  }

  /** `saturating_sub`. */
  function Sub(a: nat, b: nat): nat {
    if a < b then 0 else a - b
  }

  // ----- Sliding the window -----

  /** The ranges `slide_to` rebuilds, each end moved down by `shift`, capped at `cap`. */
  function ShiftRanges(filled: seq<Range>, shift: nat, cap: Option<nat>): seq<Range> {
    if filled == [] then []
    else
      var start, end := Sub(filled[0].start, shift), Sub(filled[0].end, shift);
      var rest := ShiftRanges(filled[1..], shift, cap);
      if start < end && (cap.Some? ==> start < cap.value)
      then [Range(start, if cap.Some? then Min(end, cap.value) else end)] + rest
      else rest
  }

  function SlideTo(s: State, offset: nat): (s': State)
    requires |s.data| == s.capacity
    ensures |s'.data| == s'.capacity == s.capacity && s'.total == s.total && s'.fileOffset == offset
  {
    if offset == s.fileOffset then s
    else if offset < s.fileOffset then
      var shift := s.fileOffset - offset;
      if shift >= s.capacity then
        s.(data := Zeros(s.capacity), filled := [], fileOffset := offset)
      else
        s.(data := Zeros(shift) + s.data[..s.capacity - shift],
           filled := ShiftRanges(s.filled, shift, None),
           fileOffset := offset)
    else
      var shift := offset - s.fileOffset;
      if shift >= s.capacity then
        s.(data := Zeros(s.capacity), filled := [], fileOffset := offset)
      else
        s.(data := s.data[shift..] + Zeros(shift),
           filled := ShiftRanges(s.filled, offset, Some(s.capacity)),
           fileOffset := offset)
  }

  // ----- Operations -----

  /** The window `write` slides to before it copies `len` bytes at `offset`. */
  function MakeRoom(s: State, offset: nat, len: nat): (s': State)
    requires |s.data| == s.capacity
    ensures |s'.data| == s'.capacity == s.capacity && s'.total == s.total
  {
    var s1 := if offset < s.fileOffset then SlideTo(s, offset) else s;
    if offset + len > s1.fileOffset + s1.capacity
    then SlideTo(s1, Min(Sub(offset + len, s1.capacity), Sub(s1.total, s1.capacity)))
    else s1
  }

  /** The copy into the window, cut at its end. */
  function Copy(s: State, offset: nat, chunk: bytes): (data: bytes)
    requires |s.data| == s.capacity
    ensures |data| == s.capacity
  {
    var at := Sub(offset, s.fileOffset);
    if at < s.capacity then
      var n := Min(|chunk|, s.capacity - at);
      s.data[..at] + chunk[..n] + s.data[at + n..]
    else s.data
  }

  function Write(s: State, offset: nat, chunk: bytes): State
    requires |s.data| == s.capacity
  {
    if offset >= s.total || chunk == [] then s
    else
      var chunk' := chunk[..Min(offset + |chunk|, s.total) - offset];
      Store(MakeRoom(s, offset, |chunk'|), offset, chunk')
  }

  function Store(s: State, offset: nat, chunk: bytes): State
    requires |s.data| == s.capacity
  {
    s.(data := Copy(s, offset, chunk), filled := Merge(s.filled, offset, offset + |chunk|))
  }

  function IsRangeFilled(filled: seq<Range>, offset: nat, length: nat): bool {
    exists i :: 0 <= i < |filled| && filled[i].start <= offset && offset + length <= filled[i].end
  }

  function Read(s: State, offset: nat, length: nat): Option<bytes>
    requires |s.data| == s.capacity
  {
    var at := Sub(offset, s.fileOffset);
    if !IsRangeFilled(s.filled, offset, length) || at + length > s.capacity then None
    else Some(s.data[at..at + length])
  }

  function Clear(s: State): State {
    s.(filled := [], data := Zeros(|s.data|), fileOffset := 0, play := 0)
  }

  // ----- Runs -----

  datatype Op = WriteOp(offset: nat, chunk: bytes) | ClearOp | PlayOp(position: nat)

  ghost function Apply(s: State, op: Op): State
    requires |s.data| == s.capacity
  {
    match op
    case WriteOp(offset, chunk) => Write(s, offset, chunk)
    case ClearOp => Clear(s)
    case PlayOp(position) => s.(play := position)
  }

  ghost function Run(capacity: nat, total: nat, ops: seq<Op>): (s: State)
    ensures Inv(s) && s.capacity == capacity && s.total == total
  {
    if ops == [] then New(capacity, total)
    else
      var s := Run(capacity, total, ops[..|ops| - 1]);
      ApplyKeepsInv(s, ops[|ops| - 1]);
      Apply(s, ops[|ops| - 1])
  }

  /** The plain picture of a file: at each offset the last byte written since the last clear, if any. */
  type Picture = seq<Option<byte>>

  function Paint(image: Picture, offset: nat, chunk: bytes): Picture {
    seq(|image|, x requires 0 <= x < |image| =>
      if offset <= x < offset + |chunk| then Some(chunk[x - offset]) else image[x])
  }

  function Blank(total: nat): Picture {
    seq(total, _ => None)
  }

  ghost function Image(total: nat, ops: seq<Op>): (image: Picture)
    ensures |image| == total
  {
    if ops == [] then Blank(total)
    else
      var image := Image(total, ops[..|ops| - 1]);
      match ops[|ops| - 1]
      case WriteOp(offset, chunk) => Paint(image, offset, chunk)
      case ClearOp => Blank(total)
      case PlayOp(_) => image
  }

  ghost predicate Written(image: Picture, offset: nat, length: nat) {
    offset + length <= |image| && forall x :: offset <= x < offset + length ==> image[x].Some?
  }

  /** What a read of the picture gives: all the bytes, or nothing if one was never written. */
  ghost function ReadImage(image: Picture, offset: nat, length: nat): Option<bytes> {
    if Written(image, offset, length)
    then Some(seq(length, k requires 0 <= k < length => image[offset + k].value))
    else None
  }

  // ----- The interval invariant, slides included -----

  lemma {:induction false} ShiftRangesCanonical(filled: seq<Range>, shift: nat, cap: Option<nat>, total: nat)
    requires Canonical(filled, total)
    ensures Canonical(ShiftRanges(filled, shift, cap), total)
    ensures filled != [] ==> forall r <- ShiftRanges(filled, shift, cap) :: Sub(filled[0].start, shift) <= r.start
  {
    if filled != [] {
      ShiftRangesCanonical(filled[1..], shift, cap, total);
      var s := ShiftRanges(filled, shift, cap);
      var rest := ShiftRanges(filled[1..], shift, cap);
      if |filled| > 1 {
        assert filled[0].end < filled[1].start == filled[1..][0].start;
        assert forall r <- rest :: Sub(filled[1].start, shift) <= r.start;
        if s != rest {
          PrependCanonical(s[0], rest, total);
        }
      } else {
        assert rest == [];
      }
    }
  }

  lemma PrependCanonical(r: Range, rest: seq<Range>, total: nat)
    requires Canonical(rest, total) && r.start < r.end <= total && forall q <- rest :: r.end < q.start
    ensures Canonical([r] + rest, total)
  {
    var s := [r] + rest;
    forall i | 1 <= i < |s| ensures r.end < s[i].start {
      assert s[i] in rest;
    }
  }

  lemma SlideKeepsInv(s: State, offset: nat)
    requires Inv(s)
    ensures Inv(SlideTo(s, offset))
  {
    if offset < s.fileOffset {
      ShiftRangesCanonical(s.filled, s.fileOffset - offset, None, s.total);
    } else {
      ShiftRangesCanonical(s.filled, offset, Some(s.capacity), s.total);
    }
  }

  /** Every operation, slides included, keeps the filled ranges canonical and the window its size. */
  lemma ApplyKeepsInv(s: State, op: Op)
    requires Inv(s)
    ensures Inv(Apply(s, op))
    ensures Apply(s, op).capacity == s.capacity && Apply(s, op).total == s.total
  {
    if op.WriteOp? {
      WriteKeepsInv(s, op.offset, op.chunk);
    }
  }

  lemma WriteParts(s: State, offset: nat, chunk: bytes)
    requires Inv(s) && offset < s.total && chunk != []
    ensures var chunk' := chunk[..Min(offset + |chunk|, s.total) - offset];
            var s' := Store(MakeRoom(s, offset, |chunk'|), offset, chunk');
            Write(s, offset, chunk) == s' && Inv(s')
  {
    WriteKeepsInv(s, offset, chunk);
  }

  lemma WriteKeepsInv(s: State, offset: nat, chunk: bytes)
    requires Inv(s)
    ensures Inv(Write(s, offset, chunk))
    ensures Write(s, offset, chunk).capacity == s.capacity && Write(s, offset, chunk).total == s.total
  {
    if offset < s.total && chunk != [] {
      var len := Min(offset + |chunk|, s.total) - offset;
      MakeRoomKeepsInv(s, offset, len);
      MergeCovers(MakeRoom(s, offset, len).filled, offset, offset + len, s.total);
    }
  }

  lemma MakeRoomKeepsInv(s: State, offset: nat, len: nat)
    requires Inv(s)
    ensures Inv(MakeRoom(s, offset, len))
  {
    var s1 := if offset < s.fileOffset then SlideTo(s, offset) else s;
    SlideKeepsInv(s, offset);
    SlideKeepsInv(s1, Min(Sub(offset + len, s1.capacity), Sub(s1.total, s1.capacity)));
  }

  /** `slide_to` moves the bytes correctly: an offset in both windows keeps its byte. */
  lemma SlideKeepsBytes(s: State, offset: nat, x: nat)
    requires |s.data| == s.capacity
    requires s.fileOffset <= x < s.fileOffset + s.capacity && offset <= x < offset + s.capacity
    ensures SlideTo(s, offset).data[x - offset] == s.data[x - s.fileOffset]
  {
  }

  // ----- What a slide and a write leave -----

  /** A rebuilt range covers what the old ranges cover `shift` bytes further on, below the cap. */
  lemma {:induction false} ShiftRangesCover(filled: seq<Range>, shift: nat, cap: Option<nat>, x: nat)
    ensures Covered(ShiftRanges(filled, shift, cap), x)
       <==> (cap.Some? ==> x < cap.value) && Covered(filled, x + shift)
  {
    if filled != [] {
      ShiftRangesCover(filled[1..], shift, cap, x);
      CoveredCons(filled, x + shift);
      var s := ShiftRanges(filled, shift, cap);
      if s != ShiftRanges(filled[1..], shift, cap) {
        CoveredCons(s, x);
        assert s[1..] == ShiftRanges(filled[1..], shift, cap);
      }
    }
  }

  /** Whether position `x` counts as filled once the window starts at `offset`. */
  ghost predicate CoveredAfter(s: State, offset: nat, x: nat) {
    if offset == s.fileOffset then Covered(s.filled, x)
    else if offset < s.fileOffset
    then s.fileOffset - offset < s.capacity && Covered(s.filled, x + (s.fileOffset - offset))
    else offset - s.fileOffset < s.capacity && x < s.capacity && Covered(s.filled, x + offset)
  }

  /**
   Bytes keep their file offsets and zeros come in at the edge; but the ranges move down, going back by as much as
   the window moves and going forward by as much as the window is from the start of the file.
   */
  lemma SlideMeaning(s: State, offset: nat)
    requires |s.data| == s.capacity
    ensures var s' := SlideTo(s, offset);
            && s'.play == s.play
            && (forall i :: 0 <= i < s.capacity ==>
                  s'.data[i] == if 0 <= offset + i - s.fileOffset < s.capacity then s.data[offset + i - s.fileOffset]
                                else 0)
            && forall x: nat :: Covered(s'.filled, x) <==> CoveredAfter(s, offset, x)
  {
    hide ShiftRanges;
    var s' := SlideTo(s, offset);
    forall x: nat ensures Covered(s'.filled, x) <==> CoveredAfter(s, offset, x) {
      if offset < s.fileOffset {
        ShiftRangesCover(s.filled, s.fileOffset - offset, None, x);
      } else if offset > s.fileOffset {
        ShiftRangesCover(s.filled, offset, Some(s.capacity), x);
      }
    }
  }

  /** Where the window starts once there is room for a write that fits it: no further than it has to move. */
  function RoomStart(s: State, offset: nat, len: nat): nat {
    if offset < s.fileOffset then offset
    else if s.fileOffset + s.capacity < offset + len then Sub(offset + len, s.capacity)
    else s.fileOffset
  }

  lemma RoomSlides(s: State, offset: nat, len: nat)
    requires |s.data| == s.capacity && len <= s.capacity && offset + len <= s.total
    ensures MakeRoom(s, offset, len) == SlideTo(s, RoomStart(s, offset, len))
  {
    hide ShiftRanges;
  }

  /** A write slides the window there, stores its bytes, and leaves all else in the window alone. */
  lemma WriteMeaning(s: State, offset: nat, chunk: bytes)
    requires Inv(s) && chunk != [] && |chunk| <= s.capacity && offset + |chunk| <= s.total
    ensures var slid, s' := SlideTo(s, RoomStart(s, offset, |chunk|)), Write(s, offset, chunk);
            && s' == slid.(data := s'.data, filled := s'.filled) && |s'.data| == s.capacity
            && (forall i :: 0 <= i < s.capacity ==>
                  s'.data[i] == if offset <= slid.fileOffset + i < offset + |chunk|
                                then chunk[slid.fileOffset + i - offset] else slid.data[i])
            && (forall x :: Covered(s'.filled, x) <==> Covered(slid.filled, x) || offset <= x < offset + |chunk|)
  {
    hide SlideTo, Copy, Merge, MakeRoom, Covered, Canonical, RoomStart;
    assert chunk[..|chunk|] == chunk;
    var room := MakeRoom(s, offset, |chunk|);
    RoomSlides(s, offset, |chunk|);
    MakeRoomKeepsInv(s, offset, |chunk|);
    MergeCovers(room.filled, offset, offset + |chunk|, s.total);
    RoomHolds(s, offset, |chunk|);
    CopyAt(room, offset, chunk);
  }

  lemma CopyAt(s: State, offset: nat, chunk: bytes)
    requires |s.data| == s.capacity && s.fileOffset <= offset && offset + |chunk| <= s.fileOffset + s.capacity
    ensures forall i :: 0 <= i < s.capacity ==>
              Copy(s, offset, chunk)[i]
              == if offset <= s.fileOffset + i < offset + |chunk| then chunk[s.fileOffset + i - offset] else s.data[i]
  {
  }

  // ----- Any write is read back, slides included -----

  /** Whatever was written before, wherever the window was, a write is read back unless it is longer than the window. */
  lemma WrittenIsRead(s: State, offset: nat, chunk: bytes)
    requires Inv(s) && chunk != [] && offset + |chunk| <= s.total
    ensures Read(Write(s, offset, chunk), offset, |chunk|) == Some(chunk) <==> |chunk| <= s.capacity
  {
    hide MakeRoom, Merge, Copy, Canonical;
    var room := MakeRoom(s, offset, |chunk|);
    assert chunk[..|chunk|] == chunk;
    assert Write(s, offset, chunk) == Store(room, offset, chunk);
    if |chunk| <= s.capacity {
      RoomHolds(s, offset, |chunk|);
      MakeRoomKeepsInv(s, offset, |chunk|);
      StoredIsRead(room, offset, chunk);
    }
  }

  lemma RoomHolds(s: State, offset: nat, len: nat)
    requires |s.data| == s.capacity && len <= s.capacity && offset + len <= s.total
    ensures var room := MakeRoom(s, offset, len);
            room.fileOffset <= offset && offset + len <= room.fileOffset + room.capacity && room.capacity == s.capacity
  {
  }

  lemma StoredIsRead(room: State, offset: nat, chunk: bytes)
    requires Inv(room) && chunk != [] && offset + |chunk| <= room.total
    requires room.fileOffset <= offset && offset + |chunk| <= room.fileOffset + room.capacity
    ensures Read(Store(room, offset, chunk), offset, |chunk|) == Some(chunk)
  {
    var s := Store(room, offset, chunk);
    MergeCovers(room.filled, offset, offset + |chunk|, room.total);
    SpannedIffCovered(s.filled, room.total, offset, |chunk|);
    assert IsRangeFilled(s.filled, offset, |chunk|);
    var at := offset - room.fileOffset;
    assert s.data == room.data[..at] + chunk[..|chunk|] + room.data[at + |chunk|..];
    assert s.data[at..at + |chunk|] == chunk;
  }

  // ----- Reads, while nothing is written past the first window -----

  ghost predicate Agrees(s: State, image: Picture) {
    && s.fileOffset == 0
    && |image| == s.total
    && (forall x :: 0 <= x < s.total ==> (image[x].Some? <==> Covered(s.filled, x)))
    && (forall x :: 0 <= x < s.total && image[x].Some? ==> x < |s.data| && s.data[x] == image[x].value)
  }

  lemma NewAgrees(capacity: nat, total: nat)
    ensures Inv(New(capacity, total)) && Agrees(New(capacity, total), Blank(total))
  {
  }

  /** The write stores nothing past the first window, so it never makes the window slide away from 0. */
  predicate InFirstWindow(capacity: nat, total: nat, offset: nat, chunk: bytes) {
    offset >= total || chunk == [] || Min(offset + |chunk|, total) <= capacity
  }

  ghost predicate StaysInFirstWindow(capacity: nat, total: nat, ops: seq<Op>) {
    forall op <- ops :: op.WriteOp? ==> InFirstWindow(capacity, total, op.offset, op.chunk)
  }

  lemma {:induction false} RunAgrees(capacity: nat, total: nat, ops: seq<Op>)
    requires StaysInFirstWindow(capacity, total, ops)
    ensures Agrees(Run(capacity, total, ops), Image(total, ops))
  {
    if ops != [] {
      var before := ops[..|ops| - 1];
      assert forall op <- before :: op in ops;
      RunAgrees(capacity, total, before);
      var op := ops[|ops| - 1];
      assert op in ops;
      if op.WriteOp? {
        WriteAgrees(Run(capacity, total, before), Image(total, before), op.offset, op.chunk);
      }
    }
  }

  lemma WriteAgrees(s: State, image: Picture, offset: nat, chunk: bytes)
    requires Inv(s) && Agrees(s, image) && InFirstWindow(s.capacity, s.total, offset, chunk)
    ensures Agrees(Write(s, offset, chunk), Paint(image, offset, chunk))
  {
    hide Paint, Copy, Merge, Canonical;
    PaintBytes(image, offset, chunk);
    if offset < s.total && chunk != [] {
      var chunk' := chunk[..Min(offset + |chunk|, s.total) - offset];
      WriteWithoutSlide(s, offset, chunk);
      MergeCovers(s.filled, offset, offset + |chunk'|, s.total);
      CopyBytes(s, offset, chunk');
    }
  }

  lemma WriteWithoutSlide(s: State, offset: nat, chunk: bytes)
    requires |s.data| == s.capacity && s.fileOffset == 0 && offset < s.total && chunk != []
    requires InFirstWindow(s.capacity, s.total, offset, chunk)
    ensures var chunk' := chunk[..Min(offset + |chunk|, s.total) - offset];
            Write(s, offset, chunk)
            == s.(data := Copy(s, offset, chunk'), filled := Merge(s.filled, offset, offset + |chunk'|))
  {
    assert MakeRoom(s, offset, Min(offset + |chunk|, s.total) - offset) == s;
  }

  lemma CopyBytes(s: State, offset: nat, chunk: bytes)
    requires |s.data| == s.capacity && s.fileOffset == 0 && offset + |chunk| <= s.capacity && chunk != []
    ensures forall x :: 0 <= x < s.capacity ==>
              Copy(s, offset, chunk)[x] == if offset <= x < offset + |chunk| then chunk[x - offset] else s.data[x]
  {
  }

  lemma PaintBytes(image: Picture, offset: nat, chunk: bytes)
    ensures |Paint(image, offset, chunk)| == |image|
    ensures forall x :: 0 <= x < |image| ==>
              Paint(image, offset, chunk)[x]
              == if offset <= x < offset + |chunk| then Some(chunk[x - offset]) else image[x]
  {
  }

  /** A state that agrees with a picture reads exactly what the picture holds. */
  lemma AgreeingRead(s: State, image: Picture, offset: nat, length: nat)
    requires Inv(s) && Agrees(s, image) && length > 0
    ensures Read(s, offset, length) == ReadImage(image, offset, length)
  {
    SpannedIffCovered(s.filled, s.total, offset, length);
    if IsRangeFilled(s.filled, offset, length) {
      assert Covered(s.filled, offset + length - 1);
      assert image[offset + length - 1].Some?;
      assert Written(image, offset, length);
      assert s.data[offset..offset + length] == ReadImage(image, offset, length).value;
    }
  }

  /** After a run that stays in the first window every read is exact, however large the file. */
  lemma FirstWindowReads(capacity: nat, total: nat, ops: seq<Op>, offset: nat, length: nat)
    requires StaysInFirstWindow(capacity, total, ops) && length > 0
    ensures Read(Run(capacity, total, ops), offset, length) == ReadImage(Image(total, ops), offset, length)
  {
    RunAgrees(capacity, total, ops);
    AgreeingRead(Run(capacity, total, ops), Image(total, ops), offset, length);
  }

  // ----- Reads in general -----

  /** Every read of a byte or more, after every run, equals a read of the plain picture. */
  ghost predicate ExactReads(capacity: nat, total: nat) {
    forall ops: seq<Op>, offset: nat, length: nat | length > 0 ::
      Read(Run(capacity, total, ops), offset, length) == ReadImage(Image(total, ops), offset, length)
  }

  /** Every read of a byte or more that returns data returns what the plain picture holds. */
  ghost predicate SoundReads(capacity: nat, total: nat) {
    forall ops: seq<Op>, offset: nat, length: nat | length > 0 ::
      var r := Read(Run(capacity, total, ops), offset, length);
      r.Some? ==> r == ReadImage(Image(total, ops), offset, length)
  }

  /** Reads are exact if and only if the file fits the buffer. */
  lemma ReadsExactIffFits(capacity: nat, total: nat)
    ensures ExactReads(capacity, total) <==> total <= capacity
  {
    if total <= capacity {
      FittingReads(capacity, total);
    } else if capacity == 0 {
      LostWrite(total);
    } else {
      ReadsSoundIffFits(capacity, total);
    }
  }

  lemma FittingReads(capacity: nat, total: nat)
    requires total <= capacity
    ensures ExactReads(capacity, total)
  {
    forall ops: seq<Op>, offset: nat, length: nat | length > 0
      ensures Read(Run(capacity, total, ops), offset, length) == ReadImage(Image(total, ops), offset, length)
    {
      FirstWindowReads(capacity, total, ops, offset, length);
    }
  }

  /**
   Returned data is right if and only if the file fits the buffer or the buffer has no room at all:
   once the window slides, `filled` is read in the wrong coordinates.
   */
  lemma ReadsSoundIffFits(capacity: nat, total: nat)
    ensures SoundReads(capacity, total) <==> total <= capacity || capacity == 0
  {
    if total <= capacity {
      FittingReads(capacity, total);
    } else if capacity == 1 {
      LongWriteMisread(total);
      Misread(1, total, [] + [WriteOp(0, [1, 2])], 1, 1);
    } else if capacity > 1 {
      BackSlideMisread(capacity, total);
      Misread(capacity, total, [] + [WriteOp(total - 1, [1])] + [WriteOp(total - capacity - 1, [1])], total - 2, 1);
    } else {
      forall ops: seq<Op>, offset: nat, length: nat | length > 0
        ensures Read(Run(0, total, ops), offset, length) == None
      {
      }
    }
  }

  lemma Misread(capacity: nat, total: nat, ops: seq<Op>, offset: nat, length: nat)
    requires length > 0 && Read(Run(capacity, total, ops), offset, length).Some?
    requires Read(Run(capacity, total, ops), offset, length) != ReadImage(Image(total, ops), offset, length)
    ensures !SoundReads(capacity, total)
  {
  }

  lemma RunSnoc(capacity: nat, total: nat, ops: seq<Op>, op: Op)
    ensures Run(capacity, total, ops + [op]) == Apply(Run(capacity, total, ops), op)
    ensures op.WriteOp? ==> Image(total, ops + [op]) == Paint(Image(total, ops), op.offset, op.chunk)
  {
    assert (ops + [op])[..|ops|] == ops;
  }

  /** A buffer of no bytes records a write it cannot hold. */
  lemma LostWrite(total: nat)
    requires total > 0
    ensures var ops := [] + [WriteOp(0, [1])];
            Read(Run(0, total, ops), 0, 1) != ReadImage(Image(total, ops), 0, 1)
  {
    RunSnoc(0, total, [], WriteOp(0, [1]));
    assert Written(Paint(Blank(total), 0, [1]), 0, 1);
  }

  /** In a one-byte buffer a two-byte write leaves its first byte where the second belongs. */
  lemma LongWriteMisread(total: nat)
    requires total > 1
    ensures var ops := [] + [WriteOp(0, [1, 2])];
            Read(Run(1, total, ops), 1, 1) == Some([1]) && ReadImage(Image(total, ops), 1, 1) == Some([2])
  {
    RunSnoc(1, total, [], WriteOp(0, [1, 2]));
    var chunk: bytes := [1, 2];
    var room := MakeRoom(New(1, total), 0, 2);
    assert chunk[..2] == chunk;
    assert room == State(1, total, Zeros(1), 1, [], 0);
    var s := Write(New(1, total), 0, chunk);
    assert s.filled == [Range(0, 2)];
    assert s.data == [1] && s.data[0..1] == [1];
    assert s.filled[0].start <= 1 && 1 + 1 <= s.filled[0].end;
    var image := Paint(Blank(total), 0, chunk);
    assert image[1] == Some(2);
    assert ReadImage(image, 1, 1).value == [2];
  }

  /** Write the last byte, then slide back one byte: the byte before the last now reads as written. */
  lemma BackSlideMisread(capacity: nat, total: nat)
    requires 1 < capacity < total
    ensures var ops := [] + [WriteOp(total - 1, [1])] + [WriteOp(total - capacity - 1, [1])];
            Read(Run(capacity, total, ops), total - 2, 1) == Some([0])
            && ReadImage(Image(total, ops), total - 2, 1) == None
  {
    hide Write, Read;
    var op1, op2 := WriteOp(total - 1, [1]), WriteOp(total - capacity - 1, [1]);
    RunSnoc(capacity, total, [], op1);
    RunSnoc(capacity, total, [] + [op1], op2);
    var s1 := AfterLastByte(capacity, total);
    BackSlide(s1);
    var image := Paint(Paint(Blank(total), total - 1, [1]), total - capacity - 1, [1]);
    assert image[total - 2] == None;
  }

  lemma AfterLastByte(capacity: nat, total: nat) returns (s1: State)
    requires 1 < capacity < total
    ensures s1 == Write(New(capacity, total), total - 1, [1])
    ensures s1 == State(capacity, total, Zeros(capacity - 1) + [1], total - capacity, [Range(total - 1, total)], 0)
  {
    var s0 := New(capacity, total);
    var chunk: bytes := [1];
    assert chunk[..1] == chunk;
    var room := MakeRoom(s0, total - 1, 1);
    assert room == State(capacity, total, Zeros(capacity), total - capacity, [], 0);
    assert Copy(room, total - 1, chunk) == Zeros(capacity - 1) + [1];
    s1 := Write(s0, total - 1, chunk);
  }

  lemma BackSlide(s1: State)
    requires 1 < s1.capacity < s1.total
    requires s1 == State(s1.capacity, s1.total, Zeros(s1.capacity - 1) + [1], s1.total - s1.capacity,
                         [Range(s1.total - 1, s1.total)], 0)
    ensures Read(Write(s1, s1.total - s1.capacity - 1, [1]), s1.total - 2, 1) == Some([0])
  {
    hide Merge, Copy, ShiftRanges, SlideTo;
    var offset := s1.total - s1.capacity - 1;
    var chunk: bytes := [1];
    assert chunk[..1] == chunk;
    BackSlideRoom(s1);
    var room := MakeRoom(s1, offset, 1);
    assert Write(s1, offset, chunk) == Store(room, offset, chunk);
    StoreBelow(room);
  }

  /** A range is taken to be filled that the copy never reached. */
  lemma StoreBelow(room: State)
    requires 1 < room.capacity < room.total && room.fileOffset == room.total - room.capacity - 1
    requires room.data == Zeros(room.capacity) && room.filled == [Range(room.total - 2, room.total - 1)]
    ensures Read(Store(room, room.fileOffset, [1]), room.total - 2, 1) == Some([0])
  {
    hide Copy, Merge, Covered;
    var chunk: bytes := [1];
    var s2 := Store(room, room.fileOffset, chunk);
    CopyFirst(room);
    OneRange(room.total - 2, room.total);
    MergeCovers(room.filled, room.fileOffset, room.fileOffset + 1, room.total);
    SpannedIffCovered(s2.filled, room.total, room.total - 2, 1);
    assert IsRangeFilled(s2.filled, room.total - 2, 1);
    assert s2.data[room.capacity - 1..room.capacity] == [0];
  }

  lemma CopyFirst(room: State)
    requires 1 < room.capacity && room.data == Zeros(room.capacity)
    ensures Copy(room, room.fileOffset, [1]) == [1] + Zeros(room.capacity - 1)
  {
    var chunk: bytes := [1];
    assert chunk[..1] == chunk;
  }

  lemma OneRange(x: nat, total: nat)
    requires x < total
    ensures Canonical([Range(x, x + 1)], total) && Covered([Range(x, x + 1)], x)
  {
    assert [Range(x, x + 1)][0].start == x;
  }

  lemma BackSlideRoom(s1: State)
    requires 1 < s1.capacity < s1.total
    requires s1 == State(s1.capacity, s1.total, Zeros(s1.capacity - 1) + [1], s1.total - s1.capacity,
                         [Range(s1.total - 1, s1.total)], 0)
    ensures MakeRoom(s1, s1.total - s1.capacity - 1, 1)
            == s1.(data := Zeros(s1.capacity), fileOffset := s1.total - s1.capacity - 1,
                   filled := [Range(s1.total - 2, s1.total - 1)])
  {
    var room := MakeRoom(s1, s1.total - s1.capacity - 1, 1);
    assert s1.filled[1..] == [];
    assert room.filled == [Range(s1.total - 2, s1.total - 1)] + ShiftRanges([], 1, None);
    assert room.data == Zeros(s1.capacity);
  }
}
