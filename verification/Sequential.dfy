/** A file written into the ring buffer front to back, chunk after chunk, as the download loops of qvs-stream do. */
module Sequential {
  import opened Wrappers
  import opened Bytes
  import opened Intervals
  import opened RingBufferModel

  /** The picture of a file of which the first `n` bytes have arrived. */
  ghost function Arrived(file: bytes, n: nat): Picture {
    seq(|file|, x requires 0 <= x < |file| => if x < n then Some(file[x]) else None)
  }

  lemma PaintArrived(file: bytes, offset: nat, chunk: bytes)
    requires offset <= |file| && chunk <= file[offset..]
    ensures Paint(Arrived(file, offset), offset, chunk) == Arrived(file, offset + |chunk|)
  {
  }

  /** With the first `n` bytes there, a read gives exactly the file's bytes and never reaches past `n`. */
  lemma ReadOfArrived(s: State, file: bytes, n: nat, offset: nat, length: nat)
    requires Inv(s) && Agrees(s, Arrived(file, n)) && length > 0 && n <= |file|
    ensures Read(s, offset, length)
            == if offset + length <= n then Some(file[offset..offset + length]) else None
  {
    var image := Arrived(file, n);
    AgreeingRead(s, image, offset, length);
    if offset + length <= n {
      assert Written(image, offset, length);
      assert ReadImage(image, offset, length).value == file[offset..offset + length];
    } else if offset + length <= |file| {
      assert image[offset + length - 1].None?;
    }
  }

  // ----- Runs of writes -----

  /** How many bytes the chunks of these lengths hold. */
  function Total(lens: seq<nat>): nat {
    if lens == [] then 0 else Total(lens[..|lens| - 1]) + lens[|lens| - 1]
  }

  lemma TotalSnoc(lens: seq<nat>, n: nat)
    ensures Total(lens + [n]) == Total(lens) + n
  {
    assert (lens + [n])[..|lens|] == lens;
  }

  /** Chunks that can be cut off the front of a file of `size` bytes. */
  ghost predicate Cuts(lens: seq<nat>, size: nat) {
    (forall i :: 0 <= i < |lens| ==> lens[i] > 0) && Total(lens) <= size
  }

  lemma CutsPrefix(lens: seq<nat>, size: nat)
    requires Cuts(lens, size) && lens != []
    ensures var before := lens[..|lens| - 1];
            Cuts(before, size) && lens[|lens| - 1] > 0 && Total(lens) == Total(before) + lens[|lens| - 1]
  {
    var before := lens[..|lens| - 1];
    assert forall i :: 0 <= i < |before| ==> before[i] == lens[i];
  }

  lemma CutsSnoc(lens: seq<nat>, n: nat, size: nat)
    requires Cuts(lens, size) && 0 < n && Total(lens) + n <= size
    ensures Cuts(lens + [n], size)
  {
    TotalSnoc(lens, n);
  }

  /** The buffer after the file's chunks of these lengths were written, front to back. */
  ghost function Fill(capacity: nat, file: bytes, lens: seq<nat>): (s: State)
    requires Total(lens) <= |file|
    ensures Inv(s) && s.capacity == capacity && s.total == |file|
  {
    if lens == [] then New(capacity, |file|)
    else
      var before := lens[..|lens| - 1];
      var chunk := file[Total(before)..Total(lens)];
      WriteKeepsInv(Fill(capacity, file, before), Total(before), chunk);
      Write(Fill(capacity, file, before), Total(before), chunk)
  }

  lemma FillLast(capacity: nat, file: bytes, lens: seq<nat>)
    requires lens != [] && Total(lens) <= |file|
    ensures var before, len := lens[..|lens| - 1], lens[|lens| - 1];
            && Total(lens) == Total(before) + len
            && Fill(capacity, file, lens)
               == Write(Fill(capacity, file, before), Total(before), file[Total(before)..Total(before) + len])
  {
    hide Write;
  }

  lemma FillSnoc(capacity: nat, file: bytes, lens: seq<nat>, n: nat)
    requires Total(lens) + n <= |file|
    ensures Total(lens + [n]) == Total(lens) + n
    ensures Fill(capacity, file, lens + [n])
            == Write(Fill(capacity, file, lens), Total(lens), file[Total(lens)..Total(lens) + n])
  {
    hide Write;
    TotalSnoc(lens, n);
    assert (lens + [n])[..|lens|] == lens;
  }

  /** Reads of a byte or more give the first `n` bytes of the file and never reach past them. */
  ghost predicate ReadsExactly(s: State, file: bytes, n: nat)
    requires |s.data| == s.capacity && n <= |file|
  {
    forall offset: nat, length: nat | length > 0 ::
      Read(s, offset, length) == if offset + length <= n then Some(file[offset..offset + length]) else None
  }

  lemma ReadsOfArrived(s: State, file: bytes, n: nat)
    requires Inv(s) && Agrees(s, Arrived(file, n)) && n <= |file|
    ensures ReadsExactly(s, file, n)
  {
    forall offset: nat, length: nat | length > 0
      ensures Read(s, offset, length) == if offset + length <= n then Some(file[offset..offset + length]) else None
    {
      ReadOfArrived(s, file, n, offset, length);
    }
  }

  /** Read exactly from the front of a longer file, the same bytes are read exactly from that file. */
  lemma ReadsOfPrefix(s: State, file: bytes, size: nat, n: nat)
    requires |s.data| == s.capacity && n <= size <= |file| && ReadsExactly(s, file[..size], n)
    ensures ReadsExactly(s, file, n)
  {
    forall offset: nat, length: nat | length > 0
      ensures Read(s, offset, length) == if offset + length <= n then Some(file[offset..offset + length]) else None
    {
      if offset + length <= n {
        assert file[..size][offset..offset + length] == file[offset..offset + length];
      }
    }
  }

  /** Every read of a byte or more that returns data returns the file's bytes. */
  ghost predicate Sound(s: State, file: bytes)
    requires |s.data| == s.capacity
  {
    forall offset: nat, length: nat | length > 0 && Read(s, offset, length).Some? ::
      offset + length <= |file| && Read(s, offset, length) == Some(file[offset..offset + length])
  }

  lemma SoundLonger(s: State, file: bytes, size: nat)
    requires |s.data| == s.capacity && size <= |file| && Sound(s, file[..size])
    ensures Sound(s, file)
  {
    forall offset: nat, length: nat | length > 0 && Read(s, offset, length).Some?
      ensures offset + length <= |file| && Read(s, offset, length) == Some(file[offset..offset + length])
    {
      assert file[..size][offset..offset + length] == file[offset..offset + length];
    }
  }

  lemma SoundCut(s: State, file: bytes, size: nat)
    requires Inv(s) && s.total == size <= |file| && Sound(s, file)
    ensures Sound(s, file[..size])
  {
    forall offset: nat, length: nat | length > 0 && Read(s, offset, length).Some?
      ensures offset + length <= size && Read(s, offset, length) == Some(file[..size][offset..offset + length])
    {
      assert file[..size][offset..offset + length] == file[offset..offset + length];
    }
  }

  /** Before the first chunk, between any two, and after the last. */
  ghost predicate SoundThroughout(capacity: nat, file: bytes, lens: seq<nat>)
    requires Total(lens) <= |file|
  {
    Sound(Fill(capacity, file, lens), file)
    && (lens != [] ==> SoundThroughout(capacity, file, lens[..|lens| - 1]))
  }

  /** Every chunk ends within the first window or is exactly as long as the window (or there is no window). */
  predicate FitsWindow(capacity: nat, lens: seq<nat>) {
    lens == [] || (
      FitsWindow(capacity, lens[..|lens| - 1])
      && (capacity == 0 || Total(lens) <= capacity || lens[|lens| - 1] == capacity))
  }

  // ----- While every chunk fits -----

  /** The first `n` bytes are there and no others; or more than a window was written, and exactly the last one is. */
  ghost predicate InOrder(s: State, file: bytes, n: nat) {
    && Inv(s) && s.total == |file| && n <= |file|
    && (if n <= s.capacity then Agrees(s, Arrived(file, n))
        else s.capacity > 0 && s == LastWindow(s, file, n))
  }

  ghost function LastWindow(s: State, file: bytes, n: nat): State
    requires s.capacity <= n <= |file|
  {
    var start := n - s.capacity;
    State(s.capacity, |file|, file[start..n], start, [Range(start, n)], s.play)
  }

  lemma SliceOfSlice(file: bytes, start: nat, n: nat, offset: nat, length: nat)
    requires start <= offset && offset + length <= n <= |file|
    ensures file[start..n][offset - start..offset - start + length] == file[offset..offset + length]
  {
    var a, b := file[start..n][offset - start..offset - start + length], file[offset..offset + length];
    forall k | 0 <= k < length ensures a[k] == b[k] {
      assert file[start..n][offset - start + k] == file[offset + k];
    }
  }

  lemma InOrderSound(s: State, file: bytes, n: nat)
    requires InOrder(s, file, n)
    ensures Sound(s, file)
  {
    forall offset: nat, length: nat | length > 0 && Read(s, offset, length).Some?
      ensures offset + length <= |file| && Read(s, offset, length) == Some(file[offset..offset + length])
    {
      if n <= s.capacity {
        ReadOfArrived(s, file, n, offset, length);
      } else {
        var start := n - s.capacity;
        assert s.filled[0] == Range(start, n);
        SliceOfSlice(file, start, n, offset, length);
      }
    }
  }

  /** Ranges that all end by `shift` are shifted away. */
  lemma {:induction false} ShiftAway(filled: seq<Range>, shift: nat, cap: Option<nat>)
    requires forall r <- filled :: r.end <= shift
    ensures ShiftRanges(filled, shift, cap) == []
  {
    if filled != [] {
      ShiftAway(filled[1..], shift, cap);
    }
  }

  /** A chunk as long as the window, written past what is there, replaces everything. */
  lemma WholeWindow(s: State, offset: nat, chunk: bytes)
    requires Inv(s) && |chunk| == s.capacity > 0 && offset + |chunk| <= s.total
    requires s.fileOffset < offset && forall r <- s.filled :: r.end <= offset
    ensures Write(s, offset, chunk)
            == State(s.capacity, s.total, chunk, offset, [Range(offset, offset + |chunk|)], s.play)
  {
    ShiftAway(s.filled, offset, Some(s.capacity));
    assert chunk[..|chunk|] == chunk;
    var room := MakeRoom(s, offset, |chunk|);
    assert room == s.(data := room.data, fileOffset := offset, filled := []);
    assert Copy(room, offset, chunk) == chunk;
  }

  lemma ArrivedEnds(s: State, file: bytes, n: nat)
    requires Inv(s) && s.total == |file| && Agrees(s, Arrived(file, n))
    ensures forall r <- s.filled :: r.end <= n
  {
    forall r <- s.filled ensures r.end <= n {
      var i :| 0 <= i < |s.filled| && s.filled[i] == r;
      assert s.filled[i].start <= r.end - 1 < s.filled[i].end;
      assert Covered(s.filled, r.end - 1);
      assert Arrived(file, n)[r.end - 1].Some?;
    }
  }

  lemma InOrderStep(s: State, file: bytes, n: nat, len: nat)
    requires InOrder(s, file, n) && 0 < len && n + len <= |file| && s.capacity > 0
    requires n + len <= s.capacity || len == s.capacity
    ensures InOrder(Write(s, n, file[n..n + len]), file, n + len)
  {
    var chunk := file[n..n + len];
    WriteKeepsInv(s, n, chunk);
    if n + len <= s.capacity {
      WriteAgrees(s, Arrived(file, n), n, chunk);
      PaintArrived(file, n, chunk);
    } else {
      if n <= s.capacity {
        ArrivedEnds(s, file, n);
      }
      WholeWindow(s, n, chunk);
    }
  }

  lemma {:induction false} FillInOrder(capacity: nat, file: bytes, lens: seq<nat>)
    requires capacity > 0 && Cuts(lens, |file|) && FitsWindow(capacity, lens)
    ensures InOrder(Fill(capacity, file, lens), file, Total(lens))
  {
    hide Write, Agrees;
    if lens == [] {
      NewAgrees(capacity, |file|);
      assert Arrived(file, 0) == Blank(|file|);
    } else {
      var before := lens[..|lens| - 1];
      CutsPrefix(lens, |file|);
      FillInOrder(capacity, file, before);
      FillLast(capacity, file, lens);
      InOrderStep(Fill(capacity, file, before), file, Total(before), lens[|lens| - 1]);
    }
  }

  /** While everything fits, exactly the file so far is there. */
  lemma TotalFills(capacity: nat, file: bytes, lens: seq<nat>)
    requires Cuts(lens, |file|) && Total(lens) <= capacity
    ensures Agrees(Fill(capacity, file, lens), Arrived(file, Total(lens)))
  {
    if lens == [] {
      NewAgrees(capacity, |file|);
      assert Arrived(file, 0) == Blank(|file|);
    } else {
      CutsPrefix(lens, |file|);
      SmallTotalFits(capacity, lens);
      FillInOrder(capacity, file, lens);
    }
  }

  lemma {:induction false} FillSound(capacity: nat, file: bytes, lens: seq<nat>)
    requires Cuts(lens, |file|) && FitsWindow(capacity, lens)
    ensures SoundThroughout(capacity, file, lens)
  {
    if capacity > 0 {
      FillInOrder(capacity, file, lens);
      InOrderSound(Fill(capacity, file, lens), file, Total(lens));
    }
    if lens != [] {
      CutsPrefix(lens, |file|);
      FillSound(capacity, file, lens[..|lens| - 1]);
    }
  }

  // ----- The first chunk that does not -----

  /** A chunk longer than the window leaves its first byte where a later one belongs. */
  lemma LongWrite(s: State, offset: nat, chunk: bytes)
    requires Inv(s) && |chunk| > s.capacity > 0 && s.fileOffset <= offset && offset + |chunk| <= s.total
    ensures Read(Write(s, offset, chunk), offset + |chunk| - s.capacity, 1) == Some([chunk[0]])
  {
    hide Merge, ShiftRanges, Canonical;
    var start := offset + |chunk| - s.capacity;
    assert chunk[..|chunk|] == chunk;
    var room := MakeRoom(s, offset, |chunk|);
    MakeRoomKeepsInv(s, offset, |chunk|);
    assert room.fileOffset == start && room.capacity == s.capacity && room.total == s.total;
    MergeCovers(room.filled, offset, offset + |chunk|, s.total);
    var s' := Store(room, offset, chunk);
    assert Write(s, offset, chunk) == s';
    SpannedIffCovered(s'.filled, s.total, start, 1);
    assert s'.data[0..1] == [chunk[0]];
  }

  lemma {:induction false} ShiftKeepsFirst(filled: seq<Range>, shift: nat, cap: nat, total: nat)
    requires Canonical(filled, total) && Covered(filled, shift) && cap > 0
    ensures Covered(ShiftRanges(filled, shift, Some(cap)), 0)
  {
    CoveredCons(filled, shift);
    var shifted := ShiftRanges(filled, shift, Some(cap));
    if filled[0].start <= shift < filled[0].end {
      assert shifted[0].start <= 0 < shifted[0].end;
    } else {
      ShiftKeepsFirst(filled[1..], shift, cap, total);
      TailBeyond(filled, shift);
    }
  }

  lemma ShortRoom(s: State, offset: nat, len: nat)
    requires Inv(s) && 0 < len < s.capacity && offset + len <= s.total
    requires s.fileOffset < offset + len - s.capacity < s.fileOffset + s.capacity
    requires Covered(s.filled, offset + len - s.capacity)
    ensures var start, room := offset + len - s.capacity, MakeRoom(s, offset, len);
            && Inv(room) && room.capacity == s.capacity && room.total == s.total && room.fileOffset == start
            && Covered(room.filled, 0) && room.data[0] == s.data[start - s.fileOffset]
  {
    hide ShiftRanges, Canonical;
    var start := offset + len - s.capacity;
    MakeRoomKeepsInv(s, offset, len);
    assert MakeRoom(s, offset, len) == SlideTo(s, start);
    ShiftKeepsFirst(s.filled, start, s.capacity, s.total);
  }

  /** A chunk stored past the start of the window leaves the start, and the belief that byte 0 is there. */
  lemma StoreKeepsFirst(room: State, offset: nat, chunk: bytes)
    requires Inv(room) && chunk != [] && offset + |chunk| <= room.total && room.fileOffset < offset
    requires room.capacity > 0 && Covered(room.filled, 0)
    ensures Read(Store(room, offset, chunk), 0, 1) == Some([room.data[0]])
  {
    hide Merge, Canonical, Covered;
    var s' := Store(room, offset, chunk);
    MergeCovers(room.filled, offset, offset + |chunk|, room.total);
    SpannedIffCovered(s'.filled, room.total, 0, 1);
    assert s'.data[0] == room.data[0];
    assert s'.data[0..1] == [room.data[0]];
  }

  /** A shorter chunk that makes the window slide leaves byte 0 believed filled, with what starts the window. */
  lemma ShortWrite(s: State, offset: nat, chunk: bytes)
    requires Inv(s) && 0 < |chunk| < s.capacity && offset + |chunk| <= s.total
    requires s.fileOffset < offset + |chunk| - s.capacity < s.fileOffset + s.capacity
    requires Covered(s.filled, offset + |chunk| - s.capacity)
    ensures var start := offset + |chunk| - s.capacity;
            Read(Write(s, offset, chunk), 0, 1) == Some([s.data[start - s.fileOffset]])
  {
    hide MakeRoom, Store, Read;
    assert chunk[..|chunk|] == chunk;
    ShortRoom(s, offset, |chunk|);
    StoreKeepsFirst(MakeRoom(s, offset, |chunk|), offset, chunk);
  }

  /** A file that holds one mark. */
  function Marked(size: nat, at: nat): (file: bytes)
    ensures |file| == size
  {
    seq(size, x => if x == at then 1 else 0)
  }

  /** The first chunk that ends past the first window and is not as long as the window makes a read go wrong. */
  lemma UnfitChunk(s: State, file: bytes, n: nat, len: nat)
    requires InOrder(s, file, n) && 0 < len && n + len <= |file|
    requires 0 < s.capacity < n + len && len != s.capacity
    requires file == Marked(|file|, n + len - s.capacity)
    ensures Inv(Write(s, n, file[n..n + len])) && !Sound(Write(s, n, file[n..n + len]), file)
  {
    hide Write;
    var chunk, start := file[n..n + len], n + len - s.capacity;
    var s' := Write(s, n, chunk);
    WriteKeepsInv(s, n, chunk);
    assert file[start] == 1;
    if len > s.capacity {
      LongWrite(s, n, chunk);
      WrongByte(s', file, start, 0);
    } else {
      StartIsThere(s, file, n, start);
      ShortWrite(s, n, chunk);
      WrongByte(s', file, 0, 1);
    }
  }

  lemma WrongByte(s: State, file: bytes, x: nat, b: byte)
    requires |s.data| == s.capacity && Read(s, x, 1) == Some([b]) && x < |file| && file[x] != b
    ensures !Sound(s, file)
  {
    assert file[x..x + 1] == [file[x]];
  }

  /** Whatever starts the next window is filled, and right. */
  lemma StartIsThere(s: State, file: bytes, n: nat, start: nat)
    requires InOrder(s, file, n) && start < n < start + s.capacity && n <= |file| && s.capacity > 0
    ensures s.fileOffset <= start < s.fileOffset + s.capacity && (n > s.capacity ==> s.fileOffset < start)
    ensures Covered(s.filled, start) && s.data[start - s.fileOffset] == file[start]
  {
    if n <= s.capacity {
      assert Arrived(file, n)[start].Some?;
    } else {
      assert s.filled[0] == Range(n - s.capacity, n);
    }
  }

  lemma UnfitLast(capacity: nat, size: nat, lens: seq<nat>) returns (file: bytes)
    requires Cuts(lens, size) && lens != [] && FitsWindow(capacity, lens[..|lens| - 1]) && !FitsWindow(capacity, lens)
    ensures |file| == size && !Sound(Fill(capacity, file, lens), file)
  {
    hide Sound, InOrder, Write, Fill, Total, Marked;
    var before, len := lens[..|lens| - 1], lens[|lens| - 1];
    CutsPrefix(lens, size);
    file := Marked(size, Total(lens) - capacity);
    FillInOrder(capacity, file, before);
    FillLast(capacity, file, lens);
    UnfitChunk(Fill(capacity, file, before), file, Total(before), len);
  }

  lemma {:induction false} UnfitMisread(capacity: nat, size: nat, lens: seq<nat>) returns (file: bytes)
    requires Cuts(lens, size) && !FitsWindow(capacity, lens)
    ensures |file| == size && !SoundThroughout(capacity, file, lens)
  {
    hide Sound, Fill;
    CutsPrefix(lens, size);
    if FitsWindow(capacity, lens[..|lens| - 1]) {
      file := UnfitLast(capacity, size, lens);
    } else {
      file := UnfitMisread(capacity, size, lens[..|lens| - 1]);
    }
  }

  /**
   Written front to back in chunks of these lengths, every file of the size reads right at every point if and
   only if each chunk ends within the first window or is exactly as long as the window.
   */
  lemma SequentialSoundIff(capacity: nat, size: nat, lens: seq<nat>)
    requires Cuts(lens, size)
    ensures (forall file: bytes | |file| == size :: SoundThroughout(capacity, file, lens))
       <==> FitsWindow(capacity, lens)
  {
    if FitsWindow(capacity, lens) {
      forall file: bytes | |file| == size ensures SoundThroughout(capacity, file, lens) {
        FillSound(capacity, file, lens);
      }
    } else {
      var file := UnfitMisread(capacity, size, lens);
    }
  }

  /** The window never starts past what was written. */
  lemma {:induction false} FillOffset(capacity: nat, file: bytes, lens: seq<nat>)
    requires Total(lens) <= |file|
    ensures Fill(capacity, file, lens).fileOffset <= Total(lens)
  {
    if lens != [] {
      FillOffset(capacity, file, lens[..|lens| - 1]);
    }
  }

  // ----- Which lengths fit -----

  /** Chunks shorter than the window fit exactly as long as their sum does. */
  lemma {:induction false} ShortChunksFit(capacity: nat, lens: seq<nat>)
    requires forall i :: 0 <= i < |lens| ==> lens[i] < capacity
    ensures FitsWindow(capacity, lens) <==> Total(lens) <= capacity
  {
    if lens != [] {
      ShortChunksFit(capacity, lens[..|lens| - 1]);
    }
  }

  lemma {:induction false} FitsPrefix(capacity: nat, lens: seq<nat>, k: nat)
    requires FitsWindow(capacity, lens) && k <= |lens|
    ensures FitsWindow(capacity, lens[..k])
  {
    if k < |lens| {
      FitsPrefix(capacity, lens[..|lens| - 1], k);
      assert lens[..|lens| - 1][..k] == lens[..k];
    } else {
      assert lens[..k] == lens;
    }
  }

  lemma {:induction false} SmallTotalFits(capacity: nat, lens: seq<nat>)
    requires Total(lens) <= capacity || capacity == 0
    ensures FitsWindow(capacity, lens)
  {
    if lens != [] {
      SmallTotalFits(capacity, lens[..|lens| - 1]);
    }
  }
}
