/**
 The loop of qvs-stream that copies a local file into the ring buffer. One reader goes through the file from
 the start and is never moved back; which reads fail, and after how many bytes, is an input.
 */
module FileDownloads {
  import opened Wrappers
  import opened Bytes
  import opened Intervals
  import opened Downloads
  import opened Sequential
  import M = RingBufferModel
  import opened RB = RingBuffer

  /** For the k-th read: no error, or an error after that many bytes were taken from the reader. */
  type Faults = nat -> Option<nat>

  datatype ReadResult = Full(chunk: bytes) | UnexpectedEof(chunk: bytes) | ReadError(consumed: nat)

  /** `read_exact` into a zeroed buffer of `n` bytes, from position `pos` of the file's actual bytes. */
  function ReadExact(local: bytes, pos: nat, n: nat, fault: Option<nat>): (r: ReadResult)
    requires pos <= |local| && n > 0
    ensures r.ReadError? <==> fault.Some?
    ensures !r.ReadError? ==> |r.chunk| == n
    ensures r.ReadError? ==> r.consumed < n && pos + r.consumed <= |local|
  {
    var left := |local| - pos;
    match fault
    case Some(c) => ReadError(Min(c, Min(n - 1, left)))
    case None => if n <= left then Full(local[pos..pos + n]) else UnexpectedEof(local[pos..] + M.Zeros(n - left))
  }

  /** The variables of the loop, the lengths of the chunks written so far, and the buffer. */
  datatype Loop = Loop(
    offset: nat, pos: nat, errors: nat, attempts: nat, eof: bool, lens: seq<nat>, buffer: M.State)

  function ReadSize(size: nat, offset: nat): nat
    requires offset < size
  {
    Min(CHUNK_SIZE, size - offset)
  }

  function Step(local: bytes, size: nat, faults: Faults, s: Loop): (s': Loop)
    requires s.offset < size && s.pos <= |local| && M.Inv(s.buffer)
    ensures s'.pos <= |local| && s'.offset <= size && M.Inv(s'.buffer)
    ensures s'.buffer.capacity == s.buffer.capacity && s'.buffer.total == s.buffer.total
  {
    match ReadExact(local, s.pos, ReadSize(size, s.offset), faults(s.attempts))
    case Full(chunk) =>
      M.WriteKeepsInv(s.buffer, s.offset, chunk);
      Loop(s.offset + |chunk|, s.pos + |chunk|, 0, s.attempts + 1, s.eof, s.lens + [|chunk|],
           M.Write(s.buffer, s.offset, chunk))
    case UnexpectedEof(chunk) =>
      M.WriteKeepsInv(s.buffer, s.offset, chunk);
      s.(pos := |local|, attempts := s.attempts + 1, eof := true, lens := s.lens + [|chunk|],
         buffer := M.Write(s.buffer, s.offset, chunk))
    case ReadError(consumed) =>
      s.(pos := s.pos + consumed, errors := s.errors + 1, attempts := s.attempts + 1)
  }

  predicate Done(size: nat, s: Loop) {
    s.offset >= size || s.eof || s.errors >= MAX_ERRORS
  }

  ghost function Finish(local: bytes, size: nat, faults: Faults, s: Loop): (end: Loop)
    requires s.pos <= |local| && M.Inv(s.buffer)
    ensures M.Inv(end.buffer)
    decreases if s.eof then 0 else 1, size - s.offset, MAX_ERRORS - s.errors
  {
    if Done(size, s) then s else Finish(local, size, faults, Step(local, size, faults, s))
  }

  ghost function Start(capacity: nat, size: nat): (s: Loop)
    ensures M.Inv(s.buffer)
  {
    M.NewAgrees(capacity, size);
    Loop(0, 0, 0, 0, false, [], M.New(capacity, size))
  }

  ghost function FileRun(capacity: nat, local: bytes, size: nat, faults: Faults): (end: Loop)
    ensures M.Inv(end.buffer)
  {
    Finish(local, size, faults, Start(capacity, size))
  }

  lemma FileRunIs(capacity: nat, local: bytes, size: nat, faults: Faults)
    ensures FileRun(capacity, local, size, faults) == Finish(local, size, faults, Start(capacity, size))
  {
  }

  lemma FinishStep(local: bytes, size: nat, faults: Faults, s: Loop)
    requires s.pos <= |local| && M.Inv(s.buffer)
    ensures Finish(local, size, faults, s)
            == if Done(size, s) then s else Finish(local, size, faults, Step(local, size, faults, s))
  {
  }

  lemma StepCases(local: bytes, size: nat, faults: Faults, s: Loop, result: ReadResult)
    requires s.offset < size && s.pos <= |local| && M.Inv(s.buffer)
    requires result == ReadExact(local, s.pos, ReadSize(size, s.offset), faults(s.attempts))
    ensures var s' := Step(local, size, faults, s);
            && s'.attempts == s.attempts + 1
            && (if result.ReadError?
                then s' == s.(pos := s.pos + result.consumed, errors := s.errors + 1, attempts := s.attempts + 1)
                else s'.buffer == M.Write(s.buffer, s.offset, result.chunk))
            && (result.Full? ==> s'.offset == s.offset + |result.chunk| && s'.pos == s.pos + |result.chunk|
                                 && s'.errors == 0 && s'.eof == s.eof)
            && (result.UnexpectedEof? ==> s'.offset == s.offset && s'.errors == s.errors && s'.eof)
  {
    hide M.Write, ReadExact;
  }

  /**
   `run_file_download_loop`, once the file is open. It ends with the announced size written, ten errors one after
   the other or an early end of file, in exactly the state of the modelled run.
   */
  method RunFileDownload(buffer: RingBuffer, size: nat, local: bytes, faults: Faults)
    returns (offset: nat, errors: nat, attempts: nat, eof: bool)
    requires buffer.Valid() && buffer.State() == M.New(buffer.capacity, size)
    modifies buffer.Repr()
    ensures buffer.Valid() && fresh(buffer.Repr() - old(buffer.Repr()))
    ensures offset <= size && (eof || offset == size || errors == MAX_ERRORS)
    ensures !eof && offset < size ==>
              10 <= attempts && forall k: nat :: attempts - 10 <= k < attempts ==> faults(k).Some?
    ensures eof ==> attempts > 0 && faults(attempts - 1).None?
    ensures var end := FileRun(buffer.capacity, local, size, faults);
            && offset == end.offset && errors == end.errors && attempts == end.attempts && eof == end.eof
            && buffer.State() == end.buffer
  {
    hide M.Write, Finish, FileRun, ReadExact, M.New, Step;
    var pos: nat := 0;
    offset, errors, attempts, eof := 0, 0, 0, false;
    ghost var s := Start(buffer.capacity, size);
    FileRunIs(buffer.capacity, local, size, faults);
    while offset < size
      invariant buffer.Valid() && fresh(buffer.Repr() - old(buffer.Repr()))
      invariant s == Loop(offset, pos, errors, attempts, false, s.lens, buffer.State())
      invariant pos <= |local| && offset <= size && errors < MAX_ERRORS && !eof
      invariant errors <= attempts && forall k: nat :: attempts - errors <= k < attempts ==> faults(k).Some?
      invariant FileRun(buffer.capacity, local, size, faults) == Finish(local, size, faults, s)
      decreases size - offset, MAX_ERRORS - errors
    {
      var result := ReadExact(local, pos, ReadSize(size, offset), faults(attempts));
      FinishStep(local, size, faults, s);
      StepCases(local, size, faults, s, result);
      s := Step(local, size, faults, s);
      FinishStep(local, size, faults, s);
      attempts := attempts + 1;
      match result
      case Full(chunk) =>
        errors := 0;
        buffer.Write(offset, chunk);
        offset, pos := offset + |chunk|, pos + |chunk|;
      case UnexpectedEof(chunk) =>
        buffer.Write(offset, chunk);
        eof := true;
        break;
      case ReadError(consumed) =>
        errors, pos := errors + 1, pos + consumed;
        if errors >= MAX_ERRORS {
          break;
        }
    }
    FinishStep(local, size, faults, s);
  }

  // ----- When the reader keeps up with the offset -----

  /** Ten errors in a row from the j-th read on: enough to end the loop. */
  ghost predicate Streak(faults: Faults, j: nat) {
    forall i: nat :: j <= i < j + MAX_ERRORS ==> faults(i).Some?
  }

  /** No failing read takes a byte, except once the errors that end the loop have begun. */
  ghost predicate Lossless(faults: Faults) {
    forall k: nat :: faults(k).Some? && faults(k).value > 0 ==> exists j: nat :: j <= k && Streak(faults, j)
  }

  /** `errors` is the number of errors just before this read, and no earlier errors could have ended the loop. */
  ghost predicate CountsErrors(faults: Faults, s: Loop) {
    && s.errors <= s.attempts
    && (forall i: nat :: s.attempts - s.errors <= i < s.attempts ==> faults(i).Some?)
    && (s.errors < s.attempts ==> faults(s.attempts - s.errors - 1).None?)
    && (forall j: nat :: j + MAX_ERRORS <= s.attempts ==> !Streak(faults, j))
  }

  lemma StepCountsErrors(local: bytes, size: nat, faults: Faults, s: Loop)
    requires s.pos <= |local| && M.Inv(s.buffer) && !Done(size, s) && CountsErrors(faults, s)
    ensures var s' := Step(local, size, faults, s);
            if s'.errors < MAX_ERRORS && !s'.eof then CountsErrors(faults, s')
            else s'.errors == MAX_ERRORS ==> Streak(faults, s.attempts - s.errors)
  {
    hide M.Write;
    var s' := Step(local, size, faults, s);
    if s'.errors < MAX_ERRORS && !s'.eof {
      forall j: nat | j + MAX_ERRORS <= s'.attempts ensures !Streak(faults, j) {
        if j + MAX_ERRORS == s'.attempts {
          var i: nat := if faults(s.attempts).None? then s.attempts else s.attempts - s.errors - 1;
          assert j <= i < j + MAX_ERRORS && faults(i).None?;
        }
      }
    }
  }

  /** Every read is right at every point from here on. */
  ghost predicate FileSound(local: bytes, size: nat, faults: Faults, s: Loop)
    requires s.pos <= |local| && M.Inv(s.buffer)
    decreases if s.eof then 0 else 1, size - s.offset, MAX_ERRORS - s.errors
  {
    Sound(s.buffer, local) && (!Done(size, s) ==> FileSound(local, size, faults, Step(local, size, faults, s)))
  }

  /** All chunks but the last are whole, and the last is the rest of the announced size. */
  ghost predicate Chunked(size: nat, lens: seq<nat>) {
    forall i :: 0 <= i < |lens| ==> CHUNK_SIZE * i < size && lens[i] == Min(CHUNK_SIZE, size - CHUNK_SIZE * i)
  }

  lemma ChunkedSnoc(size: nat, lens: seq<nat>)
    requires Chunked(size, lens) && Total(lens) < size
    ensures var n := ReadSize(size, Total(lens));
            Chunked(size, lens + [n]) && Total(lens + [n]) == Total(lens) + n <= size
  {
    ChunkedTotal(size, lens);
    TotalSnoc(lens, ReadSize(size, Total(lens)));
  }

  lemma {:induction false} ChunkedTotal(size: nat, lens: seq<nat>)
    requires Chunked(size, lens)
    ensures Total(lens) == Min(CHUNK_SIZE * |lens|, size) && Cuts(lens, size)
  {
    if lens != [] {
      ChunkedTotal(size, lens[..|lens| - 1]);
    }
  }

  /** The file as announced: cut off where it is longer, and zeros where it is shorter. */
  function Announced(local: bytes, size: nat): (file: bytes)
    ensures |file| == size
  {
    if size <= |local| then local[..size] else local + M.Zeros(size - |local|)
  }

  /** A reader that is where the offset is reads the file as announced. */
  lemma ReadsAnnounced(local: bytes, size: nat, offset: nat, fault: Option<nat>)
    requires offset < size && offset <= |local|
    ensures var n, r := ReadSize(size, offset), ReadExact(local, offset, ReadSize(size, offset), fault);
            if fault.Some? then r.ReadError? && r.consumed <= fault.value
            else r == if offset + n <= |local| then Full(Announced(local, size)[offset..offset + n])
                      else UnexpectedEof(Announced(local, size)[offset..offset + n])
  {
    var n := ReadSize(size, offset);
    if fault.None? {
      if offset + n <= |local| {
        assert Announced(local, size)[offset..offset + n] == local[offset..offset + n];
      } else {
        var rest := local[offset..] + M.Zeros(n - (|local| - offset));
        assert Announced(local, size)[offset..offset + n] == rest;
      }
    }
  }

  /** What was read from the front of the file is in the buffer, chunk after chunk. */
  ghost predicate InStep(capacity: nat, local: bytes, size: nat, s: Loop) {
    && s.pos == s.offset <= size && s.offset <= |local| && !s.eof
    && Chunked(size, s.lens) && s.offset == Total(s.lens)
    && s.buffer == Fill(capacity, Announced(local, size), s.lens)
  }

  lemma StartInStep(capacity: nat, local: bytes, size: nat)
    ensures InStep(capacity, local, size, Start(capacity, size))
  {
  }

  /** A read that finds its bytes, or fails without taking one, keeps it so. */
  lemma StepInStep(capacity: nat, local: bytes, size: nat, faults: Faults, s: Loop)
    requires InStep(capacity, local, size, s) && M.Inv(s.buffer) && !Done(size, s)
    requires faults(s.attempts).Some? ==> faults(s.attempts).value == 0
    requires faults(s.attempts).None? ==> s.pos + ReadSize(size, s.offset) <= |local|
    ensures var s' := Step(local, size, faults, s);
            && InStep(capacity, local, size, s')
            && (if faults(s.attempts).Some? then s'.lens == s.lens && s'.buffer == s.buffer
                else s'.lens != [] && s'.lens[..|s'.lens| - 1] == s.lens)
  {
    hide Fill, M.Write, Announced, ReadExact, Chunked;
    ReadsAnnounced(local, size, s.offset, faults(s.attempts));
    if faults(s.attempts).None? {
      ChunkedSnoc(size, s.lens);
      FillSnoc(capacity, Announced(local, size), s.lens, ReadSize(size, s.offset));
    }
  }

  /** A read that comes to the end of the file writes the rest of it and zeros. */
  lemma StepToEnd(capacity: nat, local: bytes, size: nat, faults: Faults, s: Loop)
    requires InStep(capacity, local, size, s) && M.Inv(s.buffer) && !Done(size, s)
    requires faults(s.attempts).None? && s.pos + ReadSize(size, s.offset) > |local|
    ensures var n, s' := ReadSize(size, s.offset), Step(local, size, faults, s);
            && s'.eof && s'.lens == s.lens + [n] && Chunked(size, s'.lens)
            && Total(s'.lens) == s.offset + n <= size
            && s'.buffer == Fill(capacity, Announced(local, size), s'.lens)
            && s'.buffer == M.Write(s.buffer, s.offset, Announced(local, size)[s.offset..s.offset + n])
  {
    hide Fill, M.Write, Announced, ReadExact, Chunked;
    ReadsAnnounced(local, size, s.offset, None);
    ChunkedSnoc(size, s.lens);
    FillSnoc(capacity, Announced(local, size), s.lens, ReadSize(size, s.offset));
  }

  /** Once only errors are to come, nothing more is written. */
  lemma {:induction false} OnlyErrors(local: bytes, size: nat, faults: Faults, s: Loop)
    requires s.pos <= |local| && M.Inv(s.buffer) && !s.eof
    requires forall i: nat :: s.attempts <= i < s.attempts + (MAX_ERRORS - s.errors) ==> faults(i).Some?
    ensures var end := Finish(local, size, faults, s);
            end.offset == s.offset && end.lens == s.lens && end.buffer == s.buffer && !end.eof
    ensures FileSound(local, size, faults, s) <==> Sound(s.buffer, local)
    decreases MAX_ERRORS - s.errors
  {
    hide Sound;
    if !Done(size, s) {
      OnlyErrors(local, size, faults, Step(local, size, faults, s));
    }
  }

  /** Errors that take bytes before the loop ends come only when nothing but errors is to come. */
  lemma LossIsLast(faults: Faults, s: Loop)
    requires CountsErrors(faults, s) && Lossless(faults) && s.errors < MAX_ERRORS
    requires faults(s.attempts).Some? && faults(s.attempts).value > 0
    ensures forall i: nat :: s.attempts <= i < s.attempts + (MAX_ERRORS - s.errors) ==> faults(i).Some?
  {
    var j: nat :| j <= s.attempts && Streak(faults, j);
    assert s.attempts < j + MAX_ERRORS;
    assert s.attempts - s.errors <= j;
  }

  /** A loop that loses nothing writes what belongs there, up to where it ends. */
  lemma {:induction false} LosslessRun(capacity: nat, local: bytes, size: nat, faults: Faults, s: Loop)
    requires InStep(capacity, local, size, s) && M.Inv(s.buffer) && CountsErrors(faults, s) && Lossless(faults)
    requires size <= |local|
    ensures var end := Finish(local, size, faults, s);
            && !end.eof && Chunked(size, end.lens) && end.offset == Total(end.lens) <= size
            && end.buffer == Fill(capacity, Announced(local, size), end.lens)
    decreases size - s.offset, MAX_ERRORS - s.errors
  {
    hide Step, Fill, Chunked, Lossless, CountsErrors, Total;
    if !Done(size, s) {
      if faults(s.attempts).Some? && faults(s.attempts).value > 0 {
        LossIsLast(faults, s);
        OnlyErrors(local, size, faults, s);
      } else {
        var s' := Step(local, size, faults, s);
        StepInStep(capacity, local, size, faults, s);
        StepCountsErrors(local, size, faults, s);
        StepMoves(local, size, faults, s);
        if s'.errors < MAX_ERRORS {
          LosslessRun(capacity, local, size, faults, s');
        }
      }
    }
  }

  lemma StepMoves(local: bytes, size: nat, faults: Faults, s: Loop)
    requires s.pos <= |local| && M.Inv(s.buffer) && !Done(size, s)
    ensures var s' := Step(local, size, faults, s);
            if faults(s.attempts).Some? then s'.offset == s.offset && s'.errors == s.errors + 1
            else s'.eof || (s'.offset > s.offset && s'.errors == 0)
  {
    hide M.Write;
  }

  // ----- When it does not -----

  /** How many of the first `k` reads succeed. */
  ghost function Successes(faults: Faults, k: nat): nat {
    if k == 0 then 0 else Successes(faults, k - 1) + (if faults(k - 1).None? then 1 else 0)
  }

  lemma {:induction false} SuccessesMonotone(faults: Faults, a: nat, k: nat)
    requires a <= k
    ensures Successes(faults, a) <= Successes(faults, k)
  {
    if a < k {
      SuccessesMonotone(faults, a, k - 1);
    }
  }

  /** The first read that takes a byte and fails comes before any errors that end the loop. */
  ghost predicate FirstLoss(faults: Faults, k: nat) {
    && faults(k).Some? && faults(k).value > 0
    && (forall i: nat :: i < k && faults(i).Some? ==> faults(i).value == 0)
    && (forall j: nat :: j <= k ==> !Streak(faults, j))
  }

  lemma {:induction false} FindFirstLoss(faults: Faults, k: nat) returns (first: nat)
    requires faults(k).Some? && faults(k).value > 0 && forall j: nat :: j <= k ==> !Streak(faults, j)
    ensures FirstLoss(faults, first)
    decreases k
  {
    if i: nat :| i < k && faults(i).Some? && faults(i).value > 0 {
      first := FindFirstLoss(faults, i);
    } else {
      first := k;
    }
  }

  /** A file whose bytes up to offset `o` differ from all later ones. */
  function StepFile(o: nat): bytes {
    seq(o + 1, _ => 0) + seq((MAX_ERRORS + 2) * CHUNK_SIZE, _ => 1)
  }

  /** On the step file the run puts a later byte at offset `o`. */
  ghost predicate Misplaces(faults: Faults, o: nat, s: Loop)
    requires s.pos <= |StepFile(o)| && M.Inv(s.buffer)
  {
    var end := Finish(StepFile(o), o + CHUNK_SIZE, faults, s);
    var read := M.Read(end.buffer, o, CHUNK_SIZE);
    end.offset == o + CHUNK_SIZE && read.Some? && |read.value| == CHUNK_SIZE && read.value[0] == 1
  }

  lemma MisplacesLater(faults: Faults, o: nat, s: Loop)
    requires s.pos <= |StepFile(o)| && M.Inv(s.buffer) && !Done(o + CHUNK_SIZE, s)
    requires Misplaces(faults, o, Step(StepFile(o), o + CHUNK_SIZE, faults, s))
    ensures Misplaces(faults, o, s)
  {
  }

  /** The loop before the last chunk of the step file, with a buffer that holds all of it. */
  ghost predicate OnStepFile(o: nat, s: Loop) {
    M.Inv(s.buffer) && s.buffer.capacity == s.buffer.total == o + CHUNK_SIZE && !s.eof && s.errors < MAX_ERRORS
  }

  /** After the loss the reader is ahead, and the next chunk lands at the wrong offset. */
  lemma {:induction false} AheadRun(faults: Faults, k: nat, o: nat, s: Loop)
    requires FirstLoss(faults, k) && k < s.attempts && OnStepFile(o, s) && s.offset == o
    requires o < s.pos <= o + s.errors * CHUNK_SIZE && CountsErrors(faults, s)
    requires forall i: nat :: k <= i < s.attempts ==> faults(i).Some?
    ensures Misplaces(faults, o, s)
    decreases MAX_ERRORS - s.errors
  {
    hide M.Write;
    var local, size := StepFile(o), o + CHUNK_SIZE;
    var s' := Step(local, size, faults, s);
    StepCountsErrors(local, size, faults, s);
    assert s.attempts - s.errors <= k;
    if faults(s.attempts).Some? {
      AheadRun(faults, k, o, s');
    } else {
      var chunk := local[s.pos..s.pos + CHUNK_SIZE];
      M.WrittenIsRead(s.buffer, o, chunk);
      assert chunk[0] == local[s.pos] == 1;
      assert Done(size, s');
    }
    MisplacesLater(faults, o, s);
  }

  lemma {:induction false} LossyRun(faults: Faults, k: nat, o: nat, s: Loop)
    requires FirstLoss(faults, k) && s.attempts <= k && CountsErrors(faults, s) && OnStepFile(o, s)
    requires s.offset == CHUNK_SIZE * Successes(faults, s.attempts) && s.pos == s.offset
    requires s.offset <= o == CHUNK_SIZE * Successes(faults, k)
    ensures Misplaces(faults, o, s)
    decreases k - s.attempts
  {
    hide M.Write, Misplaces;
    var local, size := StepFile(o), o + CHUNK_SIZE;
    var s' := Step(local, size, faults, s);
    StepCountsErrors(local, size, faults, s);
    if s.attempts == k {
      AheadRun(faults, k, o, s');
    } else {
      SuccessesMonotone(faults, s.attempts + 1, k);
      LossyRun(faults, k, o, s');
    }
    MisplacesLater(faults, o, s);
  }

  /** Reads of the buffer give exactly the bytes of the file up to the final offset. */
  ghost predicate Exact(local: bytes, end: Loop)
    requires M.Inv(end.buffer)
  {
    !end.eof && end.offset <= |local| && ReadsExactly(end.buffer, local, end.offset)
  }

  lemma LosslessExact(capacity: nat, local: bytes, size: nat, faults: Faults)
    requires size <= |local| && size <= capacity && Lossless(faults)
    ensures Exact(local, FileRun(capacity, local, size, faults))
  {
    hide Lossless, Finish;
    StartInStep(capacity, local, size);
    LosslessRun(capacity, local, size, faults, Start(capacity, size));
    var end := FileRun(capacity, local, size, faults);
    ChunkedTotal(size, end.lens);
    TotalFills(capacity, Announced(local, size), end.lens);
    ReadsOfArrived(end.buffer, Announced(local, size), end.offset);
    ReadsOfPrefix(end.buffer, local, size, end.offset);
  }

  /**
   For every file at least as long as announced that fits the buffer the copy is exact if and only if no failing
   read takes a byte before the errors that end the loop.
   */
  lemma ExactIffLossless(faults: Faults)
    ensures (forall capacity: nat, local: bytes, size: nat | size <= |local| && size <= capacity ::
               Exact(local, FileRun(capacity, local, size, faults)))
       <==> Lossless(faults)
  {
    hide Exact, FileRun;
    if Lossless(faults) {
      forall capacity: nat, local: bytes, size: nat | size <= |local| && size <= capacity
        ensures Exact(local, FileRun(capacity, local, size, faults))
      {
        LosslessExact(capacity, local, size, faults);
      }
    } else {
      var k: nat :| faults(k).Some? && faults(k).value > 0 && forall j: nat :: j <= k ==> !Streak(faults, j);
      var first := FindFirstLoss(faults, k);
      LossyNotExact(faults, first);
    }
  }

  lemma LossyNotExact(faults: Faults, first: nat)
    requires FirstLoss(faults, first)
    ensures var o := CHUNK_SIZE * Successes(faults, first);
            && o + CHUNK_SIZE <= |StepFile(o)|
            && !Exact(StepFile(o), FileRun(o + CHUNK_SIZE, StepFile(o), o + CHUNK_SIZE, faults))
  {
    hide Finish;
    var o := CHUNK_SIZE * Successes(faults, first);
    var local, size := StepFile(o), o + CHUNK_SIZE;
    SuccessesMonotone(faults, 0, first);
    LossyRun(faults, first, o, Start(size, size));
    assert local[o..o + CHUNK_SIZE][0] == 0;
  }

  // ----- Which copies read right at every point -----

  /** The file fits the buffer, or is read in whole windows, or there is no buffer. */
  predicate SoundSize(capacity: nat, size: nat) {
    size <= capacity || capacity == 0 || (capacity == CHUNK_SIZE && size % CHUNK_SIZE == 0)
  }

  lemma {:induction false} ChunkedFits(capacity: nat, size: nat, lens: seq<nat>)
    requires Chunked(size, lens) && SoundSize(capacity, size)
    ensures FitsWindow(capacity, lens)
  {
    if lens != [] {
      ChunkedTotal(size, lens);
      ChunkedFits(capacity, size, lens[..|lens| - 1]);
    }
  }

  lemma ChunkedUnfit(capacity: nat, size: nat, lens: seq<nat>)
    requires Chunked(size, lens) && Total(lens) == size && !SoundSize(capacity, size)
    ensures !FitsWindow(capacity, lens)
  {
    ChunkedTotal(size, lens);
    var n := |lens| - 1;
    assert size == CHUNK_SIZE * n + lens[n];
    if lens[n] == capacity {
      assert n > 0 && lens[0] == CHUNK_SIZE;
      assert lens[..1] == [] + [CHUNK_SIZE];
      TotalSnoc([], CHUNK_SIZE);
      assert !FitsWindow(capacity, lens[..1]);
      if FitsWindow(capacity, lens) {
        FitsPrefix(capacity, lens, 1);
      }
    }
  }

  lemma ChunkedUnique(size: nat, a: seq<nat>, b: seq<nat>)
    requires Chunked(size, a) && Chunked(size, b) && Total(a) == Total(b) == size
    ensures a == b
  {
    ChunkedTotal(size, a);
    ChunkedTotal(size, b);
    assert a != [] ==> CHUNK_SIZE * (|a| - 1) < size;
    assert b != [] ==> CHUNK_SIZE * (|b| - 1) < size;
    assert |a| == |b|;
  }

  lemma InStepSound(capacity: nat, local: bytes, size: nat, s: Loop)
    requires InStep(capacity, local, size, s) && M.Inv(s.buffer) && size <= |local| && SoundSize(capacity, size)
    ensures Sound(s.buffer, local)
  {
    hide Fill, Sound, FitsWindow, SoundSize;
    ChunkedFits(capacity, size, s.lens);
    ChunkedTotal(size, s.lens);
    FillSound(capacity, Announced(local, size), s.lens);
    SoundLonger(s.buffer, local, size);
  }

  lemma {:induction false} LosslessSound(capacity: nat, local: bytes, size: nat, faults: Faults, s: Loop)
    requires InStep(capacity, local, size, s) && M.Inv(s.buffer) && CountsErrors(faults, s) && Lossless(faults)
    requires size <= |local| && SoundSize(capacity, size)
    ensures FileSound(local, size, faults, s)
    decreases size - s.offset, MAX_ERRORS - s.errors
  {
    hide Step, Fill, Chunked, Lossless, CountsErrors, Total, Sound, SoundSize;
    InStepSound(capacity, local, size, s);
    if !Done(size, s) {
      if faults(s.attempts).Some? && faults(s.attempts).value > 0 {
        LossIsLast(faults, s);
        OnlyErrors(local, size, faults, s);
      } else {
        var s' := Step(local, size, faults, s);
        StepInStep(capacity, local, size, faults, s);
        StepCountsErrors(local, size, faults, s);
        StepMoves(local, size, faults, s);
        if s'.errors < MAX_ERRORS {
          LosslessSound(capacity, local, size, faults, s');
        } else {
          InStepSound(capacity, local, size, s');
        }
      }
    }
  }

  /** Without a buffer no read returns data. */
  lemma {:induction false} NoBufferSound(local: bytes, size: nat, faults: Faults, s: Loop)
    requires s.pos <= |local| && M.Inv(s.buffer) && s.buffer.capacity == 0
    ensures FileSound(local, size, faults, s)
    decreases if s.eof then 0 else 1, size - s.offset, MAX_ERRORS - s.errors
  {
    hide M.Write;
    if !Done(size, s) {
      NoBufferSound(local, size, faults, Step(local, size, faults, s));
    }
  }

  function NoFaults(): Faults {
    (k: nat) => None
  }

  /** Without errors a file as long as announced is written whole; a sound loop is sound chunk by chunk. */
  lemma {:induction false} FaultlessRun(capacity: nat, local: bytes, size: nat, s: Loop)
    requires InStep(capacity, local, size, s) && M.Inv(s.buffer) && size <= |local| && s.errors == 0
    ensures var end := Finish(local, size, NoFaults(), s);
            && Chunked(size, end.lens) && Total(end.lens) == size
            && (FileSound(local, size, NoFaults(), s) && SoundThroughout(capacity, Announced(local, size), s.lens) ==>
                  SoundThroughout(capacity, Announced(local, size), end.lens))
    decreases size - s.offset
  {
    hide Step, Fill, Chunked, Total, Sound;
    if !Done(size, s) {
      var s' := Step(local, size, NoFaults(), s);
      StepInStep(capacity, local, size, NoFaults(), s);
      StepMoves(local, size, NoFaults(), s);
      if FileSound(local, size, NoFaults(), s) {
        assert FileSound(local, size, NoFaults(), s');
        SoundCut(s'.buffer, local, size);
      }
      FaultlessRun(capacity, local, size, s');
    }
  }

  lemma UnsoundSize(capacity: nat, size: nat, length: nat) returns (local: bytes)
    requires size <= length && !SoundSize(capacity, size)
    ensures |local| == length && !FileSound(local, size, NoFaults(), Start(capacity, size))
  {
    hide Finish, FileSound, SoundSize, Chunked, Total, SoundThroughout, InStep;
    var zeros := M.Zeros(length);
    StartInStep(capacity, zeros, size);
    FaultlessRun(capacity, zeros, size, Start(capacity, size));
    var lens := FileRun(capacity, zeros, size, NoFaults()).lens;
    ChunkedTotal(size, lens);
    ChunkedUnfit(capacity, size, lens);
    var file := UnfitMisread(capacity, size, lens);
    local := file + M.Zeros(length - size);
    assert Announced(local, size) == file;
    StartInStep(capacity, local, size);
    StartSound(capacity, local, size);
    FaultlessRun(capacity, local, size, Start(capacity, size));
    ChunkedUnique(size, lens, FileRun(capacity, local, size, NoFaults()).lens);
  }

  lemma StartSound(capacity: nat, local: bytes, size: nat)
    ensures SoundThroughout(capacity, Announced(local, size), [])
  {
  }

  // ----- When the file is shorter than announced -----

  /** Where the chunk that comes to the end of the file begins. */
  function LastOffset(length: nat): nat {
    length / CHUNK_SIZE * CHUNK_SIZE
  }

  /** If the window would start within the file but past the chunk, the file marks that place. */
  predicate MarkedFor(local: bytes, start: int, offset: nat) {
    offset < start < |local| ==> local == Marked(|local|, start)
  }

  /** The chunk cut short makes a read of bytes that are not the file's return data. */
  lemma CutChunkUnsound(s: M.State, local: bytes, size: nat, offset: nat)
    requires M.Inv(s) && s.capacity > 0 && s.total == size && s.fileOffset <= offset <= |local| && offset < size
    requires |local| < offset + ReadSize(size, offset)
    requires MarkedFor(local, offset + ReadSize(size, offset) - s.capacity, offset)
    ensures var chunk := Announced(local, size)[offset..offset + ReadSize(size, offset)];
            M.Inv(M.Write(s, offset, chunk)) && !Sound(M.Write(s, offset, chunk), local)
  {
    hide M.Write, M.Read;
    var n := ReadSize(size, offset);
    var chunk, start := Announced(local, size)[offset..offset + n], offset + n - s.capacity;
    M.WriteKeepsInv(s, offset, chunk);
    if n <= s.capacity {
      M.WrittenIsRead(s, offset, chunk);
    } else {
      LongWrite(s, offset, chunk);
      if start < |local| {
        assert chunk[0] == local[offset] == 0 && local[start] == 1;
        WrongByte(M.Write(s, offset, chunk), local, start, 0);
      }
    }
  }

  lemma {:induction false} ShortRun(capacity: nat, local: bytes, size: nat, s: Loop)
    requires InStep(capacity, local, size, s) && M.Inv(s.buffer) && |local| < size && s.errors == 0
    ensures var end := Finish(local, size, NoFaults(), s);
            && end.eof && Chunked(size, end.lens) && |local| < Total(end.lens) <= size
            && end.buffer == Fill(capacity, Announced(local, size), end.lens)
    decreases size - s.offset
  {
    hide Step, Fill, Chunked, Total, Sound, Announced;
    StepMoves(local, size, NoFaults(), s);
    if s.offset + ReadSize(size, s.offset) <= |local| {
      StepInStep(capacity, local, size, NoFaults(), s);
      ShortRun(capacity, local, size, Step(local, size, NoFaults(), s));
    } else {
      StepToEnd(capacity, local, size, NoFaults(), s);
    }
  }

  lemma {:induction false} ShortRunUnsound(capacity: nat, local: bytes, size: nat, s: Loop)
    requires InStep(capacity, local, size, s) && M.Inv(s.buffer) && |local| < size && s.errors == 0
    requires capacity > 0
    requires MarkedFor(local, LastOffset(|local|) + ReadSize(size, LastOffset(|local|)) - capacity, LastOffset(|local|))
    ensures !FileSound(local, size, NoFaults(), s)
    decreases size - s.offset
  {
    hide Step, Fill, Chunked, Total, Sound, Announced, MarkedFor;
    StepMoves(local, size, NoFaults(), s);
    if s.offset + ReadSize(size, s.offset) <= |local| {
      StepInStep(capacity, local, size, NoFaults(), s);
      ShortRunUnsound(capacity, local, size, Step(local, size, NoFaults(), s));
    } else {
      ChunkedTotal(size, s.lens);
      assert s.offset == LastOffset(|local|);
      StepToEnd(capacity, local, size, NoFaults(), s);
      FillOffset(capacity, Announced(local, size), s.lens);
      CutChunkUnsound(s.buffer, local, size, s.offset);
    }
  }

  lemma ShortUnsound(capacity: nat, size: nat, length: nat) returns (local: bytes)
    requires length < size && capacity > 0
    ensures |local| == length && !FileSound(local, size, NoFaults(), Start(capacity, size))
  {
    hide Finish, FileSound, InStep;
    var o := LastOffset(length);
    var start := o + ReadSize(size, o) - capacity;
    local := Marked(length, if start > 0 then start else 0);
    StartInStep(capacity, local, size);
    ShortRunUnsound(capacity, local, size, Start(capacity, size));
  }

  /**
   For files of this length under this announced size, reads are right at every point of every copy that loses
   nothing, if and only if there is no buffer, or the file is as long as announced and fits the buffer or is
   read in whole windows.
   */
  lemma CopySoundIff(capacity: nat, size: nat, length: nat)
    ensures (forall local: bytes, faults: Faults | |local| == length && Lossless(faults) ::
               FileSound(local, size, faults, Start(capacity, size)))
       <==> capacity == 0 || (size <= length && SoundSize(capacity, size))
  {
    hide FileSound, Lossless, SoundSize, InStep;
    if capacity == 0 || (size <= length && SoundSize(capacity, size)) {
      forall local: bytes, faults: Faults | |local| == length && Lossless(faults)
        ensures FileSound(local, size, faults, Start(capacity, size))
      {
        if capacity == 0 {
          NoBufferSound(local, size, faults, Start(capacity, size));
        } else {
          StartInStep(capacity, local, size);
          LosslessSound(capacity, local, size, faults, Start(capacity, size));
        }
      }
    } else {
      NoFaultsLossless();
      var local;
      if size <= length {
        local := UnsoundSize(capacity, size, length);
      } else {
        local := ShortUnsound(capacity, size, length);
      }
    }
  }

  lemma NoFaultsLossless()
    ensures Lossless(NoFaults())
  {
  }

  /**
   A shorter file that fits the buffer is read exactly, and past its end so are zeros, up to the end of the chunk
   that was cut short.
   */
  lemma ShorterFile(capacity: nat, local: bytes, size: nat)
    requires |local| < size <= capacity
    ensures var end := FileRun(capacity, local, size, NoFaults());
            && end.eof && |local| < Total(end.lens) <= size
            && ReadsExactly(end.buffer, local + M.Zeros(size - |local|), Total(end.lens))
  {
    hide Finish, ReadsExactly;
    StartInStep(capacity, local, size);
    ShortRun(capacity, local, size, Start(capacity, size));
    var end := FileRun(capacity, local, size, NoFaults());
    ChunkedTotal(size, end.lens);
    TotalFills(capacity, Announced(local, size), end.lens);
    ReadsOfArrived(end.buffer, Announced(local, size), Total(end.lens));
  }

  /** If the announced size fits, a copy without errors leaves reads right if and only if the file is that long. */
  lemma GenuineIffLongEnough(capacity: nat, local: bytes, size: nat)
    requires size <= capacity
    ensures Sound(FileRun(capacity, local, size, NoFaults()).buffer, local) <==> size <= |local|
  {
    hide Finish, Lossless;
    var end := FileRun(capacity, local, size, NoFaults());
    if size <= |local| {
      NoFaultsLossless();
      LosslessExact(capacity, local, size, NoFaults());
    } else {
      ShorterFile(capacity, local, size);
      assert M.Read(end.buffer, |local|, 1).Some?;
    }
  }
}
