/** The HTTP and the placeholder loop of qvs-stream, which fill the ring buffer; the network is an oracle. */
module Downloads {
  import opened Arithmetic
  import opened Bytes
  import opened Intervals
  import opened Pieces
  import opened Sequential
  import M = RingBufferModel
  import opened RB = RingBuffer
  import opened Wrappers

  const CHUNK_SIZE: nat := 65536
  const MAX_ERRORS: nat := 10

  /** What one ranged GET brings: a non-empty body, a success without bytes, a bad status, or no answer. */
  datatype Response = Body(data: bytes) | EmptyBody | BadStatus | NetworkError

  /** The k-th request, made at an offset, and what comes back. */
  type Server = (nat, nat) -> Response

  /** The request brings no bytes. */
  ghost predicate Failed(server: Server, k: nat, offset: nat) {
    !(server(k, offset).Body? && server(k, offset).data != [])
  }

  /** Every successful body is the file's own bytes from the requested offset on. */
  ghost predicate Honest(server: Server, file: bytes) {
    forall k: nat, offset: nat | offset < |file| && server(k, offset).Body? ::
      server(k, offset).data <= file[offset..]
  }

  /** One `buf.write` of a download loop: what the buffer agreed with is painted over. */
  method WriteChunk(buffer: RingBuffer, offset: nat, chunk: bytes, ghost image: M.Picture)
    requires buffer.Valid()
    modifies buffer.Repr()
    ensures buffer.Valid() && fresh(buffer.Repr() - old(buffer.Repr()))
    ensures buffer.State() == M.Write(old(buffer.State()), offset, chunk)
    ensures M.InFirstWindow(buffer.capacity, buffer.totalSize, offset, chunk) ==>
              old(M.Agrees(buffer.State(), image)) ==>
              M.Agrees(buffer.State(), M.Paint(image, offset, chunk))
  {
    if M.InFirstWindow(buffer.capacity, buffer.totalSize, offset, chunk) && M.Agrees(buffer.State(), image) {
      M.WriteAgrees(buffer.State(), image, offset, chunk);
    }
    buffer.Write(offset, chunk);
  }

  /** The variables of the loop, and the lengths of the bodies written so far. */
  datatype Control = Control(offset: nat, errors: nat, requests: nat, lens: seq<nat>)

  datatype HttpLoop = HttpLoop(control: Control, buffer: M.State)

  /** After a request that brought `n` bytes. */
  function Advance(c: Control, n: nat): Control {
    if n > 0 then Control(c.offset + n, 0, c.requests + 1, c.lens + [n])
    else c.(errors := c.errors + 1, requests := c.requests + 1)
  }

  predicate Over(size: nat, c: Control) {
    c.offset >= size || c.errors >= MAX_ERRORS
  }

  function HttpStep(server: Server, s: HttpLoop): (s': HttpLoop)
    requires M.Inv(s.buffer)
    ensures M.Inv(s'.buffer) && s'.buffer.capacity == s.buffer.capacity && s'.buffer.total == s.buffer.total
  {
    var response := server(s.control.requests, s.control.offset);
    if response.Body? && response.data != [] then
      M.WriteKeepsInv(s.buffer, s.control.offset, response.data);
      HttpLoop(Advance(s.control, |response.data|), M.Write(s.buffer, s.control.offset, response.data))
    else HttpLoop(Advance(s.control, 0), s.buffer)
  }

  ghost function HttpFinish(size: nat, server: Server, s: HttpLoop): HttpLoop
    requires M.Inv(s.buffer)
    decreases size - s.control.offset, MAX_ERRORS - s.control.errors
  {
    if Over(size, s.control) then s else HttpFinish(size, server, HttpStep(server, s))
  }

  ghost function HttpStart(capacity: nat, size: nat): (s: HttpLoop)
    ensures M.Inv(s.buffer)
  {
    M.NewAgrees(capacity, size);
    HttpLoop(Control(0, 0, 0, []), M.New(capacity, size))
  }

  ghost function HttpRun(capacity: nat, size: nat, server: Server): HttpLoop {
    HttpFinish(size, server, HttpStart(capacity, size))
  }

  lemma HttpRunIs(capacity: nat, size: nat, server: Server)
    ensures HttpRun(capacity, size, server) == HttpFinish(size, server, HttpStart(capacity, size))
  {
  }

  lemma HttpFinishStep(size: nat, server: Server, s: HttpLoop)
    requires M.Inv(s.buffer)
    ensures HttpFinish(size, server, s)
            == if Over(size, s.control) then s else HttpFinish(size, server, HttpStep(server, s))
  {
  }

  /**
   `run_http_download_loop`. It ends on every response sequence after at most ten requests a byte, gives up only
   when the last ten requests failed one after the other, and leaves exactly the state of the modelled run.
   */
  method RunHttpDownload(buffer: RingBuffer, size: nat, server: Server)
    returns (offset: nat, errors: nat, requests: nat)
    requires buffer.Valid() && buffer.State() == M.New(buffer.capacity, size)
    modifies buffer.Repr()
    ensures buffer.Valid() && fresh(buffer.Repr() - old(buffer.Repr()))
    ensures offset >= size || errors == MAX_ERRORS
    ensures requests <= MAX_ERRORS * size
    ensures offset < size ==> 10 <= requests && forall k :: requests - 10 <= k < requests ==> Failed(server, k, offset)
    ensures var end := HttpRun(buffer.capacity, size, server);
            && Control(offset, errors, requests, end.control.lens) == end.control
            && buffer.State() == end.buffer
  {
    hide M.Write, M.New, HttpFinish, HttpRun;
    offset, errors, requests := 0, 0, 0;
    ghost var s := HttpStart(buffer.capacity, size);
    HttpRunIs(buffer.capacity, size, server);
    while offset < size
      invariant buffer.Valid() && fresh(buffer.Repr() - old(buffer.Repr()))
      invariant s == HttpLoop(Control(offset, errors, requests, s.control.lens), buffer.State())
      invariant HttpRun(buffer.capacity, size, server) == HttpFinish(size, server, s)
      invariant errors < MAX_ERRORS && (offset >= size ==> errors == 0)
      invariant requests <= MAX_ERRORS * Min(offset, size) + errors
      invariant errors <= requests && forall k :: requests - errors <= k < requests ==> Failed(server, k, offset)
      decreases size - offset, MAX_ERRORS - errors
    {
      var response := server(requests, offset);
      HttpFinishStep(size, server, s);
      s := HttpStep(server, s);
      requests := requests + 1;
      if response.Body? && response.data != [] {
        errors := 0;
        buffer.Write(offset, response.data);
        offset := offset + |response.data|;
      } else {
        errors := errors + 1;
      }
      if errors >= MAX_ERRORS {
        break;
      }
    }
    HttpFinishStep(size, server, s);
  }

  // ----- What an honest server leaves in the buffer -----

  /** How many bytes the k-th request brings if it is made at an offset. */
  type Lengths = (nat, nat) -> nat

  function BodyLen(size: nat, lengths: Lengths, c: Control): nat
    requires c.offset < size
  {
    Min(lengths(c.requests, c.offset), size - c.offset)
  }

  ghost function Course(size: nat, lengths: Lengths, c: Control): Control
    decreases size - c.offset, MAX_ERRORS - c.errors
  {
    if Over(size, c) then c else Course(size, lengths, Advance(c, BodyLen(size, lengths, c)))
  }

  /** The bodies a run of these lengths writes, whatever the file. */
  ghost function Bodies(size: nat, lengths: Lengths): seq<nat> {
    Course(size, lengths, Control(0, 0, 0, [])).lens
  }

  /** Each request brings that many of the file's own bytes from its offset on. */
  ghost predicate Serves(server: Server, file: bytes, lengths: Lengths) {
    forall k: nat, offset: nat | offset < |file| ::
      var n := Min(lengths(k, offset), |file| - offset);
      if n > 0 then server(k, offset) == Body(file[offset..offset + n])
      else !server(k, offset).Body? || server(k, offset).data == []
  }

  function LengthsOf(server: Server): Lengths {
    (k: nat, offset: nat) => if server(k, offset).Body? then |server(k, offset).data| else 0
  }

  lemma HonestServes(server: Server, file: bytes)
    requires Honest(server, file)
    ensures Serves(server, file, LengthsOf(server))
  {
    forall k: nat, offset: nat | offset < |file|
      ensures var n := Min(LengthsOf(server)(k, offset), |file| - offset);
              if n > 0 then server(k, offset) == Body(file[offset..offset + n])
              else !server(k, offset).Body? || server(k, offset).data == []
    {
    }
  }

  function ServerOf(file: bytes, lengths: Lengths): Server {
    (k: nat, offset: nat) =>
      if offset < |file| then Body(file[offset..offset + Min(lengths(k, offset), |file| - offset)]) else EmptyBody
  }

  lemma ServerOfServes(file: bytes, lengths: Lengths)
    ensures Serves(ServerOf(file, lengths), file, lengths) && Honest(ServerOf(file, lengths), file)
  {
  }

  /** The loop is where these bodies take it, and the buffer holds them. */
  ghost predicate OnCourse(s: HttpLoop, capacity: nat, file: bytes) {
    && Cuts(s.control.lens, |file|) && s.control.offset == Total(s.control.lens)
    && s.buffer == Fill(capacity, file, s.control.lens)
  }

  lemma StepOnCourse(s: HttpLoop, capacity: nat, file: bytes, server: Server, lengths: Lengths)
    requires OnCourse(s, capacity, file) && Serves(server, file, lengths) && !Over(|file|, s.control)
    ensures var s' := HttpStep(server, s);
            && OnCourse(s', capacity, file)
            && s'.control == Advance(s.control, BodyLen(|file|, lengths, s.control))
            && (s'.control.lens == s.control.lens || s'.control.lens[..|s'.control.lens| - 1] == s.control.lens)
            && (s'.control.lens == s.control.lens ==> s'.buffer == s.buffer)
  {
    hide Fill, M.Write, Serves, Cuts, Total, M.Inv;
    Served(server, file, lengths, s.control.requests, s.control.offset);
    var n := BodyLen(|file|, lengths, s.control);
    if n > 0 {
      FillSnoc(capacity, file, s.control.lens, n);
      CutsSnoc(s.control.lens, n, |file|);
      assert (s.control.lens + [n])[..|s.control.lens|] == s.control.lens;
    }
  }

  lemma Served(server: Server, file: bytes, lengths: Lengths, k: nat, offset: nat)
    requires Serves(server, file, lengths) && offset < |file|
    ensures var n := Min(lengths(k, offset), |file| - offset);
            if n > 0 then server(k, offset) == Body(file[offset..offset + n])
            else !server(k, offset).Body? || server(k, offset).data == []
  {
  }

  /** Every read is right at every point from here on. */
  ghost predicate HttpSound(file: bytes, server: Server, s: HttpLoop)
    requires M.Inv(s.buffer)
    decreases |file| - s.control.offset, MAX_ERRORS - s.control.errors
  {
    Sound(s.buffer, file) && (!Over(|file|, s.control) ==> HttpSound(file, server, HttpStep(server, s)))
  }

  lemma {:induction false} HttpCourse(s: HttpLoop, capacity: nat, file: bytes, server: Server, lengths: Lengths)
    requires OnCourse(s, capacity, file) && Serves(server, file, lengths)
    ensures var end := HttpFinish(|file|, server, s);
            && OnCourse(end, capacity, file) && end.control == Course(|file|, lengths, s.control)
            && (SoundThroughout(capacity, file, end.control.lens)
                <==> SoundThroughout(capacity, file, s.control.lens) && HttpSound(file, server, s))
    decreases |file| - s.control.offset, MAX_ERRORS - s.control.errors
  {
    hide Fill, Sound, HttpStep;
    if !Over(|file|, s.control) {
      StepOnCourse(s, capacity, file, server, lengths);
      HttpCourse(HttpStep(server, s), capacity, file, server, lengths);
    }
  }

  lemma RunIsCourse(capacity: nat, file: bytes, server: Server, lengths: Lengths)
    requires Serves(server, file, lengths)
    ensures var end := HttpRun(capacity, |file|, server);
            OnCourse(end, capacity, file) && end.control.lens == Bodies(|file|, lengths)
    ensures Cuts(Bodies(|file|, lengths), |file|)
    ensures HttpSound(file, server, HttpStart(capacity, |file|))
       <==> SoundThroughout(capacity, file, Bodies(|file|, lengths))
  {
    hide Serves, HttpFinish, Course, HttpStep;
    var s := HttpStart(capacity, |file|);
    HttpCourse(s, capacity, file, server, lengths);
    assert HttpSound(file, server, s) ==> Sound(s.buffer, file);
    assert SoundThroughout(capacity, file, s.control.lens) <==> Sound(s.buffer, file);
  }

  /**
   With an honest server the buffer holds the bodies one after the other: exactly the file so far while that
   fits, and exactly the last window of it if every body that ends past the first window is one window long.
   */
  lemma HonestRun(capacity: nat, file: bytes, server: Server)
    requires Honest(server, file)
    ensures var end := HttpRun(capacity, |file|, server);
            && OnCourse(end, capacity, file) && end.control.lens == Bodies(|file|, LengthsOf(server))
            && (capacity > 0 && FitsWindow(capacity, end.control.lens) ==>
                  InOrder(end.buffer, file, end.control.offset))
            && (end.control.offset <= capacity ==> M.Agrees(end.buffer, Arrived(file, end.control.offset)))
  {
    hide HttpRun, Bodies, FitsWindow, M.Agrees, Fill;
    HonestServes(server, file);
    RunIsCourse(capacity, file, server, LengthsOf(server));
    var end := HttpRun(capacity, |file|, server);
    if end.control.offset <= capacity {
      TotalFills(capacity, file, end.control.lens);
    }
    if capacity > 0 && FitsWindow(capacity, end.control.lens) {
      FillInOrder(capacity, file, end.control.lens);
    }
  }

  lemma HttpMisread(capacity: nat, size: nat, lengths: Lengths) returns (file: bytes, server: Server)
    requires !FitsWindow(capacity, Bodies(size, lengths))
    ensures |file| == size && Serves(server, file, lengths) && !HttpSound(file, server, HttpStart(capacity, size))
  {
    hide Bodies, Serves, HttpSound, SoundThroughout, FitsWindow, HttpRun;
    ServerOfServes(M.Zeros(size), lengths);
    RunIsCourse(capacity, M.Zeros(size), ServerOf(M.Zeros(size), lengths), lengths);
    file := UnfitMisread(capacity, size, Bodies(size, lengths));
    server := ServerOf(file, lengths);
    ServerOfServes(file, lengths);
    RunIsCourse(capacity, file, server, lengths);
  }

  /**
   For bodies of these lengths every read is right at every point of the download of every file of the size, if
   and only if each body ends within the first window or is exactly as long as the window.
   */
  lemma HttpSoundIff(capacity: nat, size: nat, lengths: Lengths)
    ensures (forall file: bytes, server: Server | |file| == size && Serves(server, file, lengths) ::
               HttpSound(file, server, HttpStart(capacity, size)))
       <==> FitsWindow(capacity, Bodies(size, lengths))
  {
    hide Bodies, Serves, HttpSound, SoundThroughout, FitsWindow, HttpRun;
    if FitsWindow(capacity, Bodies(size, lengths)) {
      forall file: bytes, server: Server | |file| == size && Serves(server, file, lengths)
        ensures HttpSound(file, server, HttpStart(capacity, size))
      {
        RunIsCourse(capacity, file, server, lengths);
        FillSound(capacity, file, Bodies(size, lengths));
      }
    } else {
      var file, server := HttpMisread(capacity, size, lengths);
    }
  }

  // ----- Bodies shorter than the window -----

  /** No request made within the file brings a whole window. */
  ghost predicate ShortBodies(server: Server, size: nat, capacity: nat) {
    forall k: nat, offset: nat | offset < size && server(k, offset).Body? :: |server(k, offset).data| < capacity
  }

  ghost predicate AllBelow(lens: seq<nat>, bound: nat) {
    forall i :: 0 <= i < |lens| ==> 0 < lens[i] < bound
  }

  lemma {:induction false} CourseBelow(size: nat, lengths: Lengths, c: Control, bound: nat)
    requires AllBelow(c.lens, bound) && forall k: nat, offset: nat | offset < size :: lengths(k, offset) < bound
    ensures AllBelow(Course(size, lengths, c).lens, bound)
    decreases size - c.offset, MAX_ERRORS - c.errors
  {
    if !Over(size, c) {
      CourseBelow(size, lengths, Advance(c, BodyLen(size, lengths, c)), bound);
    }
  }

  /** If every request brings something, the whole file arrives. */
  lemma {:induction false} CourseEnds(size: nat, lengths: Lengths, c: Control)
    requires c.errors < MAX_ERRORS && forall k: nat, offset: nat | offset < size :: lengths(k, offset) > 0
    ensures Course(size, lengths, c).offset >= size
    decreases size - c.offset
  {
    if !Over(size, c) {
      CourseEnds(size, lengths, Advance(c, BodyLen(size, lengths, c)));
    }
  }

  lemma {:induction false} CourseTotal(size: nat, lengths: Lengths, c: Control)
    requires c.offset == Total(c.lens)
    ensures var end := Course(size, lengths, c); end.offset == Total(end.lens)
    decreases size - c.offset, MAX_ERRORS - c.errors
  {
    if !Over(size, c) {
      var n := BodyLen(size, lengths, c);
      TotalSnoc(c.lens, n);
      CourseTotal(size, lengths, Advance(c, n));
    }
  }

  /**
   With honest bodies shorter than the window, reads stay right in every download of the size if and only if
   the file fits the buffer (or the window is too small for any such body).
   */
  lemma ShortBodiesSoundIff(capacity: nat, size: nat)
    ensures (forall file: bytes, server: Server |
               |file| == size && Honest(server, file) && ShortBodies(server, size, capacity) ::
               HttpSound(file, server, HttpStart(capacity, size)))
       <==> size <= capacity || capacity <= 1
  {
    hide HttpSound, Serves, FitsWindow;
    if size <= capacity || capacity <= 1 {
      forall file: bytes, server: Server |
        |file| == size && Honest(server, file) && ShortBodies(server, size, capacity)
        ensures HttpSound(file, server, HttpStart(capacity, size))
      {
        ShortBodiesSound(capacity, file, server);
      }
    } else {
      var lengths: Lengths := (k: nat, offset: nat) => 1;
      var begin := Control(0, 0, 0, []);
      CourseBelow(size, lengths, begin, capacity);
      CourseEnds(size, lengths, begin);
      CourseTotal(size, lengths, begin);
      ShortChunksFit(capacity, Bodies(size, lengths));
      var file, server := HttpMisread(capacity, size, lengths);
      ServesHonest(server, file, lengths);
    }
  }

  lemma ServesHonest(server: Server, file: bytes, lengths: Lengths)
    requires Serves(server, file, lengths)
    ensures Honest(server, file)
    ensures forall k: nat, offset: nat | offset < |file| && server(k, offset).Body? ::
              |server(k, offset).data| <= lengths(k, offset)
  {
  }

  lemma ShortBodiesSound(capacity: nat, file: bytes, server: Server)
    requires Honest(server, file) && ShortBodies(server, |file|, capacity) && (|file| <= capacity || capacity <= 1)
    ensures HttpSound(file, server, HttpStart(capacity, |file|))
  {
    hide HttpSound, Serves, HttpRun, FitsWindow, SoundThroughout;
    var lens := Bodies(|file|, LengthsOf(server));
    HonestServes(server, file);
    RunIsCourse(capacity, file, server, LengthsOf(server));
    if capacity == 1 {
      CourseBelow(|file|, LengthsOf(server), Control(0, 0, 0, []), 1);
      assert lens == [];
    }
    SmallTotalFits(capacity, lens);
    FillSound(capacity, file, lens);
  }

  // ----- The placeholder loop of a qvod stream -----

  ghost predicate AllZero(data: bytes) {
    forall i :: 0 <= i < |data| ==> data[i] == 0
  }

  lemma NewIsZero(capacity: nat, total: nat)
    ensures AllZero(M.New(capacity, total).data)
  {
  }

  lemma ZeroRoom(s: M.State, offset: nat, len: nat)
    requires M.Inv(s) && AllZero(s.data)
    ensures AllZero(M.MakeRoom(s, offset, len).data)
  {
    hide M.ShiftRanges;
    var s1 := if offset < s.fileOffset then M.SlideTo(s, offset) else s;
    assert AllZero(s1.data);
  }

  /** A buffer of zeros stays one when zeros are written, however far it slides. */
  lemma ZeroWrite(s: M.State, offset: nat, n: nat)
    requires M.Inv(s) && AllZero(s.data)
    ensures AllZero(M.Write(s, offset, M.Zeros(n)).data)
  {
    hide M.MakeRoom, Merge;
    if offset < s.total && n > 0 {
      var cut := M.Zeros(n)[..Min(offset + n, s.total) - offset];
      ZeroRoom(s, offset, |cut|);
      assert AllZero(M.Copy(M.MakeRoom(s, offset, |cut|), offset, cut));
    }
  }

  lemma ZerosSound(s: M.State)
    requires M.Inv(s) && AllZero(s.data)
    ensures Sound(s, M.Zeros(s.total))
  {
    forall offset: nat, length: nat | length > 0 && M.Read(s, offset, length).Some?
      ensures offset + length <= s.total
      ensures M.Read(s, offset, length) == Some(M.Zeros(s.total)[offset..offset + length])
    {
      assert M.Read(s, offset, length).value == M.Zeros(s.total)[offset..offset + length];
    }
  }

  /**
   `run_download_loop` writes zero pieces. When the piece count fits 32 bits and the file fits the buffer,
   the pieces tile the file exactly: every byte of it is there, and it is zero.
   */
  method RunDownload(buffer: RingBuffer, fileSize: nat, pieceLength: nat)
    requires buffer.Valid() && buffer.State() == M.New(buffer.capacity, fileSize)
    modifies buffer.Repr()
    ensures buffer.Valid() && fresh(buffer.Repr() - old(buffer.Repr()))
    ensures 0 < pieceLength && (fileSize + pieceLength - 1) / pieceLength < 0x1_0000_0000 && fileSize <= buffer.capacity
            ==> M.Agrees(buffer.State(), Arrived(M.Zeros(fileSize), fileSize))
    ensures Sound(buffer.State(), M.Zeros(fileSize))
  {
    hide M.Agrees, AllZero, M.Write, Sound;
    NewIsZero(buffer.capacity, fileSize);
    var pieceCount := if pieceLength > 0 then PieceCount(fileSize, pieceLength) else 0;
    var currentPiece := 0;
    ghost var file := M.Zeros(fileSize);
    ghost var fits := 0 < pieceLength && (fileSize + pieceLength - 1) / pieceLength < 0x1_0000_0000
                      && fileSize <= buffer.capacity;
    ghost var done: nat := 0;
    assert Arrived(file, 0) == M.Blank(fileSize);
    M.NewAgrees(buffer.capacity, fileSize);
    if fits && fileSize > 0 {
      CeilDiv(fileSize, pieceLength);
    } else if fits {
      DivUnique(pieceLength - 1, pieceLength, 0, pieceLength - 1);
    }
    while currentPiece < pieceCount
      invariant buffer.Valid() && fresh(buffer.Repr() - old(buffer.Repr())) && buffer.totalSize == fileSize
      invariant currentPiece <= pieceCount && AllZero(buffer.State().data)
      invariant fits ==> done <= fileSize && M.Agrees(buffer.State(), Arrived(file, done))
      invariant fits && currentPiece < pieceCount ==> done == currentPiece * pieceLength
      invariant fits && currentPiece == pieceCount ==> done == fileSize
    {
      var pieceLen := PieceLen(fileSize, pieceLength, pieceCount, currentPiece);
      var pieceData := M.Zeros(pieceLen);
      var offset := currentPiece * pieceLength;
      ZeroWrite(buffer.State(), offset, pieceLen);
      WriteChunk(buffer, offset, pieceData, Arrived(file, done));
      if fits {
        TileStep(fileSize, pieceLength, pieceCount, currentPiece);
        assert pieceData <= file[offset..];
        PaintArrived(file, offset, pieceData);
        done := done + pieceLen;
      }
      currentPiece := currentPiece + 1;
    }
    ZerosSound(buffer.State());
  }
}
