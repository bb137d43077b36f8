/** The ring buffer of qvs-stream: a byte window over a file and the ranges believed filled. */
module RingBuffer {
  import opened Wrappers
  import opened Bytes
  import opened Intervals
  import M = RingBufferModel

  class RingBuffer {
    const capacity: nat
    const totalSize: nat
    var data: array<byte>
    var fileOffset: nat
    var filled: seq<Range>
    var playPosition: nat

    ghost function Repr(): set<object>
      reads this
    {
      {this, data}
    }

    ghost function State(): M.State
      reads this, data
    {
      M.State(capacity, totalSize, data[..], fileOffset, filled, playPosition)
    }

    ghost predicate Valid()
      reads this, data
    {
      M.Inv(State())
    }

    constructor (capacity: nat, totalSize: nat)
      ensures Valid() && fresh(Repr())
      ensures State() == M.New(capacity, totalSize)
    {
      this.capacity := capacity;
      this.totalSize := totalSize;
      data := new byte[capacity](_ => 0);
      fileOffset := 0;
      filled := [];
      playPosition := 0;
    }

    method Write(offset: nat, chunk: bytes)
      requires Valid()
      modifies Repr()
      ensures Valid() && fresh(Repr() - old(Repr()))
      ensures State() == M.Write(old(State()), offset, chunk)
    {
      if offset >= totalSize || chunk == [] {
        return;
      }
      M.WriteParts(State(), offset, chunk);
      var end := Min(offset + |chunk|, totalSize);
      var cut := chunk[..end - offset];
      MakeRoom(offset, |cut|);
      Store(offset, cut);
    }

    /** The copy and the bookkeeping of `write`, once there is room. */
    method Store(offset: nat, cut: bytes)
      requires Valid() && cut != [] && offset + |cut| <= totalSize
      modifies Repr()
      ensures Repr() == old(Repr())
      ensures State() == M.Store(old(State()), offset, cut)
    {
      var bufOffset := M.Sub(offset, fileOffset);
      if bufOffset < capacity {
        CopyIn(bufOffset, Min(|cut|, capacity - bufOffset), cut);
      }
      MergeRange(offset, offset + |cut|);
    }

    /** The sliding part of `write`. */
    method MakeRoom(offset: nat, len: nat)
      requires Valid()
      modifies Repr()
      ensures Valid() && fresh(Repr() - old(Repr()))
      ensures State() == M.MakeRoom(old(State()), offset, len)
    {
      if offset < fileOffset {
        SlideTo(offset);
      }
      if offset + len > fileOffset + capacity {
        var newStart := M.Sub(offset + len, capacity);
        newStart := Min(newStart, M.Sub(totalSize, capacity));
        SlideTo(newStart);
      }
    }

    method CopyIn(at: nat, n: nat, chunk: bytes)
      requires at + n <= data.Length && n <= |chunk|
      modifies data
      ensures data[..] == old(data[..])[..at] + chunk[..n] + old(data[..])[at + n..]
    {
      forall k | 0 <= k < n {
        data[at + k] := chunk[k];
      }
    }

    method Read(offset: nat, length: nat) returns (r: Option<bytes>)
      requires Valid()
      ensures r == M.Read(State(), offset, length)
    {
      var isFilled := IsRangeFilled(offset, length);
      if !isFilled {
        return None;
      }
      var start := M.Sub(offset, fileOffset);
      if start + length > capacity {
        return None;
      }
      r := Some(data[start..start + length]);
      assert data[start..start + length] == data[..][start..start + length];
    }

    /** For a non-empty query this is byte-by-byte coverage, although one interval has to span it. */
    method IsRangeFilled(offset: nat, length: nat) returns (b: bool)
      requires Valid()
      ensures b == M.IsRangeFilled(filled, offset, length)
      ensures length > 0 ==> (b <==> forall x :: offset <= x < offset + length ==> Covered(filled, x))
    {
      if length > 0 {
        SpannedIffCovered(filled, totalSize, offset, length);
      }
      var end := offset + length;
      for i := 0 to |filled|
        invariant forall j :: 0 <= j < i ==> !(filled[j].start <= offset && end <= filled[j].end)
      {
        if filled[i].start <= offset && filled[i].end >= end {
          return true;
        }
      }
      return false;
    }

    /** Whether the head of the file (at most 262144 bytes and one window) is there. */
    method IsPlayable() returns (b: bool)
      requires Valid()
      ensures var head := Min(Min(totalSize, 262144), capacity);
              b == M.IsRangeFilled(filled, 0, head)
      ensures var head := Min(Min(totalSize, 262144), capacity);
              head > 0 ==> (b <==> forall x :: 0 <= x < head ==> Covered(filled, x))
    {
      var headLen := Min(Min(totalSize, 262144), capacity);
      b := IsRangeFilled(0, headLen);
    }

    method FilledAfter(offset: nat) returns (total: nat)
      requires Valid()
      ensures total == Count(filled, offset, totalSize)
    {
      total := 0;
      CountEmpty(offset, totalSize);
      for i := 0 to |filled|
        invariant total == Count(filled[..i], offset, totalSize)
      {
        PrefixApart(filled, i, totalSize);
        CountSnoc(filled[..i], filled[i], offset, totalSize);
        var range := filled[i];
        if range.start >= offset {
          total := total + (range.end - range.start);
        } else if range.end > offset {
          total := total + (range.end - offset);
        }
      }
      assert filled[..|filled|] == filled;
    }

    method FilledBefore(offset: nat) returns (total: nat)
      requires Valid()
      ensures total == Count(filled, 0, offset)
    {
      total := 0;
      CountEmpty(0, offset);
      var i := 0;
      while i < |filled|
        invariant 0 <= i <= |filled|
        invariant total == Count(filled[..i], 0, offset)
      {
        PrefixApart(filled, i, totalSize);
        CountSnoc(filled[..i], filled[i], 0, offset);
        var range := filled[i];
        if range.end <= offset {
          total := total + (range.end - range.start);
        } else if range.start < offset {
          total := total + (offset - range.start);
        } else {
          RestBeyond(filled, i, offset, totalSize);
          return;
        }
        i := i + 1;
      }
      assert filled[..|filled|] == filled;
    }

    /** The sum behind `filled_percentage`. */
    method TotalFilled() returns (total: nat)
      requires Valid()
      ensures total == Count(filled, 0, totalSize)
    {
      total := FilledAfter(0);
    }

    /** `filled_percentage` without rounding: 1 exactly when every byte of the file is filled. */
    method FilledPercentage() returns (p: real)
      requires Valid()
      ensures totalSize > 0 ==> p == Count(filled, 0, totalSize) as real / totalSize as real
      ensures 0.0 <= p <= 1.0 && (p == 1.0 <==> forall x :: 0 <= x < totalSize ==> Covered(filled, x))
    {
      if totalSize == 0 {
        return 1.0;
      }
      var total := TotalFilled();
      CountAtMost(filled, 0, totalSize);
      Fraction(total, totalSize);
      p := total as real / totalSize as real;
    }

    method SetPlayPosition(position: nat)
      requires Valid()
      modifies this`playPosition
      ensures Valid() && Repr() == old(Repr())
      ensures State() == old(State()).(play := position)
    {
      playPosition := position;
    }

    method Clear()
      requires Valid()
      modifies Repr()
      ensures Valid() && Repr() == old(Repr())
      ensures State() == M.Clear(old(State()))
      ensures filled == [] && fileOffset == 0 && playPosition == 0 && forall i :: 0 <= i < data.Length ==> data[i] == 0
    {
      filled := [];
      forall k | 0 <= k < data.Length {
        data[k] := 0;
      }
      fileOffset := 0;
      playPosition := 0;
      assert data[..] == M.Zeros(capacity);
    }

    method SlideTo(newOffset: nat)
      requires Valid()
      modifies Repr()
      ensures Valid() && fresh(Repr() - old(Repr()))
      ensures State() == M.SlideTo(old(State()), newOffset)
    {
      M.SlideKeepsInv(State(), newOffset);
      if newOffset == fileOffset {
        return;
      }
      if newOffset < fileOffset {
        var shiftBack := fileOffset - newOffset;
        if shiftBack >= capacity {
          ClearWindow();
          fileOffset := newOffset;
          return;
        }
        var newData := MovedUp(shiftBack);
        data := newData;
        filled := ShiftFilled(shiftBack, None);
        fileOffset := newOffset;
        return;
      }
      var shift := newOffset - fileOffset;
      if shift >= capacity {
        ClearWindow();
      } else {
        var newData := MovedDown(shift);
        data := newData;
      }
      filled := ShiftFilled(newOffset, Some(capacity));
      fileOffset := newOffset;
    }

    method MovedUp(shift: nat) returns (newData: array<byte>)
      requires shift <= capacity == data.Length
      ensures fresh(newData) && newData[..] == M.Zeros(shift) + data[..][..capacity - shift]
    {
      newData := new byte[capacity](_ => 0);
      forall k | shift <= k < capacity {
        newData[k] := data[k - shift];
      }
    }

    method MovedDown(shift: nat) returns (newData: array<byte>)
      requires shift <= capacity == data.Length
      ensures fresh(newData) && newData[..] == data[..][shift..] + M.Zeros(shift)
    {
      newData := new byte[capacity](_ => 0);
      forall k | 0 <= k < capacity - shift {
        newData[k] := data[shift + k];
      }
    }

    method ClearWindow()
      requires Valid()
      modifies Repr()
      ensures data == old(data) && fileOffset == old(fileOffset) && playPosition == old(playPosition)
      ensures filled == [] && data[..] == M.Zeros(capacity)
    {
      filled := [];
      forall k | 0 <= k < data.Length {
        data[k] := 0;
      }
    }

    /** The rebuilding loop of `slide_to`. */
    method ShiftFilled(shift: nat, cap: Option<nat>) returns (newFilled: seq<Range>)
      requires Canonical(filled, totalSize)
      ensures newFilled == M.ShiftRanges(filled, shift, cap)
    {
      newFilled := [];
      M.ShiftRangesCanonical(filled, shift, cap, totalSize);
      for i := 0 to |filled|
        invariant newFilled + M.ShiftRanges(filled[i..], shift, cap) == M.ShiftRanges(filled, shift, cap)
      {
        var newStart := M.Sub(filled[i].start, shift);
        var newEnd := M.Sub(filled[i].end, shift);
        assert filled[i..][0] == filled[i] && filled[i..][1..] == filled[i + 1..];
        if newEnd > newStart && (cap.Some? ==> newStart < cap.value) {
          var range := Range(newStart, if cap.Some? then Min(newEnd, cap.value) else newEnd);
          NextRange(newFilled, range, M.ShiftRanges(filled[i + 1..], shift, cap), totalSize);
          newFilled := InsertRange(newFilled, range);
        }
      }
    }

    /** The new range replaces every range it touches, grown to cover them. */
    method MergeRange(start: nat, end: nat)
      requires Valid() && end <= totalSize
      modifies this`filled
      ensures filled == if start < end then Merge(old(filled), start, end) else old(filled)
    {
      if end <= start {
        return;
      }
      var toRemove, newStart, newEnd, left, right := CollectTouching(filled, start, end, totalSize);
      assert filled == left + (toRemove + right);
      CanonicalParts(left, toRemove + right, totalSize);
      CanonicalParts(toRemove, right, totalSize);
      assert right != [] ==> (toRemove + right)[|toRemove|] == right[0];
      assert forall k :: 0 <= k < |toRemove| ==> (toRemove + right)[k] == toRemove[k];
      MergeBlock(left, toRemove, right, start, end, totalSize);
      Regroup(left, Range(newStart, newEnd), right);
      InsertMiddle(left, Range(newStart, newEnd), right);
      RemoveAll(toRemove, left, right);
      filled := InsertRange(filled, Range(newStart, newEnd));
    }

    method RemoveAll(toRemove: seq<Range>, ghost left: seq<Range>, ghost right: seq<Range>)
      requires filled == left + toRemove + right
      requires forall i, k :: 0 <= i < |left| && 0 <= k < |toRemove| ==> left[i].start < toRemove[k].start
      modifies this`filled
      ensures filled == left + right
    {
      for k := 0 to |toRemove|
        invariant filled == left + toRemove[k..] + right
      {
        RemoveFirst(left, toRemove[k..], right);
        filled := RemoveRange(filled, toRemove[k]);
      }
    }
  }

  lemma Fraction(part: nat, whole: nat)
    requires part <= whole && whole > 0
    ensures 0.0 <= part as real / whole as real <= 1.0
    ensures part as real / whole as real == 1.0 <==> part == whole
  {
    var q := part as real / whole as real;
    assert q * whole as real == part as real;
  }

  lemma Regroup(left: seq<Range>, r: Range, right: seq<Range>)
    ensures left + ([r] + right) == left + [r] + right
  {
  }

  lemma RemoveFirst(left: seq<Range>, mid: seq<Range>, right: seq<Range>)
    requires mid != []
    requires forall i :: 0 <= i < |left| ==> left[i].start != mid[0].start
    ensures RemoveRange(left + mid + right, mid[0]) == left + mid[1..] + right
  {
    assert left + mid + right == left + [mid[0]] + (mid[1..] + right);
    RemoveMiddle(left, mid[0], mid[1..] + right);
    assert left + mid[1..] + right == left + (mid[1..] + right);
  }

  /** `left` ends before [start, end), `mid` touches it, `right` begins after it. */
  ghost predicate Parted(left: seq<Range>, mid: seq<Range>, right: seq<Range>, start: nat, end: nat) {
    && (forall j :: 0 <= j < |left| ==> left[j].end < start)
    && (forall j :: 0 <= j < |mid| ==> mid[j].start <= end && start <= mid[j].end)
    && (right != [] ==> end < right[0].start)
  }

  ghost function Grown(mid: seq<Range>, start: nat, end: nat): Range {
    if mid == [] then Range(start, end) else Range(Min(start, mid[0].start), Max(end, mid[|mid| - 1].end))
  }

  /** The single pass of `merge_range`: it grows the range while it collects what the range touches. */
  method CollectTouching(filled: seq<Range>, start: nat, end: nat, ghost total: nat)
    returns (toRemove: seq<Range>, newStart: nat, newEnd: nat, ghost left: seq<Range>, ghost right: seq<Range>)
    requires Canonical(filled, total) && start < end
    ensures filled == left + toRemove + right && Parted(left, toRemove, right, start, end)
    ensures Range(newStart, newEnd) == Grown(toRemove, start, end)
  {
    newStart, newEnd := start, end;
    toRemove, left, right := [], [], [];
    for i := 0 to |filled|
      invariant filled[..i] == left + toRemove + right && Parted(left, toRemove, right, start, end)
      invariant Range(newStart, newEnd) == Grown(toRemove, start, end)
    {
      var r := filled[i];
      assert filled[..i + 1] == left + toRemove + right + [r];
      CollectStep(left, toRemove, right, r, start, end, total);
      Appended(left, toRemove, right, r);
      if r.start <= newEnd && r.end >= newStart {
        newStart := Min(newStart, r.start);
        newEnd := Max(newEnd, r.end);
        toRemove := toRemove + [r];
      } else if toRemove == right == [] && r.end < start {
        left := left + [r];
      } else {
        right := right + [r];
      }
    }
    assert filled[..|filled|] == filled;
  }

  lemma Appended(left: seq<Range>, mid: seq<Range>, right: seq<Range>, r: Range)
    ensures left + mid + right + [r] == left + mid + (right + [r])
    ensures right == [] ==> left + mid + right + [r] == left + (mid + [r]) + right
    ensures mid == right == [] ==> left + mid + right + [r] == left + [r] + mid + right
  {
  }

  lemma CollectStep(left: seq<Range>, mid: seq<Range>, right: seq<Range>, r: Range, start: nat, end: nat, total: nat)
    requires Canonical(left + mid + right + [r], total) && start < end && Parted(left, mid, right, start, end)
    ensures var g := Grown(mid, start, end);
            if r.start <= g.end && g.start <= r.end
            then right == [] && Parted(left, mid + [r], right, start, end)
                 && Grown(mid + [r], start, end) == Range(Min(g.start, r.start), Max(g.end, r.end))
            else if mid == right == [] && r.end < start
            then Parted(left + [r], mid, right, start, end)
            else Parted(left, mid, right + [r], start, end)
  {
    var all := left + mid + right + [r];
    assert all[|all| - 1] == r;
    if right != [] {
      assert all[|left| + |mid|] == right[0];
    }
    if mid != [] {
      assert all[|left|] == mid[0] && all[|left| + |mid| - 1] == mid[|mid| - 1];
    }
  }

  ghost predicate Apart(a: seq<Range>, b: seq<Range>) {
    forall i, j :: 0 <= i < |a| && 0 <= j < |b| ==> a[i].end < b[j].start
  }

  lemma CanonicalParts(a: seq<Range>, b: seq<Range>, total: nat)
    requires Canonical(a + b, total)
    ensures Canonical(a, total) && Canonical(b, total) && Apart(a, b)
  {
    var s := a + b;
    assert forall i :: 0 <= i < |a| ==> s[i] == a[i];
    assert forall j :: 0 <= j < |b| ==> s[|a| + j] == b[j];
  }

  /** Merging into a sorted set replaces the block of touched ranges by one. */
  lemma {:induction false} MergeBlock(
    left: seq<Range>, mid: seq<Range>, right: seq<Range>, start: nat, end: nat, total: nat)
    requires Canonical(left, total) && Canonical(mid, total) && Apart(mid, right)
    requires start < end && Parted(left, mid, right, start, end)
    ensures Merge(left + (mid + right), start, end) == left + ([Grown(mid, start, end)] + right)
  {
    if left == [] {
      assert left + (mid + right) == mid + right;
      MergeAbsorb(mid, right, start, end, total);
    } else {
      var s := left + (mid + right);
      assert s[0] == left[0] && s[1..] == left[1..] + (mid + right);
      MergeBlock(left[1..], mid, right, start, end, total);
      MergeSkip(s, start, end);
    }
  }

  lemma MergeSkip(s: seq<Range>, start: nat, end: nat)
    requires s != [] && s[0].start <= end && s[0].end < start
    ensures Merge(s, start, end) == [s[0]] + Merge(s[1..], start, end)
  {
  }

  lemma {:induction false} MergeAbsorb(mid: seq<Range>, right: seq<Range>, start: nat, end: nat, total: nat)
    requires Canonical(mid, total) && Apart(mid, right) && start < end && Parted([], mid, right, start, end)
    ensures Merge(mid + right, start, end) == [Grown(mid, start, end)] + right
  {
    hide Merge;
    if mid == [] {
      assert mid + right == right;
      MergeStop(right, start, end);
    } else {
      var start', end' := Min(start, mid[0].start), Max(end, mid[0].end);
      assert (mid + right)[0] == mid[0] && (mid + right)[1..] == mid[1..] + right;
      MergeTouch(mid + right, start, end);
      MergeAbsorb(mid[1..], right, start', end', total);
      GrownStep(mid, start, end, total);
    }
  }

  lemma GrownStep(mid: seq<Range>, start: nat, end: nat, total: nat)
    requires mid != [] && Canonical(mid, total)
    ensures Grown(mid[1..], Min(start, mid[0].start), Max(end, mid[0].end)) == Grown(mid, start, end)
  {
  }

  lemma MergeStop(s: seq<Range>, start: nat, end: nat)
    requires s != [] ==> end < s[0].start
    ensures Merge(s, start, end) == [Range(start, end)] + s
  {
  }

  lemma MergeTouch(s: seq<Range>, start: nat, end: nat)
    requires s != [] && s[0].start <= end && start <= s[0].end
    ensures Merge(s, start, end) == Merge(s[1..], Min(start, s[0].start), Max(end, s[0].end))
  {
  }

  lemma {:induction false} InsertMiddle(left: seq<Range>, r: Range, right: seq<Range>)
    requires forall i :: 0 <= i < |left| ==> left[i].start < r.start
    requires right != [] ==> r.start < right[0].start
    ensures InsertRange(left + right, r) == left + [r] + right
  {
    if left == [] {
      assert left + right == right;
    } else {
      InsertMiddle(left[1..], r, right);
      assert (left + right)[1..] == left[1..] + right;
      assert left + [r] + right == [left[0]] + (left[1..] + [r] + right);
    }
  }

  lemma {:induction false} RemoveMiddle(left: seq<Range>, r: Range, right: seq<Range>)
    requires forall i :: 0 <= i < |left| ==> left[i].start != r.start
    ensures RemoveRange(left + [r] + right, r) == left + right
  {
    var s := left + [r] + right;
    if left == [] {
      assert s[1..] == right == left + right;
    } else {
      RemoveMiddle(left[1..], r, right);
      assert s[1..] == left[1..] + [r] + right;
      assert left + right == [left[0]] + (left[1..] + right);
    }
  }

  lemma NextRange(s: seq<Range>, r: Range, rest: seq<Range>, total: nat)
    requires Canonical(s + ([r] + rest), total)
    ensures InsertRange(s, r) == s + [r]
    ensures InsertRange(s, r) + rest == s + ([r] + rest)
  {
    var all := s + ([r] + rest);
    assert all[|s|] == r;
    forall i | 0 <= i < |s| ensures s[i].start < r.start {
      assert all[i] == s[i];
    }
    InsertMiddle(s, r, []);
    assert s + [] == s;
  }

  lemma RestBeyond(s: seq<Range>, i: nat, offset: nat, total: nat)
    requires Canonical(s, total) && i < |s| && offset <= s[i].start
    ensures Count(s[..i], 0, offset) == Count(s, 0, offset)
  {
    forall x | 0 <= x < offset ensures Covered(s[..i], x) <==> Covered(s, x) {
      if Covered(s, x) {
        var j :| 0 <= j < |s| && s[j].start <= x < s[j].end;
        assert j < i;
        assert s[..i][j] == s[j];
      }
      if Covered(s[..i], x) {
        var j :| 0 <= j < i && s[..i][j].start <= x < s[..i][j].end;
        assert s[j] == s[..i][j];
      }
    }
    CountSame(s[..i], s, 0, offset);
  }
}
