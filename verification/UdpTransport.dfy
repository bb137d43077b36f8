/** The UDP transport object: the clock, the socket and the iteration order of the map are inputs. */
module UdpTransport {
  import opened Wrappers
  import opened Bytes
  import opened Congestion
  import C = CongestionModel
  import M = UdpModel

  datatype SendError = WindowFull | SocketFailed

  ghost function OneResent(t: M.Transport, seqNo: nat, now: nat): M.Transport
    requires seqNo in t.pending
  {
    t.(pending := t.pending[seqNo := M.Bump(t.pending[seqNo], now)], cc := C.OnLoss(t.cc))
  }

  /** What resending the listed packets has done to the transport, and what was sent. */
  ghost predicate Attempts(was: M.Transport, now': M.Transport, list: seq<nat>, now: nat, sent: seq<M.Packet>) {
    && now' == was.(pending := M.BumpAll(was.pending, list, now), cc := C.Losses(was.cc, |list|))
    && M.Resent(sent, list, was.pending)
  }

  lemma AttemptOneMore(
    was: M.Transport, t: M.Transport, due: seq<nat>, i: nat, now: nat, sent: seq<M.Packet>, packet: M.Packet)
    requires i < |due| && (forall a, b :: 0 <= a < b < |due| ==> due[a] != due[b])
    requires Attempts(was, t, due[..i], now, sent) && due[i] in was.pending
    requires packet == t.pending[due[i]].packet
    ensures Attempts(was, OneResent(t, due[i], now), due[..i + 1], now, sent + [packet])
  {
    M.BumpOne(was.pending, due[..i], due[i], now);
    assert due[..i + 1] == due[..i] + [due[i]];
  }

  class UdpTransport {
    const congestion: UdpCongestionControl
    var seqCounter: nat
    var pending: map<nat, M.Pending>

    ghost function State(): M.Transport
      reads this, congestion
    {
      M.Transport(congestion.View(), seqCounter, pending)
    }

    ghost predicate Valid()
      reads this, congestion
    {
      M.Inv(State())
    }

    constructor ()
      ensures Valid() && fresh(congestion) && State() == M.New()
    {
      congestion := new UdpCongestionControl();
      seqCounter := 1;
      pending := map[];
    }

    /** A failed socket send leaves the packet in flight but not pending. */
    method SendData(piece: nat, block: nat, payload: bytes, addr: M.Addr, now: nat, sendOk: bool)
      returns (r: Result<nat, SendError>)
      requires Valid()
      modifies this, congestion
      ensures Valid()
      ensures State() == M.SendData(old(State()), piece, block, payload, addr, now, sendOk)
      ensures r == if old(congestion.packetsInFlight) >= old(congestion.cwnd).Floor then Err(WindowFull)
                   else if sendOk then Ok(old(seqCounter)) else Err(SocketFailed)
      ensures r != Err(WindowFull) ==>
                && seqCounter == old(seqCounter) + 1
                && congestion.packetsInFlight == old(congestion.packetsInFlight) + 1
      ensures r == Err(WindowFull) ==> State() == old(State())
      ensures r == Err(SocketFailed) ==> pending == old(pending)
      ensures r.Ok? ==> pending.Keys == old(pending).Keys + {r.value}
                        && M.SentBy(M.SendStep(piece, block, payload, addr, now, true), r.value, pending[r.value])
                        && pending[r.value].sentAt == now && pending[r.value].retransmits == 0
                        && forall k :: k in old(pending) ==> pending[k] == old(pending)[k]
    {
      C.LossKeepsWindow(congestion.View());
      if congestion.packetsInFlight >= congestion.cwnd.Floor {
        return Err(WindowFull);
      }
      var seqNo := seqCounter;
      seqCounter := seqCounter + 1;
      var packet := M.Packet(M.Data, seqNo, piece, block, payload);
      congestion.OnPacketSent();
      if !sendOk {
        return Err(SocketFailed);
      }
      pending := pending[seqNo := M.Pending(packet, now, 0, addr)];
      r := Ok(seqNo);
    }

    /** What goes back out: a nacked packet that has retransmits left, or a pong. */
    method Receive(packet: M.Packet, from: M.Addr) returns (reply: Option<(M.Packet, M.Addr)>)
      requires Valid()
      modifies this, congestion
      ensures Valid()
      ensures State() == M.Receive(old(State()), packet)
      ensures packet.msgType == M.Nack && packet.seqNo in pending ==>
                reply == Some((pending[packet.seqNo].packet, pending[packet.seqNo].addr))
      ensures packet.msgType == M.Ping ==> reply == Some((M.Packet(M.Pong, packet.seqNo, 0, 0, []), from))
      ensures reply.Some? ==> packet.msgType == M.Ping || (packet.msgType == M.Nack && packet.seqNo in pending)
      ensures packet.msgType != M.AckMsg ==> State() == old(State())
      ensures packet.msgType == M.AckMsg ==>
                && pending == old(pending) - {packet.seqNo} && seqCounter == old(seqCounter)
                && congestion.View() == C.OnAck(old(congestion.View()), 50_000_000)
    {
      C.AckKeepsWindow(congestion.View(), M.ACK_RTT);
      reply := None;
      match packet.msgType
      case AckMsg =>
        congestion.OnAck(M.ACK_RTT);
        pending := pending - {packet.seqNo};
      case Nack =>
        if packet.seqNo in pending {
          var p := pending[packet.seqNo];
          if p.retransmits < M.MAX_RETRANSMITS {
            reply := Some((p.packet, p.addr));
          }
        }
      case Ping =>
        reply := Some((M.Packet(M.Pong, packet.seqNo, 0, 0, []), from));
      case _ =>
    }

    /** `retransmit_timeout`; `sent` is what was handed to the socket, each packet as it was first sent. */
    method RetransmitTimeout(now: nat, order: seq<nat>, failing: set<nat>) returns (sent: seq<M.Packet>)
      requires Valid() && M.Enumerates(order, pending)
      modifies this, congestion
      ensures Valid()
      ensures State() == M.RetransmitTimeout(old(State()), now, order, failing)
      ensures forall j :: 0 <= j < |order| ==> order[j] in old(pending)
      ensures M.RightRound(old(pending), pending, order, now, failing)
      ensures M.RightSent(sent, old(pending), order, now, failing)
      ensures seqCounter == old(seqCounter)
      ensures congestion.packetsLost == old(congestion.packetsLost) + |sent| + (|old(pending)| - |pending|)
      ensures if |pending| < |old(pending)|
              then congestion.cwnd == 2.0 && congestion.state == C.SlowStart && congestion.packetsInFlight == 0
              else congestion.cwnd == C.MaxReal(C.Halved(old(congestion.cwnd), |sent|), 2.0)
      ensures (forall k :: k in old(pending) ==> now <= old(pending)[k].sentAt + 500_000_000) ==>
                State() == old(State()) && sent == []
    {
      M.RoundMeaning(State(), now, order, failing);
      M.RoundLosses(State(), now, order, failing);
      M.RoundKeepsInv(State(), now, order, failing);
      M.DueDistinct(order, pending, now);
      var toRetransmit := CollectDue(now, order);
      sent := ResendAll(toRetransmit, now, failing);
      var expired := CollectExhausted(order);
      DropAll(expired);
      M.SentMeaning(old(State()), now, order, failing, sent);
      M.NothingSent(old(State()), now, order, failing);
    }

    method CollectDue(now: nat, order: seq<nat>) returns (due: seq<nat>)
      requires M.Enumerates(order, pending)
      ensures due == M.DueList(order, pending, now)
    {
      due := [];
      for i := 0 to |order|
        invariant due + M.DueList(order[i..], pending, now) == M.DueList(order, pending, now)
      {
        assert order[i] in order;
        M.DueStep(due, order, i, pending, now);
        if M.Due(pending[order[i]], now) {
          due := due + [order[i]];
        }
      }
    }

    method ResendAll(due: seq<nat>, now: nat, failing: set<nat>) returns (sent: seq<M.Packet>)
      requires forall k :: k in due ==> k in pending
      requires forall i, j :: 0 <= i < j < |due| ==> due[i] != due[j]
      modifies this`pending, congestion
      ensures Attempts(old(State()), State(), M.Attempted(due, failing), now, sent)
    {
      sent := [];
      ghost var was := State();
      for i := 0 to |due|
        invariant forall j :: 0 <= j < i ==> due[j] !in failing
        invariant Attempts(was, State(), due[..i], now, sent)
      {
        ghost var t := State();
        var packet := Resend(due[i], now);
        AttemptOneMore(was, t, due, i, now, sent, packet);
        sent := sent + [packet];
        if due[i] in failing {
          M.AttemptedPrefix(due, i + 1, failing);
          return;
        }
      }
      M.AttemptedPrefix(due, |due|, failing);
    }

    method Resend(seqNo: nat, now: nat) returns (packet: M.Packet)
      requires seqNo in pending
      modifies this`pending, congestion
      ensures State() == OneResent(old(State()), seqNo, now)
      ensures packet == old(pending)[seqNo].packet
    {
      pending := pending[seqNo := M.Bump(pending[seqNo], now)];
      congestion.OnLoss();
      packet := pending[seqNo].packet;
    }

    method CollectExhausted(order: seq<nat>) returns (expired: seq<nat>)
      requires M.Enumerates(order, pending)
      ensures forall k :: k in expired <==> k in M.Exhausted(pending)
      ensures forall i, j :: 0 <= i < j < |expired| ==> expired[i] != expired[j]
    {
      expired := [];
      for i := 0 to |order|
        invariant forall k :: k in expired <==> k in order[..i] && k in M.Exhausted(pending)
        invariant forall a, b :: 0 <= a < b < |expired| ==> expired[a] != expired[b]
      {
        assert order[i] in order && order[i] !in order[..i];
        assert order[..i + 1] == order[..i] + [order[i]];
        if pending[order[i]].retransmits >= M.MAX_RETRANSMITS {
          expired := expired + [order[i]];
        }
      }
      assert order[..|order|] == order;
    }

    method DropAll(expired: seq<nat>)
      requires forall k :: k in expired <==> k in M.Exhausted(pending)
      requires forall i, j :: 0 <= i < j < |expired| ==> expired[i] != expired[j]
      modifies this, congestion
      ensures seqCounter == old(seqCounter)
      ensures pending == old(pending) - M.Exhausted(old(pending))
      ensures congestion.View() == C.Timeouts(old(congestion.View()), |M.Exhausted(old(pending))|)
    {
      ghost var gone := M.Exhausted(pending);
      DistinctCount(expired, gone);
      for i := 0 to |expired|
        invariant seqCounter == old(seqCounter)
        invariant pending == old(pending) - (set k | k in expired[..i])
        invariant congestion.View() == C.Timeouts(old(congestion.View()), i)
      {
        assert expired[..i + 1] == expired[..i] + [expired[i]];
        congestion.OnTimeout();
        pending := pending - {expired[i]};
      }
      assert expired[..|expired|] == expired;
      assert (set k | k in expired) == gone;
    }
  }

  lemma {:induction false} DistinctCount(s: seq<nat>, elements: set<nat>)
    requires forall k :: k in s <==> k in elements
    requires forall i, j :: 0 <= i < j < |s| ==> s[i] != s[j]
    ensures |s| == |elements|
  {
    if s == [] {
      assert elements == {};
    } else {
      assert s[0] in elements && s[0] !in s[1..];
      forall k ensures k in s[1..] <==> k in elements - {s[0]} {
        assert k in s <==> k == s[0] || k in s[1..];
      }
      DistinctCount(s[1..], elements - {s[0]});
    }
  }
}
