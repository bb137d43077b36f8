/** The congestion controller object of qvs-transport. */
module Congestion {
  import opened M = CongestionModel

  class UdpCongestionControl {
    var state: CongestionState
    var cwnd: real
    var ssthresh: real
    var rttEstimate: nat
    var rttDev: nat
    var lossRate: real
    var packetsInFlight: nat
    var packetsLost: nat
    var packetsSent: nat
    var srttHistory: seq<nat>
    var streamingMode: bool

    ghost function View(): Control
      reads this
    {
      Control(state, cwnd, ssthresh, rttEstimate, rttDev, lossRate,
              packetsInFlight, packetsLost, packetsSent, srttHistory, streamingMode)
    }

    constructor ()
      ensures View() == Initial()
      ensures state == SlowStart && cwnd == 2.0 && ssthresh == 64.0 && !streamingMode
      ensures rttEstimate == 100_000_000 && rttDev == 20_000_000 && lossRate == 0.0 && srttHistory == []
      ensures packetsInFlight == packetsLost == packetsSent == 0
    {
      state, cwnd, ssthresh := SlowStart, 2.0, 64.0;
      rttEstimate, rttDev, lossRate := 100 * MS, 20 * MS, 0.0;
      packetsInFlight, packetsLost, packetsSent := 0, 0, 0;
      srttHistory := [];
      streamingMode := false;
    }

    method OnAck(rtt: nat)
      requires Window(View())
      modifies this
      ensures View() == M.OnAck(old(View()), rtt)
      ensures packetsInFlight == if old(packetsInFlight) == 0 then 0 else old(packetsInFlight) - 1
      ensures packetsLost == old(packetsLost) && packetsSent == old(packetsSent) && ssthresh == old(ssthresh)
      ensures old(state) != CongestionAvoidance ==>
                && cwnd == (if old(cwnd) + 1.0 > 256.0 then 256.0 else old(cwnd) + 1.0)
                && state == if old(cwnd) + 1.0 >= ssthresh then CongestionAvoidance else old(state)
      ensures old(state) == CongestionAvoidance ==>
                && cwnd == (if old(cwnd) + 1.0 / old(cwnd) > 256.0 then 256.0 else old(cwnd) + 1.0 / old(cwnd))
                && state == old(state)
    {
      UpdateRtt(rtt);
      packetsInFlight := if packetsInFlight > 0 then packetsInFlight - 1 else 0;
      match state
      case SlowStart | FastRecovery =>
        cwnd := cwnd + 1.0;
        if cwnd >= ssthresh {
          state := CongestionAvoidance;
        }
      case CongestionAvoidance =>
        cwnd := cwnd + 1.0 / cwnd;
      cwnd := if MAX_CWND < cwnd then MAX_CWND else cwnd;
    }

    method OnLoss()
      modifies this
      ensures View() == M.OnLoss(old(View()))
      ensures ssthresh == cwnd == (if old(cwnd) < 4.0 then 2.0 else old(cwnd) / 2.0) && state == FastRecovery
      ensures packetsInFlight == if old(packetsInFlight) == 0 then 0 else old(packetsInFlight) - 1
      ensures packetsLost == old(packetsLost) + 1 && packetsSent == old(packetsSent)
    {
      ssthresh := MaxReal(cwnd / 2.0, 2.0);
      cwnd := ssthresh;
      packetsInFlight := if packetsInFlight > 0 then packetsInFlight - 1 else 0;
      packetsLost := packetsLost + 1;
      state := FastRecovery;
      UpdateLossRate();
    }

    method OnTimeout()
      modifies this
      ensures View() == M.OnTimeout(old(View()))
      ensures ssthresh == (if old(cwnd) < 4.0 then 2.0 else old(cwnd) / 2.0) && cwnd == 2.0 && state == SlowStart
      ensures packetsInFlight == 0 && packetsLost == old(packetsLost) + 1 && packetsSent == old(packetsSent)
    {
      ssthresh := MaxReal(cwnd / 2.0, 2.0);
      cwnd := 2.0;
      packetsInFlight := 0;
      packetsLost := packetsLost + 1;
      state := SlowStart;
      UpdateLossRate();
    }

    method OnPacketSent()
      modifies this
      ensures View() == M.OnPacketSent(old(View()))
      ensures packetsInFlight == old(packetsInFlight) + 1 && packetsSent == old(packetsSent) + 1
      ensures cwnd == old(cwnd) && ssthresh == old(ssthresh) && state == old(state)
    {
      packetsSent := packetsSent + 1;
      packetsInFlight := packetsInFlight + 1;
      UpdateLossRate();
    }

    method UpdateLossRate()
      modifies this`lossRate, this`streamingMode
      ensures View() == M.UpdateLossRate(old(View()))
      ensures packetsSent > 0 ==>
                && lossRate * packetsSent as real == packetsLost as real
                && (streamingMode <==> old(streamingMode) || 10 * packetsLost > packetsSent)
      ensures packetsSent == 0 ==> lossRate == old(lossRate) && streamingMode == old(streamingMode)
    {
      var total := packetsSent;
      if total > 0 {
        RateAboveTenth(packetsLost, total);
        lossRate := packetsLost as real / total as real;
        if lossRate > 0.1 {
          streamingMode := true;
        }
      }
    }

    method UpdateRtt(rtt: nat)
      modifies this`srttHistory, this`rttEstimate, this`rttDev
      ensures View() == M.UpdateRtt(old(View()), rtt)
      ensures srttHistory == (if |old(srttHistory)| < 100 then old(srttHistory) else old(srttHistory)[1..]) + [rtt]
      ensures rttEstimate == Sum(srttHistory) / |srttHistory|
      ensures var off := if rtt > rttEstimate then rtt - rttEstimate else rttEstimate - rtt;
              4 * rttDev <= 3 * old(rttDev) + off < 4 * rttDev + 4
    {
      srttHistory := srttHistory + [rtt];
      if |srttHistory| > HISTORY {
        srttHistory := srttHistory[1..];
      }
      if |srttHistory| > 0 {
        rttEstimate := Mean(srttHistory);
      }
      rttDev := Smooth(rttDev, rtt, rttEstimate);
    }
  }
}
