/** The grouping of inter_arrival_delta.cpp, updated in place, proved to do what InterArrival says. */
module InterArrivalDelta {
  import opened InterArrival
  import opened Options

  class InterArrivalDelta {
    const sendTimeGroupLength: int
    var currentTimestampGroup: Option<Group>
    var prevTimestampGroup: Option<Group>
    var numConsecutiveReorderedPackets: nat

    ghost function View(): State
      reads this
    {
      State(currentTimestampGroup, prevTimestampGroup, numConsecutiveReorderedPackets)
    }

    constructor (sendTimeGroupLength: int)
      ensures View() == INIT && this.sendTimeGroupLength == sendTimeGroupLength
    {
      this.sendTimeGroupLength := sendTimeGroupLength;
      currentTimestampGroup, prevTimestampGroup, numConsecutiveReorderedPackets := None, None, 0;
    }

    method Reset()
      modifies this
      ensures View() == INIT
    {
      numConsecutiveReorderedPackets := 0;
      currentTimestampGroup := None;
      prevTimestampGroup := None;
    }

    /** Counts the packet in; when it opens a new group, reports how the last two complete groups differ. */
    method ComputeDeltas(p: Packet) returns (deltas: Option<Deltas>)
      modifies this
      ensures (View(), deltas) == InterArrival.ComputeDeltas(old(View()), p, sendTimeGroupLength)
    {
      deltas := None;
      if currentTimestampGroup.None? {
        currentTimestampGroup := Some(Group(0, p.sendTime, p.sendTime, p.arrivalTime, p.arrivalTime, p.systemTime));
      } else if currentTimestampGroup.value.firstSendTime > p.sendTime {
        return None;
      } else if NewTimestampGroup(currentTimestampGroup.value, p, sendTimeGroupLength) {
        var g := currentTimestampGroup.value;
        if prevTimestampGroup.Some? {
          var before := prevTimestampGroup.value;
          var sendTimeDelta := g.sendTime - before.sendTime;
          var arrivalTimeDelta := g.completeTime - before.completeTime;
          var systemTimeDelta := g.lastSystemTime - before.lastSystemTime;
          if arrivalTimeDelta - systemTimeDelta >= ARRIVAL_TIME_OFFSET_THRESHOLD {
            Reset();
            return None;
          }
          if arrivalTimeDelta < 0 {
            numConsecutiveReorderedPackets := numConsecutiveReorderedPackets + 1;
            if numConsecutiveReorderedPackets >= REORDERED_RESET_THRESHOLD {
              Reset();
            }
            return None;
          } else {
            numConsecutiveReorderedPackets := 0;
          }
          deltas := Some(Deltas(sendTimeDelta, arrivalTimeDelta, g.size - before.size));
        }
        prevTimestampGroup := currentTimestampGroup;
        currentTimestampGroup := Some(Group(0, p.sendTime, p.sendTime, p.arrivalTime, g.completeTime, g.lastSystemTime));
      } else {
        var g := currentTimestampGroup.value;
        currentTimestampGroup := Some(g.(sendTime := Max(g.sendTime, p.sendTime)));
      }
      var g := currentTimestampGroup.value;
      currentTimestampGroup := Some(g.(size := g.size + p.size, completeTime := p.arrivalTime, lastSystemTime := p.systemTime));
    }
  }
}
