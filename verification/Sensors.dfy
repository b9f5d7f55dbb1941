/**
 Which sensors are alive (`src/sensor.cpp` and the scanner in
 `src/packets.cpp`).  Packets and the scanner's checks come from different
 threads; each packet and each check of one sensor is one step here.
 */
module Sensors {

  const SENSOR_INACTIVITY_TIME := 90

  type Id = nat

  /** A line of the sensor log. */
  datatype Entry = NowActive(id: Id, time: int) | Lost(id: Id, time: int, silent: int)

  // ----- the steps on values -----

  datatype Liveness = Liveness(id: Id, lastPacketTime: int, isActive: bool)

  datatype Net = Net(sensors: map<Id, Liveness>, log: seq<Entry>)

  const START := Net(map[], [])

  function Add(n: Net, id: Id): Net {
    if id in n.sensors then n else n.(sensors := n.sensors[id := Liveness(id, 0, false)])
  }

  /** A packet from a sensor, known or not. */
  function Packet(n: Net, id: Id, now: int): Net {
    var known := Add(n, id);
    var s := known.sensors[id];
    Net(known.sensors[id := s.(lastPacketTime := now, isActive := true)],
        if s.isActive then n.log else n.log + [NowActive(id, now)])
  }

  predicate Overdue(s: Liveness, now: int) {
    s.lastPacketTime + SENSOR_INACTIVITY_TIME < now && s.lastPacketTime != 0 && s.isActive
  }

  /** The scanner comes to a sensor. */
  function Check(n: Net, id: Id, now: int): Net {
    if id !in n.sensors || !Overdue(n.sensors[id], now) then n
    else
      var s := n.sensors[id];
      Net(n.sensors[id := s.(isActive := false)], n.log + [Lost(id, now, now - s.lastPacketTime)])
  }

  datatype Event = Adds(id: Id, time: int) | Sends(id: Id, time: int) | Checks(id: Id, time: int)

  function Step(n: Net, e: Event): Net {
    match e
    case Adds(id, _) => Add(n, id)
    case Sends(id, now) => Packet(n, id, now)
    case Checks(id, now) => Check(n, id, now)
  }

  function Run(events: seq<Event>): Net
    decreases |events|
  {
    if events == [] then START else Step(Run(events[..|events| - 1]), events[|events| - 1])
  }

  // ----- what a run has done, told by its events alone -----

  /** The time of a sensor's last packet; 0 before the first. */
  function LastPacket(events: seq<Event>, id: Id): int
    decreases |events|
  {
    if events == [] then 0
    else
      var e := events[|events| - 1];
      if e.Sends? && e.id == id then e.time else LastPacket(events[..|events| - 1], id)
  }

  /** The log lines of one sensor. */
  function LinesOf(log: seq<Entry>, id: Id): seq<Entry>
    decreases |log|
  {
    if log == [] then []
    else
      var rest := LinesOf(log[..|log| - 1], id);
      if log[|log| - 1].id == id then rest + [log[|log| - 1]] else rest
  }

  /** A sensor counts as active when the last line about it says so. */
  predicate SaidActive(lines: seq<Entry>) {
    lines != [] && lines[|lines| - 1].NowActive?
  }

  /** The clock is positive and never goes back. */
  predicate Clocked(events: seq<Event>) {
    && (forall k :: 0 <= k < |events| ==> events[k].time > 0)
    && (forall j, k :: 0 <= j < k < |events| ==> events[j].time <= events[k].time)
  }

  // ----- every reachable state -----

  /** The map holds what the events and the log say, under each sensor's own id. */
  ghost predicate Tracks(n: Net, events: seq<Event>) {
    forall id :: id in n.sensors ==>
      && n.sensors[id].id == id
      && n.sensors[id].lastPacketTime == LastPacket(events, id)
      && n.sensors[id].isActive == SaidActive(LinesOf(n.log, id))
  }

  ghost predicate TracksOthers(n: Net, events: seq<Event>) {
    forall id :: id !in n.sensors ==> LastPacket(events, id) == 0 && LinesOf(n.log, id) == []
  }

  lemma LinesOfNext(log: seq<Entry>, x: Entry, id: Id)
    ensures LinesOf(log + [x], id) == if x.id == id then LinesOf(log, id) + [x] else LinesOf(log, id)
  {
    assert (log + [x])[..|log|] == log;
  }

  lemma LastPacketNext(events: seq<Event>, e: Event, id: Id)
    ensures LastPacket(events + [e], id) == if e.Sends? && e.id == id then e.time else LastPacket(events, id)
  {
    assert (events + [e])[..|events|] == events;
  }

  lemma StepTracks(n: Net, events: seq<Event>, e: Event)
    requires Tracks(n, events) && TracksOthers(n, events)
    ensures Tracks(Step(n, e), events + [e]) && TracksOthers(Step(n, e), events + [e])
  {
    var n' := Step(n, e);
    forall id
      ensures id in n'.sensors ==>
                && n'.sensors[id].id == id
                && n'.sensors[id].lastPacketTime == LastPacket(events + [e], id)
                && n'.sensors[id].isActive == SaidActive(LinesOf(n'.log, id))
      ensures id !in n'.sensors ==> LastPacket(events + [e], id) == 0 && LinesOf(n'.log, id) == []
    {
      LastPacketNext(events, e, id);
      if n'.log != n.log {
        LinesOfNext(n.log, n'.log[|n.log|], id);
        assert n'.log == n.log + [n'.log[|n.log|]];
      }
    }
  }

  /** In every reachable state each sensor stands under its own id, with the time of
      its last packet, and is active exactly when the log says so last. */
  lemma {:induction false} StateIsTracked(events: seq<Event>)
    ensures Tracks(Run(events), events) && TracksOthers(Run(events), events)
    decreases |events|
  {
    if events != [] {
      var before, e := events[..|events| - 1], events[|events| - 1];
      StateIsTracked(before);
      StepTracks(Run(before), before, e);
      assert before + [e] == events;
    }
  }

  // ----- the log -----

  /** Lines alternate, beginning with "now active"; a sensor is lost more than 90
      seconds after it became active, and becomes active again no earlier than it
      was lost. */
  predicate Alternates(lines: seq<Entry>) {
    && (lines != [] ==> lines[0].NowActive?)
    && (forall k :: 0 < k < |lines| ==> Follows(lines[k - 1], lines[k]))
  }

  predicate Follows(a: Entry, b: Entry) {
    if a.NowActive? then b.Lost? && b.time > a.time + 90
    else b.NowActive? && b.time >= a.time
  }

  /** Every line is as old as some event, and a sensor's last "now active" is no later
      than its last packet. */
  ghost predicate Dated(n: Net, events: seq<Event>) {
    forall id ::
      var lines := LinesOf(n.log, id);
      && Alternates(lines)
      && (lines != [] ==> events != [] && lines[|lines| - 1].time <= events[|events| - 1].time)
      && (SaidActive(lines) ==> lines[|lines| - 1].time <= LastPacket(events, id))
  }

  lemma NextAlternates(lines: seq<Entry>, x: Entry)
    requires Alternates(lines)
    requires if lines == [] then x.NowActive? else Follows(lines[|lines| - 1], x)
    ensures Alternates(lines + [x])
  {
  }

  /** One more line keeps the dates in order. */
  lemma LineDates(lines: seq<Entry>, x: Entry, last: int, last': int)
    requires Alternates(lines) && (SaidActive(lines) ==> lines[|lines| - 1].time <= last)
    requires lines != [] ==> lines[|lines| - 1].time <= x.time
    requires if x.NowActive? then !SaidActive(lines) && x.time <= last'
             else SaidActive(lines) && x.time > last + SENSOR_INACTIVITY_TIME
    ensures Alternates(lines + [x]) && (SaidActive(lines + [x]) ==> x.time <= last')
  {
    NextAlternates(lines, x);
  }

  /** What a step adds to the log, if anything. */
  lemma NewLine(events: seq<Event>, e: Event)
    requires Clocked(events + [e])
    ensures var n := Run(events);
            var n' := Step(n, e);
            n'.log == n.log ||
            exists x: Entry :: n'.log == n.log + [x] && x.id == e.id && x.time == e.time
              && if x.NowActive? then e.Sends? && !SaidActive(LinesOf(n.log, e.id))
                 else SaidActive(LinesOf(n.log, e.id)) && x.time > LastPacket(events, e.id) + SENSOR_INACTIVITY_TIME
  {
    StateIsTracked(events);
    var n := Run(events);
    var n' := Step(n, e);
    if n'.log != n.log {
      var x := n'.log[|n.log|];
      assert n'.log == n.log + [x];
    }
  }

  lemma StepDates(events: seq<Event>, e: Event, id: Id)
    requires Clocked(events + [e])
    requires Dated(Run(events), events)
    ensures var n' := Step(Run(events), e);
            var lines := LinesOf(n'.log, id);
            && Alternates(lines)
            && (lines != [] ==> lines[|lines| - 1].time <= e.time)
            && (SaidActive(lines) ==> lines[|lines| - 1].time <= LastPacket(events + [e], id))
  {
    var n := Run(events);
    var n' := Step(n, e);
    NewLine(events, e);
    LastPacketNext(events, e, id);
    LastPacketIsPast(events, id);
    ClockedLast(events, e);
    if n'.log != n.log {
      var x: Entry :| n'.log == n.log + [x] && x.id == e.id && x.time == e.time
        && if x.NowActive? then e.Sends? && !SaidActive(LinesOf(n.log, e.id))
           else SaidActive(LinesOf(n.log, e.id)) && x.time > LastPacket(events, e.id) + SENSOR_INACTIVITY_TIME;
      LinesOfNext(n.log, x, id);
      if x.id == id {
        LineDates(LinesOf(n.log, id), x, LastPacket(events, id), LastPacket(events + [e], id));
      }
    }
  }

  lemma ClockedLast(events: seq<Event>, e: Event)
    requires Clocked(events + [e])
    ensures e.time > 0 && forall k :: 0 <= k < |events| ==> events[k].time <= e.time
  {
    var all := events + [e];
    assert all[|events|] == e;
    assert forall k :: 0 <= k < |events| ==> all[k] == events[k];
  }

  lemma {:induction false} LastPacketIsPast(events: seq<Event>, id: Id)
    ensures LastPacket(events, id) == 0 || exists k :: 0 <= k < |events| && events[k].time == LastPacket(events, id)
    decreases |events|
  {
    if events != [] {
      var before := events[..|events| - 1];
      LastPacketIsPast(before, id);
      if k :| 0 <= k < |before| && before[k].time == LastPacket(before, id) {
        assert events[k].time == before[k].time;
      }
    }
  }

  lemma {:induction false} RunIsDated(events: seq<Event>)
    requires Clocked(events)
    ensures Dated(Run(events), events)
    decreases |events|
  {
    if events != [] {
      var before, e := events[..|events| - 1], events[|events| - 1];
      assert before + [e] == events;
      RunIsDated(before);
      forall id {
        StepDates(before, e, id);
      }
    }
  }

  /** Over every run with a positive clock that never goes back, the lines about a
      sensor alternate as they should. */
  lemma LogAlternates(events: seq<Event>, id: Id)
    requires Clocked(events)
    ensures Alternates(LinesOf(Run(events).log, id))
  {
    RunIsDated(events);
  }

  /** A check reports a sensor lost exactly when the log has it active and its last
      packet is more than 90 seconds ago; the line says how long it has been silent. */
  lemma LostExactlyWhen(events: seq<Event>, id: Id, now: int)
    requires Clocked(events + [Checks(id, now)])
    ensures var n := Run(events);
            var silent := now - LastPacket(events, id);
            Check(n, id, now).log ==
            if SaidActive(LinesOf(n.log, id)) && silent > 90
            then n.log + [Lost(id, now, silent)] else n.log
  {
    StateIsTracked(events);
    ClockedBefore(events, Checks(id, now));
    if SaidActive(LinesOf(Run(events).log, id)) {
      ActiveHasPacket(events, id);
    }
  }

  lemma ClockedBefore(events: seq<Event>, e: Event)
    requires Clocked(events + [e])
    ensures Clocked(events)
  {
    var all := events + [e];
    assert forall k :: 0 <= k < |events| ==> all[k] == events[k];
  }

  lemma {:induction false} ActiveHasPacket(events: seq<Event>, id: Id)
    requires Clocked(events) && SaidActive(LinesOf(Run(events).log, id))
    ensures LastPacket(events, id) > 0
    decreases |events|
  {
    if events != [] {
      var before, e := events[..|events| - 1], events[|events| - 1];
      var n, n' := Run(before), Run(events);
      if n'.log != n.log {
        var x := n'.log[|n.log|];
        assert n'.log == n.log + [x];
        LinesOfNext(n.log, x, id);
      }
      if !e.Sends? || e.id != id {
        ActiveHasPacket(before, id);
      }
    }
  }

  /** A packet is logged exactly when the log does not have its sensor as active. */
  lemma {:induction false} ActiveExactlyWhen(events: seq<Event>, id: Id, now: int)
    ensures var n := Run(events);
            Packet(n, id, now).log == if SaidActive(LinesOf(n.log, id)) then n.log else n.log + [NowActive(id, now)]
  {
    StateIsTracked(events);
  }

  /** An event that makes a sensor known: being added, or sending. */
  ghost predicate Names(events: seq<Event>, id: Id) {
    exists k :: 0 <= k < |events| && events[k].id == id && !events[k].Checks?
  }

  /** A sensor is known exactly if it has been added or has sent, and stays known. */
  lemma {:induction false} KnownExactlyWhen(events: seq<Event>, id: Id)
    ensures id in Run(events).sensors <==> Names(events, id)
    decreases |events|
  {
    if events != [] {
      var before, e := events[..|events| - 1], events[|events| - 1];
      KnownExactlyWhen(before, id);
      if Names(before, id) {
        var k :| 0 <= k < |before| && before[k].id == id && !before[k].Checks?;
        assert events[k] == before[k];
      }
      if Names(events, id) && !(e.id == id && !e.Checks?) {
        var k :| 0 <= k < |events| && events[k].id == id && !events[k].Checks?;
        assert before[k] == events[k];
      }
    }
  }

  // ----- the code -----

  class Sensor {
    var id: Id
    var lastPacketTime: int
    var isActive: bool

    constructor (id: Id)
      ensures this.id == id && lastPacketTime == 0 && !isActive
    {
      this.id, lastPacketTime, isActive := id, 0, false;
    }

    ghost function State(): Liveness
      reads this
    {
      Liveness(id, lastPacketTime, isActive)
    }
  }

  /** The global map and the log file.  Reading a key that is not in the map puts a
      null there. */
  class Registry {
    var sensorMap: map<Id, Sensor?>
    var log: seq<Entry>

    ghost function Known(): set<Sensor>
      reads this`sensorMap
    {
      set id | id in sensorMap && sensorMap[id] != null :: sensorMap[id]
    }

    /** No two keys lead to the same sensor. */
    ghost predicate Valid()
      reads this`sensorMap
    {
      forall i, j :: i in sensorMap && j in sensorMap && i != j && sensorMap[i] != null ==> sensorMap[i] != sensorMap[j]
    }

    ghost function View(): Net
      reads this, Known()
    {
      Net(map id | id in sensorMap && sensorMap[id] != null :: sensorMap[id].State(), log)
    }

    constructor ()
      ensures Valid() && View() == START
    {
      sensorMap, log := map[], [];
      new;
      assert View().sensors == map[];
    }

    /** `sensorMap[id]` */
    method Lookup(id: Id) returns (sensor: Sensor?)
      requires Valid()
      modifies this`sensorMap
      ensures Valid() && View() == old(View()) && Known() == old(Known())
      ensures id in sensorMap && sensor == sensorMap[id]
      ensures sensor == null <==> id !in View().sensors
    {
      if id !in sensorMap {
        sensorMap := sensorMap[id := null];
      }
      sensor := sensorMap[id];
      assert View().sensors == old(View().sensors);
      forall s | s in old(Known()) ensures s in Known() {
        var k :| k in old(sensorMap) && old(sensorMap)[k] == s;
        assert sensorMap[k] == s;
      }
      assert Known() <= old(Known());
    }

    method AddSensor(id: Id)
      requires Valid()
      modifies this`sensorMap
      ensures Valid() && View() == Add(old(View()), id)
      ensures forall s :: s in Known() ==> s in old(Known()) || fresh(s)
    {
      var known := Lookup(id);
      if known != null {
        return;
      }
      var sensor := new Sensor(id);
      sensorMap := sensorMap[id := sensor];
      assert View().sensors == Add(old(View()), id).sensors;
    }

    method SensorUpdate(id: Id, now: int)
      requires Valid()
      modifies this, Known()
      ensures Valid() && View() == Packet(old(View()), id, now)
    {
      var sensor := Lookup(id);
      if sensor == null {
        AddSensor(id);
        sensor := Lookup(id);
      }
      assert View() == Add(old(View()), id);
      Touch(sensor, id, now);
    }

    /** The rest of it, for the sensor found or added. */
    method Touch(sensor: Sensor, id: Id, now: int)
      requires Valid() && id in sensorMap && sensorMap[id] == sensor
      modifies this`log, sensor
      ensures Valid() && View() == Packet(old(View()), id, now)
    {
      sensor.lastPacketTime := now;
      if !sensor.isActive {
        sensor.isActive := true;
        log := log + [NowActive(id, now)];
      }
      assert View().sensors == Packet(old(View()), id, now).sensors;
    }

    /** One turn of the scanner's loop. */
    method CheckSensor(id: Id, now: int)
      requires Valid() && id in sensorMap
      modifies this`log, Known()
      ensures Valid() && View() == Check(old(View()), id, now)
    {
      var sensor := sensorMap[id];
      if sensor == null {
        return;
      }
      if sensor.lastPacketTime + SENSOR_INACTIVITY_TIME < now && sensor.lastPacketTime != 0 && sensor.isActive {
        log := log + [Lost(id, now, now - sensor.lastPacketTime)];
        sensor.isActive := false;
      }
      assert View().sensors == Check(old(View()), id, now).sensors;
    }
  }
}
