/** Runs of the application: the two handlers fed any sequence of inbound
    packets, one at a time, as the stack's event loop delivers them, and the
    properties that hold of every such run. */
module Traces {
  import opened BleTypes
  import opened Orchestrator

  /** One inbound packet, on whichever of the two callbacks receives it */
  datatype Event = Hci(hciPacket: HciPacket, assignedCid: u16) | Gatt(gattPacket: GattPacket)

  /** A battery-service connect result that reports failure */
  predicate FailedServiceConnect(e: Event) {
    && e.Gatt? && e.gattPacket.GattServiceMeta?
    && e.gattPacket.subevent.BatteryServiceConnected?
    && e.gattPacket.subevent.status != ERROR_CODE_SUCCESS
  }

  function Step(a: App, e: Event): (o: Outcome)
    requires a.Valid()
    ensures o.next.Valid()
  {
    match e
    case Hci(p, cid) => HciStep(a, p, cid)
    case Gatt(p) => GattStep(a, p)
  }

  /** The events handled in order; the calls issued, in order */
  function Run(a: App, events: seq<Event>): (o: Outcome)
    requires a.Valid()
    ensures o.next.Valid()
    ensures o.next.cmdlineAddrFound == a.cmdlineAddrFound && o.next.cmdlineAddr == a.cmdlineAddr
    decreases |events|
  {
    if events == [] then Outcome(a, [])
    else
      var first := Step(a, events[0]);
      var rest := Run(first.next, events[1..]);
      Outcome(rest.next, first.emitted + rest.emitted)
  }

  /** None of `acts` scans, and every connect goes to `target` with address type 0 */
  predicate OnlyConnectsTo(acts: seq<Action>, target: Address) {
    forall k :: 0 <= k < |acts| ==>
      && acts[k] != SetScanParameters && acts[k] != StartScan && acts[k] != StopScan
      && (acts[k].Connect? ==> acts[k] == Connect(target, 0))
  }

  /** Every connect in `acts` directly follows a stop-scan */
  predicate ConnectsFollowStopScan(acts: seq<Action>) {
    forall k :: 0 <= k < |acts| && acts[k].Connect? ==> 0 < k && acts[k - 1] == StopScan
  }

  /** In fixed-target mode the client never scans and only ever connects to
      the command-line address: from any state but W4_SCAN_RESULT (IDLE, as
      `btstack_main` leaves it, included), no sequence of events reaches
      W4_SCAN_RESULT or issues a scan call or another connect. */
  lemma {:induction false} FixedTargetNeverScans(a: App, events: seq<Event>)
    requires a.Valid() && a.cmdlineAddrFound && a.state != W4ScanResult
    ensures Run(a, events).next.state != W4ScanResult
    ensures OnlyConnectsTo(Run(a, events).emitted, a.cmdlineAddr)
    decreases |events|
  {
    if events != [] {
      var first := Step(a, events[0]);
      assert first.next.state != W4ScanResult;
      assert OnlyConnectsTo(first.emitted, a.cmdlineAddr);
      FixedTargetNeverScans(first.next, events[1..]);
      var rest := Run(first.next, events[1..]);
      assert Run(a, events).emitted == first.emitted + rest.emitted;
    }
  }

  /** In scan mode every connect the client issues is immediately preceded by
      the stop-scan that ends the scan it came from. */
  lemma {:induction false} ScanModeStopsBeforeConnect(a: App, events: seq<Event>)
    requires a.Valid() && !a.cmdlineAddrFound
    ensures ConnectsFollowStopScan(Run(a, events).emitted)
    decreases |events|
  {
    if events != [] {
      var first := Step(a, events[0]);
      assert ConnectsFollowStopScan(first.emitted);
      ScanModeStopsBeforeConnect(first.next, events[1..]);
      var rest := Run(first.next, events[1..]);
      var all := first.emitted + rest.emitted;
      assert Run(a, events).emitted == all;
      forall k | 0 <= k < |all| && all[k].Connect?
        ensures 0 < k && all[k - 1] == StopScan
      {
        if k >= |first.emitted| {
          assert rest.emitted[k - |first.emitted|] == all[k];
          assert rest.emitted[k - |first.emitted| - 1] == all[k - 1];
        }
      }
    }
  }

  /** The blacklist changes only by `add_to_blacklist` of the last reported
      address: a run without a failed service connect leaves it as it was. */
  lemma {:induction false} BlacklistChangesOnlyOnServiceFailure(a: App, events: seq<Event>)
    requires a.Valid()
    requires forall k :: 0 <= k < |events| ==> !FailedServiceConnect(events[k])
    ensures Run(a, events).next.blacklist == a.blacklist
    decreases |events|
  {
    if events != [] {
      var first := Step(a, events[0]);
      assert first.next.blacklist == a.blacklist;
      BlacklistChangesOnlyOnServiceFailure(first.next, events[1..]);
    }
  }
}
