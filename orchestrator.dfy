/** The scan/connect state machine of gatt_battery_query.c as pure functions:
    the application's static state as one value, the two packet handlers as
    functions from a state and an inbound packet to the next state and the
    stack calls issued, and the behaviour of each handler branch as lemmas. */
module Orchestrator {
  import opened BleTypes
  import opened Blacklist

  /** `app_state` */
  datatype AppState = Idle | W4ScanResult | W4Connect | Connected

  /** The fields of `report` the handlers write */
  datatype AdvertisingReport = AdvertisingReport(addressType: byte, address: Address)

  /** The stack state carried by `BTSTACK_EVENT_STATE` */
  datatype HciState = Off | Initializing | Working | Halting | Sleeping | FallingAsleep

  /** Subevents of `HCI_EVENT_META_GAP` */
  datatype GapSubevent =
    | LeConnectionComplete(handle: ConHandle)
    | OtherGapSubevent(code: byte)

  /** The HCI events the handler distinguishes; every other event code is `OtherHciEvent` */
  datatype HciEvent =
    | BtstackState(state: HciState)
    | GapAdvertisingReport(eventType: byte, addressType: byte, address: Address, rssi: byte, data: seq<byte>)
    | MetaGap(subevent: GapSubevent)
    | DisconnectionComplete(handle: ConHandle)
    | OtherHciEvent(code: byte)

  /** What reaches `hci_event_handler`: an HCI event packet, or a packet of another type */
  datatype HciPacket = HciEventPacket(event: HciEvent) | OtherPacket(packetType: byte)

  /** Subevents of `HCI_EVENT_GATTSERVICE_META` */
  datatype ServiceSubevent =
    | BatteryServiceConnected(status: byte, numInstances: byte, pollBitmap: byte)
    | BatteryServiceLevel(serviceIndex: byte, level: byte, attStatus: byte)
    | OtherServiceSubevent(code: byte)

  /** What reaches `gatt_client_event_handler` */
  datatype GattPacket = GattServiceMeta(subevent: ServiceSubevent) | OtherGattEvent(code: byte)

  /** The calls into the stack the application makes, in the order made */
  datatype Action =
    | PowerOn                                     // hci_power_control(HCI_POWER_ON)
    | SetScanParameters                           // gap_set_scan_parameters(...)
    | StartScan                                   // gap_start_scan()
    | StopScan                                    // gap_stop_scan()
    | Connect(address: Address, addressType: byte) // gap_connect(addr, type)
    | Disconnect(handle: ConHandle)               // gap_disconnect(handle)
    | ServiceConnect(handle: ConHandle)           // battery_service_client_connect(handle, ...)
    | ServiceDisconnect(cid: u16)                 // battery_service_client_disconnect(cid)
    | ReadBatteryLevel(cid: u16, serviceIndex: byte) // battery_service_client_read_battery_level(cid, index)

  /** The application's static state */
  datatype App = App(
    state: AppState,
    report: AdvertisingReport,
    connectionHandle: ConHandle,
    batteryServiceCid: u16,
    blacklist: Ring,
    cmdlineAddrFound: bool,
    cmdlineAddr: Address)
  {
    predicate Valid() {
      blacklist.Valid()
    }
  }

  /** The state after a handler ran, and the calls it issued */
  datatype Outcome = Outcome(next: App, emitted: seq<Action>)

  /** The state when `btstack_main` powers the stack on: statics zero, `app_state`
      IDLE, and the command-line target if one was given. */
  function Start(addrFound: bool, addr: Address): (a: App)
    ensures a.Valid() && a.state == Idle
    ensures a.blacklist == Initial() && a.cmdlineAddrFound == addrFound && a.cmdlineAddr == addr
  {
    App(Idle, AdvertisingReport(0, ZERO_ADDRESS), 0, 0, Initial(), addrFound, addr)
  }

  /** `hci_event_handler`. `assignedCid` is the session id
      `battery_service_client_connect` writes back when it is called. */
  function HciStep(a: App, p: HciPacket, assignedCid: u16): (o: Outcome)
    requires a.Valid()
    ensures o.next.Valid()
    ensures o.next.blacklist == a.blacklist
    ensures o.next.cmdlineAddrFound == a.cmdlineAddrFound && o.next.cmdlineAddr == a.cmdlineAddr
  {
    if !p.HciEventPacket? then Outcome(a, [])
    else match p.event
      case BtstackState(s) =>
        if s != Working then Outcome(a, [])
        else if a.cmdlineAddrFound then Outcome(a.(state := W4Connect), [Connect(a.cmdlineAddr, 0)])
        else Outcome(a.(state := W4ScanResult), [SetScanParameters, StartScan])
      case GapAdvertisingReport(_, addressType, address, _, _) =>
        if a.state != W4ScanResult then Outcome(a, [])
        else
          var recorded := a.(report := AdvertisingReport(addressType, address));
          if Contains(a.blacklist, address) then Outcome(recorded, [])
          else Outcome(recorded.(state := W4Connect), [StopScan, Connect(address, addressType)])
      case MetaGap(sub) =>
        if !sub.LeConnectionComplete? then Outcome(a, [])
        else if a.state != W4Connect then Outcome(a, [])
        else Outcome(a.(connectionHandle := sub.handle, batteryServiceCid := assignedCid, state := Connected),
                     [ServiceConnect(sub.handle)])
      case DisconnectionComplete(_) =>
        var closed := a.(connectionHandle := HCI_CON_HANDLE_INVALID);
        if a.cmdlineAddrFound then Outcome(closed, [ServiceDisconnect(a.batteryServiceCid)])
        else Outcome(closed.(state := W4ScanResult), [ServiceDisconnect(a.batteryServiceCid), StartScan])
      case OtherHciEvent(_) => Outcome(a, [])
  }

  /** `gatt_client_event_handler` */
  function GattStep(a: App, p: GattPacket): (o: Outcome)
    requires a.Valid()
    ensures o.next.Valid()
    ensures o.next.(blacklist := a.blacklist) == a
  {
    match p
    case OtherGattEvent(_) => Outcome(a, [])
    case GattServiceMeta(sub) =>
      match sub
      case BatteryServiceConnected(status, _, _) =>
        if status == ERROR_CODE_SUCCESS then Outcome(a, [ReadBatteryLevel(a.batteryServiceCid, 0)])
        else Outcome(a.(blacklist := Insert(a.blacklist, a.report.address)), [Disconnect(a.connectionHandle)])
      case BatteryServiceLevel(_, _, _) => Outcome(a, [])
      case OtherServiceSubevent(_) => Outcome(a, [])
  }

  /** `BTSTACK_EVENT_STATE` acts only once the stack is working: with a
      command-line target it connects to that address with address type 0,
      otherwise it sets the scan parameters and starts scanning. */
  lemma StackWorkingStarts(a: App, s: HciState, cid: u16)
    requires a.Valid()
    ensures var o := HciStep(a, HciEventPacket(BtstackState(s)), cid);
      && (s != Working ==> o == Outcome(a, []))
      && (s == Working && a.cmdlineAddrFound ==>
            o.next == a.(state := W4Connect) && o.emitted == [Connect(a.cmdlineAddr, 0)])
      && (s == Working && !a.cmdlineAddrFound ==>
            o.next == a.(state := W4ScanResult) && o.emitted == [SetScanParameters, StartScan])
  {
  }

  /** An advertising report is dropped unless the client is waiting for a
      scan result. In that state it is recorded in `report`; a blacklisted
      sender is then ignored, any other is connected to after scanning stops. */
  lemma AdvertisingReportHandled(a: App, t: byte, addr: Address, evt: byte, rssi: byte, data: seq<byte>, cid: u16)
    requires a.Valid()
    ensures var o := HciStep(a, HciEventPacket(GapAdvertisingReport(evt, t, addr, rssi, data)), cid);
      && (a.state != W4ScanResult ==> o == Outcome(a, []))
      && (a.state == W4ScanResult ==> o.next.report == AdvertisingReport(t, addr))
      && (a.state == W4ScanResult && Contains(a.blacklist, addr) ==>
            o.next == a.(report := AdvertisingReport(t, addr)) && o.emitted == [])
      && (a.state == W4ScanResult && !Contains(a.blacklist, addr) ==>
            o.next == a.(report := AdvertisingReport(t, addr), state := W4Connect)
            && o.emitted == [StopScan, Connect(addr, t)])
  {
  }

  /** The scan path never connects to a blacklisted address: whenever the
      HCI handler issues a connect outside fixed-target mode, the address is
      absent from the blacklist. */
  lemma ScanNeverConnectsBlacklisted(a: App, p: HciPacket, cid: u16)
    requires a.Valid() && !a.cmdlineAddrFound
    ensures forall k :: 0 <= k < |HciStep(a, p, cid).emitted| && HciStep(a, p, cid).emitted[k].Connect? ==>
              !Contains(a.blacklist, HciStep(a, p, cid).emitted[k].address)
  {
  }

  /** The exemption above is needed: a fixed target given as the all-zero
      address is in the zero-initialised blacklist from the start, and the
      stack coming up still connects to it. */
  lemma FixedTargetMayConnectBlacklisted(cid: u16)
    ensures Contains(Start(true, ZERO_ADDRESS).blacklist, ZERO_ADDRESS)
    ensures HciStep(Start(true, ZERO_ADDRESS), HciEventPacket(BtstackState(Working)), cid).emitted
              == [Connect(ZERO_ADDRESS, 0)]
  {
    assert Start(true, ZERO_ADDRESS).blacklist.slots[0] == ZERO_ADDRESS;
  }

  /** A LE connection-complete subevent in W4_CONNECT stores the handle and the
      session id, connects the battery service on that handle and moves to
      CONNECTED; in any other state, and for any other GAP subevent, nothing
      happens. */
  lemma ConnectionCompleteHandled(a: App, sub: GapSubevent, cid: u16)
    requires a.Valid()
    ensures var o := HciStep(a, HciEventPacket(MetaGap(sub)), cid);
      && (!sub.LeConnectionComplete? || a.state != W4Connect ==> o == Outcome(a, []))
      && (sub.LeConnectionComplete? && a.state == W4Connect ==>
            o.next == a.(state := Connected, connectionHandle := sub.handle, batteryServiceCid := cid)
            && o.emitted == [ServiceConnect(sub.handle)])
  {
  }

  /** A disconnection, whatever the state, invalidates the handle and
      disconnects the battery service. In fixed-target mode that is all; in
      scan mode the client also restarts scanning. */
  lemma DisconnectionHandled(a: App, h: ConHandle, cid: u16)
    requires a.Valid()
    ensures var o := HciStep(a, HciEventPacket(DisconnectionComplete(h)), cid);
      && o.next.connectionHandle == HCI_CON_HANDLE_INVALID
      && (a.cmdlineAddrFound ==>
            o.next == a.(connectionHandle := HCI_CON_HANDLE_INVALID)
            && o.emitted == [ServiceDisconnect(a.batteryServiceCid)])
      && (!a.cmdlineAddrFound ==>
            o.next == a.(connectionHandle := HCI_CON_HANDLE_INVALID, state := W4ScanResult)
            && o.emitted == [ServiceDisconnect(a.batteryServiceCid), StartScan])
  {
  }

  /** Packets that are not HCI events, and HCI events the handler does not
      know, change nothing and issue nothing. */
  lemma UnknownHciPacketsIgnored(a: App, p: HciPacket, cid: u16)
    requires a.Valid()
    requires !p.HciEventPacket? || p.event.OtherHciEvent?
    ensures HciStep(a, p, cid) == Outcome(a, [])
  {
  }

  /** A successful battery-service connect reads the level of instance 0
      once; a failed one blacklists the last reported address and drops
      the link, leaving `app_state` as it was. */
  lemma ServiceConnectedHandled(a: App, status: byte, n: byte, bitmap: byte)
    requires a.Valid()
    ensures var o := GattStep(a, GattServiceMeta(BatteryServiceConnected(status, n, bitmap)));
      && (status == ERROR_CODE_SUCCESS ==>
            o.next == a && o.emitted == [ReadBatteryLevel(a.batteryServiceCid, 0)])
      && (status != ERROR_CODE_SUCCESS ==>
            o.next == a.(blacklist := Insert(a.blacklist, a.report.address))
            && o.next.state == a.state
            && Contains(o.next.blacklist, a.report.address)
            && o.emitted == [Disconnect(a.connectionHandle)])
  {
    if status != ERROR_CODE_SUCCESS {
      InsertThenContains(a.blacklist, a.report.address);
    }
  }

  /** Battery-level events, successful or not, other service subevents and
      packets that are not service events change nothing and issue nothing. */
  lemma OtherServiceEventsIgnored(a: App, p: GattPacket)
    requires a.Valid()
    requires !p.GattServiceMeta? || !p.subevent.BatteryServiceConnected?
    ensures GattStep(a, p) == Outcome(a, [])
  {
  }
}
