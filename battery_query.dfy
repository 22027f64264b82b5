/** The static state of gatt_battery_query.c and the functions that update it
    in place: the blacklist array with its cursor, and the two packet
    handlers. Every call the application makes into the stack is appended to
    `actions`. Each method is proved against the pure model in Blacklist and
    Orchestrator. */
module BatteryQuery {
  import opened BleTypes
  import opened Blacklist
  import opened Orchestrator

  class GattBatteryQuery {
    var appState: AppState
    var blacklistIndex: int
    var blacklist: array<Address>
    var report: AdvertisingReport
    var connectionHandle: ConHandle
    var batteryServiceCid: u16
    var cmdlineAddr: Address
    var cmdlineAddrFound: bool
    /** The stack calls made so far, oldest first */
    var actions: seq<Action>

    ghost predicate Valid()
      reads this
    {
      blacklist.Length == CAPACITY && 0 <= blacklistIndex < CAPACITY
    }

    /** The blacklist array and cursor as a ring value */
    ghost function BlacklistRing(): (r: Ring)
      reads this, blacklist
      requires Valid()
      ensures r.Valid()
    {
      Ring(blacklist[..], blacklistIndex)
    }

    /** Everything the handlers read and write, as one value */
    ghost function State(): (a: App)
      reads this, blacklist
      requires Valid()
      ensures a.Valid()
    {
      App(appState, report, connectionHandle, batteryServiceCid, BlacklistRing(), cmdlineAddrFound, cmdlineAddr)
    }

    /** Zero-initialised statics, then what `btstack_main` does once the
        command line is parsed: set `app_state` to IDLE and power the stack on. */
    constructor (addrFound: bool, addr: Address)
      ensures Valid() && fresh(blacklist)
      ensures State() == Start(addrFound, addr)
      ensures actions == [PowerOn]
    {
      appState := Idle;
      blacklistIndex := 0;
      blacklist := new Address[CAPACITY](_ => ZERO_ADDRESS);
      report := AdvertisingReport(0, ZERO_ADDRESS);
      connectionHandle := 0;
      batteryServiceCid := 0;
      cmdlineAddr := addr;
      cmdlineAddrFound := addrFound;
      actions := [PowerOn];
      new;
      assert blacklist[..] == Initial().slots;
    }

    /** `blacklist_size()` */
    function BlacklistSize(): (n: int)
      reads this
      requires Valid()
      ensures n == CAPACITY
    {
      blacklist.Length
    }

    /** `blacklist_contains`: a scan over all twenty slots */
    method BlacklistContains(addr: Address) returns (found: bool)
      requires Valid()
      ensures found == Contains(BlacklistRing(), addr)
    {
      for i := 0 to BlacklistSize()
        invariant addr !in blacklist[..i]
      {
        if blacklist[i] == addr {
          assert blacklist[..][i] == addr;
          return true;
        }
      }
      assert blacklist[..BlacklistSize()] == blacklist[..];
      return false;
    }

    /** `add_to_blacklist` */
    method AddToBlacklist(addr: Address)
      requires Valid()
      modifies this`blacklistIndex, blacklist
      ensures Valid()
      ensures BlacklistRing() == Insert(old(BlacklistRing()), addr)
    {
      blacklist[blacklistIndex] := addr;
      blacklistIndex := (blacklistIndex + 1) % BlacklistSize();
    }

    /** `hci_event_handler`; `assignedCid` is the session id
        `battery_service_client_connect` writes back when it is called. */
    method HandleHciPacket(packet: HciPacket, assignedCid: u16)
      requires Valid()
      modifies this
      ensures Valid() && blacklist == old(blacklist)
      ensures State() == HciStep(old(State()), packet, assignedCid).next
      ensures actions == old(actions) + HciStep(old(State()), packet, assignedCid).emitted
    {
      if !packet.HciEventPacket? {
        return;
      }
      match packet.event {
        case BtstackState(s) =>
          if s != Working {
            return;
          }
          if cmdlineAddrFound {
            appState := W4Connect;
            actions := actions + [Connect(cmdlineAddr, 0)];
            return;
          }
          appState := W4ScanResult;
          actions := actions + [SetScanParameters];
          actions := actions + [StartScan];
        case GapAdvertisingReport(_, addressType, address, _, _) =>
          if appState != W4ScanResult {
            return;
          }
          report := AdvertisingReport(addressType, address);
          var blacklisted := BlacklistContains(report.address);
          if blacklisted {
            return;
          }
          appState := W4Connect;
          actions := actions + [StopScan];
          actions := actions + [Connect(report.address, report.addressType)];
        case MetaGap(sub) =>
          if !sub.LeConnectionComplete? {
            return;
          }
          if appState != W4Connect {
            return;
          }
          connectionHandle := sub.handle;
          actions := actions + [ServiceConnect(connectionHandle)];
          batteryServiceCid := assignedCid;
          appState := Connected;
        case DisconnectionComplete(_) =>
          connectionHandle := HCI_CON_HANDLE_INVALID;
          actions := actions + [ServiceDisconnect(batteryServiceCid)];
          if cmdlineAddrFound {
            return;
          }
          appState := W4ScanResult;
          actions := actions + [StartScan];
        case OtherHciEvent(_) =>
      }
    }

    /** `gatt_client_event_handler` */
    method HandleGattPacket(packet: GattPacket)
      requires Valid()
      modifies this, blacklist
      ensures Valid() && blacklist == old(blacklist)
      ensures State() == GattStep(old(State()), packet).next
      ensures actions == old(actions) + GattStep(old(State()), packet).emitted
    {
      if !packet.GattServiceMeta? {
        return;
      }
      match packet.subevent {
        case BatteryServiceConnected(status, _, _) =>
          if status == ERROR_CODE_SUCCESS {
            actions := actions + [ReadBatteryLevel(batteryServiceCid, 0)];
          } else {
            AddToBlacklist(report.address);
            actions := actions + [Disconnect(connectionHandle)];
          }
        case BatteryServiceLevel(_, _, _) =>
        case OtherServiceSubevent(_) =>
      }
    }
  }

  /** Scan mode from power-on: the stack comes up; a device advertising the
      all-zero address, which the zero-initialised blacklist holds from the
      start, is skipped; the next one is connected, its battery service
      fails, it is blacklisted, and after the disconnection scanning
      restarts. */
  method ScanConnectFailRescan(good: Address, cid: u16)
    requires good != ZERO_ADDRESS
  {
    var app := new GattBatteryQuery(false, ZERO_ADDRESS);
    app.HandleHciPacket(HciEventPacket(BtstackState(Working)), cid);
    assert app.appState == W4ScanResult && app.actions == [PowerOn, SetScanParameters, StartScan];
    ZeroAddressInitiallyBlacklisted();
    app.HandleHciPacket(HciEventPacket(GapAdvertisingReport(0, 1, ZERO_ADDRESS, 0, [])), cid);
    assert app.appState == W4ScanResult && |app.actions| == 3;
    app.HandleHciPacket(HciEventPacket(GapAdvertisingReport(0, 1, good, 0, [])), cid);
    assert app.appState == W4Connect && app.actions[3..] == [StopScan, Connect(good, 1)];
    app.HandleHciPacket(HciEventPacket(MetaGap(LeConnectionComplete(7))), cid);
    assert app.appState == Connected && app.connectionHandle == 7 && app.actions[5..] == [ServiceConnect(7)];
    ghost var ring := app.BlacklistRing();
    app.HandleGattPacket(GattServiceMeta(BatteryServiceConnected(0x12, 0, 0)));
    InsertThenContains(ring, good);
    assert Contains(app.BlacklistRing(), good);
    assert app.appState == Connected && app.actions[6..] == [Disconnect(7)];
    app.HandleHciPacket(HciEventPacket(DisconnectionComplete(7)), cid);
    assert app.appState == W4ScanResult && app.connectionHandle == HCI_CON_HANDLE_INVALID;
    assert app.actions[7..] == [ServiceDisconnect(cid), StartScan];
  }
}
