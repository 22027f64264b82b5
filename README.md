# GATT battery query client: blacklist and scan/connect state machine

This project models the control logic of BTstack's `gatt_battery_query`
example in Dafny. The example is a Bluetooth LE client. It scans for
advertisers, connects to the first device that is not blacklisted, and starts
the Battery Service client on it. A device whose battery service fails to
connect goes into a 20-slot blacklist ring. With `-a <addr>` on the command
line, the client skips scanning and connects to that one address.

Modules:

- `BleTypes` (ble_types.dfy): `uint8_t`, `uint16_t`, the six-byte `bd_addr_t`, and the constants the handlers compare against.
- `Blacklist` (blacklist.dfy): the blacklist as a value (`Ring`: twenty slots and the cursor `blacklist_index`). It has `Contains` and `Insert`, `InsertAll` for a series of insertions, and the ring lemmas.
- `Orchestrator` (orchestrator.dfy): the application's static state as one value (`App`). The inbound packets and the outbound stack calls (`Action`) are datatypes. The two callbacks are the functions `HciStep` and `GattStep`. One lemma per handler branch states what that branch does.
- `Traces` (traces.dfy): `Run` feeds any sequence of packets to the two callbacks. Its lemmas are properties of every run.
- `BatteryQuery` (battery_query.dfy): the class `GattBatteryQuery`. It holds the statics as fields and the blacklist as an `array<Address>`. Its methods update the fields in place and append every stack call to the field `actions`. Each method is proved against the functions above. A client method, `ScanConnectFailRescan`, walks one scan/connect/fail/rescan cycle through the class.
- `CommandLine` (command_line.dfy): the argument loop of `btstack_main`. The address parser `sscanf_bd_addr` is passed in as a function parameter.

The stack functions themselves (`gap_*`, `battery_service_client_*`,
`hci_power_control`) are not modelled. A call to one of them is an `Action`
value appended to the log. The session id that `battery_service_client_connect`
writes back is a parameter of the HCI handler (`assignedCid`), so it can take
any value.

The model follows the code where it departs from the tidy transition table
one might draw for this client:

- A failed battery-service connect leaves `app_state` at CONNECTED. It does not move to W4_CONNECT (gatt_battery_query.c:290-294).
- The disconnection handler does not check `app_state`. In fixed-target mode it leaves `app_state` unchanged and does not set it to IDLE (gatt_battery_query.c:238-247).
- `BTSTACK_EVENT_STATE` with a working stack acts in every state, not only in IDLE (gatt_battery_query.c:182-195).
- The battery-service handler checks no state at all (gatt_battery_query.c:276-312).
- `report` is not cleared when scanning restarts. It keeps the last recorded advertiser.
- `blacklist_contains` scans all twenty slots, including slots never written. The zero-initialised array therefore makes the all-zero address blacklisted from start-up (`ZeroAddressInitiallyBlacklisted`).
- In fixed-target mode `report` is never written. A failed service connect there blacklists the all-zero address, not the target. This does no harm, because the fixed-target path never consults the blacklist.
- The fixed-target path connects without consulting the blacklist. A target of `00:00:00:00:00:00` is therefore connected to although the zero-initialised blacklist holds it (`FixedTargetMayConnectBlacklisted`). The guarantee that blacklisted devices are never connected covers scan mode only.

## Model

| member | source | states |
|---|---|---|
| Blacklist.Initial | example/gatt_battery_query.c:81-82 | the blacklist starts with every one of its 20 slots holding the all-zero address and the cursor at 0 |
| Blacklist.Insert | example/gatt_battery_query.c:147-151 | an insertion writes the address into the slot under the cursor, leaves the other 19 slots unchanged, and moves the cursor to (old + 1) mod 20, which stays in [0, 20) |
| Blacklist.InsertAll | example/gatt_battery_query.c:147-151 | after n insertions the ring is still well formed and the cursor is (start + n) mod 20 |
| Blacklist.InsertThenContains | example/gatt_battery_query.c:139-151 | right after an address is inserted it is reported present; every other address that was present stays present unless the overwritten slot held it |
| Blacklist.InsertAllSlots | example/gatt_battery_query.c:147-150 | after a series of insertions, each of the last 20 addresses sits in the slot it was written to, and a slot no insertion reached keeps its old address |
| Blacklist.ContainsLastInsertions | example/gatt_battery_query.c:135-150 | after at least 20 insertions, an address is reported present exactly when it is among the last 20 inserted; older entries and the initial contents are gone |
| Blacklist.FullTurn | example/gatt_battery_query.c:135-151 | 20 consecutive insertions bring the cursor back to its start and overwrite every slot, the j-th of them landing j slots after the start |
| Blacklist.FullTurnContains | example/gatt_battery_query.c:135-151 | after 20 consecutive insertions an address is present iff it was one of those 20 |
| Blacklist.StaysWithinCapacity | example/gatt_battery_query.c:139-151 | an inserted address stays present while fewer than 20 further insertions follow |
| Blacklist.TwentyFirstInsertionEvicts | example/gatt_battery_query.c:135-151 | after 21 insertions whose first address does not recur, the first is no longer present and all of the last 20 are |
| Blacklist.ZeroAddressInitiallyBlacklisted | example/gatt_battery_query.c:139-145 | because the scan covers never-written slots of the zero-initialised array, the all-zero address, and only it, is reported present at start-up |
| Orchestrator.Start | example/gatt_battery_query.c:343 | the state `btstack_main` leaves before power-on: IDLE, an empty (all-zero) blacklist, and the command-line target |
| Orchestrator.HciStep | example/gatt_battery_query.c:168-258 | the HCI handler keeps the blacklist valid and unchanged and never alters the command-line target |
| Orchestrator.GattStep | example/gatt_battery_query.c:266-313 | the battery-service handler changes at most the blacklist and keeps it valid |
| Orchestrator.StackWorkingStarts | example/gatt_battery_query.c:182-195 | a stack-state event does nothing unless the state is WORKING; then with a fixed target it moves to W4_CONNECT and issues exactly `gap_connect(target, 0)`, otherwise it moves to W4_SCAN_RESULT and issues set-scan-parameters then start-scan |
| Orchestrator.AdvertisingReportHandled | example/gatt_battery_query.c:197-212 | an advertising report does nothing outside W4_SCAN_RESULT; in it, the report is recorded, a blacklisted sender causes nothing more, and any other sender gets stop-scan then `gap_connect(address, type)` and the state becomes W4_CONNECT |
| Orchestrator.ScanNeverConnectsBlacklisted | example/gatt_battery_query.c:197-212 | outside fixed-target mode the HCI handler never issues a connect to an address in the blacklist |
| Orchestrator.FixedTargetMayConnectBlacklisted | example/gatt_battery_query.c:182-188 | with the all-zero address as fixed target, that address is blacklisted from the start and the stack coming up still issues `gap_connect` to it, so the scan-mode exemption above is needed |
| Orchestrator.ConnectionCompleteHandled | example/gatt_battery_query.c:215-236 | a LE connection-complete in W4_CONNECT stores the handle and session id, issues a battery-service connect on that handle and moves to CONNECTED; in other states, and for other GAP subevents, nothing happens |
| Orchestrator.DisconnectionHandled | example/gatt_battery_query.c:238-254 | a disconnection in any state invalidates the handle and disconnects the battery service; with a fixed target the state is untouched and no scan starts; otherwise the state becomes W4_SCAN_RESULT and start-scan is issued |
| Orchestrator.UnknownHciPacketsIgnored | example/gatt_battery_query.c:175-256 | non-event packets and unhandled HCI events change nothing and issue nothing |
| Orchestrator.ServiceConnectedHandled | example/gatt_battery_query.c:281-296 | a successful service connect issues exactly one read of instance 0; a failed one inserts the reported address into the blacklist (which then contains it), issues `gap_disconnect(handle)` and leaves the state unchanged |
| Orchestrator.OtherServiceEventsIgnored | example/gatt_battery_query.c:276-312 | battery-level events whatever their ATT status, other service subevents and non-service packets change nothing and issue nothing |
| Traces.Run | example/gatt_battery_query.c:168-313 | no sequence of events changes the command-line target or breaks the blacklist's shape |
| Traces.FixedTargetNeverScans | example/gatt_battery_query.c:182-254 | in fixed-target mode, from any state but W4_SCAN_RESULT, no sequence of events reaches W4_SCAN_RESULT, issues a scan call, or connects anywhere but `(target, 0)` |
| Traces.ScanModeStopsBeforeConnect | example/gatt_battery_query.c:197-212 | in scan mode every connect issued in any run directly follows a stop-scan |
| Traces.BlacklistChangesOnlyOnServiceFailure | example/gatt_battery_query.c:290-294 | a run with no failed battery-service connect leaves the blacklist exactly as it was |
| BatteryQuery.GattBatteryQuery.constructor | example/gatt_battery_query.c:343-346 | zero-initialised statics, `app_state` IDLE, the command-line target recorded, and a single power-on call |
| BatteryQuery.GattBatteryQuery.BlacklistSize | example/gatt_battery_query.c:135-137 | the blacklist's size is its capacity, 20 |
| BatteryQuery.GattBatteryQuery.BlacklistContains | example/gatt_battery_query.c:139-145 | the loop over the array returns true exactly when some slot equals the address, and changes nothing |
| BatteryQuery.GattBatteryQuery.AddToBlacklist | example/gatt_battery_query.c:147-151 | the in-place write and cursor update equal `Insert` on the ring value, and nothing else of the object changes |
| BatteryQuery.GattBatteryQuery.HandleHciPacket | example/gatt_battery_query.c:168-258 | the handler's field updates equal `HciStep`'s next state, the calls it makes equal `HciStep`'s calls appended to the log, and the blacklist array is untouched |
| BatteryQuery.GattBatteryQuery.HandleGattPacket | example/gatt_battery_query.c:266-313 | the handler's field and array updates equal `GattStep`'s next state, and the calls it makes equal `GattStep`'s calls appended to the log |
| CommandLine.ParseArguments | example/gatt_battery_query.c:320-339 | the argument loop, including the `arg++` that consumes the address, produces the outcome `Parse` defines |
| CommandLine.NoFlagMeansScan | example/gatt_battery_query.c:323-339 | without `-a`/`--address` the program proceeds in scan mode with the all-zero address |
| CommandLine.TargetComesFromFlag | example/gatt_battery_query.c:323-336 | a fixed target, when present, is an argument that follows an address flag and that the parser accepted; without one the address stays all zero |
| CommandLine.UsageErrors | example/gatt_battery_query.c:323-334 | from any position, the first address flag ends the program with the usage error when it is the last argument and no address was found before it, or when the parser rejects the argument after it |
| CommandLine.UsageErrorOnlyAtFlag | example/gatt_battery_query.c:323-334 | a usage error arises only from an address flag that is the last argument or whose next argument the parser rejects |

## Left out

- src/classic/btstack_sbc_bluedroid.h: it declares a struct and an init function for an external SBC encoder. It has no logic.
- `battery_service_client_setup` (gatt_battery_query.c:115-132): it only initialises the stack (L2CAP, ATT server, GATT client, security manager) and registers the callback. It makes no decisions.
- `dump_advertising_report` and all `printf`/`fprintf`/`printf_hexdump` output are logging only. The usage text and the exit status 1 are modelled as the `UsageError` outcome.
- The stack functions are not modelled. The model records each call as an `Action` and does not say what the call does. Dropped arguments: the scan type, interval and window given to `gap_set_scan_parameters`, and the callback and 2000 ms poll interval given to `battery_service_client_connect`.
- `battery_service_client_connect`'s status return is ignored, as the source does. The model always stores the session id the call writes back (`assignedCid`); it does not model a connect that fails before writing one.
- The numeric values of the HCI state enum and of the event and subevent codes are not modelled. The model uses datatype constructors, and an `Other…` constructor stands for every other code.
- `sscanf_bd_addr` is not part of this model. It is a function parameter that returns an address or nothing.
- The fields of `report` that are never written (`type`, `event_type`, `rssi`, `length`, `data`) are not modelled. Advertising data, RSSI and event type are carried in the event but not used, as in the source.
- Concurrency: none exists. The stack's event loop calls the handlers one at a time, and `Run` models exactly that.
