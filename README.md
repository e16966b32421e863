# Inspection rail protocol, camera session and robot registry — a Dafny model

This project models the device-control core of a GB28181 video platform that also drives inspection rails (track robots).

- **PelcoFrame** — the 7-byte Pelco-D style frame `FF address cmd1 cmd2 data1 data2 checksum`. The checksum is the unsigned sum of bytes 1..5 modulo 256. The module also holds the fixed command tuples the rail's movement, light, speed, preset, auxiliary and position-query operations send.
- **FrameParser** — the receive path as pure functions. `Parse` is the loop over the accumulated byte buffer: it resynchronises on `0xFF`, classifies each 7-byte candidate frame, checks the checksum of position frames, and feeds the high/low position assembler. The assembler has one pending slot (`currentHigh`, `expectingLow`).
- **Robot** — the class `InspectRobot`. Its fields are the receive buffer, the assembler, an event log standing in for the listeners, a log of the bytes written to the socket, the connected flag and the heartbeat time stamp. Its methods are proved to compute exactly `Parse` (`ParseResponse`, `Feed`) and `Encode` (`Send`).
- **NetSdk** — the class `DeviceManager`: the login handle of one camera and its map from channel to stream context (`playHandle`, `isSaving`). Every call into the vendor device context is appended to a call log. What such a call returns (a handle, success or an exception) is a parameter of the operation.
- **Registry** — the class `InspectRobotsManager`, a host-to-robot map, and its periodic reconcile sweep over the device list. `SweepFrom` is the sweep as a function of the device list and the registered robots' connection status. The `Reconcile` method is proved to compute it. The asynchronous connect task is a separate step, `RunConnectTask`.
- **PageTitle** — the browser tab title of the web console.
- **Seqs** — two generic sequence identities (appending nothing, associativity) that the logging loops apply as equations.

## Model

| member | source | states |
|---|---|---|
| PelcoFrame.CalculateChecksum | src/main/java/com/genersoft/iot/vmp/ykd/SDK/InspectRobot.java:500-506 | the summing loop returns the unsigned sum of `data[start..start+length]` modulo 256 |
| PelcoFrame.BuildPelcoDCommand | src/main/java/com/genersoft/iot/vmp/ykd/SDK/InspectRobot.java:139-156 | the fresh 7-byte buffer holds exactly `Frame(f)`: sync byte, the five fields, their checksum |
| PelcoFrame.FrameLayout | src/main/java/com/genersoft/iot/vmp/ykd/SDK/InspectRobot.java:139-156 | an encoded frame has length 7, byte 0 is 0xFF, bytes 1..5 are address, cmd1, cmd2, data1, data2, byte 6 is their sum mod 256 |
| PelcoFrame.DecodeFrame | src/main/java/com/genersoft/iot/vmp/ykd/SDK/InspectRobot.java:368-388 | every encoded frame passes the receiver's checksum test and decodes back to its fields |
| PelcoFrame.FrameOfDecode | src/main/java/com/genersoft/iot/vmp/ykd/SDK/InspectRobot.java:368-388 | a 7-byte frame that decodes is exactly the encoding of what it decodes to (decoding is injective) |
| PelcoFrame.CommandFields | src/main/java/com/genersoft/iot/vmp/ykd/SDK/InspectRobot.java:192-331 | every rail command goes to address 0x01 with cmd1 = data1 = 0x00 |
| PelcoFrame.DirectionCodeInjective | src/main/java/com/genersoft/iot/vmp/ykd/SDK/InspectRobot.java:192-218 | the four direction codes are distinct, so a move frame names one direction |
| PelcoFrame.SwitchFrames | src/main/java/com/genersoft/iot/vmp/ykd/SDK/InspectRobot.java:192-250 | move, light, high speed and auxiliary send cmd2 0x09 exactly when enabling and 0x0B exactly when disabling; data2 is the direction code, 0x03, 0x04 or the function code |
| PelcoFrame.LightAndSpeedAreAuxSwitches | src/main/java/com/genersoft/iot/vmp/ykd/SDK/InspectRobot.java:226-299 | the light and high-speed frames are the auxiliary-switch frames for codes 0x03 and 0x04 |
| PelcoFrame.PresetFrames | src/main/java/com/genersoft/iot/vmp/ykd/SDK/InspectRobot.java:258-282 | setPreset and gotoPreset send cmd2 0x03 and 0x07 with data2 = preset number, byte for byte including the checksum |
| PelcoFrame.QueryFrames | src/main/java/com/genersoft/iot/vmp/ykd/SDK/InspectRobot.java:306-331 | the position queries are exactly `FF 01 00 EB 00 00 EC` and `FF 01 00 EA 00 00 EB` |
| FrameParser.FirstSync | src/main/java/com/genersoft/iot/vmp/ykd/SDK/InspectRobot.java:339-345 | the index found holds a sync byte |
| FrameParser.FirstSyncIsFirst | src/main/java/com/genersoft/iot/vmp/ykd/SDK/InspectRobot.java:339-345 | no sync byte comes before the index found, and none is found exactly when the buffer has none |
| FrameParser.DropToSync | src/main/java/com/genersoft/iot/vmp/ykd/SDK/InspectRobot.java:352-356 | dropping the bytes before the first sync byte leaves a buffer that is empty or starts with 0xFF, and no longer than before |
| FrameParser.Resynchronise | src/main/java/com/genersoft/iot/vmp/ykd/SDK/InspectRobot.java:337-359 | a buffer under 7 bytes is left untouched, one of 7 or more without 0xFF is cleared, otherwise parsing starts from the first 0xFF |
| FrameParser.ConsumeFrame | src/main/java/com/genersoft/iot/vmp/ykd/SDK/InspectRobot.java:362-396 | a buffer starting with 0xFF and holding 7 bytes loses exactly those 7 bytes, whatever the frame's kind or checksum |
| FrameParser.ParseLeavesShortSuffix | src/main/java/com/genersoft/iot/vmp/ykd/SDK/InspectRobot.java:337-397 | the parse loop always ends with fewer than 7 bytes, a suffix of its input |
| FrameParser.NoiseBeforeFrame | src/main/java/com/genersoft/iot/vmp/ykd/SDK/InspectRobot.java:347-359 | bytes without 0xFF in front of a whole frame change nothing |
| FrameParser.BadChecksumIgnored | src/main/java/com/genersoft/iot/vmp/ykd/SDK/InspectRobot.java:373-388 | a position frame with a wrong checksum reaches neither the assembler nor a listener |
| FrameParser.PresetReport | src/main/java/com/genersoft/iot/vmp/ykd/SDK/InspectRobot.java:416-423 | a preset frame reports data1*256+data2, Horizontal exactly when byte 1 is 0x1A, whatever its byte 6 |
| FrameParser.HighHalfStored | src/main/java/com/genersoft/iot/vmp/ykd/SDK/InspectRobot.java:430-435 | a valid high frame of either axis overwrites the pending high half with data1*256+data2 and arms the slot |
| FrameParser.UnmatchedLowDiscarded | src/main/java/com/genersoft/iot/vmp/ykd/SDK/InspectRobot.java:442-443 | a low frame with no high half pending changes nothing and reports nothing |
| FrameParser.LowHalfCompletes | src/main/java/com/genersoft/iot/vmp/ykd/SDK/InspectRobot.java:442-465 | a valid low frame after a high half reports high*65536+low (below 2^32) on axis Horizontal for 0xDB and Vertical for 0xDF, and disarms the slot |
| FrameParser.HighThenLow | src/main/java/com/genersoft/iot/vmp/ykd/SDK/InspectRobot.java:336-465 | a high frame then a low frame give exactly one position event, high * 65536 + low, on the low frame's axis, even when the high frame was for the other axis |
| FrameParser.WorkedExampleFrames | src/main/java/com/genersoft/iot/vmp/ykd/SDK/InspectRobot.java:430-465 | the high and low example frames, checksums included, byte for byte |
| FrameParser.WorkedExample | src/main/java/com/genersoft/iot/vmp/ykd/SDK/InspectRobot.java:336-465 | `FF 01 00 DC 00 05 E2 FF 01 00 DB 00 0A E6` reports 327690 pulses, horizontally |
| FrameParser.ParseKeepsAssemblerValid | src/main/java/com/genersoft/iot/vmp/ykd/SDK/InspectRobot.java:430-447 | the pending high half stays 16-bit, so every reported pulse count fits in 32 bits |
| FrameParser.ParseFromSync | src/main/java/com/genersoft/iot/vmp/ykd/SDK/InspectRobot.java:347-359 | parsing depends only on the buffer from its first 0xFF on |
| FrameParser.ParseSplit | src/main/java/com/genersoft/iot/vmp/ykd/SDK/InspectRobot.java:336-398 | splitting a byte stream between two reads gives the same events and assembler state as one read, and a remainder no later parse can tell apart |
| FrameParser.DropToSyncAppend | src/main/java/com/genersoft/iot/vmp/ykd/SDK/InspectRobot.java:347-356 | after new bytes are appended, the buffer from its first sync byte on is the old one's plus the new bytes, or the new bytes' own when the old buffer has no sync byte |
| FrameParser.SameRemainderSameFuture | src/main/java/com/genersoft/iot/vmp/ykd/SDK/InspectRobot.java:336-398 | remainders that agree from their first sync byte on give the same events, assembler and again indistinguishable remainders, whatever bytes are read next |
| Robot.FindFrameStart | src/main/java/com/genersoft/iot/vmp/ykd/SDK/InspectRobot.java:339-345 | the search loop returns the first sync byte's index, or -1 exactly when there is none |
| Robot.InspectRobot.constructor | src/main/java/com/genersoft/iot/vmp/ykd/SDK/InspectRobot.java:45-53 | the field initialisers, with the heartbeat stamp of InspectRobot.java:548: a new robot has an empty buffer, a disarmed assembler, no events, nothing sent, is not connected, stamps the heartbeat with the creation time, and has a 16-bit pending high half |
| Robot.InspectRobot.Connect | src/main/java/com/genersoft/iot/vmp/ykd/SDK/InspectRobot.java:91-108 | opening the socket marks the link connected; a failure changes nothing |
| Robot.InspectRobot.Disconnect | src/main/java/com/genersoft/iot/vmp/ykd/SDK/InspectRobot.java:511-529 | the link ends disconnected |
| Robot.InspectRobot.GetConnectionStatus | src/main/java/com/genersoft/iot/vmp/ykd/SDK/InspectRobot.java:608-612 | returns the connected flag |
| Robot.InspectRobot.SendCommand | src/main/java/com/genersoft/iot/vmp/ykd/SDK/InspectRobot.java:120-127 | a successful write appends exactly the built frame to what was sent; a failed write appends nothing |
| Robot.InspectRobot.Send | src/main/java/com/genersoft/iot/vmp/ykd/SDK/InspectRobot.java:192-331 | each rail operation appends exactly `Encode` of its command |
| Robot.InspectRobot.RemoveFrameFromBuffer | src/main/java/com/genersoft/iot/vmp/ykd/SDK/InspectRobot.java:405-409 | removes the first `length` bytes, or the whole buffer when it is shorter |
| Robot.InspectRobot.HandlePresetReached | src/main/java/com/genersoft/iot/vmp/ykd/SDK/InspectRobot.java:416-423 | appends the preset event `HandleFrame` gives |
| Robot.InspectRobot.HandleHighPosition | src/main/java/com/genersoft/iot/vmp/ykd/SDK/InspectRobot.java:430-435 | the assembler becomes the one `HandleFrame` gives, with no event |
| Robot.InspectRobot.HandleLowPosition | src/main/java/com/genersoft/iot/vmp/ykd/SDK/InspectRobot.java:442-465 | the assembler and the events become those `HandleFrame` gives; the heartbeat is stamped exactly when a position is reported |
| Robot.InspectRobot.DispatchFrame | src/main/java/com/genersoft/iot/vmp/ykd/SDK/InspectRobot.java:367-396 | the type test of one candidate frame has exactly the effect of `HandleFrame` on assembler and events, and stamps the heartbeat exactly when it reports a position |
| Robot.InspectRobot.SeekFrame | src/main/java/com/genersoft/iot/vmp/ykd/SDK/InspectRobot.java:339-359 | the buffer becomes `DropToSync` of the old one (cleared without a sync byte, else trimmed to the first one), which does not change what `Parse` computes from it; it reports a frame exactly when 7 or more bytes are left |
| Robot.InspectRobot.ConsumeFrontFrame | src/main/java/com/genersoft/iot/vmp/ykd/SDK/InspectRobot.java:362-396 | exactly the front 7 bytes are removed and the assembler becomes the one `HandleFrame` gives for them, which is one step of `Parse` |
| Robot.InspectRobot.ParseResponse | src/main/java/com/genersoft/iot/vmp/ykd/SDK/InspectRobot.java:336-398 | the buffer, assembler and events after the loop are exactly the remainder, assembler and events of `Parse`; the pending high half stays 16-bit |
| Robot.InspectRobot.Feed | src/main/java/com/genersoft/iot/vmp/ykd/SDK/InspectRobot.java:171-176 | appending a read and parsing gives `Parse` of the old buffer plus the read, and leaves fewer than 7 bytes |
| Robot.InspectRobot.HeartbeatQuery | src/main/java/com/genersoft/iot/vmp/ykd/SDK/InspectRobot.java:556-566 | while connected the position query is sent; a failed send marks the link disconnected; a disconnected link sends nothing |
| Robot.InspectRobot.HeartbeatWatchdog | src/main/java/com/genersoft/iot/vmp/ykd/SDK/InspectRobot.java:569-576 | the link stays connected exactly when it was and the last position report is no older than the timeout |
| NetSdk.DeviceManager.constructor | src/main/java/com/genersoft/iot/vmp/hik/NetSDK/DeviceManager.java:17-19 | a new manager is logged out, with no stream context and no call made |
| NetSdk.DeviceManager.LoginDevice | src/main/java/com/genersoft/iot/vmp/hik/NetSDK/DeviceManager.java:41-47 | a no-op when logged in; otherwise one login call, whose handle becomes the login handle, or which fails and leaves the manager logged out |
| NetSdk.DeviceManager.LogoutDevice | src/main/java/com/genersoft/iot/vmp/hik/NetSDK/DeviceManager.java:52-84 | a no-op when logged out; otherwise the calls made are exactly the stops due for the open streams plus the logout, the logout last, and the manager always ends logged out with no stream context |
| NetSdk.DeviceManager.CheckUserID | src/main/java/com/genersoft/iot/vmp/hik/NetSDK/DeviceManager.java:86-91 | logged out the answer is false and no call is made; logged in it is the SDK's answer |
| NetSdk.DeviceManager.CaptureJPEGPicture | src/main/java/com/genersoft/iot/vmp/hik/NetSDK/DeviceManager.java:93-99 | refused without a call when logged out; otherwise one capture call with the login handle |
| NetSdk.DeviceManager.CaptureJPEGPictureWithAppendData | src/main/java/com/genersoft/iot/vmp/hik/NetSDK/DeviceManager.java:101-103 | always one call, with the login handle as it is, logged out or not |
| NetSdk.DeviceManager.GetRealStreamData | src/main/java/com/genersoft/iot/vmp/hik/NetSDK/DeviceManager.java:110-120 | refused when logged out, a no-op for a channel with a context, otherwise exactly one new context, with the SDK's handle and not saving |
| NetSdk.DeviceManager.StopRealStreamData | src/main/java/com/genersoft/iot/vmp/hik/NetSDK/DeviceManager.java:127-139 | a no-op for an unknown channel; otherwise the recording stop when saving, then the real-play stop, and only that channel's context is removed when both succeed |
| NetSdk.DeviceManager.StartSaveRealData | src/main/java/com/genersoft/iot/vmp/hik/NetSDK/DeviceManager.java:147-158 | refused for a channel without context, a no-op when already saving, otherwise one start call and only that channel becomes saving |
| NetSdk.DeviceManager.StopSaveRealData | src/main/java/com/genersoft/iot/vmp/hik/NetSDK/DeviceManager.java:165-172 | nothing unless the channel is saving; then one stop call and only that channel stops saving |
| NetSdk.StopCalls | src/main/java/com/genersoft/iot/vmp/hik/NetSDK/DeviceManager.java:133-137 | closing a stream asks to stop its recording exactly when it is saving, and its real play exactly unless the recording stop failed |
| Registry.SplitFields | src/main/java/com/genersoft/iot/vmp/ykd/SDK/InspectRobotsManager.java:88 | splitting gives at least one field |
| Registry.DropTrailingEmptyShape | src/main/java/com/genersoft/iot/vmp/ykd/SDK/InspectRobotsManager.java:88 | Java's split keeps a prefix of the fields that does not end in an empty field, and drops only empty fields |
| Registry.JoinSplit | src/main/java/com/genersoft/iot/vmp/ykd/SDK/InspectRobotsManager.java:88 | joining the fields of a string with ':' gives the string back, and no field holds a ':' |
| Registry.SplitColonFree | src/main/java/com/genersoft/iot/vmp/ykd/SDK/InspectRobotsManager.java:88 | a string without ':' is one field |
| Registry.SplitAtColon | src/main/java/com/genersoft/iot/vmp/ykd/SDK/InspectRobotsManager.java:88 | the first ':' ends the first field |
| Registry.SplitJoin | src/main/java/com/genersoft/iot/vmp/ykd/SDK/InspectRobotsManager.java:88 | splitting colon-free fields joined with ':' gives the fields back |
| Registry.ParseInt | src/main/java/com/genersoft/iot/vmp/ykd/SDK/InspectRobotsManager.java:90 | a parsed port is a 32-bit int |
| Registry.DecimalDigits | src/main/java/com/genersoft/iot/vmp/ykd/SDK/InspectRobotsManager.java:90 | the decimal digits of a number parse back to it |
| Registry.ParseIntString | src/main/java/com/genersoft/iot/vmp/ykd/SDK/InspectRobotsManager.java:90 | Integer.parseInt reads back what Integer.toString writes, over the whole int range |
| Registry.HostRoundTrip | src/main/java/com/genersoft/iot/vmp/ykd/SDK/InspectRobotsManager.java:88-90 | the address `ip:port` is read back as that ip and port whenever the ip has no ':' and the port is an int |
| Registry.NoColonNoAddress | src/main/java/com/genersoft/iot/vmp/ykd/SDK/InspectRobotsManager.java:88-90 | a host without ':' has no port piece, so the sweep throws on it |
| Registry.BadPortNoAddress | src/main/java/com/genersoft/iot/vmp/ykd/SDK/InspectRobotsManager.java:90 | a host whose port piece is not an int makes the sweep throw |
| Registry.DecideCases | src/main/java/com/genersoft/iot/vmp/ykd/SDK/InspectRobotsManager.java:84-111 | for one device: skip exactly when the host is null or empty, throw exactly when it is malformed, keep a connected robot, remove a disconnected one, submit a connect task with the parsed address exactly for a host without robot |
| Registry.SweepStep | src/main/java/com/genersoft/iot/vmp/ykd/SDK/InspectRobotsManager.java:81-112 | one device of the forEach: a throw ends the sweep, otherwise the rest of the list runs on the updated registry and tasks |
| Registry.SweepOnlyRemovesListed | src/main/java/com/genersoft/iot/vmp/ykd/SDK/InspectRobotsManager.java:80-112 | the sweep only removes robots, leaves the status of the rest alone, and never touches a host that is not listed |
| Registry.ConnectedKept | src/main/java/com/genersoft/iot/vmp/ykd/SDK/InspectRobotsManager.java:92-95 | a connected robot survives the sweep |
| Registry.SweepAborts | src/main/java/com/genersoft/iot/vmp/ykd/SDK/InspectRobotsManager.java:88-90 | the sweep stops early exactly when some listed host is malformed |
| Registry.SubmittedKept | src/main/java/com/genersoft/iot/vmp/ykd/SDK/InspectRobotsManager.java:97-110 | submitted tasks are never withdrawn by the rest of the sweep |
| Registry.SweepHandlesListed | src/main/java/com/genersoft/iot/vmp/ykd/SDK/InspectRobotsManager.java:91-111 | a sweep that runs to the end removes every listed robot that is disconnected and submits a task for every listed host without robot |
| Registry.SubmittedAreListedAndAbsent | src/main/java/com/genersoft/iot/vmp/ykd/SDK/InspectRobotsManager.java:96-111 | every submitted task is for a listed host, carries the address parsed from it, and is for a host with no robot when the sweep ends |
| Registry.InspectRobotsManager.constructor | src/main/java/com/genersoft/iot/vmp/ykd/SDK/InspectRobotsManager.java:51 | a new registry has no robot and no pending task |
| Registry.InspectRobotsManager.GetInspectRobot | src/main/java/com/genersoft/iot/vmp/ykd/SDK/InspectRobotsManager.java:54-56 | returns the robot registered under the host, null when there is none |
| Registry.InspectRobotsManager.AddInspectRobot | src/main/java/com/genersoft/iot/vmp/ykd/SDK/InspectRobotsManager.java:59-61 | registers the robot under the host, replacing any earlier one, and changes no other host |
| Registry.InspectRobotsManager.RemoveInspectRobot | src/main/java/com/genersoft/iot/vmp/ykd/SDK/InspectRobotsManager.java:64-74 | the host's key is always removed, an absent host included; its robot is disconnected; other hosts keep their robots and, unless they share that robot, their status |
| Registry.InspectRobotsManager.Reconcile | src/main/java/com/genersoft/iot/vmp/ykd/SDK/InspectRobotsManager.java:78-113 | the statuses, the tasks and whether it threw are exactly those `SweepFrom` computes; every robot left was registered before, under the same host |
| Registry.InspectRobotsManager.ReconcileDevice | src/main/java/com/genersoft/iot/vmp/ykd/SDK/InspectRobotsManager.java:81-112 | the forEach body for one device has exactly the effect `Decide` gives on the registry and the tasks |
| Registry.InspectRobotsManager.RunConnectTask | src/main/java/com/genersoft/iot/vmp/ykd/SDK/InspectRobotsManager.java:97-108 | running a task removes it; a successful connect registers a fresh, connected robot under the task's host, in the state `new InspectRobot()` gives it (empty buffer, disarmed assembler, no events, nothing sent, heartbeat stamped now, `Valid`); a failed one registers nothing |
| PageTitle.AppTitle | web/src/utils/get-page-title.js:3 | the settings title when it is truthy, else the fixed fallback; never empty |
| PageTitle.GetPageTitle | web/src/utils/get-page-title.js:5-10 | the tab title ends with the application title, and equals it exactly when the page title is falsy |
| PageTitle.TitledPage | web/src/utils/get-page-title.js:6-8 | a truthy page title is followed by " - " and the application title |
| PageTitle.PageTitleRoundTrip | web/src/utils/get-page-title.js:5-10 | the page title can be read back from the tab title: exactly when truthy, as none when falsy |
| PageTitle.GetPageTitleInjective | web/src/utils/get-page-title.js:6-8 | two truthy page titles give the same tab title only when they are equal |

## Left out

- Socket I/O, the receive thread and the executors are not modelled. A write is an append to `sent` with its success as a parameter. A read is `Feed` with the bytes read as a parameter. A receive error, and the `disconnect` that follows it, are not modelled. Neither is the 15-second socket timeout.
- The listeners are replaced by the `events` log, and the host string passed to them is dropped. The two position listeners are taken to be registered, because the registry starts both heartbeats right after a connect and the heartbeats set them (src/main/java/com/genersoft/iot/vmp/ykd/SDK/InspectRobot.java:553, 582).
- Robot.InspectRobot.HandlePresetReached: logs every `PresetReached` event, but in the code the event reaches someone only if a caller has registered a preset-reached listener itself; the registry's connect task never does, and the call is skipped while the listener is null (src/main/java/com/genersoft/iot/vmp/ykd/SDK/InspectRobot.java:420-422).
- The pulse-to-distance conversion (src/main/java/com/genersoft/iot/vmp/ykd/SDK/InspectRobot.java:473-490) is floating point. Position events carry the integer pulse count instead of the distance.
- The heartbeat schedulers (src/main/java/com/genersoft/iot/vmp/ykd/SDK/InspectRobot.java:551-606) are timers. Only one query step (`HeartbeatQuery`) and one watchdog step (`HeartbeatWatchdog`) are modelled, with the clock as a parameter. The `reconnecting` flag is never set in the code, so the watchdog omits it. The commented-out auto-reconnect is dead code.
- `bytesToHex` and the console printing are logging only.
- Robot.InspectRobot.Connect: stores neither the host string nor the socket; it only records whether the socket opened.
- NetSdk: the device-context and SDK internals are not modelled. Each call is an entry in `calls`, and its result is a parameter. The image path and the video path are not recorded. A failed login or real-play call is modelled as the exception the device context throws, which leaves the handle unset.
- NetSdk.DeviceManager.LogoutDevice: does not reset `isSaving` on each context before the map is cleared, because the cleared map makes that reset invisible. The order of the stop calls follows the map's iteration order, so the contract states the set of calls, not their order.
- NetSdk: `finalize` (src/main/java/com/genersoft/iot/vmp/hik/NetSDK/DeviceManager.java:22-31) is garbage-collector driven and not modelled. Its effect is `LogoutDevice`.
- NetSdk: play handles are natural numbers; the SDK's negative error handles surface as a failed call instead.
- Registry: the device-service query, the paging, `@Scheduled` and the thread pool are not modelled. The device list is a parameter: `None` is a device without host. Submitted tasks wait in `tasks` until `RunConnectTask` runs one. `shutdown` (src/main/java/com/genersoft/iot/vmp/ykd/SDK/InspectRobotsManager.java:115-120) is not modelled: it only disconnects every robot when the application stops.
- Registry.ParseInt: accepts ASCII digits only, whereas Integer.parseInt also accepts other Unicode decimal digits.
- Registry.InspectRobotsManager.RunConnectTask: does not start the heartbeats; they are the separate steps above.

Behaviour of the code worth noting:

- The position assembler has one pending high half shared by both axes, not one per axis. A horizontal high frame followed by a vertical low frame reports a vertical position (`FrameParser.HighThenLow`).
- The reconcile sweep never removes a robot whose host is missing from the device list (`Registry.SweepOnlyRemovesListed`).
- A malformed host (no ':' or a non-numeric port) throws out of the forEach. That ends the whole sweep, so the devices after it are not reconciled (`Registry.SweepAborts`).
- A host listed twice without a robot can get two connect tasks: in the code the second listing submits nothing if the first task has already registered its robot, while in the model no task runs before the sweep ends, so it is always two.
