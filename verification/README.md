# Orion RS-485 protocol stack: model and proofs

A Dafny model of the two independent implementations of the Orion bus protocol: the PC library in C
(builders, parser, driver commands, sniffer, device tracker, proxy configuration) and the ESP32 firmware in
C++ (emulated device, passive bus monitor, polling master). Both ends share one CRC table and one XOR cipher
and meet on a byte stream, so most results cross component borders: bytes built by one program are framed,
checked, deciphered and acted on by another.

## How the model is arranged

| file | what it models |
|---|---|
| Bytes, Crc, Frames | bytes, wrapping clocks, the CRC table as written, bit-serial division, the frame and the cipher |
| Packets | `orion_packet_t` as an object: build, serialize, parse and decrypt in place |
| Devices, Stations | the abstract device (zones, queue of 32, keys), then with its receive buffer, and runs of it |
| Slave, Rings | `OrionSlave` over fixed arrays, refining the abstract station; circular buffers read as sequences |
| Links, Driver | driver and device over a link that may lose whole frames; the commands and the drain loop |
| Framing, Sniffer, Listening | the reference cutting of a stream, the three-state sniffer, the monitor's hybrid framer |
| Decoding, BusMonitor, Bus | what the monitor makes of frames, the `OrionBusMonitor` object, many devices with a listener |
| Overhearing, Wire | the monitor object over many polls beside the sniffer, and a whole bus run carried to it in bytes |
| Mastering, OrionMaster, Polling | the mode machine and poll cursor, the `OrionMaster` object, poller against device queue |
| Patrol | poller, any number of devices and listener on one bus |
| Tracking, DeviceTracker | the tracker held to the packet history, and the tracker object with its event ring |
| Ini, ConfigFile | the INI file as text, and the loader over C string buffers |

Objects whose methods update fields are classes; each method is proved to move the object's abstract value
exactly as a specification function says, and the results below are lemmas about those functions. Clock
readings, the bytes available on a port and the answers of registered callbacks are parameters.

## What the proofs found

- Table slot 0xF9 holds 0xFC where division gives 0xE8 (pc/src/orion_crc.c:23). Everything that survives is
  proved of the table as written: parity, sealing, the collision condition. Agreement with division holds
  exactly on runs that avoid the slot. XOR-linearity holds exactly as long as, at every step, the slot is looked
  up by an even number of the three runs compared.
- A zero length byte cannot pass the CRC test at a device address, which is the only reason why
  `pkt_len - 1` never wraps in the firmware.
- The device lets go of an event when it is read, not when it is confirmed. If the reply to a read is lost
  the event is lost; the confirmation changes nothing.
- After a length byte of 0, 254 or 255 the sniffer resynchronises at once while the monitor's framer waits
  for a size that its buffer cannot reach and hands over nothing until silence or overflow.
- On a CRC failure the sniffer discards the whole candidate; the comment at pc/src/orion_sniffer.c:20 speaks
  of shifting forward. The code is followed.
- The length byte is payload plus one (pc/src/orion_protocol.c:35); the captured frame at
  docs/PROTOCOL_COMPATIBILITY.md:99 counts one more. The code is followed.
- `switchToMaster` answers true in MASTER mode without looking at the bus. A request notified at clock reading 0
  is forgotten by the next poll, which matters exactly when it is the latest one.
- A log file name of 255 characters fits its field but not its line: it loses its last character when loaded.
- `tracker_format_events` shows the newest events exactly while the 32-bit write position is below 2^31 and
  has not just wrapped.
- The arm, disarm and reset commands return 0 whenever they are answered, also when the answer is a refusal,
  and the device answers ACK also for a zone that does not exist.
- The status reply of the device matches the offsets the PC driver reads but not those the monitor reads: after
  a status request the monitor holds for zone 2 the number of zones, whatever the device reports, so what it
  holds is right exactly when that number happens to be the zone's status byte.

## Model

| member | source | states |
|---|---|---|
| Crc.Compute | pc/src/orion_crc.c:26-34 | the loop computes the fold of the table over exactly the first `length` bytes |
| Crc.TableEntry | pc/src/orion_crc.c:7-24 | every slot but 0xF9 holds the remainder of its index by reflected division, and slot 0xF9 does not |
| Crc.TableCollisions | pc/src/orion_crc.c:7-24 | two slots hold the same entry if and only if they are the same slot or the pair 0x14 and 0xF9 |
| Crc.TableRefinesDivision | pc/src/orion_crc.c:3-34 | the checksum equals bit-serial division on every prefix of a message if and only if its run never looks up slot 0xF9 |
| Crc.Crc8Linear | pc/src/orion_crc.c:3-34 | for equally long strings the checksum is XOR-linear on every prefix up to m if and only if at no step before m an odd number of the three runs looks up slot 0xF9 |
| Crc.DefectBreaksLinearity | pc/src/orion_crc.c:23 | a concrete pair of messages whose XOR meets slot 0xF9, for which linearity fails |
| Crc.Crc8Parity | pc/src/orion_crc.c:7-34 | the checksum has the bit parity of the whole string, for the table as written |
| Crc.OddFlipsChangeCrc8 | pc/src/orion_crc.c:7-34 | two equally long strings differing in an odd number of bits never have the same checksum |
| Crc.SingleByteChange | pc/src/orion_crc.c:7-34 | a change confined to one byte goes unnoticed if and only if at some later step the two runs look up slots 0x14 and 0xF9 |
| Crc.Crc8Sealed | pc/src/orion_crc.c:7-34 | appending a byte makes the checksum zero if and only if that byte is the checksum |
| Frames.ParseOfFrame | pc/src/orion_protocol.c:97-139 | parsing a frame, whatever follows it in the buffer, gives back address, length, payload and CRC |
| Frames.FrameOfParse | pc/src/orion_protocol.c:97-139 | whatever parses is the frame of its own address and payload, and serializing the packet gives back those bytes |
| Frames.AcceptedIffZero | pc/src/orion_protocol.c:110-139 | a frame is accepted if and only if the CRC over it with its CRC byte is 0 |
| Frames.OddFlipsRejected | pc/src/orion_protocol.c:121-136 | any odd number of bit flips sparing the length byte turns an accepted frame into a rejected one |
| Frames.SingleByteRejected | pc/src/orion_protocol.c:121-136 | an accepted frame with one other byte changed is still accepted if and only if the two runs meet in the colliding slots |
| Frames.NoZeroLengthFrame | firmware/esp32_orion_slave/lib/OrionSlave/orion_slave.cpp:144-166 | a zero length byte at a non-zero address never passes the CRC test |
| Frames.DecipherOfEncipher | pc/src/orion_protocol.c:72-83 | deciphering an enciphered text yields the key byte, the text, and one zero for each padding byte |
| Frames.RequestRoundTrip | pc/src/orion_protocol.c:47-151 | build encrypted, serialize, parse and decrypt yields the key byte, the command and three zeros, for all addresses, keys and commands of up to 248 bytes |
| Frames.ReplyRoundTrip | firmware/esp32_orion_slave/lib/OrionSlave/orion_slave.cpp:474-497 | a reply of the device parses and decrypts on the PC to the key byte, the plaintext and one zero |
| Frames.ReceivedWholeOrNot | pc/src/orion_protocol.c:165-192 | a well-formed reply is received as it parses, and is not received if it is cut short anywhere |
| Packets.PacketBuffer.Build | pc/src/orion_protocol.c:15-45 | refuses exactly addresses outside 1..127 and payloads over 252, leaving the packet as it was; otherwise the packet serializes to the frame |
| Packets.PacketBuffer.BuildEncrypted | pc/src/orion_protocol.c:47-95 | refuses exactly addresses outside 1..127 and commands over 248; otherwise the packet serializes to the encrypted request |
| Packets.PacketBuffer.SerializeInto | pc/src/orion_protocol.c:97-108 | the bytes written are the packet's serialization and their number is returned |
| Packets.PacketBuffer.ParseFrom | pc/src/orion_protocol.c:110-139 | wherever the C function stays in bounds it returns 0 if and only if the buffer parses, and then holds the parsed packet |
| Packets.PacketBuffer.DecryptPayload | pc/src/orion_protocol.c:141-151 | in place, all but the first payload byte of an encrypted packet is unmasked; plain packets stay |
| Devices.React | firmware/esp32_orion_slave/lib/OrionSlave/orion_slave.cpp:184-281 | every accepted frame keeps the configuration, draws at most one short reply, and takes an event only by answering with it; queued plus accepted events are taken plus remaining ones, in order |
| Devices.ReactKey | firmware/esp32_orion_slave/lib/OrionSlave/orion_slave.cpp:184-281 | the global key changes only by an unencrypted set-key command of at least four bytes, to its third byte |
| Devices.ReactZones | firmware/esp32_orion_slave/lib/OrionSlave/orion_slave.cpp:366-426 | for every zone its status after any frame: changed only if the deciphered command names that configured zone, to armed or disarmed, and subject to the application's verdict |
| Devices.PlainQueries | firmware/esp32_orion_slave/lib/OrionSlave/orion_slave.cpp:236-281 | the answer to every plain frame but set-key: ping by the first byte, type and version by the first or, after an unknown first, by the second; anything else draws none, and no state moves |
| Devices.SetKeyCommand | firmware/esp32_orion_slave/lib/OrionSlave/orion_slave.cpp:313-328 | a plain set-key of four bytes or more sets both keys to its third byte and is acknowledged in clear; a shorter one changes nothing and draws no answer |
| Devices.UnknownCommand | firmware/esp32_orion_slave/lib/OrionSlave/orion_slave.cpp:213-235 | an enciphered command outside the six known ones draws no answer and changes nothing in the device once its message key is set |
| Stations.RejectedIsIgnored | firmware/esp32_orion_slave/lib/OrionSlave/orion_slave.cpp:136-180 | wrong address, truncation or bad CRC changes nothing in the device and draws no reply |
| Stations.OnlyEventsHaveThreeBytes | firmware/esp32_orion_slave/lib/OrionSlave/orion_slave.cpp:428-447 | the event a frame takes from the queue is exactly the one its reply carries to the bus, and no other command's reply can be mistaken for one |
| Stations.RunConserves | firmware/esp32_orion_slave/lib/OrionSlave/orion_slave.cpp:85-180 | over every run of polls, pushes and zone updates: queued plus accepted events are taken plus remaining ones in order, those taken are those the replies carried, and replies never outnumber accepted frames |
| Devices.RoomForEvent | firmware/esp32_orion_slave/lib/OrionSlave/orion_slave.cpp:85-96 | an event, also one an arm or disarm raises, joins the end of the queue if fewer than 32 are queued and changes nothing at 32 |
| Slave.OrionSlave.Begin | firmware/esp32_orion_slave/lib/OrionSlave/orion_slave.cpp:38-55 | exactly the configured zones become disarmed and enabled, nothing else changes |
| Slave.OrionSlave.SetZoneCount | firmware/esp32_orion_slave/lib/OrionSlave/orion_slave.cpp:60-68 | the count is clamped; zones newly in use start disarmed, the others keep their status |
| Slave.OrionSlave.SetZoneStatus | firmware/esp32_orion_slave/lib/OrionSlave/orion_slave.cpp:70-75 | zone z takes the status if 1 <= z <= 20, every other zone and everything else stay |
| Slave.OrionSlave.PushEvent | firmware/esp32_orion_slave/lib/OrionSlave/orion_slave.cpp:85-96 | wherever the ring starts: with fewer than 32 queued the new queue is the old one and the event, and the answer is true; at 32 the queue stays and the answer is false |
| Slave.OrionSlave.PopEvent | firmware/esp32_orion_slave/lib/OrionSlave/orion_slave.cpp:98-105 | wherever the ring starts, the oldest event is returned and leaves the queue |
| Slave.OrionSlave.BuildPlainResponse | firmware/esp32_orion_slave/lib/OrionSlave/orion_slave.cpp:460-472 | the bytes are the frame of the text, as the PC parser expects it |
| Slave.OrionSlave.BuildEncryptedResponse | firmware/esp32_orion_slave/lib/OrionSlave/orion_slave.cpp:474-497 | the bytes are the encrypted reply of the shared cipher, as the PC parser expects it |
| Slave.OrionSlave.HandleReadStatus | firmware/esp32_orion_slave/lib/OrionSlave/orion_slave.cpp:330-364 | the reply names the zone count, the zone asked for and its status, with the fallbacks for zones not configured |
| Slave.OrionSlave.HandleSwitch | firmware/esp32_orion_slave/lib/OrionSlave/orion_slave.cpp:366-407 | the zone changes and reports an event if it exists and the application agrees; the reply is ACK or NACK by that answer alone |
| Slave.OrionSlave.HandleResetAlarm | firmware/esp32_orion_slave/lib/OrionSlave/orion_slave.cpp:409-426 | the zone named is disarmed, without an event |
| Slave.OrionSlave.HandleReadEvent | firmware/esp32_orion_slave/lib/OrionSlave/orion_slave.cpp:428-447 | the oldest event leaves the queue in the reply, or a single zero byte is sent |
| Slave.OrionSlave.ProcessPacket | firmware/esp32_orion_slave/lib/OrionSlave/orion_slave.cpp:184-281 | state, counters and bytes sent are those of the abstract device reacting to the frame in the buffer |
| Slave.OrionSlave.Check | firmware/esp32_orion_slave/lib/OrionSlave/orion_slave.cpp:144-166 | the address, size and CRC tests accept exactly the buffers that hold a request for this device |
| Slave.OrionSlave.Poll | firmware/esp32_orion_slave/lib/OrionSlave/orion_slave.cpp:136-180 | one call moves the object exactly as the abstract station moves, and sends exactly its reply |
| Links.FrameReachesDevice | firmware/esp32_orion_slave/lib/OrionSlave/orion_slave.cpp:136-180 | in real time: however a frame's bytes, and any after it, come over polls that each begin at most 5 ms after the last byte held, the first poll more than 5 ms (and less than 2^32 ms) after the last makes the device act on exactly that frame and nothing else |
| Links.GathersInRealTime | firmware/esp32_orion_slave/lib/OrionSlave/orion_slave.cpp:136-142 | polled at most 5 ms after each byte held, a device keeps every byte, changes nothing else and sends nothing |
| Links.ReplyParses | pc/src/orion_protocol.c:110-151 | the PC parses whatever the device answers, plain or encrypted, and recovers its text |
| Links.SetKeyAgrees | pc/src/orion_commands.c:5-35 | a set-key call succeeds if and only if it was delivered both ways to this device, and then both ends hold the new key; otherwise the driver's keys stay and the device's key moved only if the reply was lost |
| Links.OtherCallsKeepKeys | pc/src/orion_commands.c:37-202 | no other command changes a global key at either end, whatever the keys and whatever is lost |
| Links.KeyAgreement | pc/src/orion_commands.c:5-35 | from equal keys, in every state reachable over a frame-dropping link the device holds the driver's key or one tried since the last answered set-key |
| Links.SetKeyRestores | pc/src/orion_commands.c:5-35 | from any divergence the next answered set-key makes both keys equal again |
| Links.EncryptedCallUnderstood | firmware/esp32_orion_slave/lib/OrionSlave/orion_slave.cpp:192-211 | with equal global keys the device executes exactly the command the driver enciphered, for every message key |
| Links.EncryptedReplyUnderstood | pc/src/orion_commands.c:37-202 | with equal global keys every delivered reply deciphers at the driver to the text the device enciphered |
| Driver.Link.Carry | firmware/esp32_orion_slave/lib/OrionSlave/orion_slave.cpp:136-180 | a request carried to the device object, closed by silence, has exactly the abstract outcome, and the reply bytes come back unless lost |
| Driver.Context.Receive | pc/src/orion_protocol.c:165-192 | on whatever bytes arrive before the timeout: 0 if and only if two bytes and then the announced number are there and parse |
| Driver.Context.Transact | pc/src/orion_protocol.c:153-192 | the packet object sent and the packet object received are those of the abstract exchange, also when the reply is lost or stops after any number of bytes |
| Driver.Context.SetGlobalKey | pc/src/orion_commands.c:5-35 | the driver's keys change if and only if the call is answered, and then agree with the device object's key |
| Driver.Context.SwitchZone | pc/src/orion_commands.c:98-156 | with equal keys the result is 0 if and only if the call was delivered both ways, and the device object is then switched if and only if the zone exists and the application agreed |
| Driver.SwitchCall | firmware/esp32_orion_slave/lib/OrionSlave/orion_slave.cpp:366-426 | for every fate and decision: answered if and only if delivered; the zone gets the commanded status, and reports it if fewer than 32 events are queued, if and only if the request was heard, the zone exists and the application agreed; the answer is ACK or NACK by the decision alone |
| Driver.RefusalAnswered | pc/src/orion_commands.c:98-136 | a refused arm or disarm is answered like an accepted one and changes no zone |
| Driver.Context.ReadStatus | pc/src/orion_commands.c:37-96 | returns the two statuses of the answer at the offsets its length selects |
| Driver.Context.ReadEvent | pc/src/orion_commands.c:158-187 | 0 with the event, 1 without one, -1 on error, by the answer alone |
| Driver.Context.ConfirmEvent | pc/src/orion_commands.c:189-202 | 0 if and only if the confirmation is answered |
| Driver.ReadEventCall | firmware/esp32_orion_slave/lib/OrionSlave/orion_slave.cpp:428-447 | over any link a read returns the oldest event, or was never heard, or loses the event with its reply |
| Driver.ConfirmCall | firmware/esp32_orion_slave/lib/OrionSlave/orion_slave.cpp:449-456 | confirming changes no more than the message key, the queue least of all, and is answered with a plain ACK if and only if delivered both ways |
| Driver.ReadStatusCall | firmware/esp32_orion_slave/lib/OrionSlave/orion_slave.cpp:330-364 | with equal keys the answer is, byte for byte, the zone count, zone 2, its status (that of zone 1 if there is only one, power-restored if none) and connection-restored, where the driver reads them |
| Driver.Context.DrainStep | pc/examples/main.c:74-92 | one read and its confirmation: result, event and queue left, for every fate of either |
| Driver.Context.DrainEvents | pc/examples/main.c:69-96 | returns 0 if and only if every read is delivered, and then the whole queue in order in one read more than it has events, leaving it empty; otherwise events returned, the one lost and those still queued make up the queue |
| Framing.AllBytesAccounted | pc/src/orion_sniffer.c:112-174 | on an arbitrary stream segments and buffered rest are the stream, in order |
| Framing.SplitAnywhere | pc/src/orion_sniffer.c:112-174 | feeding `a + b` is feeding `a`, then `b` |
| Framing.IntactFramesDelivered | pc/src/orion_sniffer.c:112-174 | any list of CRC-valid frames, concatenated, is delivered exactly |
| Framing.DeliveredIff | pc/src/orion_sniffer.c:144-167 | of any segments exactly those of a frame's size whose CRC over all bytes is 0 are delivered |
| Sniffer.Machine.Feed | pc/src/orion_sniffer.c:119-173 | one byte moves the machine as the reference cutting does, with the buffer always in bounds and the parser always called within its precondition |
| Sniffer.Machine.Read | pc/src/orion_sniffer.c:144-167 | the reading state, with the overflow branch proved unreachable |
| Sniffer.Machine.Run | pc/src/orion_sniffer.c:112-174 | over any input the callback receives exactly the intact segments of the stream and the buffer holds its rest |
| Listening.FramersAgreeIff | firmware/esp32_orion_slave/lib/OrionSlave/orion_bus_monitor.cpp:92-112 | the hybrid framer hands over exactly the reference segments of a stream, despite its 8-bit size, if and only if none of them is a bad header |
| Listening.PollsAreOneStream | firmware/esp32_orion_slave/lib/OrionSlave/orion_bus_monitor.cpp:77-112 | however gapless bytes are split over polls, the framer sees one stream |
| Listening.PollInRealTime | firmware/esp32_orion_slave/lib/OrionSlave/orion_bus_monitor.cpp:77-112 | a poll at most 5 ms after the last byte continues with what is held; one more than 5 ms (and less than 2^32 us) after it first hands over what is held, if three bytes, and starts afresh |
| Overhearing.PollAll | firmware/esp32_orion_slave/lib/OrionSlave/orion_bus_monitor.cpp:77-120 | over any number of polls the monitor object gives to decoding exactly the buffers its framer hands over, each at the time of its last byte, and its log is that of decoding them |
| Overhearing.StreamCaught | firmware/esp32_orion_slave/lib/OrionSlave/orion_bus_monitor.cpp:77-112 | of a stream read steadily in real time, split over polls in any way, the buffers caught are the segments if and only if no header is bad, and then the rest held is the stream's |
| Overhearing.HearTogether | pc/src/orion_sniffer.c:112-174 | monitor object and sniffer object on the same stream, steady in real time: when no header is bad the sniffer reports exactly the intact ones among the buffers the monitor decoded, and both hold the same rest |
| Overhearing.NoiseIsIgnored | firmware/esp32_orion_slave/lib/OrionSlave/orion_bus_monitor.cpp:126-146 | over any buffers handed to decoding, those whose CRC over the announced bytes is not 0 may be struck out without any effect on key, log and remembered request |
| Overhearing.HearNoise | firmware/esp32_orion_slave/lib/OrionSlave/orion_bus_monitor.cpp:77-146 | polls of the monitor object that catch only corrupted buffers leave its log, key and remembered request as they were |
| Listening.BadHeaderSeparatesFramers | firmware/esp32_orion_slave/lib/OrionSlave/orion_bus_monitor.cpp:105-111 | after any bad header the sniffer delivers the very next intact frame and the monitor hands over nothing |
| Decoding.NoCandidateIsIgnored | firmware/esp32_orion_slave/lib/OrionSlave/orion_bus_monitor.cpp:126-141 | a buffer shorter than three bytes or than announced, or at raw address 0x00 or 0x80, changes nothing at all |
| Decoding.CorruptedIsIgnored | firmware/esp32_orion_slave/lib/OrionSlave/orion_bus_monitor.cpp:143-146 | a whole buffer at a device address whose CRC over the announced bytes is not 0 adds one to the error count and changes nothing else |
| Decoding.SealedIsDecoded | firmware/esp32_orion_slave/lib/OrionSlave/orion_bus_monitor.cpp:143-159 | one whose CRC is 0 is counted as a packet and decoded as its announced bytes, whatever stands after them |
| Decoding.EmptyFrame | firmware/esp32_orion_slave/lib/OrionSlave/orion_bus_monitor.cpp:161-232 | a frame without payload is counted and, as a request, timed, but touches no device row, no log entry and not the remembered command |
| Decoding.RequestRow | firmware/esp32_orion_slave/lib/OrionSlave/orion_bus_monitor.cpp:204-223 | a request adds one poll to the row of its device and changes no other row; a plain command is remembered as it is |
| Decoding.PlainReplyRow | firmware/esp32_orion_slave/lib/OrionSlave/orion_bus_monitor.cpp:279-314 | a plain answer puts its device on line with time and count, takes device type or version if they were asked for, and changes no other row |
| Decoding.EncryptedReplyRow | firmware/esp32_orion_slave/lib/OrionSlave/orion_bus_monitor.cpp:227-276 | an enciphered answer puts its device on line with time and count, and the one zone it reports takes the status; no other row changes |
| Decoding.ZoneTakesStatus | firmware/esp32_orion_slave/lib/OrionSlave/orion_bus_monitor.cpp:332-353 | the zone named, if within 1..20 and its status is new, takes status and time and may raise the zone count; nothing else moves |
| Decoding.RequestObserved | firmware/esp32_orion_slave/lib/OrionSlave/orion_bus_monitor.cpp:124-223 | a request leaves the log alone and is remembered with its deciphered command |
| Decoding.PlainReplyObserved | firmware/esp32_orion_slave/lib/OrionSlave/orion_bus_monitor.cpp:227-314 | an unencrypted answer never reaches the event log |
| Decoding.EncryptedReplyObserved | firmware/esp32_orion_slave/lib/OrionSlave/orion_bus_monitor.cpp:245-276 | an encrypted answer is logged if and only if an event was asked for and its code is not 0, with the fields the device sent |
| BusMonitor.OrionBusMonitor.LogEvent | firmware/esp32_orion_slave/lib/OrionSlave/orion_bus_monitor.cpp:355-371 | the overwriting ring of 64 keeps holding the newest events, each in the slot of its number |
| BusMonitor.OrionBusMonitor.GetEvent | firmware/esp32_orion_slave/lib/OrionSlave/orion_bus_monitor.cpp:433-443 | index i is the i-th oldest of the last min(n, 64) events ever logged, and nothing beyond |
| BusMonitor.OrionBusMonitor.UpdateDeviceStatus | firmware/esp32_orion_slave/lib/OrionSlave/orion_bus_monitor.cpp:332-353 | the table changes in one zone of one device at most |
| BusMonitor.OrionBusMonitor.DecodeRequest | firmware/esp32_orion_slave/lib/OrionSlave/orion_bus_monitor.cpp:204-223 | the object after a request is the abstract monitor after it |
| BusMonitor.OrionBusMonitor.DecodeResponse | firmware/esp32_orion_slave/lib/OrionSlave/orion_bus_monitor.cpp:227-314 | the object after a response is the abstract monitor after it, event log included |
| BusMonitor.OrionBusMonitor.ProcessPacket | firmware/esp32_orion_slave/lib/OrionSlave/orion_bus_monitor.cpp:124-200 | the object after a buffer is the abstract monitor after it: which buffers are ignored, counted as errors or decoded is Decoding.NoCandidateIsIgnored, CorruptedIsIgnored and SealedIsDecoded |
| BusMonitor.OrionBusMonitor.CheckOfflineDevices | firmware/esp32_orion_slave/lib/OrionSlave/orion_bus_monitor.cpp:373-384 | exactly the devices unheard for longer than the timeout go off line |
| BusMonitor.StaleInRealTime | firmware/esp32_orion_slave/lib/OrionSlave/orion_bus_monitor.cpp:373-384 | within one turn of the clock a device stays on line if and only if its last answer is not older than the timeout, or came at tick 0 |
| BusMonitor.OrionBusMonitor.Poll | firmware/esp32_orion_slave/lib/OrionSlave/orion_bus_monitor.cpp:77-120 | silence, reception and the five-second check move the object as the abstract listener moves |
| BusMonitor.HearingIsDecoding | firmware/esp32_orion_slave/lib/OrionSlave/orion_bus_monitor.cpp:92-112 | hearing bytes one by one, at any times, is decoding in order exactly the buffers the framer hands over, each at the time of its last byte |
| BusMonitor.TurnIsDecoding | firmware/esp32_orion_slave/lib/OrionSlave/orion_bus_monitor.cpp:77-112 | the same for a whole poll, with what silence closed before it |
| Bus.AnswerTellsEvent | firmware/esp32_orion_slave/lib/OrionSlave/orion_slave.cpp:184-281 | what a device takes from its queue is what the deciphered command and the answer's text tell a listener |
| Bus.AskObserved | firmware/esp32_orion_slave/lib/OrionSlave/orion_bus_monitor.cpp:161-187 | over one request and its answer the monitor logs exactly the event the addressed device handed out, if it has a code |
| Bus.ListenerAgrees | firmware/esp32_orion_slave/lib/OrionSlave/orion_bus_monitor.cpp:161-276 | over every orderly run with any number of devices the monitor's log is exactly the events with a code that the devices handed out, in order |
| Bus.StatusObserved | firmware/esp32_orion_slave/lib/OrionSlave/orion_bus_monitor.cpp:245-262 | after an orderly status request the monitor holds for zone 2 of the device its number of zones, whatever the device reports, and no other zone has changed |
| Bus.StatusRightIff | firmware/esp32_orion_slave/lib/OrionSlave/orion_bus_monitor.cpp:257-264 | so its status for zone 2 is right if and only if the number of zones equals that zone's status byte |
| Wire.RunIsDecoding | firmware/esp32_orion_slave/lib/OrionSlave/orion_bus_monitor.cpp:124-200 | the monitor of a bus run is the one that decodes exactly the frames the run puts on the wire, each at its time |
| Wire.CarriedIsCaught | firmware/esp32_orion_slave/lib/OrionSlave/orion_bus_monitor.cpp:92-112 | a stream of bytes carrying well-formed frames is caught as just those frames, each at the time of its last byte |
| Wire.HearRun | firmware/esp32_orion_slave/lib/OrionSlave/orion_bus_monitor.cpp:77-120 | the monitor object reading, steadily in real time, the frames of an orderly run with any corrupted frames in between, split over polls in any way, logs exactly what the devices handed out, and getEvent returns the i-th oldest of the last 64 logged |
| Mastering.BusSilence | firmware/esp32_orion_slave/lib/OrionSlave/orion_master.cpp:74-325 | over every sequence of public calls bytes are written only in MASTER mode and by a poll only when no other master is seen, and response timeouts never outnumber packets sent |
| Mastering.ModeSafety | firmware/esp32_orion_slave/lib/OrionSlave/orion_master.cpp:40-72 | when MONITOR turns to MASTER and the latest notified request was not at tick 0, real time at least the timeout has passed since every request notified before, across any number of clock wraps |
| Mastering.SwitchAfterPoll | firmware/esp32_orion_slave/lib/OrionSlave/orion_master.cpp:40-150 | after any run, within one turn of the clock, one poll and then the switch succeed if and only if nothing was ever notified, or the latest request was at tick 0, or the timeout has passed by the switch and either by the poll too or the other master was already cleared |
| Mastering.TickZeroForgotten | firmware/esp32_orion_slave/lib/OrionSlave/orion_master.cpp:135-150 | with the latest request at tick 0 the switch succeeds after the next poll however recent the request is |
| Mastering.MasterAlwaysMay | firmware/esp32_orion_slave/lib/OrionSlave/orion_master.cpp:40-45 | in MASTER mode the switch answers true in the very tick in which a request was notified |
| Mastering.EmergencyFallback | firmware/esp32_orion_slave/lib/OrionSlave/orion_master.cpp:93-150 | a request notified in MASTER mode makes the next poll return to MONITOR having sent nothing if and only if it was not notified at tick 0 and the poll comes within the timeout |
| Mastering.PollTransmits | firmware/esp32_orion_slave/lib/OrionSlave/orion_master.cpp:93-113 | over a port that takes whole frames a poll writes if and only if the mode is MASTER, no other master is detected within the timeout, auto-polling is on, the interval is over and the cursor is at 1..127; it then writes the frame of its phase |
| Mastering.PollMoves | firmware/esp32_orion_slave/lib/OrionSlave/orion_master.cpp:445-486 | a poll that is not due keeps phase, cursor and time of the last poll; one that is due takes the time and moves to the next phase, or to the next address of the range |
| Mastering.PollsApart | firmware/esp32_orion_slave/lib/OrionSlave/orion_master.cpp:445-448 | over every run in real time two polls that write, with no switch to MASTER between them, are at least the polling interval apart, across any number of clock wraps |
| Mastering.FirstPollAfterSwitch | firmware/esp32_orion_slave/lib/OrionSlave/orion_master.cpp:55-72 | after a switch the cursor starts over and the first poll is due as soon as the clock reads the interval |
| Mastering.SendResultMeans | firmware/esp32_orion_slave/lib/OrionSlave/orion_master.cpp:265-325 | a command returns 0 if and only if its frame went out whole in MASTER mode, a whole response came in time and the CRC over it is 0; -2 if only the last fails, -1 otherwise |
| Mastering.SendCounts | firmware/esp32_orion_slave/lib/OrionSlave/orion_master.cpp:234-325 | sent packets, short writes and missing responses are each counted once, and nothing else is |
| Mastering.ReplySucceeds | firmware/esp32_orion_slave/lib/OrionSlave/orion_master.cpp:288-325 | whatever frame a device answers in time, with anything after it, makes the command return 0 |
| Mastering.InTimeIsRealTime | firmware/esp32_orion_slave/lib/OrionSlave/orion_master.cpp:288-309 | the receive loops see exactly the bytes available in the 200 ms after the start, across a clock wrap |
| OrionMaster.Controller.SwitchToMaster | firmware/esp32_orion_slave/lib/OrionSlave/orion_master.cpp:40-72 | answer and new state are those of the abstract master; nothing is sent and DE is low |
| OrionMaster.Controller.SetPollRange | firmware/esp32_orion_slave/lib/OrionSlave/orion_master.cpp:436-443 | the lower end is raised to 1 and the upper end lowered to 127, the cursor goes to the lower end and nothing else changes; the range is not empty if and only if the arguments meet 1..127 in order |
| OrionMaster.Controller.BuildPacket | firmware/esp32_orion_slave/lib/OrionSlave/orion_master.cpp:173-190 | refuses exactly bad addresses and commands over 200 bytes; otherwise the bytes are the frame |
| OrionMaster.Controller.BuildEncryptedPacket | firmware/esp32_orion_slave/lib/OrionSlave/orion_master.cpp:192-228 | refuses exactly bad addresses and commands over 200 bytes; otherwise the bytes are the encrypted request |
| OrionMaster.Controller.TransmitPacket | firmware/esp32_orion_slave/lib/OrionSlave/orion_master.cpp:234-259 | nothing outside MASTER mode; a short write is counted as an error; DE is low again on every return |
| OrionMaster.Controller.ReadUntil | firmware/esp32_orion_slave/lib/OrionSlave/orion_master.cpp:288-309 | a receive loop loses and invents no byte available before the timeout and stops at the size asked for |
| OrionMaster.Controller.SendAndReceive | firmware/esp32_orion_slave/lib/OrionSlave/orion_master.cpp:265-325 | result, counters and bytes written by what the port took and what could be read in time; a 0 comes with one complete response |
| OrionMaster.Controller.DoAutoPoll | firmware/esp32_orion_slave/lib/OrionSlave/orion_master.cpp:445-486 | too early nothing happens; otherwise one command by phase is sent and the cursor moves on |
| OrionMaster.Controller.Poll | firmware/esp32_orion_slave/lib/OrionSlave/orion_master.cpp:93-113 | one call moves the object as the abstract master moves, writes exactly its bytes and leaves DE low |
| Polling.BuildBoth | firmware/esp32_orion_slave/lib/OrionSlave/orion_master.cpp:173-228 | the master's builders and the PC's builders emit the same bytes for every command of up to 200 bytes |
| Polling.PollRequestOnWire | firmware/esp32_orion_slave/lib/OrionSlave/orion_master.cpp:445-486 | what a poll phase sends is one frame, and in the last phase the driver's read-event request |
| Polling.PhasesOnWire | firmware/esp32_orion_slave/lib/OrionSlave/orion_master.cpp:452-477 | the four frames of a turn at an address: ping and device type in clear, status of zone 2 and read-event enciphered |
| Polling.PolledAnswers | firmware/esp32_orion_slave/lib/OrionSlave/orion_slave.cpp:184-281 | what a device with the master's key answers in each phase, byte for byte |
| Polling.Schedule | firmware/esp32_orion_slave/lib/OrionSlave/orion_master.cpp:445-486 | after n polls that were due the phase is n mod 4, the address min + (n/4) mod the range length, and the device has handed out at least one event per finished turn at its address until its queue is drained |
| Polling.DeliveryBound | firmware/esp32_orion_slave/lib/OrionSlave/orion_master.cpp:445-486 | an event at position k of any in-range device's queue is on the bus, after the k before it, once 4 * range * (k + 1) polls have been due |
| Patrol.OneDevice | firmware/esp32_orion_slave/lib/OrionSlave/orion_master.cpp:445-486 | on a bus with any devices, the poller and the listener, each device lives as in a run of its own with the poller, and the log tells of it exactly the events with a code that it let go |
| Patrol.QueuedIsLogged | firmware/esp32_orion_slave/lib/OrionSlave/orion_master.cpp:445-486 | for every device in the poll range, once 4 * range * (k + 1) polls have been due the monitor's log tells the coded ones of its first k + 1 queued events, in order, right after what it told before |
| Tracking.TrackerAgrees | pc/orion_proxy/src/device_tracker.c:58-145 | over every run of raw frames and checks with a positive monotone clock, last-seen time, packet count, statuses, on-line flag and recorded events of every device match the frames whose address byte is its address, with or without the encryption offset |
| Tracking.PacketConcerns | pc/orion_proxy/src/device_tracker.c:62-73 | a parsed packet is taken for device a if and only if its frame's address byte is a or a + 128, and for none if it is 0x00 or 0x80 |
| Tracking.FramesConcern | pc/orion_proxy/src/device_tracker.c:62-73 | plain and encrypted frames of a device concern it and no other |
| Tracking.EventCaused | pc/orion_proxy/src/device_tracker.c:82-145 | every event ever recorded was caused by a frame of its device (its time, its first 16 bytes) or by a check at its time |
| Tracking.OnlineIffRecent | pc/orion_proxy/src/device_tracker.c:115-145 | just after a check a device is on line if and only if its last packet is at most 30 seconds old |
| Tracking.EventsAlternate | pc/orion_proxy/src/device_tracker.c:58-145 | each device's recorded events strictly alternate on line, off line, beginning with on line |
| Tracking.RunBalanced | pc/orion_proxy/src/device_tracker.c:58-145 | per-device packet counts add up to the total modulo 2^32 and events are numbered consecutively |
| Tracking.ShownIsNewest | pc/orion_proxy/src/device_tracker.c:276-289 | the newest min(n, 256, max) events are selected if and only if the write position is below 2^31 and has not just wrapped |
| DeviceTracker.Table.RecordEvent | pc/orion_proxy/src/device_tracker.c:82-95 | slot k mod 256 holds event k for the last 256, across the wrap of the 32-bit position |
| DeviceTracker.Table.OnPacket | pc/orion_proxy/src/device_tracker.c:58-104 | the object after a packet is the abstract tracker after it |
| DeviceTracker.Table.CheckTimeouts | pc/orion_proxy/src/device_tracker.c:115-145 | the loop over the devices is the abstract check, events in address order |
| DeviceTracker.Table.OnlineCount | pc/orion_proxy/src/device_tracker.c:149-162 | the number of on-line devices |
| DeviceTracker.Table.RecentEvents | pc/orion_proxy/src/device_tracker.c:276-289 | the slots visited hold exactly the newest events recorded, oldest of them first, as many as the signed position allows |
| Ini.ReadBackInt | pc/orion_proxy/src/proxy_config.c:104-190 | reading a printed decimal gives back the number |
| Ini.NumberLines | pc/orion_proxy/src/proxy_config.c:104-190 | each line of the serial, server and protocol sections sets its own field, modulo the width of that field, and no other |
| Ini.FlagLines | pc/orion_proxy/src/proxy_config.c:104-190 | each line of the mode and debug sections sets its own field and no other |
| Ini.NameLines | pc/orion_proxy/src/proxy_config.c:104-190 | the lines of the two names, for a name that survives its line and fits its field |
| Ini.LineIgnored | pc/orion_proxy/src/proxy_config.c:71-84 | comments, section headers and lines without an equals sign change nothing, however they are indented |
| Ini.ChunkMeans | pc/orion_proxy/src/proxy_config.c:71 | a line read ends with the first line break, at 511 characters or with the file, whichever comes first |
| Ini.LoadedIffSurvives | pc/orion_proxy/src/proxy_config.c:36-102 | a name without line breaks comes back through its line if and only if it has no blank at either end and at most 254 characters |
| Ini.LoadRendered | pc/orion_proxy/src/proxy_config.c:57-102 | reading a rendered file line by line applies its settings in order, none of them split or skipped |
| Ini.LoadSaved | pc/orion_proxy/src/proxy_config.c:57-150 | without line breaks in the names, a saved configuration loads over any other with every number restored and the names trimmed |
| Ini.LoadKeepsNoBreaks | pc/orion_proxy/src/proxy_config.c:57-102 | no file can bring a line break into a name |
| Ini.RoundTrip | pc/orion_proxy/src/proxy_config.c:8-190 | loading a saved configuration over the defaults restores it if and only if both names survive their lines |
| ConfigFile.TrimWhitespace | pc/orion_proxy/src/proxy_config.c:36-55 | in place, leading blanks and trailing white space go and the rest stays, but a first character is never cut |
| ConfigFile.StrNCpy | pc/orion_proxy/src/proxy_config.c:87-90 | the bounded copy holds the text up to the room, terminated |
| ConfigFile.FindEquals | pc/orion_proxy/src/proxy_config.c:83-84 | the first equals sign, or none |
| ConfigFile.Store.LoadLine | pc/orion_proxy/src/proxy_config.c:71-97 | one line in its three C buffers has the effect of the line on values |
| ConfigFile.Store.LoadFile | pc/orion_proxy/src/proxy_config.c:57-102 | a missing file changes nothing and returns -1; otherwise every line is applied in order |

## Left out

- Packet and error counters of device, master and monitor are unbounded, so that "never outnumber" means what it says; their 32-bit wrap is not modelled. The tracker's counters do wrap.
- Frames with length byte 254 or 255, which no builder emits, overrun the device's 252-byte decryption buffer and the master's response buffer in C++; the model gives those buffers room.
- Packets.PacketBuffer.ParseFrom: undefined in C, and excluded, are three or more bytes with length byte 0 (a copy without bound) and a complete frame with length byte 254 or 255 (it overruns the structure); Driver.Context.Receive excludes the latter likewise.
- Driver.Context.Transact: requests are lost whole; what the device makes of a part of one is stated of its own poll.
- Answers of the arm and disarm callbacks are one parameter `verdict`; the raw-frame and packet callbacks are left out.
- Clock readings are parameters. In the device and the master one call reads its starting time once; in the monitor every byte carries both clocks as they stand.
- The five-second offline timer of the monitor, a function-local static variable, is a field.
- Wire.HearRun: corrupted frames keep a length byte that fits their size; what noise of another size does to the framer is Listening.FramersAgreeIff and Listening.BadHeaderSeparatesFramers.
- Bus.ListenerAgrees: agreement is for events; what becomes of statuses is Bus.StatusObserved.
- Polling.DeliveryBound: the port takes whole frames and the device hears them; with many devices it is Patrol.QueuedIsLogged.
- Patrol.QueuedIsLogged: the answers the master itself receives are independent of the devices, since they move only its counters.
- Mastering.EmergencyFallback: a property of the class; the firmware's main loop forwards requests to the master only in MONITOR mode.
- The sniffer's stop flag and its read timeouts: a run is the sequence of bytes read.
- Ini.Save: `config_save_file` is modelled as the text it writes, not through `FILE`.
- Configurations with numbers outside the C `int` range, on which `atoi` is undefined, and files containing NUL characters.
- Direct writes to tracker fields by scans, which bypass its events, and the tracker lock: calls are atomic.
- `tracker_format_status` and the text output of the tracker, JSON output and status or device-type strings: single-branch formatting.
- `orion_cmd_read_device_info`, the confirm, arm, disarm and reset commands of the master, and one-line setters: they repeat operations that are modelled.
- Cryptographic strength of the cipher, serial ports, sockets, threads, HTTP, WiFi, non-volatile storage, LEDs and buttons.
