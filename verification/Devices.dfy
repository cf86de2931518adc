/** The emulated device as the bus sees it: keys, zones and a bounded first-in first-out event queue. */
module Devices {
  import opened Bytes
  import opened Crc
  import opened Frames

  const CMD_PING: byte := 0x01
  const CMD_READ_DEVICE_TYPE: byte := 0x06
  const CMD_READ_VERSION: byte := 0x07
  const CMD_SET_GLOBAL_KEY: byte := 0x11
  const CMD_READ_EVENT: byte := 0x20
  const CMD_CONFIRM_EVENT: byte := 0x21
  const CMD_READ_STATUS: byte := 0x57
  const CMD_DISARM_ZONE: byte := 0x63
  const CMD_ARM_ZONE: byte := 0x64
  const CMD_RESET_ALARM: byte := 0x65

  const STATUS_ARMED: byte := 0x04
  const STATUS_DISARMED: byte := 0x06
  const STATUS_POWER_OK: byte := 0xC7
  const STATUS_CONNECTION_OK: byte := 0xD1

  const ACK: byte := 0x06
  const NACK: byte := 0x15

  const MAX_ZONES := 20
  const MAX_EVENTS := 32

  datatype Event = Event(code: byte, zone: byte, partition: byte)

  datatype Zone = Zone(status: byte, enabled: bool)

  datatype Device = Device(
    address: byte, deviceType: byte, fwMajor: byte, fwMinor: byte,
    globalKey: byte, messageKey: byte,
    zoneCount: nat, zones: seq<Zone>, queue: seq<Event>)
  {
    predicate Valid() {
      && 1 <= address <= MAX_ADDRESS
      && zoneCount <= MAX_ZONES == |zones|
      && |queue| <= MAX_EVENTS
    }
  }

  /** A reply before framing. */
  datatype Reply = Silence | Clear(text: seq<byte>) | Enciphered(text: seq<byte>)

  /** What one accepted frame does: the device after it, its answer, the events queued and taken. */
  datatype Outcome = Outcome(dev: Device, reply: Reply, pushed: seq<Event>, popped: seq<Event>)

  datatype Command =
    | CmdReadStatus | CmdArm | CmdDisarm | CmdReset | CmdReadEvent | CmdConfirm | CmdUnknown

  function CommandOf(b: byte): Command {
    if b == CMD_READ_STATUS then CmdReadStatus
    else if b == CMD_ARM_ZONE then CmdArm
    else if b == CMD_DISARM_ZONE then CmdDisarm
    else if b == CMD_RESET_ALARM then CmdReset
    else if b == CMD_READ_EVENT then CmdReadEvent
    else if b == CMD_CONFIRM_EVENT then CmdConfirm
    else CmdUnknown
  }

  predicate IsEncrypted(address: byte) {
    address >= ENCRYPT_OFFSET
  }

  /** The bytes of a reply, sent with the keys the device then holds. */
  function ReplyBytes(d: Device, r: Reply): seq<byte>
    requires r.Clear? || r.Enciphered? ==> |r.text| <= MAX_PAYLOAD - 2
  {
    match r
    case Silence => []
    case Clear(text) => Frame(d.address, text)
    case Enciphered(text) => EncryptedReply(d.address, text, d.globalKey, d.messageKey)
  }

  lemma SilenceIsEmpty(d: Device)
    ensures ReplyBytes(d, Silence) == []
  {}

  /** What a device sends is empty or one well-formed frame. */
  lemma ReplyIsFrame(o: Outcome)
    requires o.reply.Clear? || o.reply.Enciphered? ==> 1 <= |o.reply.text| <= 7
    ensures ReplyBytes(o.dev, o.reply) == [] || WellFormed(ReplyBytes(o.dev, o.reply))
  {
    hide Crc8, ToNat, ToByte, Frame;
    match o.reply
    case Silence =>
    case Clear(text) => FrameShape(o.dev.address, text);
    case Enciphered(text) =>
      FrameShape(o.dev.address + ENCRYPT_OFFSET, Encipher(o.dev.globalKey, o.dev.messageKey, text, REPLY_PAD));
  }

  // --- What every accepted frame keeps ---

  /** Configuration and shape are untouched. */
  predicate SameSetup(d: Device, d': Device) {
    && d'.address == d.address && d'.deviceType == d.deviceType
    && d'.fwMajor == d.fwMajor && d'.fwMinor == d.fwMinor
    && d'.zoneCount == d.zoneCount && |d'.zones| == |d.zones|
  }

  /**
   * Events are conserved in order: what was queued, then accepted, is what was taken, then remains.
   * A reply is short; an event is taken only by answering with it.
   */
  predicate Sound(d: Device, o: Outcome) {
    && o.dev.Valid() && SameSetup(d, o.dev)
    && d.queue + o.pushed == o.popped + o.dev.queue
    && |o.pushed| <= 1 && |o.popped| <= 1
    && (o.reply.Clear? || o.reply.Enciphered? ==> 1 <= |o.reply.text| <= 7)
    && (o.popped != [] ==> o.reply == Enciphered(EventText(o.popped[0])))
  }

  predicate SameKeys(d: Device, d': Device) {
    d'.globalKey == d.globalKey && d'.messageKey == d.messageKey
  }

  function EventText(e: Event): seq<byte> {
    [e.code, e.zone, e.partition]
  }

  // --- The command handlers ---

  function Answer(d: Device, r: Reply): Outcome {
    Outcome(d, r, [], [])
  }

  /** An event joins the queue unless it is full. */
  function Accepted(d: Device, e: Event): seq<Event> {
    if |d.queue| >= MAX_EVENTS then [] else [e]
  }

  /** Below 32 queued events the next is taken, at 32 it is refused. */
  lemma RoomForEvent(d: Device, e: Event)
    ensures |d.queue| < 32 ==> d.queue + Accepted(d, e) == d.queue + [e]
    ensures |d.queue| >= 32 ==> d.queue + Accepted(d, e) == d.queue
  {}

  predicate HasZone(d: Device, zone: byte) {
    0 < ToNat(zone) <= d.zoneCount
  }

  function WithStatus(d: Device, zone: byte, status: byte): Device
    requires d.Valid() && HasZone(d, zone)
  {
    var i := ToNat(zone) - 1;
    d.(zones := d.zones[i := d.zones[i].(status := status)])
  }

  /** Arm and disarm: the zone changes and reports it, if it exists and the application agrees. */
  function Switch(d: Device, zone: byte, status: byte, verdict: bool): (o: Outcome)
    requires d.Valid()
    ensures Sound(d, o) && SameKeys(d, o.dev)
  {
    var ack := Enciphered([if verdict then ACK else NACK]);
    if verdict && HasZone(d, zone) then
      var e := Accepted(d, Event(status, zone, 0));
      Outcome(WithStatus(d, zone, status).(queue := d.queue + e), ack, e, [])
    else Answer(d, ack)
  }

  function Reset(d: Device, zone: byte): (o: Outcome)
    requires d.Valid()
    ensures Sound(d, o) && SameKeys(d, o.dev)
  {
    Answer(if HasZone(d, zone) then WithStatus(d, zone, STATUS_DISARMED) else d, Enciphered([ACK]))
  }

  /** The status a READ_STATUS for `zone` reports. */
  function ReportedStatus(d: Device, zone: byte): byte
    requires d.Valid()
  {
    if HasZone(d, zone) then d.zones[ToNat(zone) - 1].status
    else if d.zoneCount > 0 then d.zones[0].status
    else STATUS_POWER_OK
  }

  function ReadStatus(d: Device, zone: byte): (o: Outcome)
    requires d.Valid()
    ensures Sound(d, o) && SameKeys(d, o.dev)
  {
    Answer(d, Enciphered(
      [0x88, 0x02, ToByte(d.zoneCount), zone, ReportedStatus(d, zone), STATUS_CONNECTION_OK, 0]))
  }

  function ReadEvent(d: Device): (o: Outcome)
    requires d.Valid()
    ensures Sound(d, o) && SameKeys(d, o.dev)
  {
    if d.queue == [] then Answer(d, Enciphered([0]))
    else Outcome(d.(queue := d.queue[1..]), Enciphered(EventText(d.queue[0])), [], d.queue[..1])
  }

  /** The zone a command names, zone 1 if it names none. */
  function ZoneOf(plain: seq<byte>): byte {
    if |plain| >= 3 then plain[2] else 1
  }

  /** A deciphered command; `verdict` is what the registered arm or disarm callback answers. */
  function Execute(d: Device, plain: seq<byte>, verdict: bool): (o: Outcome)
    requires d.Valid() && |plain| >= 2
    ensures Sound(d, o) && SameKeys(d, o.dev)
  {
    match CommandOf(plain[1])
    case CmdReadStatus => ReadStatus(d, if |plain| >= 3 then plain[2] else 0)
    case CmdArm => Switch(d, ZoneOf(plain), STATUS_ARMED, verdict)
    case CmdDisarm => Switch(d, ZoneOf(plain), STATUS_DISARMED, verdict)
    case CmdReset => Reset(d, ZoneOf(plain))
    case CmdReadEvent => ReadEvent(d)
    case CmdConfirm => Answer(d, Clear([ACK]))
    case CmdUnknown => Answer(d, Silence)
  }

  predicate SetsKey(payload: seq<byte>) {
    |payload| >= 2 && payload[1] == CMD_SET_GLOBAL_KEY
  }

  /** The command byte of other plain requests: the first, or the second after an unknown first. */
  function PlainCommand(payload: seq<byte>): byte
    requires payload != []
  {
    if payload[0] == CMD_PING || payload[0] == CMD_READ_DEVICE_TYPE || payload[0] == CMD_READ_VERSION then payload[0]
    else if |payload| >= 2 && payload[1] != CMD_PING then payload[1]
    else payload[0]
  }

  function ExecutePlain(d: Device, payload: seq<byte>): (o: Outcome)
    requires d.Valid()
    ensures Sound(d, o) && !o.reply.Enciphered?
  {
    if payload == [] then Answer(d, Silence)
    else if SetsKey(payload) then
      if |payload| < 4 then Answer(d, Silence)
      else Answer(d.(globalKey := payload[2], messageKey := payload[2]), Clear([ACK]))
    else
      var cmd := PlainCommand(payload);
      if cmd == CMD_PING then Answer(d, Clear([ACK]))
      else if cmd == CMD_READ_DEVICE_TYPE then Answer(d, Clear([d.deviceType]))
      else if cmd == CMD_READ_VERSION then Answer(d, Clear([d.fwMajor, d.fwMinor]))
      else Answer(d, Silence)
  }

  /** The message key travels in the first payload byte, masked with the global key. */
  function Unlock(d: Device, payload: seq<byte>): Device
    requires payload != []
  {
    d.(messageKey := Xor(payload[0], d.globalKey))
  }

  /** What the device does on a frame whose address and checksum it has accepted. */
  function React(d: Device, address: byte, payload: seq<byte>, verdict: bool): (o: Outcome)
    requires d.Valid()
    ensures Sound(d, o)
  {
    if IsEncrypted(address) then
      if |payload| < 2 then Answer(d, Silence)
      else
        var u := Unlock(d, payload);
        Execute(u, Decipher(payload, u.messageKey), verdict)
    else ExecutePlain(d, payload)
  }

  lemma ReactCases(d: Device, address: byte, payload: seq<byte>, verdict: bool)
    requires d.Valid()
    ensures IsEncrypted(address) && |payload| < 2 ==> React(d, address, payload, verdict) == Answer(d, Silence)
    ensures IsEncrypted(address) && |payload| >= 2 ==>
              var u := Unlock(d, payload);
              React(d, address, payload, verdict) == Execute(u, Decipher(payload, u.messageKey), verdict)
    ensures !IsEncrypted(address) ==> React(d, address, payload, verdict) == ExecutePlain(d, payload)
  {
    hide Execute, ExecutePlain, Sound;
  }

  /** The address byte is the one of device `own`, plain or with the encryption offset. */
  predicate Addressed(own: byte, address: byte) {
    address == own || address == own + ENCRYPT_OFFSET
  }

  /** What the device does when a whole well-formed frame passes on the bus. */
  function Hear(d: Device, address: byte, payload: seq<byte>, verdict: bool): (o: Outcome)
    requires d.Valid()
    ensures Sound(d, o)
  {
    if Addressed(d.address, address) then React(d, address, payload, verdict) else Answer(d, Silence)
  }

  /** The global key changes only by an unencrypted set-key command of at least four bytes, to its third byte. */
  lemma ReactKey(d: Device, address: byte, payload: seq<byte>, verdict: bool)
    requires d.Valid()
    ensures React(d, address, payload, verdict).dev.globalKey ==
            if !IsEncrypted(address) && SetsKey(payload) && |payload| >= 4 then payload[2] else d.globalKey
  {
    hide Decipher, CommandOf, PlainCommand, IsEncrypted, ToNat, Xor;
  }

  /**
   * The plain queries. A ping is the first byte; device type and version are asked by the first byte, or by the
   * second after a first that is no query. Each is answered in clear, anything else but set-key not at all.
   */
  lemma PlainQueries(d: Device, address: byte, payload: seq<byte>, verdict: bool)
    requires d.Valid() && address < 0x80 && !(|payload| >= 2 && payload[1] == 0x11)
    ensures var o := React(d, address, payload, verdict);
            && o.dev == d && o.pushed == [] && o.popped == []
            && o.reply == (if payload == [] then Silence
                           else if payload[0] == 0x01 then Clear([0x06])
                           else if payload[0] == 0x06 then Clear([d.deviceType])
                           else if payload[0] == 0x07 then Clear([d.fwMajor, d.fwMinor])
                           else if |payload| >= 2 && payload[1] == 0x06 then Clear([d.deviceType])
                           else if |payload| >= 2 && payload[1] == 0x07 then Clear([d.fwMajor, d.fwMinor])
                           else Silence)
  {
    hide Execute, Sound;
  }

  /** A plain set-key of four bytes or more sets both keys to its third and is acknowledged; a shorter is ignored. */
  lemma SetKeyCommand(d: Device, address: byte, payload: seq<byte>, verdict: bool)
    requires d.Valid() && address < 0x80 && |payload| >= 2 && payload[1] == 0x11
    ensures React(d, address, payload, verdict) ==
            if |payload| < 4 then Outcome(d, Silence, [], [])
            else Outcome(d.(globalKey := payload[2], messageKey := payload[2]), Clear([0x06]), [], [])
  {
    hide Execute, Sound;
  }

  /** An encrypted frame with any other command draws no answer and changes no more than the message key. */
  lemma UnknownCommand(d: Device, plain: seq<byte>, verdict: bool)
    requires d.Valid() && |plain| >= 2
    requires plain[1] != 0x57 && plain[1] != 0x64 && plain[1] != 0x63 && plain[1] != 0x65
    requires plain[1] != 0x20 && plain[1] != 0x21
    ensures Execute(d, plain, verdict) == Outcome(d, Silence, [], [])
  {
    hide Switch, Reset, ReadStatus, ReadEvent, Sound;
  }

  /** The status of zone `z` (counted from 0) after a command: armed, disarmed, or as it was. */
  function StatusAfter(d: Device, plain: seq<byte>, verdict: bool, z: nat): byte
    requires |plain| >= 2 && z < |d.zones|
  {
    var zone := if |plain| >= 3 then plain[2] else 1;
    var named := z + 1 == ToNat(zone) <= d.zoneCount;
    var kept := d.zones[z].status;
    match CommandOf(plain[1])
    case CmdArm => if verdict && named then STATUS_ARMED else kept
    case CmdDisarm => if verdict && named then STATUS_DISARMED else kept
    case CmdReset => if named then STATUS_DISARMED else kept
    case _ => kept
  }

  lemma SwitchZones(d: Device, zone: byte, status: byte, verdict: bool, z: nat)
    requires d.Valid() && z < MAX_ZONES
    ensures Switch(d, zone, status, verdict).dev.zones[z] ==
            if verdict && z + 1 == ToNat(zone) <= d.zoneCount then d.zones[z].(status := status) else d.zones[z]
  {
    hide ToNat;
  }

  lemma ResetZones(d: Device, zone: byte, z: nat)
    requires d.Valid() && z < MAX_ZONES
    ensures Reset(d, zone).dev.zones[z] ==
            if z + 1 == ToNat(zone) <= d.zoneCount then d.zones[z].(status := STATUS_DISARMED) else d.zones[z]
  {
    hide ToNat;
  }

  lemma ExecuteZones(d: Device, plain: seq<byte>, verdict: bool, z: nat)
    requires d.Valid() && z < MAX_ZONES && |plain| >= 2
    ensures Execute(d, plain, verdict).dev.zones[z] == d.zones[z].(status := StatusAfter(d, plain, verdict, z))
  {
    hide CommandOf, ToNat, ToByte, Switch, Reset, ReportedStatus, Sound, Device.Valid, ReadStatus, ReadEvent;
    match CommandOf(plain[1])
    case CmdArm => SwitchZones(d, ZoneOf(plain), STATUS_ARMED, verdict, z);
    case CmdDisarm => SwitchZones(d, ZoneOf(plain), STATUS_DISARMED, verdict, z);
    case CmdReset => ResetZones(d, ZoneOf(plain), z);
    case CmdReadStatus => ReadsKeepZones(d, if |plain| >= 3 then plain[2] else 0);
    case CmdReadEvent => ReadsKeepZones(d, 0);
    case _ =>
  }

  lemma ReadsKeepZones(d: Device, zone: byte)
    requires d.Valid()
    ensures ReadStatus(d, zone).dev.zones == d.zones && ReadEvent(d).dev.zones == d.zones
  {
    hide ToNat, ToByte, ReportedStatus, Sound;
  }

  /** Plain frames leave the zones alone; encrypted ones change exactly the zone they name. */
  lemma ReactZones(d: Device, address: byte, payload: seq<byte>, verdict: bool, z: nat)
    requires d.Valid() && z < MAX_ZONES
    ensures var o := React(d, address, payload, verdict);
            |o.dev.zones| == MAX_ZONES &&
            o.dev.zones[z] ==
              if IsEncrypted(address) && |payload| >= 2 then
                d.zones[z].(status := StatusAfter(d, Decipher(payload, Xor(payload[0], d.globalKey)), verdict, z))
              else d.zones[z]
  {
    hide Decipher, PlainCommand, IsEncrypted, Xor, Execute;
    if IsEncrypted(address) && |payload| >= 2 {
      var u := Unlock(d, payload);
      ExecuteZones(u, Decipher(payload, u.messageKey), verdict, z);
    }
  }
}
