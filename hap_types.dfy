/**
 * The HomeKit descriptions of services and characteristics that the firmware
 * keeps after GATT setup: type UUIDs, instance ids, HAP property flags, and the
 * format and unit of a characteristic's value.
 */
module HapTypes {
  import opened Bytes
  import opened Gatt

  /** A 128-bit UUID, as its 16 bytes. */
  type Uuid = s: seq<byte> | |s| == 16 witness seq(16, _ => 0)

  /** The flags of `HapProperties` (section 7.4.4.6.1 of the HomeKit Accessory Protocol Specification). */
  datatype HapProperty =
    | Read
    | Write
    | AdditionalAuthorization
    | TimedWrite
    | SecureRead
    | SecureWrite
    | Hidden
    | NotifyConnected
    | NotifyDisconnected
    | NotifyBroadcast
  {
    /** The bit of the flag: `READ = 0x1` up to `NOTIFY_BROADCAST = 0x200`. */
    function Mask(): (m: bv16)
      ensures m != 0 && m & (m - 1) == 0
      ensures m & 0x3FF == m
    {
      match this
      case Read => 0x1
      case Write => 0x2
      case AdditionalAuthorization => 0x4
      case TimedWrite => 0x8
      case SecureRead => 0x10
      case SecureWrite => 0x20
      case Hidden => 0x40
      case NotifyConnected => 0x80
      case NotifyDisconnected => 0x100
      case NotifyBroadcast => 0x200
    }
  }

  /** A `HapProperties` value: the set of flags it holds. */
  type HapProperties = set<HapProperty>

  /** `HapProperties::bits`: the flags or-ed together. */
  function Bits(flags: HapProperties): (b: bv16)
    ensures b & 0x3FF == b
  {
    (if Read in flags then 0x1 else 0) |
    (if Write in flags then 0x2 else 0) |
    (if AdditionalAuthorization in flags then 0x4 else 0) |
    (if TimedWrite in flags then 0x8 else 0) |
    (if SecureRead in flags then 0x10 else 0) |
    (if SecureWrite in flags then 0x20 else 0) |
    (if Hidden in flags then 0x40 else 0) |
    (if NotifyConnected in flags then 0x80 else 0) |
    (if NotifyDisconnected in flags then 0x100 else 0) |
    (if NotifyBroadcast in flags then 0x200 else 0)
  }

  /** A flag's bit is set exactly when the flag is present. */
  lemma BitsMember(flags: HapProperties, f: HapProperty)
    ensures (Bits(flags) & f.Mask() != 0) <==> f in flags
  {
    var b := Bits(flags);
    match f
    case Read => assert b & 0x1 == (if Read in flags then 0x1 else 0);
    case Write => assert b & 0x2 == (if Write in flags then 0x2 else 0);
    case AdditionalAuthorization => assert b & 0x4 == (if AdditionalAuthorization in flags then 0x4 else 0);
    case TimedWrite => assert b & 0x8 == (if TimedWrite in flags then 0x8 else 0);
    case SecureRead => assert b & 0x10 == (if SecureRead in flags then 0x10 else 0);
    case SecureWrite => assert b & 0x20 == (if SecureWrite in flags then 0x20 else 0);
    case Hidden => assert b & 0x40 == (if Hidden in flags then 0x40 else 0);
    case NotifyConnected => assert b & 0x80 == (if NotifyConnected in flags then 0x80 else 0);
    case NotifyDisconnected => assert b & 0x100 == (if NotifyDisconnected in flags then 0x100 else 0);
    case NotifyBroadcast => assert b & 0x200 == (if NotifyBroadcast in flags then 0x200 else 0);
  }

  /** Distinct sets of flags have distinct bits. */
  lemma BitsInjective(a: HapProperties, b: HapProperties)
    requires Bits(a) == Bits(b)
    ensures a == b
  {
    forall f: HapProperty ensures f in a <==> f in b {
      BitsMember(a, f);
      BitsMember(b, f);
    }
  }

  /** The bits as the `u16` that is sent on the wire. */
  function BitsValue(flags: HapProperties): uint16
  {
    Bits(flags) as int
  }

  /** Secure read alone, as the protocol service's characteristics are built, is 0x0010 on the wire. */
  lemma SecureReadBits()
    ensures BitsValue({SecureRead}) == 0x10
  {
    assert Bits({SecureRead}) == 0x10;
  }

  /** The units of the GATT Characteristic Presentation Format, with their assigned numbers. */
  datatype Unit = Celsius | ArcDegrees | Percentage | Unitless | Lux | Seconds
  {
    function Code(): uint16
    {
      match this
      case Celsius => 0x272f
      case ArcDegrees => 0x2763
      case Percentage => 0x27ad
      case Unitless => 0x2700
      case Lux => 0x2731
      case Seconds => 0x2703
    }
  }

  /** `Unit::default()`: characteristics are built unitless. */
  function DefaultUnit(): (u: Unit)
    ensures u.Code() == 0x2700
  {
    Unitless
  }

  /** Distinct units have distinct assigned numbers. */
  lemma UnitCodeInjective(u: Unit, v: Unit)
    requires u.Code() == v.Code()
    ensures u == v
  {
  }

  /** The formats of the GATT Characteristic Presentation Format, with their format bytes. */
  datatype GattFormat = Bool | Uint8 | Uint16 | Uint32 | Uint64 | Int | Float | String | Data
  {
    function Code(): byte
    {
      match this
      case Bool => 0x01
      case Uint8 => 0x04
      case Uint16 => 0x06
      case Uint32 => 0x08
      case Uint64 => 0x0A
      case Int => 0x10
      case Float => 0x14
      case String => 0x19
      case Data => 0x1B
    }
  }

  /** Distinct formats have distinct format bytes. */
  lemma GattFormatCodeInjective(f: GattFormat, g: GattFormat)
    requires f.Code() == g.Code()
    ensures f == g
  {
  }

  /** `HapService`: the GATT service, its HomeKit type and instance id. */
  datatype HapService = HapService(
    service: Service,
    uuid: Uuid,
    instanceId: uint16,
    instanceIdCharacteristic: Characteristic)

  /** `HapCharacteristic`: the GATT characteristic and its HomeKit description. */
  datatype HapCharacteristic = HapCharacteristic(
    characteristic: Characteristic,
    characteristicId: uint16,
    uuid: Uuid,
    instanceId: uint16,
    properties: HapProperties,
    format: GattFormat,
    unit: Unit)
}
