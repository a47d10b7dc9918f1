// The parts of the KNX library that the gateway's core calls: group
// addresses as 16-bit words, and the registry of datapoint types looked up
// by identifier text. The library itself is not part of this model; these are
// the values the gateway passes to it and gets back.
module KnxCore {
  import opened Bytes
  import opened Wrappers
  import opened Failures
  import opened Text

  /** A group address held as its raw 16-bit word. */
  datatype GroupAddress = GroupAddress(raw: uint16)

  /** The three-level text `main/middle/sub` of a word laid out as 5, 3 and 8 bits. */
  function AddressLevel3(ga: GroupAddress): (s: string)
    ensures |s| >= 5
  {
    Decimal(ga.raw / 0x800) + "/" + Decimal(ga.raw / 0x100 % 8) + "/" + Decimal(ga.raw % 0x100)
  }

  /**
   * A datatype point type: one the registry knows, with its identifier
   * (such as `1.001`), or the raw type used when nothing matches.
   */
  datatype DataPointType = Registered(id: string) | Raw

  /** The identifier a datapoint type reports; the raw type's text is a placeholder. */
  function Id(t: DataPointType): string
  {
    match t
    case Registered(id) => id
    case Raw => "raw"
  }

  /** The registry: identifier texts such as `dpst-1-1` and `dpt-1` mapped to types. */
  type Registry = map<string, DataPointType>

  /**
   * DataPointRegistry.getDataPointType: the type under `key`, or the
   * not-found failure. The registry is a foreign library; this stands in
   * for it over a map, so its contract describes the stand-in, which the
   * look-ups below rely on.
   */
  function Lookup(registry: Registry, key: string): (r: Result<DataPointType, Failure>)
    ensures r.Ok? <==> key in registry
    ensures r.Ok? ==> r.value == registry[key]
    ensures r.Err? ==> r.error == DataPointTypeNotFound
  {
    if key in registry then Ok(registry[key]) else Err(DataPointTypeNotFound)
  }

  /** Registry entries are real datapoint types, never the raw fallback. */
  predicate WellFormed(registry: Registry)
  {
    forall key :: key in registry ==> registry[key].Registered?
  }

  /**
   * How the datapoint type's conversion of the textual write arguments ends:
   * it yields a value, it refuses them with a KNX exception, or it fails with
   * any other exception.
   */
  datatype Conversion = Converts | RefusedByKnx | OtherFailure

  /**
   * The answers of the KNX client for the one request a worker handles:
   * whether the bus acknowledged the read or write, the status pool's data for
   * the address (none when the pool has no entry), the text and unit the
   * datapoint type renders that data as (none when it cannot convert it), and
   * how the datapoint type's conversion of the textual write arguments ends.
   */
  datatype KnxClient = KnxClient(
    readAcknowledged: bool,
    statusData: Option<seq<uint8>>,
    readText: Option<string>,
    conversion: Conversion,
    writeAcknowledged: bool)
}
