/**
 * The split descriptor: an immutable value carrying the table coordinates, a
 * tuple domain and the serialized Phoenix input split as a Base64 token, so
 * that it can travel through JSON between coordinator and workers.
 *
 * `D` is the tuple domain and `S` the Phoenix input split; both are opaque
 * here. The Hadoop serializer (`write` into a `DataOutputBuffer`, then
 * `getData()`; `readFields` from a `DataInputBuffer`) and the input split's
 * `getLocations` are parameters.
 */
module Split {
  import opened Common
  import Base64

  /** A host and optional port, as `HostAddress.fromString` parses them. */
  datatype HostAddress = HostAddress(host: string, port: Option<nat>)

  /**
   * The operations on an input split the descriptor calls. None stands for
   * the exception each may throw: an IOException from `write` or
   * `readFields`, any exception from `getLocations` and from parsing a host.
   */
  datatype SplitIo<!S> = SplitIo(
    write: S -> Option<seq<Base64.Octet>>,
    readFields: seq<Base64.Octet> -> Option<S>,
    locations: S -> Option<seq<string>>,
    parseHost: string -> Option<HostAddress>)

  /** What escapes a constructor. */
  datatype SplitError =
    /** a NullPointerException, with `requireNonNull`'s message when it has one */
    | NullPointer(message: Option<string>)
    /** the IllegalArgumentException of `Base64.getDecoder().decode` */
    | MalformedScans

  /** `PhoenixSplit`; a null reference is None. */
  datatype PhoenixSplit<D, S> = PhoenixSplit(
    connectorId: string,
    catalogName: Option<string>,
    schemaName: Option<string>,
    tableName: string,
    tupleDomain: D,
    scans: Option<string>,
    inputSplit: Option<S>)

  /** The three `requireNonNull` checks both constructors open with, in their order. */
  function RequiredArguments<D>(connectorId: Option<string>, tableName: Option<string>, tupleDomain: Option<D>)
    : (r: Option<SplitError>)
    ensures r.None? <==> connectorId.Some? && tableName.Some? && tupleDomain.Some?
    ensures connectorId.None? ==> r == Some(NullPointer(Some("connector id is null")))
    ensures connectorId.Some? && tableName.None? ==> r == Some(NullPointer(Some("table name is null")))
    ensures connectorId.Some? && tableName.Some? && tupleDomain.None? ==> r == Some(NullPointer(Some("tupleDomain is null")))
  {
    if connectorId.None? then Some(NullPointer(Some("connector id is null")))
    else if tableName.None? then Some(NullPointer(Some("table name is null")))
    else if tupleDomain.None? then Some(NullPointer(Some("tupleDomain is null")))
    else None
  }

  /**
   * The constructor used by the split manager: the token is the Base64
   * encoding of what `write` put in the buffer. A null input split fails
   * with the NullPointerException of `phoenixSplit.write`, which the
   * `catch (IOException)` does not catch; an IOException from `write`
   * leaves `scans` null.
   */
  function FromInputSplit<D, S>(
    io: SplitIo<S>, connectorId: Option<string>, catalogName: Option<string>, schemaName: Option<string>,
    tableName: Option<string>, tupleDomain: Option<D>, inputSplit: Option<S>)
    : (r: Result<PhoenixSplit<D, S>, SplitError>)
    ensures r.Ok? <==> connectorId.Some? && tableName.Some? && tupleDomain.Some? && inputSplit.Some?
    ensures RequiredArguments(connectorId, tableName, tupleDomain).Some? ==>
      r == Err(RequiredArguments(connectorId, tableName, tupleDomain).value)
    ensures r.Ok? ==>
      && r.value.connectorId == connectorId.value && r.value.tableName == tableName.value
      && r.value.catalogName == catalogName && r.value.schemaName == schemaName
      && r.value.tupleDomain == tupleDomain.value && r.value.inputSplit == inputSplit
    ensures r.Ok? ==> (r.value.scans.Some? <==> io.write(inputSplit.value).Some?)
    // the token decodes to exactly the serialized bytes
    ensures r.Ok? && r.value.scans.Some? ==> Base64.Decode(r.value.scans.value) == io.write(inputSplit.value)
  {
    match RequiredArguments(connectorId, tableName, tupleDomain)
    case Some(e) => Err(e)
    case None =>
      match inputSplit
      case None => Err(NullPointer(None))
      case Some(s) =>
        var written := io.write(s);
        var scans := if written.Some? then Some(Base64.Encode(written.value)) else None;
        assert written.Some? ==> Base64.Decode(scans.value) == written by {
          if written.Some? { Base64.DecodeEncode(written.value); }
        }
        Ok(PhoenixSplit(connectorId.value, catalogName, schemaName, tableName.value, tupleDomain.value, scans, inputSplit))
  }

  /**
   * The JSON creator: the token is kept verbatim and decoded into a fresh
   * input split. A null token fails in the decoder with a
   * NullPointerException and a malformed one with an IllegalArgumentException,
   * both outside the try; an IOException from `readFields` only leaves the
   * input split null.
   */
  function FromJson<D, S>(
    io: SplitIo<S>, connectorId: Option<string>, catalogName: Option<string>, schemaName: Option<string>,
    tableName: Option<string>, tupleDomain: Option<D>, scans: Option<string>)
    : (r: Result<PhoenixSplit<D, S>, SplitError>)
    ensures r.Ok? <==>
      && connectorId.Some? && tableName.Some? && tupleDomain.Some?
      && scans.Some? && Base64.Decode(scans.value).Some?
    ensures RequiredArguments(connectorId, tableName, tupleDomain).Some? ==>
      r == Err(RequiredArguments(connectorId, tableName, tupleDomain).value)
    ensures RequiredArguments(connectorId, tableName, tupleDomain).None? && scans.Some? && Base64.Decode(scans.value).None? ==>
      r == Err(MalformedScans)
    ensures r.Ok? ==>
      && r.value.connectorId == connectorId.value && r.value.tableName == tableName.value
      && r.value.catalogName == catalogName && r.value.schemaName == schemaName
      && r.value.tupleDomain == tupleDomain.value
    // the token is stored verbatim
    ensures r.Ok? ==> r.value.scans == scans
    // a failing readFields is absorbed: the split is built, holding no input split
    ensures r.Ok? ==> r.value.inputSplit == io.readFields(Base64.Decode(scans.value).value)
  {
    match RequiredArguments(connectorId, tableName, tupleDomain)
    case Some(e) => Err(e)
    case None =>
      match scans
      case None => Err(NullPointer(None))
      case Some(token) =>
        match Base64.Decode(token)
        case None => Err(MalformedScans)
        case Some(bytes) =>
          Ok(PhoenixSplit(connectorId.value, catalogName, schemaName, tableName.value, tupleDomain.value,
                          scans, io.readFields(bytes)))
  }

  /** `getScans`: the token, as serialized into JSON. */
  function GetScans<D, S>(split: PhoenixSplit<D, S>): (r: Option<string>)
    ensures r == split.scans
  {
    split.scans
  }

  /** `isRemotelyAccessible`: any worker may run the split. */
  function IsRemotelyAccessible<D, S>(split: PhoenixSplit<D, S>): (r: bool)
    ensures r
  {
    true
  }

  /**
   * `getAddresses`: the first location of the input split, or no address at
   * all when anything on the way throws (a null input split, a failing
   * `getLocations`, no location, a location that does not parse).
   */
  function GetAddresses<D, S>(io: SplitIo<S>, split: PhoenixSplit<D, S>): (r: seq<HostAddress>)
    ensures |r| <= 1
    ensures |r| == 1 <==>
      && split.inputSplit.Some?
      && io.locations(split.inputSplit.value).Some?
      && |io.locations(split.inputSplit.value).value| > 0
      && io.parseHost(io.locations(split.inputSplit.value).value[0]).Some?
    ensures |r| == 1 ==> r[0] == io.parseHost(io.locations(split.inputSplit.value).value[0]).value
  {
    match split.inputSplit
    case None => []
    case Some(s) =>
      match io.locations(s)
      case None => []
      case Some(locations) =>
        if |locations| == 0 then []
        else
          match io.parseHost(locations[0])
          case None => []
          case Some(address) => [address]
  }

  /** A serializer whose `readFields` reads back what `write` wrote. */
  ghost predicate RoundTrips<S(!new)>(io: SplitIo<S>) {
    forall s: S :: io.write(s).Some? ==> io.readFields(io.write(s).value) == Some(s)
  }

  /**
   * A split sent through JSON: its token read back by the JSON creator gives a
   * split with the same coordinates and the same token, whose input split is
   * what `readFields` makes of the original serialized bytes; with a
   * serializer that round-trips, the two splits are equal.
   */
  lemma JsonRoundTrip<D, S(!new)>(
    io: SplitIo<S>, connectorId: Option<string>, catalogName: Option<string>, schemaName: Option<string>,
    tableName: Option<string>, tupleDomain: Option<D>, inputSplit: Option<S>)
    requires FromInputSplit(io, connectorId, catalogName, schemaName, tableName, tupleDomain, inputSplit).Ok?
    requires io.write(inputSplit.value).Some?
    ensures
      var sent := FromInputSplit(io, connectorId, catalogName, schemaName, tableName, tupleDomain, inputSplit).value;
      var received := FromJson(io, connectorId, catalogName, schemaName, tableName, tupleDomain, GetScans(sent));
      && received.Ok?
      && GetScans(received.value) == GetScans(sent)
      && received.value.inputSplit == io.readFields(io.write(inputSplit.value).value)
      && (RoundTrips(io) ==> received.value == sent)
  {
  }

  /**
   * Re-serializing a split read from JSON reproduces the token it was read
   * from, whatever `readFields` made of it.
   */
  lemma TokenIsStable<D, S>(
    io: SplitIo<S>, connectorId: Option<string>, catalogName: Option<string>, schemaName: Option<string>,
    tableName: Option<string>, tupleDomain: Option<D>, token: string)
    requires FromJson(io, connectorId, catalogName, schemaName, tableName, tupleDomain, Some(token)).Ok?
    ensures
      var split := FromJson(io, connectorId, catalogName, schemaName, tableName, tupleDomain, Some(token)).value;
      && GetScans(split) == Some(token)
      && FromJson(io, Some(split.connectorId), split.catalogName, split.schemaName, Some(split.tableName),
                  Some(split.tupleDomain), GetScans(split)) == Ok(split)
  {
  }
}
