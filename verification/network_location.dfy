/** A host address and a port, and their packed `address:port` text form. */
module NetworkLocations {
  import opened Wrappers
  import opened Text

  const MAX_PORT: int := 65535

  /** A location on the network. Equality of two locations is equality of both fields. */
  datatype NetworkLocation = NetworkLocation(address: string, port: int)

  /** The exceptions constructing or parsing a location can throw. */
  datatype LocationError = NullAddress | IllegalArgument | NumberFormat

  predicate ValidPort(port: int) {
    0 <= port <= MAX_PORT
  }

  /**
   * The checked constructor: a null address and a port outside 0..65535 are rejected,
   * anything else is stored as given.
   */
  function MakeLocation(address: Option<string>, port: int): (r: Result<NetworkLocation, LocationError>)
    ensures r.Ok? <==> address.Some? && ValidPort(port)
    ensures r.Ok? ==> r.value.address == address.value && r.value.port == port
    ensures address.None? ==> r == Err(NullAddress)
  {
    if address.None? then Err(NullAddress)
    else if !ValidPort(port) then Err(IllegalArgument)
    else Ok(NetworkLocation(address.value, port))
  }

  /** The location the unchecked constructor builds to stand for "no location". */
  const NullLocation: NetworkLocation := NetworkLocation("null", 0)

  /** `equals`: same port and same address. */
  predicate SameLocation(a: NetworkLocation, b: NetworkLocation) {
    a.port == b.port && a.address == b.address
  }

  lemma SameLocationIsEquality(a: NetworkLocation, b: NetworkLocation)
    ensures SameLocation(a, b) <==> a == b
  {
  }

  /** `toPackedString`: the address, a colon, and the port in decimal. */
  function PackedString(loc: NetworkLocation): (s: string)
    ensures |s| > |loc.address| && s[..|loc.address|] == loc.address && s[|loc.address|] == ':'
  {
    loc.address + ":" + IntToDecimal(loc.port)
  }

  /** `toString`: the class name with the packed form in braces. */
  function Display(loc: NetworkLocation): (s: string)
    ensures s == "NetworkLocationImpl{" + PackedString(loc) + "}"
  {
    "NetworkLocationImpl{" + loc.address + ":" + IntToDecimal(loc.port) + "}"
  }

  /**
   * `extractNetworkLocation`: split on ':'; exactly two fields are needed (trailing empty
   * fields do not count), the second is parsed as an int, and the constructor's checks apply.
   */
  function ExtractLocation(s: string): (r: Result<NetworkLocation, LocationError>)
    ensures r.Ok? ==> ValidPort(r.value.port)
    ensures r.Ok? ==> |Split(s, ':')| == 2 && r.value.address == Split(s, ':')[0]
    ensures |Split(s, ':')| != 2 ==> r == Err(IllegalArgument)
    ensures r.Ok? ==> ParseInt(Split(s, ':')[1]) == Ok(r.value.port)
    ensures |Split(s, ':')| == 2 ==> (r == Err(NumberFormat) <==> ParseInt(Split(s, ':')[1]).Err?)
    ensures |Split(s, ':')| == 2 && ParseInt(Split(s, ':')[1]).Ok? ==>
              (r.Ok? <==> ValidPort(ParseInt(Split(s, ':')[1]).value))
  {
    var fields := Split(s, ':');
    if |fields| != 2 then Err(IllegalArgument)
    else
      match ParseInt(fields[1])
      case Err(_) => Err(NumberFormat)
      case Ok(port) => MakeLocation(Some(fields[0]), port)
  }

  /**
   * Packing a valid location whose address holds no ':' and extracting it again gives
   * back the same location.
   */
  lemma ExtractPackedString(loc: NetworkLocation)
    requires ':' !in loc.address && ValidPort(loc.port)
    ensures ExtractLocation(PackedString(loc)) == Ok(loc)
  {
    var digits := NatToDecimal(loc.port);
    assert !IsDigit(':');
    assert PackedString(loc) == loc.address + [':'] + digits;
    SplitOfJoin(loc.address, ':', digits);
    ParseIntOfDecimal(loc.port);
  }

  /** Leading zeros in the port are accepted, as `Integer.parseInt` accepts them. */
  lemma LeadingZeroPort()
    ensures ExtractLocation("h:080") == Ok(NetworkLocation("h", 80))
  {
    assert "h:080" == "h" + [':'] + "080";
    SplitOfJoin("h", ':', "080");
    assert AllDigits("080");
    assert "080"[..2] == "08" && "08"[..1] == "0" && "0"[..0] == "";
    assert DigitsValue("080") == 80;
  }

  /** A text without any ':' is never a location: it splits into a single field. */
  lemma NoColonIsRejected(s: string)
    requires ':' !in s
    ensures ExtractLocation(s) == Err(IllegalArgument)
  {
  }

  /**
   * A trailing separator is tolerated: `split` drops the empty last field, so the packed
   * form followed by one more ':' is read as the same location.
   */
  lemma ExtractIgnoresTrailingColon(loc: NetworkLocation)
    requires ':' !in loc.address && ValidPort(loc.port)
    ensures ExtractLocation(PackedString(loc) + ":") == Ok(loc)
  {
    var digits := NatToDecimal(loc.port);
    assert !IsDigit(':');
    var s := PackedString(loc) + ":";
    assert s == loc.address + [':'] + (digits + [':'] + "");
    FieldsOfJoin(loc.address, ':', digits + [':'] + "");
    FieldsOfJoin(digits, ':', "");
    assert Fields(s, ':') == [loc.address, digits, ""];
    assert s[|loc.address|] == ':';
    assert DropTrailingEmpty([loc.address, digits, ""]) == [loc.address, digits] by {
      assert [loc.address, digits, ""][..2] == [loc.address, digits];
    }
    ParseIntOfDecimal(loc.port);
  }
}
