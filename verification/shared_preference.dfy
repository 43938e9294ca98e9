/** The "last connected server" slot kept in the app's private
    SharedPreferences file: nine keys written together by `saveServer`,
    read back with a fixed default per key by `getServer`, and probed
    through the IP key alone by `isPrefsHasServer`. The preferences file is
    modelled as the key-to-value map it holds; committing it to disk is not
    modelled. */
module SharedPreference {
  import opened JavaTypes
  import opened ServerModel

  /** A stored preference value, tagged with the kind it was put as. */
  datatype Value = StringValue(s: string) | LongValue(l: Int64) | IntValue(i: Int32)

  type Prefs = map<string, Value>

  /** A typed read: the value, or the `ClassCastException` a getter throws
      when the key holds a value of another kind. */
  datatype Read<T> = Ok(value: T) | ClassCast(key: string)

  const CountryLongKey: string := "server_country_long"
  const CountryShortKey: string := "server_country_short"
  const SpeedKey: string := "server_speed"
  const PingKey: string := "server_ping"
  const ProtocolKey: string := "server_protocol"
  const IpKey: string := "server_ip"
  const HostNameKey: string := "server_hostname"
  const OvpnKey: string := "server_ovpn"
  const PortKey: string := "server_port"

  /** The nine keys of the slot. */
  const ServerKeys: set<string> :=
    {HostNameKey, IpKey, CountryLongKey, CountryShortKey, SpeedKey, PingKey, ProtocolKey, OvpnKey, PortKey}

  /** `saveServer`: puts the nine fields of the server, each under its own
      key and with its own kind. */
  function SaveServer(p: Prefs, server: Server): (r: Prefs)
    ensures r.Keys == p.Keys + ServerKeys
    ensures forall k :: k in p && k !in ServerKeys ==> r[k] == p[k]
  {
    p[HostNameKey := StringValue(server.hostName)]
     [IpKey := StringValue(server.ipAddress)]
     [CountryLongKey := StringValue(server.countryLong)]
     [CountryShortKey := StringValue(server.countryShort)]
     [SpeedKey := LongValue(server.speed)]
     [PingKey := StringValue(server.ping)]
     [ProtocolKey := StringValue(server.protocol)]
     [OvpnKey := StringValue(server.ovpnConfigData)]
     [PortKey := IntValue(server.port)]
  }

  /** `getString(key, def)`. */
  function GetString(p: Prefs, key: string, def: string): (r: Read<string>)
    ensures key !in p ==> r == Ok(def)
    ensures r.ClassCast? <==> key in p && !p[key].StringValue?
    ensures r.ClassCast? ==> r.key == key
    ensures key in p && p[key].StringValue? ==> r == Ok(p[key].s)
  {
    if key !in p then Ok(def)
    else if p[key].StringValue? then Ok(p[key].s)
    else ClassCast(key)
  }

  /** `getLong(key, def)`. */
  function GetLong(p: Prefs, key: string, def: Int64): (r: Read<Int64>)
    ensures key !in p ==> r == Ok(def)
    ensures r.ClassCast? <==> key in p && !p[key].LongValue?
    ensures r.ClassCast? ==> r.key == key
    ensures key in p && p[key].LongValue? ==> r == Ok(p[key].l)
  {
    if key !in p then Ok(def)
    else if p[key].LongValue? then Ok(p[key].l)
    else ClassCast(key)
  }

  /** `getInt(key, def)`. */
  function GetInt(p: Prefs, key: string, def: Int32): (r: Read<Int32>)
    ensures key !in p ==> r == Ok(def)
    ensures r.ClassCast? <==> key in p && !p[key].IntValue?
    ensures r.ClassCast? ==> r.key == key
    ensures key in p && p[key].IntValue? ==> r == Ok(p[key].i)
  {
    if key !in p then Ok(def)
    else if p[key].IntValue? then Ok(p[key].i)
    else ClassCast(key)
  }

  /** `getServer`: the nine reads, in the order the constructor call
      evaluates its arguments; the first read that throws ends it. */
  function GetServer(p: Prefs): Read<Server>
  {
    var host := GetString(p, HostNameKey, "Japan");
    if host.ClassCast? then ClassCast(host.key) else
    var ip := GetString(p, IpKey, "x.x.x.x");
    if ip.ClassCast? then ClassCast(ip.key) else
    var ping := GetString(p, PingKey, "10ms");
    if ping.ClassCast? then ClassCast(ping.key) else
    var speed := GetLong(p, SpeedKey, 10);
    if speed.ClassCast? then ClassCast(speed.key) else
    var countryLong := GetString(p, CountryLongKey, "Japan");
    if countryLong.ClassCast? then ClassCast(countryLong.key) else
    var countryShort := GetString(p, CountryShortKey, "Japan");
    if countryShort.ClassCast? then ClassCast(countryShort.key) else
    var ovpn := GetString(p, OvpnKey, "null");
    if ovpn.ClassCast? then ClassCast(ovpn.key) else
    var port := GetInt(p, PortKey, 402);
    if port.ClassCast? then ClassCast(port.key) else
    var protocol := GetString(p, ProtocolKey, "UDP");
    if protocol.ClassCast? then ClassCast(protocol.key) else
    Ok(NineFieldServer(host.value, ip.value, ping.value, speed.value, countryLong.value,
                       countryShort.value, ovpn.value, port.value, protocol.value))
  }

  /** `isPrefsHasServer`. */
  predicate IsPrefsHasServer(p: Prefs) {
    IpKey in p
  }

  /** Every key of the slot holds a value of the kind `saveServer` puts
      there, or is absent. */
  predicate WellKinded(p: Prefs) {
    && (HostNameKey in p ==> p[HostNameKey].StringValue?)
    && (IpKey in p ==> p[IpKey].StringValue?)
    && (PingKey in p ==> p[PingKey].StringValue?)
    && (SpeedKey in p ==> p[SpeedKey].LongValue?)
    && (CountryLongKey in p ==> p[CountryLongKey].StringValue?)
    && (CountryShortKey in p ==> p[CountryShortKey].StringValue?)
    && (OvpnKey in p ==> p[OvpnKey].StringValue?)
    && (PortKey in p ==> p[PortKey].IntValue?)
    && (ProtocolKey in p ==> p[ProtocolKey].StringValue?)
  }

  /** The string stored under a key, or the key's default when absent. */
  function StringOr(p: Prefs, key: string, def: string): string
    requires key in p ==> p[key].StringValue?
  {
    if key in p then p[key].s else def
  }

  /** The key is present and holds a value of another kind than the one
      `saveServer` puts there: a `long` for the speed, an `int` for the
      port, a string for the other seven. */
  predicate HoldsWrongKind(p: Prefs, key: string) {
    && key in p
    && if key == SpeedKey then !p[key].LongValue?
       else if key == PortKey then !p[key].IntValue?
       else !p[key].StringValue?
  }

  /** `getServer` fails exactly when some key of the slot holds a value
      of the wrong kind, and the failure names a key of the slot that does. */
  lemma GetServerFailsOnWrongKind(p: Prefs)
    ensures GetServer(p).Ok? <==> WellKinded(p)
    ensures GetServer(p).ClassCast? ==>
      GetServer(p).key in ServerKeys && HoldsWrongKind(p, GetServer(p).key)
  {
  }

  /** `getServer` builds its server from the nine reads' values. */
  lemma GetServerIsNineReads(p: Prefs)
    ensures GetServer(p).Ok? ==>
      GetServer(p) == Ok(NineFieldServer(
        GetString(p, HostNameKey, "Japan").value, GetString(p, IpKey, "x.x.x.x").value,
        GetString(p, PingKey, "10ms").value, GetLong(p, SpeedKey, 10).value,
        GetString(p, CountryLongKey, "Japan").value, GetString(p, CountryShortKey, "Japan").value,
        GetString(p, OvpnKey, "null").value, GetInt(p, PortKey, 402).value,
        GetString(p, ProtocolKey, "UDP").value))
  {
  }

  /** A string read of a key holding a string, or of an absent key. */
  lemma StringRead(p: Prefs, key: string, def: string)
    requires key in p ==> p[key].StringValue?
    ensures GetString(p, key, def) == Ok(StringOr(p, key, def))
  {
  }

  /** When every key holds the right kind, each field is read from its own
      key and falls back to its own default when that key alone is absent. */
  lemma GetServerReadsEachKey(p: Prefs)
    requires WellKinded(p)
    ensures GetServer(p).Ok?
    ensures var s := GetServer(p).value;
      && s.hostName == StringOr(p, HostNameKey, "Japan")
      && s.ipAddress == StringOr(p, IpKey, "x.x.x.x")
      && s.ping == StringOr(p, PingKey, "10ms")
      && s.speed == (if SpeedKey in p then p[SpeedKey].l else 10)
      && s.countryLong == StringOr(p, CountryLongKey, "Japan")
      && s.countryShort == StringOr(p, CountryShortKey, "Japan")
      && s.ovpnConfigData == StringOr(p, OvpnKey, "null")
      && s.port == (if PortKey in p then p[PortKey].i else 402)
      && s.protocol == StringOr(p, ProtocolKey, "UDP")
  {
    GetServerFailsOnWrongKind(p);
    GetServerIsNineReads(p);
    StringRead(p, HostNameKey, "Japan");
    StringRead(p, IpKey, "x.x.x.x");
    StringRead(p, PingKey, "10ms");
    StringRead(p, CountryLongKey, "Japan");
    StringRead(p, CountryShortKey, "Japan");
    StringRead(p, OvpnKey, "null");
    StringRead(p, ProtocolKey, "UDP");
  }

  /** On preferences holding none of the slot's keys, `getServer` returns
      the built-in defaults. */
  lemma GetServerDefaults(p: Prefs)
    requires forall k :: k in ServerKeys ==> k !in p
    ensures GetServer(p) == Ok(NineFieldServer("Japan", "x.x.x.x", "10ms", 10, "Japan", "Japan", "null", 402, "UDP"))
  {
    assert HostNameKey in ServerKeys && IpKey in ServerKeys && PingKey in ServerKeys;
    assert SpeedKey in ServerKeys && CountryLongKey in ServerKeys && CountryShortKey in ServerKeys;
    assert OvpnKey in ServerKeys && PortKey in ServerKeys && ProtocolKey in ServerKeys;
  }

  /** Reading the slot back after `saveServer` returns the nine saved
      fields of the server. */
  lemma SaveThenGet(p: Prefs, server: Server)
    ensures GetServer(SaveServer(p, server)).Ok?
    ensures var s := GetServer(SaveServer(p, server)).value;
      && s.hostName == server.hostName && s.ipAddress == server.ipAddress
      && s.ping == server.ping && s.speed == server.speed
      && s.countryLong == server.countryLong && s.countryShort == server.countryShort
      && s.ovpnConfigData == server.ovpnConfigData && s.port == server.port
      && s.protocol == server.protocol
  {
    GetServerReadsEachKey(SaveServer(p, server));
  }

  /** Saving a server and reading it back loses exactly the fields the
      slot does not store. */
  lemma SaveThenGetIsNineFields(p: Prefs, server: Server)
    ensures GetServer(SaveServer(p, server)) ==
      Ok(NineFieldServer(server.hostName, server.ipAddress, server.ping, server.speed,
                         server.countryLong, server.countryShort, server.ovpnConfigData,
                         server.port, server.protocol))
  {
    SaveThenGet(p, server);
  }

  /** `isPrefsHasServer` answers true after any `saveServer`. */
  lemma HasServerAfterSave(p: Prefs, server: Server)
    ensures IsPrefsHasServer(SaveServer(p, server))
  {
    assert IpKey in ServerKeys;
  }

  /** `isPrefsHasServer` looks at the IP key only: writing or removing any
      other key leaves its answer unchanged. */
  lemma HasServerIgnoresOtherKeys(p: Prefs, k: string, v: Value)
    requires k != IpKey
    ensures IsPrefsHasServer(p[k := v]) == IsPrefsHasServer(p)
    ensures IsPrefsHasServer(p - {k}) == IsPrefsHasServer(p)
  {
  }

  /** Saving the same server twice leaves the same preferences as saving
      it once. */
  lemma SaveServerIdempotent(p: Prefs, server: Server)
    ensures SaveServer(SaveServer(p, server), server) == SaveServer(p, server)
  {
  }

  /** A later `saveServer` overwrites every field of an earlier one. */
  lemma LastSaveWins(p: Prefs, first: Server, second: Server)
    ensures SaveServer(SaveServer(p, first), second) == SaveServer(p, second)
  {
  }
}
