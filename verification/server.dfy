/** The server descriptor shared by the database helper, the preference
    slot and the list adapter: one immutable record with the fields the
    code reads and writes. */
module ServerModel {
  import opened JavaTypes

  datatype Server = Server(
    hostName: string,
    ipAddress: string,
    score: Int32,
    ping: string,
    speed: Int64,
    countryLong: string,
    countryShort: string,
    vpnSessions: Int64,
    uptime: Int64,
    totalUsers: Int64,
    totalTraffic: string,
    logType: string,
    operator: string,
    message: string,
    ovpnConfigData: string,
    port: Int32,
    protocol: string,
    isStarred: bool)

  /** The nine-argument constructor the preference slot uses. Only the
      nine fields it takes are set; every other field keeps its initial
      value, modelled as the empty string, zero or false. */
  function NineFieldServer(hostName: string, ipAddress: string, ping: string, speed: Int64,
                           countryLong: string, countryShort: string, ovpnConfigData: string,
                           port: Int32, protocol: string): (s: Server)
    ensures s.hostName == hostName && s.ipAddress == ipAddress && s.ping == ping
    ensures s.speed == speed && s.countryLong == countryLong && s.countryShort == countryShort
    ensures s.ovpnConfigData == ovpnConfigData && s.port == port && s.protocol == protocol
  {
    Server(
      hostName := hostName, ipAddress := ipAddress, score := 0, ping := ping, speed := speed,
      countryLong := countryLong, countryShort := countryShort, vpnSessions := 0, uptime := 0,
      totalUsers := 0, totalTraffic := "", logType := "", operator := "", message := "",
      ovpnConfigData := ovpnConfigData, port := port, protocol := protocol, isStarred := false)
  }
}
