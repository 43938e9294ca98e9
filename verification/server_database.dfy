/** The layout of the `server` table as its CREATE TABLE statement declares
    it: which column sits in which slot, and the declared storage class of
    each. Rows of the table are positional, so this layout is what ties the
    encoder and the decoder together. */
module ServerDatabase {

  /** The two storage classes the statement uses. */
  datatype SqlType = Integer | Text

  /** The columns of the `server` table. */
  datatype Column =
    | Id | HostName | IpAddress | Score | Ping | Speed | CountryLong | CountryShort
    | VpnSessions | Uptime | TotalUsers | TotalTraffic | LogType | Operator
    | OperatorMessage | ConfigData | Port | Protocol | IsOld | IsStarred

  /** The columns in declaration order; a column's slot is its index here. */
  const Layout: seq<Column> := [
    Id, HostName, IpAddress, Score, Ping, Speed, CountryLong, CountryShort,
    VpnSessions, Uptime, TotalUsers, TotalTraffic, LogType, Operator,
    OperatorMessage, ConfigData, Port, Protocol, IsOld, IsStarred]

  const ColumnCount: nat := 20

  /** The declared type of each column. */
  function TypeOf(c: Column): SqlType {
    match c
    case Id | Score | Speed | VpnSessions | Uptime | TotalUsers | Port | IsOld | IsStarred => Integer
    case HostName | IpAddress | Ping | CountryLong | CountryShort | TotalTraffic
      | LogType | Operator | OperatorMessage | ConfigData | Protocol => Text
  }

  /** Only the synthetic row identifier is declared PRIMARY KEY. */
  predicate IsPrimaryKey(c: Column) {
    c == Id
  }

  /** The slot a column occupies; it is the inverse of indexing `Layout`. */
  function Slot(c: Column): (i: nat)
    ensures i < |Layout| && Layout[i] == c
  {
    match c
    case Id => 0
    case HostName => 1
    case IpAddress => 2
    case Score => 3
    case Ping => 4
    case Speed => 5
    case CountryLong => 6
    case CountryShort => 7
    case VpnSessions => 8
    case Uptime => 9
    case TotalUsers => 10
    case TotalTraffic => 11
    case LogType => 12
    case Operator => 13
    case OperatorMessage => 14
    case ConfigData => 15
    case Port => 16
    case Protocol => 17
    case IsOld => 18
    case IsStarred => 19
  }

  /** The table has twenty columns, each declared once, with the primary
      key first and the two flag columns last. */
  lemma LayoutShape()
    ensures |Layout| == ColumnCount
    ensures forall i :: 0 <= i < |Layout| ==> Slot(Layout[i]) == i
    ensures forall i, j :: 0 <= i < j < |Layout| ==> Layout[i] != Layout[j]
    ensures IsPrimaryKey(Layout[0]) && TypeOf(Layout[0]) == Integer
    ensures forall i :: 0 < i < |Layout| ==> !IsPrimaryKey(Layout[i])
    ensures Slot(IsOld) == 18 && Slot(IsStarred) == 19
  {
    forall i | 0 <= i < |Layout|
      ensures Slot(Layout[i]) == i
    {
    }
    forall i, j | 0 <= i < j < |Layout|
      ensures Layout[i] != Layout[j]
    {
      assert Slot(Layout[i]) == i && Slot(Layout[j]) == j;
    }
  }

  /** Each slot's column, one fact per slot. */
  lemma LayoutSlots()
    ensures Layout[0] == Id && Layout[1] == HostName && Layout[2] == IpAddress
    ensures Layout[3] == Score && Layout[4] == Ping && Layout[5] == Speed
    ensures Layout[6] == CountryLong && Layout[7] == CountryShort
    ensures Layout[8] == VpnSessions && Layout[9] == Uptime && Layout[10] == TotalUsers
    ensures Layout[11] == TotalTraffic && Layout[12] == LogType && Layout[13] == Operator
    ensures Layout[14] == OperatorMessage && Layout[15] == ConfigData
    ensures Layout[16] == Port && Layout[17] == Protocol
    ensures Layout[18] == IsOld && Layout[19] == IsStarred
  {
    // Deepest slots first: each fact then reuses the ones before it.
    assert Layout[19] == IsStarred;
    assert Layout[18] == IsOld;
    assert Layout[17] == Protocol;
    assert Layout[16] == Port;
    assert Layout[15] == ConfigData;
    assert Layout[14] == OperatorMessage;
    assert Layout[13] == Operator;
    assert Layout[12] == LogType;
    assert Layout[11] == TotalTraffic;
    assert Layout[10] == TotalUsers;
    assert Layout[9] == Uptime;
    assert Layout[8] == VpnSessions;
    assert Layout[7] == CountryShort;
    assert Layout[6] == CountryLong;
    assert Layout[5] == Speed;
    assert Layout[4] == Ping;
    assert Layout[3] == Score;
    assert Layout[2] == IpAddress;
    assert Layout[1] == HostName;
    assert Layout[0] == Id;
  }

  /** The text columns and the integer columns, by slot. */
  lemma ColumnTypes()
    ensures forall i :: i in {4, 11, 6, 7, 12, 13, 14, 15, 17, 1, 2} ==> TypeOf(Layout[i]) == Text
    ensures forall i :: i in {3, 5, 8, 9, 10, 16, 18, 19, 0} ==> TypeOf(Layout[i]) == Integer
  {
  }
}
