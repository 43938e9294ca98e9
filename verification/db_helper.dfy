/** The SQLite cache of known servers, modelled as a value: the `server`
    table is a sequence of twenty-slot rows kept in row-identifier order,
    and every operation of the helper is a function from table to table. */
module DbHelper {
  import opened JavaTypes
  import opened ServerModel
  import opened ServerDatabase

  /** One stored value. SQLite stores integers as 64-bit values; the model
      keeps them unbounded and narrows them when they are read. */
  datatype Cell = Null | IntCell(i: int) | TextCell(t: string)

  /** A row of the `server` table: one cell per column, in `Layout` order. */
  type Row = r: seq<Cell> | |r| == 20 witness seq(20, _ => Null)

  type Table = seq<Row>

  /** The column-to-value bag handed to `insert` and `update`. */
  type ContentValues = map<Column, Cell>

  /** A cell agrees with a declared type when it holds a value of that kind. */
  predicate HasType(c: Cell, ty: SqlType) {
    match ty
    case Integer => c.IntCell?
    case Text => c.TextCell?
  }

  /** The slots `cursorToServer` reads (all but `_ID` and `is_old`) hold
      values of the kinds their columns are declared with. */
  predicate Readable(row: Row) {
    && row[1].TextCell? && row[2].TextCell? && row[3].IntCell?
    && row[4].TextCell? && row[5].IntCell? && row[6].TextCell? && row[7].TextCell?
    && row[8].IntCell? && row[9].IntCell? && row[10].IntCell? && row[11].TextCell?
    && row[12].TextCell? && row[13].TextCell? && row[14].TextCell? && row[15].TextCell?
    && row[16].IntCell? && row[17].TextCell? && row[19].IntCell?
  }

  /** Every slot holds a value of the kind its column is declared with
      (spelled out slot by slot; `WellTypedMatchesSchema` ties it to
      `Layout` and `TypeOf`). */
  predicate WellTyped(row: Row) {
    row[0].IntCell? && row[18].IntCell? && Readable(row)
  }

  /** A row is well typed exactly when every slot agrees with the type the
      CREATE TABLE statement declares for that slot's column. */
  lemma WellTypedMatchesSchema(row: Row)
    ensures WellTyped(row) <==> forall i :: 0 <= i < 20 ==> HasType(row[i], TypeOf(Layout[i]))
  {
    LayoutSlots();
  }

  /** Every row of the table has the declared column types. */
  predicate AllWellTyped(t: Table) {
    forall k :: 0 <= k < |t| ==> WellTyped(t[k])
  }

  /** The row identifier, which the INTEGER PRIMARY KEY column aliases. */
  function RowId(row: Row): int {
    if row[0].IntCell? then row[0].i else 0
  }

  /** The invariant every reachable table keeps: rows are well typed and
      appear in strictly increasing row-identifier order, which is the order
      a query without ORDER BY returns them in. */
  predicate Valid(t: Table) {
    && AllWellTyped(t)
    && (forall i, j :: 0 <= i < j < |t| ==> RowId(t[i]) < RowId(t[j]))
  }

  /** 1 for true, 0 for false, as the flag columns store booleans. */
  function Flag(b: bool): int {
    if b then 1 else 0
  }

  /** The row's starred flag is the integer 0 (the `deleteOld` condition). */
  predicate IsUnstarred(row: Row) {
    row[Slot(IsStarred)] == IntCell(0)
  }

  // ---------------------------------------------------------------------
  // Schema lifecycle

  /** Whether the `server` table exists, and its rows when it does. */
  datatype Store = Missing | Present(rows: Table)

  datatype SqlError = TableAlreadyExists

  datatype StoreResult = Done(store: Store) | Failed(error: SqlError)

  /** DROP TABLE IF EXISTS: the table is gone afterwards, and it is not an
      error for it to be absent already. */
  function DropServerTable(s: Store): (r: Store)
    ensures r.Missing?
  {
    Missing
  }

  /** `onCreate` runs the CREATE TABLE statement: an empty table, or an
      error when the table already exists. */
  function OnCreate(s: Store): (r: StoreResult)
    ensures r.Done? <==> s.Missing?
    ensures r.Done? ==> r.store.Present? && r.store.rows == [] && Valid(r.store.rows)
  {
    if s.Present? then Failed(TableAlreadyExists) else Done(Present([]))
  }

  /** `onUpgrade` drops the table and creates it afresh: whatever the
      store held, the outcome is an empty table. */
  function OnUpgrade(s: Store, oldVersion: int, newVersion: int): (r: StoreResult)
    ensures r.Done? && r.store.Present? && r.store.rows == []
  {
    OnCreate(DropServerTable(s))
  }

  /** `onDowngrade` is handled exactly as an upgrade. */
  function OnDowngrade(s: Store, oldVersion: int, newVersion: int): (r: StoreResult)
    ensures r == OnUpgrade(s, oldVersion, newVersion)
    ensures r.Done? && r.store.Present? && r.store.rows == []
  {
    OnUpgrade(s, oldVersion, newVersion)
  }

  // ---------------------------------------------------------------------
  // Encoding and decoding a server

  /** The value `getContentValues` puts under each column. The row
      identifier is not among the columns it writes, so it has no value here. */
  function ColumnValue(s: Server, c: Column): Cell {
    match c
    case Id => Null
    case HostName => TextCell(s.hostName)
    case IpAddress => TextCell(s.ipAddress)
    case Score => IntCell(s.score)
    case Ping => TextCell(s.ping)
    case Speed => IntCell(s.speed)
    case CountryLong => TextCell(s.countryLong)
    case CountryShort => TextCell(s.countryShort)
    case VpnSessions => IntCell(s.vpnSessions)
    case Uptime => IntCell(s.uptime)
    case TotalUsers => IntCell(s.totalUsers)
    case TotalTraffic => TextCell(s.totalTraffic)
    case LogType => TextCell(s.logType)
    case Operator => TextCell(s.operator)
    case OperatorMessage => TextCell(s.message)
    case ConfigData => TextCell(s.ovpnConfigData)
    case Port => IntCell(s.port)
    case Protocol => TextCell(s.protocol)
    case IsOld => IntCell(0)
    case IsStarred => IntCell(Flag(s.isStarred))
  }

  /** `getContentValues`: every column except the row identifier, each
      holding a value of its declared type, with `is_old` cleared and the
      starred flag copied from the server as 1 or 0. */
  function GetContentValues(s: Server): (cv: ContentValues)
    ensures forall c :: c in cv <==> c != Id
    ensures forall c :: c in cv ==> HasType(cv[c], TypeOf(c))
    ensures cv[IsOld] == IntCell(0)
    ensures cv[IsStarred] == IntCell(Flag(s.isStarred))
  {
    var columns := set i | 0 <= i < |Layout| :: Layout[i];
    assert forall c :: c in columns by {
      forall c ensures c in columns {
        assert Layout[Slot(c)] == c;
      }
    }
    map c | c in columns && c != Id :: ColumnValue(s, c)
  }

  /** The row an insert stores: each column takes its supplied value; the
      row identifier, when not supplied, takes `rowId`; any other column
      left out is NULL. */
  function MakeRow(cv: ContentValues, rowId: int): (row: Row)
    ensures forall i :: 0 <= i < 20 && Layout[i] in cv ==> row[i] == cv[Layout[i]]
    ensures Id !in cv ==> RowId(row) == rowId
  {
    seq(20, i requires 0 <= i < 20 =>
      if Layout[i] in cv then cv[Layout[i]]
      else if Layout[i] == Id then IntCell(rowId)
      else Null)
  }

  /** The row a server is stored as, under row identifier `rowId`: slot by
      slot, the value `getContentValues` gives that slot's column. */
  function Encode(s: Server, rowId: int): (row: Row)
    ensures RowId(row) == rowId
  {
    seq(20, i requires 0 <= i < 20 => if i == 0 then IntCell(rowId) else ColumnValue(s, Layout[i]))
  }

  /** Inserting the content values of a server stores exactly `Encode`:
      every value put under a column name lands in the slot the layout
      gives that column. */
  lemma InsertedRowIsEncode(s: Server, rowId: int)
    ensures MakeRow(GetContentValues(s), rowId) == Encode(s, rowId)
  {
    var cv := GetContentValues(s);
    forall i | 0 <= i < 20
      ensures MakeRow(cv, rowId)[i] == Encode(s, rowId)[i]
    {
      if i == 0 {
        assert Layout[0] == Id;
      }
    }
  }

  /** Slot access as the cursor does it: `getString`, `getInt`, `getLong`. */
  function GetString(c: Cell): string
    requires c.TextCell?
  {
    c.t
  }

  function GetInt(c: Cell): Int32
    requires c.IntCell?
  {
    ToInt32(c.i)
  }

  function GetLong(c: Cell): Int64
    requires c.IntCell?
  {
    ToInt64(c.i)
  }

  /** `cursorToServer`: reads a server back from a row by fixed slot
      numbers. Slots 0 (`_ID`) and 18 (`is_old`) are not read; the server
      is starred when slot 19 holds 1. */
  function CursorToServer(row: Row): (s: Server)
    requires Readable(row)
  {
    Server(
      hostName := GetString(row[1]),
      ipAddress := GetString(row[2]),
      score := GetInt(row[3]),
      ping := GetString(row[4]),
      speed := GetLong(row[5]),
      countryLong := GetString(row[6]),
      countryShort := GetString(row[7]),
      vpnSessions := GetLong(row[8]),
      uptime := GetLong(row[9]),
      totalUsers := GetLong(row[10]),
      totalTraffic := GetString(row[11]),
      logType := GetString(row[12]),
      operator := GetString(row[13]),
      message := GetString(row[14]),
      ovpnConfigData := GetString(row[15]),
      port := GetInt(row[16]),
      protocol := GetString(row[17]),
      isStarred := GetInt(row[19]) == 1)
  }

  /** Decoding a stored server gives the server back, whatever row
      identifier the insert assigned: the fixed slots the decoder reads are
      the slots the layout gives each field, the stored row is well typed,
      `is_old` is 0 and the starred slot is 1 or 0. */
  lemma RoundTrip(s: Server, rowId: int)
    ensures WellTyped(Encode(s, rowId))
    ensures CursorToServer(Encode(s, rowId)) == s
    ensures Encode(s, rowId)[Slot(IsOld)] == IntCell(0)
    ensures Encode(s, rowId)[Slot(IsStarred)] == IntCell(Flag(s.isStarred))
  {
    EncodeWellTyped(s, rowId);
    LayoutSlots();
  }

  /** `Encode` stores every value under its column's declared type. */
  lemma EncodeWellTyped(s: Server, rowId: int)
    ensures WellTyped(Encode(s, rowId))
  {
    LayoutSlots();
  }

  /** The decoder never looks at the row identifier or the `is_old` flag:
      whatever those two slots hold, the row reads back the same. */
  lemma DecodeIgnoresIdAndIsOld(row: Row, id: Cell, isOld: Cell)
    requires Readable(row)
    ensures Readable(row[0 := id][18 := isOld])
    ensures CursorToServer(row[0 := id][18 := isOld]) == CursorToServer(row)
  {
  }

  // ---------------------------------------------------------------------
  // Insert, delete and update

  /** The largest row identifier of a non-empty table. */
  function MaxRowId(t: Table): (m: int)
    requires |t| > 0
    ensures forall k :: 0 <= k < |t| ==> RowId(t[k]) <= m
  {
    if |t| == 1 then RowId(t[0])
    else
      var m := MaxRowId(t[..|t| - 1]);
      if RowId(t[|t| - 1]) > m then RowId(t[|t| - 1]) else m
  }

  /** SQLite's choice of identifier for a new row: one more than the
      largest present, and 1 in an empty table. */
  function NextRowId(t: Table): (id: int)
    ensures forall k :: 0 <= k < |t| ==> RowId(t[k]) < id
    ensures |t| == 0 ==> id == 1
  {
    if |t| == 0 then 1 else MaxRowId(t) + 1
  }

  /** `insert` of a server's content values: appends its encoding under a
      new row identifier, larger than every identifier present. */
  function InsertServer(t: Table, s: Server): (r: Table)
    ensures |r| == |t| + 1 && r[..|t|] == t
    ensures r[|t|] == Encode(s, NextRowId(t))
    ensures forall k :: 0 <= k < |t| ==> RowId(r[k]) < RowId(r[|t|])
  {
    t + [Encode(s, NextRowId(t))]
  }

  /** `InsertServer` is the SQLite insert of the server's content values. */
  lemma InsertServerIsInsert(t: Table, s: Server)
    ensures InsertServer(t, s) == t + [MakeRow(GetContentValues(s), NextRowId(t))]
  {
    InsertedRowIsEncode(s, NextRowId(t));
  }

  /** `deleteOld`: removes every row whose starred flag is 0 and keeps
      the others, in order. */
  function DeleteOld(t: Table): (r: Table)
    ensures |r| <= |t|
  {
    if |t| == 0 then []
    else
      var rest := DeleteOld(t[1..]);
      if IsUnstarred(t[0]) then rest else [t[0]] + rest
  }

  /** A row is kept by `deleteOld` exactly when it was in the table and
      its starred flag is not 0. */
  lemma {:induction false} DeleteOldMembers(t: Table, row: Row)
    ensures row in DeleteOld(t) <==> row in t && !IsUnstarred(row)
  {
    if |t| > 0 {
      DeleteOldMembers(t[1..], row);
      assert t == [t[0]] + t[1..];
    }
  }

  /** On a valid table the rows `deleteOld` keeps stay valid, hence in
      row-identifier order, which is their prior order. */
  lemma {:induction false} DeleteOldValid(t: Table)
    requires Valid(t)
    ensures Valid(DeleteOld(t))
  {
    if |t| > 0 {
      var rest := DeleteOld(t[1..]);
      assert Valid(t[1..]);
      DeleteOldValid(t[1..]);
      if !IsUnstarred(t[0]) {
        forall j | 0 <= j < |rest|
          ensures RowId(t[0]) < RowId(rest[j])
        {
          DeleteOldMembers(t[1..], rest[j]);
          var m :| 0 <= m < |t| - 1 && t[1..][m] == rest[j];
          assert t[m + 1] == rest[j];
        }
        var r := [t[0]] + rest;
        assert forall j :: 1 <= j < |r| ==> r[j] == rest[j - 1];
      }
    }
  }

  /** One insert per server, in list order, as the loop of `save` does. */
  function InsertAll(t: Table, servers: seq<Server>): (r: Table)
    ensures |r| == |t| + |servers| && r[..|t|] == t
    decreases |servers|
  {
    if |servers| == 0 then t
    else
      var t1 := InsertServer(t, servers[0]);
      var r := InsertAll(t1, servers[1..]);
      assert r[..|t|] == t1[..|t|];
      r
  }

  /** A row of a table that is a prefix of another. */
  lemma PrefixIndex(a: Table, b: Table, k: nat)
    requires |b| <= |a| && a[..|b|] == b && k < |b|
    ensures a[k] == b[k]
  {
    assert a[..|b|][k] == a[k];
  }

  /** The `j`-th inserted row is the encoding of the `j`-th server, under
      an identifier no smaller than the first one handed out. */
  lemma {:induction false} InsertAllRow(t: Table, servers: seq<Server>, j: nat)
    requires j < |servers|
    ensures |t| + j < |InsertAll(t, servers)|
    ensures InsertAll(t, servers)[|t| + j]
      == Encode(servers[j], RowId(InsertAll(t, servers)[|t| + j]))
    ensures NextRowId(t) <= RowId(InsertAll(t, servers)[|t| + j])
    decreases |servers|
  {
    var t1 := InsertServer(t, servers[0]);
    var r := InsertAll(t, servers);
    assert r == InsertAll(t1, servers[1..]);
    PrefixIndex(r, t1, |t|);
    if j > 0 {
      InsertAllRow(t1, servers[1..], j - 1);
      assert servers[1..][j - 1] == servers[j];
      assert NextRowId(t) == RowId(t1[|t|]) < NextRowId(t1);
    }
  }

  /** Inserting one server keeps a valid table valid: the new row is well
      typed and its identifier exceeds every other. */
  lemma InsertServerValid(t: Table, s: Server)
    requires Valid(t)
    ensures Valid(InsertServer(t, s))
  {
    var t1 := InsertServer(t, s);
    RoundTrip(s, NextRowId(t));
    assert forall k :: 0 <= k < |t| ==> t1[k] == t[k];
  }

  /** Inserting servers keeps a valid table valid. */
  lemma {:induction false} InsertAllValid(t: Table, servers: seq<Server>)
    requires Valid(t)
    ensures Valid(InsertAll(t, servers))
    decreases |servers|
  {
    if |servers| > 0 {
      InsertServerValid(t, servers[0]);
      InsertAllValid(InsertServer(t, servers[0]), servers[1..]);
    }
  }

  /** `save`: drops every unstarred row, then inserts one row per incoming
      server after the starred rows that survive. */
  function Save(t: Table, servers: seq<Server>): (r: Table)
    ensures |r| == |DeleteOld(t)| + |servers|
    ensures r[..|DeleteOld(t)|] == DeleteOld(t)
  {
    InsertAll(DeleteOld(t), servers)
  }

  /** `save` keeps a valid table valid. */
  lemma SaveValid(t: Table, servers: seq<Server>)
    requires Valid(t)
    ensures Valid(Save(t, servers))
  {
    DeleteOldValid(t);
    InsertAllValid(DeleteOld(t), servers);
  }

  /** The `j`-th inserted row reads back as the `j`-th server, with
      `is_old` 0 and the server's own starred flag. */
  lemma InsertAllReadsBack(t: Table, servers: seq<Server>, j: nat)
    requires j < |servers|
    ensures |t| + j < |InsertAll(t, servers)|
    ensures WellTyped(InsertAll(t, servers)[|t| + j])
    ensures CursorToServer(InsertAll(t, servers)[|t| + j]) == servers[j]
    ensures InsertAll(t, servers)[|t| + j][Slot(IsOld)] == IntCell(0)
    ensures InsertAll(t, servers)[|t| + j][Slot(IsStarred)] == IntCell(Flag(servers[j].isStarred))
  {
    InsertAllRow(t, servers, j);
    RoundTrip(servers[j], RowId(InsertAll(t, servers)[|t| + j]));
  }

  /** After `save`, each row past the surviving starred rows stores the
      incoming server at the same offset: it reads back as that server,
      its `is_old` slot is 0, and its starred slot copies the server's flag
      (an incoming starred server is stored starred). */
  lemma SavedRow(t: Table, servers: seq<Server>, k: nat)
    requires |DeleteOld(t)| <= k < |Save(t, servers)|
    ensures WellTyped(Save(t, servers)[k])
    ensures CursorToServer(Save(t, servers)[k]) == servers[k - |DeleteOld(t)|]
    ensures Save(t, servers)[k][Slot(IsOld)] == IntCell(0)
    ensures Save(t, servers)[k][Slot(IsStarred)] == IntCell(Flag(servers[k - |DeleteOld(t)|].isStarred))
  {
    var kept := DeleteOld(t);
    InsertAllReadsBack(kept, servers, k - |kept|);
    assert |kept| + (k - |kept|) == k;
  }

  /** After `save` the table starts with the rows `deleteOld` kept, each
      unchanged and none of them unstarred. */
  lemma SaveKeepsStarredPrefix(t: Table, servers: seq<Server>)
    ensures forall k :: 0 <= k < |DeleteOld(t)| ==>
      Save(t, servers)[k] == DeleteOld(t)[k] && !IsUnstarred(Save(t, servers)[k])
  {
    var kept := DeleteOld(t);
    var r := Save(t, servers);
    forall k | 0 <= k < |kept|
      ensures r[k] == kept[k] && !IsUnstarred(r[k])
    {
      PrefixIndex(r, kept, k);
      DeleteOldMembers(t, kept[k]);
    }
  }

  /** Reading the table back after `save` gives the surviving starred
      rows followed by exactly the incoming servers, in list order. */
  lemma LoadAfterSave(t: Table, servers: seq<Server>)
    requires Valid(t)
    ensures AllWellTyped(Save(t, servers))
    ensures Decode(Save(t, servers)) == Decode(DeleteOld(t)) + servers
  {
    DeleteOldValid(t);
    InsertAllDecode(DeleteOld(t), servers);
  }

  /** A starred row survives `save` exactly as it was. */
  lemma StarredSurvivesSave(t: Table, servers: seq<Server>, row: Row)
    requires row in t && !IsUnstarred(row)
    ensures row in Save(t, servers)
  {
    var kept := DeleteOld(t);
    DeleteOldMembers(t, row);
    var k :| 0 <= k < |kept| && kept[k] == row;
    PrefixIndex(Save(t, servers), kept, k);
  }

  /** An unstarred row of the old table does not survive `save`. A row
      equal to it can be present afterwards only as the fresh insert of an
      incoming server whose stored row coincides with it (same values, and
      a row identifier SQLite handed out again after the delete). */
  lemma UnstarredPurgedBySave(t: Table, servers: seq<Server>, row: Row)
    requires row in t && IsUnstarred(row)
    ensures row !in DeleteOld(t)
    ensures row in Save(t, servers) ==>
      exists j :: 0 <= j < |servers| && row == Encode(servers[j], RowId(row))
  {
    var kept := DeleteOld(t);
    var r := Save(t, servers);
    DeleteOldMembers(t, row);
    if row in r {
      var k :| 0 <= k < |r| && r[k] == row;
      assert |kept| <= k;
      InsertAllRow(kept, servers, k - |kept|);
    }
  }

  /** The number of rows whose address slot holds `ip`. */
  function CountIp(t: Table, ip: string): (n: nat)
    ensures n <= |t|
  {
    if |t| == 0 then 0
    else CountIp(t[..|t| - 1], ip) + (if t[|t| - 1][Slot(IpAddress)] == TextCell(ip) then 1 else 0)
  }

  /** The number of servers whose address is `ip`. */
  function CountServers(servers: seq<Server>, ip: string): (n: nat)
    ensures n <= |servers|
  {
    if |servers| == 0 then 0
    else (if servers[0].ipAddress == ip then 1 else 0) + CountServers(servers[1..], ip)
  }

  /** A table holding a row with address `ip` counts at least one. */
  lemma {:induction false} CountIpPositive(t: Table, ip: string, k: nat)
    requires k < |t| && t[k][Slot(IpAddress)] == TextCell(ip)
    ensures CountIp(t, ip) >= 1
    decreases |t|
  {
    if k < |t| - 1 {
      assert t[..|t| - 1][k] == t[k];
      CountIpPositive(t[..|t| - 1], ip, k);
    }
  }

  /** A list holding a server with address `ip` counts at least one. */
  lemma {:induction false} CountServersPositive(servers: seq<Server>, ip: string, j: nat)
    requires j < |servers| && servers[j].ipAddress == ip
    ensures CountServers(servers, ip) >= 1
    decreases |servers|
  {
    if j > 0 {
      assert servers[1..][j - 1] == servers[j];
      CountServersPositive(servers[1..], ip, j - 1);
    }
  }

  /** Inserting never merges: every incoming server adds one row with its
      address on top of the rows already there. */
  lemma {:induction false} InsertAllCount(t: Table, servers: seq<Server>, ip: string)
    ensures CountIp(InsertAll(t, servers), ip) == CountIp(t, ip) + CountServers(servers, ip)
    decreases |servers|
  {
    if |servers| > 0 {
      var t1 := InsertServer(t, servers[0]);
      assert t1[..|t1| - 1] == t;
      assert Layout[Slot(IpAddress)] == IpAddress;
      assert t1[|t|][Slot(IpAddress)] == TextCell(servers[0].ipAddress);
      InsertAllCount(t1, servers[1..], ip);
    }
  }

  /** Starred rows are not merged with incoming servers: a starred row and
      an incoming server with the same address leave two rows with that
      address after `save`. */
  lemma SaveDoesNotMerge(t: Table, servers: seq<Server>, row: Row, j: nat)
    requires row in t && !IsUnstarred(row)
    requires j < |servers| && row[Slot(IpAddress)] == TextCell(servers[j].ipAddress)
    ensures CountIp(Save(t, servers), servers[j].ipAddress) >= 2
  {
    var ip := servers[j].ipAddress;
    var kept := DeleteOld(t);
    DeleteOldMembers(t, row);
    var k :| 0 <= k < |kept| && kept[k] == row;
    CountIpPositive(kept, ip, k);
    CountServersPositive(servers, ip, j);
    InsertAllCount(kept, servers, ip);
  }

  /** The row `update` produces: supplied columns replaced, the rest kept. */
  function Update(row: Row, cv: ContentValues): Row {
    seq(20, i requires 0 <= i < 20 => if Layout[i] in cv then cv[Layout[i]] else row[i])
  }

  /** Updating only the starred column rewrites slot 19 and nothing else. */
  lemma UpdateStarredSlot(row: Row, v: Cell)
    ensures Update(row, map[IsStarred := v]) == row[Slot(IsStarred) := v]
  {
    LayoutShape();
    forall i | 0 <= i < 20
      ensures Update(row, map[IsStarred := v])[i] == row[Slot(IsStarred) := v][i]
    {
      assert Slot(Layout[i]) == i;
    }
  }

  /** `setStarred`: on every row whose address equals `ipAddress`, writes
      the flag as 1 or 0; other rows, and every other slot, are untouched. */
  function SetStarred(t: Table, ipAddress: string, isStarred: bool): (r: Table)
    ensures |r| == |t|
    ensures forall k :: 0 <= k < |t| && t[k][Slot(IpAddress)] == TextCell(ipAddress) ==>
      r[k] == t[k][Slot(IsStarred) := IntCell(Flag(isStarred))]
    ensures forall k :: 0 <= k < |t| && t[k][Slot(IpAddress)] != TextCell(ipAddress) ==>
      r[k] == t[k]
  {
    var values := map[IsStarred := IntCell(Flag(isStarred))];
    assert forall k :: 0 <= k < |t| ==>
      Update(t[k], values) == t[k][Slot(IsStarred) := IntCell(Flag(isStarred))] by {
      forall k | 0 <= k < |t|
        ensures Update(t[k], values) == t[k][Slot(IsStarred) := IntCell(Flag(isStarred))]
      {
        UpdateStarredSlot(t[k], IntCell(Flag(isStarred)));
      }
    }
    seq(|t|, k requires 0 <= k < |t| =>
      if t[k][Slot(IpAddress)] == TextCell(ipAddress) then Update(t[k], values) else t[k])
  }

  /** `setStarred` keeps a valid table valid. */
  lemma SetStarredValid(t: Table, ipAddress: string, isStarred: bool)
    requires Valid(t)
    ensures Valid(SetStarred(t, ipAddress, isStarred))
  {
    var r := SetStarred(t, ipAddress, isStarred);
    assert forall k :: 0 <= k < |t| ==> RowId(r[k]) == RowId(t[k]);
  }

  /** Applying `setStarred` twice with the same arguments gives the same
      table as applying it once. */
  lemma SetStarredIdempotent(t: Table, ipAddress: string, isStarred: bool)
    ensures SetStarred(SetStarred(t, ipAddress, isStarred), ipAddress, isStarred)
      == SetStarred(t, ipAddress, isStarred)
  {
    var once := SetStarred(t, ipAddress, isStarred);
    var twice := SetStarred(once, ipAddress, isStarred);
    forall k | 0 <= k < |t|
      ensures twice[k] == once[k]
    {
      assert once[k][Slot(IpAddress)] == t[k][Slot(IpAddress)];
    }
  }

  /** `setStarred` on an address no row holds leaves the table as it was. */
  lemma SetStarredNoMatch(t: Table, ipAddress: string, isStarred: bool)
    requires forall k :: 0 <= k < |t| ==> t[k][Slot(IpAddress)] != TextCell(ipAddress)
    ensures SetStarred(t, ipAddress, isStarred) == t
  {
  }

  /** After `setStarred`, a matching row reads back with the new flag and
      every other field as before; any other row reads back unchanged. */
  lemma SetStarredReadBack(t: Table, ipAddress: string, isStarred: bool, k: nat)
    requires Valid(t) && k < |t|
    ensures WellTyped(SetStarred(t, ipAddress, isStarred)[k])
    ensures CursorToServer(SetStarred(t, ipAddress, isStarred)[k])
      == if t[k][Slot(IpAddress)] == TextCell(ipAddress)
         then CursorToServer(t[k]).(isStarred := isStarred)
         else CursorToServer(t[k])
  {
  }

  // ---------------------------------------------------------------------
  // Reading the table back

  /** The servers a cursor over the whole table yields, in table order. */
  function Decode(t: Table): seq<Server>
    requires AllWellTyped(t)
  {
    seq(|t|, k requires 0 <= k < |t| => CursorToServer(t[k]))
  }

  /** Appending a well-typed row appends its decoding. */
  lemma DecodeAppend(t: Table, row: Row)
    requires AllWellTyped(t) && WellTyped(row)
    ensures AllWellTyped(t + [row])
    ensures Decode(t + [row]) == Decode(t) + [CursorToServer(row)]
  {
    var t1 := t + [row];
    forall i | 0 <= i < |t1| ensures WellTyped(t1[i]) {
      if i < |t| { assert t1[i] == t[i]; }
    }
  }

  /** Inserting one server appends its decoding. */
  lemma InsertOneDecode(t: Table, s: Server)
    requires AllWellTyped(t)
    ensures AllWellTyped(t + [Encode(s, NextRowId(t))])
    ensures Decode(t + [Encode(s, NextRowId(t))]) == Decode(t) + [s]
  {
    RoundTrip(s, NextRowId(t));
    DecodeAppend(t, Encode(s, NextRowId(t)));
  }

  /** Appending the first server and then the rest appends the list. */
  lemma AppendInTwoSteps(a: seq<Server>, b: seq<Server>, c: seq<Server>, servers: seq<Server>)
    requires |servers| > 0
    requires b == a + [servers[0]] && c == b + servers[1..]
    ensures c == a + servers
  {
    assert servers == [servers[0]] + servers[1..];
  }

  /** Inserting servers one by one appends exactly their decodings. */
  lemma {:induction false} InsertAllDecode(t: Table, servers: seq<Server>)
    requires AllWellTyped(t)
    ensures AllWellTyped(InsertAll(t, servers))
    ensures Decode(InsertAll(t, servers)) == Decode(t) + servers
    decreases |servers|
  {
    if |servers| > 0 {
      var t1 := InsertServer(t, servers[0]);
      InsertOneDecode(t, servers[0]);
      InsertAllDecode(t1, servers[1..]);
      AppendInTwoSteps(Decode(t), Decode(t1), Decode(InsertAll(t, servers)), servers);
    }
  }

  /** `getAll`: one decoded server per row, in table order. */
  method GetAll(t: Table) returns (servers: seq<Server>)
    requires AllWellTyped(t)
    ensures |servers| == |t|
    ensures forall k :: 0 <= k < |t| ==> servers[k] == CursorToServer(t[k])
    ensures servers == Decode(t)
  {
    servers := [];
    var cursor := 0;
    while cursor < |t|
      invariant 0 <= cursor <= |t|
      invariant |servers| == cursor
      invariant forall k :: 0 <= k < cursor ==> servers[k] == CursorToServer(t[k])
    {
      servers := servers + [CursorToServer(t[cursor])];
      cursor := cursor + 1;
    }
  }
}
