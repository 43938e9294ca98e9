# Server cache of the VPN client, modelled in Dafny

This project models the part of the Android VPN client that caches the
servers it knows about:

- **The SQLite `server` table** kept by `DbHelper`, with the column layout
  its `CREATE TABLE` statement in `ServerDatabase` declares. The table is a
  sequence of twenty-slot rows (`DbHelper.Row`), kept in row-identifier
  order. `save` is a bulk replace: it deletes every row whose `is_starred`
  slot is 0, then inserts one encoded row per incoming server. `setStarred`
  rewrites the starred flag of every row with a given IP address. `getAll`
  decodes every row, in table order. `getContentValues` and
  `cursorToServer` are the encoder and decoder of one row. `onUpgrade` and
  `onDowngrade` drop the table and create it again.
- **The "last connected server" preference slot** kept by
  `SharedPreference`, modelled as a `map<string, Value>`. `saveServer`
  writes nine keys. `getServer` reads them back, with a fixed default per
  key. `isPrefsHasServer` tests the IP key.
- **The retained list of `ServerAdapter`** and the two comparison
  callbacks it hands to the list diff. It also covers the empty-list fast
  path, `getItemCount` and `getItemId`.

Files, one module each:

- `java_types.dfy` holds `JavaTypes`: Java `int` and `long`, and the
  narrowing a cursor applies when it reads a stored integer.
- `server.dfy` holds `ServerModel`: the server record.
- `server_database.dfy` holds `ServerDatabase`: the columns, their slots
  and their declared types.
- `db_helper.dfy` holds `DbHelper`: the table and every operation on it.
- `shared_preference.dfy` holds `SharedPreference`: the preference slot.
- `server_adapter.dfy` holds `ServerAdapter`: the adapter state.

SQLite's choice of row identifier is modelled as one more than the largest
identifier present, or 1 in an empty table. That is SQLite's rule while the
largest identifier is below 2^63 - 1. The model keeps the table in
row-identifier order, and the predicate `DbHelper.Valid` states this
invariant; `getAll` returns the rows in that order (see "## Left out" for
why this is an assumption).

`getContentValues` copies the incoming server's starred flag into the new
row (DbHelper.java:168). A starred server in the incoming list is therefore
stored starred, and `deleteOld` keeps it at the next `save`.

Because of the row-identifier rule, a row removed by `deleteOld` can be
re-created value for value. This happens when an incoming server has the
same payload and SQLite hands out the same identifier again.
`DbHelper.UnstarredPurgedBySave` states exactly that: such a row survives
only as a fresh insert.

## Model

| member | source | states |
|---|---|---|
| `ServerDatabase.Slot` | app/src/main/java/com/liberty/apps/studio/libertyvpn/db/ServerDatabase.java:17-37 | Each column's slot is the position at which the CREATE TABLE statement declares it. |
| `ServerDatabase.LayoutShape` | app/src/main/java/com/liberty/apps/studio/libertyvpn/db/ServerDatabase.java:17-37 | The table has 20 columns, and each is declared once. `_ID` is slot 0 and is the only primary key. `is_old` is slot 18 and `is_starred` is slot 19. |
| `ServerDatabase.LayoutSlots` | app/src/main/java/com/liberty/apps/studio/libertyvpn/db/ServerDatabase.java:18-37 | Slots 0 to 19 hold, in order: `_ID`, host, ip, score, ping, speed, country long, country short, vpn sessions, uptime, total users, total traffic, log type, operator, message, config, port, protocol, `is_old`, `is_starred`. |
| `ServerDatabase.ColumnTypes` | app/src/main/java/com/liberty/apps/studio/libertyvpn/db/ServerDatabase.java:18-37 | These slots are TEXT: host, ip, ping, both country fields, total traffic, log type, operator, message, config and protocol. All other slots are INTEGER. |
| `DbHelper.WellTypedMatchesSchema` | app/src/main/java/com/liberty/apps/studio/libertyvpn/db/ServerDatabase.java:18-37 | A row is well typed exactly when every slot holds a value of the type its column is declared with. |
| `DbHelper.DropServerTable` | app/src/main/java/com/liberty/apps/studio/libertyvpn/db/ServerDatabase.java:40 | DROP TABLE IF EXISTS leaves no table, whether or not one existed. |
| `DbHelper.OnCreate` | app/src/main/java/com/liberty/apps/studio/libertyvpn/db/DbHelper.java:53-55 | Creating the table succeeds exactly when it does not exist yet. The new table is empty and valid. |
| `DbHelper.OnUpgrade` | app/src/main/java/com/liberty/apps/studio/libertyvpn/db/DbHelper.java:58-61 | An upgrade always succeeds and leaves an empty table, whatever was stored before. |
| `DbHelper.OnDowngrade` | app/src/main/java/com/liberty/apps/studio/libertyvpn/db/DbHelper.java:73-75 | A downgrade behaves as an upgrade, so it also leaves an empty table. |
| `DbHelper.GetContentValues` | app/src/main/java/com/liberty/apps/studio/libertyvpn/db/DbHelper.java:148-170 | The values cover every column except `_ID`. Each holds its declared type. `is_old` is 0, and `is_starred` is the server's flag as 1 or 0. |
| `DbHelper.MakeRow` | app/src/main/java/com/liberty/apps/studio/libertyvpn/db/DbHelper.java:93-94 | An insert stores each supplied value in its column's slot. When `_ID` is not supplied, the row takes the identifier handed to it. |
| `DbHelper.InsertedRowIsEncode` | app/src/main/java/com/liberty/apps/studio/libertyvpn/db/DbHelper.java:93-94 | Inserting a server's content values stores exactly its positional encoding. |
| `DbHelper.RoundTrip` | app/src/main/java/com/liberty/apps/studio/libertyvpn/db/DbHelper.java:148-193 | Decoding a stored server gives back the same server, under any row identifier. This includes `isStarred`, read back through `== 1`. The stored row is well typed, with `is_old` 0 and the flag as 1 or 0. |
| `DbHelper.EncodeWellTyped` | app/src/main/java/com/liberty/apps/studio/libertyvpn/db/DbHelper.java:150-168 | Every value `getContentValues` writes matches its column's declared type. |
| `DbHelper.DecodeIgnoresIdAndIsOld` | app/src/main/java/com/liberty/apps/studio/libertyvpn/db/DbHelper.java:172-193 | The decoder never reads slot 0 (`_ID`) or slot 18 (`is_old`): whatever those slots hold, the row decodes the same. |
| `DbHelper.NextRowId` | app/src/main/java/com/liberty/apps/studio/libertyvpn/db/DbHelper.java:94 | A new row gets an identifier larger than every identifier present, and gets 1 in an empty table. |
| `DbHelper.InsertServer` | app/src/main/java/com/liberty/apps/studio/libertyvpn/db/DbHelper.java:93-94 | One insert appends exactly one row, the server's encoding, and keeps the existing rows. The new row's identifier exceeds every other. |
| `DbHelper.InsertServerIsInsert` | app/src/main/java/com/liberty/apps/studio/libertyvpn/db/DbHelper.java:93-94 | The modelled insert is the row built from `getContentValues`, appended to the table. |
| `DbHelper.DeleteOldMembers` | app/src/main/java/com/liberty/apps/studio/libertyvpn/db/DbHelper.java:104-108 | `deleteOld` keeps a row exactly when the row was in the table and its starred slot is not 0. |
| `DbHelper.DeleteOldValid` | app/src/main/java/com/liberty/apps/studio/libertyvpn/db/DbHelper.java:104-108 | The rows `deleteOld` keeps remain valid and in identifier order, which is their prior order. |
| `DbHelper.InsertAllRow` | app/src/main/java/com/liberty/apps/studio/libertyvpn/db/DbHelper.java:92-95 | The j-th inserted row encodes the j-th server, under an identifier at least the first one handed out. |
| `DbHelper.InsertServerValid` | app/src/main/java/com/liberty/apps/studio/libertyvpn/db/DbHelper.java:93-94 | One insert keeps a valid table valid. |
| `DbHelper.InsertAllValid` | app/src/main/java/com/liberty/apps/studio/libertyvpn/db/DbHelper.java:92-95 | The insert loop keeps a valid table valid. |
| `DbHelper.Save` | app/src/main/java/com/liberty/apps/studio/libertyvpn/db/DbHelper.java:85-99 | After `save`, the table is the rows `deleteOld` kept, unchanged and in order, followed by one row per incoming server. |
| `DbHelper.SaveValid` | app/src/main/java/com/liberty/apps/studio/libertyvpn/db/DbHelper.java:85-99 | `save` keeps a valid table valid. |
| `DbHelper.InsertAllReadsBack` | app/src/main/java/com/liberty/apps/studio/libertyvpn/db/DbHelper.java:92-95 | The j-th inserted row decodes to the j-th server, with `is_old` 0 and the server's own starred flag. |
| `DbHelper.SavedRow` | app/src/main/java/com/liberty/apps/studio/libertyvpn/db/DbHelper.java:85-99 | After `save`, each row past the kept rows decodes to the incoming server at the same offset. Its `is_old` is 0 and its starred slot copies `server.isStarred`. |
| `DbHelper.SaveKeepsStarredPrefix` | app/src/main/java/com/liberty/apps/studio/libertyvpn/db/DbHelper.java:90 | After `save`, the table starts with the kept rows. Each is unchanged, and none has a starred flag of 0. |
| `DbHelper.LoadAfterSave` | app/src/main/java/com/liberty/apps/studio/libertyvpn/db/DbHelper.java:85-137 | Reading a valid table back after `save` gives the kept rows' servers, then exactly the incoming servers in list order. |
| `DbHelper.StarredSurvivesSave` | app/src/main/java/com/liberty/apps/studio/libertyvpn/db/DbHelper.java:90 | A row whose starred flag is not 0 is still in the table after `save`, unchanged. |
| `DbHelper.UnstarredPurgedBySave` | app/src/main/java/com/liberty/apps/studio/libertyvpn/db/DbHelper.java:90 | A row whose starred flag is 0 is deleted. It can be present after `save` only as a fresh insert of an incoming server. |
| `DbHelper.InsertAllCount` | app/src/main/java/com/liberty/apps/studio/libertyvpn/db/DbHelper.java:92-95 | Inserting never merges. The rows with a given address grow by exactly the number of incoming servers with that address. |
| `DbHelper.SaveDoesNotMerge` | app/src/main/java/com/liberty/apps/studio/libertyvpn/db/DbHelper.java:90-95 | A starred row plus an incoming server with the same address leave at least two rows with that address. |
| `DbHelper.UpdateStarredSlot` | app/src/main/java/com/liberty/apps/studio/libertyvpn/db/DbHelper.java:113-116 | An update that supplies only `is_starred` rewrites slot 19 and nothing else. |
| `DbHelper.SetStarred` | app/src/main/java/com/liberty/apps/studio/libertyvpn/db/DbHelper.java:110-117 | Every row whose address matches gets the starred slot set to the flag as 1 or 0 and is otherwise unchanged. Every other row is untouched, and the row count is kept. |
| `DbHelper.SetStarredValid` | app/src/main/java/com/liberty/apps/studio/libertyvpn/db/DbHelper.java:110-117 | `setStarred` keeps a valid table valid. |
| `DbHelper.SetStarredIdempotent` | app/src/main/java/com/liberty/apps/studio/libertyvpn/db/DbHelper.java:110-117 | Two identical `setStarred` calls leave the same table as one. |
| `DbHelper.SetStarredNoMatch` | app/src/main/java/com/liberty/apps/studio/libertyvpn/db/DbHelper.java:110-117 | When no row matches the address, `setStarred` leaves the table unchanged. |
| `DbHelper.SetStarredReadBack` | app/src/main/java/com/liberty/apps/studio/libertyvpn/db/DbHelper.java:110-117 | A matching row reads back with the new flag and every other field as before. Any other row reads back unchanged. |
| `DbHelper.DecodeAppend` | app/src/main/java/com/liberty/apps/studio/libertyvpn/db/DbHelper.java:126-131 | Appending a well-typed row appends its decoding to the cursor's output. |
| `DbHelper.InsertOneDecode` | app/src/main/java/com/liberty/apps/studio/libertyvpn/db/DbHelper.java:93-94 | After one insert, the table reads back as before followed by the inserted server. |
| `DbHelper.InsertAllDecode` | app/src/main/java/com/liberty/apps/studio/libertyvpn/db/DbHelper.java:92-95 | After the insert loop, the table reads back as before followed by the incoming servers, in list order. |
| `DbHelper.GetAll` | app/src/main/java/com/liberty/apps/studio/libertyvpn/db/DbHelper.java:119-137 | `getAll` returns one decoded server per row, in table order, so its length is the row count. |
| `JavaTypes.ToInt32` | app/src/main/java/com/liberty/apps/studio/libertyvpn/db/DbHelper.java:176 | `getInt` agrees with the stored value modulo 2^32, and equals it when the value fits in an `int`. |
| `JavaTypes.ToInt64` | app/src/main/java/com/liberty/apps/studio/libertyvpn/db/DbHelper.java:178 | `getLong` agrees with the stored value modulo 2^64, and equals it when the value fits in a `long`. |
| `SharedPreference.SaveServer` | app/src/main/java/com/ruby/apps/studio/rubyvpn/SharedPreference.java:51-62 | `saveServer` adds exactly the nine keys of the slot. Every other key keeps its value. |
| `SharedPreference.GetString` | app/src/main/java/com/ruby/apps/studio/rubyvpn/SharedPreference.java:72 | A string read returns the default for an absent key and the stored string for a string key. It fails with a class-cast error exactly when the key holds another kind. |
| `SharedPreference.GetLong` | app/src/main/java/com/ruby/apps/studio/rubyvpn/SharedPreference.java:75 | A long read behaves the same way for `long` values. |
| `SharedPreference.GetInt` | app/src/main/java/com/ruby/apps/studio/rubyvpn/SharedPreference.java:79 | An int read behaves the same way for `int` values. |
| `SharedPreference.GetServerFailsOnWrongKind` | app/src/main/java/com/ruby/apps/studio/rubyvpn/SharedPreference.java:69-84 | `getServer` fails exactly when some key of the slot holds a value of the wrong kind. The failure carries a key of the slot that holds a value of the wrong kind; Java's `ClassCastException` names no key, so the key is a convenience of the model. |
| `SharedPreference.GetServerReadsEachKey` | app/src/main/java/com/ruby/apps/studio/rubyvpn/SharedPreference.java:72-80 | Each field comes from its own key. It falls back to its own default when that key alone is absent. |
| `SharedPreference.GetServerDefaults` | app/src/main/java/com/ruby/apps/studio/rubyvpn/SharedPreference.java:71-81 | With none of the keys present, the fields are "Japan", "x.x.x.x", "10ms", 10, "Japan", "Japan", "null", 402 and "UDP". |
| `SharedPreference.SaveThenGet` | app/src/main/java/com/ruby/apps/studio/rubyvpn/SharedPreference.java:51-84 | After `saveServer(s)`, `getServer` succeeds. Its nine saved fields equal those of `s`. |
| `SharedPreference.SaveThenGetIsNineFields` | app/src/main/java/com/ruby/apps/studio/rubyvpn/SharedPreference.java:51-84 | The server read back is the nine-field projection of the saved server. |
| `SharedPreference.HasServerAfterSave` | app/src/main/java/com/ruby/apps/studio/rubyvpn/SharedPreference.java:53 | `isPrefsHasServer` is true after any `saveServer`. |
| `SharedPreference.HasServerIgnoresOtherKeys` | app/src/main/java/com/ruby/apps/studio/rubyvpn/SharedPreference.java:86-88 | Only the IP key decides `isPrefsHasServer`. Writing or removing any other key leaves the answer unchanged. |
| `SharedPreference.SaveServerIdempotent` | app/src/main/java/com/ruby/apps/studio/rubyvpn/SharedPreference.java:51-62 | Saving the same server twice gives the same map as saving it once. |
| `SharedPreference.LastSaveWins` | app/src/main/java/com/ruby/apps/studio/rubyvpn/SharedPreference.java:51-62 | A later `saveServer` overwrites everything an earlier one wrote. |
| `ServerAdapter.NewAdapter` | app/src/main/java/com/ruby/apps/studio/rubyvpn/adapter/ServerAdapter.java:39-43 | The constructor's retained list equals its argument. |
| `ServerAdapter.NewAdapterCount` | app/src/main/java/com/ruby/apps/studio/rubyvpn/adapter/ServerAdapter.java:39-43 | A new adapter reports the argument's length as its item count. |
| `ServerAdapter.SetServerList` | app/src/main/java/com/ruby/apps/studio/rubyvpn/adapter/ServerAdapter.java:55-92 | On both branches the retained list becomes the new list. A range insert at 0 for the whole new list is sent exactly when the old list was empty. Otherwise the diff from the old list to the new one is dispatched. |
| `ServerAdapter.NotificationMatchesItemCount` | app/src/main/java/com/ruby/apps/studio/rubyvpn/adapter/ServerAdapter.java:55-92 | A view that showed the old list and applies the notification shows as many rows as `getItemCount` reports. That count is the new list's length. |
| `ServerAdapter.SameContentsIsSameItem` | app/src/main/java/com/ruby/apps/studio/rubyvpn/adapter/ServerAdapter.java:73-86 | Same contents implies same item. |
| `ServerAdapter.ComparisonsIgnoreOtherFields` | app/src/main/java/com/ruby/apps/studio/rubyvpn/adapter/ServerAdapter.java:73-86 | Both comparisons depend only on host name, IP address and country. Pairs that agree on those compare alike, whatever their speed, ping or score. |
| `ServerAdapter.ComparisonsAreEquivalences` | app/src/main/java/com/ruby/apps/studio/rubyvpn/adapter/ServerAdapter.java:73-86 | Both comparisons are reflexive, symmetric and transitive. |
| `ServerAdapter.ItemIdsDistinct` | app/src/main/java/com/ruby/apps/studio/rubyvpn/adapter/ServerAdapter.java:107-109 | The item id is the position, so two positions share an id only when they are equal. |

## Left out

- Transactions, `getWritableDatabase`, `close`, cursors as objects, and the synchronized singleton `getInstance` are left out. They are I/O and concurrency; the table is a value and each operation a function on it. No atomicity is claimed. Android's `insert` catches an `SQLException`, logs it and returns -1, so in `save` a failing insert is skipped and `setTransactionSuccessful` still commits the deletions and the other inserts: `save` can commit a partial replace. Only an exception from `delete` leaves the transaction open, since `endTransaction` is not in a `finally` block.
- I/O failures of SQLite (disk full, a corrupt file) are left out; every operation is modelled on its success path, so the partial replace described above is not modelled.
- Row order is an assumption. SQLite leaves the order of a query without `ORDER BY` undefined; a full scan of a rowid table returns rows in row-identifier order in practice, and `DbHelper.Valid` and the order `DbHelper.GetAll` returns rest on that behaviour.
- The loop of `save` is modelled as a recursive function (`DbHelper.InsertAll`) rather than a loop, since each insert depends only on the table so far.
- Row identifiers beyond 2^63 - 1 are left out. At that point SQLite would pick a random unused identifier; the model keeps counting up.
- `ServerContract.ServerEntry` is not part of this model. Its column names and `ALL_COLUMNS` are assumed to list the columns in the order of the CREATE TABLE statement, which is what the fixed slot numbers of `cursorToServer` rely on.
- Cursor coercions of a value of the wrong type, for example `getString` on an INTEGER slot, are left out. The decoder requires the slots it reads to hold values of their declared kinds (`DbHelper.Readable`), and every row the model's operations store is well typed (`DbHelper.Valid`).
- Java `null` strings are left out: strings are plain character sequences. In the adapter's comparisons a `null` field of the old item throws, while a `null` field of the new item only makes `equals` return false.
- The `Server` model class is not part of this model. Its fields are taken from the code that reads and writes them. Its nine-argument constructor is assumed to set only the nine fields it takes and to leave every other field at its initial value, modelled as empty strings, zero and false.
- Strings are Dafny strings, sequences of Unicode scalar values. Java strings are UTF-16 and may hold unpaired surrogates, which SQLite's UTF-8 storage does not give back unchanged; `DbHelper.RoundTrip` holds only because such strings cannot be written in the model.
- `SharedPreference.Value` holds only string, `long` and `int` values. A preferences file can also hold booleans, floats and string sets; any of those under a key of the slot also makes `getServer` throw, and the model does not cover that case.
- `SharedPreferences` `commit`, the `Context` plumbing and the preferences file name are left out; only the key-to-value map is modelled.
- The internals of `DiffUtil.calculateDiff` and `dispatchUpdatesTo` are left out. They are a library algorithm; the model records the old and new lists the diff is computed from and the two callbacks it is given. `ServerAdapter.ShownAfter` takes it as given that a dispatched diff turns a view of the old list into a view of the new list.
- The `servers == null` test of `getItemCount` is left out: the retained list is created with the adapter and never set to `null`, so the model's list always exists.
- `ViewHolder`, `bind`, `onCreateViewHolder`, `onBindViewHolder` and the click callback the constructor stores are left out, being UI only.
- `DbHelper.UnstarredPurgedBySave`: states that a deleted row reappears only as a fresh insert of an incoming server, which is weaker than "absent afterwards". Under SQLite's row-identifier rule a re-listed server with the same payload can be stored as a row equal to the deleted one.
- `SharedPreference.SaveThenGet`: the round trip covers the nine saved fields only, because `getServer` does not read score, sessions, uptime, users, traffic, log type, operator, message or the starred flag.
