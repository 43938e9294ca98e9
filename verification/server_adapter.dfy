/** The list state behind the server list screen: the adapter keeps its
    own copy of the servers it shows, replaces it wholesale on every
    refresh, and tells the list view what changed either as one range
    insert (when it showed nothing before) or as the result of a diff
    driven by two comparison callbacks. The diff itself is a library
    algorithm; here it is the pair of lists and the callbacks it is given. */
module ServerAdapter {
  import opened JavaTypes
  import opened ServerModel

  /** The adapter's retained list. */
  datatype Adapter = Adapter(servers: seq<Server>)

  /** What `setServerList` tells the list view. */
  datatype Notification =
    | ItemRangeInserted(positionStart: nat, itemCount: nat)
      /** `dispatchUpdatesTo` of a diff computed from the old list to the new one. */
    | DiffDispatched(oldList: seq<Server>, newList: seq<Server>)

  /** The constructor: the adapter starts with its own copy of the list. */
  function NewAdapter(servers: seq<Server>): (a: Adapter)
    ensures a.servers == servers
  {
    Adapter(servers)
  }

  /** `areItemsTheSame` compares host names only. */
  predicate SameItem(oldItem: Server, newItem: Server) {
    oldItem.hostName == newItem.hostName
  }

  /** `areContentsTheSame` compares host name, IP address and country. */
  predicate SameContents(oldItem: Server, newItem: Server) {
    && oldItem.hostName == newItem.hostName
    && oldItem.ipAddress == newItem.ipAddress
    && oldItem.countryLong == newItem.countryLong
  }

  /** The callbacks as the diff calls them, by position in the old and in
      the new list. */
  predicate AreItemsTheSame(oldList: seq<Server>, newList: seq<Server>, oldPos: nat, newPos: nat)
    requires oldPos < |oldList| && newPos < |newList|
  {
    SameItem(oldList[oldPos], newList[newPos])
  }

  predicate AreContentsTheSame(oldList: seq<Server>, newList: seq<Server>, oldPos: nat, newPos: nat)
    requires oldPos < |oldList| && newPos < |newList|
  {
    SameContents(oldList[oldPos], newList[newPos])
  }

  /** `setServerList`: the retained list becomes the new list on both
      branches. With nothing shown before, the view hears of one range
      insert covering the whole new list and no comparison runs; otherwise
      it is sent the diff from the old list to the new one. */
  function SetServerList(a: Adapter, serverList: seq<Server>): (r: (Adapter, Notification))
    ensures r.0.servers == serverList
    ensures r.1.ItemRangeInserted? <==> |a.servers| == 0
    ensures r.1.ItemRangeInserted? ==> r.1.positionStart == 0 && r.1.itemCount == |serverList|
    ensures r.1.DiffDispatched? ==> r.1.oldList == a.servers && r.1.newList == serverList
  {
    if |a.servers| == 0 then
      (Adapter(serverList), ItemRangeInserted(0, |serverList|))
    else
      (Adapter(serverList), DiffDispatched(a.servers, serverList))
  }

  /** `getItemCount`. */
  function GetItemCount(a: Adapter): nat {
    |a.servers|
  }

  /** `getItemId`: the position itself, widened to a `long`. */
  function GetItemId(position: Int32): Int64 {
    position
  }

  /** The number of rows the list view shows after it applies a
      notification: a range insert adds its count, and a dispatched diff
      turns a view of the old list into a view of the new list. */
  function ShownAfter(shown: nat, n: Notification): nat {
    match n
    case ItemRangeInserted(_, count) => shown + count
    case DiffDispatched(_, newList) => |newList|
  }

  /** The view and the adapter agree after every `setServerList`: a view
      that showed the old list, once it applies the notification, shows as
      many rows as `getItemCount` reports, which is the new list's length.
      Only the fast path has content here: a view of nothing plus a range
      insert of the whole list. On the diff path it holds by the definition
      of `ShownAfter`, which takes the diff's effect as given. */
  lemma NotificationMatchesItemCount(a: Adapter, serverList: seq<Server>)
    ensures ShownAfter(GetItemCount(a), SetServerList(a, serverList).1)
      == GetItemCount(SetServerList(a, serverList).0)
      == |serverList|
  {
  }

  /** A freshly constructed adapter reports the argument's length. */
  lemma NewAdapterCount(servers: seq<Server>)
    ensures GetItemCount(NewAdapter(servers)) == |servers|
  {
  }

  /** Same contents implies same item. */
  lemma SameContentsIsSameItem(oldItem: Server, newItem: Server)
    ensures SameContents(oldItem, newItem) ==> SameItem(oldItem, newItem)
  {
  }

  /** Both comparisons see only host name, IP address and country: two
      pairs of servers that agree on those fields compare alike, however
      their speed, ping, score or any other field differ. */
  lemma ComparisonsIgnoreOtherFields(oldItem: Server, newItem: Server, oldOther: Server, newOther: Server)
    requires oldOther.hostName == oldItem.hostName && oldOther.ipAddress == oldItem.ipAddress
    requires oldOther.countryLong == oldItem.countryLong
    requires newOther.hostName == newItem.hostName && newOther.ipAddress == newItem.ipAddress
    requires newOther.countryLong == newItem.countryLong
    ensures SameContents(oldOther, newOther) == SameContents(oldItem, newItem)
    ensures SameItem(oldOther, newOther) == SameItem(oldItem, newItem)
  {
  }

  /** Both comparisons are equivalence relations. */
  lemma ComparisonsAreEquivalences(a: Server, b: Server, c: Server)
    ensures SameItem(a, a) && SameContents(a, a)
    ensures SameItem(a, b) ==> SameItem(b, a)
    ensures SameContents(a, b) ==> SameContents(b, a)
    ensures SameItem(a, b) && SameItem(b, c) ==> SameItem(a, c)
    ensures SameContents(a, b) && SameContents(b, c) ==> SameContents(a, c)
  {
  }

  /** Distinct positions get distinct item ids. */
  lemma ItemIdsDistinct(p: Int32, q: Int32)
    ensures GetItemId(p) == GetItemId(q) <==> p == q
  {
  }
}
