/**
 * The `PageViewModel` of js/itemListViewModel.js: the observable list of
 * `{ipfs, item, updated}` entries and the steps that change it.
 *
 * JavaScript objects in the list are compared by identity (knockout's
 * `replace` looks its argument up with `indexOf`). Each entry therefore
 * carries a token, fresh for every object literal the source creates, and
 * a scheduled `clearItemStatus(entry)` timer holds the entry it captured
 * until the environment fires it with `Expire`.
 */
module ItemList {
  import opened Wrappers
  import opened Ledgers
  import Market
  import Retrieval
  import ItemRules

  /** The metadata object fetched from the IPFS gateway for an item's `ipfsHash`. */
  datatype Content = Content(body: string)

  /** The object literal `{ipfs, item, updated}` the source stores in `items`. */
  datatype Cached = Cached(ipfs: Content, item: Item, updated: bool)

  /** One list element: an object identity (`token`) and its fields. */
  datatype Entry = Entry(token: nat, value: Cached)

  // The callbacks this view model registers with the site; none throws
  // synchronously, since each only starts promise chains.
  const UpdateItemCallback: Market.Handler := Market.Handler("updateItem", false)
  const AddItemCallback: Market.Handler := Market.Handler("addItem", false)
  const ReloadClaimsCallback: Market.Handler := Market.Handler("loadClaimList", false)

  /** `Array.prototype.find`-style search: the index of the first element satisfying `p`. */
  function FindFirst(s: seq<Entry>, p: Entry -> bool): (r: Option<nat>)
    ensures r.Some? ==> r.value < |s| && p(s[r.value]) && forall j :: 0 <= j < r.value ==> !p(s[j])
    ensures r.None? ==> forall j :: 0 <= j < |s| ==> !p(s[j])
  {
    if s == [] then None
    else if p(s[0]) then Some(0)
    else match FindFirst(s[1..], p)
      case None => None
      case Some(k) => Some(k + 1)
  }

  /** Identity of a list element: `x === entry`. */
  function IsObject(token: nat): Entry -> bool {
    (x: Entry) => x.token == token
  }

  /** The predicate of `updateItem`'s `find`: `x.item.itemId == itemId`. */
  function HasItemId(itemId: int): Entry -> bool {
    (x: Entry) => x.value.item.itemId == itemId
  }

  /** knockout's `replace(old, e)`: overwrite the first occurrence of `old`; no-op when absent. */
  function Replace(s: seq<Entry>, oldToken: nat, e: Entry): (r: seq<Entry>)
    ensures |r| == |s|
    ensures forall k :: 0 <= k < |s| && s[k].token != oldToken ==> r[k] == s[k]
    ensures forall k :: 0 <= k < |s| && s[k].token == oldToken ==> r[k] == e || r[k] == s[k]
    ensures (exists k :: 0 <= k < |s| && s[k].token == oldToken) ==> e in r
  {
    match FindFirst(s, IsObject(oldToken))
    case None => s
    case Some(k) => s[k := e]
  }

  /** The fields of the list elements, without their identities. */
  function Values(s: seq<Entry>): seq<Cached> {
    seq(|s|, k requires 0 <= k < |s| => s[k].value)
  }

  /** The entries `retriveIPFSContent` appends, one per retrieved item, in retrieval order. */
  function Fetched(vs: seq<Item>, fetch: string -> Content): seq<Cached> {
    seq(|vs|, k requires 0 <= k < |vs| => Cached(fetch(vs[k].ipfsHash), vs[k], false))
  }

  /** The predicate `loadClaimList` filters the ledger with. */
  function ClaimFilter(actual: string): Item -> bool {
    (item: Item) => ItemRules.Claimable(item, actual)
  }

  /** No object occurs twice in the list. */
  ghost predicate DistinctTokens(s: seq<Entry>) {
    forall i, j :: 0 <= i < j < |s| ==> s[i].token != s[j].token
  }

  /** With distinct identities, `replace` of the object at `k` overwrites position `k` only. */
  lemma ReplaceAt(s: seq<Entry>, k: int, e: Entry)
    requires DistinctTokens(s) && 0 <= k < |s|
    ensures Replace(s, s[k].token, e) == s[k := e]
  {
    var f := FindFirst(s, IsObject(s[k].token));
    assert IsObject(s[k].token)(s[k]);
    assert f.Some? && f.value == k;
  }

  /** `replace` of an object that is not in the list changes nothing. */
  lemma ReplaceAbsent(s: seq<Entry>, t: nat, e: Entry)
    requires forall k :: 0 <= k < |s| ==> s[k].token != t
    ensures Replace(s, t, e) == s
  {
    assert FindFirst(s, IsObject(t)).None?;
  }

  /**
   * The list's identities are distinct and already issued, and a pending
   * timer's object, while still in the list, is the very element there.
   */
  ghost predicate CacheInvariant(items: seq<Entry>, pending: set<Entry>, nextToken: nat) {
    && DistinctTokens(items)
    && (forall k :: 0 <= k < |items| ==> items[k].token < nextToken)
    && (forall e :: e in pending ==> e.token < nextToken)
    && (forall k, e :: 0 <= k < |items| && e in pending && items[k].token == e.token ==> items[k] == e)
  }

  /** Firing a timer whose object is at `k` keeps the invariant. */
  lemma ExpirePresentKeeps(items: seq<Entry>, pending: set<Entry>, nextToken: nat, e: Entry, k: int, c: Cached)
    requires CacheInvariant(items, pending, nextToken) && e in pending
    requires 0 <= k < |items| && items[k] == e
    ensures CacheInvariant(items[k := Entry(nextToken, c)], pending - {e}, nextToken + 1)
  {
  }

  /** Firing a timer whose object has been superseded keeps the invariant. */
  lemma ExpireAbsentKeeps(items: seq<Entry>, pending: set<Entry>, nextToken: nat, e: Entry)
    requires CacheInvariant(items, pending, nextToken) && e in pending
    ensures CacheInvariant(items, pending - {e}, nextToken + 1)
  {
  }

  class PageViewModel {
    const site: Market.MarketSite
    var loaded: bool
    var items: seq<Entry>
    var actualAddress: string
    /** The entries captured by `clearItemStatus` timers that have not fired yet. */
    var pending: set<Entry>
    /** The identity the next object literal gets. */
    var nextToken: nat

    ghost predicate Valid()
      reads this
    {
      && CacheInvariant(items, pending, nextToken)
    }

    /** `new PageViewModel(sellSite)`; `selectedAddress` is the provider's selected address, if any. */
    constructor (sellSite: Market.MarketSite, selectedAddress: Option<string>)
      ensures Valid()
      ensures site == sellSite && !loaded && items == [] && pending == {}
      ensures actualAddress == (if selectedAddress.Some? then selectedAddress.value else "")
    {
      site := sellSite;
      loaded := false;
      items := [];
      actualAddress := if selectedAddress.Some? then selectedAddress.value else "";
      pending := {};
      nextToken := 0;
    }

    /**
     * Completion of `addItem(itemId)`: `item` is what `retrieveItem(itemId)`
     * returned and `content` what the gateway served for its hash. The new
     * entry goes first and a reversion of its `updated` flag is scheduled.
     */
    method AddItem(item: Item, content: Content)
      requires Valid()
      modifies this
      ensures Valid()
      ensures |items| == |old(items)| + 1
      ensures items[0] == Entry(old(nextToken), Cached(content, item, true))
      ensures items[1..] == old(items)
      ensures pending == old(pending) + {items[0]}
      ensures loaded == old(loaded) && actualAddress == old(actualAddress)
    {
      var newVal := Entry(nextToken, Cached(content, item, true));
      nextToken := nextToken + 1;
      items := [newVal] + items;
      pending := pending + {newVal};
    }

    /**
     * Completion of `updateItem(itemId)` with the re-read `item`: the first
     * entry whose item has that id is replaced in place by a new object that
     * keeps its content, carries the new item and is flagged `updated`; if no
     * entry matches, nothing changes.
     */
    method UpdateItem(itemId: int, item: Item)
      requires Valid()
      modifies this
      ensures Valid()
      ensures loaded == old(loaded) && actualAddress == old(actualAddress)
      ensures FindFirst(old(items), HasItemId(itemId)).None? ==> items == old(items) && pending == old(pending)
      ensures FindFirst(old(items), HasItemId(itemId)).Some? ==>
        var i := FindFirst(old(items), HasItemId(itemId)).value;
        && items == old(items)[i := Entry(old(nextToken), Cached(old(items)[i].value.ipfs, item, true))]
        && pending == old(pending) + {items[i]}
    {
      var found := FindFirst(items, HasItemId(itemId));
      if found.Some? {
        var prev := items[found.value];
        var newVal := Entry(nextToken, Cached(prev.value.ipfs, item, true));
        ReplaceAt(items, found.value, newVal);
        items := Replace(items, prev.token, newVal);
        nextToken := nextToken + 1;
        pending := pending + {newVal};
      }
    }

    /**
     * The 5-second timer of `clearItemStatus(e)` fires: if the object `e` is
     * still in the list it is replaced at its position by a copy with
     * `updated` false; if it has been superseded, the list is unchanged.
     */
    method Expire(e: Entry)
      requires Valid() && e in pending
      modifies this
      ensures Valid()
      ensures pending == old(pending) - {e}
      ensures |items| == |old(items)|
      ensures e !in old(items) ==> items == old(items)
      ensures forall k :: 0 <= k < |old(items)| && old(items)[k] == e ==>
        items == old(items)[k := Entry(old(nextToken), Cached(e.value.ipfs, e.value.item, false))]
      ensures loaded == old(loaded) && actualAddress == old(actualAddress)
    {
      var c := Cached(e.value.ipfs, e.value.item, false);
      var newVal := Entry(nextToken, c);
      if e in items {
        var k :| 0 <= k < |items| && items[k] == e;
        ReplaceAt(items, k, newVal);
        ExpirePresentKeeps(items, pending, nextToken, e, k, c);
        assert forall j :: 0 <= j < |items| && items[j] == e ==> j == k;
      } else {
        ReplaceAbsent(items, e.token, newVal);
        ExpireAbsentKeeps(items, pending, nextToken, e);
      }
      items := Replace(items, e.token, newVal);
      nextToken := nextToken + 1;
      pending := pending - {e};
    }

    /** Completion of `retriveIPFSContent(v)`: append `{ipfs, item, updated: false}`. */
    method AppendFetched(item: Item, content: Content)
      requires Valid()
      modifies this
      ensures Valid()
      ensures items == old(items) + [Entry(old(nextToken), Cached(content, item, false))]
      ensures nextToken == old(nextToken) + 1
      ensures pending == old(pending) && loaded == old(loaded) && actualAddress == old(actualAddress)
    {
      items := items + [Entry(nextToken, Cached(content, item, false))];
      nextToken := nextToken + 1;
    }

    /** `$.each(it, (i, v) => retriveIPFSContent(v))`, with every fetch completing in order. */
    method AppendAll(vs: seq<Item>, fetch: string -> Content)
      requires Valid()
      modifies this
      ensures Valid()
      ensures Values(items) == Values(old(items)) + Fetched(vs, fetch)
      ensures |items| == |old(items)| + |vs| && items[..|old(items)|] == old(items)
      ensures forall k :: |old(items)| <= k < |items| ==> items[k].token >= old(nextToken)
      ensures nextToken >= old(nextToken)
      ensures pending == old(pending) && loaded == old(loaded) && actualAddress == old(actualAddress)
    {
      for k := 0 to |vs|
        invariant Valid()
        invariant Values(items) == Values(old(items)) + Fetched(vs[..k], fetch)
        invariant |items| == |old(items)| + k && items[..|old(items)|] == old(items)
        invariant forall j :: |old(items)| <= j < |items| ==> items[j].token >= old(nextToken)
        invariant nextToken >= old(nextToken)
        invariant pending == old(pending) && loaded == old(loaded) && actualAddress == old(actualAddress)
      {
        ghost var before := items;
        AppendFetched(vs[k], fetch(vs[k].ipfsHash));
        assert Values(items) == Values(before) + [Cached(fetch(vs[k].ipfsHash), vs[k], false)];
        assert Fetched(vs[..k + 1], fetch) == Fetched(vs[..k], fetch) + [Cached(fetch(vs[k].ipfsHash), vs[k], false)];
      }
      assert vs[..|vs|] == vs;
    }

    /**
     * `load()`: append every item of the ledger, newest first, then register
     * the `ValueChanged` and `PublishedItem` callbacks.
     */
    method Load(ledger: Ledger, fetch: string -> Content)
      requires Valid()
      modifies this, site
      ensures Valid()
      ensures Values(items) == Values(old(items)) + Fetched(Retrieval.ItemsDown(ledger, ledger.ItemsCount()), fetch)
      ensures |items| == |old(items)| + ledger.ItemsCount() && items[..|old(items)|] == old(items)
      ensures forall k :: |old(items)| <= k < |items| ==> items[k].token >= old(nextToken)
      ensures loaded
      ensures pending == old(pending) && actualAddress == old(actualAddress)
      ensures site.eventsHandlers == Market.Added(Market.Added(old(site.eventsHandlers),
                Market.ValueChanged, UpdateItemCallback), Market.PublishedItem, AddItemCallback)
      ensures site.publishCost == old(site.publishCost)
    {
      var requested, r := Retrieval.RetrieveAllItems(ledger, None);
      Retrieval.ItemsRangeLength(ledger, ledger.ItemsCount(), 0);
      AppendAll(r.value, fetch);
      loaded := true;
      site.AddEventHandler(Market.ValueChanged, UpdateItemCallback);
      site.AddEventHandler(Market.PublishedItem, AddItemCallback);
    }

    /**
     * `loadClaimList()`: retrieve the caller's Finished or Paid items, empty
     * the list, and append one entry per retrieved item.
     */
    method LoadClaimList(ledger: Ledger, fetch: string -> Content)
      requires Valid()
      modifies this
      ensures Valid()
      ensures Values(items) == Fetched(Retrieval.Filter(Retrieval.ItemsDown(ledger, ledger.ItemsCount()), ClaimFilter(actualAddress)), fetch)
      ensures forall e :: e in pending ==> e !in items
      ensures pending == old(pending) && loaded == old(loaded) && actualAddress == old(actualAddress)
    {
      var requested, r := Retrieval.RetrieveAllItems(ledger, Some(ClaimFilter(actualAddress)));
      items := [];
      AppendAll(r.value, fetch);
    }

    /**
     * `installForClaimList()`: load the claim list when an address is
     * selected, mark the page loaded, and reload on `ItemSold` and `ItemPaid`.
     */
    method InstallForClaimList(ledger: Ledger, fetch: string -> Content)
      requires Valid()
      modifies this, site
      ensures Valid()
      ensures loaded
      ensures old(actualAddress) != "" ==>
        Values(items) == Fetched(Retrieval.Filter(Retrieval.ItemsDown(ledger, ledger.ItemsCount()), ClaimFilter(actualAddress)), fetch)
      ensures old(actualAddress) == "" ==> items == old(items)
      ensures pending == old(pending) && actualAddress == old(actualAddress)
      ensures site.eventsHandlers == Market.Added(Market.Added(old(site.eventsHandlers),
                Market.ItemSold, ReloadClaimsCallback), Market.ItemPaid, ReloadClaimsCallback)
      ensures site.publishCost == old(site.publishCost)
    {
      if actualAddress != "" {
        LoadClaimList(ledger, fetch);
      }
      loaded := true;
      site.AddEventHandler(Market.ItemSold, ReloadClaimsCallback);
      site.AddEventHandler(Market.ItemPaid, ReloadClaimsCallback);
    }

    /** `unload()`: clears the whole registry, including callbacks other components registered. */
    method Unload()
      requires Valid()
      modifies site
      ensures Valid()
      ensures site.eventsHandlers == map[]
      ensures site.publishCost == old(site.publishCost)
    {
      site.ClearAllEventHandlers();
    }
  }

  /**
   * A `PublishedItem` for item 7 followed by a `ValueChanged` for it: one
   * entry at the head, flagged updated and holding the newer record; the
   * first timer finds its object superseded, the second clears the flag and
   * keeps the newest record and content.
   */
  method PublishThenChangeScenario(content: Content)
  {
    var site := new Market.MarketSite(0);
    var vm := new PageViewModel(site, Some("0xAbC"));
    var published := Item(7, "0x1", "", Published, 10, 20, 0, 0, "Qm7");
    var offered := published.(state := Offered, currentOfferValue := 12);

    vm.AddItem(published, content);
    var first := vm.items[0];

    vm.UpdateItem(7, offered);
    assert HasItemId(7)(first);
    var second := vm.items[0];
    assert |vm.items| == 1 && second.value == Cached(content, offered, true);

    vm.Expire(first);
    assert vm.items == [second];

    vm.Expire(second);
    assert |vm.items| == 1 && vm.items[0].value == Cached(content, offered, false);
    assert vm.pending == {};
  }
}
