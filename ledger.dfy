/**
 * The remote ledger (the market contract) as this client sees it: a count of
 * published items and a point lookup `getItem(id)` over the ids 1..itemsCount.
 */
module Ledgers {
  import opened Wrappers

  // Item states, in lifecycle order (js/marketSite.js, `this.State`).
  const Published: int := 0
  const Offered: int := 1
  const Finished: int := 2
  const Paid: int := 3  // spelled `Payded` in the source

  /** One publication record as returned by the contract's `getItem`. */
  datatype Item = Item(
    itemId: int,
    owner: string,
    offerAddress: string,
    state: int,
    initialValue: int,
    maxValue: int,
    currentOfferValue: int,
    finishDate: int,
    ipfsHash: string)

  /** The ledger: the item with id `k` is `items[k - 1]`. */
  datatype Ledger = Ledger(items: seq<Item>) {

    /** The contract's `itemsCount()`. */
    function ItemsCount(): nat {
      |items|
    }

    /** The contract's `getItem(id)`; an id outside 1..itemsCount is a failed read. */
    function GetItem(id: int): Option<Item> {
      if 1 <= id <= |items| then Some(items[id - 1]) else None
    }

    /** Ids are assigned sequentially from 1 and each record carries its own id. */
    ghost predicate WellFormed() {
      forall k :: 0 <= k < |items| ==> items[k].itemId == k + 1
    }
  }
}
