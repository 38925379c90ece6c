/**
  `ProductTracker`: the key-to-record dictionary the monitor keeps in
  memory and writes through to its JSON file after every update, and
  `edit_or_skip_message`, which edits the chat message of a stored
  record and decides what to do with the record from the edit's outcome.
*/
module Tracker {
  import opened Wrappers

  /** One stored product; `messageId` is None when the record has no "message_id" entry. */
  datatype Record = Record(price: string, features: string, link: string, outOfStock: bool, messageId: Option<int>)

  type Inventory = map<string, Record>

  /** `inventory.get(key)` */
  function Lookup(inv: Inventory, key: string): Option<Record>
  {
    if key in inv then Some(inv[key]) else None
  }

  /** The message id `update_product` stores: the given one, else the previous record's, if any. */
  function KeptMessageId(inv: Inventory, key: string, messageId: Option<int>): Option<int>
  {
    if messageId.Some? then messageId
    else if key in inv then inv[key].messageId
    else None
  }

  /** The inventory after `update_product(key, price, features, link, out_of_stock, message_id)`. */
  function Updated(inv: Inventory, key: string, price: string, features: string, link: string,
                   outOfStock: bool, messageId: Option<int>): Inventory
  {
    inv[key := Record(price, features, link, outOfStock, KeptMessageId(inv, key, messageId))]
  }

  /**
    `update_product` replaces the record of `key` by one with exactly the
    given price, features, link and stock flag; its message id is the
    given one if there is one, else the previous record's, and absent if
    neither exists; every other key keeps its record.
  */
  lemma UpdatedSpec(inv: Inventory, key: string, price: string, features: string, link: string,
                    outOfStock: bool, messageId: Option<int>)
    ensures var r := Updated(inv, key, price, features, link, outOfStock, messageId);
      && r.Keys == inv.Keys + {key}
      && r[key].price == price && r[key].features == features
      && r[key].link == link && r[key].outOfStock == outOfStock
      && (messageId.Some? ==> r[key].messageId == messageId)
      && (messageId.None? && key in inv ==> r[key].messageId == inv[key].messageId)
      && (messageId.None? && key !in inv ==> r[key].messageId.None?)
      && forall k :: k in inv && k != key ==> r[k] == inv[k]
  {
  }

  /** Rewriting a record with its own values and no message id leaves the inventory as it was. */
  lemma RewriteKeepsInventory(inv: Inventory, key: string)
    requires key in inv
    ensures var r := inv[key];
      Updated(inv, key, r.price, r.features, r.link, r.outOfStock, None) == inv
  {
    var r := inv[key];
    assert Record(r.price, r.features, r.link, r.outOfStock, KeptMessageId(inv, key, None)) == r;
  }

  class ProductTracker {
    /** The in-memory dictionary. */
    var inventory: Inventory
    /** The snapshots `save_to_file` has written, oldest first. */
    var written: seq<Inventory>

    /**
      A tracker over the dictionary read from the products file, or over
      an empty one when the file is missing or cannot be read.
    */
    constructor (loaded: Option<Inventory>)
      ensures inventory == loaded.GetOr(map[])
      ensures written == []
    {
      inventory := loaded.GetOr(map[]);
      written := [];
    }

    /** `save_to_file`: the current dictionary becomes the latest snapshot. */
    method Save()
      modifies this
      ensures inventory == old(inventory)
      ensures written == old(written) + [inventory]
    {
      written := written + [inventory];
    }

    /** `update_product`, written through to the file. */
    method UpdateProduct(key: string, price: string, features: string, link: string,
                         outOfStock: bool, messageId: Option<int>)
      modifies this
      ensures inventory == Updated(old(inventory), key, price, features, link, outOfStock, messageId)
      ensures written == old(written) + [inventory]
    {
      var data := Record(price, features, link, outOfStock, None);
      if messageId.Some? {
        data := data.(messageId := messageId);
      } else if key in inventory && inventory[key].messageId.Some? {
        data := data.(messageId := inventory[key].messageId);
      }
      inventory := inventory[key := data];
      Save();
    }

    /** `get_product` */
    function GetProduct(key: string): (r: Option<Record>)
      reads this
      ensures r.Some? <==> key in inventory
      ensures r.Some? ==> r.value == inventory[key]
    {
      Lookup(inventory, key)
    }
  }

  /** What the chat service answers to an edit of a message. */
  datatype EditOutcome = Ok | NotModified | MessageIdInvalid | OtherError

  /** `edit_or_skip_message` calls the chat service only for a stored record with a message id. */
  predicate EditAttempted(inv: Inventory, key: string)
  {
    key in inv && inv[key].messageId.Some?
  }

  /**
    The inventory after `edit_or_skip_message`: a vanished message
    (`Message_id_invalid`) makes it call `update_product` with the
    record's own values and `message_id=None`; every other outcome
    leaves the record alone.
  */
  function AfterEdit(inv: Inventory, key: string, outcome: EditOutcome): Inventory
  {
    if !EditAttempted(inv, key) then inv
    else match outcome
      case MessageIdInvalid =>
        var r := inv[key];
        Updated(inv, key, r.price, r.features, r.link, r.outOfStock, None)
      case _ => inv
  }

  /**
    Whatever the chat service answers, the edit leaves the inventory as
    it was: in particular a vanished message does not lose its id,
    because `update_product` carries the old id forward when given None.
  */
  lemma AfterEditKeepsInventory(inv: Inventory, key: string, outcome: EditOutcome)
    ensures AfterEdit(inv, key, outcome) == inv
  {
    if EditAttempted(inv, key) && outcome == MessageIdInvalid {
      RewriteKeepsInventory(inv, key);
    }
  }

  /**
    `edit_or_skip_message(key, text)` with the chat service answering
    `outcome`; returns whether the service was called. The message text
    does not affect the state and is left out.
  */
  method EditOrSkip(tracker: ProductTracker, key: string, outcome: EditOutcome) returns (attempted: bool)
    modifies tracker
    ensures attempted == EditAttempted(old(tracker.inventory), key)
    ensures tracker.inventory == AfterEdit(old(tracker.inventory), key, outcome)
    ensures tracker.inventory == old(tracker.inventory)
    ensures tracker.written == if attempted && outcome == MessageIdInvalid
                               then old(tracker.written) + [tracker.inventory]
                               else old(tracker.written)
  {
    var existing := tracker.GetProduct(key);
    if existing.None? || existing.value.messageId.None? {
      return false;
    }
    attempted := true;
    var r := existing.value;
    match outcome {
      case Ok =>
      case NotModified =>
      case MessageIdInvalid =>
        tracker.UpdateProduct(key, r.price, r.features, r.link, r.outOfStock, None);
      case OtherError =>
    }
    AfterEditKeepsInventory(old(tracker.inventory), key, outcome);
  }
}
