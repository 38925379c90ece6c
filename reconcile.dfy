/**
  The body of `fetch_and_parse_products` once a page has been fetched:
  the observation taken from the page, the decision between a restock
  notice, a new-listing notice, a silent return, a delist edit and a
  placeholder record, and the sweep that delists every other in-stock
  product of the same source.
*/
module Reconcile {
  import opened Wrappers
  import opened Strings
  import opened Listing
  import opened Tracker
  import opened Message

  // ---------------------------------------------------------------------
  // What a fetched page yields
  // ---------------------------------------------------------------------

  /** The product box of an in-stock page: the text of its `strong` tag, if any, and its whole text. */
  datatype ProductBox = ProductBox(strongText: Option<string>, text: string)

  /**
    The parts of a fetched page the core reads: whether the "Out of
    Stock" error box is there, the product box, the text of the billing
    cycle selector and the HTML comments.
  */
  datatype Page = Page(outOfStockBox: bool, productBox: Option<ProductBox>,
                       billingCycle: Option<string>, comments: seq<string>)

  /** The fetcher either skips the URL (bad status, redirect, maintenance, wrong title, retries used up) or returns a page. */
  datatype Fetch = Skipped | Fetched(page: Page)

  /** One observation of one product. */
  datatype Observation = Observation(outOfStock: bool, name: string, price: string,
                                     features: string, promoCode: Option<string>)

  const UnknownPrice: string := "价格未知"
  const MissingPrice: string := "价格未提供"

  /**
    The observation of a page: a sold-out page gets the synthetic name
    and the placeholders; an in-stock page without a product box yields
    nothing (the function returns early).
  */
  function Observe(url: string, page: Page): Option<Observation>
  {
    var promo := ExtractPromoCodeCaseless(page.comments);
    if page.outOfStockBox then
      Some(Observation(true, OutOfStockName(url), UnknownPrice, UnknownFeatures, promo))
    else match page.productBox
      case None => None
      case Some(box) =>
        var rawName := box.strongText.GetOr(UnknownProduct);
        Some(Observation(false, NormalizeName(rawName), page.billingCycle.GetOr(MissingPrice),
                         FeatureSignature(box.text, rawName), promo))
  }

  /**
    A sold-out page is keyed under a synthetic name, "商品 PID n" for the
    pid of the URL or "未知商品", with placeholder price and features;
    only an in-stock page without a product box yields no observation.
  */
  lemma ObserveSpec(url: string, page: Page)
    ensures Observe(url, page).None? <==> !page.outOfStockBox && page.productBox.None?
    ensures page.outOfStockBox ==>
              var obs := Observe(url, page).value;
              && obs.outOfStock && obs.price == UnknownPrice && obs.features == UnknownFeatures
              && (obs.name == UnknownProduct <==> PidDigits(url).None?)
              && (PidDigits(url).Some? ==> obs.name == PidNamePrefix + PidDigits(url).value)
    ensures !page.outOfStockBox && page.productBox.Some? ==>
              var obs := Observe(url, page).value;
              && !obs.outOfStock && IsStripped(obs.name)
              && (obs.features == UnknownFeatures <==>
                    FeatureLines(page.productBox.value.text, page.productBox.value.strongText.GetOr(UnknownProduct)) == [])
  {
    if page.outOfStockBox && PidDigits(url).Some? {
      assert (PidNamePrefix + PidDigits(url).value)[0] != UnknownProduct[0];
    }
    if !page.outOfStockBox && page.productBox.Some? {
      var box := page.productBox.value;
      NormalizeNameStripped(box.strongText.GetOr(UnknownProduct));
      FeatureSignatureSpec(box.text, box.strongText.GetOr(UnknownProduct));
    }
  }

  /**
    The observation's promo code is the case-blind extraction's; it is
    the one `extract_promo_code` returns as written whenever every
    comment is already in lower case.
  */
  lemma ObservePromoCode(url: string, page: Page)
    requires Observe(url, page).Some?
    ensures Observe(url, page).value.promoCode == ExtractPromoCodeCaseless(page.comments)
    ensures (forall i :: 0 <= i < |page.comments| ==> Lower(page.comments[i]) == page.comments[i]) ==>
              Observe(url, page).value.promoCode == ExtractPromoCode(page.comments)
  {
    if forall i :: 0 <= i < |page.comments| ==> Lower(page.comments[i]) == page.comments[i] {
      ExtractPromoCodeCaselessOfLowered(page.comments);
    }
  }

  // ---------------------------------------------------------------------
  // The decision
  // ---------------------------------------------------------------------

  /** The branch `fetch_and_parse_products` takes for the stored record of the observed key. */
  datatype Decision = Restock | NewListing | Unchanged | Delist | Placeholder | AlreadyOut

  function Decide(existing: Option<Record>, obs: Observation): Decision
  {
    if !obs.outOfStock then
      if existing.Some? && existing.value.outOfStock then Restock
      else if existing.None? || existing.value.price != obs.price || existing.value.features != obs.features
      then NewListing
      else Unchanged
    else if existing.Some? && !existing.value.outOfStock then Delist
    else if existing.None? then Placeholder
    else AlreadyOut
  }

  /**
    For an in-stock observation a stored sold-out record means a restock
    notice whatever its price and features; otherwise a missing record
    or a changed price or feature text means a new-listing notice; an
    unchanged in-stock record means the silent return.
  */
  lemma DecideInStock(existing: Option<Record>, obs: Observation)
    requires !obs.outOfStock
    ensures Decide(existing, obs) == Restock <==> existing.Some? && existing.value.outOfStock
    ensures Decide(existing, obs) == NewListing <==>
              || existing.None?
              || (!existing.value.outOfStock &&
                  (existing.value.price != obs.price || existing.value.features != obs.features))
    ensures Decide(existing, obs) == Unchanged <==>
              && existing.Some? && !existing.value.outOfStock
              && existing.value.price == obs.price && existing.value.features == obs.features
  {
  }

  /**
    For a sold-out observation a stored in-stock record is delisted, a
    missing one gets a placeholder and a sold-out one is left alone.
  */
  lemma DecideOutOfStock(existing: Option<Record>, obs: Observation)
    requires obs.outOfStock
    ensures Decide(existing, obs) == Delist <==> existing.Some? && !existing.value.outOfStock
    ensures Decide(existing, obs) == Placeholder <==> existing.None?
    ensures Decide(existing, obs) == AlreadyOut <==> existing.Some? && existing.value.outOfStock
  {
  }

  /** A message id that Python treats as true. */
  predicate Truthy(id: Option<int>)
  {
    id.Some? && id.value != 0
  }

  /** The inventory after the branch for the observed key, before the sweep. */
  function Apply(inv: Inventory, key: string, d: Decision, obs: Observation, link: string,
                 sentId: Option<int>): Inventory
  {
    match d
    case Restock => Updated(inv, key, obs.price, obs.features, link, false, sentId)
    case NewListing => Updated(inv, key, obs.price, obs.features, link, false, sentId)
    case Delist =>
      if key in inv then
        var e := inv[key];
        Updated(inv, key, e.price, e.features, link, true, e.messageId)
      else inv
    case Placeholder => Updated(inv, key, obs.price, obs.features, link, true, None)
    case _ => inv
  }

  // ---------------------------------------------------------------------
  // The sweep
  // ---------------------------------------------------------------------

  /** A key the sweep delists: of this source, not seen in this call, and in stock. */
  predicate IsSweepTarget(inv: Inventory, source: string, current: set<string>, k: string)
  {
    k in inv && IsPrefix(source + KeyDelimiter, k) && k !in current && !inv[k].outOfStock
  }

  /** The record of `k` after the sweep. */
  function SweptAt(inv: Inventory, source: string, current: set<string>, link: string, k: string): Record
    requires k in inv
  {
    if IsSweepTarget(inv, source, current, k) then inv[k].(link := link, outOfStock := true) else inv[k]
  }

  /** The inventory after the sweep. */
  function Sweep(inv: Inventory, source: string, current: set<string>, link: string): Inventory
  {
    map k | k in inv :: SweptAt(inv, source, current, link, k)
  }

  /** The keys whose message the sweep edits. */
  function SweepEdits(inv: Inventory, source: string, current: set<string>, send: bool): set<string>
  {
    set k | k in inv && IsSweepTarget(inv, source, current, k) && send && Truthy(inv[k].messageId)
  }

  /** The keys the sweep rewrites sold out, one `update_product` each. */
  function SweepTargets(inv: Inventory, source: string, current: set<string>): set<string>
  {
    set k | k in inv && IsSweepTarget(inv, source, current, k)
  }

  /**
    The sweep marks exactly its targets sold out, with the purchase link
    of this call, keeping their price, features and message id; every
    other record, of other sources or already sold out, is unchanged.
  */
  lemma SweepSpec(inv: Inventory, source: string, current: set<string>, link: string, k: string)
    requires k in inv
    ensures var r := Sweep(inv, source, current, link);
      && r.Keys == inv.Keys
      && (IsSweepTarget(inv, source, current, k) ==>
            r[k] == Record(inv[k].price, inv[k].features, link, true, inv[k].messageId))
      && (!IsSweepTarget(inv, source, current, k) ==> r[k] == inv[k])
      && r[k].outOfStock == (inv[k].outOfStock || (IsPrefix(source + KeyDelimiter, k) && k !in current))
  {
  }

  /** After a sweep no target is left, so its edit set is empty and a second sweep changes nothing. */
  lemma SweepIdempotent(inv: Inventory, source: string, current: set<string>, link: string, send: bool)
    ensures forall k :: !IsSweepTarget(Sweep(inv, source, current, link), source, current, k)
    ensures Sweep(Sweep(inv, source, current, link), source, current, link) == Sweep(inv, source, current, link)
    ensures SweepEdits(Sweep(inv, source, current, link), source, current, send) == {}
  {
  }

  // ---------------------------------------------------------------------
  // One call for one source
  // ---------------------------------------------------------------------

  /** The state and the chat traffic of one call: the notice sent, if any, and the keys whose message was edited. */
  datatype Outcome = Outcome(inventory: Inventory, sent: Option<Notice>, edits: set<string>)

  /**
    One call on an observation of `source`: the branch for the observed
    key, then (unless the silent return was taken) the sweep. `send` is
    `send_notifications` and `sendResult` the id of the message sent, or
    None when sending failed.
  */
  function Step(inv: Inventory, source: string, obs: Observation, send: bool, sendResult: Option<int>): Outcome
  {
    var link := AffiliateLink(source);
    var key := MakeProductKey(source, obs.name);
    var existing := Lookup(inv, key);
    var d := Decide(existing, obs);
    if d == Unchanged then Outcome(inv, None, {})
    else
      var before := Apply(inv, key, d, obs, link, if send then sendResult else None);
      var sent := if send && d == Restock then Some(RestockNotice)
                  else if send && d == NewListing then Some(NewListingNotice)
                  else None;
      var edited := if d == Delist && send && Truthy(existing.value.messageId) then {key} else {};
      Outcome(Sweep(before, source, {key}, link), sent, edited + SweepEdits(before, source, {key}, send))
  }

  /** A whole call of `fetch_and_parse_products`, the fetch abstracted. */
  function Process(inv: Inventory, url: string, fetched: Fetch, send: bool, sendResult: Option<int>): Outcome
  {
    match fetched
    case Skipped => Outcome(inv, None, {})
    case Fetched(page) =>
      match Observe(url, page)
      case None => Outcome(inv, None, {})
      case Some(obs) => Step(inv, url, obs, send, sendResult)
  }

  /**
    How many times one call runs `update_product`, each of which saves the
    file: none on the silent return; otherwise once for the observed key,
    unless its record is already sold out, and once per sweep target.
  */
  function StepWrites(inv: Inventory, source: string, obs: Observation, send: bool, sendResult: Option<int>): nat
  {
    var link := AffiliateLink(source);
    var key := MakeProductKey(source, obs.name);
    var d := Decide(Lookup(inv, key), obs);
    if d == Unchanged then 0
    else
      var before := Apply(inv, key, d, obs, link, if send then sendResult else None);
      (if d == AlreadyOut then 0 else 1) + |SweepTargets(before, source, {key})|
  }

  /** A call that returns before any write: a skipped fetch, a page without a product box, or the silent return. */
  predicate Silent(inv: Inventory, url: string, fetched: Fetch)
  {
    || fetched.Skipped?
    || Observe(url, fetched.page).None?
    || Decide(Lookup(inv, MakeProductKey(url, Observe(url, fetched.page).value.name)),
              Observe(url, fetched.page).value) == Unchanged
  }

  /** How many times a whole call runs `update_product`. */
  function ProcessWrites(inv: Inventory, url: string, fetched: Fetch, send: bool, sendResult: Option<int>): nat
  {
    match fetched
    case Skipped => 0
    case Fetched(page) =>
      match Observe(url, page)
      case None => 0
      case Some(obs) => StepWrites(inv, url, obs, send, sendResult)
  }

  /**
    A call that runs `update_product` no time changes nothing, one that
    returns early writes nothing, sends nothing and edits nothing, and
    every branch past the silent return other than an already sold-out
    record writes the observed key.
  */
  lemma ProcessWritesSpec(inv: Inventory, url: string, fetched: Fetch, send: bool, sendResult: Option<int>)
    ensures ProcessWrites(inv, url, fetched, send, sendResult) == 0 ==>
              Process(inv, url, fetched, send, sendResult).inventory == inv
    ensures Silent(inv, url, fetched) ==>
              && ProcessWrites(inv, url, fetched, send, sendResult) == 0
              && Process(inv, url, fetched, send, sendResult) == Outcome(inv, None, {})
    ensures !Silent(inv, url, fetched) ==>
              var obs := Observe(url, fetched.page).value;
              var d := Decide(Lookup(inv, MakeProductKey(url, obs.name)), obs);
              d != AlreadyOut ==> ProcessWrites(inv, url, fetched, send, sendResult) > 0
  {
    if fetched.Fetched? && Observe(url, fetched.page).Some? {
      var obs := Observe(url, fetched.page).value;
      var key := MakeProductKey(url, obs.name);
      var link := AffiliateLink(url);
      var d := Decide(Lookup(inv, key), obs);
      if d == AlreadyOut && SweepTargets(inv, url, {key}) == {} {
        NoTargetSweepKeeps(inv, url, {key}, link);
      }
    }
  }

  /** A sweep without targets leaves the dictionary as it was. */
  lemma NoTargetSweepKeeps(inv: Inventory, source: string, current: set<string>, link: string)
    requires SweepTargets(inv, source, current) == {}
    ensures Sweep(inv, source, current, link) == inv
  {
    forall k | k in inv
      ensures SweptAt(inv, source, current, link, k) == inv[k]
    {
      assert k !in SweepTargets(inv, source, current);
    }
  }

  /** The record of the observed key after a call, and which notice goes out. */
  lemma StepObservedKey(inv: Inventory, source: string, obs: Observation, send: bool, sendResult: Option<int>)
    ensures var key := MakeProductKey(source, obs.name);
      var existing := Lookup(inv, key);
      var o := Step(inv, source, obs, send, sendResult);
      var link := AffiliateLink(source);
      && key in o.inventory
      && (!obs.outOfStock && Decide(existing, obs) != Unchanged ==>
            && o.inventory[key].price == obs.price && o.inventory[key].features == obs.features
            && o.inventory[key].link == link && !o.inventory[key].outOfStock
            && o.inventory[key].messageId == KeptMessageId(inv, key, if send then sendResult else None)
            && o.sent == (if !send then None
                          else if existing.Some? && existing.value.outOfStock then Some(RestockNotice)
                          else Some(NewListingNotice)))
      && (obs.outOfStock && existing.Some? && !existing.value.outOfStock ==>
            o.inventory[key] == Record(existing.value.price, existing.value.features, link, true,
                                       existing.value.messageId))
      && (obs.outOfStock && existing.None? ==>
            o.inventory[key] == Record(obs.price, obs.features, link, true, None))
      && (obs.outOfStock && existing.Some? && existing.value.outOfStock ==> o.inventory[key] == inv[key])
      && (obs.outOfStock ==> o.sent.None?)
      && (key in o.edits <==>
            obs.outOfStock && send && existing.Some? && !existing.value.outOfStock &&
            Truthy(existing.value.messageId))
  {
    var key := MakeProductKey(source, obs.name);
    var link := AffiliateLink(source);
    var d := Decide(Lookup(inv, key), obs);
    if d != Unchanged {
      var before := Apply(inv, key, d, obs, link, if send then sendResult else None);
      assert key in before;
      SweepSpec(before, source, {key}, link, key);
    }
  }

  /**
    Nothing is sent or edited in a call without notifications, the call
    of the first round.
  */
  lemma StepSilentWithoutNotifications(inv: Inventory, source: string, obs: Observation, sendResult: Option<int>)
    ensures Step(inv, source, obs, false, sendResult).sent.None?
    ensures Step(inv, source, obs, false, sendResult).edits == {}
  {
  }

  /**
    Records of other sources are never touched, no record is removed and
    at most the observed key is added.
  */
  lemma StepFrame(inv: Inventory, source: string, obs: Observation, send: bool, sendResult: Option<int>)
    ensures var o := Step(inv, source, obs, send, sendResult);
      && (o.inventory.Keys == inv.Keys + {MakeProductKey(source, obs.name)} || o.inventory.Keys == inv.Keys)
      && forall k :: k in inv && !IsPrefix(source + KeyDelimiter, k) ==> k in o.inventory && o.inventory[k] == inv[k]
  {
  }

  /**
    After any call that does not take the silent return, the observed
    key is the only in-stock record of its source.
  */
  lemma StepLeavesOneInStock(inv: Inventory, source: string, obs: Observation, send: bool, sendResult: Option<int>)
    requires Decide(Lookup(inv, MakeProductKey(source, obs.name)), obs) != Unchanged
    ensures var o := Step(inv, source, obs, send, sendResult);
      forall k :: k in o.inventory && IsPrefix(source + KeyDelimiter, k) && k != MakeProductKey(source, obs.name)
        ==> o.inventory[k].outOfStock
  {
    var key := MakeProductKey(source, obs.name);
    var link := AffiliateLink(source);
    var d := Decide(Lookup(inv, key), obs);
    var before := Apply(inv, key, d, obs, link, if send then sendResult else None);
    forall k | k in before && IsPrefix(source + KeyDelimiter, k) && k != key
      ensures Sweep(before, source, {key}, link)[k].outOfStock
    {
      SweepSpec(before, source, {key}, link, k);
    }
  }

  /**
    The sweep reaches past its own source: the keys of a source that
    itself starts with `source::` also start with `source::`, so a call
    for `source` that gets past the silent return marks them sold out too.
  */
  lemma {:induction false} NestedSourceSwept(inv: Inventory, source: string, inner: string, name: string,
                                             obs: Observation, send: bool, sendResult: Option<int>)
    requires Decide(Lookup(inv, MakeProductKey(source, obs.name)), obs) != Unchanged
    requires MakeProductKey(source + KeyDelimiter + inner, name) in inv
    requires MakeProductKey(source + KeyDelimiter + inner, name) != MakeProductKey(source, obs.name)
    ensures var o := Step(inv, source, obs, send, sendResult);
      var nested := MakeProductKey(source + KeyDelimiter + inner, name);
      nested in o.inventory && o.inventory[nested].outOfStock
  {
    var nested := MakeProductKey(source + KeyDelimiter + inner, name);
    assert nested[..|source + KeyDelimiter|] == source + KeyDelimiter;
    StepFrame(inv, source, obs, send, sendResult);
    StepLeavesOneInStock(inv, source, obs, send, sendResult);
  }

  /**
    Processing the same observation a second time, with or without
    notifications and whatever the first send returned, changes nothing,
    sends nothing and edits nothing.
  */
  lemma StepIdempotent(inv: Inventory, source: string, obs: Observation,
                       send1: bool, sendResult1: Option<int>, send2: bool, sendResult2: Option<int>)
    ensures var first := Step(inv, source, obs, send1, sendResult1);
      && Step(first.inventory, source, obs, send2, sendResult2) == Outcome(first.inventory, None, {})
      && StepWrites(first.inventory, source, obs, send2, sendResult2) == 0
  {
    var key := MakeProductKey(source, obs.name);
    var link := AffiliateLink(source);
    var d := Decide(Lookup(inv, key), obs);
    if d != Unchanged {
      var before := Apply(inv, key, d, obs, link, if send1 then sendResult1 else None);
      var after := Step(inv, source, obs, send1, sendResult1).inventory;
      StepUnfold(inv, source, obs, send1, sendResult1);
      StepSecondDecision(inv, source, obs, send1, sendResult1);
      if obs.outOfStock {
        SweepIdempotent(before, source, {key}, link, send2);
        assert SweepTargets(after, source, {key}) == {};
        AlreadyOutStep(after, source, obs, send2, sendResult2);
      }
    }
  }

  /**
    Past the silent return the observed key's record is left as the same
    observation would find it: in stock at its price and features, or
    sold out.
  */
  lemma StepSecondDecision(inv: Inventory, source: string, obs: Observation, send: bool, sendResult: Option<int>)
    requires Decide(Lookup(inv, MakeProductKey(source, obs.name)), obs) != Unchanged
    ensures var after := Step(inv, source, obs, send, sendResult).inventory;
      var d2 := Decide(Lookup(after, MakeProductKey(source, obs.name)), obs);
      d2 == if obs.outOfStock then AlreadyOut else Unchanged
  {
    StepObservedKey(inv, source, obs, send, sendResult);
  }

  /** An already sold-out record with no sweep target left: the call changes, sends, edits and writes nothing. */
  lemma AlreadyOutStep(inv: Inventory, source: string, obs: Observation, send: bool, sendResult: Option<int>)
    requires Decide(Lookup(inv, MakeProductKey(source, obs.name)), obs) == AlreadyOut
    requires SweepTargets(inv, source, {MakeProductKey(source, obs.name)}) == {}
    ensures Step(inv, source, obs, send, sendResult) == Outcome(inv, None, {})
    ensures StepWrites(inv, source, obs, send, sendResult) == 0
  {
    var key := MakeProductKey(source, obs.name);
    StepUnfold(inv, source, obs, send, sendResult);
    NoTargetSweepKeeps(inv, source, {key}, AffiliateLink(source));
    assert SweepEdits(inv, source, {key}, send) <= SweepTargets(inv, source, {key});
  }

  /**
    The restock round trip: a sold-out record observed in stock at the
    same price gets a restock notice and is stored in stock.
  */
  lemma RestockRoundTrip(inv: Inventory, source: string, obs: Observation, sendResult: Option<int>)
    requires !obs.outOfStock
    requires MakeProductKey(source, obs.name) in inv
    requires inv[MakeProductKey(source, obs.name)].outOfStock
    requires inv[MakeProductKey(source, obs.name)].price == obs.price
    ensures Step(inv, source, obs, true, sendResult).sent == Some(RestockNotice)
    ensures !Step(inv, source, obs, true, sendResult).inventory[MakeProductKey(source, obs.name)].outOfStock
  {
    StepObservedKey(inv, source, obs, true, sendResult);
  }

  /** A product first seen sold out gets a placeholder record and no chat traffic. */
  lemma FirstSeenSoldOut(inv: Inventory, url: string, page: Page, send: bool, sendResult: Option<int>)
    requires page.outOfStockBox
    requires MakeProductKey(url, OutOfStockName(url)) !in inv
    ensures var o := Process(inv, url, Fetched(page), send, sendResult);
      && o.sent.None?
      && MakeProductKey(url, OutOfStockName(url)) !in o.edits
      && MakeProductKey(url, OutOfStockName(url)) in o.inventory
      && o.inventory[MakeProductKey(url, OutOfStockName(url))] ==
           Record(UnknownPrice, UnknownFeatures, AffiliateLink(url), true, None)
  {
    var obs := Observe(url, page).value;
    StepObservedKey(inv, url, obs, send, sendResult);
  }

  // ---------------------------------------------------------------------
  // The method
  // ---------------------------------------------------------------------

  /**
    How many of the edited keys find their message gone, each of which
    makes `edit_or_skip_message` rewrite the record and save the file.
  */
  function Rewrites(edits: seq<string>, editOutcome: string -> EditOutcome): nat
  {
    if edits == [] then 0
    else (if editOutcome(edits[0]) == MessageIdInvalid then 1 else 0) + Rewrites(edits[1..], editOutcome)
  }

  lemma {:induction false} RewritesConcat(a: seq<string>, b: seq<string>, editOutcome: string -> EditOutcome)
    ensures Rewrites(a + b, editOutcome) == Rewrites(a, editOutcome) + Rewrites(b, editOutcome)
  {
    if a != [] {
      assert (a + b)[1..] == a[1..] + b;
      RewritesConcat(a[1..], b, editOutcome);
    } else {
      assert a + b == b;
    }
  }

  lemma RewritesAppend(edits: seq<string>, k: string, edited: bool, editOutcome: string -> EditOutcome)
    ensures Rewrites(if edited then edits + [k] else edits, editOutcome) ==
              Rewrites(edits, editOutcome) + (if edited && editOutcome(k) == MessageIdInvalid then 1 else 0)
  {
    if edited {
      RewritesConcat(edits, [k], editOutcome);
      assert [k][1..] == [];
    }
  }

  /** No key is edited twice. */
  predicate Distinct(xs: seq<string>)
  {
    forall i, j :: 0 <= i < j < |xs| ==> xs[i] != xs[j]
  }

  /**
    Write-through from snapshots `w0` and dictionary `inv0` to `w` and
    `inv`: snapshots are only appended, the dictionary changes only with
    a write, and the latest snapshot is the current dictionary.
  */
  predicate WrittenThrough(w0: seq<Inventory>, inv0: Inventory, w: seq<Inventory>, inv: Inventory)
  {
    && w0 <= w
    && (w == w0 ==> inv == inv0)
    && (w != w0 ==> w[|w| - 1] == inv)
  }

  lemma WrittenThroughTrans(w0: seq<Inventory>, inv0: Inventory, w1: seq<Inventory>, inv1: Inventory,
                            w2: seq<Inventory>, inv2: Inventory)
    requires WrittenThrough(w0, inv0, w1, inv1) && WrittenThrough(w1, inv1, w2, inv2)
    ensures WrittenThrough(w0, inv0, w2, inv2)
  {
    if w2 == w0 {
      assert |w1| == |w0|;
      assert w1 == w0;
    }
  }

  /**
    The branch for the observed key: the notice and the write for an
    in-stock observation, or the edit and the write for a sold-out one.
    Returns the notice sent and the keys edited.
  */
  method ObserveKey(tracker: ProductTracker, key: string, obs: Observation, link: string, send: bool,
                    sendResult: Option<int>, editOutcome: string -> EditOutcome)
    returns (sent: Option<Notice>, edits: seq<string>)
    requires Decide(Lookup(tracker.inventory, key), obs) != Unchanged
    modifies tracker
    ensures var existing := Lookup(old(tracker.inventory), key);
      var d := Decide(existing, obs);
      && tracker.inventory == Apply(old(tracker.inventory), key, d, obs, link, if send then sendResult else None)
      && sent == (if send && d == Restock then Some(RestockNotice)
                  else if send && d == NewListing then Some(NewListingNotice)
                  else None)
      && edits == (if d == Delist && send && Truthy(existing.value.messageId) then [key] else [])
      && |tracker.written| == |old(tracker.written)| + (if d == AlreadyOut then 0 else 1) + Rewrites(edits, editOutcome)
    ensures WrittenThrough(old(tracker.written), old(tracker.inventory), tracker.written, tracker.inventory)
  {
    var existing := tracker.GetProduct(key);
    sent, edits := None, [];
    if !obs.outOfStock {
      var notice := if existing.Some? && existing.value.outOfStock then RestockNotice else NewListingNotice;
      if send {
        sent := Some(notice);
        tracker.UpdateProduct(key, obs.price, obs.features, link, obs.outOfStock, sendResult);
      } else {
        tracker.UpdateProduct(key, obs.price, obs.features, link, obs.outOfStock, None);
      }
    } else if existing.Some? && !existing.value.outOfStock {
      var e := existing.value;
      if send && Truthy(e.messageId) {
        var _ := EditOrSkip(tracker, key, editOutcome(key));
        edits := [key];
      }
      tracker.UpdateProduct(key, e.price, e.features, link, obs.outOfStock, e.messageId);
    } else if existing.None? {
      tracker.UpdateProduct(key, obs.price, obs.features, link, obs.outOfStock, None);
    }
  }

  lemma SweepEditsMember(inv: Inventory, source: string, current: set<string>, send: bool, k: string)
    ensures k in SweepEdits(inv, source, current, send) <==>
              IsSweepTarget(inv, source, current, k) && send && Truthy(inv[k].messageId)
  {
  }

  /** The inventory partway through the sweep loop, the keys in `remaining` not yet visited. */
  ghost function PartialSweep(inv: Inventory, source: string, current: set<string>, link: string,
                              remaining: set<string>): Inventory
  {
    map k | k in inv :: if k in remaining then inv[k] else SweptAt(inv, source, current, link, k)
  }

  /** Visiting one key rewrites it sold out exactly when it is a target, keeping its message id. */
  lemma PartialSweepStep(inv: Inventory, source: string, current: set<string>, link: string,
                         remaining: set<string>, k: string)
    requires k in remaining && remaining <= inv.Keys
    ensures var p := PartialSweep(inv, source, current, link, remaining);
      PartialSweep(inv, source, current, link, remaining - {k}) ==
        if IsSweepTarget(inv, source, current, k)
        then Updated(p, k, inv[k].price, inv[k].features, link, true, inv[k].messageId)
        else p
  {
    var p := PartialSweep(inv, source, current, link, remaining);
    var q := PartialSweep(inv, source, current, link, remaining - {k});
    assert p[k] == inv[k];
    if IsSweepTarget(inv, source, current, k) {
      var u := Updated(p, k, inv[k].price, inv[k].features, link, true, inv[k].messageId);
      assert u[k] == SweptAt(inv, source, current, link, k);
      assert q == u;
    } else {
      assert q == p;
    }
  }

  /** Visiting one key adds it to the edits exactly when it is an edit target, and never twice. */
  lemma EditsStep(targets: set<string>, remaining: set<string>, k: string, edits: seq<string>)
    requires k in remaining
    requires (set x | x in edits) == targets - remaining
    requires Distinct(edits)
    ensures var next := if k in targets then edits + [k] else edits;
      (set x | x in next) == targets - (remaining - {k}) && Distinct(next)
  {
    if k in targets {
      var next := edits + [k];
      assert (set x | x in next) == (set x | x in edits) + {k};
      assert k !in edits;
    }
  }

  /**
    The sweep loop's invariant with the keys in `remaining` not yet
    visited: the dictionary is the partial sweep, the edits are the edit
    targets visited, each once, and `writes` saves have been made, one per
    target visited and one per edit that found its message gone.
  */
  ghost predicate SweepProgress(before: Inventory, source: string, current: set<string>, link: string, send: bool,
                                editOutcome: string -> EditOutcome, remaining: set<string>, inv: Inventory,
                                edits: seq<string>, writes: int)
  {
    && remaining <= before.Keys
    && inv == PartialSweep(before, source, current, link, remaining)
    && (set x | x in edits) == SweepEdits(before, source, current, send) - remaining
    && Distinct(edits)
    && writes == |SweepTargets(before, source, current) - remaining| + Rewrites(edits, editOutcome)
  }

  /** One visit of `k`, as `SweepKey` describes it, keeps the loop's invariant. */
  lemma SweepProgressStep(before: Inventory, source: string, current: set<string>, link: string, send: bool,
                          editOutcome: string -> EditOutcome, remaining: set<string>, inv: Inventory,
                          edits: seq<string>, writes: int, k: string, edited: bool, inv2: Inventory, writes2: int)
    requires SweepProgress(before, source, current, link, send, editOutcome, remaining, inv, edits, writes)
    requires k in remaining
    requires inv2 == (if IsSweepTarget(inv, source, current, k)
                      then Updated(inv, k, inv[k].price, inv[k].features, link, true, inv[k].messageId) else inv)
    requires edited == (IsSweepTarget(inv, source, current, k) && send && Truthy(inv[k].messageId))
    requires writes2 == writes + (if IsSweepTarget(inv, source, current, k) then 1 else 0)
                       + (if edited && editOutcome(k) == MessageIdInvalid then 1 else 0)
    ensures SweepProgress(before, source, current, link, send, editOutcome, remaining - {k}, inv2,
                          if edited then edits + [k] else edits, writes2)
  {
    var swept := SweepTargets(before, source, current);
    assert inv[k] == before[k];
    assert IsSweepTarget(inv, source, current, k) == (k in swept);
    SweepEditsMember(before, source, current, send, k);
    EditsStep(SweepEdits(before, source, current, send), remaining, k, edits);
    PartialSweepStep(before, source, current, link, remaining, k);
    TargetsStep(swept, remaining, k);
    RewritesAppend(edits, k, edited, editOutcome);
  }

  /**
    The sweep loop: every in-stock record of `source` whose key was not
    seen in this call has its message edited (when notifications are on
    and it has a message id) and is rewritten sold out.
  */
  method SweepSource(tracker: ProductTracker, source: string, current: set<string>, link: string,
                     send: bool, editOutcome: string -> EditOutcome)
    returns (edits: seq<string>)
    modifies tracker
    ensures tracker.inventory == Sweep(old(tracker.inventory), source, current, link)
    ensures (set k | k in edits) == SweepEdits(old(tracker.inventory), source, current, send)
    ensures Distinct(edits)
    ensures |tracker.written| ==
              |old(tracker.written)| + |SweepTargets(old(tracker.inventory), source, current)| + Rewrites(edits, editOutcome)
    ensures WrittenThrough(old(tracker.written), old(tracker.inventory), tracker.written, tracker.inventory)
  {
    ghost var before, w0 := tracker.inventory, tracker.written;
    edits := [];
    var remaining := tracker.inventory.Keys;
    SweepProgressStart(before, source, current, link, send, editOutcome);
    while remaining != {}
      invariant SweepProgress(before, source, current, link, send, editOutcome, remaining,
                              tracker.inventory, edits, |tracker.written| - |w0|)
      invariant WrittenThrough(w0, before, tracker.written, tracker.inventory)
      decreases remaining
    {
      var k :| k in remaining;
      ghost var w1, inv1 := tracker.written, tracker.inventory;
      assert k in inv1;
      var edited := SweepKey(tracker, source, current, link, send, editOutcome, k);
      SweepProgressStep(before, source, current, link, send, editOutcome, remaining, inv1, edits,
                        |w1| - |w0|, k, edited, tracker.inventory, |tracker.written| - |w0|);
      if edited {
        edits := edits + [k];
      }
      remaining := remaining - {k};
      WrittenThroughTrans(w0, before, w1, inv1, tracker.written, tracker.inventory);
    }
    SweepProgressDone(before, source, current, link, send, editOutcome, tracker.inventory, edits,
                      |tracker.written| - |w0|);
  }

  /** Before the first visit nothing is swept, edited or written. */
  lemma SweepProgressStart(before: Inventory, source: string, current: set<string>, link: string, send: bool,
                           editOutcome: string -> EditOutcome)
    ensures SweepProgress(before, source, current, link, send, editOutcome, before.Keys, before, [], 0)
  {
    assert SweepTargets(before, source, current) - before.Keys == {};
    assert before == PartialSweep(before, source, current, link, before.Keys);
  }

  /** Once every key is visited the dictionary is the sweep's and every target is counted. */
  lemma SweepProgressDone(before: Inventory, source: string, current: set<string>, link: string, send: bool,
                          editOutcome: string -> EditOutcome, inv: Inventory, edits: seq<string>, writes: int)
    requires SweepProgress(before, source, current, link, send, editOutcome, {}, inv, edits, writes)
    ensures inv == Sweep(before, source, current, link)
    ensures (set k | k in edits) == SweepEdits(before, source, current, send)
    ensures Distinct(edits)
    ensures writes == |SweepTargets(before, source, current)| + Rewrites(edits, editOutcome)
  {
    assert SweepTargets(before, source, current) - {} == SweepTargets(before, source, current);
  }

  /**
    One visit of the sweep loop: a target's message is edited, when
    notifications are on and it has a message id, and its record is
    rewritten sold out with the new link; any other key is left alone.
    Returns whether the message was edited.
  */
  method SweepKey(tracker: ProductTracker, source: string, current: set<string>, link: string,
                  send: bool, editOutcome: string -> EditOutcome, k: string)
    returns (edited: bool)
    requires k in tracker.inventory
    modifies tracker
    ensures var inv := old(tracker.inventory);
      var target := IsSweepTarget(inv, source, current, k);
      && tracker.inventory ==
           (if target then Updated(inv, k, inv[k].price, inv[k].features, link, true, inv[k].messageId) else inv)
      && edited == (target && send && Truthy(inv[k].messageId))
      && |tracker.written| == |old(tracker.written)| + (if target then 1 else 0)
                              + (if edited && editOutcome(k) == MessageIdInvalid then 1 else 0)
    ensures WrittenThrough(old(tracker.written), old(tracker.inventory), tracker.written, tracker.inventory)
  {
    edited := false;
    if IsPrefix(source + KeyDelimiter, k) && k !in current {
      var e := tracker.GetProduct(k).value;
      if !e.outOfStock {
        if send && Truthy(e.messageId) {
          var _ := EditOrSkip(tracker, k, editOutcome(k));
          edited := true;
        }
        tracker.UpdateProduct(k, e.price, e.features, link, true, e.messageId);
      }
    }
  }

  /** Visiting one key adds one to the count of targets visited exactly when it is a target. */
  lemma TargetsStep(targets: set<string>, remaining: set<string>, k: string)
    requires k in remaining
    ensures |targets - (remaining - {k})| == |targets - remaining| + (if k in targets then 1 else 0)
  {
    if k in targets {
      assert targets - (remaining - {k}) == (targets - remaining) + {k};
    } else {
      assert targets - (remaining - {k}) == targets - remaining;
    }
  }

  /**
    `fetch_and_parse_products(url, send_notifications)` after the fetch:
    `sendResult` is what sending the notice returns and `editOutcome`
    what the chat service answers to the edit of each key's message.
    Returns the notice sent, if any, and the keys edited, in order; every
    change is written through to the products file.
  */
  method FetchAndParseProducts(tracker: ProductTracker, url: string, fetched: Fetch, send: bool,
                               sendResult: Option<int>, editOutcome: string -> EditOutcome)
    returns (sent: Option<Notice>, edits: seq<string>)
    modifies tracker
    ensures var o := Process(old(tracker.inventory), url, fetched, send, sendResult);
      && tracker.inventory == o.inventory
      && sent == o.sent
      && (set k | k in edits) == o.edits
    ensures Distinct(edits)
    ensures WrittenThrough(old(tracker.written), old(tracker.inventory), tracker.written, tracker.inventory)
    ensures |tracker.written| ==
              |old(tracker.written)| + ProcessWrites(old(tracker.inventory), url, fetched, send, sendResult)
              + Rewrites(edits, editOutcome)
    ensures Silent(old(tracker.inventory), url, fetched) ==> tracker.written == old(tracker.written) && edits == []
  {
    sent, edits := None, [];
    var source := url;
    var fullLink := AffiliateLink(url);
    if fetched.Skipped? {
      return;
    }
    var observed := Observe(url, fetched.page);
    if observed.None? {
      return;
    }
    sent, edits := ReconcileObservation(tracker, source, fullLink, observed.value, send, sendResult, editOutcome);
  }

  /**
    The decision, the write for the observed key and the sweep, for one
    observation of `source`, as `Step` describes them.
  */
  method ReconcileObservation(tracker: ProductTracker, source: string, fullLink: string, obs: Observation,
                              send: bool, sendResult: Option<int>, editOutcome: string -> EditOutcome)
    returns (sent: Option<Notice>, edits: seq<string>)
    requires fullLink == AffiliateLink(source)
    modifies tracker
    ensures var o := Step(old(tracker.inventory), source, obs, send, sendResult);
      && tracker.inventory == o.inventory
      && sent == o.sent
      && (set k | k in edits) == o.edits
    ensures Distinct(edits)
    ensures WrittenThrough(old(tracker.written), old(tracker.inventory), tracker.written, tracker.inventory)
    ensures |tracker.written| ==
              |old(tracker.written)| + StepWrites(old(tracker.inventory), source, obs, send, sendResult)
              + Rewrites(edits, editOutcome)
    ensures Decide(Lookup(old(tracker.inventory), MakeProductKey(source, obs.name)), obs) == Unchanged ==>
              tracker.written == old(tracker.written) && edits == []
  {
    sent, edits := None, [];
    var key := MakeProductKey(source, obs.name);
    var current: set<string> := {key};
    var existing := tracker.GetProduct(key);
    if !obs.outOfStock && existing.Some? && !existing.value.outOfStock
       && existing.value.price == obs.price && existing.value.features == obs.features {
      return;
    }
    ghost var inv0, w0 := tracker.inventory, tracker.written;
    var first;
    sent, first := ObserveKey(tracker, key, obs, fullLink, send, sendResult, editOutcome);
    ghost var inv1, w1 := tracker.inventory, tracker.written;
    var swept := SweepSource(tracker, source, current, fullLink, send, editOutcome);
    WrittenThroughTrans(w0, inv0, w1, inv1, tracker.written, tracker.inventory);
    StepParts(inv0, source, obs, send, sendResult, inv1, tracker.inventory, sent, first, swept,
              |w0|, |w1|, |tracker.written|, editOutcome);
    edits := first + swept;
  }

  /**
    The branch for the observed key followed by the sweep of the
    dictionary it leaves is `Step`: the dictionary, the notice, the edited
    keys, each once, and the saves, one per `update_product` and one per
    edit that found its message gone.
  */
  lemma StepParts(inv: Inventory, source: string, obs: Observation, send: bool, sendResult: Option<int>,
                  inv1: Inventory, inv2: Inventory, sent: Option<Notice>, first: seq<string>, rest: seq<string>,
                  n0: int, n1: int, n2: int, editOutcome: string -> EditOutcome)
    requires var key := MakeProductKey(source, obs.name);
      var existing := Lookup(inv, key);
      var d := Decide(existing, obs);
      var link := AffiliateLink(source);
      && d != Unchanged
      && inv1 == Apply(inv, key, d, obs, link, if send then sendResult else None)
      && sent == (if send && d == Restock then Some(RestockNotice)
                  else if send && d == NewListing then Some(NewListingNotice)
                  else None)
      && first == (if d == Delist && send && Truthy(existing.value.messageId) then [key] else [])
      && n1 == n0 + (if d == AlreadyOut then 0 else 1) + Rewrites(first, editOutcome)
      && inv2 == Sweep(inv1, source, {key}, link)
      && (set k | k in rest) == SweepEdits(inv1, source, {key}, send)
      && Distinct(rest)
      && n2 == n1 + |SweepTargets(inv1, source, {key})| + Rewrites(rest, editOutcome)
    ensures var o := Step(inv, source, obs, send, sendResult);
      && inv2 == o.inventory
      && sent == o.sent
      && (set k | k in first + rest) == o.edits
      && Distinct(first + rest)
      && n2 == n0 + StepWrites(inv, source, obs, send, sendResult) + Rewrites(first + rest, editOutcome)
  {
    var key := MakeProductKey(source, obs.name);
    StepUnfold(inv, source, obs, send, sendResult);
    assert key !in SweepEdits(inv1, source, {key}, send);
    assert (set k | k in first) == (if |first| == 1 then {key} else {});
    ConcatEdits(first, rest);
    RewritesConcat(first, rest, editOutcome);
  }

  /** `Step` and `StepWrites` past the silent return, spelled out. */
  lemma StepUnfold(inv: Inventory, source: string, obs: Observation, send: bool, sendResult: Option<int>)
    requires Decide(Lookup(inv, MakeProductKey(source, obs.name)), obs) != Unchanged
    ensures var key := MakeProductKey(source, obs.name);
      var existing := Lookup(inv, key);
      var d := Decide(existing, obs);
      var link := AffiliateLink(source);
      var before := Apply(inv, key, d, obs, link, if send then sendResult else None);
      && Step(inv, source, obs, send, sendResult) ==
           Outcome(Sweep(before, source, {key}, link),
                   if send && d == Restock then Some(RestockNotice)
                   else if send && d == NewListing then Some(NewListingNotice)
                   else None,
                   (if d == Delist && send && Truthy(existing.value.messageId) then {key} else {})
                   + SweepEdits(before, source, {key}, send))
      && StepWrites(inv, source, obs, send, sendResult) ==
           (if d == AlreadyOut then 0 else 1) + |SweepTargets(before, source, {key})|
  {
  }

  /** Edits of the observed key followed by the sweep's edits, which never include it. */
  lemma ConcatEdits(first: seq<string>, rest: seq<string>)
    requires |first| <= 1 && Distinct(rest)
    requires forall k :: k in first ==> k !in rest
    ensures (set k | k in first + rest) == (set k | k in first) + (set k | k in rest)
    ensures Distinct(first + rest)
  {
    var s := first + rest;
    forall i, j | 0 <= i < j < |s|
      ensures s[i] != s[j]
    {
      if i < |first| {
        assert s[i] in first && s[j] == rest[j - |first|];
      } else {
        assert s[i] == rest[i - |first|] && s[j] == rest[j - |first|];
      }
    }
  }
}
