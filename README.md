# Stock monitor reconciliation, modelled in Dafny

`monitor.py` watches BandwagonHost product pages and reports to a Telegram
chat. Once a page is fetched it runs a small inventory-reconciliation engine,
and that engine is what this project models and proves things about:

- **ProductTracker** (`tracker.dfy`, module `Tracker`). The products are a
  dictionary from `source::name` keys to records (price, features, link,
  sold-out flag, optional message id). It is a class with an `inventory` map.
  The file persistence is a `written` list of snapshots: `update_product`
  appends one after each write. `edit_or_skip_message` is a method over the
  chat service's answer, given as an `EditOutcome` enum.
- **Reconciliation** (`reconcile.dfy`, module `Reconcile`). This covers:
  - the observation taken from a page (sold-out box, product box, billing
    cycle and HTML comments as inputs);
  - the decision between a restock notice, a new-listing notice, the silent
    return, the delist edit and the placeholder record;
  - the sweep that marks every other in-stock product of the same source sold
    out.

  `FetchAndParseProducts` is the imperative method. The branch for the
  observed key (`ObserveKey`) and the sweep loop over the stored keys
  (`SweepSource`) are proved against the pure `Step`/`Apply`/`Sweep`
  functions, and the lemmas are about those functions.
- **String logic** (`listing.dfy`, module `Listing`, over `strings.dfy`,
  module `Strings`). Covered: product keys and the display name recovered
  from a key, the affiliate-link rewrite, name normalisation, the feature-line
  filter, the `pid=` name of a sold-out page and `extract_promo_code`.
  `Strings` writes out the Python `str` operations these use, with Python's
  semantics: `in`, `startswith`, leftmost non-overlapping `replace`, `split`
  on a separator, `join`, `strip` with Python's white-space set, `rstrip` of a
  character set and `lower`.
- **Message choices** (`message.dfy`, module `Message`). These are the header
  line and the purchase-link line of `build_product_message`.
- **Rounds** (`schedule.dfy`, module `Schedule`). This is the
  `periodic_task` round state machine: reload on a changed modification time,
  keep the old list on a failed reload, and notifications off only in the
  first round.

The model follows these behaviours of the code:

- A record has a single `message_id`, not one handle per chat.
- A vanished message (`Message_id_invalid`) does not lose its id.
  `edit_or_skip_message` calls `update_product(..., message_id=None)`, and
  `update_product` then carries the old id forward
  (`Tracker.AfterEditKeepsInventory`).
- The in-stock decision checks "stored record sold out" before comparing
  price and features. A restock notice is therefore sent even when nothing
  else changed (`Reconcile.DecideInStock`).
- A sold-out page is keyed under a synthetic name (`商品 PID n` or `未知商品`).
  It usually does not hit the in-stock record's key, so the real delisting
  happens in the sweep (`Reconcile.StepLeavesOneInStock`).

The display name `key.split("::", 1)[1]` gives back the product name whenever
`source + ":"` contains no `"::"` (`Listing.DisplayNameOfKey`). A source
without `"::"` is not enough on its own: a source ending in `:` yields a name
with a leading `:` (`Listing.DisplayNameOfColonSource`). The display name only
appears in message text.

The sweep selects keys by the prefix `source::` alone, so it also reaches
other sources that begin with `source::`. A call for source `u` marks the
products of source `u::v` sold out, because their keys `u::v::name` start
with `u::` (`Reconcile.NestedSourceSwept`). The code behaves the same way.

Every `update_product` saves the file, and so does `edit_or_skip_message`
when it rewrites a record whose message has vanished. The methods count
those saves exactly. A call that returns before the decision, or takes the
silent return, saves nothing; every write of the dictionary ends in a save
of the new state.

## Model

| member | source | states |
|---|---|---|
| Strings.SplitCount | monitor.py:137-138 | `s.split(sep)` has more than one part exactly when `sep` occurs in `s` |
| Strings.SplitJoin | monitor.py:316-321 | splitting a join of separator-free parts on a border-free separator gives the parts back |
| Strings.StripSpec | monitor.py:309 | `strip()` returns a slice of the input with only white space cut on either side, and the result has no white space at either end |
| Strings.StripIdempotent | monitor.py:318 | stripping twice is stripping once |
| Listing.DisplayNameDefined | monitor.py:354-357 | every key the sweep visits starts with `source::`, so `split("::", 1)[1]` always exists |
| Listing.MakeProductKey | monitor.py:130-131 | `make_product_key`: the source, `::` and the name; `Listing.DisplayNameOfKey` recovers the name from it |
| Listing.DisplayName | monitor.py:357 | `key.split("::", 1)[1]`, absent when the key has no `::`; see `Listing.DisplayNameDefined` and `Listing.DisplayNameOfKey` |
| Listing.DisplayNameOfKey | monitor.py:130-131 | the display name of `make_product_key(source, name)` is `name` when `source + ":"` holds no `"::"` |
| Listing.DisplayNameOfColonSource | monitor.py:357 | for source `a:` and name `b` the display name is `:b`, not `b` |
| Listing.AffiliateLink | monitor.py:239-241 | the purchase link: every `cart.php?a=add` replaced by the affiliate path, then `aff=55580` appended after `&` or `?` when no `aff=` is present; its properties are the three lemmas below |
| Listing.ReplaceRemovesCartAction | monitor.py:239 | after the `cart.php?a=add` substitution the text no longer contains `cart.php?a=add` |
| Listing.AffiliateLinkHasNoCartAction | monitor.py:239-241 | the purchase link never contains `cart.php?a=add` |
| Listing.AffiliateLinkTagged | monitor.py:239-241 | the purchase link always contains `aff=` |
| Listing.AffiliateLinkIdempotent | monitor.py:239-241 | rewriting a purchase link again returns it unchanged |
| Listing.NormalizeName | monitor.py:309 | the stored name: the plan prefix removed wherever it occurs, then stripped; its properties are the three lemmas below |
| Listing.NormalizeNameStripped | monitor.py:309 | a normalised product name has no white space at either end |
| Listing.NormalizeNameDropsPrefix | monitor.py:309 | the `Basic VPS - Self-managed - ` prefix is removed and the rest stripped |
| Listing.NormalizeNameOfClean | monitor.py:309 | a stripped name without the prefix is kept as it is |
| Listing.FeatureSignature | monitor.py:314-321 | the feature text: the product text with the raw name removed, split on `<br />`, filtered to the allowed lines and joined, or `配置未知`; see `Listing.FeatureSignatureSpec` |
| Listing.FilterLines | monitor.py:317-320 | every kept line is an input line stripped and starts with an allowed feature; every input line whose stripped form is allowed is kept |
| Listing.FeatureLinesHaveNoBreak | monitor.py:316-320 | no kept feature line contains `<br />` |
| Listing.FeatureSignatureSpec | monitor.py:314-321 | the features are `配置未知` exactly when no line was kept; otherwise splitting them on `<br />` gives the kept lines back, each starting with an allowed feature |
| Listing.PidSearchSpec | monitor.py:296 | the scan for `pid=` followed by a digit finds the leftmost such place at or after its start, or reports there is none |
| Listing.PidDigitsSpec | monitor.py:296-298 | `re.search(r'pid=(\d+)')` fails exactly when no `pid=` is followed by a digit; otherwise it yields the maximal digit run after the leftmost match, non-empty and all digits |
| Listing.OutOfStockName | monitor.py:294-297 | the name of a sold-out page: `商品 PID ` and the `pid=` digits of the URL, or `未知商品`; see `Reconcile.ObserveSpec` |
| Listing.PromoInSpec | monitor.py:136-140 | as written, a comment yields a code exactly when it contains `promo code:` in that exact case, and the code is stripped |
| Listing.CapitalisedMarkerYieldsNothing | monitor.py:136-138 | a comment `Promo Code:…` passes the lowered test but yields no code |
| Listing.FirstCodeSpec | monitor.py:135-141 | the scan over comments yields a code exactly when some comment does, and then the first such comment's code |
| Listing.ExtractPromoCode | monitor.py:133-141 | `extract_promo_code` as written: the code of the first comment that yields one; see `Listing.ExtractPromoCodeSpec` |
| Listing.ExtractPromoCodeSpec | monitor.py:133-141 | as written, `extract_promo_code` finds a code exactly when some comment contains the exact-case marker, and returns the first such comment's code |
| Listing.PromoInCaselessSpec | monitor.py:136-140 | corrected: a comment yields a code exactly when its lowered text contains `promo code:`, and the code is stripped |
| Listing.PromoInCaselessOfLowered | monitor.py:136-140 | on a comment already in lower case the corrected extraction agrees with the code as written |
| Listing.CapitalisedMarkerCorrected | monitor.py:136-140 | corrected: `Promo Code:` followed by a code yields that code, in its own case, cleaned |
| Listing.ExtractPromoCodeCaselessSpec | monitor.py:133-141 | corrected: a code is found exactly when some comment passes the lowered test, and it is the first such comment's code |
| Listing.ExtractPromoCodeCaselessOfLowered | monitor.py:133-141 | on comments already in lower case the corrected scan returns what `extract_promo_code` returns as written |
| Tracker.UpdatedSpec | monitor.py:106-119 | `update_product` sets exactly the given price, features, link and flag; the message id is the given one, else the previous record's, else absent; every other key is unchanged |
| Tracker.RewriteKeepsInventory | monitor.py:113-118 | rewriting a record with its own values and no message id leaves the dictionary as it was |
| Tracker.Updated | monitor.py:106-118 | the dictionary after `update_product`; see `Tracker.UpdatedSpec` |
| Tracker.AfterEdit | monitor.py:163-194 | the dictionary after `edit_or_skip_message`: rewritten with `message_id=None` only when a stored record with an id finds its message gone; see `Tracker.AfterEditKeepsInventory` |
| Tracker.ProductTracker.constructor | monitor.py:80-97 | the tracker starts from the loaded dictionary, or an empty one when loading fails, with nothing written yet |
| Tracker.ProductTracker.Save | monitor.py:99-104 | saving appends the current dictionary as the latest snapshot and changes nothing else |
| Tracker.ProductTracker.UpdateProduct | monitor.py:106-119 | the dictionary becomes `Updated(old, …)` and that state is written through |
| Tracker.ProductTracker.GetProduct | monitor.py:121-122 | `get` returns the stored record exactly when the key is present |
| Tracker.AfterEditKeepsInventory | monitor.py:163-194 | whatever the chat service answers, the edit leaves the dictionary unchanged, including on `Message_id_invalid` |
| Tracker.EditOrSkip | monitor.py:163-194 | the service is called only for a stored record with a message id; the dictionary is unchanged; a write happens only on `Message_id_invalid` |
| Message.Header | monitor.py:218 | the header line: `✅ prefix - name` with a prefix and in stock, the sold-out header when sold out, else the name; see the two lemmas below |
| Message.HeaderShowsName | monitor.py:218 | every header contains the product name |
| Message.HeadersDistinguishEvents | monitor.py:218 | for one product the restock, new-listing and sold-out headers all differ, and the sold-out header ignores the prefix |
| Message.LinkLine | monitor.py:227-229 | the purchase-link line, absent for an empty link and struck through when sold out; see `Message.LinkLineSpec` |
| Message.LinkLineSpec | monitor.py:227-229 | the link line is present exactly for a non-empty link, shows the link, and strikes it through exactly when sold out |
| Reconcile.Observe | monitor.py:287-321 | the observation of a page: the synthetic name and placeholders when sold out, nothing without a product box, else the normalised name, billing-cycle text and feature text; see `Reconcile.ObserveSpec` |
| Reconcile.ObserveSpec | monitor.py:291-321 | a sold-out page gets the synthetic `pid` name and the placeholders; a page without a product box yields nothing; an in-stock name is stripped and its features are the placeholder only when no line was kept |
| Reconcile.ObservePromoCode | monitor.py:133-141 | the observation's promo code is the corrected extraction's, and equals `extract_promo_code` as written when every comment is in lower case |
| Reconcile.Decide | monitor.py:327-351 | the branch taken for the stored record of the observed key; see `Reconcile.DecideInStock` and `Reconcile.DecideOutOfStock` |
| Reconcile.DecideInStock | monitor.py:327-335 | in stock: a sold-out record means restock whatever its price; a missing or changed record means new listing; an unchanged one means the silent return |
| Reconcile.DecideOutOfStock | monitor.py:343-351 | sold out: an in-stock record is delisted, a missing one gets a placeholder, a sold-out one is left alone |
| Reconcile.Apply | monitor.py:337-351 | the dictionary after the branch for the observed key: the `update_product` of each branch, and none for the silent return or an already sold-out record |
| Reconcile.Sweep | monitor.py:353-370 | the dictionary after the sweep; see `Reconcile.SweepSpec` |
| Reconcile.SweepEdits | monitor.py:356-362 | the keys whose messages the sweep edits: targets with a truthy message id, when notifications are on |
| Reconcile.SweepTargets | monitor.py:353-370 | the keys the sweep rewrites sold out, one `update_product` each |
| Reconcile.SweepSpec | monitor.py:353-370 | exactly the in-stock keys of the source not seen in this call become sold out with the new link, keeping price, features and message id; all other records are unchanged |
| Reconcile.SweepIdempotent | monitor.py:353-370 | after a sweep no target is left, a second sweep changes nothing and edits nothing |
| Reconcile.Step | monitor.py:323-370 | one call on an observation: the branch for the observed key, then the sweep, unless the silent return is taken; see the lemmas below |
| Reconcile.Process | monitor.py:236-370 | a whole call: nothing for a skipped fetch or a page without a product box, else `Step` |
| Reconcile.StepWrites | monitor.py:323-370 | the number of `update_product` calls of one call: none on the silent return, one for the observed key unless it is already sold out, one per sweep target |
| Reconcile.ProcessWrites | monitor.py:236-370 | the number of `update_product` calls of a whole call; see `Reconcile.ProcessWritesSpec` |
| Reconcile.ProcessWritesSpec | monitor.py:236-370 | a call that writes no time leaves the dictionary as it was; a skipped fetch, a page without a product box and the silent return write nothing, send nothing and edit nothing; every other branch except an already sold-out record writes |
| Reconcile.StepObservedKey | monitor.py:323-351 | the observed key's record and the notice sent in each branch; its message is edited exactly for a delisted in-stock record with a truthy id, when notifications are on |
| Reconcile.StepSilentWithoutNotifications | monitor.py:337-348 | a call without notifications sends nothing and edits nothing |
| Reconcile.StepFrame | monitor.py:323-370 | records whose keys do not start with `source::` are untouched, none is removed, and only the observed key can be added |
| Reconcile.StepLeavesOneInStock | monitor.py:353-370 | after any call past the silent return, every other key of the source is sold out |
| Reconcile.NestedSourceSwept | monitor.py:353-370 | a call for `source` past the silent return marks sold out every product of a source `source::inner`, whose key also starts with `source::` |
| Reconcile.StepIdempotent | monitor.py:327-370 | processing the same observation again, with any notification flag and send result, changes nothing, sends nothing, edits nothing and runs `update_product` no time |
| Reconcile.RestockRoundTrip | monitor.py:328-339 | a sold-out record seen in stock at the same price gets a restock notice and is stored in stock |
| Reconcile.FirstSeenSoldOut | monitor.py:294-300 | a product first seen sold out gets a placeholder record with no message id and no chat traffic |
| Reconcile.ObserveKey | monitor.py:327-351 | the branch for the observed key leaves `Apply` of the decision, sends the notice of the decision and edits as the decision says; it saves once for its `update_product`, none for an already sold-out record, and once more for an edit that finds the message gone; the last save is the final dictionary |
| Reconcile.SweepKey | monitor.py:354-370 | one visit of the sweep loop: a target's message is edited when notifications are on and it has a truthy id, and its record is rewritten sold out with the new link; a non-target is untouched; the saves are counted |
| Reconcile.SweepSource | monitor.py:353-370 | the sweep loop leaves `Sweep` of the dictionary and edits exactly the sweep's edit targets, once each; it saves once per target and once per edit that finds the message gone, and the last save is the final dictionary |
| Reconcile.Rewrites | monitor.py:179-187 | the number of edited keys whose edit finds the message gone, each of which makes `edit_or_skip_message` save the file |
| Reconcile.ReconcileObservation | monitor.py:323-370 | for one observation the dictionary, the notice and the set of edited keys are those of `Step`, and no key is edited twice; the number of saves is `StepWrites` plus the edits that find the message gone; the silent return saves nothing and edits nothing; the last save is the final dictionary |
| Reconcile.FetchAndParseProducts | monitor.py:236-370 | after the fetch the dictionary, the notice and the set of edited keys are those of `Process`, and no key is edited twice; the number of saves is `ProcessWrites` plus the edits that find the message gone; a skipped fetch, a page without a product box and the silent return save nothing; the last save is the final dictionary |
| Schedule.LoadConfigSpec | monitor.py:50-58 | a configuration loads exactly when it parses and holds a non-empty list of URLs, which is returned as it is |
| Schedule.LoadConfig | monitor.py:50-58 | `load_config`: the list under `monitor_urls` when it is a non-empty list, else the error raised; see `Schedule.LoadConfigSpec` |
| Schedule.Reloaded | monitor.py:382-390 | the reload at the top of a round; see `Schedule.ReloadedSpec` and `Schedule.FailedReloadRetried` |
| Schedule.ReloadedSpec | monitor.py:382-390 | a reload never leaves the loop without URLs, takes the new list and time together or neither, and is not repeated for the same time |
| Schedule.FailedReloadRetried | monitor.py:383-390 | a failed reload does not advance the time, so the next round with the same time tries again |
| Schedule.Scheduler.constructor | monitor.py:376-378 | the loop starts with the startup time and list, in its first round |
| Schedule.Scheduler.Round | monitor.py:381-403 | the reload as `Reloaded` says; notifications are on exactly when it is not the first round; afterwards it is no longer the first round |
| Schedule.Run | monitor.py:381-403 | over any sequence of rounds the first runs without notifications, every later one with them, and none has an empty URL list |

## Findings

| source | as written | input that shows it | evidently intended | confidence | as-written member | corrected member |
|---|---|---|---|---|---|---|
| monitor.py:136-137 | the marker is tested on `comment.lower()` but the comment is split on the lower-case marker without lowering | the comment `Promo Code: ABC` | the code `ABC`, matched without regard to case, as the lowered test implies | medium, not executed | Listing.CapitalisedMarkerYieldsNothing | Listing.CapitalisedMarkerCorrected |

The observation (`Reconcile.Observe`) uses the corrected extraction,
`Listing.ExtractPromoCodeCaseless`. The code as written stays modelled as
`Listing.ExtractPromoCode`. The two agree on comments in lower case
(`Reconcile.ObservePromoCode`). The promo code only appears in message text;
none of the stored state depends on it.

## Left out

- HTTP fetching is left out: the session, TLS, status codes, redirects, the
  title checks and the retry loop (monitor.py:243-285). The fetch is an input,
  `Fetch = Skipped | Fetched(page)`.
- HTML parsing is left out: BeautifulSoup and `get_text`. The page is given as
  the parts the core reads: the sold-out box flag, the product box's
  `strong` text and whole text, the billing-cycle text and the comments.
- The Telegram calls are left out. A send result is an `Option<int>` message
  id. An edit's result is the `EditOutcome` enum, chosen per key by a given
  function. The retry loop of `send_telegram_message` is not modelled.
- JSON file I/O is left out: reading and writing `products.json` and
  `config.json`, and the file's modification time. Loading is the
  constructor's `Option<Inventory>` argument. Saving is a snapshot
  appended to `written`. A failed save is not modelled. The modification
  time is an `Option<int>`, compared only for equality.
- Concurrency and pacing are left out: `asyncio.gather` over the round's URLs,
  the semaphore and the random delays and sleeps. A round yields its URL
  list and notification flag. The calls for the URLs are not composed into
  one round.
- The text of `build_product_message` is left out: the price regex, the
  feature translation and the line layout. Only the header and link-line
  choices are modelled.
- `Strings.Lower` lower-cases ASCII letters only. For the test against the
  lower-case marker this is the same as Python's `lower()`, except for the
  few non-ASCII characters whose lower case contains ASCII letters, which are
  not modelled.
- `Listing.PidDigits` takes `\d` as the ASCII digits. Python's `\d` also
  matches other Unicode decimal digits.
- Records are always complete ones. A record loaded from the file without a
  `price`, `features`, `link` or `out_of_stock` entry, and a stored
  `message_id` of `null`, are not modelled.
- Dictionary order is not modelled. The sweep visits the keys in an
  unspecified order; it edits the same set of messages in any order.
- Logging is left out.
- Reconcile.Observe: the promo code comes from the corrected, case-blind
  extraction, not from `extract_promo_code` as written (monitor.py:287). For a
  comment such as `Promo Code: ABC` the model yields `ABC` where the code
  yields nothing. Only message text reads the promo code.
- The order of the saves is not modelled beyond their number and the last
  one. The intermediate snapshots are not compared with the dictionary at
  each `update_product`.
- Schedule.Scheduler.constructor: a configuration that fails to load at
  startup makes the program stop. The model requires a loadable one.
