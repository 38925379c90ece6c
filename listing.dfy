/**
  The string logic of the monitor: product keys, the affiliate purchase
  link, the product-name and feature normalisation of an in-stock page,
  the synthetic name of an out-of-stock page and the promo code found in
  the page's HTML comments.
*/
module Listing {
  import opened Wrappers
  import opened Strings

  // ---------------------------------------------------------------------
  // Product keys
  // ---------------------------------------------------------------------

  const KeyDelimiter: string := "::"

  /** `make_product_key`: the key a product of `source` is stored under. */
  function MakeProductKey(source: string, name: string): string
  {
    source + KeyDelimiter + name
  }

  /** `s.split(sep, 1)[1]`, or None when `sep` does not occur (where Python raises). */
  function AfterFirst(s: string, sep: string): Option<string>
    requires sep != []
    decreases |s|
  {
    if s == [] then None
    else if IsPrefix(sep, s) then Some(s[|sep|..])
    else AfterFirst(s[1..], sep)
  }

  /** The display name the sweep derives from a stored key. */
  function DisplayName(key: string): Option<string>
  {
    AfterFirst(key, KeyDelimiter)
  }

  /** Every key the sweep selects for a source has a display name. */
  lemma {:induction false} DisplayNameDefined(source: string, key: string)
    requires IsPrefix(source + KeyDelimiter, key)
    ensures DisplayName(key).Some?
  {
    AfterFirstDefined(key, source);
  }

  lemma {:induction false} AfterFirstDefined(s: string, a: string)
    requires IsPrefix(a + KeyDelimiter, s)
    ensures AfterFirst(s, KeyDelimiter).Some?
    decreases |a|
  {
    if !IsPrefix(KeyDelimiter, s) {
      assert a != [] by {
        assert s[..2] == (a + KeyDelimiter)[..2];
      }
      assert (a + KeyDelimiter)[1..] == a[1..] + KeyDelimiter;
      assert s[1..][..|a[1..] + KeyDelimiter|] == s[..|a + KeyDelimiter|][1..];
      AfterFirstDefined(s[1..], a[1..]);
    }
  }

  /**
    The display name of a key is the product name it was made from,
    provided that `source + ":"` contains no "::" (a source ending in
    ':' does not qualify: see DisplayNameOfColonSource).
  */
  lemma {:induction false} DisplayNameOfKey(source: string, name: string)
    requires !Occurs(source + ":", KeyDelimiter)
    ensures DisplayName(MakeProductKey(source, name)) == Some(name)
    decreases |source|
  {
    var s := MakeProductKey(source, name);
    if source == [] {
      assert s[..2] == KeyDelimiter;
      assert s[2..] == name;
    } else {
      var a := source + ":";
      OccursCons(a, KeyDelimiter);
      assert a[1..] == source[1..] + ":";
      assert !IsPrefix(KeyDelimiter, s) by {
        assert s[..2] == a[..2];
      }
      assert s[1..] == MakeProductKey(source[1..], name);
      DisplayNameOfKey(source[1..], name);
    }
  }

  /** A source ending in ':' gives the sweep a display name that is not the product's name. */
  lemma DisplayNameOfColonSource()
    ensures DisplayName(MakeProductKey("a:", "b")) == Some(":b")
  {
    var s := MakeProductKey("a:", "b");
    assert s == "a:::b";
    assert s[..2][0] == 'a';
    assert !IsPrefix(KeyDelimiter, s);
    assert s[1..] == ":::b";
    assert IsPrefix(KeyDelimiter, s[1..]);
    assert s[1..][2..] == ":b";
  }

  // ---------------------------------------------------------------------
  // Affiliate link
  // ---------------------------------------------------------------------

  const CartAction: string := "cart.php?a=add"
  const AffiliatePath: string := "aff.php?aff=55580"
  const AffiliateParam: string := "aff=55580"
  const AffiliateMarker: string := "aff="

  /** The purchase link of a monitored URL, carrying the affiliate id. */
  function AffiliateLink(url: string): string
  {
    var r := Replace(url, CartAction, AffiliatePath);
    if Occurs(r, AffiliateMarker) then r
    else r + (if '?' in r then "&" else "?") + AffiliateParam
  }

  /** A pattern whose first character is absent from `w` does not appear in `w + x` unless it already appears in `x`. */
  lemma {:induction false} PrependWithoutStart(w: string, x: string, p: string)
    requires p != [] && p[0] !in w && !Occurs(x, p)
    ensures !Occurs(w + x, p)
  {
    if w != [] {
      OccursCons(w + x, p);
      assert !IsPrefix(p, w + x) by {
        if |p| <= |w + x| {
          assert (w + x)[..|p|][0] == w[0];
        }
      }
      assert (w + x)[1..] == w[1..] + x;
      PrependWithoutStart(w[1..], x, p);
    } else {
      assert w + x == x;
    }
  }

  /**
    Appending `y` to a string free of `p` keeps it free of `p` when `y`
    itself is and no proper suffix of `p` begins `y`.
  */
  lemma {:induction false} AppendKeepsAbsent(r: string, y: string, p: string)
    requires p != [] && !Occurs(r, p) && !Occurs(y, p)
    requires forall k :: 0 < k < |p| ==> !IsPrefix(p[k..], y)
    ensures !Occurs(r + y, p)
  {
    if r != [] {
      var s := r + y;
      OccursCons(r, p);
      OccursCons(s, p);
      assert !IsPrefix(p, s) by {
        if |p| <= |r| {
          assert s[..|p|] == r[..|p|];
        } else if |p| <= |s| {
          var k := |r|;
          assert !IsPrefix(p[k..], y);
          assert s[..|p|][k..] == y[..|p| - k];
        }
      }
      assert s[1..] == r[1..] + y;
      AppendKeepsAbsent(r[1..], y, p);
    } else {
      assert r + y == y;
    }
  }

  /**
    If `Replace(t, pat, rep)` begins with `w`, so does `t`, provided that
    `rep` cannot begin at any position of `w`.
  */
  lemma {:induction false} ReplacedPrefix(t: string, pat: string, rep: string, w: string)
    requires pat != [] && |w| <= |rep|
    requires forall j :: 0 <= j < |w| ==> !IsPrefix(w[j..], rep)
    requires w != [] ==> !IsPrefix(w, rep)
    requires IsPrefix(w, Replace(t, pat, rep))
    ensures IsPrefix(w, t)
    decreases |t|
  {
    if w != [] && t != [] {
      if IsPrefix(pat, t) {
        PrefixOfConcat(w, rep, Replace(t[|pat|..], pat, rep));
        assert false;
      } else {
        var x := Replace(t[1..], pat, rep);
        assert Replace(t, pat, rep) == [t[0]] + x;
        assert x[..|w| - 1] == Replace(t, pat, rep)[..|w|][1..];
        forall j | 0 <= j < |w[1..]| ensures !IsPrefix(w[1..][j..], rep) {
          assert w[1..][j..] == w[j + 1..];
        }
        ReplacedPrefix(t[1..], pat, rep, w[1..]);
        assert t[..|w|] == [t[0]] + t[1..][..|w| - 1];
      }
    }
  }

  /** A prefix of `a + b` no longer than `a` is a prefix of `a`. */
  lemma PrefixOfConcat(w: string, a: string, b: string)
    requires |w| <= |a| && IsPrefix(w, a + b)
    ensures IsPrefix(w, a)
  {
    assert (a + b)[..|w|] == a[..|w|];
  }

  /** The affiliate path cannot start inside the tail of the cart action. */
  lemma CartTailAvoidsPath(j: int)
    requires 0 <= j < |CartAction[1..]|
    ensures !IsPrefix(CartAction[1..][j..], AffiliatePath)
  {
    var w := CartAction[1..];
    assert w == "art.php?a=add";
    if w[j] == 'a' {
      assert j == 0 || j == 8 || j == 10;
      assert w[j + 1] != AffiliatePath[1];
    } else {
      assert w[j] != AffiliatePath[0];
    }
  }

  /** `re.sub` of the cart action leaves no cart action behind. */
  lemma {:induction false} ReplaceRemovesCartAction(s: string)
    ensures !Occurs(Replace(s, CartAction, AffiliatePath), CartAction)
    decreases |s|
  {
    var r := Replace(s, CartAction, AffiliatePath);
    if s == [] {
    } else if IsPrefix(CartAction, s) {
      ReplaceRemovesCartAction(s[|CartAction|..]);
      assert 'c' !in AffiliatePath;
      PrependWithoutStart(AffiliatePath, Replace(s[|CartAction|..], CartAction, AffiliatePath), CartAction);
    } else {
      var x := Replace(s[1..], CartAction, AffiliatePath);
      ReplaceRemovesCartAction(s[1..]);
      assert r == [s[0]] + x;
      OccursCons(r, CartAction);
      assert r[1..] == x;
      if IsPrefix(CartAction, r) {
        var w := CartAction[1..];
        assert x[..|w|] == r[..|CartAction|][1..];
        forall j | 0 <= j < |w| ensures !IsPrefix(w[j..], AffiliatePath) {
          CartTailAvoidsPath(j);
        }
        assert !IsPrefix(w, AffiliatePath) by {
          CartTailAvoidsPath(0);
          assert w[0..] == w;
        }
        ReplacedPrefix(s[1..], CartAction, AffiliatePath, w);
        assert false;
      }
    }
  }

  /** The parameter appended to a link without an affiliate id does not complete a cart action. */
  lemma AppendedParamAvoidsCartAction(sep: string)
    requires sep == "&" || sep == "?"
    ensures !Occurs(sep + AffiliateParam, CartAction)
    ensures forall k :: 0 < k < |CartAction| ==> !IsPrefix(CartAction[k..], sep + AffiliateParam)
  {
    var y := sep + AffiliateParam;
    assert 'c' !in y;
    PrependWithoutStart(y, [], CartAction);
    assert y + [] == y;
    forall k | 0 < k < |CartAction| ensures !IsPrefix(CartAction[k..], y) {
      if CartAction[k] == y[0] {
        assert sep == "?" && k == 8;
        assert CartAction[k..][2] != y[2];
      }
    }
  }

  /** The purchase link contains no cart action. */
  lemma AffiliateLinkHasNoCartAction(url: string)
    ensures !Occurs(AffiliateLink(url), CartAction)
  {
    var r := Replace(url, CartAction, AffiliatePath);
    ReplaceRemovesCartAction(url);
    if !Occurs(r, AffiliateMarker) {
      var sep := if '?' in r then "&" else "?";
      AppendedParamAvoidsCartAction(sep);
      AppendKeepsAbsent(r, sep + AffiliateParam, CartAction);
      assert AffiliateLink(url) == r + (sep + AffiliateParam);
    }
  }

  /** The purchase link always carries "aff=". */
  lemma AffiliateLinkTagged(url: string)
    ensures Occurs(AffiliateLink(url), AffiliateMarker)
  {
    var r := Replace(url, CartAction, AffiliatePath);
    if !Occurs(r, AffiliateMarker) {
      var sep := if '?' in r then "&" else "?";
      assert OccursAt(AffiliateParam, AffiliateMarker, 0);
      OccursInRight(r + sep, AffiliateParam, AffiliateMarker);
    }
  }

  /** Rewriting a purchase link again gives the same link. */
  lemma AffiliateLinkIdempotent(url: string)
    ensures AffiliateLink(AffiliateLink(url)) == AffiliateLink(url)
  {
    var link := AffiliateLink(url);
    AffiliateLinkHasNoCartAction(url);
    AffiliateLinkTagged(url);
    ReplaceAbsent(link, CartAction, AffiliatePath);
  }

  // ---------------------------------------------------------------------
  // Product name and features of an in-stock page
  // ---------------------------------------------------------------------

  const ProductPrefix: string := "Basic VPS - Self-managed - "
  const UnknownProduct: string := "未知商品"

  /** The product name stored in the key: the plan prefix removed, then stripped. */
  function NormalizeName(rawName: string): string
  {
    Strip(Replace(rawName, ProductPrefix, ""))
  }

  /** A stripped string is its own strip. */
  lemma StripOfStripped(s: string)
    requires IsStripped(s)
    ensures Strip(s) == s
  {
    assert LeadingCount(s, IsSpace) == 0;
    assert s[0..] == s;
    assert TrailingCount(s, IsSpace) == 0;
  }

  /** A normalised name has no white space at either end. */
  lemma NormalizeNameStripped(rawName: string)
    ensures IsStripped(NormalizeName(rawName))
  {
    StripSpec(Replace(rawName, ProductPrefix, ""));
  }

  /** The plan prefix in front of a name is dropped. */
  lemma NormalizeNameDropsPrefix(rest: string)
    requires !Occurs(rest, ProductPrefix)
    ensures NormalizeName(ProductPrefix + rest) == Strip(rest)
  {
    var s := ProductPrefix + rest;
    assert s[..|ProductPrefix|] == ProductPrefix;
    assert s[|ProductPrefix|..] == rest;
    assert Replace(s, ProductPrefix, "") == Replace(rest, ProductPrefix, "");
    ReplaceAbsent(rest, ProductPrefix, "");
  }

  /** A name that is already clean is kept as it is. */
  lemma NormalizeNameOfClean(rawName: string)
    requires !Occurs(rawName, ProductPrefix) && IsStripped(rawName)
    ensures NormalizeName(rawName) == rawName
  {
    ReplaceAbsent(rawName, ProductPrefix, "");
    StripOfStripped(rawName);
  }

  const AllowedFeatures: seq<string> := ["SSD", "RAM", "CPU", "Transfer", "Link speed", "Location"]
  const LineBreak: string := "<br />"
  const UnknownFeatures: string := "配置未知"

  /** The line starts with one of the allowed feature labels. */
  predicate IsAllowedLine(line: string)
  {
    exists k :: 0 <= k < |AllowedFeatures| && IsPrefix(AllowedFeatures[k], line)
  }

  /** The list comprehension that keeps the stripped lines starting with an allowed label. */
  function FilterLines(lines: seq<string>): (kept: seq<string>)
    ensures forall x :: x in kept ==> IsAllowedLine(x)
    ensures forall x :: x in kept ==> exists i :: 0 <= i < |lines| && x == Strip(lines[i])
    ensures forall i :: 0 <= i < |lines| && IsAllowedLine(Strip(lines[i])) ==> Strip(lines[i]) in kept
    decreases |lines|
  {
    if lines == [] then []
    else
      var line := Strip(lines[0]);
      var rest := FilterLines(lines[1..]);
      assert forall i :: 1 <= i < |lines| ==> lines[i] == lines[1..][i - 1];
      if IsAllowedLine(line) then [line] + rest else rest
  }

  /** The feature text left after removing the raw name, before it is split into lines. */
  function FeatureText(productText: string, rawName: string): string
  {
    Strip(if rawName == [] then productText else Replace(productText, rawName, ""))
  }

  /** The kept feature lines of the product box. */
  function FeatureLines(productText: string, rawName: string): seq<string>
  {
    FilterLines(Split(FeatureText(productText, rawName), LineBreak))
  }

  /** The feature signature that is stored and compared. */
  function FeatureSignature(productText: string, rawName: string): string
  {
    var kept := FeatureLines(productText, rawName);
    if kept == [] then UnknownFeatures else Join(kept, LineBreak)
  }

  lemma LineBreakBorderFree()
    ensures BorderFree(LineBreak)
  {
    forall k | 0 < k < |LineBreak| ensures !IsPrefix(LineBreak[k..], LineBreak) {
      assert LineBreak[k..][0] != LineBreak[0];
    }
  }

  /** No kept feature line holds a line break. */
  lemma FeatureLinesHaveNoBreak(productText: string, rawName: string)
    ensures forall x :: x in FeatureLines(productText, rawName) ==> !Occurs(x, LineBreak)
  {
    var parts := Split(FeatureText(productText, rawName), LineBreak);
    SplitParts(FeatureText(productText, rawName), LineBreak);
    forall i | 0 <= i < |parts| ensures !Occurs(Strip(parts[i]), LineBreak) {
      StripKeepsAbsent(parts[i], LineBreak);
    }
  }

  /**
    The stored features are the placeholder exactly when no line was
    kept; otherwise splitting them on line breaks gives back the kept
    lines, each of which starts with an allowed label.
  */
  lemma FeatureSignatureSpec(productText: string, rawName: string)
    ensures FeatureSignature(productText, rawName) == UnknownFeatures <==> FeatureLines(productText, rawName) == []
    ensures FeatureSignature(productText, rawName) != UnknownFeatures ==>
              Split(FeatureSignature(productText, rawName), LineBreak) == FeatureLines(productText, rawName)
    ensures forall line ::
              (FeatureSignature(productText, rawName) != UnknownFeatures &&
               line in Split(FeatureSignature(productText, rawName), LineBreak)) ==> IsAllowedLine(line)
  {
    FeatureLinesHaveNoBreak(productText, rawName);
    JoinedLines(FeatureLines(productText, rawName));
  }

  /** Allowed lines without line breaks, joined, are not the placeholder and split back into themselves. */
  lemma JoinedLines(kept: seq<string>)
    requires forall x :: x in kept ==> IsAllowedLine(x) && !Occurs(x, LineBreak)
    ensures kept != [] ==> Join(kept, LineBreak) != UnknownFeatures
    ensures kept != [] ==> Split(Join(kept, LineBreak), LineBreak) == kept
  {
    if kept != [] {
      var sig := Join(kept, LineBreak);
      JoinStartsWithFirst(kept, LineBreak);
      assert IsAllowedLine(kept[0]);
      var k :| 0 <= k < |AllowedFeatures| && IsPrefix(AllowedFeatures[k], kept[0]);
      assert sig[0] == kept[0][0] == AllowedFeatures[k][0];
      LineBreakBorderFree();
      SplitJoin(kept, LineBreak);
    }
  }

  // ---------------------------------------------------------------------
  // Name of an out-of-stock page
  // ---------------------------------------------------------------------

  const PidMarker: string := "pid="
  const PidNamePrefix: string := "商品 PID "

  /** The ASCII digits matched by `\d`. */
  predicate IsDigit(c: char)
  {
    '0' <= c <= '9'
  }

  /** A `pid=` followed by a digit starts at index `i`. */
  predicate PidAt(url: string, i: nat)
  {
    i + |PidMarker| < |url| && OccursAt(url, PidMarker, i) && IsDigit(url[i + |PidMarker|])
  }

  /** The leftmost index at or after `from` where `pid=` is followed by a digit. */
  function PidSearch(url: string, from: nat): (r: Option<nat>)
    ensures r.Some? ==> from <= r.value && PidAt(url, r.value)
    decreases |url| - from
  {
    if from >= |url| then None
    else if PidAt(url, from) then Some(from)
    else PidSearch(url, from + 1)
  }

  /**
    The scan finds the leftmost `pid=` followed by a digit at or after
    `from`, and finds nothing exactly when there is none.
  */
  lemma {:induction false} PidSearchSpec(url: string, from: nat)
    ensures PidSearch(url, from).None? <==> forall i: nat :: from <= i ==> !PidAt(url, i)
    ensures PidSearch(url, from).Some? ==>
              && from <= PidSearch(url, from).value
              && PidAt(url, PidSearch(url, from).value)
              && forall j: nat :: from <= j < PidSearch(url, from).value ==> !PidAt(url, j)
    decreases |url| - from
  {
    if from < |url| && !PidAt(url, from) {
      PidSearchSpec(url, from + 1);
    }
  }

  /** The run of digits that `\d+` matches at the front of `s`. */
  function DigitRun(s: string): string
  {
    s[..LeadingCount(s, IsDigit)]
  }

  /** The digits of the leftmost match of `pid=(\d+)` in `url`. */
  function PidDigits(url: string): Option<string>
  {
    match PidSearch(url, 0)
    case Some(i) => Some(DigitRun(url[i + |PidMarker|..]))
    case None => None
  }

  /**
    `re.search(r'pid=(\d+)', url)`: there is a match exactly when some
    `pid=` is followed by a digit, and the group is then the whole,
    non-empty run of digits after the leftmost such `pid=`.
  */
  lemma PidDigitsSpec(url: string)
    ensures PidDigits(url).None? <==> forall i: nat :: !PidAt(url, i)
    ensures PidDigits(url).Some? ==> exists i: nat ::
              && PidAt(url, i)
              && (forall j: nat :: j < i ==> !PidAt(url, j))
              && PidDigits(url).value == DigitRun(url[i + |PidMarker|..])
    ensures PidDigits(url).Some? ==>
              (|PidDigits(url).value| > 0 && forall c :: c in PidDigits(url).value ==> IsDigit(c))
  {
    PidSearchSpec(url, 0);
    if PidSearch(url, 0).Some? {
      var i := PidSearch(url, 0).value;
      var tail := url[i + |PidMarker|..];
      var n := LeadingCount(tail, IsDigit);
      assert n > 0;
      forall c | c in tail[..n] ensures IsDigit(c) {
        var m :| 0 <= m < n && tail[..n][m] == c;
      }
    }
  }

  /** The synthetic key name of an out-of-stock page. */
  function OutOfStockName(url: string): string
  {
    match PidDigits(url)
    case Some(digits) => PidNamePrefix + digits
    case None => UnknownProduct
  }

  // ---------------------------------------------------------------------
  // Promo code
  // ---------------------------------------------------------------------

  const PromoMarker: string := "promo code:"

  /** The characters of `rstrip("-->")`. */
  predicate IsArrowChar(c: char)
  {
    c == '-' || c == '>'
  }

  /** The promo code one HTML comment yields, if any. */
  function PromoIn(comment: string): Option<string>
  {
    if Occurs(Lower(comment), PromoMarker) then
      var parts := Split(comment, PromoMarker);
      if |parts| > 1 then Some(CleanCode(parts[1])) else None
    else None
  }

  /** `.strip().rstrip("-->").strip()` */
  function CleanCode(s: string): string
  {
    Strip(RStripBy(Strip(s), IsArrowChar))
  }

  lemma CleanCodeStripped(s: string)
    ensures IsStripped(CleanCode(s))
  {
    StripSpec(RStripBy(Strip(s), IsArrowChar));
  }

  /** The code of the first comment from which `extract` gets one. */
  function FirstCode(comments: seq<string>, extract: string -> Option<string>): Option<string>
    decreases |comments|
  {
    if comments == [] then None
    else if extract(comments[0]).Some? then extract(comments[0])
    else FirstCode(comments[1..], extract)
  }

  /** The scan finds a code exactly when some comment yields one, and it is the first comment's code. */
  lemma {:induction false} FirstCodeSpec(comments: seq<string>, extract: string -> Option<string>)
    ensures FirstCode(comments, extract).Some? <==> exists i :: 0 <= i < |comments| && extract(comments[i]).Some?
    ensures FirstCode(comments, extract).Some? ==>
              exists i :: && 0 <= i < |comments| && extract(comments[i]) == FirstCode(comments, extract)
                          && forall j :: 0 <= j < i ==> extract(comments[j]).None?
    decreases |comments|
  {
    if comments != [] {
      FirstCodeSpec(comments[1..], extract);
      assert forall i :: 1 <= i < |comments| ==> comments[i] == comments[1..][i - 1];
      if extract(comments[0]).None? && FirstCode(comments, extract).Some? {
        var i :| && 0 <= i < |comments[1..]| && extract(comments[1..][i]) == FirstCode(comments, extract)
                 && forall j :: 0 <= j < i ==> extract(comments[1..][j]).None?;
        assert extract(comments[i + 1]) == FirstCode(comments, extract);
      }
    }
  }

  /** `extract_promo_code`: the code of the first comment that yields one. */
  function ExtractPromoCode(comments: seq<string>): Option<string>
  {
    FirstCode(comments, PromoIn)
  }

  /**
    A comment yields a code exactly when it contains "promo code:" in
    lower case as written (the test on the lowered text alone is not
    enough), and the code has no white space at either end.
  */
  lemma PromoInSpec(comment: string)
    ensures PromoIn(comment).Some? <==> Occurs(comment, PromoMarker)
    ensures PromoIn(comment).Some? ==> IsStripped(PromoIn(comment).value)
  {
    SplitCount(comment, PromoMarker);
    if Occurs(comment, PromoMarker) {
      assert Lower(PromoMarker) == PromoMarker;
      OccursInLower(comment, PromoMarker);
    }
    if PromoIn(comment).Some? {
      CleanCodeStripped(Split(comment, PromoMarker)[1]);
    }
  }

  /** A comment that says "Promo Code:" only with capitals yields no code, though its lowered text matches. */
  lemma CapitalisedMarkerYieldsNothing(code: string)
    requires 'p' !in code
    ensures Occurs(Lower("Promo Code:" + code), PromoMarker)
    ensures PromoIn("Promo Code:" + code) == None
  {
    var c := "Promo Code:" + code;
    assert Lower(c)[..|PromoMarker|] == PromoMarker;
    assert Lower(c)[0..] == Lower(c);
    assert OccursAt(Lower(c), PromoMarker, 0);
    assert 'p' !in c;
    PrependWithoutStart(c, [], PromoMarker);
    assert c + [] == c;
    PromoInSpec(c);
  }

  /**
    `extract_promo_code` finds a code exactly when some comment contains
    the marker, and then returns the code of the first such comment.
  */
  lemma ExtractPromoCodeSpec(comments: seq<string>)
    ensures ExtractPromoCode(comments).Some? <==>
              exists i :: 0 <= i < |comments| && Occurs(comments[i], PromoMarker)
    ensures ExtractPromoCode(comments).Some? ==>
              exists i :: && 0 <= i < |comments| && PromoIn(comments[i]) == ExtractPromoCode(comments)
                          && forall j :: 0 <= j < i ==> !Occurs(comments[j], PromoMarker)
  {
    forall i | 0 <= i < |comments|
      ensures PromoIn(comments[i]).Some? <==> Occurs(comments[i], PromoMarker)
    {
      PromoInSpec(comments[i]);
    }
    FirstCodeSpec(comments, PromoIn);
  }

  /**
    The code one comment yields when the marker is matched the way the
    test matches it, ignoring case: the text between the first and the
    second occurrence of "promo code:" in the lowered comment, taken
    from the comment itself so that the code keeps its case.
  */
  function PromoInCaseless(comment: string): Option<string>
  {
    if Occurs(Lower(comment), PromoMarker) then Some(CleanCode(CaselessSegment(comment))) else None
  }

  /** The text of `comment` at the place of the second part of its lowered split. */
  function CaselessSegment(comment: string): string
    requires Occurs(Lower(comment), PromoMarker)
  {
    var lowered := Lower(comment);
    SplitCount(lowered, PromoMarker);
    SplitFront(lowered, PromoMarker);
    var parts := Split(lowered, PromoMarker);
    comment[|parts[0]| + |PromoMarker|..|parts[0]| + |PromoMarker| + |parts[1]|]
  }

  /** With the case-blind match every comment the test accepts yields a code, and the code is stripped. */
  lemma PromoInCaselessSpec(comment: string)
    ensures PromoInCaseless(comment).Some? <==> Occurs(Lower(comment), PromoMarker)
    ensures PromoInCaseless(comment).Some? ==> IsStripped(PromoInCaseless(comment).value)
  {
    if Occurs(Lower(comment), PromoMarker) {
      CleanCodeStripped(CaselessSegment(comment));
    }
  }

  lemma PromoMarkerBorderFree()
    ensures BorderFree(PromoMarker)
  {
    forall k | 0 < k < |PromoMarker|
      ensures !IsPrefix(PromoMarker[k..], PromoMarker)
    {
      assert PromoMarker[k..][0] != PromoMarker[0];
    }
  }

  /** On a comment already in lower case the case-blind extraction is the one the code performs. */
  lemma PromoInCaselessOfLowered(comment: string)
    requires Lower(comment) == comment
    ensures PromoInCaseless(comment) == PromoIn(comment)
  {
    if Occurs(comment, PromoMarker) {
      SplitCount(comment, PromoMarker);
      SplitFront(comment, PromoMarker);
      assert CaselessSegment(comment) == Split(comment, PromoMarker)[1];
    }
  }

  /** The capitalised marker yields the code that follows it, in its own case. */
  lemma CapitalisedMarkerCorrected(code: string)
    requires !Occurs(Lower(code), PromoMarker)
    ensures PromoInCaseless("Promo Code:" + code) == Some(CleanCode(code))
  {
    var c := "Promo Code:" + code;
    LowerAfterCapitalMarker(code);
    SplitAfterMarker(Lower(code));
    assert c[|PromoMarker|..|PromoMarker| + |code|] == code;
  }

  lemma LowerAfterCapitalMarker(code: string)
    ensures Lower("Promo Code:" + code) == PromoMarker + Lower(code)
  {
  }

  /** A text starting with the marker and holding no other splits into an empty part and the rest. */
  lemma SplitAfterMarker(t: string)
    requires !Occurs(t, PromoMarker)
    ensures Occurs(PromoMarker + t, PromoMarker)
    ensures Split(PromoMarker + t, PromoMarker) == [[], t]
  {
    var s := PromoMarker + t;
    assert s[0..][..|PromoMarker|] == PromoMarker;
    assert OccursAt(s, PromoMarker, 0);
    assert s[|PromoMarker|..] == t;
    SplitAbsent(t, PromoMarker);
  }

  /** `extract_promo_code` with the case-blind match. */
  function ExtractPromoCodeCaseless(comments: seq<string>): Option<string>
  {
    FirstCode(comments, PromoInCaseless)
  }

  /** On comments already in lower case the case-blind extraction is `extract_promo_code` as written. */
  lemma {:induction false} ExtractPromoCodeCaselessOfLowered(comments: seq<string>)
    requires forall i :: 0 <= i < |comments| ==> Lower(comments[i]) == comments[i]
    ensures ExtractPromoCodeCaseless(comments) == ExtractPromoCode(comments)
    decreases |comments|
  {
    if comments != [] {
      PromoInCaselessOfLowered(comments[0]);
      assert forall i :: 0 <= i < |comments[1..]| ==> comments[1..][i] == comments[i + 1];
      ExtractPromoCodeCaselessOfLowered(comments[1..]);
    }
  }

  /**
    The case-blind extraction finds a code exactly when some comment
    passes the lowered test, and then returns the code of the first one.
  */
  lemma ExtractPromoCodeCaselessSpec(comments: seq<string>)
    ensures ExtractPromoCodeCaseless(comments).Some? <==>
              exists i :: 0 <= i < |comments| && Occurs(Lower(comments[i]), PromoMarker)
    ensures ExtractPromoCodeCaseless(comments).Some? ==>
              exists i :: && 0 <= i < |comments| && PromoInCaseless(comments[i]) == ExtractPromoCodeCaseless(comments)
                          && forall j :: 0 <= j < i ==> !Occurs(Lower(comments[j]), PromoMarker)
  {
    forall i | 0 <= i < |comments|
      ensures PromoInCaseless(comments[i]).Some? <==> Occurs(Lower(comments[i]), PromoMarker)
    {
      PromoInCaselessSpec(comments[i]);
    }
    FirstCodeSpec(comments, PromoInCaseless);
  }
}
