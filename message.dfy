/**
  The two choices of `build_product_message` that carry meaning rather
  than layout: the header line, which tells a restock, a new listing
  and a sold-out product apart, and the purchase-link line, struck
  through once the product is sold out.
*/
module Message {
  import opened Wrappers
  import opened Strings

  /** The two notices the in-stock branch sends. */
  datatype Notice = RestockNotice | NewListingNotice

  /** The `prefix` argument each notice is built with. */
  function NoticePrefix(n: Notice): string
  {
    match n
    case RestockNotice => "搬瓦工补货"
    case NewListingNotice => "搬瓦工上新"
  }

  const SoldOutMark: string := "❌ 搬瓦工 - "
  const SoldOutSuffix: string := " - 已下架或已售罄"
  const LinkLabel: string := "🛍️ 购买链接: "

  /** A `prefix` Python treats as true. */
  predicate HasPrefix(prefix: Option<string>)
  {
    prefix.Some? && prefix.value != []
  }

  /**
    The header line: a prefixed in-stock header, the sold-out header
    whatever the prefix, or the bare name.
  */
  function Header(name: string, prefix: Option<string>, outOfStock: bool): string
  {
    if HasPrefix(prefix) && !outOfStock then "✅ " + prefix.value + " - " + name
    else if outOfStock then SoldOutMark + name + SoldOutSuffix
    else name
  }

  /** The purchase-link line, omitted for an empty link. */
  function LinkLine(fullLink: string, outOfStock: bool): Option<string>
  {
    if fullLink == [] then None
    else if !outOfStock then Some(LinkLabel + fullLink)
    else Some(LinkLabel + "<s>" + fullLink + "</s>")
  }

  lemma OccursInMiddle(a: string, p: string, b: string)
    ensures Occurs(a + p + b, p)
  {
    assert (a + p + b)[|a|..|a| + |p|] == p;
    assert OccursAt(a + p + b, p, |a|);
  }

  /** Every header names the product. */
  lemma HeaderShowsName(name: string, prefix: Option<string>, outOfStock: bool)
    ensures Occurs(Header(name, prefix, outOfStock), name)
  {
    if HasPrefix(prefix) && !outOfStock {
      OccursInMiddle("✅ " + prefix.value + " - ", name, "");
      assert "✅ " + prefix.value + " - " + name + "" == Header(name, prefix, outOfStock);
    } else if outOfStock {
      OccursInMiddle(SoldOutMark, name, SoldOutSuffix);
    } else {
      OccursInMiddle("", name, "");
      assert "" + name + "" == name;
    }
  }

  /**
    For the same product the restock notice, the new-listing notice and
    the sold-out edit have three different headers, and the sold-out
    header ignores any prefix.
  */
  lemma HeadersDistinguishEvents(name: string, prefix: Option<string>)
    ensures Header(name, Some(NoticePrefix(RestockNotice)), false) != Header(name, Some(NoticePrefix(NewListingNotice)), false)
    ensures Header(name, Some(NoticePrefix(RestockNotice)), false) != Header(name, prefix, true)
    ensures Header(name, Some(NoticePrefix(NewListingNotice)), false) != Header(name, prefix, true)
    ensures Header(name, prefix, true) == Header(name, None, true)
  {
    var restock := Header(name, Some(NoticePrefix(RestockNotice)), false);
    var listing := Header(name, Some(NoticePrefix(NewListingNotice)), false);
    var soldOut := Header(name, prefix, true);
    assert restock[5] != listing[5];
    assert restock[0] != soldOut[0];
    assert listing[0] != soldOut[0];
  }

  /**
    The link line is there exactly when the link is non-empty, shows the
    link, and wraps it in `<s>…</s>` exactly when the product is sold out.
  */
  lemma LinkLineSpec(fullLink: string, outOfStock: bool)
    ensures LinkLine(fullLink, outOfStock).Some? <==> fullLink != []
    ensures LinkLine(fullLink, outOfStock).Some? ==>
              && Occurs(LinkLine(fullLink, outOfStock).value, fullLink)
              && (Occurs(LinkLine(fullLink, outOfStock).value, "<s>" + fullLink + "</s>") <==> outOfStock)
  {
    if fullLink != [] {
      if outOfStock {
        StruckLineShowsLink(fullLink);
      } else {
        PlainLineShowsLink(fullLink);
      }
    }
  }

  lemma StruckLineShowsLink(fullLink: string)
    ensures Occurs(LinkLabel + "<s>" + fullLink + "</s>", fullLink)
    ensures Occurs(LinkLabel + "<s>" + fullLink + "</s>", "<s>" + fullLink + "</s>")
  {
    OccursInMiddle(LinkLabel + "<s>", fullLink, "</s>");
    OccursInMiddle(LinkLabel, "<s>" + fullLink + "</s>", "");
    assert LinkLabel + ("<s>" + fullLink + "</s>") + "" == LinkLabel + "<s>" + fullLink + "</s>";
  }

  /** A plain link line shows the link and never contains the struck-through link. */
  lemma PlainLineShowsLink(fullLink: string)
    ensures Occurs(LinkLabel + fullLink, fullLink)
    ensures !Occurs(LinkLabel + fullLink, "<s>" + fullLink + "</s>")
  {
    var line := LinkLabel + fullLink;
    var struck := "<s>" + fullLink + "</s>";
    OccursInMiddle(LinkLabel, fullLink, "");
    assert LinkLabel + fullLink + "" == line;
    forall i: nat | i <= |line|
      ensures !OccursAt(line, struck, i)
    {
      if i + |struck| <= |line| {
        assert line[i] == LinkLabel[i] != struck[0];
      }
    }
  }
}
