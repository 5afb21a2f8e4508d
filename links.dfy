/**
 * `dataURLList`: the data-file URLs listed on an index page.
 *
 * The HTML parser is not modelled. A parsed page is the sequence of its `li`
 * elements in document order; each `li` is the sequence of `a` elements
 * below it, each with an optional `href` attribute and its text. Reading
 * `href` from the anchors of an item looks at the FIRST anchor only; the
 * text of the anchors is the concatenation of all of them.
 *
 * For every item the callback either appends the first anchor's `href` or,
 * when there is none, overwrites the error and leaves only the callback, so
 * later items are still visited: the result is every `href` found, in order,
 * together with the error of the LAST item that had none.
 */
module Links {
  import opened Wrappers

  datatype Anchor = Anchor(href: Option<string>, text: string)

  datatype ListItem = ListItem(anchors: seq<Anchor>)

  /** The outcome of parsing the page: its list items, or the parser's error. */
  datatype Document = Parsed(items: seq<ListItem>) | ParseFailed(reason: string)

  datatype LinkError =
    | CannotParse(reason: string)   // "cannot get data urls: %w"
    | InvalidAttr(text: string)     // "cannot get data urls: invalid attr: %s"

  /** `s.Find("a").Attr("href")`: the attribute of the first anchor, absent when there is no anchor. */
  function FirstHref(item: ListItem): Option<string>
  {
    if item.anchors == [] then None else item.anchors[0].href
  }

  /** The combined text of a sequence of anchors. */
  function AnchorsText(anchors: seq<Anchor>): string
  {
    if anchors == [] then "" else anchors[0].text + AnchorsText(anchors[1..])
  }

  /** `s.Find("a").Text()`. */
  function ItemText(item: ListItem): string
  {
    AnchorsText(item.anchors)
  }

  /** What the callback appends for one item. */
  function ItemURLs(item: ListItem): seq<string>
  {
    match FirstHref(item)
    case Some(u) => [u]
    case None => []
  }

  /** The `urls` slice after the callback has run over `items`. */
  function Hrefs(items: seq<ListItem>): seq<string>
  {
    if items == [] then []
    else Hrefs(items[..|items| - 1]) + ItemURLs(items[|items| - 1])
  }

  /** The `err` value after the callback has run over `items`. */
  function LastMissing(items: seq<ListItem>): Option<LinkError>
  {
    if items == [] then None
    else if FirstHref(items[|items| - 1]).None? then Some(InvalidAttr(ItemText(items[|items| - 1])))
    else LastMissing(items[..|items| - 1])
  }

  /** `dataURLList`, over the already parsed page. */
  method DataURLList(doc: Document) returns (urls: seq<string>, err: Option<LinkError>)
    ensures doc.ParseFailed? ==> urls == [] && err == Some(CannotParse(doc.reason))
    ensures doc.Parsed? ==> urls == Hrefs(doc.items) && err == LastMissing(doc.items)
  {
    urls := [];
    match doc
    case ParseFailed(reason) =>
      err := Some(CannotParse(reason));
    case Parsed(items) =>
      err := None;
      for i := 0 to |items|
        invariant urls == Hrefs(items[..i])
        invariant err == LastMissing(items[..i])
      {
        var s := items[i];
        assert items[..i + 1][..i] == items[..i];
        var href := FirstHref(s);
        if href.None? {
          err := Some(InvalidAttr(ItemText(s)));
        } else {
          urls := urls + [href.value];
        }
      }
      assert items[..|items|] == items;
  }

  /** Extraction distributes over concatenation of pages: each item contributes independently, in order. */
  lemma {:induction false} HrefsAppend(a: seq<ListItem>, b: seq<ListItem>)
    ensures Hrefs(a + b) == Hrefs(a) + Hrefs(b)
  {
    if b != [] {
      var b' := b[..|b| - 1];
      HrefsAppend(a, b');
      assert (a + b)[..|a + b| - 1] == a + b';
      assert (a + b)[|a + b| - 1] == b[|b| - 1];
    } else {
      assert a + b == a;
    }
  }

  /** Every item whose first anchor has an `href` contributes exactly that URL. */
  lemma HrefsSingle(item: ListItem)
    ensures FirstHref(item).Some? ==> Hrefs([item]) == [FirstHref(item).value]
    ensures FirstHref(item).None? ==> Hrefs([item]) == []
  {
  }

  /** With an `href` on every item, there is one URL per item, in document order. */
  lemma {:induction false} HrefsComplete(items: seq<ListItem>)
    requires forall k :: 0 <= k < |items| ==> FirstHref(items[k]).Some?
    ensures |Hrefs(items)| == |items|
    ensures forall k :: 0 <= k < |items| ==> Hrefs(items)[k] == FirstHref(items[k]).value
  {
    if items != [] {
      var init := items[..|items| - 1];
      HrefsComplete(init);
    }
  }

  /** A URL is returned exactly when it is the first anchor's `href` of some item. */
  lemma {:induction false} HrefsMembers(items: seq<ListItem>, u: string)
    ensures u in Hrefs(items) <==> exists k :: 0 <= k < |items| && FirstHref(items[k]) == Some(u)
  {
    if items != [] {
      var init := items[..|items| - 1];
      HrefsMembers(init, u);
      if exists k :: 0 <= k < |init| && FirstHref(init[k]) == Some(u) {
        var k :| 0 <= k < |init| && FirstHref(init[k]) == Some(u);
        assert FirstHref(items[k]) == Some(u);
      }
      if exists k :: 0 <= k < |items| && FirstHref(items[k]) == Some(u) {
        var k :| 0 <= k < |items| && FirstHref(items[k]) == Some(u);
        if k < |init| {
          assert FirstHref(init[k]) == Some(u);
        }
      }
    }
  }

  /** No error exactly when every item's first anchor has an `href`. */
  lemma {:induction false} LastMissingNoneIff(items: seq<ListItem>)
    ensures LastMissing(items).None? <==> forall k :: 0 <= k < |items| ==> FirstHref(items[k]).Some?
  {
    if items != [] {
      var init := items[..|items| - 1];
      LastMissingNoneIff(init);
      if FirstHref(items[|items| - 1]).Some? && LastMissing(init).None? {
        forall k | 0 <= k < |items| ensures FirstHref(items[k]).Some? {
          if k < |init| {
            assert items[k] == init[k];
          }
        }
      }
      if LastMissing(init).Some? {
        var k :| 0 <= k < |init| && FirstHref(init[k]).None?;
        assert items[k] == init[k];
      }
    }
  }

  /** Item `k` has no `href` and every later item has one. */
  ghost predicate LastOffenderAt(items: seq<ListItem>, k: int)
  {
    && 0 <= k < |items|
    && FirstHref(items[k]).None?
    && forall j :: k < j < |items| ==> FirstHref(items[j]).Some?
  }

  /** A reported error names the text of the last item without an `href`; every later item has one. */
  lemma {:induction false} LastMissingNamesLastOffender(items: seq<ListItem>)
    requires LastMissing(items).Some?
    ensures exists k :: LastOffenderAt(items, k) && LastMissing(items) == Some(InvalidAttr(ItemText(items[k])))
  {
    var n := |items|;
    if FirstHref(items[n - 1]).None? {
      assert LastOffenderAt(items, n - 1);
    } else {
      var init := items[..n - 1];
      LastMissingNamesLastOffender(init);
      var k :| LastOffenderAt(init, k) && LastMissing(init) == Some(InvalidAttr(ItemText(init[k])));
      assert items[k] == init[k];
      forall j | k < j < n ensures FirstHref(items[j]).Some? {
        if j < n - 1 {
          assert items[j] == init[j];
        }
      }
      assert LastOffenderAt(items, k);
    }
  }

  /**
   * An item without an `href` does not stop extraction: the URLs of the items
   * before and after it are all returned, whatever those items are, and the
   * error names it when every later item is well formed.
   */
  lemma {:induction false} OffenderDoesNotStopExtraction(before: seq<ListItem>, bad: ListItem, after: seq<ListItem>)
    requires FirstHref(bad).None?
    ensures Hrefs(before + [bad] + after) == Hrefs(before) + Hrefs(after)
    ensures (forall k :: 0 <= k < |after| ==> FirstHref(after[k]).Some?) ==>
      LastMissing(before + [bad] + after) == Some(InvalidAttr(ItemText(bad)))
  {
    HrefsAppend(before + [bad], after);
    HrefsAppend(before, [bad]);
    HrefsSingle(bad);
    if forall k :: 0 <= k < |after| ==> FirstHref(after[k]).Some? {
      LastMissingAfterWellFormed(before + [bad], after);
      assert (before + [bad])[|before + [bad]| - 1] == bad;
    }
  }

  /** Well-formed items appended after the page leave the error unchanged. */
  lemma {:induction false} LastMissingAfterWellFormed(a: seq<ListItem>, b: seq<ListItem>)
    requires forall k :: 0 <= k < |b| ==> FirstHref(b[k]).Some?
    ensures LastMissing(a + b) == LastMissing(a)
  {
    if b == [] {
      assert a + b == a;
    } else {
      var b' := b[..|b| - 1];
      LastMissingAfterWellFormed(a, b');
      assert (a + b)[..|a + b| - 1] == a + b';
      assert (a + b)[|a + b| - 1] == b[|b| - 1];
    }
  }

  /** The two-entry listing `a.gz`, `b.gz` yields both URLs in order and no error. */
  lemma TwoEntryListing()
    ensures var items := [ListItem([Anchor(Some("http://host/a.gz"), "a.gz")]),
                          ListItem([Anchor(Some("http://host/b.gz"), "b.gz")])];
      Hrefs(items) == ["http://host/a.gz", "http://host/b.gz"] && LastMissing(items) == None
  {
  }
}
