/** `core/utils.py`: the scraper that reads the matched cards of a page
    (`scrape_data_in_thread`) and the pass that stores what it found
    (`scrape_and_save_testimonials`).

    The browser is not modelled: the page is what it hands over, `None`
    when loading or querying it raised, otherwise one `Probe` per matched
    element in page order, each either the element's card (after the
    read-more click) or the fault its browser calls raised. Whether the
    database accepts the row the save pass writes for item `k` is
    `accepts(k)`. */
module Scraper {
  import opened Wrappers
  import opened Text
  import opened Soup
  import opened Testimonials

  datatype Item = Item(title: string, clientName: string, reviewText: string, isFeatured: bool)

  datatype Probe = Read(card: Card) | Fault

  const PinnedMarker := "pinned-card"
  const MinFallbackLength := 15
  const TitleMax := 200
  const ClientNameMax := 100

  /** `"pinned-card" in (element.get_attribute("class") or "")`. */
  function IsPinned(classAttr: Option<string>): (b: bool)
    ensures b <==> exists k: nat :: OccursAt(classAttr.GetOr([]), PinnedMarker, k)
    ensures classAttr.None? ==> !b
  {
    Contains(classAttr.GetOr([]), PinnedMarker)
  }

  /** `node = soup.find(class_=primary)`, then, when that found nothing,
      `node = soup.find(class_=secondary)`. */
  function FindEither(nodes: seq<Node>, primary: string, secondary: string): Option<nat> {
    var p := FindByClass(nodes, primary);
    if p.Some? then p else FindByClass(nodes, secondary)
  }

  /** The fallback lookup picks the first node with the primary class; only
      when there is none, the first with the secondary class. */
  lemma FindEitherSpec(nodes: seq<Node>, primary: string, secondary: string)
    ensures forall k: nat :: FirstWithClass(nodes, primary, k) ==> FindEither(nodes, primary, secondary) == Some(k)
    ensures NoneWithClass(nodes, primary) ==>
      forall k: nat :: FirstWithClass(nodes, secondary, k) ==> FindEither(nodes, primary, secondary) == Some(k)
    ensures FindEither(nodes, primary, secondary).None? <==>
      NoneWithClass(nodes, primary) && NoneWithClass(nodes, secondary)
  {
    FindByClassSpec(nodes, primary);
    FindByClassSpec(nodes, secondary);
  }

  const TextTags: set<string> := {"p", "div", "span"}

  /** Review text when neither content class is present: the first longest
      stripped text of a `p`, `div` or `span` longer than 15 characters,
      or the empty string when there is none. */
  function FallbackReview(nodes: seq<Node>): string {
    LongestText(nodes, TextTags, GetTextStripped, MinFallbackLength).GetOr([])
  }

  /** The fallback is empty exactly when no such text is long enough;
      otherwise it is one of those texts and none of them is longer. */
  lemma FallbackReviewSpec(nodes: seq<Node>)
    ensures FallbackReview(nodes) == [] || |FallbackReview(nodes)| > MinFallbackLength
    ensures FallbackReview(nodes) == [] <==>
      forall n :: n in nodes && n.tag in TextTags ==> |GetTextStripped(n)| <= MinFallbackLength
    ensures FallbackReview(nodes) != [] ==>
      exists n :: n in nodes && n.tag in TextTags && GetTextStripped(n) == FallbackReview(nodes)
    ensures forall n :: n in nodes && n.tag in TextTags && |GetTextStripped(n)| > MinFallbackLength
              ==> |GetTextStripped(n)| <= |FallbackReview(nodes)|
  {
    LongestTextSpec(nodes, TextTags, GetTextStripped, MinFallbackLength);
  }

  /** The card's title: the stripped text of its `card-title` node, else
      of its `pinned-card-title` node, else empty. */
  function CardTitle(nodes: seq<Node>): string {
    match FindEither(nodes, "card-title", "pinned-card-title")
    case Some(k) => GetTextStripped(nodes[k])
    case None => []
  }

  /** The card's review: the lines of its `content-full` node, else of its
      `pinned-card-full` node, else the fallback text. */
  function CardReview(nodes: seq<Node>): string {
    match FindEither(nodes, "content-full", "pinned-card-full")
    case Some(k) => GetTextLines(nodes[k])
    case None => FallbackReview(nodes)
  }

  /** The card's author: the stripped text of its `card-author` node, else
      of its `pinned-card-author` node, else `"Client #<i+1>"`. */
  function CardAuthor(nodes: seq<Node>, i: nat): string {
    match FindEither(nodes, "card-author", "pinned-card-author")
    case Some(k) => GetTextStripped(nodes[k])
    case None => "Client #" + NatToString(i + 1)
  }

  /** What the scraper records for card number `i` (0-based). */
  function CardItem(card: Card, i: nat): Item {
    Item(CardTitle(card.nodes), CardAuthor(card.nodes, i), CardReview(card.nodes), IsPinned(card.classAttr))
  }

  /** What a card yields: each field comes from the first node with the
      primary class, else the first with the secondary class, else its
      default; the item is featured exactly when the card is pinned. */
  lemma CardItemSpec(card: Card, i: nat)
    ensures CardItem(card, i).isFeatured <==>
      exists k: nat :: OccursAt(card.classAttr.GetOr([]), PinnedMarker, k)
    ensures forall k: nat :: FirstWithClass(card.nodes, "card-title", k) ==>
      CardItem(card, i).title == GetTextStripped(card.nodes[k])
    ensures NoneWithClass(card.nodes, "card-title") ==>
      forall k: nat :: FirstWithClass(card.nodes, "pinned-card-title", k) ==>
        CardItem(card, i).title == GetTextStripped(card.nodes[k])
    ensures NoneWithClass(card.nodes, "card-title") && NoneWithClass(card.nodes, "pinned-card-title") ==>
      CardItem(card, i).title == []
    ensures forall k: nat :: FirstWithClass(card.nodes, "content-full", k) ==>
      CardItem(card, i).reviewText == GetTextLines(card.nodes[k])
    ensures NoneWithClass(card.nodes, "content-full") ==>
      forall k: nat :: FirstWithClass(card.nodes, "pinned-card-full", k) ==>
        CardItem(card, i).reviewText == GetTextLines(card.nodes[k])
    ensures NoneWithClass(card.nodes, "content-full") && NoneWithClass(card.nodes, "pinned-card-full") ==>
      CardItem(card, i).reviewText == FallbackReview(card.nodes)
    ensures forall k: nat :: FirstWithClass(card.nodes, "card-author", k) ==>
      CardItem(card, i).clientName == GetTextStripped(card.nodes[k])
    ensures NoneWithClass(card.nodes, "card-author") ==>
      forall k: nat :: FirstWithClass(card.nodes, "pinned-card-author", k) ==>
        CardItem(card, i).clientName == GetTextStripped(card.nodes[k])
    ensures NoneWithClass(card.nodes, "card-author") && NoneWithClass(card.nodes, "pinned-card-author") ==>
      CardItem(card, i).clientName == "Client #" + NatToString(i + 1)
  {
    FindEitherSpec(card.nodes, "card-title", "pinned-card-title");
    FindEitherSpec(card.nodes, "content-full", "pinned-card-full");
    FindEitherSpec(card.nodes, "card-author", "pinned-card-author");
  }

  /** The body of the `try` for element `i`: the pinned check and the three
      fallback chains, each node variable reassigned when the first lookup
      finds nothing. */
  method ExtractCard(card: Card, i: nat) returns (item: Item)
    ensures item == CardItem(card, i)
  {
    var isPinned := IsPinned(card.classAttr);
    var nodes := card.nodes;

    var titleNode := FindByClass(nodes, "card-title");
    if titleNode.None? {
      titleNode := FindByClass(nodes, "pinned-card-title");
    }
    assert titleNode == FindEither(nodes, "card-title", "pinned-card-title");
    var title := if titleNode.Some? then GetTextStripped(nodes[titleNode.value]) else [];
    assert title == CardTitle(nodes);

    var contentNode := FindByClass(nodes, "content-full");
    if contentNode.None? {
      contentNode := FindByClass(nodes, "pinned-card-full");
    }
    assert contentNode == FindEither(nodes, "content-full", "pinned-card-full");
    var review;
    if contentNode.Some? {
      review := GetTextLines(nodes[contentNode.value]);
    } else {
      review := FallbackReview(nodes);
    }
    assert review == CardReview(nodes);

    var authorNode := FindByClass(nodes, "card-author");
    if authorNode.None? {
      authorNode := FindByClass(nodes, "pinned-card-author");
    }
    assert authorNode == FindEither(nodes, "card-author", "pinned-card-author");
    var author := if authorNode.Some? then GetTextStripped(nodes[authorNode.value]) else "Client #" + NatToString(i + 1);
    assert author == CardAuthor(nodes, i);

    item := Item(title, author, review, isPinned);
  }

  /** The items collected from `probes`: one per readable element, in
      element order, each extracted with the element's own index. */
  function Collected(probes: seq<Probe>): seq<Item> {
    if probes == [] then []
    else
      var n := |probes| - 1;
      Collected(probes[..n]) + match probes[n]
        case Read(card) => [CardItem(card, n)]
        case Fault => []
  }

  /** How many of `probes` were readable. */
  function ReadCount(probes: seq<Probe>): (c: nat)
    ensures c <= |probes|
  {
    if probes == [] then 0
    else ReadCount(probes[..|probes| - 1]) + (if probes[|probes| - 1].Read? then 1 else 0)
  }

  /** One item per readable element: a fault loses only its own element. */
  lemma {:induction false} CollectedLength(probes: seq<Probe>)
    ensures |Collected(probes)| == ReadCount(probes)
  {
    if probes != [] {
      CollectedLength(probes[..|probes| - 1]);
    }
  }

  lemma {:induction false} ReadCountPrefix(probes: seq<Probe>, j: nat)
    requires j <= |probes|
    ensures ReadCount(probes[..j]) <= ReadCount(probes)
    ensures j < |probes| && probes[j].Read? ==> ReadCount(probes[..j]) < ReadCount(probes)
    decreases |probes|
  {
    if j < |probes| {
      var n := |probes| - 1;
      assert probes[..n][..j] == probes[..j] by { assert j <= n; }
      if j < n {
        ReadCountPrefix(probes[..n], j);
      } else {
        assert probes[..n] == probes[..j];
      }
    } else {
      assert probes[..j] == probes;
    }
  }

  /** Every readable element `j` yields its item at the position given by
      the number of readable elements before it: items keep element order
      and each carries its element's own index. */
  lemma {:induction false} CollectedAt(probes: seq<Probe>, j: nat)
    requires j < |probes| && probes[j].Read?
    ensures ReadCount(probes[..j]) < |Collected(probes)|
    ensures Collected(probes)[ReadCount(probes[..j])] == CardItem(probes[j].card, j)
    decreases |probes|
  {
    var n := |probes| - 1;
    CollectedLength(probes);
    ReadCountPrefix(probes, j);
    CollectedLength(probes[..n]);
    if j < n {
      assert probes[..n][..j] == probes[..j];
      CollectedAt(probes[..n], j);
    } else {
      assert probes[..n] == probes[..j];
    }
  }

  /** The loop of `scrape_data_in_thread` over the matched elements. */
  method ScrapeElements(probes: seq<Probe>) returns (items: seq<Item>)
    ensures items == Collected(probes)
  {
    items := [];
    for i := 0 to |probes|
      invariant items == Collected(probes[..i])
    {
      assert probes[..i + 1][..i] == probes[..i];
      match probes[i]
      case Read(card) =>
        var item := ExtractCard(card, i);
        items := items + [item];
      case Fault =>
    }
    assert probes[..|probes|] == probes;
  }

  /** `scrape_data_in_thread`: nothing when the page could not be loaded or
      queried (the outer `except`), otherwise the collected items. */
  method ScrapeDataInThread(page: Option<seq<Probe>>) returns (items: seq<Item>)
    ensures page.None? ==> items == []
    ensures page.Some? ==> items == Collected(page.value)
  {
    items := [];
    if page.Some? {
      items := ScrapeElements(page.value);
    }
  }

  /** The row stored for a scraped item. */
  function ToRow(agent: nat, item: Item): Testimonial {
    Testimonial(agent, Truncate(item.title, TitleMax), Truncate(item.clientName, ClientNameMax),
                item.reviewText, item.isFeatured, None)
  }

  /** The rows the save pass stores for `items`: those with a non-empty
      review whose write the database accepts, in item order. */
  function SavedRows(agent: nat, items: seq<Item>, accepts: nat -> bool): seq<Testimonial> {
    if items == [] then []
    else
      var n := |items| - 1;
      SavedRows(agent, items[..n], accepts)
        + (if items[n].reviewText != [] && accepts(n) then [ToRow(agent, items[n])] else [])
  }

  /** Every stored row belongs to the agent, has a review, and a title and
      client name within their column limits; there are never more rows
      than items. */
  lemma {:induction false} SavedRowsBounded(agent: nat, items: seq<Item>, accepts: nat -> bool)
    ensures |SavedRows(agent, items, accepts)| <= |items|
    ensures forall r :: r in SavedRows(agent, items, accepts) ==>
      r.agent == agent && r.reviewText != [] && |r.title| <= TitleMax && |r.clientName| <= ClientNameMax
  {
    if items != [] {
      SavedRowsBounded(agent, items[..|items| - 1], accepts);
    }
  }

  /** Each stored row is an item with a non-empty review, title and client
      name cut to their limits, review text and pinned flag as scraped. */
  lemma {:induction false} SavedRowsSound(agent: nat, items: seq<Item>, accepts: nat -> bool, r: Testimonial)
    requires r in SavedRows(agent, items, accepts)
    ensures exists k ::
      && 0 <= k < |items| && items[k].reviewText != [] && accepts(k)
      && r.title == Truncate(items[k].title, TitleMax)
      && r.clientName == Truncate(items[k].clientName, ClientNameMax)
      && r.reviewText == items[k].reviewText && r.isFeatured == items[k].isFeatured
  {
    var n := |items| - 1;
    if r in SavedRows(agent, items[..n], accepts) {
      SavedRowsSound(agent, items[..n], accepts, r);
      var k :| 0 <= k < n && items[..n][k].reviewText != [] && accepts(k)
        && r.title == Truncate(items[..n][k].title, TitleMax)
        && r.clientName == Truncate(items[..n][k].clientName, ClientNameMax)
        && r.reviewText == items[..n][k].reviewText && r.isFeatured == items[..n][k].isFeatured;
      assert items[..n][k] == items[k];
    }
  }

  /** Every item with a non-empty review whose write is accepted is stored;
      a rejected write does not stop the later ones. */
  lemma {:induction false} SavedRowsComplete(agent: nat, items: seq<Item>, accepts: nat -> bool, k: nat)
    requires k < |items| && items[k].reviewText != [] && accepts(k)
    ensures ToRow(agent, items[k]) in SavedRows(agent, items, accepts)
  {
    var n := |items| - 1;
    if k < n {
      SavedRowsComplete(agent, items[..n], accepts, k);
      assert items[..n][k] == items[k];
    }
  }

  /** Nothing is stored when every write is rejected. */
  lemma {:induction false} SavedRowsNoneAccepted(agent: nat, items: seq<Item>, accepts: nat -> bool)
    requires forall k: nat :: !accepts(k)
    ensures SavedRows(agent, items, accepts) == []
  {
    if items != [] {
      SavedRowsNoneAccepted(agent, items[..|items| - 1], accepts);
    }
  }

  /** The keyword arguments the save pass gives `Testimonial(...)`. */
  const SaveKeywords: set<string> := {"agent", "title", "client_name", "review_text", "is_featured"}

  /** Against the fields `Testimonial` declares, the constructor call of the
      save pass raises for every item (`title` is no field), so whatever
      the database would accept, no row is stored and the count is 0. */
  lemma SaveAgainstDeclaredFields(agent: nat, items: seq<Item>, database: nat -> bool)
    ensures !ConstructorAccepts(SaveKeywords)
    ensures SavedRows(agent, items, (k: nat) => database(k) && ConstructorAccepts(SaveKeywords)) == []
  {
    assert "title" in SaveKeywords && "title" !in DeclaredFields;
    assert !ConstructorAccepts(SaveKeywords);
    var accepts := (k: nat) => database(k) && ConstructorAccepts(SaveKeywords);
    assert forall k: nat :: !accepts(k);
    SavedRowsNoneAccepted(agent, items, accepts);
  }

  /** The save loop of `scrape_and_save_testimonials`. */
  method SaveItems(table: Table, agent: nat, items: seq<Item>, accepts: nat -> bool)
    returns (savedCount: nat)
    modifies table
    ensures table.rows == old(table.rows) + SavedRows(agent, items, accepts)
    ensures savedCount == |SavedRows(agent, items, accepts)|
  {
    savedCount := 0;
    for i := 0 to |items|
      invariant table.rows == old(table.rows) + SavedRows(agent, items[..i], accepts)
      invariant savedCount == |SavedRows(agent, items[..i], accepts)|
    {
      assert items[..i + 1][..i] == items[..i];
      var item := items[i];
      if item.reviewText == [] {
        continue;
      }
      if accepts(i) {
        table.Insert(ToRow(agent, item));
        savedCount := savedCount + 1;
      }
    }
    assert items[..|items|] == items;
  }

  /** `scrape_and_save_testimonials`: scrape, then store. */
  method ScrapeAndSaveTestimonials(table: Table, agent: nat, page: Option<seq<Probe>>, accepts: nat -> bool)
    returns (savedCount: nat)
    modifies table
    ensures var items := if page.Some? then Collected(page.value) else [];
      table.rows == old(table.rows) + SavedRows(agent, items, accepts)
      && savedCount == |SavedRows(agent, items, accepts)|
  {
    var scraped := ScrapeDataInThread(page);
    savedCount := SaveItems(table, agent, scraped, accepts);
  }
}
