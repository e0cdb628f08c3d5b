/** `core/management/commands/import_reviews.py`: the older command-line
    importer. It looks the agent up by slug, reads the matched cards with
    its own heuristics (first heading or bold text for the name, longest
    text block for the review), screenshots each card and stores it.

    As in the scraper model, the page is `None` when loading it raised (here
    nothing catches that, so the command stops), otherwise one `Capture`
    per matched element; `accepts(i)` says whether the database accepts
    the row written for element `i`. */
module ImportReviews {
  import opened Wrappers
  import opened Text
  import opened Soup
  import opened Testimonials
  import Models

  /** A matched element: `inner_html()` raised, or its card and the
      screenshot bytes (`None` when `element.screenshot()` raised). */
  datatype Capture = Unreadable | Readable(card: Card, screenshot: Option<Png>)

  datatype Outcome = AgentNotFound | NavigationFailed | NoElements | Imported(count: nat)

  const NameTags: set<string> := {"h3", "h4", "h5", "strong", "b", "h6"}
  const TextTags: set<string> := {"p", "div", "span"}
  const Placeholder := "Review content captured in screenshot."
  const MinReviewLength := 10
  const SkipBelow := 5
  const ClientNameMax := 100

  /** `Agent.objects.get(slug=slug)`, `None` for `Agent.DoesNotExist`. */
  function FindAgent(stored: map<nat, string>, slug: string): (r: Option<nat>)
    requires Models.UniqueSlugs(stored)
    ensures r.Some? ==> r.value in stored && stored[r.value] == slug
    ensures r.None? <==> slug !in stored.Values
  {
    if slug in stored.Values then
      var p :| p in stored && stored[p] == slug;
      Some(p)
    else None
  }

  /** `t.get_text().strip()`. */
  function StrippedText(n: Node): string {
    Strip(GetText(n))
  }

  /** Heuristic 1: the stripped text of the first `h3`, `h4`, `h5`,
      `strong`, `b` or `h6` of the card, else `"Client Review #<i+1>"`. */
  function ClientName(nodes: seq<Node>, i: nat): string {
    var candidates := FindAllByTag(nodes, NameTags);
    if candidates != [] then StrippedText(candidates[0]) else "Client Review #" + NatToString(i + 1)
  }

  /** The name is the text of the first name tag in document order,
      whatever its length; without one it is numbered from 1. */
  lemma ClientNameSpec(nodes: seq<Node>, i: nat)
    ensures forall k: nat :: FirstWithTag(nodes, NameTags, k) ==> ClientName(nodes, i) == StrippedText(nodes[k])
    ensures (forall j :: 0 <= j < |nodes| ==> nodes[j].tag !in NameTags)
      ==> ClientName(nodes, i) == "Client Review #" + NatToString(i + 1)
  {
    forall k: nat | FirstWithTag(nodes, NameTags, k)
      ensures ClientName(nodes, i) == StrippedText(nodes[k])
    {
      FindAllByTagFirst(nodes, NameTags, k);
    }
    if forall j :: 0 <= j < |nodes| ==> nodes[j].tag !in NameTags {
      var candidates := FindAllByTag(nodes, NameTags);
      FindAllByTagMembers(nodes, NameTags);
      if candidates != [] {
        assert candidates[0] in candidates;
      }
    }
  }

  /** Heuristic 2: the first longest stripped `p`, `div` or `span` text
      longer than 10 characters, else the fixed placeholder. */
  function ReviewText(nodes: seq<Node>): string {
    LongestText(nodes, TextTags, StrippedText, MinReviewLength).GetOr(Placeholder)
  }

  /** The review is the longest long-enough text, or the placeholder when
      there is none; either way it is longer than 10 characters. */
  lemma ReviewTextSpec(nodes: seq<Node>)
    ensures |ReviewText(nodes)| > MinReviewLength
    ensures (forall n :: n in nodes && n.tag in TextTags ==> |StrippedText(n)| <= MinReviewLength)
      ==> ReviewText(nodes) == Placeholder
    ensures (exists n :: n in nodes && n.tag in TextTags && |StrippedText(n)| > MinReviewLength)
      ==> exists n :: n in nodes && n.tag in TextTags && StrippedText(n) == ReviewText(nodes)
    ensures forall n ::
      n in nodes && n.tag in TextTags && |StrippedText(n)| > MinReviewLength
      ==> |StrippedText(n)| <= |ReviewText(nodes)|
  {
    LongestTextSpec(nodes, TextTags, StrippedText, MinReviewLength);
    assert |Placeholder| == 38;
  }

  /** What the two heuristics read from a card. */
  datatype Parsed = Parsed(clientName: string, reviewText: string)

  /** Heuristics 1 and 2 applied to card number `i` (0-based). */
  function Heuristics(card: Card, i: nat): Parsed {
    Parsed(ClientName(card.nodes, i), ReviewText(card.nodes))
  }

  /** Every card's review is longer than 10 characters. */
  lemma HeuristicsReviewLong()
    ensures forall card: Card, i: nat :: |Heuristics(card, i).reviewText| > MinReviewLength
  {
    forall card: Card, i: nat ensures |Heuristics(card, i).reviewText| > MinReviewLength {
      ReviewTextSpec(card.nodes);
    }
  }

  /** The row the command writes for element `i`, if it reaches the save;
      `parse` is the per-card extraction (`Heuristics` in the command). */
  function RowFor(agent: nat, c: Capture, i: nat, accepts: nat -> bool, parse: (Card, nat) -> Parsed)
    : seq<Testimonial>
  {
    match c
    case Unreadable => []
    case Readable(card, shot) =>
      var p := parse(card, i);
      if |p.reviewText| < SkipBelow || shot.None? || !accepts(i) then []
      else [Testimonial(agent, [], Truncate(p.clientName, ClientNameMax), p.reviewText, false, shot)]
  }

  /** The rows the import loop stores, in element order. */
  function ImportedRows(agent: nat, captures: seq<Capture>, accepts: nat -> bool,
                        parse: (Card, nat) -> Parsed): seq<Testimonial>
  {
    if captures == [] then []
    else
      var n := |captures| - 1;
      ImportedRows(agent, captures[..n], accepts, parse) + RowFor(agent, captures[n], n, accepts, parse)
  }

  /** Element `i` reaches a successful save: its HTML and screenshot were
      read and the database accepted the row. */
  predicate ReachesSave(c: Capture, i: nat, accepts: nat -> bool) {
    c.Readable? && c.screenshot.Some? && accepts(i)
  }

  function SaveCount(captures: seq<Capture>, accepts: nat -> bool): nat {
    if captures == [] then 0
    else
      var n := |captures| - 1;
      SaveCount(captures[..n], accepts) + (if ReachesSave(captures[n], n, accepts) then 1 else 0)
  }

  /** With reviews that are never shorter than 5 characters the
      `len(review_text) < 5` skip never fires, so exactly one row is stored
      per element that reaches a successful save. */
  lemma {:induction false} ImportedRowsCount(agent: nat, captures: seq<Capture>, accepts: nat -> bool,
                                             parse: (Card, nat) -> Parsed)
    requires forall card: Card, i: nat :: |parse(card, i).reviewText| >= SkipBelow
    ensures |ImportedRows(agent, captures, accepts, parse)| == SaveCount(captures, accepts)
  {
    if captures != [] {
      ImportedRowsCount(agent, captures[..|captures| - 1], accepts, parse);
    }
  }

  /** Nothing is imported, and no save is counted, when every write is
      rejected. */
  lemma {:induction false} ImportedRowsNoneAccepted(agent: nat, captures: seq<Capture>, accepts: nat -> bool,
                                                    parse: (Card, nat) -> Parsed)
    requires forall k: nat :: !accepts(k)
    ensures ImportedRows(agent, captures, accepts, parse) == []
    ensures SaveCount(captures, accepts) == 0
  {
    if captures != [] {
      ImportedRowsNoneAccepted(agent, captures[..|captures| - 1], accepts, parse);
    }
  }

  /** The keyword arguments the command gives `Testimonial(...)`. */
  const ImportKeywords: set<string> := {"agent", "client_name", "review_text", "is_featured"}

  /** Against the fields `Testimonial` declares, the command's constructor
      call raises for every element (`is_featured` is no field), so whatever
      the database would accept, no row is imported and the count is 0. */
  lemma ImportAgainstDeclaredFields(agent: nat, captures: seq<Capture>, database: nat -> bool,
                                    parse: (Card, nat) -> Parsed)
    ensures !ConstructorAccepts(ImportKeywords)
    ensures ImportedRows(agent, captures, (k: nat) => database(k) && ConstructorAccepts(ImportKeywords), parse) == []
    ensures SaveCount(captures, (k: nat) => database(k) && ConstructorAccepts(ImportKeywords)) == 0
  {
    assert "is_featured" in ImportKeywords && "is_featured" !in DeclaredFields;
    assert !ConstructorAccepts(ImportKeywords);
    var accepts := (k: nat) => database(k) && ConstructorAccepts(ImportKeywords);
    assert forall k: nat :: !accepts(k);
    ImportedRowsNoneAccepted(agent, captures, accepts, parse);
  }

  /** Every imported row comes from an element that reached a successful
      save and whose review is at least 5 characters long: it is that
      element's row, with the agent, no title, the extracted name cut to
      100 characters, the extracted review, not featured, and that
      element's screenshot. */
  lemma {:induction false} ImportedRowsSound(agent: nat, captures: seq<Capture>, accepts: nat -> bool,
                                             parse: (Card, nat) -> Parsed, r: Testimonial)
    requires r in ImportedRows(agent, captures, accepts, parse)
    ensures exists k ::
      && 0 <= k < |captures| && ReachesSave(captures[k], k, accepts)
      && |parse(captures[k].card, k).reviewText| >= SkipBelow
      && r == Testimonial(agent, [], Truncate(parse(captures[k].card, k).clientName, ClientNameMax),
                          parse(captures[k].card, k).reviewText, false, captures[k].screenshot)
  {
    var n := |captures| - 1;
    if r in ImportedRows(agent, captures[..n], accepts, parse) {
      ImportedRowsSound(agent, captures[..n], accepts, parse, r);
      var k :| && 0 <= k < n && ReachesSave(captures[..n][k], k, accepts)
        && |parse(captures[..n][k].card, k).reviewText| >= SkipBelow
        && r == Testimonial(agent, [], Truncate(parse(captures[..n][k].card, k).clientName, ClientNameMax),
                            parse(captures[..n][k].card, k).reviewText, false, captures[..n][k].screenshot);
      assert captures[..n][k] == captures[k];
    }
  }

  /** Every element that reaches a successful save with a review of at
      least 5 characters has its row imported; a failure on an earlier
      element does not stop it. */
  lemma {:induction false} ImportedRowsComplete(agent: nat, captures: seq<Capture>, accepts: nat -> bool,
                                                parse: (Card, nat) -> Parsed, k: nat)
    requires k < |captures| && ReachesSave(captures[k], k, accepts)
    requires |parse(captures[k].card, k).reviewText| >= SkipBelow
    ensures Testimonial(agent, [], Truncate(parse(captures[k].card, k).clientName, ClientNameMax),
                        parse(captures[k].card, k).reviewText, false, captures[k].screenshot)
            in ImportedRows(agent, captures, accepts, parse)
  {
    var n := |captures| - 1;
    if k < n {
      ImportedRowsComplete(agent, captures[..n], accepts, parse, k);
      assert captures[..n][k] == captures[k];
    }
  }

  /** The command's rows: one per element that reaches a successful save,
      each not featured, with a review longer than 10 characters and a
      client name within 100 characters. */
  lemma CommandRows(agent: nat, captures: seq<Capture>, accepts: nat -> bool)
    ensures |ImportedRows(agent, captures, accepts, Heuristics)| == SaveCount(captures, accepts)
    ensures forall r :: r in ImportedRows(agent, captures, accepts, Heuristics) ==>
      |r.reviewText| > MinReviewLength && |r.clientName| <= ClientNameMax && !r.isFeatured
  {
    HeuristicsReviewLong();
    ImportedRowsCount(agent, captures, accepts, Heuristics);
    forall r | r in ImportedRows(agent, captures, accepts, Heuristics)
      ensures |r.reviewText| > MinReviewLength && |r.clientName| <= ClientNameMax && !r.isFeatured
    {
      ImportedRowsSound(agent, captures, accepts, Heuristics, r);
    }
  }

  /** Step A of the loop body: parse the card and apply both heuristics. */
  method ExtractCapture(card: Card, i: nat) returns (clientName: string, review: string)
    ensures Parsed(clientName, review) == Heuristics(card, i)
  {
    var nameCandidates := FindAllByTag(card.nodes, NameTags);
    if nameCandidates != [] {
      clientName := StrippedText(nameCandidates[0]);
    } else {
      clientName := "Client Review #" + NatToString(i + 1);
    }
    var textCandidates := FindAllByTag(card.nodes, TextTags);
    var validTexts := LongTexts(textCandidates, StrippedText, MinReviewLength);
    if validTexts != [] {
      review := Longest(validTexts);
    } else {
      review := Placeholder;
    }
  }

  lemma ImportedRowsStep(agent: nat, captures: seq<Capture>, i: nat, accepts: nat -> bool,
                         parse: (Card, nat) -> Parsed)
    requires i < |captures|
    ensures ImportedRows(agent, captures[..i + 1], accepts, parse)
      == ImportedRows(agent, captures[..i], accepts, parse) + RowFor(agent, captures[i], i, accepts, parse)
  {
    assert captures[..i + 1][..i] == captures[..i];
  }

  /** One pass of the loop body: extract, skip or save element `i`. */
  method ImportElement(table: Table, agent: nat, c: Capture, i: nat, accepts: nat -> bool)
    returns (saved: bool)
    modifies table
    ensures table.rows == old(table.rows) + RowFor(agent, c, i, accepts, Heuristics)
    ensures saved <==> RowFor(agent, c, i, accepts, Heuristics) != []
  {
    saved := false;
    match c
    case Unreadable =>
    case Readable(card, shot) =>
      var clientName, review := ExtractCapture(card, i);
      if |review| < SkipBelow {
        return;
      }
      if shot.None? || !accepts(i) {
        return;
      }
      table.Insert(Testimonial(agent, [], Truncate(clientName, ClientNameMax), review, false, shot));
      saved := true;
  }

  /** The extract-and-save loop over the matched elements (step 5). */
  method ImportElements(table: Table, agent: nat, elements: seq<Capture>, accepts: nat -> bool)
    returns (importedCount: nat)
    modifies table
    ensures table.rows == old(table.rows) + ImportedRows(agent, elements, accepts, Heuristics)
    ensures importedCount == |ImportedRows(agent, elements, accepts, Heuristics)|
  {
    importedCount := 0;
    for i := 0 to |elements|
      invariant table.rows == old(table.rows) + ImportedRows(agent, elements[..i], accepts, Heuristics)
      invariant importedCount == |ImportedRows(agent, elements[..i], accepts, Heuristics)|
    {
      ImportedRowsStep(agent, elements, i, accepts, Heuristics);
      var saved := ImportElement(table, agent, elements[i], i, accepts);
      if saved {
        importedCount := importedCount + 1;
      }
    }
    assert elements[..|elements|] == elements;
  }

  /** `Command.handle`. */
  method Handle(table: Table, stored: map<nat, string>, slug: string, page: Option<seq<Capture>>,
                accepts: nat -> bool)
    returns (outcome: Outcome)
    requires Models.UniqueSlugs(stored)
    modifies table
    ensures FindAgent(stored, slug).None? ==> outcome == AgentNotFound && table.rows == old(table.rows)
    ensures FindAgent(stored, slug).Some? && page.None? ==>
      outcome == NavigationFailed && table.rows == old(table.rows)
    ensures FindAgent(stored, slug).Some? && page == Some([]) ==>
      outcome == NoElements && table.rows == old(table.rows)
    ensures FindAgent(stored, slug).Some? && page.Some? && page.value != [] ==>
      var rows := ImportedRows(FindAgent(stored, slug).value, page.value, accepts, Heuristics);
      outcome == Imported(|rows|) && table.rows == old(table.rows) + rows
  {
    var agent := FindAgent(stored, slug);
    if agent.None? {
      return AgentNotFound;
    }
    if page.None? {
      return NavigationFailed;
    }
    if |page.value| == 0 {
      return NoElements;
    }
    var importedCount := ImportElements(table, agent.value, page.value, accepts);
    outcome := Imported(importedCount);
  }
}
