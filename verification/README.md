# Agent profiles and testimonial importers, modelled in Dafny

The system is a Django site where each financial agent has a public
profile page. This model covers three parts of its core:

- **Agents and articles** (`core/models.py`).
  - Saving an agent without a slug derives one from the agent's name. When
    another agent already holds it, `-1`, `-2`, ... is appended until a free
    slug is found.
  - An agent's WhatsApp link is `https://wa.me/<phone>?text=<message>`, with
    the message percent-encoded by Python's `urllib.parse.quote` (section 2.1
    of RFC 3986, UTF-8, upper-case hexadecimal, unreserved characters and
    `/` kept).
  - Saving an article without a slug sets it to `<slugify(title)>-<agent id>`.
- **The scraper** (`core/utils.py`).
  - It reads every matched review card of a page: the pinned flag, a title,
    a review text and an author. Each comes from a primary CSS class, then a
    secondary one, then a fallback.
  - It then stores one testimonial per item that has a review, with the
    item's title and pinned flag. The `Testimonial` model in
    `core/models.py` declares neither field, so against that model every
    such write raises and nothing is stored (see Findings).
  - A failure on one card loses only that card. A failure to save loses
    only that row.
- **The `import_reviews` command**
  (`core/management/commands/import_reviews.py`).
  - It looks the agent up by slug and loads the page.
  - For each matched element it picks a client name (the first heading or
    bold text) and a review (the longest text block over 10 characters, else
    a fixed placeholder). It screenshots the element and stores the row,
    passing `is_featured=False`. That field is also missing from the declared
    model, so against it every write raises and the count is 0.
  - It reports how many rows it imported, or why it stopped.

Modules:

| file | module | models |
|---|---|---|
| `wrappers.dfy` | `Wrappers` | `Option` |
| `text.dfy` | `Text` | Python's `str.strip`, slicing `s[:n]`, `in` on strings, `str(n)` of a natural number |
| `percent_encoding.dfy` | `PercentEncoding` | `quote`, UTF-8, `unquote` |
| `soup.dfy` | `Soup` | the BeautifulSoup queries both importers use (`find(class_=...)`, `find_all([...])`, the three `get_text` forms, `max(..., key=len)`) |
| `testimonials.dfy` | `Testimonials` | the testimonial row and the table rows are appended to |
| `models.dfy` | `Models` | `Agent.save`, `Agent.whatsapp_link`, `Article.save` |
| `scraper.dfy` | `Scraper` | `scrape_data_in_thread`, `scrape_and_save_testimonials` |
| `import_reviews.dfy` | `ImportReviews` | `Command.handle` |

The outside world is a set of parameters:

- `slugify` is a function parameter. Nothing is assumed about it.
- A page is `None` when loading or querying it raised. Otherwise it is one
  value per matched element: the element's parsed card, or the fault its
  browser calls raised. For the command, the value also holds the
  screenshot bytes, or `None` when the screenshot raised.
- Whether the database accepts a row is the oracle `accepts: nat -> bool`,
  indexed by the element (or item) the row comes from.
- A parsed card is its `class` attribute and the elements of its inner HTML
  in document order. Each element has a tag, a class set and its text
  strings.
- Slug columns hold at most 50 characters. Whether the database enforces
  that on a write is the parameter `strictLength: bool`.

Agents and articles are classes whose `Save` methods update `slug` (and the
agent's `pk`) in place. The testimonial table is a class whose `rows` only
grow. The three loops (card extraction, the save pass, the command's import
loop) are methods. Each is proved equal to a recursive specification
function, and the source's promises are lemmas about that function.

## Model

| member | source | states |
|---|---|---|
| `Models.AllocateSlug` | core/models.py:25-34 | The result is `base`, or `base-k` for the least `k` such that every earlier candidate is taken. It is never a slug another agent holds. The loop rejects at most as many candidates as there are taken slugs, so it always ends. |
| `Models.CandidateInjective` | core/models.py:31 | Different counters give different candidate slugs. |
| `Models.TriedSize` | core/models.py:30-32 | The first `n` candidates are `n` distinct slugs. |
| `Models.WriteAgentRow` | core/models.py:36 | The row write fails exactly when another agent already holds the slug (the column is unique, models.py:7) or when the slug is over the `SlugField`'s default 50 characters on a database that enforces column lengths. Otherwise the table gains only the agent's own key, which now holds the slug. Every other agent's row is unchanged and slugs stay unique. |
| `Models.Agent.Save` | core/models.py:22-36 | A non-empty slug is kept. An empty one becomes the least free candidate derived from `slugify(name)`, among the slugs of the other agents. The write then succeeds exactly when that slug fits the column, and on success the agent gets its key. |
| `Models.WhatsappLinkDecodes` | core/models.py:38-42 | `Agent.WhatsappLink` is `WhatsappLinkFor(phoneNumber, whatsappMessage)`, and this lemma is about `WhatsappLinkFor`. The link starts with `https://wa.me/<phone>?text=`. The rest is a well-formed percent-encoding, and `unquote` of it gives back exactly the agent's message. |
| `Models.ArticleSlugsOfDistinctAgents` | core/models.py:94-96 | Article slugs built for different agents never coincide, whatever their titles: the part after the last `-` is the agent id. |
| `Models.WriteArticleRow` | core/models.py:97 | An article's row write fails exactly when another article holds the slug (the column is unique, models.py:87) or when the slug does not fit the column. Otherwise the stored slugs gain exactly this one. |
| `Models.Article.Save` | core/models.py:92-97 | A non-empty slug is kept. An empty one becomes `slugify(title)-<agent id>`. Then the row is written. |
| `Models.SaveTwoArticles` | core/models.py:84-97 | As written: two new articles of one agent whose titles slugify alike. The first is stored, and the second gets the same slug, so the unique column rejects its write. |
| `Models.Article.SaveUnique` | core/models.py:92-97 | The corrected save. An empty slug becomes the least free candidate derived from `slugify(title)-<agent id>`, so it is never another article's slug, and the write fails only when the slug does not fit the column. A non-empty slug is kept. |
| `Models.SaveTwoArticlesUnique` | core/models.py:84-97 | Corrected: the same two articles saved with `SaveUnique` are both stored, under two new slugs. |
| `PercentEncoding.UnquoteQuote` | core/models.py:41 | `unquote(quote(s)) == s` for every string. |
| `PercentEncoding.QuoteEncoded` | core/models.py:41 | `quote` produces only unreserved characters, `/` and `%XY` triplets with upper-case hexadecimal digits. |
| `PercentEncoding.QuoteSafeIdentity` | core/models.py:41 | A string of unreserved characters and `/` is left unchanged. |
| `PercentEncoding.PercentDecodeQuote` | core/models.py:41 | Percent-decoding the output of `quote` gives the UTF-8 bytes of the input. |
| `PercentEncoding.Utf8RoundTrip` | core/models.py:41 | Strict UTF-8 decoding inverts the encoding `quote` applies. |
| `PercentEncoding.Utf8DecodeChar` | core/models.py:41 | Decoding one character's UTF-8 bytes gives that character back, for each of the 1- to 4-byte forms. |
| `Text.Strip` | core/management/commands/import_reviews.py:68 | The result is the input with its leading and trailing whitespace removed. It neither starts nor ends with whitespace, and it is empty exactly when the input is all whitespace. |
| `Text.Truncate` | core/utils.py:111-112 | `s[:n]` is a prefix of `s` of length `min(n, len(s))`. |
| `Text.Contains` | core/utils.py:33 | True exactly when the substring occurs at some position. |
| `Text.NatToStringInjective` | core/models.py:31 | Different numbers print differently. |
| `Text.DecimalRoundTrip` | core/models.py:31 | Parsing the printed decimal gives the number back. |
| `Soup.FindByClassSpec` | core/utils.py:49 | `find(class_=c)` returns the first node carrying `c`, and nothing exactly when no node carries it. |
| `Soup.FindAllByTagMembers` | core/utils.py:63 | `find_all(tags)` returns exactly the nodes whose tag is one of `tags`. |
| `Soup.FindAllByTagFirst` | core/management/commands/import_reviews.py:65-68 | The first node `find_all` returns is the first matching node in document order. |
| `Soup.LongTextsMembers` | core/utils.py:64 | The filtered list holds exactly the texts longer than the bound. |
| `Soup.LongestIndex` | core/utils.py:65 | `max(..., key=len)` picks a longest element, and the first of several longest ones. |
| `Soup.LongestTextSpec` | core/management/commands/import_reviews.py:73-79 | There is no pick exactly when no tagged text is longer than the bound. Otherwise the pick is one of those texts, longer than the bound, and none of them is longer. |
| `Scraper.IsPinned` | core/utils.py:32-33 | True exactly when `pinned-card` occurs in the class attribute. A missing attribute is not pinned. |
| `Scraper.FindEitherSpec` | core/utils.py:49-51 | The first node with the primary class wins. Only when there is none, the first with the secondary class. Nothing when neither class occurs. |
| `Scraper.FallbackReviewSpec` | core/utils.py:63-65 | The fallback review is empty exactly when no `p`, `div` or `span` text is over 15 characters. Otherwise it is one of those texts and none of them is longer. |
| `Scraper.CardItemSpec` | core/utils.py:31-80 | Title, review and author each come from the first node with the primary class. When no node has it, they come from the first node with the secondary class. When neither occurs, they take the default (`""`, the fallback text, `Client #<i+1>`). The item is featured exactly when the card is pinned. |
| `Scraper.ExtractCard` | core/utils.py:30-80 | The body of the per-element `try`, with its node reassignments, computes the card's item. |
| `Scraper.CollectedLength` | core/utils.py:29-84 | One item per readable element. A fault loses only its own element. |
| `Scraper.CollectedAt` | core/utils.py:29-84 | Items keep element order. The item of readable element `j` sits after the items of the readable elements before it, and is extracted with index `j`. |
| `Scraper.ScrapeElements` | core/utils.py:29-84 | The loop returns exactly the collected items. |
| `Scraper.ScrapeDataInThread` | core/utils.py:11-91 | No items when the page could not be loaded or queried. Otherwise the collected items. |
| `Scraper.SavedRowsBounded` | core/utils.py:103-118 | There are never more stored rows than items. Every row belongs to the agent, has a non-empty review, a title of at most 200 and a client name of at most 100 characters. |
| `Scraper.SavedRowsSound` | core/utils.py:103-121 | Every stored row comes from an item with a non-empty review whose write was accepted. It carries that item's title and name cut to their limits, and its review text and pinned flag unchanged. |
| `Scraper.SavedRowsComplete` | core/utils.py:103-121 | Every item with a non-empty review whose write is accepted is stored. A rejected write does not stop the later ones. |
| `Scraper.SavedRowsNoneAccepted` | core/utils.py:103-121 | When every write is rejected, nothing is stored. |
| `Scraper.SaveAgainstDeclaredFields` | core/utils.py:109-116 | `title` is not a field `Testimonial` declares (models.py:47-51), so the constructor call is rejected. Whatever the database would accept, the save pass stores no row. |
| `Scraper.SaveItems` | core/utils.py:101-123 | The table gains exactly the saved rows, in item order, and the count returned is their number. |
| `Scraper.ScrapeAndSaveTestimonials` | core/utils.py:93-123 | The table gains the saved rows of the scraped items, and the result is their number. |
| `Testimonials.Table.Insert` | core/utils.py:117 | Saving a new testimonial appends exactly that row. |
| `ImportReviews.FindAgent` | core/management/commands/import_reviews.py:23-27 | Finds the agent holding the slug. Nothing exactly when no agent holds it. |
| `ImportReviews.ClientNameSpec` | core/management/commands/import_reviews.py:64-70 | The name is the stripped text of the first `h3`/`h4`/`h5`/`strong`/`b`/`h6` in document order, whatever its length. Without one it is `Client Review #<i+1>`. |
| `ImportReviews.ReviewTextSpec` | core/management/commands/import_reviews.py:72-81 | The review is always longer than 10 characters. Without a long enough `p`/`div`/`span` text it is the placeholder. Otherwise it is one of those texts and none of them is longer. |
| `ImportReviews.HeuristicsReviewLong` | core/management/commands/import_reviews.py:72-85 | For every card the review is over 10 characters, so the `< 5` skip never fires. |
| `ImportReviews.ImportedRowsCount` | core/management/commands/import_reviews.py:83-105 | When no review is under 5 characters, one row is stored exactly for each element whose HTML and screenshot were read and whose save was accepted. |
| `ImportReviews.ImportedRowsNoneAccepted` | core/management/commands/import_reviews.py:83-108 | When every write is rejected, nothing is imported and no save is counted. |
| `ImportReviews.ImportAgainstDeclaredFields` | core/management/commands/import_reviews.py:92-97 | `is_featured` is not a field `Testimonial` declares (models.py:47-51), so the constructor call is rejected. Whatever the database would accept, nothing is imported and the count is 0. |
| `ImportReviews.ImportedRowsSound` | core/management/commands/import_reviews.py:83-102 | Every stored row comes from one element that reached a successful save with a review of at least 5 characters. It is exactly that element's row: the agent, no title, the extracted name cut to 100 characters, the extracted review, not featured, and that element's screenshot. |
| `ImportReviews.ImportedRowsComplete` | core/management/commands/import_reviews.py:58-108 | Every element that reaches a successful save with a review of at least 5 characters has its row stored, whatever happened to earlier elements. |
| `ImportReviews.CommandRows` | core/management/commands/import_reviews.py:57-105 | With the command's heuristics, the imported count equals the number of elements that reach a successful save. Every row's review is over 10 characters. |
| `ImportReviews.ExtractCapture` | core/management/commands/import_reviews.py:60-81 | Step A of the loop computes both heuristics for the card. |
| `ImportReviews.ImportElement` | core/management/commands/import_reviews.py:59-108 | One pass appends the element's row when it reaches the save, and nothing otherwise. It reports whether it saved. |
| `ImportReviews.ImportElements` | core/management/commands/import_reviews.py:56-108 | The table gains exactly the imported rows, in element order, and the count returned is their number. |
| `ImportReviews.Handle` | core/management/commands/import_reviews.py:17-111 | An unknown slug, a page that fails to load and an empty match each stop the command before any write. Otherwise it imports exactly the imported rows and reports their number. |

## Left out

- The browser is not modelled. This covers Playwright's launch, navigation, scrolling, sleeps, `query_selector_all`, the "read more" click, visibility checks and `browser.close()`. A page is its list of matched elements, and each element is what `inner_html()` returns after the click.
- The `ThreadPoolExecutor` around the scraper is left out. It runs one task and waits for its result, so the call is modelled as a direct call.
- Console output (`print`, `self.stdout.write`) is left out.
- HTML parsing is left out. A card is its elements in document order, each with its tag, classes and text strings, so nesting is flattened.
- BeautifulSoup's treatment of comments and other non-text strings inside `get_text` is not modelled.
- `slugify` is not modelled. Django's `slugify` is a parameter, and no property of it is assumed.
- `unquote` replaces invalid UTF-8 with U+FFFD, and this is not modelled. The model returns `None` there instead, a case `UnquoteQuote` shows never arises for `quote`'s output.
- Screenshot storage is not modelled: the file name built from `time.time()` and the storage backend. `screenshot.save(...)` followed by `testimonial.save()` is modelled as one insert, accepted or not per `accepts`.
- The agent table is kept only as its primary-key-to-slug map. The other columns and `created_at` are not modelled.
- Concurrent writers between the slug check and the row write are not modelled.
- `add_arguments` and option parsing are left out. `Handle` receives the slug and the loaded page.
- The `__str__` methods, `Service`, `Credential` and `Lead` are not part of this model. Nor are the views, forms, URL routing, admin and themes.
- `Testimonial` in `core/models.py` declares only `agent`, `client_name`, `review_text` and `screenshot`. The scraper's save pass also passes `title` and `is_featured`. The command passes `is_featured` but no `title`, and its screenshot is attached afterwards. Django's model constructor raises `TypeError` for a keyword that names no field. So against `core/models.py` as it stands, both constructor calls raise for every item, the `except` catches each one, and both functions report 0. `SaveAgainstDeclaredFields` and `ImportAgainstDeclaredFields` prove this. The row here carries all six fields, as for the model revision the importers were written for. Whether a write succeeds is the `accepts` oracle, and the all-rejecting case is the one these two lemmas instantiate.
- Django does not validate `max_length` on `save()`. For agent and article slugs, whether the database enforces the 50-character column is the `strictLength` parameter. For testimonials, whether it accepts an over-long value is left to `accepts`.
- The comment in `Agent.save` speaks of regenerating the slug "if name changed", but the code only fills an empty slug. The model follows the code.

- Soup.LongestTextSpec: states that the pick is a longest text, not that it is the first of equally long ones in document order. That tie-break is stated on the filtered list by `Soup.LongestIndex`, and the list keeps document order by construction.
- Scraper.FallbackReviewSpec: the same tie-break is not stated in document order.
- ImportReviews.ReviewTextSpec: the same tie-break is not stated in document order.

## Findings

| source | as written | input that shows it | evidently intended | confidence | as-written member | corrected member |
|---|---|---|---|---|---|---|
| core/models.py:94-96 | An empty article slug becomes `slugify(title)-<agent id>`, and the comment calls that unique. The slug column is `unique=True`. | Two articles by agent 7 titled `Tax Tips` and `Tax tips!` both slugify to `tax-tips` and both get `tax-tips-7`. The second insert violates the unique constraint. | Article slugs unique across articles, disambiguated like agent slugs (`tax-tips-7-1`). | not executed; high | `Models.SaveTwoArticles` | `Models.SaveTwoArticlesUnique` |
| core/utils.py:109-116 | The save pass builds `Testimonial(agent=..., title=..., client_name=..., review_text=..., is_featured=...)`, but `Testimonial` (models.py:47-51) declares no `title` or `is_featured`. | Any page with one card that has a review. The constructor raises `TypeError`, the `except` swallows it, and the function returns 0. | `Testimonial` declares `title` and `is_featured`, and accepted rows are stored. | not executed; high | `Scraper.SaveAgainstDeclaredFields` | `Scraper.SavedRowsComplete` |
| core/management/commands/import_reviews.py:92-97 | The command builds `Testimonial(..., is_featured=False)`, but `Testimonial` (models.py:47-51) declares no `is_featured`. | Any page with one readable card. The constructor raises `TypeError`, the `except` reports a failed capture, and the command imports 0 testimonials. | `Testimonial` declares `is_featured`, and every element that reaches the save is imported. | not executed; high | `ImportReviews.ImportAgainstDeclaredFields` | `ImportReviews.ImportedRowsComplete` |
