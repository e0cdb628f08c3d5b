/** `core/models.py`: how an agent gets its unique slug, how an article
    gets its slug, and the WhatsApp deep link of an agent's profile.

    Django's `slugify` is a parameter (`string -> string`) about which
    nothing is assumed. The agent table is the map from primary key to slug
    of the agents already stored. */
module Models {
  import opened Wrappers
  import opened Text
  import opened PercentEncoding

  // ------------------------------------------------------------ agent slug

  /** The slugs `Agent.objects.filter(slug=...).exclude(pk=pk)` can find:
      those of every stored agent other than the one with key `pk`. An
      agent not saved yet has no key and excludes nobody. */
  function OtherSlugs(stored: map<nat, string>, pk: Option<nat>): set<string> {
    set p | p in stored && Some(p) != pk :: stored[p]
  }

  /** The `k`-th slug `Agent.save` tries: the base slug itself, then
      `base-1`, `base-2`, ... */
  function Candidate(base: string, k: nat): (s: string)
    ensures k == 0 ==> s == base
    ensures 0 < k ==> |s| > |base| + 1 && s[..|base| + 1] == base + "-"
  {
    if k == 0 then base else base + "-" + NatToString(k)
  }

  /** Different counters never give the same candidate. */
  lemma CandidateInjective(base: string, j: nat, k: nat)
    requires Candidate(base, j) == Candidate(base, k)
    ensures j == k
  {
    if j != 0 && k != 0 {
      var s := Candidate(base, j);
      assert s[|base| + 1..] == NatToString(j);
      assert Candidate(base, k)[|base| + 1..] == NatToString(k);
      NatToStringInjective(j, k);
    }
  }

  /** The candidates tried before the `n`-th one. */
  ghost function Tried(base: string, n: nat): set<string> {
    set k | 0 <= k < n :: Candidate(base, k)
  }

  lemma {:induction false} TriedSize(base: string, n: nat)
    ensures |Tried(base, n)| == n
  {
    if n > 0 {
      TriedSize(base, n - 1);
      assert Tried(base, n) == Tried(base, n - 1) + {Candidate(base, n - 1)};
      if Candidate(base, n - 1) in Tried(base, n - 1) {
        var j :| 0 <= j < n - 1 && Candidate(base, j) == Candidate(base, n - 1);
        CandidateInjective(base, j, n - 1);
      }
    }
  }

  lemma SubsetSize<T>(a: set<T>, b: set<T>)
    requires a <= b
    ensures |a| <= |b|
  {
    assert b == a + (b - a);
    assert a * (b - a) == {};
  }

  /** `Candidate(base, k)` is the first candidate not in `taken`. */
  ghost predicate LeastFreeAt(base: string, taken: set<string>, k: nat) {
    Candidate(base, k) !in taken && forall j :: 0 <= j < k ==> Candidate(base, j) in taken
  }

  /** The disambiguation loop of `Agent.save`: try the base slug, then
      `base-1`, `base-2`, ... and keep the first that no other agent holds.
      It stops after at most `|taken|` rejected candidates, since the
      candidates are pairwise distinct and each rejected one is in `taken`. */
  method AllocateSlug(base: string, taken: set<string>) returns (slug: string, ghost k: nat)
    ensures slug == Candidate(base, k) && LeastFreeAt(base, taken, k)
    ensures slug !in taken
    ensures k <= |taken|
  {
    slug := base;
    var counter := 1;
    k := 0;
    TriedSize(base, 0);
    while slug in taken
      invariant counter == k + 1
      invariant slug == Candidate(base, k)
      invariant forall j :: 0 <= j < k ==> Candidate(base, j) in taken
      invariant Tried(base, k) <= taken && |Tried(base, k)| == k
      invariant k <= |taken|
      decreases |taken| - k
    {
      assert Tried(base, k + 1) == Tried(base, k) + {slug};
      TriedSize(base, k + 1);
      SubsetSize(Tried(base, k + 1), taken);
      slug := base + "-" + NatToString(counter);
      counter := counter + 1;
      k := k + 1;
    }
  }

  /** Every stored agent has its own slug (the column is `unique=True`). */
  ghost predicate UniqueSlugs(stored: map<nat, string>) {
    forall p, q :: p in stored && q in stored && p != q ==> stored[p] != stored[q]
  }

  /** `SlugField`'s default `max_length`. */
  const SlugMaxLength := 50

  /** Whether the slug column takes `slug`: always when the database does
      not enforce the column length (SQLite), otherwise only up to 50
      characters. */
  predicate SlugFits(slug: string, strictLength: bool) {
    !strictLength || |slug| <= SlugMaxLength
  }

  /** The row write of `super().save()`: an update of the agent's own row,
      or an insert under the key `newPk` the database hands out. It is
      rejected when another agent holds the slug (the column is unique) or
      when the slug does not fit the column. */
  function WriteAgentRow(stored: map<nat, string>, pk: Option<nat>, newPk: nat, slug: string, strictLength: bool)
    : (r: Option<map<nat, string>>)
    requires newPk !in stored
    ensures r.None? <==> slug in OtherSlugs(stored, pk) || !SlugFits(slug, strictLength)
    ensures r.Some? && UniqueSlugs(stored) ==> UniqueSlugs(r.value)
    ensures r.Some? ==> r.value.Keys == stored.Keys + {pk.GetOr(newPk)}
    ensures r.Some? ==> r.value[pk.GetOr(newPk)] == slug
    ensures r.Some? ==> forall p :: p in stored && p != pk.GetOr(newPk) ==> r.value[p] == stored[p]
  {
    if slug in OtherSlugs(stored, pk) || !SlugFits(slug, strictLength) then None
    else
      var key := pk.GetOr(newPk);
      var r := stored[key := slug];
      assert forall p :: p in stored && p != key ==> stored[p] != slug by {
        forall p | p in stored && p != key ensures stored[p] != slug {
          assert Some(p) != pk;
          assert stored[p] in OtherSlugs(stored, pk);
        }
      }
      Some(r)
  }

  class Agent {
    var pk: Option<nat>
    var name: string
    var slug: string
    var phoneNumber: string
    var whatsappMessage: string

    /** A new, unsaved agent with no slug yet. */
    constructor (name: string, phoneNumber: string, whatsappMessage: string)
      ensures this.pk == None && this.name == name && this.slug == []
      ensures this.phoneNumber == phoneNumber && this.whatsappMessage == whatsappMessage
    {
      this.pk := None;
      this.name := name;
      this.slug := [];
      this.phoneNumber := phoneNumber;
      this.whatsappMessage := whatsappMessage;
    }

    /** `Agent.save`: an agent without a slug gets the first free candidate
        derived from `slugify(name)`; a non-empty slug is kept as it is.
        Then the row is written; `None` when the unique constraint rejects
        it, in which case the new slug is still set on the object. */
    method Save(stored: map<nat, string>, newPk: nat, slugify: string -> string, strictLength: bool)
      returns (result: Option<map<nat, string>>)
      requires newPk !in stored
      modifies this`slug, this`pk
      ensures old(slug) != [] ==> slug == old(slug)
      ensures old(slug) == [] ==>
        slug !in OtherSlugs(stored, old(pk))
        && exists k :: LeastFreeAt(slugify(name), OtherSlugs(stored, old(pk)), k)
                       && slug == Candidate(slugify(name), k)
      ensures result == WriteAgentRow(stored, old(pk), newPk, slug, strictLength)
      ensures pk == if result.Some? then Some(old(pk).GetOr(newPk)) else old(pk)
      ensures old(slug) == [] ==> (result.Some? <==> SlugFits(slug, strictLength))
    {
      var taken := OtherSlugs(stored, pk);
      ghost var k: nat := 0;
      if slug == [] {
        var s;
        s, k := AllocateSlug(slugify(name), taken);
        slug := s;
      }
      result := WriteAgentRow(stored, pk, newPk, slug, strictLength);
      if result.Some? {
        pk := Some(pk.GetOr(newPk));
      }
      assert old(slug) == [] ==> LeastFreeAt(slugify(name), taken, k) && slug == Candidate(slugify(name), k);
    }

    /** `Agent.whatsapp_link`. */
    function WhatsappLink(): string
      reads this
    {
      WhatsappLinkFor(phoneNumber, whatsappMessage)
    }
  }

  // ------------------------------------------------------- WhatsApp link

  const WaPrefix := "https://wa.me/"
  const TextParam := "?text="

  function WhatsappLinkFor(phoneNumber: string, message: string): string {
    WaPrefix + phoneNumber + TextParam + Quote(message)
  }

  /** The link is the `wa.me` URL of the phone number whose `text` query
      value is a well-formed percent-encoding that decodes to the message. */
  lemma WhatsappLinkDecodes(phoneNumber: string, message: string)
    ensures var link := WhatsappLinkFor(phoneNumber, message);
      var head := WaPrefix + phoneNumber + TextParam;
      |head| <= |link| && link[..|head|] == head
      && Encoded(link[|head|..]) && Unquote(link[|head|..]) == Some(message)
  {
    var head := WaPrefix + phoneNumber + TextParam;
    assert WhatsappLinkFor(phoneNumber, message)[|head|..] == Quote(message);
    QuoteEncoded(message);
    UnquoteQuote(message);
  }

  // --------------------------------------------------------- article slug

  /** `f"{base_slug}-{self.agent.id}"`. */
  function ArticleSlug(base: string, agentId: nat): string {
    base + "-" + NatToString(agentId)
  }

  /** Position of the last `c` in `s`, or -1. */
  function LastIndexOf(s: string, c: char): int {
    if s == [] then -1
    else if s[|s| - 1] == c then |s| - 1
    else LastIndexOf(s[..|s| - 1], c)
  }

  lemma {:induction false} LastDashBeforeDigits(base: string, digits: string)
    requires forall k :: 0 <= k < |digits| ==> IsDigit(digits[k])
    ensures LastIndexOf(base + "-" + digits, '-') == |base|
  {
    if digits != [] {
      var s := base + "-" + digits;
      var shorter := digits[..|digits| - 1];
      assert s[..|s| - 1] == base + "-" + shorter;
      LastDashBeforeDigits(base, shorter);
    }
  }

  /** Two article slugs built for different agents always differ: the part
      after the last `-` is the agent id. */
  lemma ArticleSlugsOfDistinctAgents(base1: string, id1: nat, base2: string, id2: nat)
    requires ArticleSlug(base1, id1) == ArticleSlug(base2, id2)
    ensures id1 == id2
  {
    var s := ArticleSlug(base1, id1);
    LastDashBeforeDigits(base1, NatToString(id1));
    LastDashBeforeDigits(base2, NatToString(id2));
    assert NatToString(id1) == s[|base1| + 1..] == NatToString(id2);
    NatToStringInjective(id1, id2);
  }

  /** The row write of `Article`'s `super().save()`, against the slugs of
      the other stored articles: rejected when one of them holds the slug
      (the column is unique) or when the slug does not fit the column. */
  function WriteArticleRow(others: set<string>, slug: string, strictLength: bool): (r: Option<set<string>>)
    ensures r.None? <==> slug in others || !SlugFits(slug, strictLength)
    ensures r.Some? ==> r.value == others + {slug}
  {
    if slug in others || !SlugFits(slug, strictLength) then None else Some(others + {slug})
  }

  class Article {
    var agentId: nat
    var title: string
    var slug: string

    constructor (agentId: nat, title: string)
      ensures this.agentId == agentId && this.title == title && this.slug == []
    {
      this.agentId := agentId;
      this.title := title;
      this.slug := [];
    }

    /** `Article.save` as written: an empty slug becomes
        `slugify(title)-<agent id>`; a non-empty slug is kept. Then the row
        is written. */
    method Save(slugify: string -> string, others: set<string>, strictLength: bool)
      returns (result: Option<set<string>>)
      modifies this`slug
      ensures old(slug) != [] ==> slug == old(slug)
      ensures old(slug) == [] ==> slug == ArticleSlug(slugify(title), agentId)
      ensures result == WriteArticleRow(others, slug, strictLength)
    {
      if slug == [] {
        slug := ArticleSlug(slugify(title), agentId);
      }
      result := WriteArticleRow(others, slug, strictLength);
    }

    /** `Article.save` with the uniqueness its comment intends: the
        `slugify(title)-<agent id>` slug, disambiguated against the other
        stored article slugs the way `Agent.save` does it. The unique
        constraint then never rejects the write. */
    method SaveUnique(slugify: string -> string, others: set<string>, strictLength: bool)
      returns (result: Option<set<string>>)
      modifies this`slug
      ensures old(slug) != [] ==> slug == old(slug)
      ensures old(slug) == [] ==>
        slug !in others
        && exists k :: LeastFreeAt(ArticleSlug(slugify(title), agentId), others, k)
                       && slug == Candidate(ArticleSlug(slugify(title), agentId), k)
      ensures result == WriteArticleRow(others, slug, strictLength)
      ensures old(slug) == [] ==> (result.Some? <==> SlugFits(slug, strictLength))
    {
      if slug == [] {
        var base := ArticleSlug(slugify(title), agentId);
        var s, k := AllocateSlug(base, others);
        slug := s;
        assert LeastFreeAt(ArticleSlug(slugify(title), agentId), others, k)
          && slug == Candidate(ArticleSlug(slugify(title), agentId), k);
      }
      result := WriteArticleRow(others, slug, strictLength);
    }
  }

  /** As written: two new articles of one agent whose titles slugify alike.
      The first is stored; the second gets the very same slug, and its
      write is rejected by the unique column. */
  method SaveTwoArticles(slugify: string -> string, agentId: nat, title1: string, title2: string,
                         stored: set<string>)
    returns (first: Option<set<string>>, second: Option<set<string>>)
    requires slugify(title1) == slugify(title2)
    requires ArticleSlug(slugify(title1), agentId) !in stored
    ensures first == Some(stored + {ArticleSlug(slugify(title1), agentId)})
    ensures second.None?
  {
    var a1 := new Article(agentId, title1);
    first := a1.Save(slugify, stored, false);
    var a2 := new Article(agentId, title2);
    second := a2.Save(slugify, first.value, false);
  }

  /** The same two articles saved with the corrected `SaveUnique`: both
      rows are stored, under different slugs. */
  method SaveTwoArticlesUnique(slugify: string -> string, agentId: nat, title1: string, title2: string,
                               stored: set<string>)
    returns (first: Option<set<string>>, second: Option<set<string>>)
    ensures first.Some? && second.Some?
    ensures |second.value| == |stored| + 2
  {
    var a1 := new Article(agentId, title1);
    first := a1.SaveUnique(slugify, stored, false);
    var a2 := new Article(agentId, title2);
    second := a2.SaveUnique(slugify, first.value, false);
  }
}
