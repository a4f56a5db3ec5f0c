/** The read-only views over the collections: the Articles page's search
    pipeline and tag list, the Home headline and newsletter list, and the
    newsletter archive (src/App.jsx). */
module Search {
  import opened Text
  import opened Sequences
  import opened Ordering
  import opened Content

  // ---------------------------------------------------------------------
  // The search pipeline (`filtered` in ArticlesPage)

  /** `query.trim().toLowerCase()`. */
  function NormalizeQuery(query: String): String
  {
    Lower(Trim(query))
  }

  /** JavaScript truthiness of a string, as `.filter(Boolean)` tests it. */
  predicate Truthy(s: String)
  {
    s != []
  }

  /** The fields the text search tests one by one: title, author, summary,
      content, category and the tags joined by a space; an absent tags list
      gives no field. */
  function SearchFields(a: Article): seq<String>
  {
    [a.title, a.author, a.summary, a.content, a.category]
    + match a.tags
      case Some(ts) => [Join(ts, " ")]
      case None => []
  }

  /** The text test for the normalised query `q`: an empty query passes
      everything; otherwise some non-empty field, lowered, contains `q`. */
  predicate MatchesText(a: Article, q: String)
  {
    if q == [] then true
    else
      var fs := Filter(SearchFields(a), Truthy);
      exists i :: 0 <= i < |fs| && Contains(Lower(fs[i]), q)
  }

  /** The tag test: an empty tag passes everything; otherwise the article's
      tags must contain `tag` exactly, and an article without tags fails. */
  predicate MatchesTag(a: Article, tag: String)
  {
    if tag == [] then true
    else a.tags.Some? && tag in a.tags.value
  }

  function TextTest(q: String): Article -> bool
  {
    a => MatchesText(a, q)
  }

  function TagTest(tag: String): Article -> bool
  {
    a => MatchesTag(a, tag)
  }

  /** Both tests of the pipeline, for the raw query typed by the user. */
  predicate Passes(a: Article, query: String, tag: String)
  {
    MatchesText(a, NormalizeQuery(query)) && MatchesTag(a, tag)
  }

  function Passing(query: String, tag: String): Article -> bool
  {
    a => Passes(a, query, tag)
  }

  /** `articles.filter(text test).filter(tag test).sort(newest first)`. */
  function Filtered(articles: seq<Article>, query: String, tag: String): seq<Article>
  {
    var q := NormalizeQuery(query);
    SortDesc(Filter(Filter(articles, TextTest(q)), TagTest(tag)), ArticleDate)
  }

  /** The two filters select exactly the articles that pass both tests. */
  lemma Selection(articles: seq<Article>, query: String, tag: String)
    ensures Filter(Filter(articles, TextTest(NormalizeQuery(query))), TagTest(tag))
         == Filter(articles, Passing(query, tag))
  {
    FilterFilter(articles, TextTest(NormalizeQuery(query)), TagTest(tag), Passing(query, tag));
  }

  /** The search result is ordered newest first, holds exactly the articles
      that pass both tests (each as often as in the collection), and keeps
      articles with equal dates in the order they have in the collection. */
  lemma FilteredSpec(articles: seq<Article>, query: String, tag: String)
    ensures SortedDesc(Filtered(articles, query, tag), ArticleDate)
    ensures forall a :: multiset(Filtered(articles, query, tag))[a]
                     == if Passes(a, query, tag) then multiset(articles)[a] else 0
    ensures forall a :: a in Filtered(articles, query, tag) <==> a in articles && Passes(a, query, tag)
    ensures forall d :: KeyClass(Filtered(articles, query, tag), ArticleDate, d)
                     == KeyClass(Filter(articles, Passing(query, tag)), ArticleDate, d)
  {
    var sel := Filter(articles, Passing(query, tag));
    Selection(articles, query, tag);
    SortOrdered(sel, ArticleDate);
    SortPermutation(sel, ArticleDate);
    forall a ensures multiset(Filtered(articles, query, tag))[a]
                  == if Passes(a, query, tag) then multiset(articles)[a] else 0 {
      FilterCount(articles, Passing(query, tag), a);
    }
    forall d ensures KeyClass(Filtered(articles, query, tag), ArticleDate, d) == KeyClass(sel, ArticleDate, d) {
      SortStable(sel, ArticleDate, d);
    }
  }

  /** The result is the stable newest-first sort of the selected articles,
      and it is the only sequence with the properties of FilteredSpec. */
  lemma FilteredUnique(articles: seq<Article>, query: String, tag: String, r: seq<Article>)
    requires SortedDesc(r, ArticleDate)
    requires forall d :: KeyClass(r, ArticleDate, d) == KeyClass(Filter(articles, Passing(query, tag)), ArticleDate, d)
    ensures r == Filtered(articles, query, tag)
  {
    Selection(articles, query, tag);
    SortUnique(Filter(articles, Passing(query, tag)), r, ArticleDate);
  }

  /** With a blank query and no tag, the result is the whole collection,
      newest first. */
  lemma EmptySearchKeepsAll(articles: seq<Article>, query: String)
    requires Trim(query) == []
    ensures Filtered(articles, query, []) == SortDesc(articles, ArticleDate)
    ensures multiset(Filtered(articles, query, [])) == multiset(articles)
  {
    Selection(articles, query, []);
    FilterAll(articles, Passing(query, []));
    SortPermutation(articles, ArticleDate);
  }

  /** The result is empty exactly when no article passes both tests. */
  lemma FilteredEmptyIff(articles: seq<Article>, query: String, tag: String)
    ensures Filtered(articles, query, tag) == []
        <==> forall a :: a in articles ==> !Passes(a, query, tag)
  {
    FilteredSpec(articles, query, tag);
    var r := Filtered(articles, query, tag);
    if r != [] {
      assert r[0] in r;
    }
  }

  /** A tag carried by no article yields an empty result, whatever the query. */
  lemma UnknownTagFindsNothing(articles: seq<Article>, query: String, tag: String)
    requires tag != []
    requires forall a :: a in articles ==> tag !in TagsOf(a)
    ensures Filtered(articles, query, tag) == []
  {
    FilteredEmptyIff(articles, query, tag);
  }

  lemma FilteredFieldIsField(a: Article, i: nat)
    requires i < |Filter(SearchFields(a), Truthy)|
    ensures Filter(SearchFields(a), Truthy)[i] in SearchFields(a)
  {
    FilterMembers(SearchFields(a), Truthy);
  }

  /** A non-blank query that no field of any article contains yields an empty
      result, whatever the tag. */
  lemma UnmatchedQueryFindsNothing(articles: seq<Article>, query: String, tag: String)
    requires NormalizeQuery(query) != []
    requires forall a, f :: a in articles && f in SearchFields(a) ==> !Contains(Lower(f), NormalizeQuery(query))
    ensures Filtered(articles, query, tag) == []
  {
    forall a | a in articles ensures !MatchesText(a, NormalizeQuery(query)) {
      var fs := Filter(SearchFields(a), Truthy);
      forall i | 0 <= i < |fs| ensures !Contains(Lower(fs[i]), NormalizeQuery(query)) {
        FilteredFieldIsField(a, i);
      }
    }
    FilteredEmptyIff(articles, query, tag);
  }

  /** Searching for (part of) one of an article's tags finds the article,
      because the joined tags are one of the searched fields. */
  lemma TagTextIsSearched(a: Article, q: String, t: String)
    requires q != []
    requires t in TagsOf(a) && Contains(Lower(t), q)
    ensures MatchesText(a, q)
  {
    var ts := a.tags.value;
    var joined := Join(ts, " ");
    JoinContains(ts, " ", t);
    ContainsLower(joined, t);
    ContainsTrans(Lower(joined), Lower(t), q);
    LowerAt(joined);
    LowerAt(t);
    assert |Lower(t)| >= |q| by {
      var i: nat :| i <= |Lower(t)| && MatchAt(Lower(t), q, i);
    }
    assert |joined| >= |t| by {
      var i: nat :| i <= |joined| && MatchAt(joined, t, i);
    }
    var fields := SearchFields(a);
    assert fields == [a.title, a.author, a.summary, a.content, a.category] + [joined];
    FilterConcat([a.title, a.author, a.summary, a.content, a.category], [joined], Truthy);
    var fs := Filter(fields, Truthy);
    var pre := Filter([a.title, a.author, a.summary, a.content, a.category], Truthy);
    assert Filter([joined], Truthy) == [joined] by {
      assert [joined][1..] == [];
    }
    assert fs[|pre|] == joined;
  }

  /** Fields are tested one at a time: a query that spans the end of the
      title and the start of the author matches no article, although it
      occurs in the two fields written one after the other. */
  lemma FieldsAreSearchedSeparately()
    ensures var a := Article("1", "ab", "cd", 0, "", None, "", "", "");
            !MatchesText(a, "bc") && Contains(a.title + a.author, "bc")
  {
    var a := Article("1", "ab", "cd", 0, "", None, "", "", "");
    assert MatchAt(a.title + a.author, "bc", 1);
    var fs := Filter(SearchFields(a), Truthy);
    assert SearchFields(a) == ["ab", "cd", "", "", ""];
    assert fs == ["ab", "cd"] by {
      FilterConcat(["ab", "cd"], ["", "", ""], Truthy);
      assert Filter(["ab", "cd"], Truthy) == ["ab"] + Filter(["cd"], Truthy);
      assert ["cd"][1..] == [];
      assert Filter(["", "", ""], Truthy) == Filter(["", ""], Truthy) == Filter([""], Truthy) == [];
      assert ["ab", "cd"] + ["", "", ""] == SearchFields(a);
    }
    forall i | 0 <= i < |fs| ensures !Contains(Lower(fs[i]), "bc") {
      LowerAt(fs[i]);
      assert Lower(fs[i]) == fs[i];
      assert fs[i][0] != "bc"[0];
      NotContainsSameLength(fs[i], "bc");
    }
  }

  // ---------------------------------------------------------------------
  // The tag list (`categories` in ArticlesPage)

  /** The tags of every article, article after article. */
  function AllTags(articles: seq<Article>): seq<String>
  {
    if articles == [] then []
    else AllTags(articles[..|articles| - 1]) + TagsOf(articles[|articles| - 1])
  }

  lemma {:induction false} AllTagsMembers(articles: seq<Article>)
    ensures forall t :: t in AllTags(articles) <==> exists a :: a in articles && t in TagsOf(a)
  {
    if articles != [] {
      var init, last := articles[..|articles| - 1], articles[|articles| - 1];
      AllTagsMembers(init);
      assert articles == init + [last];
    }
  }

  lemma AllTagsStep(articles: seq<Article>, i: nat)
    requires i < |articles|
    ensures AllTags(articles[..i + 1]) == AllTags(articles[..i]) + TagsOf(articles[i])
  {
    assert articles[..i + 1][..i] == articles[..i];
  }

  /** One article's `a.tags?.forEach((t) => s.add(t))`: the set that held
      the distinct tags of `seen` then holds those of `seen + ts`. */
  method AddEach(tags: seq<String>, ghost seen: seq<String>, ts: seq<String>) returns (r: seq<String>)
    requires tags == Dedup(seen)
    ensures r == Dedup(seen + ts)
  {
    r := tags;
    assert seen + ts[..0] == seen;
    for j := 0 to |ts|
      invariant r == Dedup(seen + ts[..j])
    {
      DedupStep(seen + ts[..j], ts[j]);
      assert seen + ts[..j + 1] == (seen + ts[..j]) + [ts[j]];
      if ts[j] !in r {
        r := r + [ts[j]];
      }
    }
    assert ts[..|ts|] == ts;
  }

  /** `Array.from(set)` after every tag of every article has been added to a
      `Set`: each tag once, in the order of its first occurrence. */
  method Categories(articles: seq<Article>) returns (tags: seq<String>)
    ensures tags == Dedup(AllTags(articles))
    ensures NoDup(tags)
    ensures forall t :: t in tags <==> t in AllTags(articles)
    ensures forall t :: t in tags <==> exists a :: a in articles && t in TagsOf(a)
    ensures forall i, j :: 0 <= i < j < |tags| ==>
              IndexOf(AllTags(articles), tags[i]) < IndexOf(AllTags(articles), tags[j])
  {
    tags := [];
    for i := 0 to |articles|
      invariant tags == Dedup(AllTags(articles[..i]))
    {
      tags := AddEach(tags, AllTags(articles[..i]), TagsOf(articles[i]));
      AllTagsStep(articles, i);
    }
    assert articles[..|articles|] == articles;
    CategoriesSpec(articles);
  }

  /** The distinct tags, in first-occurrence order, are exactly the tags some
      article carries. */
  lemma CategoriesSpec(articles: seq<Article>)
    ensures NoDup(Dedup(AllTags(articles)))
    ensures forall t :: t in Dedup(AllTags(articles)) <==> t in AllTags(articles)
    ensures forall t :: t in Dedup(AllTags(articles)) <==> exists a :: a in articles && t in TagsOf(a)
    ensures forall i, j :: 0 <= i < j < |Dedup(AllTags(articles))| ==>
              IndexOf(AllTags(articles), Dedup(AllTags(articles))[i])
              < IndexOf(AllTags(articles), Dedup(AllTags(articles))[j])
  {
    DedupSpec(AllTags(articles));
    AllTagsMembers(articles);
  }

  // ---------------------------------------------------------------------
  // Home and the newsletter archive

  /** `[...articles].sort(newest first)[0]`: undefined when there are none. */
  function Headline(articles: seq<Article>): Option<Article>
  {
    var s := SortDesc(articles, ArticleDate);
    if s == [] then None else Some(s[0])
  }

  /** The article at index `i` is the newest, and no earlier article is as new. */
  predicate FirstNewestAt(s: seq<Article>, i: nat)
    requires i < |s|
  {
    (forall j :: 0 <= j < |s| ==> s[j].date <= s[i].date)
    && forall j :: 0 <= j < i ==> s[j].date < s[i].date
  }

  /** There is a headline exactly when there are articles, and it is the
      first of the newest articles in collection order. */
  lemma HeadlineSpec(articles: seq<Article>)
    ensures Headline(articles).None? <==> articles == []
    ensures Headline(articles).Some? ==>
              exists i :: 0 <= i < |articles| && articles[i] == Headline(articles).value
                          && FirstNewestAt(articles, i)
  {
    if articles != [] {
      var i := SortHead(articles, ArticleDate);
      assert FirstNewestAt(articles, i);
    }
  }

  /** The newsletter archive: `[...newsletters].sort(newest first)`. */
  function Archive(newsletters: seq<Newsletter>): seq<Newsletter>
  {
    SortDesc(newsletters, NewsletterDate)
  }

  /** The archive lists every issue once per occurrence, newest first, with
      issues of the same date in collection order. */
  lemma ArchiveSpec(newsletters: seq<Newsletter>)
    ensures multiset(Archive(newsletters)) == multiset(newsletters)
    ensures SortedDesc(Archive(newsletters), NewsletterDate)
    ensures forall d :: KeyClass(Archive(newsletters), NewsletterDate, d) == KeyClass(newsletters, NewsletterDate, d)
  {
    SortPermutation(newsletters, NewsletterDate);
    SortOrdered(newsletters, NewsletterDate);
    forall d ensures KeyClass(Archive(newsletters), NewsletterDate, d) == KeyClass(newsletters, NewsletterDate, d) {
      SortStable(newsletters, NewsletterDate, d);
    }
  }

  /** Home's "latest newsletters": the archive's first four. */
  function LatestNewsletters(newsletters: seq<Newsletter>): seq<Newsletter>
  {
    var s := Archive(newsletters);
    s[..if |s| < 4 then |s| else 4]
  }

  /** Home shows at most four issues, four whenever there are that many, in
      archive order. */
  lemma LatestNewslettersSpec(newsletters: seq<Newsletter>)
    ensures |LatestNewsletters(newsletters)| == if |newsletters| < 4 then |newsletters| else 4
    ensures forall i :: 0 <= i < |LatestNewsletters(newsletters)| ==>
              LatestNewsletters(newsletters)[i] == Archive(newsletters)[i]
    ensures SortedDesc(LatestNewsletters(newsletters), NewsletterDate)
    ensures multiset(LatestNewsletters(newsletters)) <= multiset(newsletters)
  {
    var s := Archive(newsletters);
    var r := LatestNewsletters(newsletters);
    ArchiveSpec(newsletters);
    assert |s| == |multiset(s)| == |multiset(newsletters)| == |newsletters|;
    assert s == r + s[|r|..];
  }

  /** No issue that home leaves out is newer than one it shows. */
  lemma LatestNewslettersAreNewest(newsletters: seq<Newsletter>)
    ensures forall x :: x in multiset(newsletters) - multiset(LatestNewsletters(newsletters)) ==>
              forall i :: 0 <= i < |LatestNewsletters(newsletters)| ==>
                x.date <= LatestNewsletters(newsletters)[i].date
  {
    var s := Archive(newsletters);
    var r := LatestNewsletters(newsletters);
    ArchiveSpec(newsletters);
    var rest := s[|r|..];
    assert s == r + rest;
    assert multiset(s) == multiset(r) + multiset(rest);
    forall x | x in multiset(newsletters) - multiset(r)
      ensures forall i :: 0 <= i < |r| ==> x.date <= r[i].date
    {
      assert x in multiset(rest);
      var k :| 0 <= k < |rest| && rest[k] == x;
      assert s[|r| + k] == x;
    }
  }
}
