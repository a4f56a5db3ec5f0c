/** The root component's state: the two collections it owns, and the four
    transitions that replace them (src/App.jsx, NewsroomApp and the handlers
    of EditorPage and ArticlesPage that call its setters). */
module Newsroom {
  import opened Text
  import opened Sequences
  import opened Content
  import opened Search

  // ---------------------------------------------------------------------
  // Publishing

  /** The editor's check before publishing: title and author are non-empty
      (`!draft.title || !draft.author` rejects). */
  predicate CanPublish(draft: Article)
  {
    draft.title != [] && draft.author != []
  }

  /** `[{ ...draft, id: freshId }, ...prev]` when the check passes. */
  function AfterPublish(prev: seq<Article>, draft: Article, freshId: String): seq<Article>
  {
    if CanPublish(draft) then [draft.(id := freshId)] + prev else prev
  }

  /** A rejected draft leaves the collection alone; an accepted one is put in
      front under the fresh id and everything else stays as it was. */
  lemma PublishSpec(prev: seq<Article>, draft: Article, freshId: String)
    ensures !CanPublish(draft) ==> AfterPublish(prev, draft, freshId) == prev
    ensures CanPublish(draft) ==>
              |AfterPublish(prev, draft, freshId)| == |prev| + 1
              && AfterPublish(prev, draft, freshId)[0] == draft.(id := freshId)
              && AfterPublish(prev, draft, freshId)[1..] == prev
  {
  }

  /** Publishing under an id no article has keeps the ids unique. */
  lemma PublishKeepsIdsUnique(prev: seq<Article>, draft: Article, freshId: String)
    requires UniqueIds(prev)
    requires forall a :: a in prev ==> a.id != freshId
    ensures UniqueIds(AfterPublish(prev, draft, freshId))
  {
  }

  /** A published article is listed on the Articles page before any search. */
  lemma PublishedIsListed(prev: seq<Article>, draft: Article, freshId: String)
    requires CanPublish(draft)
    ensures draft.(id := freshId) in Filtered(AfterPublish(prev, draft, freshId), [], [])
  {
    var r := AfterPublish(prev, draft, freshId);
    EmptySearchKeepsAll(r, []);
    assert r[0] in multiset(r);
  }

  // ---------------------------------------------------------------------
  // Newsletters

  /** The newsletter form's check: the title is non-empty. */
  predicate CanAddNewsletter(letter: Newsletter)
  {
    letter.title != []
  }

  function AfterAddNewsletter(prev: seq<Newsletter>, letter: Newsletter, freshId: String): seq<Newsletter>
  {
    if CanAddNewsletter(letter) then [letter.(id := freshId)] + prev else prev
  }

  /** Same rule as publishing, with only the title checked. */
  lemma AddNewsletterSpec(prev: seq<Newsletter>, letter: Newsletter, freshId: String)
    ensures !CanAddNewsletter(letter) ==> AfterAddNewsletter(prev, letter, freshId) == prev
    ensures CanAddNewsletter(letter) ==>
              |AfterAddNewsletter(prev, letter, freshId)| == |prev| + 1
              && AfterAddNewsletter(prev, letter, freshId)[0] == letter.(id := freshId)
              && AfterAddNewsletter(prev, letter, freshId)[1..] == prev
  {
  }

  /** Adding under an id no issue has keeps the issue ids unique. */
  lemma AddNewsletterKeepsIdsUnique(prev: seq<Newsletter>, letter: Newsletter, freshId: String)
    requires UniqueLetterIds(prev)
    requires forall n :: n in prev ==> n.id != freshId
    ensures UniqueLetterIds(AfterAddNewsletter(prev, letter, freshId))
  {
  }

  /** An added issue is in the archive, and on Home when it is the newest. */
  lemma AddedNewsletterIsShown(prev: seq<Newsletter>, letter: Newsletter, freshId: String)
    requires CanAddNewsletter(letter)
    ensures letter.(id := freshId) in Archive(AfterAddNewsletter(prev, letter, freshId))
    ensures (forall n :: n in prev ==> n.date < letter.date) ==>
              letter.(id := freshId) in LatestNewsletters(AfterAddNewsletter(prev, letter, freshId))
  {
    var r := AfterAddNewsletter(prev, letter, freshId);
    var x := letter.(id := freshId);
    ArchiveSpec(r);
    assert x in multiset(r) by { assert r[0] == x; }
    if forall n :: n in prev ==> n.date < letter.date {
      LatestNewslettersSpec(r);
      var shown := LatestNewsletters(r);
      assert |shown| >= 1;
      assert x in shown;
    }
  }

  // ---------------------------------------------------------------------
  // Deleting

  function KeepsOtherIds(id: String): Article -> bool
  {
    (a: Article) => a.id != id
  }

  /** `prev.filter((x) => x.id !== id)`. */
  function AfterDelete(prev: seq<Article>, id: String): seq<Article>
  {
    Filter(prev, KeepsOtherIds(id))
  }

  /** Deleting removes exactly the articles with the id and keeps every other
      article, as often as before and in its order; whatever the titles. */
  lemma DeleteSpec(prev: seq<Article>, id: String)
    ensures forall a :: a in AfterDelete(prev, id) ==> a.id != id
    ensures forall a: Article :: a.id != id ==> multiset(AfterDelete(prev, id))[a] == multiset(prev)[a]
    ensures Subsequence(AfterDelete(prev, id), prev)
    ensures (forall a :: a in prev ==> a.id != id) ==> AfterDelete(prev, id) == prev
  {
    FilterMembers(prev, KeepsOtherIds(id));
    forall a: Article | a.id != id ensures multiset(AfterDelete(prev, id))[a] == multiset(prev)[a] {
      FilterCount(prev, KeepsOtherIds(id), a);
    }
    FilterSubsequence(prev, KeepsOtherIds(id));
    if forall a :: a in prev ==> a.id != id {
      FilterAll(prev, KeepsOtherIds(id));
    }
  }

  /** Deleting one of two articles with the same title but different ids
      keeps the other. */
  lemma DeleteSparesSameTitle(prev: seq<Article>, doomed: Article, other: Article)
    requires doomed in prev && other in prev
    requires other.title == doomed.title && other.id != doomed.id
    ensures doomed !in AfterDelete(prev, doomed.id)
    ensures other in AfterDelete(prev, doomed.id)
  {
    DeleteSpec(prev, doomed.id);
    assert multiset(AfterDelete(prev, doomed.id))[other] == multiset(prev)[other];
  }

  lemma UniqueTail(prev: seq<Article>)
    requires prev != [] && UniqueIds(prev)
    ensures UniqueIds(prev[1..])
    ensures forall a :: a in prev[1..] ==> a.id != prev[0].id
  {
  }

  /** Deleting keeps the ids unique. */
  lemma {:induction false} DeleteKeepsIdsUnique(prev: seq<Article>, id: String)
    requires UniqueIds(prev)
    ensures UniqueIds(AfterDelete(prev, id))
  {
    if prev != [] {
      var rest := prev[1..];
      UniqueTail(prev);
      DeleteKeepsIdsUnique(rest, id);
      FilterMembers(rest, KeepsOtherIds(id));
      var r := AfterDelete(prev, id);
      var r' := AfterDelete(rest, id);
      if prev[0].id != id {
        assert r == [prev[0]] + r';
        forall i, j | 0 <= i < j < |r| ensures r[i].id != r[j].id {
          assert r[j] == r'[j - 1] && r'[j - 1] in r';
          if i > 0 {
            assert r[i] == r'[i - 1];
          }
        }
      }
    }
  }

  /** With unique ids, deleting a present id removes exactly one article. */
  lemma {:induction false} DeleteRemovesOne(prev: seq<Article>, id: String)
    requires UniqueIds(prev)
    requires exists a :: a in prev && a.id == id
    ensures |AfterDelete(prev, id)| == |prev| - 1
  {
    var rest := prev[1..];
    UniqueTail(prev);
    if prev[0].id == id {
      FilterAll(rest, KeepsOtherIds(id));
    } else {
      var a :| a in prev && a.id == id;
      assert a in rest by { assert prev == [prev[0]] + rest; }
      DeleteRemovesOne(rest, id);
    }
  }

  // ---------------------------------------------------------------------
  // Import and export

  /** A field of the imported document, as `Array.isArray` sees it. */
  datatype Field<T> = IsArray(items: seq<T>) | NotArray

  /** The outcome of `JSON.parse` on the imported file: a syntax error, the
      value `null` (on which `data.articles` throws), or any other value,
      seen through its two fields (a value that is not an object, or an
      object without the field, gives `NotArray`). */
  datatype ImportDoc = Unparsable | Null | Parsed(articles: Field<Article>, newsletters: Field<Newsletter>)

  /** Whether the success message is shown: whenever nothing threw. */
  predicate ImportReportsSuccess(doc: ImportDoc)
  {
    doc.Parsed?
  }

  function ImportedArticles(prev: seq<Article>, doc: ImportDoc): seq<Article>
  {
    if doc.Parsed? && doc.articles.IsArray? then doc.articles.items else prev
  }

  function ImportedNewsletters(prev: seq<Newsletter>, doc: ImportDoc): seq<Newsletter>
  {
    if doc.Parsed? && doc.newsletters.IsArray? then doc.newsletters.items else prev
  }

  /** The document `exportAll` writes: `{ articles, newsletters }`. */
  function Export(articles: seq<Article>, newsletters: seq<Newsletter>): ImportDoc
  {
    Parsed(IsArray(articles), IsArray(newsletters))
  }

  /** Importing a file exported from any state restores the exported pair,
      whatever the current state, and reports success. */
  lemma ImportExportRoundTrip(articles: seq<Article>, newsletters: seq<Newsletter>,
                              current: seq<Article>, currentLetters: seq<Newsletter>)
    ensures ImportReportsSuccess(Export(articles, newsletters))
    ensures ImportedArticles(current, Export(articles, newsletters)) == articles
    ensures ImportedNewsletters(currentLetters, Export(articles, newsletters)) == newsletters
  {
  }

  /** An array field replaces its collection, and nothing else changes one;
      a failed parse or the document `null` changes neither and is reported
      as failure. */
  lemma ImportSpec(prev: seq<Article>, prevLetters: seq<Newsletter>, doc: ImportDoc)
    ensures ImportedArticles(prev, doc) != prev ==> doc.Parsed? && doc.articles.IsArray?
    ensures ImportedNewsletters(prevLetters, doc) != prevLetters ==> doc.Parsed? && doc.newsletters.IsArray?
    ensures doc.Parsed? && doc.articles.IsArray? ==> ImportedArticles(prev, doc) == doc.articles.items
    ensures doc.Parsed? && doc.newsletters.IsArray? ==> ImportedNewsletters(prevLetters, doc) == doc.newsletters.items
    ensures !ImportReportsSuccess(doc) ==>
              ImportedArticles(prev, doc) == prev && ImportedNewsletters(prevLetters, doc) == prevLetters
  {
  }

  /** A well-formed document without arrays changes nothing and is still
      reported as a success. */
  lemma ImportWithoutArraysReportsSuccess(prev: seq<Article>, prevLetters: seq<Newsletter>)
    ensures ImportReportsSuccess(Parsed(NotArray, NotArray))
    ensures ImportedArticles(prev, Parsed(NotArray, NotArray)) == prev
    ensures ImportedNewsletters(prevLetters, Parsed(NotArray, NotArray)) == prevLetters
  {
  }

  // ---------------------------------------------------------------------
  // The root's state

  class Root {
    var articles: seq<Article>
    var newsletters: seq<Newsletter>

    /** Start-up: each collection is what local storage holds for its key,
        or its seed records when the key is absent or unreadable. */
    constructor (storedArticles: Option<seq<Article>>, storedLetters: Option<seq<Newsletter>>,
                 seedArticles: seq<Article>, seedLetters: seq<Newsletter>)
      ensures articles == (if storedArticles.Some? then storedArticles.value else seedArticles)
      ensures newsletters == (if storedLetters.Some? then storedLetters.value else seedLetters)
    {
      articles := if storedArticles.Some? then storedArticles.value else seedArticles;
      newsletters := if storedLetters.Some? then storedLetters.value else seedLetters;
    }

    /** The editor's "publish" button. */
    method Publish(draft: Article, freshId: String) returns (published: bool)
      modifies this
      ensures published == CanPublish(draft)
      ensures articles == AfterPublish(old(articles), draft, freshId)
      ensures newsletters == old(newsletters)
    {
      published := CanPublish(draft);
      if published {
        articles := [draft.(id := freshId)] + articles;
      }
    }

    /** The editor's "add newsletter" button. */
    method AddNewsletter(letter: Newsletter, freshId: String) returns (added: bool)
      modifies this
      ensures added == CanAddNewsletter(letter)
      ensures newsletters == AfterAddNewsletter(old(newsletters), letter, freshId)
      ensures articles == old(articles)
    {
      added := CanAddNewsletter(letter);
      if added {
        newsletters := [letter.(id := freshId)] + newsletters;
      }
    }

    /** The article modal's "delete" button; `confirmed` is the answer to
        the confirmation dialog. */
    method Delete(id: String, confirmed: bool)
      modifies this
      ensures articles == if confirmed then AfterDelete(old(articles), id) else old(articles)
      ensures newsletters == old(newsletters)
    {
      if confirmed {
        articles := AfterDelete(articles, id);
      }
    }

    /** The import handler, once the file has been read and parsed. */
    method Import(doc: ImportDoc) returns (reportsSuccess: bool)
      modifies this
      ensures reportsSuccess == ImportReportsSuccess(doc)
      ensures articles == ImportedArticles(old(articles), doc)
      ensures newsletters == ImportedNewsletters(old(newsletters), doc)
    {
      if doc.Parsed? {
        if doc.articles.IsArray? {
          articles := doc.articles.items;
        }
        if doc.newsletters.IsArray? {
          newsletters := doc.newsletters.items;
        }
        reportsSuccess := true;
      } else {
        reportsSuccess := false;
      }
    }

    /** The export button's document: importing it, in any state, restores
        the current collections and reports success. */
    method ExportAll() returns (doc: ImportDoc)
      ensures ImportReportsSuccess(doc)
      ensures forall cur: seq<Article> :: ImportedArticles(cur, doc) == articles
      ensures forall cur: seq<Newsletter> :: ImportedNewsletters(cur, doc) == newsletters
    {
      doc := Parsed(IsArray(articles), IsArray(newsletters));
    }
  }
}
