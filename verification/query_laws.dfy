/**
 * Laws that relate several queries of lib/many_to_many.py to each other:
 * the two sides of the many-to-many relationship agree, `topic_areas()` is
 * `magazines()` seen through `category`, titles obey the article rule, and
 * the counts `top_publisher()` compares account for every article once.
 */
module QueryLaws {
  import opened Validation
  import opened Seqs
  import opened ManyToMany

  /**
   * The relationship reads the same from both ends: a magazine is among an
   * author's `magazines()` exactly when the author is among the magazine's
   * `contributors()`.
   */
  lemma MagazinesContributorsAgree(arts: seq<Article>, a: Author, m: Magazine)
    ensures m in Dedup(MagazinesOf(ArticlesOf(arts, ByAuthor(a))))
            <==> a in Dedup(AuthorsOf(ArticlesOf(arts, InMagazine(m))))
  {
    MagazinesMember(arts, a, m);
    ContributorsMember(arts, m, a);
  }

  /** In a valid world every magazine in an author's `magazines()` is in `Magazine.all`. */
  lemma MagazinesStayRegistered(w: World, a: Author, m: Magazine)
    requires w.Valid()
    ensures m in Dedup(MagazinesOf(ArticlesOf(w.articles, ByAuthor(a)))) ==> m in w.magazines
  {
    MagazinesMember(w.articles, a, m);
  }

  /** In a valid world every author in a magazine's `contributors()` is in `Author.all`. */
  lemma ContributorsStayRegistered(w: World, m: Magazine, a: Author)
    requires w.Valid()
    ensures a in Dedup(AuthorsOf(ArticlesOf(w.articles, InMagazine(m)))) ==> a in w.authors
  {
    ContributorsMember(w.articles, m, a);
  }

  /**
   * `topic_areas()` lists exactly the categories of the magazines that
   * `magazines()` lists.
   */
  lemma TopicAreasAreMagazineCategories(w: World, a: Author, c: string)
    requires a.TopicAreas(w).Some?
    ensures c in a.TopicAreas(w).value <==>
              exists m :: m in Dedup(MagazinesOf(ArticlesOf(w.articles, ByAuthor(a)))) && m.category == c
  {
    var mags := Dedup(MagazinesOf(ArticlesOf(w.articles, ByAuthor(a))));
    TopicAreasMember(w, a, c);
    if c in a.TopicAreas(w).value {
      var i :| 0 <= i < |w.articles| && w.articles[i].author == a && w.articles[i].magazine.category == c;
      var m := w.articles[i].magazine;
      MagazinesMember(w.articles, a, m);
      assert m in mags && m.category == c;
    }
    if exists m :: m in mags && m.category == c {
      var m :| m in mags && m.category == c;
      MagazinesMember(w.articles, a, m);
      var i :| 0 <= i < |w.articles| && w.articles[i].author == a && w.articles[i].magazine == m;
      assert w.articles[i].magazine.category == c;
    }
  }

  /** In a valid world every title `article_titles()` returns is 5 to 50 characters long. */
  lemma ArticleTitlesValid(w: World, m: Magazine)
    requires w.Valid()
    requires m.ArticleTitles(w).Some?
    ensures forall t :: t in m.ArticleTitles(w).value ==> ValidTitle(t)
  {
    var mine := ArticlesOf(w.articles, InMagazine(m));
    var titles := m.ArticleTitles(w).value;
    forall t | t in titles
      ensures ValidTitle(t)
    {
      var k :| 0 <= k < |titles| && titles[k] == t;
      ArticlesOfMember(w.articles, InMagazine(m), mine[k]);
      var i :| 0 <= i < |w.articles| && w.articles[i] == mine[k];
      assert w.articles[i].Valid();
    }
  }

  /** The total of the counts of the magazines `ms`. */
  function SumCounts(arts: seq<Article>, ms: seq<Magazine>): nat
    reads arts
  {
    if ms == [] then 0 else SumCounts(arts, ms[..|ms| - 1]) + Count(arts, InMagazine(ms[|ms| - 1]))
  }

  /**
   * One more article raises the total over a list of distinct magazines by
   * one when its magazine is listed, and leaves it alone otherwise.
   */
  lemma {:induction false} SumCountsSnoc(arts: seq<Article>, x: Article, ms: seq<Magazine>)
    requires NoDup(ms)
    ensures SumCounts(arts + [x], ms) == SumCounts(arts, ms) + (if x.magazine in ms then 1 else 0)
  {
    if ms != [] {
      var p, n := ms[..|ms| - 1], ms[|ms| - 1];
      assert NoDup(p);
      SumCountsSnoc(arts, x, p);
      assert (arts + [x])[..|arts|] == arts;
      assert x.magazine in ms <==> x.magazine in p || x.magazine == n;
      assert n !in p;
    }
  }

  /**
   * The counts `top_publisher()` takes the maximum of partition the
   * registry: over its magazines in first-appearance order they add up to
   * the number of articles.
   */
  lemma {:induction false} CountsPartitionArticles(arts: seq<Article>)
    ensures SumCounts(arts, Dedup(MagazinesOf(arts))) == |arts|
  {
    if arts != [] {
      var p, x := arts[..|arts| - 1], arts[|arts| - 1];
      assert arts == p + [x];
      CountsPartitionArticles(p);
      var d := Dedup(MagazinesOf(p));
      assert MagazinesOf(arts) == MagazinesOf(p) + [x.magazine];
      assert MagazinesOf(arts)[..|arts| - 1] == MagazinesOf(p);
      DedupNoDup(MagazinesOf(p));
      DedupMember(MagazinesOf(p), x.magazine);
      SumCountsSnoc(p, x, d);
      if x.magazine !in d {
        CountAbsent(p, x.magazine);
        assert (d + [x.magazine])[..|d|] == d;
      }
    }
  }
}
