/**
 * Client code that replays the documented behaviour of lib/many_to_many.py
 * on small fresh worlds: the length boundaries of the constructors, the
 * ignored author rename, and concrete answers of `topic_areas()`,
 * `contributing_authors()` and `top_publisher()`.
 */
module Scenarios {
  import opened Wrappers
  import opened Validation
  import opened ManyToMany

  /** Magazine names of 2 and 16 characters are accepted, of 1 and 17 refused. */
  method MagazineNameBoundaries() returns (two: bool, sixteen: bool, one: bool, seventeen: bool)
    ensures two && sixteen && !one && !seventeen
  {
    var w := new World();
    var r2 := w.NewMagazine("GQ", "Fashion");
    var r16 := w.NewMagazine("The New Yorker!!", "Culture");
    var r1 := w.NewMagazine("Q", "Fashion");
    var r17 := w.NewMagazine("Harper's Bazaar!!", "Fashion");
    two, sixteen, one, seventeen := r2.Ok?, r16.Ok?, r1.Ok?, r17.Ok?;
  }

  /**
   * Article titles of 5 and 50 characters are accepted, of 4 and 51
   * refused; a refused title leaves the article registry as it was.
   */
  method TitleBoundaries() returns (five: bool, fifty: bool, four: bool, fiftyOne: bool, registered: nat)
    ensures five && fifty && !four && !fiftyOne
    ensures registered == 2
  {
    var w, a, m, other := SmallWorld();
    var t50 := "How to wear a tutu with style, a complete guide!!!";
    assert |t50| == 50;
    var r5 := w.NewArticle(a, m, "Tutus");
    var r50 := w.NewArticle(a, m, t50);
    var r4 := w.NewArticle(a, m, "Tutu");
    var r51 := w.NewArticle(a, m, t50 + "!");
    five, fifty, four, fiftyOne := r5.Ok?, r50.Ok?, r4.Ok?, r51.Ok?;
    registered := |w.articles|;
  }

  /** An author keeps the name it was created with, whatever is assigned later. */
  method AuthorNameFixed() returns (before: string, after: string)
    ensures before == after == "Carry Bradshaw"
  {
    var w := new World();
    var ra := w.NewAuthor("Carry Bradshaw");
    var a := ra.value;
    before := a.name;
    a.SetName("Nathaniel Hawthorne");
    after := a.name;
  }

  /**
   * Asking twice without a change in between gives the same answer: the
   * queries only read the registry.
   */
  method MagazinesRepeat(w: World, a: Author) returns (first: seq<Magazine>, second: seq<Magazine>)
    ensures first == second
  {
    first := a.Magazines(w);
    ghost var mine := ArticlesOf(w.articles, ByAuthor(a));
    ghost var mags := MagazinesOf(mine);
    assert first == Seqs.Dedup(mags);
    second := a.Magazines(w);
    assert mine == ArticlesOf(w.articles, ByAuthor(a));
    assert mags == MagazinesOf(mine);
  }

  /** The same for `contributors()`. */
  method ContributorsRepeat(w: World, m: Magazine) returns (first: seq<Author>, second: seq<Author>)
    ensures first == second
  {
    first := m.Contributors(w);
    ghost var mine := ArticlesOf(w.articles, InMagazine(m));
    ghost var auths := AuthorsOf(mine);
    assert first == Seqs.Dedup(auths);
    second := m.Contributors(w);
    assert mine == ArticlesOf(w.articles, InMagazine(m));
    assert auths == AuthorsOf(mine);
  }

  /** A fresh world with one author and two magazines and no articles yet. */
  method SmallWorld() returns (w: World, a: Author, m1: Magazine, m2: Magazine)
    ensures fresh(w) && w.Valid() && w.articles == []
    ensures a in w.authors && m1 in w.magazines && m2 in w.magazines
    ensures m1 != m2 && m1.category == "Fashion"
  {
    w := new World();
    var ra := w.NewAuthor("Carry Bradshaw");
    var r1 := w.NewMagazine("Vogue", "Fashion");
    var r2 := w.NewMagazine("AD", "Architecture");
    a, m1, m2 := ra.value, r1.value, r2.value;
  }

  /** `Article(a, m, title)` with a title known to be valid, which therefore registers. */
  method Publish(w: World, a: Author, m: Magazine, title: string) returns (x: Article)
    requires w.Valid() && ValidTitle(title)
    requires a in w.authors && m in w.magazines
    modifies w
    ensures w.Valid() && w.articles == old(w.articles) + [x]
    ensures w.authors == old(w.authors) && w.magazines == old(w.magazines)
    ensures x.author == a && x.magazine == m
  {
    var r := w.NewArticle(a, m, title);
    x := r.value;
  }

  /** How many of the articles `x` alone adds to the count of `s`. */
  function Tally(x: Article, s: Scope): nat
    reads x
  {
    if Matches(x, s) then 1 else 0
  }

  /** Counting over the first `k` articles adds the `k`-th when it matches. */
  lemma CountPrefix(arts: seq<Article>, k: nat, s: Scope)
    requires 0 < k <= |arts|
    ensures Count(arts[..k], s) == Count(arts[..k - 1], s) + Tally(arts[k - 1], s)
  {
    assert arts[..k][..k - 1] == arts[..k - 1];
  }

  /** The count over four articles, spelled out. */
  lemma CountFour(x1: Article, x2: Article, x3: Article, x4: Article, s: Scope)
    ensures Count([x1, x2, x3, x4], s) == Tally(x1, s) + Tally(x2, s) + Tally(x3, s) + Tally(x4, s)
  {
    var arts := [x1, x2, x3, x4];
    assert arts[..4] == arts && arts[..0] == [];
    CountPrefix(arts, 1, s);
    CountPrefix(arts, 2, s);
    CountPrefix(arts, 3, s);
    CountPrefix(arts, 4, s);
  }

  /** The count over five articles, spelled out. */
  lemma CountFive(x1: Article, x2: Article, x3: Article, x4: Article, x5: Article, s: Scope)
    ensures Count([x1, x2, x3, x4, x5], s) == Tally(x1, s) + Tally(x2, s) + Tally(x3, s) + Tally(x4, s) + Tally(x5, s)
  {
    var arts := [x1, x2, x3, x4, x5];
    assert arts[..5] == arts && arts[..0] == [];
    CountPrefix(arts, 1, s);
    CountPrefix(arts, 2, s);
    CountPrefix(arts, 3, s);
    CountPrefix(arts, 4, s);
    CountPrefix(arts, 5, s);
  }

  /** When every article belongs to `s`, the filter keeps the whole registry. */
  lemma {:induction false} ArticlesOfAll(arts: seq<Article>, s: Scope)
    requires forall i :: 0 <= i < |arts| ==> Matches(arts[i], s)
    ensures ArticlesOf(arts, s) == arts
  {
    if arts != [] {
      var p := arts[..|arts| - 1];
      ArticlesOfAll(p, s);
      assert arts == p + [arts[|arts| - 1]];
    }
  }

  /** The topic areas of an author whose only article is `x`. */
  lemma OneArticleTopics(x: Article, a: Author)
    requires x.author == a
    ensures Seqs.Dedup(CategoriesOf(ArticlesOf([x], ByAuthor(a)))) == [x.magazine.category]
  {
    assert [x][..0] == [];
    assert ArticlesOf([x], ByAuthor(a)) == [x];
    assert CategoriesOf([x]) == [x.magazine.category];
  }

  /**
   * An author without articles has no topic areas; after one article in a
   * Fashion magazine the topic areas are exactly that category.
   */
  method TopicAreasScenario() returns (before: Option<seq<string>>, after: Option<seq<string>>)
    ensures before == None
    ensures after == Some(["Fashion"])
  {
    var w, a, m, other := SmallWorld();
    before := a.TopicAreas(w);
    var r := a.AddArticle(w, m, "Valid Title");
    assert w.articles == [r.value];
    OneArticleTopics(r.value, a);
    after := a.TopicAreas(w);
  }

  /** The counts `contributing_authors()` compares on three articles by `x` and one by `y`. */
  lemma FourArticlesCounts(a1: Article, a2: Article, a3: Article, a4: Article, x: Author, y: Author, m: Magazine)
    requires x != y
    requires a1.author == a2.author == a3.author == x && a4.author == y
    requires a1.magazine == a2.magazine == a3.magazine == a4.magazine == m
    ensures var arts := [a1, a2, a3, a4];
            && ArticlesOf(arts, InMagazine(m)) == arts
            && Count(arts, ByAuthor(x)) == 3 && Count(arts, ByAuthor(y)) == 1
  {
    ArticlesOfAll([a1, a2, a3, a4], InMagazine(m));
    CountFour(a1, a2, a3, a4, ByAuthor(x));
    CountFour(a1, a2, a3, a4, ByAuthor(y));
  }

  /** First-encounter de-duplication of three `x` then a `y`. */
  lemma DedupXXXY(x: Author, y: Author)
    requires x != y
    ensures Seqs.Dedup([x, x, x, y]) == [x, y]
  {
    assert [x, x, x, y][..3] == [x, x, x] && [x, x, x][..2] == [x, x] && [x, x][..1] == [x] && [x][..0] == [];
    assert Seqs.Dedup([x, x]) == [x];
    assert Seqs.Dedup([x, x, x]) == [x];
  }

  /** The filters of `contributing_authors()` on three articles by `x` and one by `y`. */
  lemma FourArticlesFrequent(a1: Article, a2: Article, a3: Article, a4: Article, x: Author, y: Author, m: Magazine)
    requires x != y
    requires a1.author == a2.author == a3.author == x && a4.author == y
    requires a1.magazine == a2.magazine == a3.magazine == a4.magazine == m
    ensures var mine := ArticlesOf([a1, a2, a3, a4], InMagazine(m));
            FrequentContributors(Seqs.Dedup(AuthorsOf(mine)), mine) == [x]
  {
    var arts := [a1, a2, a3, a4];
    FourArticlesCounts(a1, a2, a3, a4, x, y, m);
    assert AuthorsOf(arts) == [x, x, x, y];
    DedupXXXY(x, y);
    assert [x, y][..1] == [x] && [x][..0] == [];
  }

  /** A fresh world where `x` wrote three articles in `m` and `y` one. */
  method FourArticleWorld() returns (w: World, x: Author, y: Author, m: Magazine, a1: Article, a2: Article, a3: Article, a4: Article)
    ensures x != y && w.articles == [a1, a2, a3, a4]
    ensures a1.author == a2.author == a3.author == x && a4.author == y
    ensures a1.magazine == a2.magazine == a3.magazine == a4.magazine == m
  {
    var other;
    w, x, m, other := SmallWorld();
    var ry := w.NewAuthor("Nathaniel Hawthorne");
    y := ry.value;
    a1 := Publish(w, x, m, "How to wear a tutu");
    a2 := Publish(w, x, m, "Dating life in NYC");
    a3 := Publish(w, x, m, "Shoes, shoes, shoes");
    a4 := Publish(w, y, m, "The Scarlet Letter");
  }

  /**
   * Three articles by one author and one by another in the same magazine:
   * only the first author contributes more than two articles.
   */
  method ContributingAuthorsScenario() returns (x: Author, r: Option<seq<Author>>)
    ensures r == Some([x])
  {
    var w, y, m, a1, a2, a3, a4;
    w, x, y, m, a1, a2, a3, a4 := FourArticleWorld();
    r := m.ContributingAuthors(w);
    FourArticlesFrequent(a1, a2, a3, a4, x, y, m);
  }

  /** With two articles in the whole registry nobody can have more than two. */
  method ContributingAuthorsAbsent() returns (r: Option<seq<Author>>)
    ensures r == None
  {
    var w, a, m, other := SmallWorld();
    var x1 := Publish(w, a, m, "How to wear a tutu");
    var x2 := Publish(w, a, m, "Dating life in NYC");
    r := m.ContributingAuthors(w);
  }

  /** Registers two articles in `m1` and three in `m2`, interleaved. */
  method PublishFive(w: World, a: Author, m1: Magazine, m2: Magazine) returns (x1: Article, x2: Article, x3: Article, x4: Article, x5: Article)
    requires w.Valid() && w.articles == []
    requires a in w.authors && m1 in w.magazines && m2 in w.magazines
    modifies w
    ensures w.articles == [x1, x2, x3, x4, x5]
    ensures x1.magazine == x3.magazine == m1 && x2.magazine == x4.magazine == x5.magazine == m2
  {
    x1 := Publish(w, a, m1, "How to wear a tutu");
    x2 := Publish(w, a, m2, "2023 Eccentric Design Trends");
    x3 := Publish(w, a, m1, "Dating life in NYC");
    x4 := Publish(w, a, m2, "Carrara Marble is so 2020");
    x5 := Publish(w, a, m2, "Hanging Gardens of Babylon");
  }

  /** The counts `top_publisher()` compares on five articles, two in `m1` and three in `m2`. */
  lemma FiveArticlesCounts(x1: Article, x2: Article, x3: Article, x4: Article, x5: Article, m1: Magazine, m2: Magazine)
    requires m1 != m2
    requires x1.magazine == x3.magazine == m1 && x2.magazine == x4.magazine == x5.magazine == m2
    ensures var arts := [x1, x2, x3, x4, x5];
            && MagazinesOf(arts) == [m1, m2, m1, m2, m2]
            && Count(arts, InMagazine(m1)) == 2 && Count(arts, InMagazine(m2)) == 3
  {
    CountFive(x1, x2, x3, x4, x5, InMagazine(m1));
    CountFive(x1, x2, x3, x4, x5, InMagazine(m2));
  }

  /**
   * `top_publisher()` has no answer before any article exists; with two
   * articles in one magazine and three in another it names the second.
   */
  method TopPublisherScenario() returns (m2: Magazine, before: Option<Magazine>, after: Option<Magazine>)
    ensures before == None
    ensures after == Some(m2)
  {
    var w, a, m1, m := SmallWorld();
    m2 := m;
    before := Magazine.TopPublisher(w);
    var x1, x2, x3, x4, x5 := PublishFive(w, a, m1, m2);
    after := Magazine.TopPublisher(w);
    FiveArticlesCounts(x1, x2, x3, x4, x5, m1, m2);
  }

  /** Two magazines with two articles each, the first one's article registered first. */
  method TieWorld() returns (w: World, m1: Magazine, m2: Magazine, x1: Article, x2: Article, x3: Article, x4: Article)
    ensures m1 != m2 && w.articles == [x1, x2, x3, x4]
    ensures x1.magazine == x4.magazine == m1 && x2.magazine == x3.magazine == m2
  {
    var a;
    w, a, m1, m2 := SmallWorld();
    x1 := Publish(w, a, m1, "How to wear a tutu");
    x2 := Publish(w, a, m2, "2023 Eccentric Design Trends");
    x3 := Publish(w, a, m2, "Carrara Marble is so 2020");
    x4 := Publish(w, a, m1, "Dating life in NYC");
  }

  /** The counts and first positions `top_publisher()` compares on a two-all tie. */
  lemma TieCounts(x1: Article, x2: Article, x3: Article, x4: Article, m1: Magazine, m2: Magazine)
    requires m1 != m2
    requires x1.magazine == x4.magazine == m1 && x2.magazine == x3.magazine == m2
    ensures var arts := [x1, x2, x3, x4];
            && MagazinesOf(arts) == [m1, m2, m2, m1]
            && Count(arts, InMagazine(m1)) == 2 && Count(arts, InMagazine(m2)) == 2
            && Seqs.FirstIndex(MagazinesOf(arts), m1) == 0 && Seqs.FirstIndex(MagazinesOf(arts), m2) == 1
  {
    CountFour(x1, x2, x3, x4, InMagazine(m1));
    CountFour(x1, x2, x3, x4, InMagazine(m2));
    assert [m1, m2, m2, m1][1..] == [m2, m2, m1];
  }

  /**
   * On a tie at two articles each, `top_publisher()` names the magazine
   * whose article was registered first.
   */
  method TopPublisherTie() returns (m1: Magazine, r: Option<Magazine>)
    ensures r == Some(m1)
  {
    var w, m2, x1, x2, x3, x4;
    w, m1, m2, x1, x2, x3, x4 := TieWorld();
    r := Magazine.TopPublisher(w);
    TieCounts(x1, x2, x3, x4, m1, m2);
  }
}
