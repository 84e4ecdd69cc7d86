/**
 * Authors, magazines and the articles that join them (lib/many_to_many.py).
 *
 * The three class-level `all` lists of the Python classes become the fields of one
 * `World` object, so that every constructor can state exactly which registry
 * it extends. Entities are classes and are compared by reference, as Python's
 * default `==` compares them by identity. Authors and magazines hold no
 * references to their articles: every relationship is found by scanning the
 * article registry, which the query functions below take as a parameter.
 */
module ManyToMany {
  import opened Wrappers
  import opened Validation
  import opened Seqs

  /** The side of the relationship an `articles()` query filters on. */
  datatype Scope = ByAuthor(author: Author) | InMagazine(magazine: Magazine)

  predicate Matches(x: Article, s: Scope)
    reads x
  {
    match s
    case ByAuthor(a) => x.author == a
    case InMagazine(m) => x.magazine == m
  }

  /** The articles of `arts` that belong to `s`, in the order of `arts`. */
  function ArticlesOf(arts: seq<Article>, s: Scope): (r: seq<Article>)
    reads arts
    ensures |r| <= |arts|
    ensures forall i :: 0 <= i < |r| ==> Matches(r[i], s)
  {
    if arts == [] then []
    else
      var x := arts[|arts| - 1];
      ArticlesOf(arts[..|arts| - 1], s) + (if Matches(x, s) then [x] else [])
  }

  /** An article is listed exactly when it is registered and belongs to `s`. */
  lemma {:induction false} ArticlesOfMember(arts: seq<Article>, s: Scope, x: Article)
    ensures x in ArticlesOf(arts, s) <==> x in arts && Matches(x, s)
  {
    if arts != [] {
      var p := arts[..|arts| - 1];
      assert arts == p + [arts[|arts| - 1]];
      ArticlesOfMember(p, s, x);
    }
  }

  /** Nothing is listed exactly when no registered article belongs to `s`. */
  lemma ArticlesOfEmpty(arts: seq<Article>, s: Scope)
    ensures ArticlesOf(arts, s) == [] <==> forall i :: 0 <= i < |arts| ==> !Matches(arts[i], s)
  {
    var r := ArticlesOf(arts, s);
    if r != [] {
      ArticlesOfMember(arts, s, r[0]);
    }
    forall i | 0 <= i < |arts| && Matches(arts[i], s)
      ensures r != []
    {
      ArticlesOfMember(arts, s, arts[i]);
    }
  }

  /**
   * The filter distributes over concatenation: the listed articles keep the
   * relative order they have in the registry.
   */
  lemma {:induction false} ArticlesOfConcat(a: seq<Article>, b: seq<Article>, s: Scope)
    ensures ArticlesOf(a + b, s) == ArticlesOf(a, s) + ArticlesOf(b, s)
  {
    if b == [] {
      assert a + b == a;
    } else {
      var p := b[..|b| - 1];
      assert (a + b)[..|a + b| - 1] == a + p;
      ArticlesOfConcat(a, p, s);
    }
  }

  /** A registry without repeats lists no article twice. */
  lemma {:induction false} ArticlesOfNoDup(arts: seq<Article>, s: Scope)
    requires NoDup(arts)
    ensures NoDup(ArticlesOf(arts, s))
  {
    if arts != [] {
      var p, x := arts[..|arts| - 1], arts[|arts| - 1];
      ArticlesOfNoDup(p, s);
      ArticlesOfMember(p, s, x);
      var r := ArticlesOf(arts, s);
      forall i, j | 0 <= i < j < |r|
        ensures r[i] != r[j]
      {
        if j == |r| - 1 && Matches(x, s) {
          assert r[i] in ArticlesOf(p, s);
        }
      }
    }
  }

  /** How many articles of `arts` belong to `s`. */
  function Count(arts: seq<Article>, s: Scope): nat
    reads arts
  {
    |ArticlesOf(arts, s)|
  }

  /** Some article of `arts` joins author `a` to magazine `m`. */
  ghost predicate Linked(arts: seq<Article>, a: Author, m: Magazine)
    reads arts
  {
    exists i :: 0 <= i < |arts| && arts[i].author == a && arts[i].magazine == m
  }

  /** The magazine of each article, position by position. */
  function MagazinesOf(arts: seq<Article>): (r: seq<Magazine>)
    reads arts
    ensures |r| == |arts|
    ensures forall i :: 0 <= i < |arts| ==> r[i] == arts[i].magazine
  {
    if arts == [] then [] else MagazinesOf(arts[..|arts| - 1]) + [arts[|arts| - 1].magazine]
  }

  /** The author of each article, position by position. */
  function AuthorsOf(arts: seq<Article>): (r: seq<Author>)
    reads arts
    ensures |r| == |arts|
    ensures forall i :: 0 <= i < |arts| ==> r[i] == arts[i].author
  {
    if arts == [] then [] else AuthorsOf(arts[..|arts| - 1]) + [arts[|arts| - 1].author]
  }

  /** The category of each article's magazine, position by position. */
  function CategoriesOf(arts: seq<Article>): (r: seq<string>)
    reads arts, MagazinesOf(arts)
    ensures |r| == |arts|
    ensures forall i :: 0 <= i < |arts| ==> r[i] == arts[i].magazine.category
  {
    if arts == [] then []
    else
      assert forall i :: 0 <= i < |arts| - 1 ==> MagazinesOf(arts[..|arts| - 1])[i] == MagazinesOf(arts)[i];
      CategoriesOf(arts[..|arts| - 1]) + [arts[|arts| - 1].magazine.category]
  }

  /** A magazine listed by `magazines()` exactly when the author wrote for it. */
  lemma MagazinesMember(arts: seq<Article>, a: Author, m: Magazine)
    ensures m in Dedup(MagazinesOf(ArticlesOf(arts, ByAuthor(a)))) <==> Linked(arts, a, m)
  {
    var mine := ArticlesOf(arts, ByAuthor(a));
    var mags := MagazinesOf(mine);
    DedupMember(mags, m);
    if m in Dedup(mags) {
      var k :| 0 <= k < |mags| && mags[k] == m;
      ArticlesOfMember(arts, ByAuthor(a), mine[k]);
      var i :| 0 <= i < |arts| && arts[i] == mine[k];
    }
    if Linked(arts, a, m) {
      var i :| 0 <= i < |arts| && arts[i].author == a && arts[i].magazine == m;
      ArticlesOfMember(arts, ByAuthor(a), arts[i]);
      var k :| 0 <= k < |mine| && mine[k] == arts[i];
      assert mags[k] == m;
    }
  }

  /** An author listed by `contributors()` exactly when they wrote for the magazine. */
  lemma ContributorsMember(arts: seq<Article>, m: Magazine, a: Author)
    ensures a in Dedup(AuthorsOf(ArticlesOf(arts, InMagazine(m)))) <==> Linked(arts, a, m)
  {
    var mine := ArticlesOf(arts, InMagazine(m));
    var auths := AuthorsOf(mine);
    DedupMember(auths, a);
    if a in Dedup(auths) {
      var k :| 0 <= k < |auths| && auths[k] == a;
      ArticlesOfMember(arts, InMagazine(m), mine[k]);
      var i :| 0 <= i < |arts| && arts[i] == mine[k];
    }
    if Linked(arts, a, m) {
      var i :| 0 <= i < |arts| && arts[i].author == a && arts[i].magazine == m;
      ArticlesOfMember(arts, InMagazine(m), arts[i]);
      var k :| 0 <= k < |mine| && mine[k] == arts[i];
      assert auths[k] == a;
    }
  }

  /**
   * The contributing-author test applied to the authors `cs` in order: those
   * with more than two articles in `mine`.
   */
  function FrequentContributors(cs: seq<Author>, mine: seq<Article>): (r: seq<Author>)
    reads mine
    ensures |r| <= |cs|
    ensures forall i :: 0 <= i < |r| ==> Count(mine, ByAuthor(r[i])) > 2
  {
    if cs == [] then []
    else
      var a := cs[|cs| - 1];
      FrequentContributors(cs[..|cs| - 1], mine) + (if Count(mine, ByAuthor(a)) > 2 then [a] else [])
  }

  /** The test keeps exactly the authors of `cs` with more than two articles. */
  lemma {:induction false} FrequentContributorsMember(cs: seq<Author>, mine: seq<Article>, a: Author)
    ensures a in FrequentContributors(cs, mine) <==> a in cs && Count(mine, ByAuthor(a)) > 2
  {
    if cs != [] {
      var p := cs[..|cs| - 1];
      assert cs == p + [cs[|cs| - 1]];
      FrequentContributorsMember(p, mine, a);
    }
  }

  /** Applied to a list without repeats, the test lists no author twice. */
  lemma {:induction false} FrequentContributorsNoDup(cs: seq<Author>, mine: seq<Article>)
    requires NoDup(cs)
    ensures NoDup(FrequentContributors(cs, mine))
  {
    if cs != [] {
      var p, a := cs[..|cs| - 1], cs[|cs| - 1];
      FrequentContributorsNoDup(p, mine);
      FrequentContributorsMember(p, mine, a);
      var r := FrequentContributors(cs, mine);
      forall i, j | 0 <= i < j < |r|
        ensures r[i] != r[j]
      {
        if j == |r| - 1 && Count(mine, ByAuthor(a)) > 2 {
          assert r[i] in FrequentContributors(p, mine);
        }
      }
    }
  }

  /**
   * Over a magazine's contributors, the test keeps exactly the authors with
   * more than two articles there: an author who is not a contributor has none.
   */
  lemma ContributingAuthorsMember(arts: seq<Article>, m: Magazine, a: Author)
    ensures var mine := ArticlesOf(arts, InMagazine(m));
            a in FrequentContributors(Dedup(AuthorsOf(mine)), mine) <==> Count(mine, ByAuthor(a)) > 2
  {
    var mine := ArticlesOf(arts, InMagazine(m));
    FrequentContributorsMember(Dedup(AuthorsOf(mine)), mine, a);
    DedupMember(AuthorsOf(mine), a);
    if Count(mine, ByAuthor(a)) > 2 {
      var x := ArticlesOf(mine, ByAuthor(a))[0];
      ArticlesOfMember(mine, ByAuthor(a), x);
      var k :| 0 <= k < |mine| && mine[k] == x;
      assert AuthorsOf(mine)[k] == a;
    }
  }

  /**
   * `contributing_authors()` over the whole registry: the kept authors are
   * exactly those with more than two articles in `m`, each once.
   */
  lemma ContributingAuthorsExact(arts: seq<Article>, m: Magazine)
    ensures var mine := ArticlesOf(arts, InMagazine(m));
            var p := FrequentContributors(Dedup(AuthorsOf(mine)), mine);
            NoDup(p) && forall a: Author :: a in p <==> Count(mine, ByAuthor(a)) > 2
  {
    var mine := ArticlesOf(arts, InMagazine(m));
    DedupNoDup(AuthorsOf(mine));
    FrequentContributorsNoDup(Dedup(AuthorsOf(mine)), mine);
    forall a: Author
      ensures a in FrequentContributors(Dedup(AuthorsOf(mine)), mine) <==> Count(mine, ByAuthor(a)) > 2
    {
      ContributingAuthorsMember(arts, m, a);
    }
  }

  /**
   * The first magazine of first-appearance order whose count no magazine in
   * that order exceeds, and which every earlier one falls short of, has the
   * largest count of all magazines and the earliest first article among those
   * that share it.
   */
  lemma FirstMaximum(arts: seq<Article>, k: nat)
    requires k < |Dedup(MagazinesOf(arts))|
    requires var order := Dedup(MagazinesOf(arts));
             forall t :: 0 <= t < |order| ==> Count(arts, InMagazine(order[t])) <= Count(arts, InMagazine(order[k]))
    requires var order := Dedup(MagazinesOf(arts));
             forall t :: 0 <= t < k ==> Count(arts, InMagazine(order[t])) < Count(arts, InMagazine(order[k]))
    ensures var best := Dedup(MagazinesOf(arts))[k];
            forall m: Magazine :: Count(arts, InMagazine(m)) <= Count(arts, InMagazine(best))
    ensures var best := Dedup(MagazinesOf(arts))[k];
            forall m :: m in MagazinesOf(arts) && Count(arts, InMagazine(m)) == Count(arts, InMagazine(best)) ==>
              FirstIndex(MagazinesOf(arts), best) <= FirstIndex(MagazinesOf(arts), m)
  {
    var order := Dedup(MagazinesOf(arts));
    var best := order[k];
    forall m: Magazine
      ensures Count(arts, InMagazine(m)) <= Count(arts, InMagazine(best))
    {
      if Count(arts, InMagazine(m)) > 0 {
        var x := ArticlesOf(arts, InMagazine(m))[0];
        ArticlesOfMember(arts, InMagazine(m), x);
        var i :| 0 <= i < |arts| && arts[i] == x;
        assert MagazinesOf(arts)[i] == m;
        var t := DedupPosition(MagazinesOf(arts), m);
      }
    }
    forall m | m in MagazinesOf(arts) && Count(arts, InMagazine(m)) == Count(arts, InMagazine(best))
      ensures FirstIndex(MagazinesOf(arts), best) <= FirstIndex(MagazinesOf(arts), m)
    {
      var t := DedupPosition(MagazinesOf(arts), m);
      DedupOrder(MagazinesOf(arts), k, t);
    }
  }

  /**
   * The loop of `contributing_authors()`: walks `cs` in order and keeps the
   * authors with more than two articles in `mine`.
   */
  method SelectFrequent(cs: seq<Author>, mine: seq<Article>) returns (more: seq<Author>)
    ensures more == FrequentContributors(cs, mine)
  {
    more := [];
    for i := 0 to |cs|
      invariant more == FrequentContributors(cs[..i], mine)
    {
      assert cs[..i + 1][..i] == cs[..i];
      var count := |ArticlesOf(mine, ByAuthor(cs[i]))|;
      if count > 2 {
        more := more + [cs[i]];
      }
    }
    assert cs[..|cs|] == cs;
  }

  /** One more article adds one to the count of its own magazine only. */
  lemma CountSnoc(arts: seq<Article>, i: nat, n: Magazine)
    requires i < |arts|
    ensures Count(arts[..i + 1], InMagazine(n)) == Count(arts[..i], InMagazine(n)) + (if arts[i].magazine == n then 1 else 0)
  {
    assert arts[..i + 1][..i] == arts[..i];
  }

  /** A magazine that no article names has no articles. */
  lemma CountAbsent(arts: seq<Article>, n: Magazine)
    requires n !in MagazinesOf(arts)
    ensures Count(arts, InMagazine(n)) == 0
  {
    ArticlesOfEmpty(arts, InMagazine(n));
    assert forall i :: 0 <= i < |arts| ==> MagazinesOf(arts)[i] != n;
  }

  /**
   * Python's `max` over a non-empty sequence of counts: the position of the
   * first largest one, as `max` replaces its candidate only on a strictly
   * larger key.
   */
  function FirstMax(items: seq<nat>): (k: nat)
    requires items != []
    ensures k < |items|
    ensures forall t :: 0 <= t < |items| ==> items[t] <= items[k]
    ensures forall t :: 0 <= t < k ==> items[t] < items[k]
  {
    if |items| == 1 then 0
    else
      var k := FirstMax(items[..|items| - 1]);
      if items[|items| - 1] > items[k] then |items| - 1 else k
  }

  /**
   * The counting loop of `top_publisher()`: one dict entry per magazine that
   * has an article, holding its number of articles, and the dict's keys in
   * insertion order.
   */
  method CountByMagazine(arts: seq<Article>) returns (counts: map<Magazine, nat>, order: seq<Magazine>)
    ensures order == Dedup(MagazinesOf(arts))
    ensures forall m :: m in counts ==> m in order
    ensures forall t :: 0 <= t < |order| ==> order[t] in counts && counts[order[t]] == Count(arts, InMagazine(order[t]))
  {
    counts, order := map[], [];
    for i := 0 to |arts|
      invariant order == Dedup(MagazinesOf(arts[..i]))
      invariant forall m :: m in counts <==> m in order
      invariant forall m :: m in counts ==> counts[m] == Count(arts[..i], InMagazine(m))
    {
      var m := arts[i].magazine;
      assert arts[..i + 1][..i] == arts[..i];
      assert MagazinesOf(arts[..i + 1]) == MagazinesOf(arts[..i]) + [m];
      ghost var before := counts;
      if m in counts {
        counts := counts[m := counts[m] + 1];
      } else {
        counts := counts[m := 1];
        order := order + [m];
      }
      forall n | n in counts
        ensures counts[n] == Count(arts[..i + 1], InMagazine(n))
      {
        CountSnoc(arts, i, n);
        if n != m {
          assert n in before && counts[n] == before[n];
        } else if m !in before {
          DedupMember(MagazinesOf(arts[..i]), m);
          CountAbsent(arts[..i], m);
        }
      }
    }
    assert arts[..|arts|] == arts;
  }

  class Author {
    /** Fixed at construction: the `name` setter ignores every write. */
    const name: string

    ghost predicate Valid()
      reads this
    {
      ValidAuthorName(name)
    }

    /** Allocation only: `World.NewAuthor` validates and registers. */
    constructor (name: string)
      requires ValidAuthorName(name)
      ensures this.name == name && Valid()
    {
      this.name := name;
    }

    /** The `name` setter ignores every write and never raises. */
    method SetName(value: string)
      ensures unchanged(this)
    {
    }

    /**
     * `magazines()`: each magazine of the author's articles, once, in the
     * order of their first article.
     */
    method Magazines(w: World) returns (r: seq<Magazine>)
      ensures r == Dedup(MagazinesOf(ArticlesOf(w.articles, ByAuthor(this))))
      ensures NoDup(r)
      ensures forall m {:trigger Linked(w.articles, this, m)} :: m in r <==> Linked(w.articles, this, m)
    {
      var mine := ArticlesOf(w.articles, ByAuthor(this));
      r := [];
      for i := 0 to |mine|
        invariant r == Dedup(MagazinesOf(mine[..i]))
      {
        assert mine[..i + 1][..i] == mine[..i];
        if mine[i].magazine !in r {
          r := r + [mine[i].magazine];
        }
      }
      assert mine[..|mine|] == mine;
      DedupNoDup(MagazinesOf(mine));
      forall m
        ensures m in r <==> Linked(w.articles, this, m)
      {
        MagazinesMember(w.articles, this, m);
      }
    }

    /**
     * `add_article(magazine, title)`: creates and registers an article by
     * this author, raising exactly when the article constructor does.
     */
    method AddArticle(w: World, magazine: Magazine, title: string) returns (r: Result<Article, ValidationError>)
      requires w.Valid()
      requires this in w.authors && magazine in w.magazines
      modifies w
      ensures w.Valid()
      ensures r.Ok? <==> ValidTitle(title)
      ensures r.Err? ==> r.error == TitleLength && unchanged(w)
      ensures r.Ok? ==> fresh(r.value) && r.value.author == this && r.value.magazine == magazine && r.value.title == title
      ensures r.Ok? ==> w.articles == old(w.articles) + [r.value]
      ensures w.authors == old(w.authors) && w.magazines == old(w.magazines)
      ensures r.Ok? ==> ArticlesOf(w.articles, ByAuthor(this)) == old(ArticlesOf(w.articles, ByAuthor(this))) + [r.value]
    {
      r := w.NewArticle(this, magazine, title);
    }

    /**
     * `topic_areas()`: None when the author has no articles, otherwise the
     * categories of the author's magazines without repeats. They are listed
     * in first-encounter order; the contract promises only which they are.
     */
    function TopicAreas(w: World): (r: Option<seq<string>>)
      reads w, w.articles, MagazinesOf(w.articles)
      ensures r.None? <==> forall i :: 0 <= i < |w.articles| ==> w.articles[i].author != this
      ensures r.Some? ==> NoDup(r.value)
    {
      var mine := ArticlesOf(w.articles, ByAuthor(this));
      ArticlesOfEmpty(w.articles, ByAuthor(this));
      assert forall i :: 0 <= i < |mine| ==> mine[i] in w.articles && mine[i].magazine in MagazinesOf(w.articles) by {
        forall i | 0 <= i < |mine|
          ensures mine[i] in w.articles && mine[i].magazine in MagazinesOf(w.articles)
        {
          ArticlesOfMember(w.articles, ByAuthor(this), mine[i]);
          var k :| 0 <= k < |w.articles| && w.articles[k] == mine[i];
          assert MagazinesOf(w.articles)[k] == mine[i].magazine;
        }
      }
      DedupNoDup(CategoriesOf(mine));
      if mine == [] then None else Some(Dedup(CategoriesOf(mine)))
    }
  }

  /**
   * The categories `topic_areas()` lists are exactly those of the magazines
   * of the author's registered articles.
   */
  lemma TopicAreasMember(w: World, a: Author, c: string)
    requires a.TopicAreas(w).Some?
    ensures c in a.TopicAreas(w).value <==>
              exists i :: 0 <= i < |w.articles| && w.articles[i].author == a && w.articles[i].magazine.category == c
  {
    var mine := ArticlesOf(w.articles, ByAuthor(a));
    var cats := CategoriesOf(mine);
    DedupMember(cats, c);
    if c in cats {
      var k :| 0 <= k < |cats| && cats[k] == c;
      ArticlesOfMember(w.articles, ByAuthor(a), mine[k]);
      var i :| 0 <= i < |w.articles| && w.articles[i] == mine[k];
    }
    if exists i :: 0 <= i < |w.articles| && w.articles[i].author == a && w.articles[i].magazine.category == c {
      var i :| 0 <= i < |w.articles| && w.articles[i].author == a && w.articles[i].magazine.category == c;
      ArticlesOfMember(w.articles, ByAuthor(a), w.articles[i]);
      var k :| 0 <= k < |mine| && mine[k] == w.articles[i];
      assert cats[k] == c;
    }
  }

  class Magazine {
    var name: string
    var category: string

    ghost predicate Valid()
      reads this
    {
      ValidMagazineName(name) && ValidCategory(category)
    }

    /** Allocation only: `World.NewMagazine` validates and registers. */
    constructor (name: string, category: string)
      requires ValidMagazineName(name) && ValidCategory(category)
      ensures this.name == name && this.category == category && Valid()
    {
      this.name := name;
      this.category := category;
    }

    /** The `name` setter: applies a valid name, silently ignores any other. */
    method SetName(newName: string)
      requires Valid()
      modifies this
      ensures Valid()
      ensures name == if ValidMagazineName(newName) then newName else old(name)
      ensures category == old(category)
    {
      if ValidMagazineName(newName) {
        name := newName;
      }
    }

    /** The `category` setter: applies a non-empty category, silently ignores any other. */
    method SetCategory(newCategory: string)
      requires Valid()
      modifies this
      ensures Valid()
      ensures category == if ValidCategory(newCategory) then newCategory else old(category)
      ensures name == old(name)
    {
      if ValidCategory(newCategory) {
        category := newCategory;
      }
    }

    /**
     * `contributors()`: each author of the magazine's articles, once, in the
     * order of their first article.
     */
    method Contributors(w: World) returns (r: seq<Author>)
      ensures r == Dedup(AuthorsOf(ArticlesOf(w.articles, InMagazine(this))))
      ensures NoDup(r)
      ensures forall a {:trigger Linked(w.articles, a, this)} :: a in r <==> Linked(w.articles, a, this)
    {
      var mine := ArticlesOf(w.articles, InMagazine(this));
      r := [];
      for i := 0 to |mine|
        invariant r == Dedup(AuthorsOf(mine[..i]))
      {
        assert mine[..i + 1][..i] == mine[..i];
        if mine[i].author !in r {
          r := r + [mine[i].author];
        }
      }
      assert mine[..|mine|] == mine;
      DedupNoDup(AuthorsOf(mine));
      forall a
        ensures a in r <==> Linked(w.articles, a, this)
      {
        ContributorsMember(w.articles, this, a);
      }
    }

    /**
     * `article_titles()`: None when nothing is published here, otherwise the
     * title of each of the magazine's articles, in registry order, repeats kept.
     */
    function ArticleTitles(w: World): (r: Option<seq<string>>)
      reads w, w.articles
      ensures r.None? <==> forall i :: 0 <= i < |w.articles| ==> w.articles[i].magazine != this
      ensures r.Some? ==> |r.value| == Count(w.articles, InMagazine(this))
      ensures r.Some? ==> forall i :: 0 <= i < |r.value| ==> r.value[i] == ArticlesOf(w.articles, InMagazine(this))[i].title
    {
      var mine := ArticlesOf(w.articles, InMagazine(this));
      ArticlesOfEmpty(w.articles, InMagazine(this));
      if mine == [] then None else Some(seq(|mine|, i requires 0 <= i < |mine| => mine[i].title))
    }

    /**
     * `contributing_authors()`: the contributors with more than two articles
     * here, in contributor order, or None when there are none.
     */
    method ContributingAuthors(w: World) returns (r: Option<seq<Author>>)
      ensures var mine := ArticlesOf(w.articles, InMagazine(this));
              var p := FrequentContributors(Dedup(AuthorsOf(mine)), mine);
              r == if p == [] then None else Some(p)
      ensures r.None? <==> forall a: Author :: Count(ArticlesOf(w.articles, InMagazine(this)), ByAuthor(a)) <= 2
      ensures r.Some? ==> NoDup(r.value)
      ensures r.Some? ==> forall a: Author :: a in r.value <==> Count(ArticlesOf(w.articles, InMagazine(this)), ByAuthor(a)) > 2
    {
      var authors := Contributors(w);
      var mine := ArticlesOf(w.articles, InMagazine(this));
      assert authors == Dedup(AuthorsOf(mine));
      var more := SelectFrequent(authors, mine);
      // The calls above change no field: the queries still read the same.
      assert mine == ArticlesOf(w.articles, InMagazine(this));
      assert AuthorsOf(mine) == AuthorsOf(ArticlesOf(w.articles, InMagazine(this)));
      ContributingAuthorsExact(w.articles, this);
      if |more| == 0 {
        r := None;
      } else {
        var a := more[0];
        assert a in more && Count(mine, ByAuthor(a)) > 2;
        r := Some(more);
      }
    }

    /**
     * `top_publisher()`: None when no article exists; otherwise a magazine
     * with the most articles, and among those tied at the maximum the one
     * whose first article comes earliest in the registry.
     */
    static method TopPublisher(w: World) returns (r: Option<Magazine>)
      ensures r.None? <==> w.articles == []
      ensures r.Some? ==> r.value in MagazinesOf(w.articles)
      ensures r.Some? ==> forall m: Magazine :: Count(w.articles, InMagazine(m)) <= Count(w.articles, InMagazine(r.value))
      ensures r.Some? ==> forall m :: m in MagazinesOf(w.articles) && Count(w.articles, InMagazine(m)) == Count(w.articles, InMagazine(r.value)) ==>
                FirstIndex(MagazinesOf(w.articles), r.value) <= FirstIndex(MagazinesOf(w.articles), m)
    {
      if w.articles == [] {
        return None;
      }
      var arts := w.articles;
      var counts, order := CountByMagazine(arts);
      DedupMember(MagazinesOf(arts), MagazinesOf(arts)[0]);
      assert order != [];
      var items := seq(|order|, t requires 0 <= t < |order| => counts[order[t]]);
      var k := FirstMax(items);
      forall t | 0 <= t < |order|
        ensures items[t] == Count(arts, InMagazine(order[t]))
      {
      }
      r := Some(order[k]);
      DedupMember(MagazinesOf(arts), order[k]);
      FirstMaximum(arts, k);
    }
  }

  class Article {
    const title: string
    var author: Author
    var magazine: Magazine

    ghost predicate Valid() {
      ValidTitle(title)
    }

    /** Allocation only: `World.NewArticle` validates and registers. */
    constructor (author: Author, magazine: Magazine, title: string)
      requires ValidTitle(title)
      ensures this.author == author && this.magazine == magazine && this.title == title
    {
      this.author := author;
      this.magazine := magazine;
      this.title := title;
    }

    /**
     * The `author` setter: the article moves to another author. Every
     * author is a registered one, so the world stays valid.
     */
    method SetAuthor(ghost w: World, newAuthor: Author)
      requires w.Valid() && newAuthor in w.authors
      modifies this`author
      ensures author == newAuthor && magazine == old(magazine)
      ensures w.Valid()
    {
      author := newAuthor;
    }

    /**
     * The `magazine` setter: the article moves to another magazine. Every
     * magazine is a registered one, so the world stays valid.
     */
    method SetMagazine(ghost w: World, newMagazine: Magazine)
      requires w.Valid() && newMagazine in w.magazines
      modifies this`magazine
      ensures magazine == newMagazine && author == old(author)
      ensures w.Valid()
    {
      magazine := newMagazine;
    }
  }

  /**
   * The three append-only registries (`Author.all`, `Magazine.all`,
   * `Article.all`) and the validating constructors that extend them.
   */
  class World {
    var authors: seq<Author>
    var magazines: seq<Magazine>
    var articles: seq<Article>

    /**
     * Every registered instance is a distinct object that satisfies its
     * class's constraints, and every registered article links a registered
     * author to a registered magazine: each constructor registers its
     * instance, so no other author or magazine exists to be linked.
     */
    ghost predicate Valid()
      reads this, authors, magazines, articles
    {
      && NoDup(authors) && NoDup(magazines) && NoDup(articles)
      && (forall i :: 0 <= i < |authors| ==> authors[i].Valid())
      && (forall i :: 0 <= i < |magazines| ==> magazines[i].Valid())
      && (forall i :: 0 <= i < |articles| ==> articles[i].Valid())
      && (forall i :: 0 <= i < |articles| ==> articles[i].author in authors && articles[i].magazine in magazines)
    }

    constructor ()
      ensures Valid()
      ensures authors == [] && magazines == [] && articles == []
    {
      authors, magazines, articles := [], [], [];
    }

    /** `Author(name)`: raises on an empty name, else registers a new author. */
    method NewAuthor(name: string) returns (r: Result<Author, ValidationError>)
      requires Valid()
      modifies this
      ensures Valid()
      ensures r.Ok? <==> ValidAuthorName(name)
      ensures r.Err? ==> r.error == EmptyAuthorName && unchanged(this)
      ensures r.Ok? ==> fresh(r.value) && r.value.name == name
      ensures r.Ok? ==> authors == old(authors) + [r.value]
      ensures magazines == old(magazines) && articles == old(articles)
    {
      if !ValidAuthorName(name) {
        return Err(EmptyAuthorName);
      }
      var a := new Author(name);
      authors := authors + [a];
      r := Ok(a);
    }

    /**
     * `Magazine(name, category)`: raises on a name outside 2..16 characters
     * (checked first) or an empty category, else registers a new magazine.
     */
    method NewMagazine(name: string, category: string) returns (r: Result<Magazine, ValidationError>)
      requires Valid()
      modifies this
      ensures Valid()
      ensures r.Ok? <==> ValidMagazineName(name) && ValidCategory(category)
      ensures !ValidMagazineName(name) ==> r == Err(MagazineNameLength)
      ensures ValidMagazineName(name) && !ValidCategory(category) ==> r == Err(EmptyCategory)
      ensures r.Err? ==> unchanged(this)
      ensures r.Ok? ==> fresh(r.value) && r.value.name == name && r.value.category == category
      ensures r.Ok? ==> magazines == old(magazines) + [r.value]
      ensures authors == old(authors) && articles == old(articles)
    {
      if !ValidMagazineName(name) {
        return Err(MagazineNameLength);
      }
      if !ValidCategory(category) {
        return Err(EmptyCategory);
      }
      var m := new Magazine(name, category);
      magazines := magazines + [m];
      r := Ok(m);
    }

    /**
     * `Article(author, magazine, title)`: raises on a title outside 5..50
     * characters, else registers a new article, which is then the last of
     * its author's and of its magazine's `articles()`; every other such list
     * is unchanged.
     */
    method NewArticle(author: Author, magazine: Magazine, title: string) returns (r: Result<Article, ValidationError>)
      requires Valid()
      requires author in authors && magazine in magazines
      modifies this
      ensures Valid()
      ensures r.Ok? <==> ValidTitle(title)
      ensures r.Err? ==> r.error == TitleLength && unchanged(this)
      ensures r.Ok? ==> fresh(r.value) && r.value.author == author && r.value.magazine == magazine && r.value.title == title
      ensures r.Ok? ==> articles == old(articles) + [r.value]
      ensures authors == old(authors) && magazines == old(magazines)
      ensures r.Ok? ==>
                forall s: Scope :: old(allocated(s)) ==>
                  ArticlesOf(articles, s) == old(ArticlesOf(articles, s)) + (if Matches(r.value, s) then [r.value] else [])
    {
      if !ValidTitle(title) {
        return Err(TitleLength);
      }
      var x := new Article(author, magazine, title);
      articles := articles + [x];
      assert articles[..|articles| - 1] == old(articles);
      r := Ok(x);
    }
  }
}
