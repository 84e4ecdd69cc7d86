# Authors, magazines and articles

A Dafny model of `lib/many_to_many.py`, a small object model in which an
`Author` writes `Article`s for a `Magazine`. Articles are the join between
the two sides of a many-to-many relationship. Each class keeps a
class-level `all` list of every instance it has constructed. Every query
(`articles()`, `magazines()`, `contributors()`, `topic_areas()`,
`article_titles()`, `contributing_authors()`, `top_publisher()`) is
answered by scanning `Article.all`.

Layout:

- `wrappers.dfy`: `Option` and `Result`.
- `validation.dfy`: the constructor rules, named once.
  - An author name is non-empty.
  - A magazine name has 2 to 16 characters.
  - A category is non-empty.
  - A title has 5 to 50 characters.
  - The four ways construction can fail form `ValidationError`.
- `seqs.dfy`: `Dedup`, the "append unless already present" loop that
  `magazines()` and `contributors()` run, with `FirstIndex` and lemmas
  about membership, distinctness and first-appearance order.
- `many_to_many.dfy`: the three entity classes, plus a `World` class.
  - `World`'s fields `authors`, `magazines` and `articles` are the three
    `all` lists.
  - `World.NewAuthor`, `World.NewMagazine` and `World.NewArticle` are the
    validating constructors. Each either appends exactly one fresh instance
    to its registry, or reports the error and changes nothing.
  - `World.Valid` holds for every world built this way. Every registered
    instance meets its class's rules, and every registered article links a
    registered author to a registered magazine.
  - The queries are functions, or methods with loops where the source
    loops. Each is proved against an independent description:
    - `magazines()` and `contributors()` against the relation "some
      registered article links this author to this magazine" (`Linked`);
    - `topic_areas()` against "some registered article by the author is in
      a magazine of this category";
    - `article_titles()` against the filtered article list (`ArticlesOf`);
    - `contributing_authors()` and `top_publisher()` against the number of
      matching articles (`Count`).
- `query_laws.dfy`: laws that relate several queries.
- `scenarios.dfy`: concrete worlds built through the constructors, with the
  answers the queries must give on them.

## Model

| member | source | states |
|---|---|---|
| ManyToMany.World.constructor | lib/many_to_many.py:3-5 | `Author.all` starts empty, and so do `Magazine.all` and `Article.all` (lines 58 and 148); the empty world is valid |
| ManyToMany.World.NewAuthor | lib/many_to_many.py:7-15 | succeeds iff the name is non-empty; on success a fresh author with that name is appended to `Author.all` and nothing else changes; on failure it reports `EmptyAuthorName` and nothing changes |
| ManyToMany.Author.SetName | lib/many_to_many.py:22-25 | every assignment to an author's name is ignored: the author is unchanged, and `name` is a `const` fixed by the constructor |
| ManyToMany.ArticlesOf | lib/many_to_many.py:27-29 | `articles()`: the registered articles whose author (or, for a magazine, whose magazine) is the given one, in registry order; never longer than the registry, and every listed article belongs to the author or magazine |
| ManyToMany.ArticlesOfMember | lib/many_to_many.py:27-29 | an article is in an author's `articles()` (and likewise in a magazine's) iff it is registered and belongs to that author (that magazine) |
| ManyToMany.ArticlesOfConcat | lib/many_to_many.py:27-29 | the filter keeps registry order: filtering a concatenation is the concatenation of the filtered parts |
| ManyToMany.ArticlesOfNoDup | lib/many_to_many.py:27-29 | a registry without repeats yields an `articles()` list without repeats |
| ManyToMany.ArticlesOfEmpty | lib/many_to_many.py:50-51 | `articles()` is empty iff no registered article belongs to the author or magazine; this is the `not self.articles()` test of `topic_areas()`, which recurs at line 118 in `article_titles()` |
| ManyToMany.Author.Magazines | lib/many_to_many.py:31-37 | the loop returns the de-duplicated magazines of the author's articles, in first-appearance order; the list has no repeats; a magazine is listed iff some registered article links the author to it |
| ManyToMany.MagazinesMember | lib/many_to_many.py:31-37 | a magazine is in `magazines()` iff some registered article by the author appears in it |
| Seqs.Dedup | lib/many_to_many.py:33-36 | the "append if not in" loop as a function (the same loop is at lines 110-113): the result is never longer than the input and holds only elements of the input; `DedupMember`, `DedupNoDup` and `DedupFirstEncounter` give the rest |
| Seqs.DedupMember | lib/many_to_many.py:33-36 | the "append if not in" loop keeps exactly the elements of its input |
| Seqs.DedupNoDup | lib/many_to_many.py:33-36 | the loop's result never holds the same element twice |
| Seqs.DedupFirstEncounter | lib/many_to_many.py:33-36 | the loop's result lists elements in the order of their first appearance in the input |
| Seqs.DedupPosition | lib/many_to_many.py:33-36 | every element of the input has a position in the loop's result |
| ManyToMany.Author.AddArticle | lib/many_to_many.py:39-45 | for a registered author and magazine, creates and registers an article by this author in the given magazine iff the title is valid; the world stays valid; the author's `articles()` grows by exactly that article at the end; on a bad title it reports `TitleLength` and the registry is untouched |
| ManyToMany.Author.TopicAreas | lib/many_to_many.py:47-53 | None iff the author has no registered article; otherwise a list without repeats |
| ManyToMany.TopicAreasMember | lib/many_to_many.py:47-53 | a category is among `topic_areas()` iff some registered article by the author appears in a magazine of that category |
| ManyToMany.World.NewMagazine | lib/many_to_many.py:60-72 | succeeds iff the name has 2 to 16 characters and the category is non-empty; the name is checked first (`MagazineNameLength`), then the category (`EmptyCategory`); on success a fresh magazine is appended to `Magazine.all`; on failure nothing changes |
| ManyToMany.Magazine.SetName | lib/many_to_many.py:79-88 | a name of 2 to 16 characters replaces the old one; any other value is ignored; the category is untouched and the magazine stays valid |
| ManyToMany.Magazine.SetCategory | lib/many_to_many.py:95-102 | a non-empty category replaces the old one; an empty one is ignored; the name is untouched and the magazine stays valid |
| ManyToMany.Magazine.Contributors | lib/many_to_many.py:108-114 | the loop returns the de-duplicated authors of the magazine's articles, in first-appearance order, without repeats; an author is listed iff some registered article links them to the magazine |
| ManyToMany.ContributorsMember | lib/many_to_many.py:108-114 | an author is in `contributors()` iff some registered article of the magazine is theirs |
| QueryLaws.MagazinesStayRegistered | lib/many_to_many.py:31-37 | in a valid world every magazine in an author's `magazines()` is in `Magazine.all` |
| QueryLaws.ContributorsStayRegistered | lib/many_to_many.py:108-114 | in a valid world every author in a magazine's `contributors()` is in `Author.all` |
| QueryLaws.MagazinesContributorsAgree | lib/many_to_many.py:31-114 | the relationship reads the same from both sides: m is in a's `magazines()` iff a is in m's `contributors()` (lines 108-114) |
| ManyToMany.Magazine.ArticleTitles | lib/many_to_many.py:116-120 | None iff the magazine has no registered article; otherwise one title per article of the magazine, in registry order |
| QueryLaws.ArticleTitlesValid | lib/many_to_many.py:116-120 | in a world built by the validating constructors every returned title has 5 to 50 characters |
| QueryLaws.TopicAreasAreMagazineCategories | lib/many_to_many.py:47-53 | `topic_areas()` is exactly the set of categories of the magazines `magazines()` lists |
| ManyToMany.FrequentContributors | lib/many_to_many.py:125-129 | the contributing-author filter as a function: never longer than its candidates, and every kept author has more than two articles in the magazine |
| ManyToMany.SelectFrequent | lib/many_to_many.py:125-129 | the loop keeps, in order, the contributors that have more than two articles in the magazine |
| ManyToMany.FrequentContributorsMember | lib/many_to_many.py:125-129 | an author is kept iff they are among the candidates and have more than two articles in the magazine |
| ManyToMany.FrequentContributorsNoDup | lib/many_to_many.py:125-129 | distinct candidates give a result without repeats |
| ManyToMany.ContributingAuthorsMember | lib/many_to_many.py:122-132 | over the magazine's contributors, an author is kept iff they have more than two articles there; a non-contributor has none |
| ManyToMany.ContributingAuthorsExact | lib/many_to_many.py:122-132 | the kept authors are without repeats and are exactly those with more than two articles in the magazine |
| ManyToMany.Magazine.ContributingAuthors | lib/many_to_many.py:122-132 | None iff no author has more than two articles in the magazine; otherwise exactly those authors, each once, in contributor order |
| ManyToMany.CountByMagazine | lib/many_to_many.py:139-141 | the counting loop builds a map whose keys are the magazines of the registry (in insertion order, which is first-appearance order), each mapped to its number of articles |
| ManyToMany.CountSnoc | lib/many_to_many.py:141 | one more article raises its own magazine's count by one and leaves every other count alone |
| ManyToMany.CountAbsent | lib/many_to_many.py:141 | a magazine not yet seen counts zero, the default of `counts.get` |
| QueryLaws.CountsPartitionArticles | lib/many_to_many.py:139-141 | the per-magazine counts add up to the number of registered articles |
| ManyToMany.FirstMax | lib/many_to_many.py:142 | `max` returns a position holding the largest value, and every earlier position holds a strictly smaller one, so ties go to the first |
| ManyToMany.FirstMaximum | lib/many_to_many.py:142 | the first maximum over the magazines in insertion order has the largest count of all magazines, and among tied magazines its first article comes earliest |
| ManyToMany.Magazine.TopPublisher | lib/many_to_many.py:134-143 | None iff no article exists; otherwise a magazine that has articles, whose count no magazine exceeds, and which is the earliest-appearing of those tied at that count |
| ManyToMany.World.NewArticle | lib/many_to_many.py:150-165 | for a registered author and magazine, succeeds iff the title has 5 to 50 characters; on success a fresh article is appended to `Article.all`, and every author's and magazine's `articles()` grows by it exactly when it belongs there; on failure it reports `TitleLength` and nothing changes |
| ManyToMany.Article.SetAuthor | lib/many_to_many.py:179-184 | the article's author becomes the new one; its magazine is untouched; the world stays valid |
| ManyToMany.Article.SetMagazine | lib/many_to_many.py:191-196 | the article's magazine becomes the new one; its author is untouched; the world stays valid |
| Scenarios.MagazineNameBoundaries | lib/many_to_many.py:64-65 | names of 2 and 16 characters are accepted; names of 1 and 17 are refused |
| Scenarios.TitleBoundaries | lib/many_to_many.py:158-159 | titles of 5 and 50 characters are accepted; titles of 4 and 51 are refused; only the two accepted ones are registered |
| Scenarios.AuthorNameFixed | lib/many_to_many.py:22-25 | after renaming an author the name reads as before |
| Scenarios.MagazinesRepeat | lib/many_to_many.py:31-37 | asking `magazines()` twice gives the same list: the query has no effect |
| Scenarios.ContributorsRepeat | lib/many_to_many.py:108-114 | asking `contributors()` twice gives the same list |
| Scenarios.TopicAreasScenario | lib/many_to_many.py:47-53 | a fresh author's `topic_areas()` is None; after one `add_article` to a Fashion magazine it is ["Fashion"] |
| Scenarios.ContributingAuthorsScenario | lib/many_to_many.py:122-132 | with three articles by one author and one by another, only the first is a contributing author |
| Scenarios.ContributingAuthorsAbsent | lib/many_to_many.py:130-131 | with no author above two articles the answer is None |
| Scenarios.TopPublisherScenario | lib/many_to_many.py:134-143 | with no articles the answer is None; with two articles in one magazine and three in another the second is the top publisher |
| Scenarios.TopPublisherTie | lib/many_to_many.py:142 | with two articles each, the magazine whose first article came first wins |

## Left out

- Type checks (`isinstance`) are carried by Dafny's types. So no model has the error paths that reject a non-string name, category or title, a non-`Author` or non-`Magazine` argument to `Article`, or a non-`Magazine` argument to `add_article`.
- ManyToMany.Article.SetAuthor: the source raises only when the new value is not an `Author`, which the types rule out. The model therefore has no error path.
- ManyToMany.Article.SetMagazine: the same holds for a value that is not a `Magazine`.
- The texts of the exceptions are not modelled. Each failure is one `ValidationError` value.
- ManyToMany.Author.TopicAreas: the source builds a Python `set` and returns `list(set)`, whose order is unspecified. The model returns the categories in first-appearance order. Its contract promises only what the source does: no repeats, and exactly the categories of the author's magazines.
- Lengths are lengths of `seq<char>`. The source's `len` counts Unicode code points, and the model does no decoding or normalisation.
- The class-level `all` lists are global state in the source. Here they are the fields of an explicit `World` object, passed to each query.
- The Dafny constructors of `Author`, `Magazine` and `Article` only allocate. Validation and registration are in `World.NewAuthor`, `World.NewMagazine` and `World.NewArticle`, so an instance is never registered without passing its checks.
- Unregistered objects: Dafny code can allocate an author or magazine with `new` and leave it out of the registries, which the source cannot do. `World.Valid` keeps such objects out of every registered article. `World.NewArticle`, `Author.AddArticle` and the two article setters therefore require the author or magazine they link to be registered, which every Python instance is.
- The `title` property has no setter in the source (lib/many_to_many.py:167-172). The model makes `title` a `const`, so no change to it can be written.
- The property getters (`name`, `category`, `title`, `author`, `magazine`) are plain field reads, with no member of their own. Their setters are the `Set…` methods above; `title` has none.
- An author's `name` is a `const`, because its setter ignores every write. The source's `_name` attribute could still be assigned directly from Python; that back door is not modelled.
- Python's default identity equality is modelled by Dafny's reference equality on class instances.
