/** The catalog endpoints: categories and genres (create and delete by slug,
    administrators only), titles (create from slugs, delete with cascade,
    read with the derived rating) — api/views.py, api/serializers.py and
    reviews/models.py. */
module Catalog {
  import opened Outcomes
  import opened Seqs
  import opened Text
  import opened Fields
  import opened Permissions
  import opened Schema
  import Users
  import Uuids

  // ----- Categories and genres -----------------------------------------

  /** A SlugField: a trimmed value matching `validate_slug`. */
  function CleanSlug(raw: string): (r: Result<string>)
    ensures r.Ok? <==> SlugOk(Trim(raw))
    ensures r.Ok? ==> r.value == Trim(raw)
    ensures r.Err? ==> r.error.Validation?
  {
    var slug :- CleanChar("slug", raw, AtMost(SLUG_MAX_LENGTH), false);
    if SlugOk(slug) then Ok(slug) else Err(Validation(SlugSyntax))
  }

  /** The name field of a category, a genre or a title. */
  function CleanName(raw: string): Result<string>
  {
    CleanChar("name", raw, AtMost(CATALOG_NAME_MAX_LENGTH), false)
  }

  predicate NameAcceptable(raw: string)
  {
    Acceptable(raw, AtMost(CATALOG_NAME_MAX_LENGTH), false)
  }

  /** POST /categories/: an administrator adds a category whose slug is free.
      Both fields are required. */
  function CreateCategory(s: Store, q: Requester, name: Option<string>, slug: Option<string>): (r: Result<Store>)
    requires Valid(s) && StoredRequester(s, q)
    ensures r.Ok? ==> Valid(r.value)
    ensures r.Ok? <==>
      && AtLeast(q, Administrator)
      && name.Some? && slug.Some?
      && NameAcceptable(name.value)
      && SlugOk(Trim(slug.value))
      && forall c :: c in s.categories ==> c.slug != Trim(slug.value)
    ensures !AtLeast(q, Administrator) ==> r.Err? && (r.error == NotAuthenticated <==> q.Anonymous?)
    ensures AtLeast(q, Administrator) && name.None? ==> r == Err(Validation(Required("name")))
    ensures AtLeast(q, Administrator) && name.Some? && NameAcceptable(name.value) && slug.None? ==>
      r == Err(Validation(Required("slug")))
    ensures r.Ok? ==> r.value.categories == s.categories + [Category(s.nextId, Trim(name.value), Trim(slug.value))]
    ensures r.Ok? ==> r.value == s.(categories := r.value.categories, nextId := r.value.nextId)
  {
    var allowed := IsAdminOrReadOnlyPermission(Request(Post, q));
    :- Enforce(allowed, q);
    var rawName :- Present("name", name);
    var cleanName :- CleanName(rawName);
    var rawSlug :- Present("slug", slug);
    var cleanSlug :- CleanSlug(rawSlug);
    if exists c :: c in s.categories && c.slug == cleanSlug then Err(Validation(NotUnique("slug")))
    else Ok(AddCategory(s, cleanName, cleanSlug))
  }

  /** DELETE /categories/{slug}/: the category goes, its titles stay with an
      empty category. */
  function DeleteCategory(s: Store, q: Requester, slug: string): (r: Result<Store>)
    requires Valid(s) && StoredRequester(s, q)
    ensures r.Ok? ==> Valid(r.value)
    ensures r.Ok? <==> AtLeast(q, Administrator) && FindCategory(s.categories, slug).Some?
    ensures AtLeast(q, Administrator) && FindCategory(s.categories, slug).None? ==> r == Err(NotFound)
    ensures !AtLeast(q, Administrator) ==> r.Err? && (r.error == NotAuthenticated <==> q.Anonymous?)
    ensures r.Ok? ==> forall c :: c in r.value.categories <==> c in s.categories && c.slug != slug
    ensures r.Ok? ==> |r.value.titles| == |s.titles|
    ensures r.Ok? ==> forall i :: 0 <= i < |s.titles| ==>
      r.value.titles[i].(category := None) == s.titles[i].(category := None)
    ensures r.Ok? ==> forall i :: 0 <= i < |s.titles| ==>
      r.value.titles[i].category ==
        if s.titles[i].category == Some(FindCategory(s.categories, slug).value.id) then None
        else s.titles[i].category
    ensures r.Ok? ==> r.value.reviews == s.reviews && r.value.comments == s.comments
    ensures r.Ok? ==> r.value.genreTitles == s.genreTitles
    ensures r.Ok? ==> r.value.users == s.users && r.value.genres == s.genres
  {
    var allowed := IsAdminOrReadOnlyPermission(Request(Delete, q));
    :- Enforce(allowed, q);
    match FindCategory(s.categories, slug)
    case None => Err(NotFound)
    case Some(c) =>
      CategorySlugIdentifies(s, c);
      Ok(RemoveCategory(s, c.id))
  }

  /** Within the categories table a slug and a key pick out the same row. */
  lemma CategorySlugIdentifies(s: Store, c: Category)
    requires Valid(s) && c in s.categories
    ensures forall x :: x in s.categories ==> (x.id == c.id <==> x.slug == c.slug)
  {
    forall x | x in s.categories
      ensures x.id == c.id <==> x.slug == c.slug
    {
      if x.id == c.id || x.slug == c.slug {
        PairwiseSameRow(s.categories, DistinctCategories, x, c);
      }
    }
  }

  /** POST /genres/: an administrator adds a genre whose slug is free. Both
      fields are required. */
  function CreateGenre(s: Store, q: Requester, name: Option<string>, slug: Option<string>): (r: Result<Store>)
    requires Valid(s) && StoredRequester(s, q)
    ensures r.Ok? ==> Valid(r.value)
    ensures r.Ok? <==>
      && AtLeast(q, Administrator)
      && name.Some? && slug.Some?
      && NameAcceptable(name.value)
      && SlugOk(Trim(slug.value))
      && forall g :: g in s.genres ==> g.slug != Trim(slug.value)
    ensures !AtLeast(q, Administrator) ==> r.Err? && (r.error == NotAuthenticated <==> q.Anonymous?)
    ensures AtLeast(q, Administrator) && name.None? ==> r == Err(Validation(Required("name")))
    ensures AtLeast(q, Administrator) && name.Some? && NameAcceptable(name.value) && slug.None? ==>
      r == Err(Validation(Required("slug")))
    ensures r.Ok? ==> r.value.genres == s.genres + [Genre(s.nextId, Trim(name.value), Trim(slug.value))]
    ensures r.Ok? ==> r.value == s.(genres := r.value.genres, nextId := r.value.nextId)
  {
    var allowed := IsAdminOrReadOnlyPermission(Request(Post, q));
    :- Enforce(allowed, q);
    var rawName :- Present("name", name);
    var cleanName :- CleanName(rawName);
    var rawSlug :- Present("slug", slug);
    var cleanSlug :- CleanSlug(rawSlug);
    if exists g :: g in s.genres && g.slug == cleanSlug then Err(Validation(NotUnique("slug")))
    else Ok(AddGenre(s, cleanName, cleanSlug))
  }

  /** DELETE /genres/{slug}/: the genre goes with its links and nothing else. */
  function DeleteGenre(s: Store, q: Requester, slug: string): (r: Result<Store>)
    requires Valid(s) && StoredRequester(s, q)
    ensures r.Ok? ==> Valid(r.value)
    ensures r.Ok? <==> AtLeast(q, Administrator) && FindGenre(s.genres, slug).Some?
    ensures AtLeast(q, Administrator) && FindGenre(s.genres, slug).None? ==> r == Err(NotFound)
    ensures !AtLeast(q, Administrator) ==> r.Err? && (r.error == NotAuthenticated <==> q.Anonymous?)
    ensures r.Ok? ==> forall g :: g in r.value.genres <==> g in s.genres && g.slug != slug
    ensures r.Ok? ==> forall l :: l in r.value.genreTitles <==>
      l in s.genreTitles && l.genre != FindGenre(s.genres, slug).value.id
    ensures r.Ok? ==> forall t :: t in r.value.titles <==> t in s.titles
    ensures r.Ok? ==> forall x :: x in r.value.reviews <==> x in s.reviews
    ensures r.Ok? ==> forall c :: c in r.value.comments <==> c in s.comments
    ensures r.Ok? ==> forall u :: u in r.value.users <==> u in s.users
    ensures r.Ok? ==> r.value.categories == s.categories
  {
    var allowed := IsAdminOrReadOnlyPermission(Request(Delete, q));
    :- Enforce(allowed, q);
    match FindGenre(s.genres, slug)
    case None => Err(NotFound)
    case Some(g) =>
      GenreSlugIdentifies(s, g);
      Ok(RemoveGenre(s, g.id))
  }

  /** Within the genres table a slug and a key pick out the same row. */
  lemma GenreSlugIdentifies(s: Store, g: Genre)
    requires Valid(s) && g in s.genres
    ensures forall x :: x in s.genres ==> (x.id == g.id <==> x.slug == g.slug)
  {
    forall x | x in s.genres
      ensures x.id == g.id <==> x.slug == g.slug
    {
      if x.id == g.id || x.slug == g.slug {
        PairwiseSameRow(s.genres, DistinctGenres, x, g);
      }
    }
  }

  // ----- Titles ----------------------------------------------------------

  /** A genre slug list resolved to genre keys, as `SlugRelatedField(many=True)`
      does: one lookup per slug, in order, failing on the first unknown slug. */
  function ResolveGenres(genres: seq<Genre>, slugs: seq<string>): (r: Result<seq<nat>>)
    ensures r.Ok? <==> forall i :: 0 <= i < |slugs| ==> FindGenre(genres, slugs[i]).Some?
    ensures r.Ok? ==> |r.value| == |slugs|
    ensures r.Ok? ==> forall i :: 0 <= i < |slugs| ==> r.value[i] == FindGenre(genres, slugs[i]).value.id
    ensures r.Err? ==> r.error == Validation(UnknownSlug("genre"))
  {
    if slugs == [] then Ok([])
    else
      match FindGenre(genres, slugs[0])
      case None => Err(Validation(UnknownSlug("genre")))
      case Some(g) =>
        var rest :- ResolveGenres(genres, slugs[1..]);
        assert forall i :: 1 <= i < |slugs| ==> slugs[i] == slugs[1..][i - 1];
        Ok([g.id] + rest)
  }

  predicate NoDuplicates<T(==)>(xs: seq<T>)
  {
    forall i, j :: 0 <= i < j < |xs| ==> xs[i] != xs[j]
  }

  /** `xs` with repeated elements dropped. */
  function Dedup(xs: seq<nat>): (r: seq<nat>)
    ensures NoDuplicates(r)
    ensures forall x :: x in r <==> x in xs
    ensures NoDuplicates(xs) ==> r == xs
  {
    if xs == [] then []
    else if xs[0] in xs[1..] then Dedup(xs[1..])
    else [xs[0]] + Dedup(xs[1..])
  }

  /** How many elements of `xs` a loop of inserts gets through before one
      clashes with `taken` or with an element inserted before it. */
  function FirstClash<T(==)>(taken: set<T>, xs: seq<T>): (k: nat)
    ensures k <= |xs|
    ensures NoDuplicates(xs[..k])
    ensures forall i :: 0 <= i < k ==> xs[i] !in taken
    ensures k < |xs| ==> xs[k] in taken || xs[k] in xs[..k]
    ensures k == |xs| <==> NoDuplicates(xs) && forall i :: 0 <= i < |xs| ==> xs[i] !in taken
    decreases |xs|
  {
    if xs == [] then 0
    else if xs[0] in taken then 0
    else
      var k := 1 + FirstClash(taken + {xs[0]}, xs[1..]);
      FirstClashStep(taken, xs, k);
      k
  }

  lemma {:induction false} FirstClashStep<T>(taken: set<T>, xs: seq<T>, k: nat)
    requires xs != [] && xs[0] !in taken
    requires 1 <= k <= |xs|
    requires NoDuplicates(xs[1..][..k - 1])
    requires forall i :: 0 <= i < k - 1 ==> xs[1..][i] !in taken + {xs[0]}
    requires k - 1 < |xs[1..]| ==> xs[1..][k - 1] in taken + {xs[0]} || xs[1..][k - 1] in xs[1..][..k - 1]
    ensures NoDuplicates(xs[..k])
    ensures forall i :: 0 <= i < k ==> xs[i] !in taken
    ensures k < |xs| ==> xs[k] in taken || xs[k] in xs[..k]
  {
    assert forall i :: 0 < i < |xs| ==> xs[i] == xs[1..][i - 1];
    assert xs[..k] == [xs[0]] + xs[1..][..k - 1];
    if k < |xs| {
      assert xs[k] == xs[1..][k - 1];
      if xs[k] == xs[0] {
        assert xs[k] in xs[..k];
      }
    }
  }

  /** Two sequences whose elements are equal at exactly the same pairs of
      positions clash first at the same place. */
  lemma SameFirstClash<A, B>(xs: seq<A>, ys: seq<B>)
    requires |xs| == |ys|
    requires forall i, j :: 0 <= i < |xs| && 0 <= j < |xs| ==> (xs[i] == xs[j] <==> ys[i] == ys[j])
    ensures FirstClash({}, xs) == FirstClash({}, ys)
  {
    var a, b := FirstClash({}, xs), FirstClash({}, ys);
    PrefixTransfer(xs, ys, a);
    PrefixTransfer(xs, ys, b);
    NoDuplicatesPrefix(ys, a, b);
    NoDuplicatesPrefix(xs, b, a);
  }

  /** Repeats in a prefix, and the element after it, carry over between two
      sequences equal at the same pairs of positions. */
  lemma PrefixTransfer<A, B>(xs: seq<A>, ys: seq<B>, n: nat)
    requires |xs| == |ys| && n <= |xs|
    requires forall i, j :: 0 <= i < |xs| && 0 <= j < |xs| ==> (xs[i] == xs[j] <==> ys[i] == ys[j])
    ensures NoDuplicates(xs[..n]) <==> NoDuplicates(ys[..n])
    ensures n < |xs| ==> (xs[n] in xs[..n] <==> ys[n] in ys[..n])
  {
    forall i, j | 0 <= i < j < n
      ensures xs[..n][i] == xs[..n][j] <==> ys[..n][i] == ys[..n][j]
    {
      assert xs[..n][i] == xs[i] && xs[..n][j] == xs[j];
      assert ys[..n][i] == ys[i] && ys[..n][j] == ys[j];
    }
    if n < |xs| {
      if xs[n] in xs[..n] {
        var j :| 0 <= j < n && xs[..n][j] == xs[n];
        assert ys[..n][j] == ys[n];
      }
      if ys[n] in ys[..n] {
        var j :| 0 <= j < n && ys[..n][j] == ys[n];
        assert xs[..n][j] == xs[n];
      }
    }
  }

  /** An element inside a prefix without repeats does not occur before its
      own position. */
  lemma NoDuplicatesPrefix<T>(xs: seq<T>, m: nat, n: nat)
    requires m <= |xs| && n <= |xs|
    ensures m < n && NoDuplicates(xs[..n]) ==> xs[m] !in xs[..m]
  {
    if m < n && NoDuplicates(xs[..n]) {
      forall j | 0 <= j < m
        ensures xs[..m][j] != xs[m]
      {
        assert xs[..m][j] == xs[..n][j] && xs[m] == xs[..n][m];
      }
    }
  }

  /** `GenreTitle.objects.create(title=title, genre=genre)` for each genre in
      turn, each insert committed on its own: the unique (genre, title)
      constraint refuses the first pair that exists, and the links inserted
      before it stay. */
  function InsertLinks(s: Store, title: nat, genres: seq<nat>): (r: (Store, Outcome))
    requires Valid(s)
    requires title in TitleIds(s.titles)
    requires forall i :: 0 <= i < |genres| ==> genres[i] in GenreIds(s.genres)
    ensures Valid(r.0)
    ensures r.1.Pass? <==>
      NoDuplicates(genres) && forall i :: 0 <= i < |genres| ==> genres[i] !in GenresOf(s.genreTitles, title)
    ensures r.1.Pass? <==> FirstClash(GenresOf(s.genreTitles, title), genres) == |genres|
    ensures r.1.Fail? ==> r.1.error == IntegrityError
    ensures |r.0.genreTitles| == |s.genreTitles| + FirstClash(GenresOf(s.genreTitles, title), genres)
    ensures GenresOf(r.0.genreTitles, title)
            == GenresOf(s.genreTitles, title) + (set g | g in genres[..FirstClash(GenresOf(s.genreTitles, title), genres)])
    ensures forall l: GenreTitle :: l.title != title ==> (l in r.0.genreTitles <==> l in s.genreTitles)
    ensures r.0 == s.(genreTitles := r.0.genreTitles, nextId := r.0.nextId)
    decreases |genres|
  {
    if genres == [] then (s, Pass)
    else if genres[0] in GenresOf(s.genreTitles, title) then (s, Fail(IntegrityError))
    else
      var s1 := AddLink(s, title, genres[0]);
      assert GenresOf(s1.genreTitles, title) == GenresOf(s.genreTitles, title) + {genres[0]};
      var r := InsertLinks(s1, title, genres[1..]);
      InsertLinksStep(s, s1, title, genres, r.0);
      r
  }

  lemma InsertLinksStep(s: Store, s1: Store, title: nat, genres: seq<nat>, s2: Store)
    requires genres != []
    requires GenresOf(s1.genreTitles, title) == GenresOf(s.genreTitles, title) + {genres[0]}
    requires genres[0] !in GenresOf(s.genreTitles, title)
    requires GenresOf(s2.genreTitles, title)
             == GenresOf(s1.genreTitles, title)
                + (set g | g in genres[1..][..FirstClash(GenresOf(s1.genreTitles, title), genres[1..])])
    ensures FirstClash(GenresOf(s.genreTitles, title), genres)
            == 1 + FirstClash(GenresOf(s1.genreTitles, title), genres[1..])
    ensures GenresOf(s2.genreTitles, title)
            == GenresOf(s.genreTitles, title) + (set g | g in genres[..FirstClash(GenresOf(s.genreTitles, title), genres)])
  {
    var k := FirstClash(GenresOf(s1.genreTitles, title), genres[1..]);
    var before, after := genres[..1 + k], genres[1..][..k];
    assert before == [genres[0]] + after;
    assert (set g | g in before) == {genres[0]} + (set g | g in after);
  }

  /** What `WriteTitleSerializer` makes of the request fields: the cleaned
      name and description, the year, and the keys the slugs name. */
  datatype TitleFields = TitleFields(
    name: string,
    year: int,
    description: Option<string>,
    category: nat,
    genres: seq<nat>)

  /** Every field of a title write is accepted. */
  predicate TitleFieldsOk(s: Store, name: string, year: int, description: Option<string>,
                          categorySlug: string, genreSlugs: seq<string>)
  {
    && NameAcceptable(name)
    && YearInRange(year)
    && (description.Some? ==> Acceptable(description.value, Unlimited, true))
    && (forall i :: 0 <= i < |genreSlugs| ==> FindGenre(s.genres, genreSlugs[i]).Some?)
    && FindCategory(s.categories, categorySlug).Some?
  }

  /** Every check a title POST passes before the row is written. */
  predicate TitleRequestOk(s: Store, q: Requester, name: string, year: int, description: Option<string>,
                           categorySlug: string, genreSlugs: seq<string>)
  {
    AtLeast(q, Administrator) && TitleFieldsOk(s, name, year, description, categorySlug, genreSlugs)
  }

  /** The year field: the model's MinValueValidator and MaxValueValidator. */
  function CheckYear(year: int): (o: Outcome)
    ensures o.Pass? <==> YearInRange(year)
    ensures year < FIRST_BOOK_YEAR ==> o == Fail(Validation(YearBelowMinimum))
    ensures year > CURRENT_YEAR ==> o == Fail(Validation(YearAboveMaximum))
  {
    if year < FIRST_BOOK_YEAR then Fail(Validation(YearBelowMinimum))
    else if year > CURRENT_YEAR then Fail(Validation(YearAboveMaximum))
    else Pass
  }

  /** `WriteTitleSerializer` validation: name, year, description, genre
      slugs and category slug. */
  function ValidateTitle(s: Store, name: string, year: int, description: Option<string>,
                         categorySlug: string, genreSlugs: seq<string>): (r: Result<TitleFields>)
    ensures r.Ok? <==> TitleFieldsOk(s, name, year, description, categorySlug, genreSlugs)
    ensures r.Err? ==> r.error.Validation?
    ensures r.Ok? ==> r.value.name == Trim(name) && r.value.year == year && YearInRange(year)
    ensures r.Ok? ==> r.value.description == (if description.Some? then Some(Trim(description.value)) else None)
    ensures r.Ok? ==> r.value.category == FindCategory(s.categories, categorySlug).value.id
    ensures r.Ok? ==> r.value.category in CategoryIds(s.categories)
    ensures r.Ok? ==> |r.value.genres| == |genreSlugs|
    ensures r.Ok? ==> forall i :: 0 <= i < |genreSlugs| ==> r.value.genres[i] == FindGenre(s.genres, genreSlugs[i]).value.id
    ensures r.Ok? ==> forall i :: 0 <= i < |r.value.genres| ==> r.value.genres[i] in GenreIds(s.genres)
  {
    var cleanName :- CleanName(name);
    :- CheckYear(year);
    var cleanDescription :- CleanOptional("description", description, Unlimited, true);
    var genres :- ResolveGenres(s.genres, genreSlugs);
    match FindCategory(s.categories, categorySlug)
    case None => Err(Validation(UnknownSlug("category")))
    case Some(c) =>
      assert forall i :: 0 <= i < |genres| ==> FindGenre(s.genres, genreSlugs[i]).value in s.genres;
      Ok(TitleFields(cleanName, year, cleanDescription, c.id, genres))
  }

  /** `Title.objects.create` with the validated fields: a fresh title that
      no genre is linked to yet. */
  function NewTitle(s: Store, f: TitleFields): (r: (Store, Title))
    requires Valid(s) && YearInRange(f.year) && f.category in CategoryIds(s.categories)
    ensures Valid(r.0)
    ensures r.1 == Title(s.nextId, f.name, f.year, f.description, Some(f.category))
    ensures r.0 == s.(titles := s.titles + [r.1], nextId := s.nextId + 1)
    ensures r.1 !in s.titles && r.1.id in TitleIds(r.0.titles)
    ensures GenresOf(r.0.genreTitles, r.1.id) == {}
  {
    var t := Title(s.nextId, f.name, f.year, f.description, Some(f.category));
    var s1 := AddTitle(s, f.name, f.year, f.description, Some(f.category));
    assert t in s1.titles;
    assert forall l :: l in s1.genreTitles ==> l.title != t.id;
    (s1, t)
  }

  /** The permission check and `WriteTitleSerializer` validation of a title
      POST, before anything is written. */
  function AdmitTitle(s: Store, q: Requester, name: string, year: int, description: Option<string>,
                      categorySlug: string, genreSlugs: seq<string>): (r: Result<TitleFields>)
    ensures r.Ok? <==> TitleRequestOk(s, q, name, year, description, categorySlug, genreSlugs)
    ensures !AtLeast(q, Administrator) ==> r.Err? && (r.error == NotAuthenticated <==> q.Anonymous?)
    ensures AtLeast(q, Administrator) ==> r == ValidateTitle(s, name, year, description, categorySlug, genreSlugs)
  {
    var allowed := IsAdminOrReadOnlyPermission(Request(Post, q));
    :- Enforce(allowed, q);
    ValidateTitle(s, name, year, description, categorySlug, genreSlugs)
  }

  /** What a request leaves behind when its writes are not undone on error:
      the store as the database holds it afterwards, and the response. */
  datatype Written = Written(store: Store, result: Result<Title>)

  /** POST /titles/ as the code is written: the title row is created, then
      one link per supplied slug, each insert committed on its own. A slug
      given twice makes the second insert of its link hit the unique
      constraint; the title and the links made before it stay. */
  function CreateTitleAsWritten(s: Store, q: Requester, name: string, year: int, description: Option<string>,
                                categorySlug: string, genreSlugs: seq<string>): (r: Written)
    requires Valid(s) && StoredRequester(s, q)
    ensures Valid(r.store)
    ensures r.result.Ok? <==> TitleRequestOk(s, q, name, year, description, categorySlug, genreSlugs) && NoDuplicates(genreSlugs)
    ensures !TitleRequestOk(s, q, name, year, description, categorySlug, genreSlugs) ==> r.store == s && r.result.Err?
    ensures TitleRequestOk(s, q, name, year, description, categorySlug, genreSlugs) && r.result.Err? ==>
              r.result.error == IntegrityError
    ensures TitleRequestOk(s, q, name, year, description, categorySlug, genreSlugs) ==>
              |r.store.titles| == |s.titles| + 1 && r.store.titles[..|s.titles|] == s.titles
              && AsWrittenTitle(s, r.store.titles[|s.titles|], name, year, description, categorySlug, genreSlugs, r.store)
              && (r.result.Ok? ==> r.result.value == r.store.titles[|s.titles|])
    ensures r.store.users == s.users && r.store.reviews == s.reviews && r.store.comments == s.comments
    ensures r.store.categories == s.categories && r.store.genres == s.genres
  {
    match AdmitTitle(s, q, name, year, description, categorySlug, genreSlugs)
    case Err(e) => Written(s, Err(e))
    case Ok(f) =>
      var r := WriteTitleAsWritten(s, f);
      NamedBeforeClash(s, genreSlugs, f.genres);
      assert r.store.titles[|s.titles|] == Title(s.nextId, f.name, f.year, f.description, Some(f.category));
      r
  }

  /** `Title.objects.create`, then one `GenreTitle.objects.create` per key,
      each committed on its own. */
  function WriteTitleAsWritten(s: Store, f: TitleFields): (r: Written)
    requires Valid(s) && YearInRange(f.year) && f.category in CategoryIds(s.categories)
    requires forall i :: 0 <= i < |f.genres| ==> f.genres[i] in GenreIds(s.genres)
    ensures Valid(r.store)
    ensures r.result.Ok? <==> NoDuplicates(f.genres)
    ensures r.result.Err? ==> r.result.error == IntegrityError
    ensures r.store.titles == s.titles + [Title(s.nextId, f.name, f.year, f.description, Some(f.category))]
    ensures r.result.Ok? ==> r.result.value == Title(s.nextId, f.name, f.year, f.description, Some(f.category))
    ensures GenresOf(r.store.genreTitles, s.nextId) == set g | g in f.genres[..FirstClash({}, f.genres)]
    ensures |r.store.genreTitles| == |s.genreTitles| + FirstClash({}, f.genres)
    ensures forall l: GenreTitle :: l.title != s.nextId ==> (l in r.store.genreTitles <==> l in s.genreTitles)
    ensures r.store.users == s.users && r.store.reviews == s.reviews && r.store.comments == s.comments
    ensures r.store.categories == s.categories && r.store.genres == s.genres
  {
    var (s1, t) := NewTitle(s, f);
    var (s2, o) := InsertLinks(s1, t.id, f.genres);
    Written(s2, if o.Pass? then Ok(t) else Err(o.error))
  }

  /** The title a title POST inserts, as the serializer fills it in, with the
      links the code makes for it: one per slug up to the first repeated
      slug, and no other link changed. */
  ghost predicate AsWrittenTitle(s: Store, t: Title, name: string, year: int, description: Option<string>,
                                 categorySlug: string, genreSlugs: seq<string>, s': Store)
  {
    && t.id !in TitleIds(s.titles)
    && t.name == Trim(name) && t.year == year
    && t.description == (if description.Some? then Some(Trim(description.value)) else None)
    && FindCategory(s.categories, categorySlug).Some?
    && t.category == Some(FindCategory(s.categories, categorySlug).value.id)
    && GenresOf(s'.genreTitles, t.id)
       == (set g | g in s.genres && g.slug in genreSlugs[..FirstClash({}, genreSlugs)] :: g.id)
    && |s'.genreTitles| == |s.genreTitles| + FirstClash({}, genreSlugs)
    && (forall l: GenreTitle :: l.title != t.id ==> (l in s'.genreTitles <==> l in s.genreTitles))
  }

  /** The keys linked before the first repeated key are those of the genres
      named before the first repeated slug. */
  lemma NamedBeforeClash(s: Store, slugs: seq<string>, ids: seq<nat>)
    requires Valid(s)
    requires |ids| == |slugs|
    requires forall i :: 0 <= i < |slugs| ==> FindGenre(s.genres, slugs[i]).Some?
    requires forall i :: 0 <= i < |slugs| ==> ids[i] == FindGenre(s.genres, slugs[i]).value.id
    ensures FirstClash({}, ids) == FirstClash({}, slugs)
    ensures (set g | g in ids[..FirstClash({}, ids)])
            == (set g | g in s.genres && g.slug in slugs[..FirstClash({}, slugs)] :: g.id)
  {
    ResolvedDistinctIff(s, slugs, ids);
    NamedPrefix(s, slugs, ids, FirstClash({}, slugs));
  }

  /** The keys in a prefix of the resolved list are those of the genres the
      same prefix of slugs names. */
  lemma NamedPrefix(s: Store, slugs: seq<string>, ids: seq<nat>, k: nat)
    requires Valid(s)
    requires |ids| == |slugs| && k <= |slugs|
    requires forall i :: 0 <= i < |slugs| ==> FindGenre(s.genres, slugs[i]).Some?
    requires forall i :: 0 <= i < |slugs| ==> ids[i] == FindGenre(s.genres, slugs[i]).value.id
    ensures (set g | g in ids[..k]) == (set g | g in s.genres && g.slug in slugs[..k] :: g.id)
  {
    var namedSlugs, namedIds := slugs[..k], ids[..k];
    assert forall i :: 0 <= i < k ==> namedSlugs[i] == slugs[i] && namedIds[i] == ids[i];
    ResolvedGenresAreNamed(s, namedSlugs, namedIds);
  }

  /** Slugs and keys identify genres alike, so resolved keys repeat exactly
      when slugs do, and at the same place. */
  lemma ResolvedDistinctIff(s: Store, slugs: seq<string>, ids: seq<nat>)
    requires Valid(s)
    requires |ids| == |slugs|
    requires forall i :: 0 <= i < |slugs| ==> FindGenre(s.genres, slugs[i]).Some?
    requires forall i :: 0 <= i < |slugs| ==> ids[i] == FindGenre(s.genres, slugs[i]).value.id
    ensures NoDuplicates(ids) <==> NoDuplicates(slugs)
    ensures FirstClash({}, ids) == FirstClash({}, slugs)
  {
    forall i, j | 0 <= i < |slugs| && 0 <= j < |slugs|
      ensures ids[i] == ids[j] <==> slugs[i] == slugs[j]
    {
      var a := FindGenre(s.genres, slugs[i]).value;
      var b := FindGenre(s.genres, slugs[j]).value;
      if ids[i] == ids[j] {
        PairwiseSameRow(s.genres, DistinctGenres, a, b);
      }
    }
    SameFirstClash(ids, slugs);
  }

  /** The links of a fresh title, one per distinct genre. */
  function LinkOnce(s: Store, title: nat, genres: seq<nat>): (r: Store)
    requires Valid(s) && title in TitleIds(s.titles) && GenresOf(s.genreTitles, title) == {}
    requires forall i :: 0 <= i < |genres| ==> genres[i] in GenreIds(s.genres)
    ensures Valid(r)
    ensures GenresOf(r.genreTitles, title) == set g | g in genres
    ensures forall l: GenreTitle :: l.title != title ==> (l in r.genreTitles <==> l in s.genreTitles)
    ensures r == s.(genreTitles := r.genreTitles, nextId := r.nextId)
    ensures NoDuplicates(genres) ==> r == InsertLinks(s, title, genres).0
  {
    var distinct := Dedup(genres);
    assert forall i :: 0 <= i < |distinct| ==> distinct[i] in genres;
    assert (set g | g in distinct) == set g | g in genres;
    InsertLinks(s, title, distinct).0
  }

  /** POST /titles/ with the links made once per distinct genre: the title
      is created and linked to exactly the genres named by the slugs. */
  function CreateTitle(s: Store, q: Requester, name: string, year: int, description: Option<string>,
                       categorySlug: string, genreSlugs: seq<string>): (r: Result<(Store, Title)>)
    requires Valid(s) && StoredRequester(s, q)
    ensures r.Ok? ==> Valid(r.value.0)
    ensures r.Ok? <==> TitleRequestOk(s, q, name, year, description, categorySlug, genreSlugs)
    ensures !AtLeast(q, Administrator) ==> r.Err? && (r.error == NotAuthenticated <==> q.Anonymous?)
    ensures AtLeast(q, Administrator) && r.Err? ==> r.error.Validation?
    ensures r.Ok? ==> r.value.1 in r.value.0.titles && r.value.1 !in s.titles
    ensures r.Ok? ==> forall t :: t in r.value.0.titles <==> t in s.titles || t == r.value.1
    ensures r.Ok? ==> r.value.1.name == Trim(name) && r.value.1.year == year
    ensures r.Ok? ==> r.value.1.description == (if description.Some? then Some(Trim(description.value)) else None)
    ensures r.Ok? ==> r.value.1.category == Some(FindCategory(s.categories, categorySlug).value.id)
    ensures r.Ok? ==> GenresOf(r.value.0.genreTitles, r.value.1.id) == set g | g in s.genres && g.slug in genreSlugs :: g.id
    ensures r.Ok? ==> forall l: GenreTitle :: l.title != r.value.1.id ==> (l in r.value.0.genreTitles <==> l in s.genreTitles)
    ensures r.Ok? ==> r.value.0.users == s.users && r.value.0.reviews == s.reviews && r.value.0.comments == s.comments
    ensures r.Ok? ==> r.value.0.categories == s.categories && r.value.0.genres == s.genres
  {
    var f :- AdmitTitle(s, q, name, year, description, categorySlug, genreSlugs);
    var (s1, t) := NewTitle(s, f);
    ResolvedGenresAreNamed(s, genreSlugs, f.genres);
    Ok((LinkOnce(s1, t.id, f.genres), t))
  }

  /** When no genre slug repeats, the code as written and the version that
      links each genre once give the same response and leave the same
      store. */
  lemma AsWrittenAgreesWhenDistinct(s: Store, q: Requester, name: string, year: int, description: Option<string>,
                                    categorySlug: string, genreSlugs: seq<string>)
    requires Valid(s) && StoredRequester(s, q) && NoDuplicates(genreSlugs)
    ensures
      var w := CreateTitleAsWritten(s, q, name, year, description, categorySlug, genreSlugs);
      var r := CreateTitle(s, q, name, year, description, categorySlug, genreSlugs);
      && (r.Ok? ==> w == Written(r.value.0, Ok(r.value.1)))
      && (r.Err? ==> w == Written(s, Err(r.error)))
  {
    match AdmitTitle(s, q, name, year, description, categorySlug, genreSlugs)
    case Err(_) =>
    case Ok(f) =>
      ResolvedDistinctIff(s, genreSlugs, f.genres);
  }

  /** A catalog with one administrator, the category "books" and the genre
      "drama". */
  const SAMPLE_ADMIN: Users.User :=
    Users.NewUser(0, "root", "root@example.com", Users.ADMIN, seq(32, _ => 0 as Uuids.Nibble))
  const SAMPLE: Store :=
    Store([SAMPLE_ADMIN], [Category(1, "Books", "books")], [Genre(2, "Drama", "drama")], [], [], [], [], 3, 0)

  lemma SampleValid()
    ensures Valid(SAMPLE) && StoredRequester(SAMPLE, Authenticated(SAMPLE_ADMIN))
  {
    assert Validators.AllUsernameChars(SAMPLE_ADMIN.username);
    assert Users.UserRowOk(SAMPLE_ADMIN);
    assert SlugOk("books") && SlugOk("drama");
  }

  /** The request itself is acceptable: an administrator, a fitting name and
      year, a known category and known genres. */
  lemma SampleRequestOk()
    ensures TitleRequestOk(SAMPLE, Authenticated(SAMPLE_ADMIN), "Solaris", 1961, None, "books", ["drama", "drama"])
    ensures !NoDuplicates(["drama", "drama"])
  {
    var slugs := ["drama", "drama"];
    TrimKeepsUnspaced("Solaris");
    assert FindGenre(SAMPLE.genres, "drama") == Some(Genre(2, "Drama", "drama"));
    assert forall i :: 0 <= i < |slugs| ==> slugs[i] == "drama";
    assert FindCategory(SAMPLE.categories, "books").Some?;
    assert slugs[0] == slugs[1];
  }

  /** Naming the same genre twice, as the code is written: the second link
      hits the unique constraint and the request fails with an integrity
      error, leaving the title in the store linked to the genre once. */
  lemma RepeatedGenreSlugRejected()
    ensures Valid(SAMPLE) && StoredRequester(SAMPLE, Authenticated(SAMPLE_ADMIN))
    ensures
      var r := CreateTitleAsWritten(SAMPLE, Authenticated(SAMPLE_ADMIN), "Solaris", 1961, None, "books", ["drama", "drama"]);
      && r.result == Err(IntegrityError)
      && |r.store.titles| == 1 && r.store.titles[0].name == "Solaris"
      && GenresOf(r.store.genreTitles, r.store.titles[0].id) == {2}
  {
    SampleValid();
    SampleRequestOk();
    SampleFirstClash();
    SampleGenreNamedOnce();
    SampleNameTrimmed();
  }

  lemma SampleNameTrimmed()
    ensures Trim("Solaris") == "Solaris"
  {
    var name := "Solaris";
    assert forall k :: 0 <= k < |name| ==> 'A' <= name[k] <= 'z';
    TrimKeepsUnspaced(name);
  }

  lemma SampleFirstClash()
    ensures FirstClash({}, ["drama", "drama"]) == 1
    ensures ["drama", "drama"][..1] == ["drama"]
  {
    var slugs := ["drama", "drama"];
    assert slugs[1..] == ["drama"];
  }

  /** The same request with one link per distinct genre creates the title,
      linked to that genre once. */
  lemma RepeatedGenreSlugLinkedOnce()
    ensures Valid(SAMPLE) && StoredRequester(SAMPLE, Authenticated(SAMPLE_ADMIN))
    ensures
      var r := CreateTitle(SAMPLE, Authenticated(SAMPLE_ADMIN), "Solaris", 1961, None, "books", ["drama", "drama"]);
      r.Ok? && GenresOf(r.value.0.genreTitles, r.value.1.id) == {2}
  {
    SampleValid();
    SampleRequestOk();
    SampleGenresNamed();
  }

  lemma SampleGenresNamed()
    ensures (set g | g in SAMPLE.genres && g.slug in ["drama", "drama"] :: g.id) == {2}
  {
    assert Genre(2, "Drama", "drama") in SAMPLE.genres;
  }

  lemma SampleGenreNamedOnce()
    ensures (set g | g in SAMPLE.genres && g.slug in ["drama"] :: g.id) == {2}
  {
    assert Genre(2, "Drama", "drama") in SAMPLE.genres;
  }

  /** The keys a slug list resolves to are the keys of the genres it names. */
  lemma ResolvedGenresAreNamed(s: Store, slugs: seq<string>, ids: seq<nat>)
    requires Valid(s)
    requires |ids| == |slugs|
    requires forall i :: 0 <= i < |slugs| ==> FindGenre(s.genres, slugs[i]).Some?
    requires forall i :: 0 <= i < |slugs| ==> ids[i] == FindGenre(s.genres, slugs[i]).value.id
    ensures (set x | x in ids) == set g | g in s.genres && g.slug in slugs :: g.id
  {
    SlugsUnique(s);
    forall x | x in ids
      ensures x in set g | g in s.genres && g.slug in slugs :: g.id
    {
      var i :| 0 <= i < |ids| && ids[i] == x;
      var g := FindGenre(s.genres, slugs[i]).value;
      assert g in s.genres && g.slug in slugs;
    }
    forall g | g in s.genres && g.slug in slugs
      ensures g.id in ids
    {
      var i :| 0 <= i < |slugs| && slugs[i] == g.slug;
      assert FindGenre(s.genres, slugs[i]).value == g;
      assert ids[i] == g.id;
    }
  }

  /** DELETE /titles/{id}/: the title goes, and with it its genre links, its
      reviews and, through them, their comments. */
  function DeleteTitle(s: Store, q: Requester, id: nat): (r: Result<Store>)
    requires Valid(s) && StoredRequester(s, q)
    ensures r.Ok? ==> Valid(r.value)
    ensures r.Ok? <==> AtLeast(q, Administrator) && FindTitle(s.titles, id).Some?
    ensures AtLeast(q, Administrator) && FindTitle(s.titles, id).None? ==> r == Err(NotFound)
    ensures !AtLeast(q, Administrator) ==> r.Err? && (r.error == NotAuthenticated <==> q.Anonymous?)
    ensures r.Ok? ==> forall t :: t in r.value.titles <==> t in s.titles && t.id != id
    ensures r.Ok? ==> forall l :: l in r.value.genreTitles <==> l in s.genreTitles && l.title != id
    ensures r.Ok? ==> forall x :: x in r.value.reviews <==> x in s.reviews && x.title != id
    ensures r.Ok? ==> forall c :: c in r.value.comments <==> c in s.comments && c.review in ReviewIds(r.value.reviews)
    ensures r.Ok? ==> forall u :: u in r.value.users <==> u in s.users
    ensures r.Ok? ==> forall g :: g in r.value.genres <==> g in s.genres
    ensures r.Ok? ==> r.value.categories == s.categories
  {
    var allowed := IsAdminOrReadOnlyPermission(Request(Delete, q));
    :- Enforce(allowed, q);
    match FindTitle(s.titles, id)
    case None => Err(NotFound)
    case Some(_) =>
      Ok(RemoveTitle(s, id))
  }

  // ----- Reading titles --------------------------------------------------

  /** The reviews of `title`, oldest first. */
  function ReviewsOf(s: Store, title: nat): seq<Review>
  {
    Filter((x: Review) => x.title == title, s.reviews)
  }

  function Scores(rs: seq<Review>): (xs: seq<int>)
    ensures |xs| == |rs|
    ensures forall i :: 0 <= i < |rs| ==> xs[i] == rs[i].score
  {
    seq(|rs|, i requires 0 <= i < |rs| => rs[i].score)
  }

  /** `annotate(rating=Avg('reviews__score'))` rendered by an IntegerField:
      the mean of the title's scores truncated to an integer, or null for a
      title without reviews. */
  function Rating(s: Store, title: nat): (r: Option<int>)
    requires Valid(s)
    ensures r.None? <==> forall x :: x in s.reviews ==> x.title != title
    ensures r.Some? ==> MIN_SCORE <= r.value <= MAX_SCORE
    ensures r.Some? ==> IsTruncatedMean(r.value, Scores(ReviewsOf(s, title)))
  {
    var rs := ReviewsOf(s, title);
    if rs == [] then None
    else
      assert rs[0] in rs;
      StoredScoresInRange(s, rs);
      var m := Mean(Scores(rs));
      Some(m)
  }

  lemma StoredScoresInRange(s: Store, rs: seq<Review>)
    requires Valid(s)
    requires forall x :: x in rs ==> x in s.reviews
    ensures forall i :: 0 <= i < |rs| ==> MIN_SCORE <= Scores(rs)[i] <= MAX_SCORE
  {
    forall i | 0 <= i < |rs|
      ensures MIN_SCORE <= Scores(rs)[i] <= MAX_SCORE
    {
      assert rs[i] in rs;
    }
  }

  /** `m` is the mean of `xs` rounded down: `m * |xs| <= sum < (m + 1) * |xs|`. */
  predicate IsTruncatedMean(m: int, xs: seq<int>)
  {
    |xs| > 0 && |xs| * m <= Sum(xs) < |xs| * (m + 1)
  }

  /** The integer part of the mean of scores between 1 and 10. */
  function Mean(xs: seq<int>): (m: int)
    requires |xs| > 0
    requires forall i :: 0 <= i < |xs| ==> MIN_SCORE <= xs[i] <= MAX_SCORE
    ensures MIN_SCORE <= m <= MAX_SCORE
    ensures IsTruncatedMean(m, xs)
  {
    SumBounds(xs, MIN_SCORE, MAX_SCORE);
    MeanBounds(Sum(xs), |xs|);
    Sum(xs) / |xs|
  }

  /** The truncated mean of n scores between 1 and 10 is between 1 and 10. */
  lemma MeanBounds(total: int, n: int)
    requires n > 0
    requires MIN_SCORE * n <= total <= MAX_SCORE * n
    ensures MIN_SCORE <= total / n <= MAX_SCORE
    ensures n * (total / n) <= total < n * (total / n + 1)
  {
    var m := total / n;
    assert total == n * m + total % n;
    CancelFactor(n, 0, m + 1);
    CancelFactor(n, m, MAX_SCORE + 1);
  }

  /** A positive factor can be cancelled from a strict inequality. */
  lemma CancelFactor(n: int, a: int, b: int)
    requires n > 0 && n * a < n * b
    ensures a < b
  {
  }

  /** What `ReadTitleSerializer` shows for a title. */
  datatype TitleView = TitleView(
    title: Title,
    category: Option<Category>,
    genres: set<Genre>,
    rating: Option<int>)

  /** GET /titles/{id}/, open to everyone. */
  function ReadTitle(s: Store, id: nat): (r: Result<TitleView>)
    requires Valid(s)
    ensures r.Err? <==> forall t :: t in s.titles ==> t.id != id
    ensures r.Err? ==> r.error == NotFound
    ensures r.Ok? ==> r.value.title in s.titles && r.value.title.id == id
    ensures r.Ok? ==> (r.value.category.Some? <==> r.value.title.category.Some?)
    ensures r.Ok? && r.value.category.Some? ==>
      r.value.category.value in s.categories && r.value.category.value.id == r.value.title.category.value
    ensures r.Ok? ==> forall g :: g in r.value.genres <==> g in s.genres && g.id in GenresOf(s.genreTitles, id)
    ensures r.Ok? ==> r.value.rating == Rating(s, id)
  {
    match FindTitle(s.titles, id)
    case None => Err(NotFound)
    case Some(t) =>
      var category := match t.category
        case None => None
        case Some(c) => Find((x: Category) => x.id == c, s.categories);
      var genres := set g | g in s.genres && g.id in GenresOf(s.genreTitles, id);
      Ok(TitleView(t, category, genres, Rating(s, id)))
  }

  datatype TitleSerializer = ReadSerializer | WriteSerializer

  /** `TitleViewSet.get_serializer_class`: reads get the nested serializer,
      writes the slug-based one. */
  function TitleSerializerFor(m: Method): (r: TitleSerializer)
    ensures r == ReadSerializer <==> m in {Get, Head, Options}
    ensures r == WriteSerializer <==> m in {Post, Put, Patch, Delete}
  {
    if IsSafe(m) then ReadSerializer else WriteSerializer
  }

  /** A request that reaches the write serializer came from an administrator. */
  lemma WriteSerializerOnlyForAdministrators(r: Request)
    requires IsAdminOrReadOnlyPermission(r)
    requires TitleSerializerFor(r.verb) == WriteSerializer
    ensures AtLeast(r.requester, Administrator)
  {
  }
}
