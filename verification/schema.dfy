/** The relational store of reviews/models.py and users/models.py: one table
    per model, kept in insertion order, with the constraints the models
    declare (unique slugs, one link per genre and title, one review per title
    and author, score and year bounds, foreign keys) gathered in `Valid`, and
    the two delete rules: CASCADE along every foreign key, SET_NULL from a
    title to its category. */
module Schema {
  import opened Outcomes
  import opened Seqs
  import opened Users
  import Validators
  import Permissions

  /** The earliest year a title may carry (the model's message says 868). */
  const FIRST_BOOK_YEAR: int := 868
  /** The year the server read from its clock at start-up. */
  const CURRENT_YEAR: int := 2026
  const MIN_SCORE: int := 1
  const MAX_SCORE: int := 10
  /** max_length of the name of a category, a genre and a title. */
  const CATALOG_NAME_MAX_LENGTH: int := 256
  /** max_length of a SlugField. */
  const SLUG_MAX_LENGTH: int := 50

  datatype Category = Category(id: nat, name: string, slug: string)
  datatype Genre = Genre(id: nat, name: string, slug: string)
  datatype Title = Title(id: nat, name: string, year: int, description: Option<string>, category: Option<nat>)
  datatype GenreTitle = GenreTitle(id: nat, title: nat, genre: nat)
  datatype Review = Review(id: nat, title: nat, author: nat, text: string, score: int, pubDate: nat)
  datatype Comment = Comment(id: nat, review: nat, author: nat, text: string, pubDate: nat)

  /** The database. `nextId` is the next free primary key; `clock` stands for
      `timezone.now()` and only moves forward. */
  datatype Store = Store(
    users: seq<User>,
    categories: seq<Category>,
    genres: seq<Genre>,
    titles: seq<Title>,
    genreTitles: seq<GenreTitle>,
    reviews: seq<Review>,
    comments: seq<Comment>,
    nextId: nat,
    clock: nat)

  const EMPTY: Store := Store([], [], [], [], [], [], [], 0, 0)

  function UserIds(users: seq<User>): set<nat> { set u | u in users :: u.id }
  function CategoryIds(cs: seq<Category>): set<nat> { set c | c in cs :: c.id }
  function GenreIds(gs: seq<Genre>): set<nat> { set g | g in gs :: g.id }
  function TitleIds(ts: seq<Title>): set<nat> { set t | t in ts :: t.id }
  function ReviewIds(rs: seq<Review>): set<nat> { set r | r in rs :: r.id }

  // The pairwise constraints, each relating an earlier row to a later one.

  predicate DistinctUsers(a: User, b: User)
  {
    a.id != b.id && a.username != b.username && a.email != b.email
  }

  predicate DistinctCategories(a: Category, b: Category)
  {
    a.id != b.id && a.slug != b.slug
  }

  predicate DistinctGenres(a: Genre, b: Genre)
  {
    a.id != b.id && a.slug != b.slug
  }

  predicate DistinctTitles(a: Title, b: Title)
  {
    a.id != b.id
  }

  predicate DistinctLinks(a: GenreTitle, b: GenreTitle)
  {
    a.id != b.id && (a.title != b.title || a.genre != b.genre)
  }

  /** Distinct keys, one review per (title, author), and `ordering = ('pub_date',)`. */
  predicate ReviewsInOrder(a: Review, b: Review)
  {
    a.id != b.id && (a.title != b.title || a.author != b.author) && a.pubDate < b.pubDate
  }

  predicate CommentsInOrder(a: Comment, b: Comment)
  {
    a.id != b.id && a.pubDate < b.pubDate
  }

  predicate ScoreInRange(score: int)
  {
    MIN_SCORE <= score <= MAX_SCORE
  }

  predicate YearInRange(year: int)
  {
    FIRST_BOOK_YEAR <= year <= CURRENT_YEAR
  }

  /** Django's `validate_slug`: `^[-a-zA-Z0-9_]+$`, within the column limit. */
  predicate SlugOk(slug: string)
  {
    && 0 < |slug| <= SLUG_MAX_LENGTH
    && forall i :: 0 <= i < |slug| ==>
         || ('a' <= slug[i] <= 'z') || ('A' <= slug[i] <= 'Z') || ('0' <= slug[i] <= '9')
         || slug[i] == '-' || slug[i] == '_'
  }

  /** The column limits and validators a stored user satisfies. */
  ghost predicate UsersValid(s: Store)
  {
    && Pairwise(s.users, DistinctUsers)
    && forall u :: u in s.users ==> u.id < s.nextId && UserRowOk(u)
  }

  ghost predicate CategoriesValid(s: Store)
  {
    && Pairwise(s.categories, DistinctCategories)
    && forall c :: c in s.categories ==> c.id < s.nextId && SlugOk(c.slug)
  }

  ghost predicate GenresValid(s: Store)
  {
    && Pairwise(s.genres, DistinctGenres)
    && forall g :: g in s.genres ==> g.id < s.nextId && SlugOk(g.slug)
  }

  ghost predicate TitlesValid(s: Store)
  {
    && Pairwise(s.titles, DistinctTitles)
    && forall t :: t in s.titles ==>
         && t.id < s.nextId
         && YearInRange(t.year)
         && (t.category.Some? ==> t.category.value in CategoryIds(s.categories))
  }

  ghost predicate LinksValid(s: Store)
  {
    && Pairwise(s.genreTitles, DistinctLinks)
    && forall l :: l in s.genreTitles ==>
         l.id < s.nextId && l.title in TitleIds(s.titles) && l.genre in GenreIds(s.genres)
  }

  ghost predicate ReviewsValid(s: Store)
  {
    && Pairwise(s.reviews, ReviewsInOrder)
    && forall r :: r in s.reviews ==>
         && r.id < s.nextId
         && r.pubDate < s.clock
         && ScoreInRange(r.score)
         && r.title in TitleIds(s.titles)
         && r.author in UserIds(s.users)
  }

  ghost predicate CommentsValid(s: Store)
  {
    && Pairwise(s.comments, CommentsInOrder)
    && forall c :: c in s.comments ==>
         && c.id < s.nextId
         && c.pubDate < s.clock
         && c.review in ReviewIds(s.reviews)
         && c.author in UserIds(s.users)
  }

  /** Every constraint the models declare. */
  ghost predicate Valid(s: Store)
  {
    && UsersValid(s)
    && CategoriesValid(s)
    && GenresValid(s)
    && TitlesValid(s)
    && LinksValid(s)
    && ReviewsValid(s)
    && CommentsValid(s)
  }

  function FindCategory(cs: seq<Category>, slug: string): Option<Category>
  {
    Find((c: Category) => c.slug == slug, cs)
  }

  function FindGenre(gs: seq<Genre>, slug: string): Option<Genre>
  {
    Find((g: Genre) => g.slug == slug, gs)
  }

  function FindTitle(ts: seq<Title>, id: nat): Option<Title>
  {
    Find((t: Title) => t.id == id, ts)
  }

  function FindReview(rs: seq<Review>, id: nat): Option<Review>
  {
    Find((r: Review) => r.id == id, rs)
  }

  function FindUserNamed(users: seq<User>, username: string): Option<User>
  {
    Find((u: User) => u.username == username, users)
  }

  /** The genres linked to `title`. */
  function GenresOf(links: seq<GenreTitle>, title: nat): set<nat>
  {
    set l | l in links && l.title == title :: l.genre
  }

  /** An authenticated requester is a row of the users table. */
  predicate StoredRequester(s: Store, q: Permissions.Requester)
  {
    q.Authenticated? ==> q.user in s.users
  }

  lemma EmptyIsValid()
    ensures Valid(EMPTY)
  {
  }

  /** Two members of a pairwise-constrained table that violate the constraint
      both ways are one and the same row. */
  lemma PairwiseSameRow<T>(s: seq<T>, P: (T, T) -> bool, a: T, b: T)
    requires Pairwise(s, P)
    requires a in s && b in s
    requires !P(a, b) && !P(b, a)
    ensures a == b
  {
    var i :| 0 <= i < |s| && s[i] == a;
    var j :| 0 <= j < |s| && s[j] == b;
    assert i == j;
  }

  /** No two users share a username, an email or a primary key. */
  lemma UsersUnique(s: Store, a: User, b: User)
    requires Valid(s)
    requires a in s.users && b in s.users
    requires a.username == b.username || a.email == b.email || a.id == b.id
    ensures a == b
  {
    PairwiseSameRow(s.users, DistinctUsers, a, b);
  }

  /** Category slugs and genre slugs are unique. */
  lemma SlugsUnique(s: Store)
    requires Valid(s)
    ensures forall a, b :: a in s.categories && b in s.categories && a.slug == b.slug ==> a == b
    ensures forall a, b :: a in s.genres && b in s.genres && a.slug == b.slug ==> a == b
  {
    forall a, b | a in s.categories && b in s.categories && a.slug == b.slug
      ensures a == b
    {
      PairwiseSameRow(s.categories, DistinctCategories, a, b);
    }
    forall a, b | a in s.genres && b in s.genres && a.slug == b.slug
      ensures a == b
    {
      PairwiseSameRow(s.genres, DistinctGenres, a, b);
    }
  }

  /** At most one link per (genre, title) and one review per (title, author). */
  lemma PairsUnique(s: Store)
    requires Valid(s)
    ensures forall a, b :: a in s.genreTitles && b in s.genreTitles && a.title == b.title && a.genre == b.genre ==> a == b
    ensures forall a, b :: a in s.reviews && b in s.reviews && a.title == b.title && a.author == b.author ==> a == b
  {
    forall a, b | a in s.genreTitles && b in s.genreTitles && a.title == b.title && a.genre == b.genre
      ensures a == b
    {
      PairwiseSameRow(s.genreTitles, DistinctLinks, a, b);
    }
    forall a, b | a in s.reviews && b in s.reviews && a.title == b.title && a.author == b.author
      ensures a == b
    {
      PairwiseSameRow(s.reviews, ReviewsInOrder, a, b);
    }
  }

  /** Rows with equal primary keys are equal. */
  lemma KeysUnique(s: Store)
    requires Valid(s)
    ensures forall a, b :: a in s.titles && b in s.titles && a.id == b.id ==> a == b
    ensures forall a, b :: a in s.reviews && b in s.reviews && a.id == b.id ==> a == b
    ensures forall a, b :: a in s.comments && b in s.comments && a.id == b.id ==> a == b
  {
    forall a, b | a in s.titles && b in s.titles && a.id == b.id
      ensures a == b
    {
      PairwiseSameRow(s.titles, DistinctTitles, a, b);
    }
    forall a, b | a in s.reviews && b in s.reviews && a.id == b.id
      ensures a == b
    {
      PairwiseSameRow(s.reviews, ReviewsInOrder, a, b);
    }
    forall a, b | a in s.comments && b in s.comments && a.id == b.id
      ensures a == b
    {
      PairwiseSameRow(s.comments, CommentsInOrder, a, b);
    }
  }

  /** Deletes rows and follows every `on_delete=CASCADE` foreign key: a
      genre-title link goes with its title or genre, a review with its title
      or author, a comment with its review or author. The keep predicates say
      which rows the caller deletes directly. */
  function Cascade(
    s: Store,
    keepUser: User -> bool,
    keepGenre: Genre -> bool,
    keepTitle: Title -> bool,
    keepReview: Review -> bool,
    keepComment: Comment -> bool): (s': Store)
    requires Valid(s)
    ensures Valid(s')
    ensures s'.categories == s.categories && s'.nextId == s.nextId && s'.clock == s.clock
    ensures forall u :: u in s'.users <==> u in s.users && keepUser(u)
    ensures forall g :: g in s'.genres <==> g in s.genres && keepGenre(g)
    ensures forall t :: t in s'.titles <==> t in s.titles && keepTitle(t)
    ensures forall l :: l in s'.genreTitles <==>
      l in s.genreTitles && l.title in TitleIds(s'.titles) && l.genre in GenreIds(s'.genres)
    ensures forall r :: r in s'.reviews <==>
      r in s.reviews && keepReview(r) && r.title in TitleIds(s'.titles) && r.author in UserIds(s'.users)
    ensures forall c :: c in s'.comments <==>
      c in s.comments && keepComment(c) && c.review in ReviewIds(s'.reviews) && c.author in UserIds(s'.users)
  {
    var users := Filter(keepUser, s.users);
    var genres := Filter(keepGenre, s.genres);
    var titles := Filter(keepTitle, s.titles);
    var userIds := UserIds(users);
    var titleIds := TitleIds(titles);
    var genreIds := GenreIds(genres);
    var links := Filter((l: GenreTitle) => l.title in titleIds && l.genre in genreIds, s.genreTitles);
    var reviews := Filter((r: Review) => keepReview(r) && r.title in titleIds && r.author in userIds, s.reviews);
    var reviewIds := ReviewIds(reviews);
    var comments := Filter((c: Comment) => keepComment(c) && c.review in reviewIds && c.author in userIds, s.comments);
    SubseqKeepsPairwise(users, s.users, DistinctUsers);
    SubseqKeepsPairwise(genres, s.genres, DistinctGenres);
    SubseqKeepsPairwise(titles, s.titles, DistinctTitles);
    SubseqKeepsPairwise(links, s.genreTitles, DistinctLinks);
    SubseqKeepsPairwise(reviews, s.reviews, ReviewsInOrder);
    SubseqKeepsPairwise(comments, s.comments, CommentsInOrder);
    Store(users, s.categories, genres, titles, links, reviews, comments, s.nextId, s.clock)
  }

  /** Deletes the genre with key `id`: its genre-title links go with it,
      nothing else does. */
  function RemoveGenre(s: Store, id: nat): (s': Store)
    requires Valid(s)
    ensures Valid(s')
    ensures forall g :: g in s'.genres <==> g in s.genres && g.id != id
    ensures forall l :: l in s'.genreTitles <==> l in s.genreTitles && l.genre != id
    ensures forall u :: u in s'.users <==> u in s.users
    ensures forall t :: t in s'.titles <==> t in s.titles
    ensures forall r :: r in s'.reviews <==> r in s.reviews
    ensures forall c :: c in s'.comments <==> c in s.comments
    ensures s'.categories == s.categories
  {
    var s' := Cascade(s, _ => true, (g: Genre) => g.id != id, _ => true, _ => true, _ => true);
    assert TitleIds(s'.titles) == TitleIds(s.titles);
    assert UserIds(s'.users) == UserIds(s.users);
    GenreIdsWithout(s, s', id);
    assert forall r :: r in s'.reviews <==> r in s.reviews;
    assert ReviewIds(s'.reviews) == ReviewIds(s.reviews);
    s'
  }

  lemma GenreIdsWithout(s: Store, s': Store, id: nat)
    requires Valid(s)
    requires forall g :: g in s'.genres <==> g in s.genres && g.id != id
    ensures GenreIds(s'.genres) == GenreIds(s.genres) - {id}
  {
    forall x | x in GenreIds(s.genres) && x != id
      ensures x in GenreIds(s'.genres)
    {
      var g :| g in s.genres && g.id == x;
      assert g in s'.genres;
    }
  }

  /** Deletes the title with key `id`: its genre-title links and its reviews
      go with it, and the comments on those reviews with them. */
  function RemoveTitle(s: Store, id: nat): (s': Store)
    requires Valid(s)
    ensures Valid(s')
    ensures forall t :: t in s'.titles <==> t in s.titles && t.id != id
    ensures forall l :: l in s'.genreTitles <==> l in s.genreTitles && l.title != id
    ensures forall r :: r in s'.reviews <==> r in s.reviews && r.title != id
    ensures forall c :: c in s'.comments <==> c in s.comments && c.review in ReviewIds(s'.reviews)
    ensures forall u :: u in s'.users <==> u in s.users
    ensures forall g :: g in s'.genres <==> g in s.genres
    ensures s'.categories == s.categories
  {
    var s' := Cascade(s, _ => true, _ => true, (t: Title) => t.id != id, _ => true, _ => true);
    assert UserIds(s'.users) == UserIds(s.users);
    assert GenreIds(s'.genres) == GenreIds(s.genres);
    TitleIdsWithout(s, s', id);
    s'
  }

  lemma TitleIdsWithout(s: Store, s': Store, id: nat)
    requires Valid(s)
    requires forall t :: t in s'.titles <==> t in s.titles && t.id != id
    ensures TitleIds(s'.titles) == TitleIds(s.titles) - {id}
  {
    forall x | x in TitleIds(s.titles) && x != id
      ensures x in TitleIds(s'.titles)
    {
      var t :| t in s.titles && t.id == x;
      assert t in s'.titles;
    }
  }

  /** Deletes the review with key `id` and its comments. */
  function RemoveReview(s: Store, id: nat): (s': Store)
    requires Valid(s)
    ensures Valid(s')
    ensures forall r :: r in s'.reviews <==> r in s.reviews && r.id != id
    ensures forall c :: c in s'.comments <==> c in s.comments && c.review != id
    ensures forall u :: u in s'.users <==> u in s.users
    ensures forall t :: t in s'.titles <==> t in s.titles
    ensures forall l :: l in s'.genreTitles <==> l in s.genreTitles
    ensures forall g :: g in s'.genres <==> g in s.genres
    ensures s'.categories == s.categories
  {
    var s' := Cascade(s, _ => true, _ => true, _ => true, (r: Review) => r.id != id, _ => true);
    assert UserIds(s'.users) == UserIds(s.users);
    assert GenreIds(s'.genres) == GenreIds(s.genres);
    assert TitleIds(s'.titles) == TitleIds(s.titles);
    assert forall r :: r in s'.reviews <==> r in s.reviews && r.id != id;
    ReviewIdsWithout(s, s', id);
    s'
  }

  lemma ReviewIdsWithout(s: Store, s': Store, id: nat)
    requires Valid(s)
    requires forall r :: r in s'.reviews <==> r in s.reviews && r.id != id
    ensures ReviewIds(s'.reviews) == ReviewIds(s.reviews) - {id}
  {
    forall x | x in ReviewIds(s.reviews) && x != id
      ensures x in ReviewIds(s'.reviews)
    {
      var r :| r in s.reviews && r.id == x;
      assert r in s'.reviews;
    }
  }

  /** Deletes the comment with key `id`; nothing refers to a comment. */
  function RemoveComment(s: Store, id: nat): (s': Store)
    requires Valid(s)
    ensures Valid(s')
    ensures forall c :: c in s'.comments <==> c in s.comments && c.id != id
    ensures forall r :: r in s'.reviews <==> r in s.reviews
    ensures forall u :: u in s'.users <==> u in s.users
    ensures forall t :: t in s'.titles <==> t in s.titles
    ensures forall l :: l in s'.genreTitles <==> l in s.genreTitles
    ensures forall g :: g in s'.genres <==> g in s.genres
    ensures s'.categories == s.categories
  {
    var s' := Cascade(s, _ => true, _ => true, _ => true, _ => true, (c: Comment) => c.id != id);
    assert UserIds(s'.users) == UserIds(s.users);
    assert TitleIds(s'.titles) == TitleIds(s.titles);
    assert forall r :: r in s'.reviews <==> r in s.reviews;
    assert ReviewIds(s'.reviews) == ReviewIds(s.reviews);
    s'
  }

  /** Deletes the user with key `id`: their reviews and comments go, and
      the comments on their reviews with them. */
  function RemoveUser(s: Store, id: nat): (s': Store)
    requires Valid(s)
    ensures Valid(s')
    ensures forall u :: u in s'.users <==> u in s.users && u.id != id
    ensures forall r :: r in s'.reviews <==> r in s.reviews && r.author != id
    ensures forall c :: c in s'.comments <==>
      c in s.comments && c.author != id && c.review in ReviewIds(s'.reviews)
    ensures forall t :: t in s'.titles <==> t in s.titles
    ensures forall l :: l in s'.genreTitles <==> l in s.genreTitles
    ensures forall g :: g in s'.genres <==> g in s.genres
    ensures s'.categories == s.categories
  {
    var s' := Cascade(s, (u: User) => u.id != id, _ => true, _ => true, _ => true, _ => true);
    assert TitleIds(s'.titles) == TitleIds(s.titles);
    assert GenreIds(s'.genres) == GenreIds(s.genres);
    UserIdsWithout(s, s', id);
    s'
  }

  lemma UserIdsWithout(s: Store, s': Store, id: nat)
    requires Valid(s)
    requires forall u :: u in s'.users <==> u in s.users && u.id != id
    ensures UserIds(s'.users) == UserIds(s.users) - {id}
  {
    forall x | x in UserIds(s.users) && x != id
      ensures x in UserIds(s'.users)
    {
      var u :| u in s.users && u.id == x;
      assert u in s'.users;
    }
  }

  /** Deletes the category with key `id`; `on_delete=SET_NULL` empties the
      category of the titles that referred to it and keeps them. */
  function RemoveCategory(s: Store, id: nat): (s': Store)
    requires Valid(s)
    ensures Valid(s')
    ensures forall c :: c in s'.categories <==> c in s.categories && c.id != id
    ensures |s'.titles| == |s.titles|
    ensures forall i :: 0 <= i < |s.titles| ==>
      s'.titles[i] == if s.titles[i].category == Some(id) then s.titles[i].(category := None) else s.titles[i]
    ensures s'.users == s.users && s'.genres == s.genres && s'.genreTitles == s.genreTitles
    ensures s'.reviews == s.reviews && s'.comments == s.comments
    ensures s'.nextId == s.nextId && s'.clock == s.clock
  {
    var categories := Filter((c: Category) => c.id != id, s.categories);
    var titles := seq(|s.titles|, i requires 0 <= i < |s.titles| =>
      if s.titles[i].category == Some(id) then s.titles[i].(category := None) else s.titles[i]);
    SubseqKeepsPairwise(categories, s.categories, DistinctCategories);
    var s' := s.(categories := categories, titles := titles);
    RemoveCategoryKeepsValid(s, id, s');
    s'
  }

  lemma RemoveCategoryKeepsValid(s: Store, id: nat, s': Store)
    requires Valid(s)
    requires Pairwise(s'.categories, DistinctCategories)
    requires forall c :: c in s'.categories <==> c in s.categories && c.id != id
    requires |s'.titles| == |s.titles|
    requires forall i :: 0 <= i < |s.titles| ==>
      s'.titles[i] == if s.titles[i].category == Some(id) then s.titles[i].(category := None) else s.titles[i]
    requires s' == s.(categories := s'.categories, titles := s'.titles)
    ensures Valid(s')
  {
    assert TitleIds(s'.titles) == TitleIds(s.titles) by {
      forall x | x in TitleIds(s.titles)
        ensures x in TitleIds(s'.titles)
      {
        var i :| 0 <= i < |s.titles| && s.titles[i].id == x;
        assert s'.titles[i].id == x;
      }
    }
    forall t | t in s'.titles
      ensures t.id < s'.nextId && YearInRange(t.year)
      ensures t.category.Some? ==> t.category.value in CategoryIds(s'.categories)
    {
      var i :| 0 <= i < |s'.titles| && s'.titles[i] == t;
      var old_t := s.titles[i];
      if t.category.Some? {
        var c :| c in s.categories && c.id == t.category.value;
        assert c in s'.categories;
      }
    }
  }

  /** Appends a user with a fresh key whose username and email are taken by
      nobody. */
  function AddUser(s: Store, u: User): (s': Store)
    requires Valid(s)
    requires u.id == s.nextId && UserRowOk(u)
    requires forall v :: v in s.users ==> v.username != u.username && v.email != u.email
    ensures Valid(s')
    ensures s' == s.(users := s.users + [u], nextId := s.nextId + 1)
  {
    AppendKeepsPairwise(s.users, u, DistinctUsers);
    s.(users := s.users + [u], nextId := s.nextId + 1)
  }

  /** Replaces the user at position `k` by `u`, which keeps its key and takes
      no other user's username or email. */
  function ReplaceUser(s: Store, k: nat, u: User): (s': Store)
    requires Valid(s)
    requires k < |s.users| && u.id == s.users[k].id && UserRowOk(u)
    requires forall i :: 0 <= i < |s.users| && i != k ==>
      s.users[i].username != u.username && s.users[i].email != u.email
    ensures Valid(s')
    ensures s' == s.(users := s.users[k := u])
  {
    ReplaceKeepsPairwise(s.users, k, u, DistinctUsers);
    var s' := s.(users := s.users[k := u]);
    assert UserIds(s'.users) == UserIds(s.users) by {
      forall x | x in UserIds(s.users)
        ensures x in UserIds(s'.users)
      {
        var i :| 0 <= i < |s.users| && s.users[i].id == x;
        assert s'.users[i].id == x;
      }
    }
    s'
  }

  function AddCategory(s: Store, name: string, slug: string): (s': Store)
    requires Valid(s)
    requires SlugOk(slug)
    requires forall c :: c in s.categories ==> c.slug != slug
    ensures Valid(s')
    ensures s' == s.(categories := s.categories + [Category(s.nextId, name, slug)], nextId := s.nextId + 1)
  {
    var c := Category(s.nextId, name, slug);
    AppendKeepsPairwise(s.categories, c, DistinctCategories);
    s.(categories := s.categories + [c], nextId := s.nextId + 1)
  }

  function AddGenre(s: Store, name: string, slug: string): (s': Store)
    requires Valid(s)
    requires SlugOk(slug)
    requires forall g :: g in s.genres ==> g.slug != slug
    ensures Valid(s')
    ensures s' == s.(genres := s.genres + [Genre(s.nextId, name, slug)], nextId := s.nextId + 1)
  {
    var g := Genre(s.nextId, name, slug);
    AppendKeepsPairwise(s.genres, g, DistinctGenres);
    s.(genres := s.genres + [g], nextId := s.nextId + 1)
  }

  function AddTitle(s: Store, name: string, year: int, description: Option<string>, category: Option<nat>): (s': Store)
    requires Valid(s)
    requires YearInRange(year)
    requires category.Some? ==> category.value in CategoryIds(s.categories)
    ensures Valid(s')
    ensures s' == s.(titles := s.titles + [Title(s.nextId, name, year, description, category)], nextId := s.nextId + 1)
  {
    var t := Title(s.nextId, name, year, description, category);
    AppendKeepsPairwise(s.titles, t, DistinctTitles);
    s.(titles := s.titles + [t], nextId := s.nextId + 1)
  }

  /** Inserts a genre-title link that does not exist yet. */
  function AddLink(s: Store, title: nat, genre: nat): (s': Store)
    requires Valid(s)
    requires title in TitleIds(s.titles) && genre in GenreIds(s.genres)
    requires forall l :: l in s.genreTitles ==> l.title != title || l.genre != genre
    ensures Valid(s')
    ensures s' == s.(genreTitles := s.genreTitles + [GenreTitle(s.nextId, title, genre)], nextId := s.nextId + 1)
  {
    var l := GenreTitle(s.nextId, title, genre);
    AppendKeepsPairwise(s.genreTitles, l, DistinctLinks);
    s.(genreTitles := s.genreTitles + [l], nextId := s.nextId + 1)
  }

  /** Inserts a review stamped with the current clock. */
  function AddReview(s: Store, title: nat, author: nat, text: string, score: int): (s': Store)
    requires Valid(s)
    requires title in TitleIds(s.titles) && author in UserIds(s.users) && ScoreInRange(score)
    requires forall r :: r in s.reviews ==> r.title != title || r.author != author
    ensures Valid(s')
    ensures s' == s.(reviews := s.reviews + [Review(s.nextId, title, author, text, score, s.clock)],
                     nextId := s.nextId + 1, clock := s.clock + 1)
  {
    var r := Review(s.nextId, title, author, text, score, s.clock);
    AppendKeepsPairwise(s.reviews, r, ReviewsInOrder);
    s.(reviews := s.reviews + [r], nextId := s.nextId + 1, clock := s.clock + 1)
  }

  /** Replaces the review at position `k` by one with the same key, title,
      author and date. */
  function ReplaceReview(s: Store, k: nat, r: Review): (s': Store)
    requires Valid(s)
    requires k < |s.reviews| && ScoreInRange(r.score)
    requires r.id == s.reviews[k].id && r.title == s.reviews[k].title
    requires r.author == s.reviews[k].author && r.pubDate == s.reviews[k].pubDate
    ensures Valid(s')
    ensures s' == s.(reviews := s.reviews[k := r])
  {
    ReplaceKeepsPairwise(s.reviews, k, r, ReviewsInOrder);
    var s' := s.(reviews := s.reviews[k := r]);
    assert ReviewIds(s'.reviews) == ReviewIds(s.reviews) by {
      forall x | x in ReviewIds(s.reviews)
        ensures x in ReviewIds(s'.reviews)
      {
        var i :| 0 <= i < |s.reviews| && s.reviews[i].id == x;
        assert s'.reviews[i].id == x;
      }
    }
    s'
  }

  /** Inserts a comment stamped with the current clock. */
  function AddComment(s: Store, review: nat, author: nat, text: string): (s': Store)
    requires Valid(s)
    requires review in ReviewIds(s.reviews) && author in UserIds(s.users)
    ensures Valid(s')
    ensures s' == s.(comments := s.comments + [Comment(s.nextId, review, author, text, s.clock)],
                     nextId := s.nextId + 1, clock := s.clock + 1)
  {
    var c := Comment(s.nextId, review, author, text, s.clock);
    AppendKeepsPairwise(s.comments, c, CommentsInOrder);
    s.(comments := s.comments + [c], nextId := s.nextId + 1, clock := s.clock + 1)
  }

  /** Replaces the comment at position `k` by one with the same key, review,
      author and date. */
  function ReplaceComment(s: Store, k: nat, c: Comment): (s': Store)
    requires Valid(s)
    requires k < |s.comments|
    requires c.id == s.comments[k].id && c.review == s.comments[k].review
    requires c.author == s.comments[k].author && c.pubDate == s.comments[k].pubDate
    ensures Valid(s')
    ensures s' == s.(comments := s.comments[k := c])
  {
    ReplaceKeepsPairwise(s.comments, k, c, CommentsInOrder);
    s.(comments := s.comments[k := c])
  }
}
