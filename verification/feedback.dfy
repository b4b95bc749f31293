/** Reviews and comments: the nested endpoints
    /titles/{title_id}/reviews/ and /titles/{title_id}/reviews/{review_id}/comments/
    of api/views.py, with the review serializer's checks of api/serializers.py.
    The author and the parent of a new row are bound by the view, never taken
    from the request body. */
module Feedback {
  import opened Outcomes
  import opened Seqs
  import opened Text
  import opened Fields
  import opened Permissions
  import opened Schema

  /** The score field: the serializer's MinValueValidator(1) and
      MaxValueValidator(10). */
  function CheckScore(score: int): (o: Outcome)
    ensures o.Pass? <==> ScoreInRange(score)
    ensures score < MIN_SCORE ==> o == Fail(Validation(ScoreBelowMinimum))
    ensures score > MAX_SCORE ==> o == Fail(Validation(ScoreAboveMaximum))
  {
    if score < MIN_SCORE then Fail(Validation(ScoreBelowMinimum))
    else if score > MAX_SCORE then Fail(Validation(ScoreAboveMaximum))
    else Pass
  }

  /** Whether `q` may change or delete an object written by `author`, once
      the request-level check has let an authenticated user through. */
  predicate MayChange(q: Requester, author: nat)
  {
    AtLeast(q, Moderator) || IsAuthor(q, author)
  }

  /** A text field of a review or a comment: required and not blank. */
  predicate TextOk(raw: string)
  {
    Acceptable(raw, Unlimited, false)
  }

  predicate HasReviewed(s: Store, author: nat, title: nat)
  {
    exists x :: x in s.reviews && x.author == author && x.title == title
  }

  // ----- Reviews -----------------------------------------------------------

  /** POST /titles/{title_id}/reviews/: the request-level check, the
      serializer (text, score, then the one-review-per-author check, which
      only runs on POST), and then `get_title`, which answers 404 for a title
      that does not exist. */
  function PostReview(s: Store, q: Requester, titleId: nat, text: Option<string>, score: Option<int>): (r: Result<(Store, Review)>)
    requires Valid(s) && StoredRequester(s, q)
    ensures r.Ok? ==> Valid(r.value.0)
    ensures r.Ok? <==>
      && q.Authenticated?
      && text.Some? && TextOk(text.value)
      && score.Some? && ScoreInRange(score.value)
      && !HasReviewed(s, q.user.id, titleId)
      && titleId in TitleIds(s.titles)
    ensures q.Anonymous? ==> r == Err(NotAuthenticated)
    ensures q.Authenticated? && text.None? ==> r == Err(Validation(Required("text")))
    ensures q.Authenticated? && text.Some? && TextOk(text.value) && score.None? ==>
      r == Err(Validation(Required("score")))
    ensures
      && q.Authenticated? && text.Some? && TextOk(text.value) && score.Some? && ScoreInRange(score.value)
      && HasReviewed(s, q.user.id, titleId)
      ==> r == Err(Validation(DuplicateReview))
    ensures
      && q.Authenticated? && text.Some? && TextOk(text.value) && score.Some? && ScoreInRange(score.value)
      && titleId !in TitleIds(s.titles)
      ==> r == Err(NotFound)
    ensures r.Ok? ==>
      && r.value.1.author == q.user.id
      && r.value.1.title == titleId
      && r.value.1.text == Trim(text.value)
      && r.value.1.score == score.value
    ensures r.Ok? ==> r.value.1 !in s.reviews && r.value.0.reviews == s.reviews + [r.value.1]
    ensures r.Ok? ==> forall x :: x in s.reviews ==> x.pubDate < r.value.1.pubDate
    ensures r.Ok? ==>
      r.value.0 == s.(reviews := r.value.0.reviews, nextId := r.value.0.nextId, clock := r.value.0.clock)
  {
    var allowed := AuthorPermission(Request(Post, q));
    :- Enforce(allowed, q);
    var rawText :- Present("text", text);
    var cleanText :- CleanChar("text", rawText, Unlimited, false);
    var rawScore :- Present("score", score);
    :- CheckScore(rawScore);
    if exists x :: x in s.reviews && x.author == q.user.id && x.title == titleId then
      Err(Validation(DuplicateReview))
    else
      match FindTitle(s.titles, titleId)
      case None => Err(NotFound)
      case Some(t) =>
        assert t in s.titles;
        var s' := AddReview(s, titleId, q.user.id, cleanText, rawScore);
        var x := Review(s.nextId, titleId, q.user.id, cleanText, rawScore, s.clock);
        assert x in s'.reviews;
        Ok((s', x))
  }

  /** `get_object` of the review views: the title must exist (404), then the
      review must be one of that title's reviews (404). */
  function LocateReview(s: Store, titleId: nat, reviewId: nat): (r: Result<nat>)
    ensures r.Ok? <==>
      titleId in TitleIds(s.titles) && exists x :: x in s.reviews && x.id == reviewId && x.title == titleId
    ensures r.Ok? ==> r.value < |s.reviews| && s.reviews[r.value].id == reviewId && s.reviews[r.value].title == titleId
    ensures r.Err? ==> r.error == NotFound
  {
    match FindTitle(s.titles, titleId)
    case None => Err(NotFound)
    case Some(t) =>
      assert t in s.titles;
      match FindIndex((x: Review) => x.id == reviewId && x.title == titleId, s.reviews)
      case None => Err(NotFound)
      case Some(k) => Ok(k)
  }

  /** GET /titles/{title_id}/reviews/{review_id}/, open to everyone. */
  function ReadReview(s: Store, titleId: nat, reviewId: nat): (r: Result<Review>)
    requires Valid(s)
    ensures r.Ok? <==>
      titleId in TitleIds(s.titles) && exists x :: x in s.reviews && x.id == reviewId && x.title == titleId
    ensures r.Ok? ==> r.value in s.reviews && r.value.id == reviewId && r.value.title == titleId
    ensures r.Err? ==> r.error == NotFound
  {
    var k :- LocateReview(s, titleId, reviewId);
    Ok(s.reviews[k])
  }

  /** PUT or PATCH /titles/{title_id}/reviews/{review_id}/: the lookup, the
      object-level check, then the serializer on the submitted fields (all
      required for PUT, each optional for PATCH). Title, author and
      publication date never change. */
  function UpdateReview(s: Store, q: Requester, verb: Method, titleId: nat, reviewId: nat,
                        text: Option<string>, score: Option<int>): (r: Result<(Store, Review)>)
    requires Valid(s) && StoredRequester(s, q)
    requires verb == Put || verb == Patch
    ensures r.Ok? ==> Valid(r.value.0)
    ensures r.Ok? <==>
      && q.Authenticated?
      && LocateReview(s, titleId, reviewId).Ok?
      && MayChange(q, s.reviews[LocateReview(s, titleId, reviewId).value].author)
      && (verb == Put ==> text.Some? && score.Some?)
      && (text.Some? ==> TextOk(text.value))
      && (score.Some? ==> ScoreInRange(score.value))
    ensures q.Anonymous? ==> r == Err(NotAuthenticated)
    ensures q.Authenticated? && LocateReview(s, titleId, reviewId).Err? ==> r == Err(NotFound)
    ensures (q.Authenticated? && LocateReview(s, titleId, reviewId).Ok?
             && !MayChange(q, s.reviews[LocateReview(s, titleId, reviewId).value].author)) ==> r == Err(PermissionDenied)
    ensures r.Ok? ==>
      var k := LocateReview(s, titleId, reviewId).value;
      var before := s.reviews[k];
      && r.value.0 == s.(reviews := s.reviews[k := r.value.1])
      && r.value.1.id == reviewId && r.value.1.title == titleId
      && r.value.1.author == before.author && r.value.1.pubDate == before.pubDate
      && r.value.1.text == (if text.Some? then Trim(text.value) else before.text)
      && r.value.1.score == (if score.Some? then score.value else before.score)
  {
    var allowed := AuthorPermission(Request(verb, q));
    :- Enforce(allowed, q);
    var k :- LocateReview(s, titleId, reviewId);
    var before := s.reviews[k];
    :- Enforce(AuthorObjectPermission(Request(verb, q), before.author), q);
    :- Need(verb == Patch || text.Some?, Validation(Required("text")));
    :- Need(verb == Patch || score.Some?, Validation(Required("score")));
    var cleanText :- CleanOptional("text", text, Unlimited, false);
    var newScore := if score.Some? then score.value else before.score;
    :- CheckScore(newScore);
    var after := before.(text := if cleanText.Some? then cleanText.value else before.text, score := newScore);
    Ok((ReplaceReview(s, k, after), after))
  }

  /** DELETE /titles/{title_id}/reviews/{review_id}/: the review goes, and
      its comments with it. */
  function DeleteReview(s: Store, q: Requester, titleId: nat, reviewId: nat): (r: Result<Store>)
    requires Valid(s) && StoredRequester(s, q)
    ensures r.Ok? ==> Valid(r.value)
    ensures r.Ok? <==>
      && q.Authenticated?
      && LocateReview(s, titleId, reviewId).Ok?
      && MayChange(q, s.reviews[LocateReview(s, titleId, reviewId).value].author)
    ensures q.Anonymous? ==> r == Err(NotAuthenticated)
    ensures q.Authenticated? && LocateReview(s, titleId, reviewId).Err? ==> r == Err(NotFound)
    ensures (q.Authenticated? && LocateReview(s, titleId, reviewId).Ok?
             && !MayChange(q, s.reviews[LocateReview(s, titleId, reviewId).value].author))
            ==> r == Err(PermissionDenied)
    ensures r.Ok? ==> forall x :: x in r.value.reviews <==> x in s.reviews && x.id != reviewId
    ensures r.Ok? ==> forall c :: c in r.value.comments <==> c in s.comments && c.review != reviewId
    ensures r.Ok? ==> forall u :: u in r.value.users <==> u in s.users
    ensures r.Ok? ==> forall t :: t in r.value.titles <==> t in s.titles
    ensures r.Ok? ==> forall l :: l in r.value.genreTitles <==> l in s.genreTitles
    ensures r.Ok? ==> forall g :: g in r.value.genres <==> g in s.genres
    ensures r.Ok? ==> r.value.categories == s.categories
  {
    var allowed := AuthorPermission(Request(Delete, q));
    :- Enforce(allowed, q);
    var k :- LocateReview(s, titleId, reviewId);
    :- Enforce(AuthorObjectPermission(Request(Delete, q), s.reviews[k].author), q);
    Ok(RemoveReview(s, reviewId))
  }

  /** GET /titles/{title_id}/reviews/: the title's reviews, oldest first;
      no author appears twice. */
  function ListReviews(s: Store, titleId: nat): (r: Result<seq<Review>>)
    requires Valid(s)
    ensures r.Err? <==> titleId !in TitleIds(s.titles)
    ensures r.Err? ==> r.error == NotFound
    ensures r.Ok? ==> forall x :: x in r.value <==> x in s.reviews && x.title == titleId
    ensures r.Ok? ==> forall i, j :: 0 <= i < j < |r.value| ==> r.value[i].pubDate < r.value[j].pubDate
    ensures r.Ok? ==> forall i, j :: 0 <= i < j < |r.value| ==> r.value[i].author != r.value[j].author
  {
    match FindTitle(s.titles, titleId)
    case None => Err(NotFound)
    case Some(t) =>
      assert t in s.titles;
      var rs := Filter((x: Review) => x.title == titleId, s.reviews);
      SubseqKeepsPairwise(rs, s.reviews, ReviewsInOrder);
      assert forall i :: 0 <= i < |rs| ==> rs[i].title == titleId by {
        forall i | 0 <= i < |rs| ensures rs[i].title == titleId {
          assert rs[i] in rs;
        }
      }
      Ok(rs)
  }

  // ----- Comments ----------------------------------------------------------

  /** POST /titles/{title_id}/reviews/{review_id}/comments/: the
      request-level check, the text, then `get_review`, which looks the
      review up by its key alone — the title in the path is not consulted. */
  function PostComment(s: Store, q: Requester, titleId: nat, reviewId: nat, text: Option<string>): (r: Result<(Store, Comment)>)
    requires Valid(s) && StoredRequester(s, q)
    ensures r.Ok? ==> Valid(r.value.0)
    ensures r.Ok? <==> q.Authenticated? && text.Some? && TextOk(text.value) && reviewId in ReviewIds(s.reviews)
    ensures q.Anonymous? ==> r == Err(NotAuthenticated)
    ensures q.Authenticated? && text.None? ==> r == Err(Validation(Required("text")))
    ensures q.Authenticated? && text.Some? && TextOk(text.value) && reviewId !in ReviewIds(s.reviews) ==>
      r == Err(NotFound)
    ensures r.Ok? ==>
      && r.value.1.author == q.user.id
      && r.value.1.review == reviewId
      && r.value.1.text == Trim(text.value)
    ensures r.Ok? ==> r.value.1 !in s.comments && r.value.0.comments == s.comments + [r.value.1]
    ensures r.Ok? ==> forall c :: c in s.comments ==> c.pubDate < r.value.1.pubDate
    ensures r.Ok? ==>
      r.value.0 == s.(comments := r.value.0.comments, nextId := r.value.0.nextId, clock := r.value.0.clock)
  {
    var allowed := AuthorPermission(Request(Post, q));
    :- Enforce(allowed, q);
    var rawText :- Present("text", text);
    var cleanText :- CleanChar("text", rawText, Unlimited, false);
    match FindReview(s.reviews, reviewId)
    case None => Err(NotFound)
    case Some(x) =>
      assert x in s.reviews;
      var s' := AddComment(s, reviewId, q.user.id, cleanText);
      var c := Comment(s.nextId, reviewId, q.user.id, cleanText, s.clock);
      assert c in s'.comments;
      Ok((s', c))
  }

  /** The title segment of a comment URL changes nothing: a comment can be
      posted under any title, existing or not, as long as the review exists. */
  lemma CommentIgnoresTitle(s: Store, q: Requester, t1: nat, t2: nat, reviewId: nat, text: Option<string>)
    requires Valid(s) && StoredRequester(s, q)
    ensures PostComment(s, q, t1, reviewId, text) == PostComment(s, q, t2, reviewId, text)
    ensures
      && t1 !in TitleIds(s.titles) && q.Authenticated? && text.Some? && TextOk(text.value)
      && reviewId in ReviewIds(s.reviews)
      ==>
      PostComment(s, q, t1, reviewId, text).Ok?
  {
  }

  /** `get_object` of the comment views: the review must exist (404), then
      the comment must be one of its comments (404). */
  function LocateComment(s: Store, reviewId: nat, commentId: nat): (r: Result<nat>)
    ensures r.Ok? <==>
      reviewId in ReviewIds(s.reviews) && exists c :: c in s.comments && c.id == commentId && c.review == reviewId
    ensures r.Ok? ==> r.value < |s.comments| && s.comments[r.value].id == commentId && s.comments[r.value].review == reviewId
    ensures r.Err? ==> r.error == NotFound
  {
    match FindReview(s.reviews, reviewId)
    case None => Err(NotFound)
    case Some(x) =>
      assert x in s.reviews;
      match FindIndex((c: Comment) => c.id == commentId && c.review == reviewId, s.comments)
      case None => Err(NotFound)
      case Some(k) => Ok(k)
  }

  /** PUT or PATCH of a comment: the lookup, the object-level check, then
      the text (required for PUT). Review, author and date never change. */
  function UpdateComment(s: Store, q: Requester, verb: Method, reviewId: nat, commentId: nat,
                         text: Option<string>): (r: Result<(Store, Comment)>)
    requires Valid(s) && StoredRequester(s, q)
    requires verb == Put || verb == Patch
    ensures r.Ok? ==> Valid(r.value.0)
    ensures r.Ok? <==>
      && q.Authenticated?
      && LocateComment(s, reviewId, commentId).Ok?
      && MayChange(q, s.comments[LocateComment(s, reviewId, commentId).value].author)
      && (verb == Put ==> text.Some?)
      && (text.Some? ==> TextOk(text.value))
    ensures q.Anonymous? ==> r == Err(NotAuthenticated)
    ensures q.Authenticated? && LocateComment(s, reviewId, commentId).Err? ==> r == Err(NotFound)
    ensures (q.Authenticated? && LocateComment(s, reviewId, commentId).Ok?
             && !MayChange(q, s.comments[LocateComment(s, reviewId, commentId).value].author)) ==> r == Err(PermissionDenied)
    ensures r.Ok? ==>
      var k := LocateComment(s, reviewId, commentId).value;
      var before := s.comments[k];
      && r.value.0 == s.(comments := s.comments[k := r.value.1])
      && r.value.1.id == commentId && r.value.1.review == reviewId
      && r.value.1.author == before.author && r.value.1.pubDate == before.pubDate
      && r.value.1.text == (if text.Some? then Trim(text.value) else before.text)
  {
    var allowed := AuthorPermission(Request(verb, q));
    :- Enforce(allowed, q);
    var k :- LocateComment(s, reviewId, commentId);
    var before := s.comments[k];
    :- Enforce(AuthorObjectPermission(Request(verb, q), before.author), q);
    :- Need(verb == Patch || text.Some?, Validation(Required("text")));
    var cleanText :- CleanOptional("text", text, Unlimited, false);
    var after := before.(text := if cleanText.Some? then cleanText.value else before.text);
    Ok((ReplaceComment(s, k, after), after))
  }

  /** DELETE of a comment: that row alone goes. */
  function DeleteComment(s: Store, q: Requester, reviewId: nat, commentId: nat): (r: Result<Store>)
    requires Valid(s) && StoredRequester(s, q)
    ensures r.Ok? ==> Valid(r.value)
    ensures r.Ok? <==>
      && q.Authenticated?
      && LocateComment(s, reviewId, commentId).Ok?
      && MayChange(q, s.comments[LocateComment(s, reviewId, commentId).value].author)
    ensures q.Anonymous? ==> r == Err(NotAuthenticated)
    ensures q.Authenticated? && LocateComment(s, reviewId, commentId).Err? ==> r == Err(NotFound)
    ensures (q.Authenticated? && LocateComment(s, reviewId, commentId).Ok?
             && !MayChange(q, s.comments[LocateComment(s, reviewId, commentId).value].author))
            ==> r == Err(PermissionDenied)
    ensures r.Ok? ==> forall c :: c in r.value.comments <==> c in s.comments && c.id != commentId
    ensures r.Ok? ==> forall x :: x in r.value.reviews <==> x in s.reviews
    ensures r.Ok? ==> forall u :: u in r.value.users <==> u in s.users
    ensures r.Ok? ==> forall t :: t in r.value.titles <==> t in s.titles
    ensures r.Ok? ==> forall l :: l in r.value.genreTitles <==> l in s.genreTitles
    ensures r.Ok? ==> forall g :: g in r.value.genres <==> g in s.genres
    ensures r.Ok? ==> r.value.categories == s.categories
  {
    var allowed := AuthorPermission(Request(Delete, q));
    :- Enforce(allowed, q);
    var k :- LocateComment(s, reviewId, commentId);
    :- Enforce(AuthorObjectPermission(Request(Delete, q), s.comments[k].author), q);
    Ok(RemoveComment(s, commentId))
  }

  /** GET of a review's comments: newest first, as `ordering = ('-pub_date',)`
      asks. */
  function ListComments(s: Store, reviewId: nat): (r: Result<seq<Comment>>)
    requires Valid(s)
    ensures r.Err? <==> reviewId !in ReviewIds(s.reviews)
    ensures r.Err? ==> r.error == NotFound
    ensures r.Ok? ==> forall c :: c in r.value <==> c in s.comments && c.review == reviewId
    ensures r.Ok? ==> forall i, j :: 0 <= i < j < |r.value| ==> r.value[i].pubDate > r.value[j].pubDate
  {
    match FindReview(s.reviews, reviewId)
    case None => Err(NotFound)
    case Some(x) =>
      assert x in s.reviews;
      var cs := Filter((c: Comment) => c.review == reviewId, s.comments);
      SubseqKeepsPairwise(cs, s.comments, CommentsInOrder);
      ReversedNewestFirst(cs);
      Ok(Reverse(cs))
  }

  /** Comments stored oldest first, reversed, come newest first. */
  lemma ReversedNewestFirst(cs: seq<Comment>)
    requires Pairwise(cs, CommentsInOrder)
    ensures forall i, j :: 0 <= i < j < |Reverse(cs)| ==> Reverse(cs)[i].pubDate > Reverse(cs)[j].pubDate
  {
    var rs := Reverse(cs);
    forall i, j | 0 <= i < j < |rs|
      ensures rs[i].pubDate > rs[j].pubDate
    {
      assert CommentsInOrder(cs[|cs| - 1 - j], cs[|cs| - 1 - i]);
    }
  }
}
