/**
 The relational store behind the catalog: accounts, categories, genres, titles,
 reviews and comments, with the constraints the database keeps and the
 deletion policies of each foreign key.

 Rows are kept in maps from primary key to record. One counter, `nextId`, stands
 in for the database's key sequences: every key in use is below it.
 */
module Catalog {
  import opened Wrappers
  import opened Users
  import ProjectValidators

  type CategoryId = nat
  type GenreId = nat
  type TitleId = nat
  type ReviewId = nat
  type CommentId = nat

  /** How many characters of a review or comment its string form shows. */
  const LettersLimit: nat := 15
  /** `max_length` of names of categories, genres and titles. */
  const MaxNameLength: nat := 200
  /** `max_length` of a title's description. */
  const MaxDescriptionLength: nat := 255
  const MinScore: int := 1
  const MaxScore: int := 10

  datatype Category = Category(name: string, slug: string)

  datatype Genre = Genre(name: string, slug: string)

  datatype Title = Title(
    name: string,
    year: int,
    category: Option<CategoryId>,
    description: Option<string>,
    genres: set<GenreId>)

  /** `pubDate` is the creation instant, as a number; it is set once. */
  datatype Review = Review(author: UserId, title: TitleId, text: string, score: int, pubDate: int)

  datatype Comment = Comment(author: UserId, review: ReviewId, text: string, pubDate: int)

  datatype Store = Store(
    users: map<UserId, User>,
    categories: map<CategoryId, Category>,
    genres: map<GenreId, Genre>,
    titles: map<TitleId, Title>,
    reviews: map<ReviewId, Review>,
    comments: map<CommentId, Comment>,
    nextId: nat)

  // ---------------------------------------------------------------------------
  // Constraints
  // ---------------------------------------------------------------------------

  predicate KeysBelow(s: Store) {
    && (forall k :: k in s.users ==> k < s.nextId)
    && (forall k :: k in s.categories ==> k < s.nextId)
    && (forall k :: k in s.genres ==> k < s.nextId)
    && (forall k :: k in s.titles ==> k < s.nextId)
    && (forall k :: k in s.reviews ==> k < s.nextId)
    && (forall k :: k in s.comments ==> k < s.nextId)
  }

  /** Usernames and emails are each unique among accounts. */
  predicate UniqueAccounts(users: map<UserId, User>) {
    forall a, b :: a in users && b in users && a != b ==>
      users[a].username != users[b].username && users[a].email != users[b].email
  }

  /** Category slugs are unique. */
  predicate UniqueCategorySlugs(categories: map<CategoryId, Category>) {
    forall a, b :: a in categories && b in categories && a != b ==> categories[a].slug != categories[b].slug
  }

  /** Genre slugs are unique. */
  predicate UniqueGenreSlugs(genres: map<GenreId, Genre>) {
    forall a, b :: a in genres && b in genres && a != b ==> genres[a].slug != genres[b].slug
  }

  /** Every reference held by a title, review or comment names an existing row. */
  predicate NoDanglingReferences(s: Store) {
    && (forall t :: t in s.titles && s.titles[t].category.Some? ==> s.titles[t].category.value in s.categories)
    && (forall t :: t in s.titles ==> s.titles[t].genres <= s.genres.Keys)
    && (forall r :: r in s.reviews ==> s.reviews[r].author in s.users && s.reviews[r].title in s.titles)
    && (forall c :: c in s.comments ==> s.comments[c].author in s.users && s.comments[c].review in s.reviews)
  }

  predicate ScoresInRange(reviews: map<ReviewId, Review>) {
    forall r :: r in reviews ==> MinScore <= reviews[r].score <= MaxScore
  }

  /** The `unique review` constraint: at most one review per (author, title). */
  predicate OneReviewPerPair(reviews: map<ReviewId, Review>) {
    forall a, b :: a in reviews && b in reviews && a != b ==>
      reviews[a].author != reviews[b].author || reviews[a].title != reviews[b].title
  }

  predicate Valid(s: Store) {
    && KeysBelow(s)
    && UniqueAccounts(s.users)
    && UniqueCategorySlugs(s.categories)
    && UniqueGenreSlugs(s.genres)
    && NoDanglingReferences(s)
    && ScoresInRange(s.reviews)
    && OneReviewPerPair(s.reviews)
  }

  /** Whether `author` has already reviewed `title`. */
  predicate HasReview(reviews: map<ReviewId, Review>, author: UserId, title: TitleId) {
    exists r :: r in reviews && reviews[r].author == author && reviews[r].title == title
  }

  // ---------------------------------------------------------------------------
  // Deletion with the declared on-delete policies
  // ---------------------------------------------------------------------------

  /** Deleting a comment removes it alone. */
  function DeleteComment(s: Store, c: CommentId): (r: Store)
    ensures r.comments.Keys == s.comments.Keys - {c}
    ensures forall k :: k in r.comments ==> r.comments[k] == s.comments[k]
    ensures r == s.(comments := r.comments)
  {
    s.(comments := s.comments - {c})
  }

  /** Deleting a review cascades to the comments on it. */
  function DeleteReview(s: Store, rv: ReviewId): (r: Store)
    ensures r.reviews.Keys == s.reviews.Keys - {rv}
    ensures forall k :: k in r.reviews ==> r.reviews[k] == s.reviews[k]
    ensures forall k :: k in r.comments <==> k in s.comments && s.comments[k].review != rv
    ensures forall k :: k in r.comments ==> r.comments[k] == s.comments[k]
    ensures r == s.(reviews := r.reviews, comments := r.comments)
  {
    var reviews := s.reviews - {rv};
    var comments := map k | k in s.comments && s.comments[k].review != rv :: s.comments[k];
    s.(reviews := reviews, comments := comments)
  }

  /** Deleting a title cascades to its reviews and to the comments on those reviews. */
  function DeleteTitle(s: Store, t: TitleId): (r: Store)
    ensures r.titles.Keys == s.titles.Keys - {t}
    ensures forall k :: k in r.titles ==> r.titles[k] == s.titles[k]
    ensures forall k :: k in r.reviews <==> k in s.reviews && s.reviews[k].title != t
    ensures forall k :: k in r.reviews ==> r.reviews[k] == s.reviews[k]
    ensures forall k :: k in r.comments <==> k in s.comments && s.comments[k].review in r.reviews
    ensures forall k :: k in r.comments ==> r.comments[k] == s.comments[k]
    ensures r == s.(titles := r.titles, reviews := r.reviews, comments := r.comments)
  {
    var reviews := map k | k in s.reviews && s.reviews[k].title != t :: s.reviews[k];
    var comments := map k | k in s.comments && s.comments[k].review in reviews :: s.comments[k];
    s.(titles := s.titles - {t}, reviews := reviews, comments := comments)
  }

  /**
   Deleting an account cascades to the reviews and the comments it wrote, and to
   every comment on those reviews.
   */
  function DeleteUser(s: Store, u: UserId): (r: Store)
    ensures r.users.Keys == s.users.Keys - {u}
    ensures forall k :: k in r.users ==> r.users[k] == s.users[k]
    ensures forall k :: k in r.reviews <==> k in s.reviews && s.reviews[k].author != u
    ensures forall k :: k in r.reviews ==> r.reviews[k] == s.reviews[k]
    ensures forall k :: k in r.comments <==>
      k in s.comments && s.comments[k].author != u && s.comments[k].review in r.reviews
    ensures forall k :: k in r.comments ==> r.comments[k] == s.comments[k]
    ensures r == s.(users := r.users, reviews := r.reviews, comments := r.comments)
  {
    var reviews := map k | k in s.reviews && s.reviews[k].author != u :: s.reviews[k];
    var comments := map k | k in s.comments && s.comments[k].author != u && s.comments[k].review in reviews
      :: s.comments[k];
    s.(users := s.users - {u}, reviews := reviews, comments := comments)
  }

  /** Deleting a category keeps every title and clears the category of those that referred to it. */
  function DeleteCategory(s: Store, c: CategoryId): (r: Store)
    ensures r.categories.Keys == s.categories.Keys - {c}
    ensures forall k :: k in r.categories ==> r.categories[k] == s.categories[k]
    ensures r.titles.Keys == s.titles.Keys
    ensures forall k :: k in s.titles ==>
      r.titles[k] == (if s.titles[k].category == Some(c) then s.titles[k].(category := None) else s.titles[k])
    ensures r == s.(categories := r.categories, titles := r.titles)
  {
    var titles := map k | k in s.titles ::
      if s.titles[k].category == Some(c) then s.titles[k].(category := None) else s.titles[k];
    s.(categories := s.categories - {c}, titles := titles)
  }

  /** Deleting a genre removes it from the genre set of every title and nothing else. */
  function DeleteGenre(s: Store, g: GenreId): (r: Store)
    ensures r.genres.Keys == s.genres.Keys - {g}
    ensures forall k :: k in r.genres ==> r.genres[k] == s.genres[k]
    ensures r.titles.Keys == s.titles.Keys
    ensures forall k :: k in s.titles ==> r.titles[k] == s.titles[k].(genres := s.titles[k].genres - {g})
    ensures r == s.(genres := r.genres, titles := r.titles)
  {
    var titles := map k | k in s.titles :: s.titles[k].(genres := s.titles[k].genres - {g});
    s.(genres := s.genres - {g}, titles := titles)
  }

  /** Removing rows that nothing references, or together with everything that references them, keeps every constraint. */
  lemma DeleteCommentKeepsValid(s: Store, c: CommentId)
    requires Valid(s)
    ensures Valid(DeleteComment(s, c))
  {
    var r := DeleteComment(s, c);
    FewerRowsKeepKeysBelow(s, r);
    assert NoDanglingReferences(r) by { assert NoDanglingReferences(s); }
    assert r.users == s.users && r.categories == s.categories && r.genres == s.genres && r.reviews == s.reviews;
  }

  lemma DeleteReviewKeepsValid(s: Store, rv: ReviewId)
    requires Valid(s)
    ensures Valid(DeleteReview(s, rv))
  {
    var r := DeleteReview(s, rv);
    FewerRowsKeepKeysBelow(s, r);
    DeleteReviewLeavesNoDangling(s, rv);
    SubReviewsKeepReviewConstraints(s.reviews, r.reviews);
    assert r.users == s.users && r.categories == s.categories && r.genres == s.genres;
  }

  lemma DeleteReviewLeavesNoDangling(s: Store, rv: ReviewId)
    requires NoDanglingReferences(s)
    ensures NoDanglingReferences(DeleteReview(s, rv))
  {
    var r := DeleteReview(s, rv);
    forall k | k in r.comments ensures r.comments[k].author in r.users && r.comments[k].review in r.reviews {
      assert s.comments[k].review != rv;
    }
  }

  lemma DeleteTitleKeepsValid(s: Store, t: TitleId)
    requires Valid(s)
    ensures Valid(DeleteTitle(s, t))
  {
    var r := DeleteTitle(s, t);
    FewerRowsKeepKeysBelow(s, r);
    DeleteTitleLeavesNoDangling(s, t);
    SubReviewsKeepReviewConstraints(s.reviews, r.reviews);
    assert r.users == s.users && r.categories == s.categories && r.genres == s.genres;
  }

  lemma DeleteTitleLeavesNoDangling(s: Store, t: TitleId)
    requires NoDanglingReferences(s)
    ensures NoDanglingReferences(DeleteTitle(s, t))
  {
    var r := DeleteTitle(s, t);
    forall k | k in r.reviews ensures r.reviews[k].author in r.users && r.reviews[k].title in r.titles {
      assert s.reviews[k].title != t;
    }
  }

  lemma DeleteUserKeepsValid(s: Store, u: UserId)
    requires Valid(s)
    ensures Valid(DeleteUser(s, u))
  {
    var r := DeleteUser(s, u);
    FewerRowsKeepKeysBelow(s, r);
    assert UniqueAccounts(r.users) by { assert UniqueAccounts(s.users); }
    DeleteUserLeavesNoDangling(s, u);
    SubReviewsKeepReviewConstraints(s.reviews, r.reviews);
    assert r.categories == s.categories && r.genres == s.genres;
  }

  lemma DeleteUserLeavesNoDangling(s: Store, u: UserId)
    requires NoDanglingReferences(s)
    ensures NoDanglingReferences(DeleteUser(s, u))
  {
    var r := DeleteUser(s, u);
    forall k | k in r.reviews ensures r.reviews[k].author in r.users && r.reviews[k].title in r.titles {
      assert s.reviews[k].author != u;
    }
    forall k | k in r.comments ensures r.comments[k].author in r.users && r.comments[k].review in r.reviews {
      assert s.comments[k].author != u;
    }
  }

  lemma DeleteCategoryKeepsValid(s: Store, c: CategoryId)
    requires Valid(s)
    ensures Valid(DeleteCategory(s, c))
  {
    var r := DeleteCategory(s, c);
    FewerRowsKeepKeysBelow(s, r);
    assert UniqueCategorySlugs(r.categories) by { assert UniqueCategorySlugs(s.categories); }
    assert NoDanglingReferences(r) by { assert NoDanglingReferences(s); }
    assert r.users == s.users && r.genres == s.genres && r.reviews == s.reviews;
  }

  lemma DeleteGenreKeepsValid(s: Store, g: GenreId)
    requires Valid(s)
    ensures Valid(DeleteGenre(s, g))
  {
    var r := DeleteGenre(s, g);
    FewerRowsKeepKeysBelow(s, r);
    assert UniqueGenreSlugs(r.genres) by { assert UniqueGenreSlugs(s.genres); }
    assert NoDanglingReferences(r) by { assert NoDanglingReferences(s); }
    assert r.users == s.users && r.categories == s.categories && r.reviews == s.reviews;
  }

  /** A store whose tables only lost rows, under the same counter, keeps every key below it. */
  lemma FewerRowsKeepKeysBelow(s: Store, r: Store)
    requires KeysBelow(s) && r.nextId == s.nextId
    requires r.users.Keys <= s.users.Keys && r.categories.Keys <= s.categories.Keys
    requires r.genres.Keys <= s.genres.Keys && r.titles.Keys <= s.titles.Keys
    requires r.reviews.Keys <= s.reviews.Keys && r.comments.Keys <= s.comments.Keys
    ensures KeysBelow(r)
  {
  }

  /** Keeping some of the reviews unchanged keeps scores in range and pairs unique. */
  lemma SubReviewsKeepReviewConstraints(reviews: map<ReviewId, Review>, sub: map<ReviewId, Review>)
    requires ScoresInRange(reviews) && OneReviewPerPair(reviews)
    requires forall k :: k in sub ==> k in reviews && sub[k] == reviews[k]
    ensures ScoresInRange(sub) && OneReviewPerPair(sub)
  {
  }

  // ---------------------------------------------------------------------------
  // Insertion and update
  // ---------------------------------------------------------------------------

  /** What the database refuses: a broken foreign key or a violated unique constraint. */
  datatype DbError = IntegrityError

  /**
   Inserting a review: the database refuses a missing author or title and a
   second review of the same title by the same author. The score range is a
   validator, not a database constraint, so it is not checked here.
   */
  function InsertReview(s: Store, author: UserId, title: TitleId, text: string, score: int, now: int)
    : (r: Result<(Store, ReviewId), DbError>)
    requires Valid(s)
    ensures r.Err? <==> author !in s.users || title !in s.titles || HasReview(s.reviews, author, title)
    ensures r.Ok? ==>
      var (s', id) := r.value;
      && id !in s.reviews
      && s'.reviews == s.reviews[id := Review(author, title, text, score, now)]
      && s' == s.(reviews := s'.reviews, nextId := s'.nextId)
    ensures r.Ok? && MinScore <= score <= MaxScore ==> Valid(r.value.0)
  {
    if author !in s.users || title !in s.titles || HasReview(s.reviews, author, title) then
      Err(IntegrityError)
    else
      var id := s.nextId;
      var s' := s.(reviews := s.reviews[id := Review(author, title, text, score, now)], nextId := id + 1);
      AddReviewKeepsValid(s, Review(author, title, text, score, now));
      Ok((s', id))
  }

  /** Inserting a comment: the database refuses a missing author or review. */
  function InsertComment(s: Store, author: UserId, review: ReviewId, text: string, now: int)
    : (r: Result<(Store, CommentId), DbError>)
    requires Valid(s)
    ensures r.Err? <==> author !in s.users || review !in s.reviews
    ensures r.Ok? ==>
      var (s', id) := r.value;
      && id !in s.comments
      && s'.comments == s.comments[id := Comment(author, review, text, now)]
      && s' == s.(comments := s'.comments, nextId := s'.nextId)
    ensures r.Ok? ==> Valid(r.value.0)
  {
    if author !in s.users || review !in s.reviews then Err(IntegrityError)
    else
      var id := s.nextId;
      AddCommentKeepsValid(s, Comment(author, review, text, now));
      Ok((s.(comments := s.comments[id := Comment(author, review, text, now)], nextId := id + 1), id))
  }

  /** Adding a new review under the next key keeps every constraint, unless it repeats a pair or breaks a reference. */
  lemma AddReviewKeepsValid(s: Store, rv: Review)
    requires Valid(s)
    requires rv.author in s.users && rv.title in s.titles
    requires !HasReview(s.reviews, rv.author, rv.title)
    ensures Valid(s.(reviews := s.reviews[s.nextId := rv], nextId := s.nextId + 1)) <==>
      MinScore <= rv.score <= MaxScore
  {
    var s' := s.(reviews := s.reviews[s.nextId := rv], nextId := s.nextId + 1);
    NewKeyKeepsKeysBelow(s, rv);
    NewReviewResolves(s, rv);
    NewPairKeepsOneReviewPerPair(s.reviews, s.nextId, rv);
    assert ScoresInRange(s'.reviews) <==> MinScore <= rv.score <= MaxScore by {
      assert ScoresInRange(s.reviews);
      assert s'.reviews[s.nextId] == rv;
    }
    assert s'.users == s.users && s'.categories == s.categories && s'.genres == s.genres;
  }

  /** The next key is free, and a review added under it leaves every key below the advanced counter. */
  lemma NewKeyKeepsKeysBelow(s: Store, rv: Review)
    requires KeysBelow(s)
    ensures s.nextId !in s.reviews
    ensures KeysBelow(s.(reviews := s.reviews[s.nextId := rv], nextId := s.nextId + 1))
  {
  }

  /** A review whose author and title exist leaves no reference dangling. */
  lemma NewReviewResolves(s: Store, rv: Review)
    requires NoDanglingReferences(s)
    requires rv.author in s.users && rv.title in s.titles
    ensures NoDanglingReferences(s.(reviews := s.reviews[s.nextId := rv], nextId := s.nextId + 1))
  {
  }

  /** A review for a pair nobody has reviewed yet keeps reviews unique per pair. */
  lemma NewPairKeepsOneReviewPerPair(reviews: map<ReviewId, Review>, id: ReviewId, rv: Review)
    requires OneReviewPerPair(reviews) && id !in reviews
    requires !HasReview(reviews, rv.author, rv.title)
    ensures OneReviewPerPair(reviews[id := rv])
  {
    var r := reviews[id := rv];
    forall a, b | a in r && b in r && a != b
      ensures r[a].author != r[b].author || r[a].title != r[b].title
    {
      if a == id {
        assert !(reviews[b].author == rv.author && reviews[b].title == rv.title);
      } else if b == id {
        assert !(reviews[a].author == rv.author && reviews[a].title == rv.title);
      }
    }
  }

  /** Adding a new comment under the next key keeps every constraint when its references resolve. */
  lemma AddCommentKeepsValid(s: Store, c: Comment)
    requires Valid(s)
    requires c.author in s.users && c.review in s.reviews
    ensures Valid(s.(comments := s.comments[s.nextId := c], nextId := s.nextId + 1))
  {
    var s' := s.(comments := s.comments[s.nextId := c], nextId := s.nextId + 1);
    NewCommentKeepsKeysBelow(s, c);
    NewCommentResolves(s, c);
    assert s'.users == s.users && s'.categories == s.categories && s'.genres == s.genres && s'.reviews == s.reviews;
  }

  lemma NewCommentKeepsKeysBelow(s: Store, c: Comment)
    requires KeysBelow(s)
    ensures KeysBelow(s.(comments := s.comments[s.nextId := c], nextId := s.nextId + 1))
  {
  }

  lemma NewCommentResolves(s: Store, c: Comment)
    requires NoDanglingReferences(s)
    requires c.author in s.users && c.review in s.reviews
    ensures NoDanglingReferences(s.(comments := s.comments[s.nextId := c], nextId := s.nextId + 1))
  {
  }

  /** Replacing the text and score of a review; its author, title and publication date stay. */
  function UpdateReview(s: Store, id: ReviewId, text: string, score: int): (r: Store)
    requires id in s.reviews
    ensures r.reviews.Keys == s.reviews.Keys
    ensures r.reviews[id].author == s.reviews[id].author && r.reviews[id].title == s.reviews[id].title
    ensures r.reviews[id].pubDate == s.reviews[id].pubDate
    ensures r.reviews[id].text == text && r.reviews[id].score == score
    ensures forall k :: k in s.reviews && k != id ==> r.reviews[k] == s.reviews[k]
    ensures r == s.(reviews := r.reviews)
  {
    s.(reviews := s.reviews[id := s.reviews[id].(text := text, score := score)])
  }

  /** Editing a review's text and score keeps every constraint when the new score is within range. */
  lemma UpdateReviewKeepsValid(s: Store, id: ReviewId, text: string, score: int)
    requires Valid(s) && id in s.reviews && MinScore <= score <= MaxScore
    ensures Valid(UpdateReview(s, id, text, score))
  {
    var rv := s.reviews[id].(text := text, score := score);
    var r := s.(reviews := s.reviews[id := rv]);
    assert r == UpdateReview(s, id, text, score);
    SameShapeReviews(s, r);
    ReplaceReviewKeepsReviewConstraints(s.reviews, id, rv);
    assert r.users == s.users && r.categories == s.categories && r.genres == s.genres;
  }

  /** A review replaced by one with the same author and title and a score in range keeps the review constraints. */
  lemma ReplaceReviewKeepsReviewConstraints(reviews: map<ReviewId, Review>, id: ReviewId, rv: Review)
    requires ScoresInRange(reviews) && OneReviewPerPair(reviews) && id in reviews
    requires rv.author == reviews[id].author && rv.title == reviews[id].title
    requires MinScore <= rv.score <= MaxScore
    ensures ScoresInRange(reviews[id := rv]) && OneReviewPerPair(reviews[id := rv])
  {
    var r := reviews[id := rv];
    forall a, b | a in r && b in r && a != b
      ensures r[a].author != r[b].author || r[a].title != r[b].title
    {
      assert r[a].author == reviews[a].author && r[a].title == reviews[a].title;
      assert r[b].author == reviews[b].author && r[b].title == reviews[b].title;
    }
  }

  /** Changing review rows without touching their keys, authors or titles keeps keys bounded and references resolved. */
  lemma SameShapeReviews(s: Store, r: Store)
    requires KeysBelow(s) && NoDanglingReferences(s)
    requires r == s.(reviews := r.reviews) && r.reviews.Keys == s.reviews.Keys
    requires forall k :: k in s.reviews ==> r.reviews[k].author == s.reviews[k].author && r.reviews[k].title == s.reviews[k].title
    ensures KeysBelow(r) && NoDanglingReferences(r)
  {
  }

  /** Replacing the text of a comment; its author, review and publication date stay. */
  function UpdateComment(s: Store, id: CommentId, text: string): (r: Store)
    requires id in s.comments
    ensures r.comments.Keys == s.comments.Keys
    ensures r.comments[id] == s.comments[id].(text := text)
    ensures forall k :: k in s.comments && k != id ==> r.comments[k] == s.comments[k]
    ensures r == s.(comments := r.comments)
  {
    s.(comments := s.comments[id := s.comments[id].(text := text)])
  }

  /** Editing a comment's text keeps every constraint. */
  lemma UpdateCommentKeepsValid(s: Store, id: CommentId, text: string)
    requires Valid(s) && id in s.comments
    ensures Valid(UpdateComment(s, id, text))
  {
    var c := s.comments[id].(text := text);
    var r := s.(comments := s.comments[id := c]);
    assert r == UpdateComment(s, id, text);
    assert r.comments.Keys == s.comments.Keys;
    assert KeysBelow(r) by {
      assert KeysBelow(s);
    }
    assert NoDanglingReferences(r) by {
      assert NoDanglingReferences(s);
      forall k | k in r.comments ensures r.comments[k].author in r.users && r.comments[k].review in r.reviews {
        if k != id {
          assert r.comments[k] == s.comments[k];
        }
      }
    }
    assert UniqueAccounts(r.users) && UniqueCategorySlugs(r.categories) && UniqueGenreSlugs(r.genres);
    assert ScoresInRange(r.reviews) && OneReviewPerPair(r.reviews);
  }

  datatype TitleError = BlankName | NameTooLong | YearInFuture | DescriptionTooLong | UnknownCategory | UnknownGenre

  /** The field checks of a title: name length, `validate_year`, description length, known references. */
  function CheckTitle(s: Store, t: Title, currentYear: int): (o: Outcome<TitleError>)
    ensures o.Pass? <==>
      && 0 < |t.name| <= MaxNameLength
      && t.year <= currentYear
      && (t.description.Some? ==> |t.description.value| <= MaxDescriptionLength)
      && (t.category.Some? ==> t.category.value in s.categories)
      && t.genres <= s.genres.Keys
  {
    if t.name == [] then Fail(BlankName)
    else if |t.name| > MaxNameLength then Fail(NameTooLong)
    else if ProjectValidators.ValidateYear(t.year, currentYear).Fail? then Fail(YearInFuture)
    else if t.description.Some? && |t.description.value| > MaxDescriptionLength then Fail(DescriptionTooLong)
    else if t.category.Some? && t.category.value !in s.categories then Fail(UnknownCategory)
    else if !(t.genres <= s.genres.Keys) then Fail(UnknownGenre)
    else Pass
  }

  /** Inserting a title after its field checks; a title from a future year is refused. */
  function InsertTitle(s: Store, t: Title, currentYear: int): (r: Result<(Store, TitleId), TitleError>)
    requires Valid(s)
    ensures r.Ok? <==> CheckTitle(s, t, currentYear).Pass?
    ensures r.Err? ==> CheckTitle(s, t, currentYear) == Fail(r.error)
    ensures r.Ok? ==> r.value.0.titles == s.titles[r.value.1 := t] && r.value.1 !in s.titles
    ensures r.Ok? ==> r.value.0 == s.(titles := r.value.0.titles, nextId := r.value.0.nextId)
    ensures r.Ok? ==> t.year <= currentYear
    ensures t.year > currentYear ==> r.Err?
    ensures r.Ok? ==> Valid(r.value.0)
  {
    match CheckTitle(s, t, currentYear)
    case Fail(e) => Err(e)
    case Pass =>
      var id := s.nextId;
      Ok((s.(titles := s.titles[id := t], nextId := id + 1), id))
  }

  // ---------------------------------------------------------------------------
  // String forms
  // ---------------------------------------------------------------------------

  /** `__str__` of reviews and comments: the first `LettersLimit` characters of the text. */
  function Preview(text: string): (p: string)
    ensures |p| == if |text| < LettersLimit then |text| else LettersLimit
    ensures p <= text
  {
    if |text| <= LettersLimit then text else text[..LettersLimit]
  }

  /** A short text is shown whole, and previewing a preview changes nothing. */
  lemma PreviewFacts(text: string)
    ensures |text| <= LettersLimit ==> Preview(text) == text
    ensures Preview(Preview(text)) == Preview(text)
  {
  }
}
