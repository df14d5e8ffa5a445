/**
 The default orderings of the list endpoints: reviews and comments newest
 first, genres and titles by name, accounts by username. Categories declare no
 ordering and are not listed here.
 */
module Listings {
  import opened Users
  import opened Catalog
  import opened Ordering

  /** The reviews of a title, each once, newest first. */
  method ListReviews(s: Store, t: TitleId) returns (r: seq<ReviewId>)
    ensures multiset(r) == multiset(set k | k in s.reviews && s.reviews[k].title == t)
    ensures forall i :: 0 <= i < |r| ==> r[i] in s.reviews && s.reviews[r[i]].title == t
    ensures forall i, j :: 0 <= i < j < |r| ==> s.reviews[r[i]].pubDate >= s.reviews[r[j]].pubDate
  {
    var ids := set k | k in s.reviews && s.reviews[k].title == t;
    var key := map k | k in s.reviews :: s.reviews[k].pubDate;
    NewestFirstIsTotalPreorder();
    r := ListBy(ids, key, (a: int, b: int) => a >= b);
    forall i | 0 <= i < |r| ensures r[i] in ids {
      assert r[i] in multiset(r);
    }
  }

  /** The comments on a review, each once, newest first. */
  method ListComments(s: Store, rv: ReviewId) returns (r: seq<CommentId>)
    ensures multiset(r) == multiset(set k | k in s.comments && s.comments[k].review == rv)
    ensures forall i :: 0 <= i < |r| ==> r[i] in s.comments && s.comments[r[i]].review == rv
    ensures forall i, j :: 0 <= i < j < |r| ==> s.comments[r[i]].pubDate >= s.comments[r[j]].pubDate
  {
    var ids := set k | k in s.comments && s.comments[k].review == rv;
    var key := map k | k in s.comments :: s.comments[k].pubDate;
    NewestFirstIsTotalPreorder();
    r := ListBy(ids, key, (a: int, b: int) => a >= b);
    forall i | 0 <= i < |r| ensures r[i] in ids {
      assert r[i] in multiset(r);
    }
  }

  /** Every title once, by ascending name. */
  method ListTitles(s: Store) returns (r: seq<TitleId>)
    ensures multiset(r) == multiset(s.titles.Keys)
    ensures forall i :: 0 <= i < |r| ==> r[i] in s.titles
    ensures forall i, j :: 0 <= i < j < |r| ==> LexLe(s.titles[r[i]].name, s.titles[r[j]].name)
  {
    var key := map k | k in s.titles :: s.titles[k].name;
    NameOrderIsTotalPreorder();
    r := ListBy(s.titles.Keys, key, (a: string, b: string) => LexLe(a, b));
    forall i | 0 <= i < |r| ensures r[i] in s.titles {
      assert r[i] in multiset(r);
    }
  }

  /** Every genre once, by ascending name. */
  method ListGenres(s: Store) returns (r: seq<GenreId>)
    ensures multiset(r) == multiset(s.genres.Keys)
    ensures forall i :: 0 <= i < |r| ==> r[i] in s.genres
    ensures forall i, j :: 0 <= i < j < |r| ==> LexLe(s.genres[r[i]].name, s.genres[r[j]].name)
  {
    var key := map k | k in s.genres :: s.genres[k].name;
    NameOrderIsTotalPreorder();
    r := ListBy(s.genres.Keys, key, (a: string, b: string) => LexLe(a, b));
    forall i | 0 <= i < |r| ensures r[i] in s.genres {
      assert r[i] in multiset(r);
    }
  }

  /** Every account once, by ascending username. */
  method ListUsers(s: Store) returns (r: seq<UserId>)
    ensures multiset(r) == multiset(s.users.Keys)
    ensures forall i :: 0 <= i < |r| ==> r[i] in s.users
    ensures forall i, j :: 0 <= i < j < |r| ==> LexLe(s.users[r[i]].username, s.users[r[j]].username)
  {
    var key := map k | k in s.users :: s.users[k].username;
    NameOrderIsTotalPreorder();
    r := ListBy(s.users.Keys, key, (a: string, b: string) => LexLe(a, b));
    forall i | 0 <= i < |r| ensures r[i] in s.users {
      assert r[i] in multiset(r);
    }
  }
}
