/**
 * The relational store as seen by the handlers: one table per record type,
 * a primary-key counter per table (ids are never reused), and the
 * consistency the handlers are meant to keep. Quotes and comments are keyed
 * by primary key; the user table and the two reaction tables are kept as
 * rows in primary-key order. Categories are seeded outside the handlers and
 * only their existence is ever checked, so only their ids are kept.
 */
module Store {
  import opened Wrappers
  import opened Http
  import opened Models
  import opened Rows

  datatype Tables = Tables(
    users: seq<User>,
    categories: set<nat>,
    quotes: map<nat, Quote>,
    quoteLikes: seq<QuoteLike>,
    comments: map<nat, Comment>,
    commentLikes: seq<CommentLike>,
    nextUserId: nat,
    nextQuoteId: nat,
    nextQuoteLikeId: nat,
    nextCommentId: nat,
    nextCommentLikeId: nat)

  /** What a handler answers and the state of the store after it. */
  datatype Outcome = Outcome(status: Status, after: Tables)

  /** Every quote is stored under its own id, and ids are positive and below the next one to be issued. */
  ghost predicate QuotesKeyed(quotes: map<nat, Quote>, nextQuoteId: nat)
  {
    0 < nextQuoteId &&
    forall id :: id in quotes ==> quotes[id].id == id && 0 < id < nextQuoteId
  }

  /**
   * The reaction invariant: each quote's two counters equal the numbers of its
   * reaction rows of each kind, every row belongs to an existing quote (the
   * foreign key cascades), and no (quote, user) pair has two rows.
   */
  ghost predicate ReactionsConsistent(quotes: map<nat, Quote>, rows: seq<QuoteLike>)
  {
    (forall id, k: Reaction :: id in quotes ==> quotes[id].Counter(k) == KindCount(rows, id, k)) &&
    (forall r :: r in rows ==> r.quoteId in quotes) &&
    UniqueReactions(rows)
  }

  /**
   * Every comment is stored under its own id and belongs to an existing quote;
   * its counter equals the number of its like rows; like rows never name an id
   * not yet issued, and no (comment, user) pair has two rows. Like rows of a
   * deleted comment may remain: nothing deletes them.
   */
  ghost predicate CommentsConsistent(comments: map<nat, Comment>, quoteIds: set<nat>, rows: seq<CommentLike>, nextCommentId: nat)
  {
    0 < nextCommentId &&
    (forall id :: id in comments ==> comments[id].id == id && 0 < id < nextCommentId) &&
    (forall id :: id in comments ==> comments[id].quoteId in quoteIds) &&
    (forall id :: id in comments ==> comments[id].likesCount == LikeCount(rows, id)) &&
    (forall r :: r in rows ==> r.commentId < nextCommentId) &&
    UniqueLikes(rows)
  }

  /** No two users share an e-mail address or a username. */
  ghost predicate UsersUnique(users: seq<User>)
  {
    forall i, j :: 0 <= i < j < |users| ==>
      users[i].email != users[j].email && users[i].username != users[j].username
  }

  /** The store invariant every handler keeps. */
  ghost predicate Consistent(t: Tables)
  {
    QuotesKeyed(t.quotes, t.nextQuoteId) &&
    ReactionsConsistent(t.quotes, t.quoteLikes) &&
    CommentsConsistent(t.comments, t.quotes.Keys, t.commentLikes, t.nextCommentId) &&
    UsersUnique(t.users)
  }

  /** In a consistent store no counter is negative, though the handlers decrement them. */
  lemma CountersNeverNegative(t: Tables)
    requires Consistent(t)
    ensures forall id :: id in t.quotes ==> t.quotes[id].likesCount >= 0 && t.quotes[id].dislikesCount >= 0
    ensures forall id :: id in t.comments ==> t.comments[id].likesCount >= 0
  {
    forall id | id in t.quotes
      ensures t.quotes[id].likesCount >= 0 && t.quotes[id].dislikesCount >= 0
    {
      assert t.quotes[id].Counter(Like) == KindCount(t.quoteLikes, id, Like);
      assert t.quotes[id].Counter(Dislike) == KindCount(t.quoteLikes, id, Dislike);
    }
  }

  /** A freshly migrated store: the seeded categories and nothing else. */
  function Empty(categories: set<nat>): (t: Tables)
    ensures Consistent(t)
    ensures t.users == [] && t.quotes == map[] && t.comments == map[]
  {
    Tables([], categories, map[], [], map[], [], 1, 1, 1, 1, 1)
  }

  /** The database handle shared by the handlers; each field is one table. */
  class Database {
    var users: seq<User>
    var categories: set<nat>
    var quotes: map<nat, Quote>
    var quoteLikes: seq<QuoteLike>
    var comments: map<nat, Comment>
    var commentLikes: seq<CommentLike>
    var nextUserId: nat
    var nextQuoteId: nat
    var nextQuoteLikeId: nat
    var nextCommentId: nat
    var nextCommentLikeId: nat

    function Snapshot(): Tables
      reads this
    {
      Tables(users, categories, quotes, quoteLikes, comments, commentLikes,
             nextUserId, nextQuoteId, nextQuoteLikeId, nextCommentId, nextCommentLikeId)
    }

    ghost predicate Valid()
      reads this
    {
      Consistent(Snapshot())
    }

    constructor (categories: set<nat>)
      ensures Snapshot() == Empty(categories)
      ensures Valid()
    {
      users, this.categories, quotes, quoteLikes, comments, commentLikes := [], categories, map[], [], map[], [];
      nextUserId, nextQuoteId, nextQuoteLikeId, nextCommentId, nextCommentLikeId := 1, 1, 1, 1, 1;
    }
  }
}
