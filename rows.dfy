/**
 * The two reaction tables as sequences of rows, in primary-key order, and the
 * counts the handlers keep denormalised on quotes and comments. Neither table
 * has a unique index on (target, user): at most one row per pair is an
 * invariant that only the handlers' lookup-then-branch logic maintains.
 */
module Rows {
  import opened Wrappers
  import opened Models

  /** The sequence without its element at `i`: a row deleted by primary key. */
  function RemoveAt<T>(s: seq<T>, i: nat): (r: seq<T>)
    requires i < |s|
    ensures |r| == |s| - 1
    ensures forall j :: 0 <= j < i ==> r[j] == s[j]
    ensures forall j :: i <= j < |r| ==> r[j] == s[j + 1]
    ensures forall x :: x in r ==> x in s
  {
    s[..i] + s[i + 1..]
  }

  // ---------------------------------------------------------------------------
  // Quote reactions

  predicate OfPair(r: QuoteLike, quoteId: int, userId: int)
  {
    r.quoteId == quoteId && r.userId == userId
  }

  /** The number of reactions of kind `kind` on quote `quoteId`. */
  function KindCount(rows: seq<QuoteLike>, quoteId: int, kind: Reaction): nat
  {
    if rows == [] then 0
    else (if rows[0].quoteId == quoteId && rows[0].kind == kind then 1 else 0)
         + KindCount(rows[1..], quoteId, kind)
  }

  /** The number of reactions user `userId` has on quote `quoteId`. */
  function PairCount(rows: seq<QuoteLike>, quoteId: int, userId: int): nat
  {
    if rows == [] then 0
    else (if OfPair(rows[0], quoteId, userId) then 1 else 0) + PairCount(rows[1..], quoteId, userId)
  }

  /** The rows that do not belong to the pair (quoteId, userId), in table order. */
  function OtherReactions(rows: seq<QuoteLike>, quoteId: int, userId: int): seq<QuoteLike>
  {
    if rows == [] then []
    else (if OfPair(rows[0], quoteId, userId) then [] else [rows[0]])
         + OtherReactions(rows[1..], quoteId, userId)
  }

  /** The rows that do not belong to quote `quoteId`: what a cascading delete of the quote leaves. */
  function WithoutQuote(rows: seq<QuoteLike>, quoteId: int): seq<QuoteLike>
  {
    if rows == [] then []
    else (if rows[0].quoteId == quoteId then [] else [rows[0]]) + WithoutQuote(rows[1..], quoteId)
  }

  /** At most one reaction row per (quote, user). */
  ghost predicate UniqueReactions(rows: seq<QuoteLike>)
  {
    forall quoteId: int, userId: int :: PairCount(rows, quoteId, userId) <= 1
  }

  /**
   * The lookup `WHERE quote_id = ? AND user_id = ?` followed by `First`: the
   * index of the first row of the pair, or nothing when the pair has no row.
   */
  function FindReaction(rows: seq<QuoteLike>, quoteId: int, userId: int): (r: Option<nat>)
    ensures r.Some? ==> r.value < |rows| && OfPair(rows[r.value], quoteId, userId)
    ensures r.Some? ==> forall j :: 0 <= j < r.value ==> !OfPair(rows[j], quoteId, userId)
    ensures r.None? <==> PairCount(rows, quoteId, userId) == 0
  {
    if rows == [] then None
    else if OfPair(rows[0], quoteId, userId) then Some(0)
    else match FindReaction(rows[1..], quoteId, userId)
      case None => None
      case Some(i) => Some(i + 1)
  }

  lemma {:induction false} KindCountConcat(a: seq<QuoteLike>, b: seq<QuoteLike>, q: int, k: Reaction)
    ensures KindCount(a + b, q, k) == KindCount(a, q, k) + KindCount(b, q, k)
  {
    if a == [] {
      assert a + b == b;
    } else {
      KindCountConcat(a[1..], b, q, k);
      assert (a + b)[1..] == a[1..] + b;
    }
  }

  lemma {:induction false} PairCountConcat(a: seq<QuoteLike>, b: seq<QuoteLike>, q: int, u: int)
    ensures PairCount(a + b, q, u) == PairCount(a, q, u) + PairCount(b, q, u)
  {
    if a == [] {
      assert a + b == b;
    } else {
      PairCountConcat(a[1..], b, q, u);
      assert (a + b)[1..] == a[1..] + b;
    }
  }

  lemma {:induction false} OtherReactionsConcat(a: seq<QuoteLike>, b: seq<QuoteLike>, q: int, u: int)
    ensures OtherReactions(a + b, q, u) == OtherReactions(a, q, u) + OtherReactions(b, q, u)
  {
    if a == [] {
      assert a + b == b;
    } else {
      var head := if OfPair(a[0], q, u) then [] else [a[0]];
      assert (a + b)[1..] == a[1..] + b;
      calc {
        OtherReactions(a + b, q, u);
        head + OtherReactions(a[1..] + b, q, u);
        { OtherReactionsConcat(a[1..], b, q, u); }
        head + (OtherReactions(a[1..], q, u) + OtherReactions(b, q, u));
        (head + OtherReactions(a[1..], q, u)) + OtherReactions(b, q, u);
      }
    }
  }

  /** The counts of a table `left + [x] + right`, split around its middle row. */
  lemma SplitReactions(left: seq<QuoteLike>, x: QuoteLike, right: seq<QuoteLike>, q: int, k: Reaction, u: int)
    ensures KindCount(left + [x] + right, q, k)
            == KindCount(left, q, k) + (if x.quoteId == q && x.kind == k then 1 else 0) + KindCount(right, q, k)
    ensures PairCount(left + [x] + right, q, u)
            == PairCount(left, q, u) + (if OfPair(x, q, u) then 1 else 0) + PairCount(right, q, u)
    ensures OtherReactions(left + [x] + right, q, u)
            == OtherReactions(left, q, u) + (if OfPair(x, q, u) then [] else [x]) + OtherReactions(right, q, u)
  {
    var t := [x] + right;
    assert left + [x] + right == left + t;
    assert t[1..] == right;
    KindCountConcat(left, t, q, k);
    PairCountConcat(left, t, q, u);
    OtherReactionsConcat(left, t, q, u);
  }

  lemma {:induction false} PairCountPositive(rows: seq<QuoteLike>, j: nat, q: int, u: int)
    requires j < |rows| && OfPair(rows[j], q, u)
    ensures PairCount(rows, q, u) >= 1
  {
    if j > 0 {
      PairCountPositive(rows[1..], j - 1, q, u);
    }
  }

  /** Where the pair has a single row, the lookup finds exactly that row. */
  lemma FindReactionIsTheRow(rows: seq<QuoteLike>, i: nat, q: int, u: int)
    requires UniqueReactions(rows)
    requires i < |rows| && OfPair(rows[i], q, u)
    ensures FindReaction(rows, q, u) == Some(i)
  {
    var found := FindReaction(rows, q, u);
    PairCountPositive(rows, i, q, u);
    var j := found.value;
    if j < i {
      var left, right := rows[..i], rows[i + 1..];
      assert rows == left + [rows[i]] + right;
      SplitReactions(left, rows[i], right, q, Like, u);
      PairCountPositive(left, j, q, u);
      assert false;
    }
  }

  /** Inserting a row counts it once, for its own quote, kind and pair only. */
  lemma AppendReaction(rows: seq<QuoteLike>, r: QuoteLike)
    ensures forall q: int, k: Reaction ::
              KindCount(rows + [r], q, k) == KindCount(rows, q, k) + (if r.quoteId == q && r.kind == k then 1 else 0)
    ensures forall q: int, u: int ::
              PairCount(rows + [r], q, u) == PairCount(rows, q, u) + (if OfPair(r, q, u) then 1 else 0)
    ensures OtherReactions(rows + [r], r.quoteId, r.userId) == OtherReactions(rows, r.quoteId, r.userId)
  {
    assert rows + [r] == rows + [r] + [];
    forall q: int, k: Reaction
      ensures KindCount(rows + [r], q, k) == KindCount(rows, q, k) + (if r.quoteId == q && r.kind == k then 1 else 0)
    {
      SplitReactions(rows, r, [], q, k, 0);
    }
    forall q: int, u: int
      ensures PairCount(rows + [r], q, u) == PairCount(rows, q, u) + (if OfPair(r, q, u) then 1 else 0)
    {
      SplitReactions(rows, r, [], q, Like, u);
    }
    SplitReactions(rows, r, [], r.quoteId, r.kind, r.userId);
    assert OtherReactions(rows, r.quoteId, r.userId) + [] == OtherReactions(rows, r.quoteId, r.userId);
  }

  /** Deleting the row at `i` uncounts it once, for its own quote, kind and pair only. */
  lemma RemoveReaction(rows: seq<QuoteLike>, i: nat)
    requires i < |rows|
    ensures forall q: int, k: Reaction ::
              KindCount(RemoveAt(rows, i), q, k) + (if rows[i].quoteId == q && rows[i].kind == k then 1 else 0)
              == KindCount(rows, q, k)
    ensures forall q: int, u: int ::
              PairCount(RemoveAt(rows, i), q, u) + (if OfPair(rows[i], q, u) then 1 else 0)
              == PairCount(rows, q, u)
    ensures OtherReactions(RemoveAt(rows, i), rows[i].quoteId, rows[i].userId)
            == OtherReactions(rows, rows[i].quoteId, rows[i].userId)
  {
    RemoveReactionKinds(rows, i);
    RemoveReactionPairs(rows, i);
    RemoveReactionOthers(rows, i);
  }

  lemma RemoveReactionOthers(rows: seq<QuoteLike>, i: nat)
    requires i < |rows|
    ensures OtherReactions(RemoveAt(rows, i), rows[i].quoteId, rows[i].userId)
            == OtherReactions(rows, rows[i].quoteId, rows[i].userId)
  {
    var x, left, right := rows[i], rows[..i], rows[i + 1..];
    var q, u := x.quoteId, x.userId;
    var tail := [x] + right;
    assert rows == left + tail;
    assert tail[1..] == right;
    OtherReactionsConcat(left, tail, q, u);
    OtherReactionsConcat(left, right, q, u);
    assert OtherReactions(tail, q, u) == [] + OtherReactions(right, q, u) == OtherReactions(right, q, u);
  }

  lemma RemoveReactionKinds(rows: seq<QuoteLike>, i: nat)
    requires i < |rows|
    ensures forall q: int, k: Reaction ::
              KindCount(RemoveAt(rows, i), q, k) + (if rows[i].quoteId == q && rows[i].kind == k then 1 else 0)
              == KindCount(rows, q, k)
  {
    var x, left, right := rows[i], rows[..i], rows[i + 1..];
    assert rows == left + [x] + right;
    var rest := RemoveAt(rows, i);
    assert rest == left + right;
    forall q: int, k: Reaction
      ensures KindCount(rest, q, k) + (if x.quoteId == q && x.kind == k then 1 else 0) == KindCount(rows, q, k)
    {
      SplitReactions(left, x, right, q, k, 0);
      KindCountConcat(left, right, q, k);
    }
  }

  lemma RemoveReactionPairs(rows: seq<QuoteLike>, i: nat)
    requires i < |rows|
    ensures forall q: int, u: int ::
              PairCount(RemoveAt(rows, i), q, u) + (if OfPair(rows[i], q, u) then 1 else 0)
              == PairCount(rows, q, u)
  {
    var x, left, right := rows[i], rows[..i], rows[i + 1..];
    assert rows == left + [x] + right;
    var rest := RemoveAt(rows, i);
    assert rest == left + right;
    forall q: int, u: int
      ensures PairCount(rest, q, u) + (if OfPair(x, q, u) then 1 else 0) == PairCount(rows, q, u)
    {
      SplitReactions(left, x, right, q, Like, u);
      PairCountConcat(left, right, q, u);
    }
  }

  /** Rewriting the row at `i` within its pair moves one count from its old kind to its new one. */
  lemma ReplaceReaction(rows: seq<QuoteLike>, i: nat, r: QuoteLike)
    requires i < |rows| && OfPair(r, rows[i].quoteId, rows[i].userId)
    ensures forall q: int, k: Reaction ::
              KindCount(rows[i := r], q, k) + (if rows[i].quoteId == q && rows[i].kind == k then 1 else 0)
              == KindCount(rows, q, k) + (if r.quoteId == q && r.kind == k then 1 else 0)
    ensures forall q: int, u: int :: PairCount(rows[i := r], q, u) == PairCount(rows, q, u)
    ensures OtherReactions(rows[i := r], r.quoteId, r.userId) == OtherReactions(rows, r.quoteId, r.userId)
  {
    var x, left, right := rows[i], rows[..i], rows[i + 1..];
    assert rows == left + [x] + right;
    assert rows[i := r] == left + [r] + right;
    forall q: int, k: Reaction
      ensures KindCount(rows[i := r], q, k) + (if x.quoteId == q && x.kind == k then 1 else 0)
              == KindCount(rows, q, k) + (if r.quoteId == q && r.kind == k then 1 else 0)
    {
      SplitReactions(left, x, right, q, k, 0);
      SplitReactions(left, r, right, q, k, 0);
    }
    forall q: int, u: int
      ensures PairCount(rows[i := r], q, u) == PairCount(rows, q, u)
    {
      SplitReactions(left, x, right, q, Like, u);
      SplitReactions(left, r, right, q, Like, u);
    }
    SplitReactions(left, x, right, r.quoteId, Like, r.userId);
    SplitReactions(left, r, right, r.quoteId, Like, r.userId);
  }

  /** A cascading delete of quote `quoteId` leaves no reaction on it and every other count as it was. */
  lemma {:induction false} DropQuoteReactions(rows: seq<QuoteLike>, quoteId: int)
    ensures forall q: int, k: Reaction ::
              KindCount(WithoutQuote(rows, quoteId), q, k) == if q == quoteId then 0 else KindCount(rows, q, k)
    ensures forall q: int, u: int :: PairCount(WithoutQuote(rows, quoteId), q, u) <= PairCount(rows, q, u)
    ensures forall r :: r in WithoutQuote(rows, quoteId) <==> r in rows && r.quoteId != quoteId
  {
    if rows != [] {
      DropQuoteReactions(rows[1..], quoteId);
      var head := if rows[0].quoteId == quoteId then [] else [rows[0]];
      var tail := WithoutQuote(rows[1..], quoteId);
      assert WithoutQuote(rows, quoteId) == head + tail;
      assert forall r :: r in rows <==> r == rows[0] || r in rows[1..];
      forall q: int, k: Reaction
        ensures KindCount(WithoutQuote(rows, quoteId), q, k) == if q == quoteId then 0 else KindCount(rows, q, k)
      {
        KindCountConcat(head, tail, q, k);
      }
      forall q: int, u: int
        ensures PairCount(WithoutQuote(rows, quoteId), q, u) <= PairCount(rows, q, u)
      {
        PairCountConcat(head, tail, q, u);
      }
    }
  }

  // ---------------------------------------------------------------------------
  // Comment likes

  predicate LikedBy(r: CommentLike, commentId: int, userId: int)
  {
    r.commentId == commentId && r.userId == userId
  }

  /** The number of likes on comment `commentId`. */
  function LikeCount(rows: seq<CommentLike>, commentId: int): nat
  {
    if rows == [] then 0
    else (if rows[0].commentId == commentId then 1 else 0) + LikeCount(rows[1..], commentId)
  }

  /** The number of likes user `userId` has on comment `commentId`. */
  function LikerCount(rows: seq<CommentLike>, commentId: int, userId: int): nat
  {
    if rows == [] then 0
    else (if LikedBy(rows[0], commentId, userId) then 1 else 0) + LikerCount(rows[1..], commentId, userId)
  }

  /** The rows that do not belong to the pair (commentId, userId), in table order. */
  function OtherLikes(rows: seq<CommentLike>, commentId: int, userId: int): seq<CommentLike>
  {
    if rows == [] then []
    else (if LikedBy(rows[0], commentId, userId) then [] else [rows[0]])
         + OtherLikes(rows[1..], commentId, userId)
  }

  /** At most one like row per (comment, user). */
  ghost predicate UniqueLikes(rows: seq<CommentLike>)
  {
    forall commentId: int, userId: int :: LikerCount(rows, commentId, userId) <= 1
  }

  /** The lookup `WHERE comment_id = ? AND user_id = ?` followed by `First`. */
  function FindLike(rows: seq<CommentLike>, commentId: int, userId: int): (r: Option<nat>)
    ensures r.Some? ==> r.value < |rows| && LikedBy(rows[r.value], commentId, userId)
    ensures r.Some? ==> forall j :: 0 <= j < r.value ==> !LikedBy(rows[j], commentId, userId)
    ensures r.None? <==> LikerCount(rows, commentId, userId) == 0
  {
    if rows == [] then None
    else if LikedBy(rows[0], commentId, userId) then Some(0)
    else match FindLike(rows[1..], commentId, userId)
      case None => None
      case Some(i) => Some(i + 1)
  }

  lemma {:induction false} LikeCountConcat(a: seq<CommentLike>, b: seq<CommentLike>, c: int)
    ensures LikeCount(a + b, c) == LikeCount(a, c) + LikeCount(b, c)
  {
    if a == [] {
      assert a + b == b;
    } else {
      LikeCountConcat(a[1..], b, c);
      assert (a + b)[1..] == a[1..] + b;
    }
  }

  lemma {:induction false} LikerCountConcat(a: seq<CommentLike>, b: seq<CommentLike>, c: int, u: int)
    ensures LikerCount(a + b, c, u) == LikerCount(a, c, u) + LikerCount(b, c, u)
  {
    if a == [] {
      assert a + b == b;
    } else {
      LikerCountConcat(a[1..], b, c, u);
      assert (a + b)[1..] == a[1..] + b;
    }
  }

  lemma {:induction false} OtherLikesConcat(a: seq<CommentLike>, b: seq<CommentLike>, c: int, u: int)
    ensures OtherLikes(a + b, c, u) == OtherLikes(a, c, u) + OtherLikes(b, c, u)
  {
    if a == [] {
      assert a + b == b;
    } else {
      var head := if LikedBy(a[0], c, u) then [] else [a[0]];
      assert (a + b)[1..] == a[1..] + b;
      calc {
        OtherLikes(a + b, c, u);
        head + OtherLikes(a[1..] + b, c, u);
        { OtherLikesConcat(a[1..], b, c, u); }
        head + (OtherLikes(a[1..], c, u) + OtherLikes(b, c, u));
        (head + OtherLikes(a[1..], c, u)) + OtherLikes(b, c, u);
      }
    }
  }

  /** The counts of a table `left + [x] + right`, split around its middle row. */
  lemma SplitLikes(left: seq<CommentLike>, x: CommentLike, right: seq<CommentLike>, c: int, u: int)
    ensures LikeCount(left + [x] + right, c) == LikeCount(left, c) + (if x.commentId == c then 1 else 0) + LikeCount(right, c)
    ensures LikerCount(left + [x] + right, c, u)
            == LikerCount(left, c, u) + (if LikedBy(x, c, u) then 1 else 0) + LikerCount(right, c, u)
    ensures OtherLikes(left + [x] + right, c, u)
            == OtherLikes(left, c, u) + (if LikedBy(x, c, u) then [] else [x]) + OtherLikes(right, c, u)
  {
    var t := [x] + right;
    assert left + [x] + right == left + t;
    assert t[1..] == right;
    LikeCountConcat(left, t, c);
    LikerCountConcat(left, t, c, u);
    OtherLikesConcat(left, t, c, u);
  }

  lemma {:induction false} LikerCountPositive(rows: seq<CommentLike>, j: nat, c: int, u: int)
    requires j < |rows| && LikedBy(rows[j], c, u)
    ensures LikerCount(rows, c, u) >= 1
  {
    if j > 0 {
      LikerCountPositive(rows[1..], j - 1, c, u);
    }
  }

  /** Where the pair has a single like, the lookup finds exactly that row. */
  lemma FindLikeIsTheRow(rows: seq<CommentLike>, i: nat, c: int, u: int)
    requires UniqueLikes(rows)
    requires i < |rows| && LikedBy(rows[i], c, u)
    ensures FindLike(rows, c, u) == Some(i)
  {
    var found := FindLike(rows, c, u);
    LikerCountPositive(rows, i, c, u);
    var j := found.value;
    if j < i {
      var left, right := rows[..i], rows[i + 1..];
      assert rows == left + [rows[i]] + right;
      SplitLikes(left, rows[i], right, c, u);
      LikerCountPositive(left, j, c, u);
      assert false;
    }
  }

  /** Inserting a like counts it once, for its own comment and pair only. */
  lemma AppendLike(rows: seq<CommentLike>, r: CommentLike)
    ensures forall c: int :: LikeCount(rows + [r], c) == LikeCount(rows, c) + (if r.commentId == c then 1 else 0)
    ensures forall c: int, u: int ::
              LikerCount(rows + [r], c, u) == LikerCount(rows, c, u) + (if LikedBy(r, c, u) then 1 else 0)
    ensures OtherLikes(rows + [r], r.commentId, r.userId) == OtherLikes(rows, r.commentId, r.userId)
  {
    assert rows + [r] == rows + [r] + [];
    forall c: int, u: int
      ensures LikeCount(rows + [r], c) == LikeCount(rows, c) + (if r.commentId == c then 1 else 0)
      ensures LikerCount(rows + [r], c, u) == LikerCount(rows, c, u) + (if LikedBy(r, c, u) then 1 else 0)
    {
      SplitLikes(rows, r, [], c, u);
    }
    forall c: int
      ensures LikeCount(rows + [r], c) == LikeCount(rows, c) + (if r.commentId == c then 1 else 0)
    {
      SplitLikes(rows, r, [], c, 0);
    }
    SplitLikes(rows, r, [], r.commentId, r.userId);
    assert OtherLikes(rows, r.commentId, r.userId) + [] == OtherLikes(rows, r.commentId, r.userId);
  }

  /** Deleting the like at `i` uncounts it once, for its own comment and pair only. */
  lemma RemoveLike(rows: seq<CommentLike>, i: nat)
    requires i < |rows|
    ensures forall c: int ::
              LikeCount(RemoveAt(rows, i), c) + (if rows[i].commentId == c then 1 else 0) == LikeCount(rows, c)
    ensures forall c: int, u: int ::
              LikerCount(RemoveAt(rows, i), c, u) + (if LikedBy(rows[i], c, u) then 1 else 0)
              == LikerCount(rows, c, u)
    ensures OtherLikes(RemoveAt(rows, i), rows[i].commentId, rows[i].userId)
            == OtherLikes(rows, rows[i].commentId, rows[i].userId)
  {
    RemoveLikeCounts(rows, i);
    RemoveLikePairs(rows, i);
    RemoveLikeOthers(rows, i);
  }

  lemma RemoveLikeOthers(rows: seq<CommentLike>, i: nat)
    requires i < |rows|
    ensures OtherLikes(RemoveAt(rows, i), rows[i].commentId, rows[i].userId)
            == OtherLikes(rows, rows[i].commentId, rows[i].userId)
  {
    var x, left, right := rows[i], rows[..i], rows[i + 1..];
    var c, u := x.commentId, x.userId;
    var tail := [x] + right;
    assert rows == left + tail;
    assert tail[1..] == right;
    OtherLikesConcat(left, tail, c, u);
    OtherLikesConcat(left, right, c, u);
    assert OtherLikes(tail, c, u) == [] + OtherLikes(right, c, u) == OtherLikes(right, c, u);
  }

  lemma RemoveLikeCounts(rows: seq<CommentLike>, i: nat)
    requires i < |rows|
    ensures forall c: int ::
              LikeCount(RemoveAt(rows, i), c) + (if rows[i].commentId == c then 1 else 0) == LikeCount(rows, c)
  {
    var x, left, right := rows[i], rows[..i], rows[i + 1..];
    assert rows == left + [x] + right;
    var rest := RemoveAt(rows, i);
    assert rest == left + right;
    forall c: int
      ensures LikeCount(rest, c) + (if x.commentId == c then 1 else 0) == LikeCount(rows, c)
    {
      SplitLikes(left, x, right, c, 0);
      LikeCountConcat(left, right, c);
    }
  }

  lemma RemoveLikePairs(rows: seq<CommentLike>, i: nat)
    requires i < |rows|
    ensures forall c: int, u: int ::
              LikerCount(RemoveAt(rows, i), c, u) + (if LikedBy(rows[i], c, u) then 1 else 0)
              == LikerCount(rows, c, u)
  {
    var x, left, right := rows[i], rows[..i], rows[i + 1..];
    assert rows == left + [x] + right;
    var rest := RemoveAt(rows, i);
    assert rest == left + right;
    forall c: int, u: int
      ensures LikerCount(rest, c, u) + (if LikedBy(x, c, u) then 1 else 0) == LikerCount(rows, c, u)
    {
      SplitLikes(left, x, right, c, u);
      LikerCountConcat(left, right, c, u);
    }
  }
}
