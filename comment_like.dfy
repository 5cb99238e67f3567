/**
 * Liking a comment: a toggle per (comment, user). With no like the request
 * inserts one and raises the comment's counter; with a like it deletes it and
 * lowers the counter.
 */
module CommentLikes {
  import opened Wrappers
  import opened Http
  import opened Strconv
  import opened Models
  import opened Rows
  import opened Store

  /** The effect of a like by `userId` on the existing comment `commentId`. */
  function ApplyCommentLike(t: Tables, commentId: nat, userId: nat): (r: Tables)
    requires commentId in t.comments
    ensures r.comments.Keys == t.comments.Keys
    ensures forall id :: id in t.comments && id != commentId ==> r.comments[id] == t.comments[id]
    ensures var before := t.comments[commentId];
      r.comments[commentId] == before.(likesCount := before.likesCount + 1) ||
      r.comments[commentId] == before.(likesCount := before.likesCount - 1)
    ensures r.users == t.users && r.categories == t.categories &&
            r.quotes == t.quotes && r.quoteLikes == t.quoteLikes
  {
    var comment := t.comments[commentId];
    match FindLike(t.commentLikes, commentId, userId)
    case None =>
      t.(commentLikes := t.commentLikes + [CommentLike(t.nextCommentLikeId, commentId, userId)],
         nextCommentLikeId := t.nextCommentLikeId + 1,
         comments := t.comments[commentId := comment.(likesCount := comment.likesCount + 1)])
    case Some(i) =>
      t.(commentLikes := RemoveAt(t.commentLikes, i),
         comments := t.comments[commentId := comment.(likesCount := comment.likesCount - 1)])
  }

  /** Id, then caller, then the comment's existence; a failed check changes nothing. */
  function LikeCommentEffect(t: Tables, idParam: string, caller: Option<nat>): (r: Outcome)
    ensures r.status == BadRequest <==> Atoi(idParam).None?
    ensures r.status == Unauthorized <==> Atoi(idParam).Some? && caller.None?
    ensures r.status == NotFound <==> Atoi(idParam).Some? && caller.Some? && Atoi(idParam).value !in t.comments
    ensures r.status == OK <==> Atoi(idParam).Some? && caller.Some? && Atoi(idParam).value in t.comments
    ensures r.status != OK ==> r.after == t
    ensures r.status == OK ==>
              (Atoi(idParam).value >= 0 && r.after == ApplyCommentLike(t, Atoi(idParam).value, caller.value))
  {
    match Atoi(idParam)
    case None => Outcome(BadRequest, t)
    case Some(commentId) =>
      if caller.None? then Outcome(Unauthorized, t)
      else if commentId !in t.comments then Outcome(NotFound, t)
      else Outcome(OK, ApplyCommentLike(t, commentId, caller.value))
  }

  method LikeComment(db: Database, idParam: string, caller: Option<nat>) returns (status: Status)
    modifies db
    ensures Outcome(status, db.Snapshot()) == LikeCommentEffect(old(db.Snapshot()), idParam, caller)
    ensures old(db.Valid()) ==> db.Valid()
  {
    ghost var before := db.Snapshot();
    var parsed := Atoi(idParam);
    if parsed.None? {
      return BadRequest;
    }
    if caller.None? {
      return Unauthorized;
    }
    var commentId, userId := parsed.value, caller.value;
    var existing := FindLike(db.commentLikes, commentId, userId);
    if commentId !in db.comments {
      return NotFound;
    }
    assert LikeCommentEffect(before, idParam, caller) == Outcome(OK, ApplyCommentLike(before, commentId, userId));
    var comment := db.comments[commentId];
    match existing {
      case None =>
        db.commentLikes := db.commentLikes + [CommentLike(db.nextCommentLikeId, commentId, userId)];
        db.nextCommentLikeId := db.nextCommentLikeId + 1;
        comment := comment.(likesCount := comment.likesCount + 1);
      case Some(i) =>
        db.commentLikes := RemoveAt(db.commentLikes, i);
        comment := comment.(likesCount := comment.likesCount - 1);
    }
    db.comments := db.comments[commentId := comment];
    status := OK;
    assert db.Snapshot() == ApplyCommentLike(before, commentId, userId);
    if Consistent(before) {
      CommentLikePreservesConsistency(before, commentId, userId);
    }
  }

  /** With no like yet, exactly one row is inserted and the counter goes up by one. */
  lemma CommentLikeOnAbsent(t: Tables, commentId: nat, userId: nat)
    requires commentId in t.comments && LikerCount(t.commentLikes, commentId, userId) == 0
    ensures var after := ApplyCommentLike(t, commentId, userId);
      after.commentLikes == t.commentLikes + [CommentLike(t.nextCommentLikeId, commentId, userId)] &&
      after.comments[commentId].likesCount == t.comments[commentId].likesCount + 1 &&
      LikeCount(after.commentLikes, commentId) == LikeCount(t.commentLikes, commentId) + 1 &&
      LikerCount(after.commentLikes, commentId, userId) == 1
  {
    AppendLike(t.commentLikes, CommentLike(t.nextCommentLikeId, commentId, userId));
  }

  /** With a like, that row is deleted and the counter goes down by one. */
  lemma CommentLikeOnExisting(t: Tables, commentId: nat, userId: nat, i: nat)
    requires commentId in t.comments && UniqueLikes(t.commentLikes)
    requires i < |t.commentLikes| && LikedBy(t.commentLikes[i], commentId, userId)
    ensures var after := ApplyCommentLike(t, commentId, userId);
      after.commentLikes == RemoveAt(t.commentLikes, i) &&
      after.comments[commentId].likesCount == t.comments[commentId].likesCount - 1 &&
      LikeCount(after.commentLikes, commentId) == LikeCount(t.commentLikes, commentId) - 1 &&
      LikerCount(after.commentLikes, commentId, userId) == 0
  {
    FindLikeIsTheRow(t.commentLikes, i, commentId, userId);
    RemoveLike(t.commentLikes, i);
  }

  /** Counters equal like counts, with one like per pair at most, before and after the toggle. */
  lemma CommentLikePreservesConsistency(t: Tables, commentId: nat, userId: nat)
    requires Consistent(t) && commentId in t.comments
    ensures Consistent(ApplyCommentLike(t, commentId, userId))
  {
    var after := ApplyCommentLike(t, commentId, userId);
    assert after.quotes == t.quotes && after.quoteLikes == t.quoteLikes && after.users == t.users;
    assert after.comments.Keys == t.comments.Keys;
    match FindLike(t.commentLikes, commentId, userId)
    case None =>
      InsertKeepsLikesConsistent(t, commentId, userId);
    case Some(i) =>
      RemoveKeepsLikesConsistent(t, commentId, userId, i);
  }

  lemma InsertKeepsLikesConsistent(t: Tables, commentId: nat, userId: nat)
    requires CommentsConsistent(t.comments, t.quotes.Keys, t.commentLikes, t.nextCommentId)
    requires commentId in t.comments && FindLike(t.commentLikes, commentId, userId).None?
    ensures var after := ApplyCommentLike(t, commentId, userId);
      CommentsConsistent(after.comments, t.quotes.Keys, after.commentLikes, after.nextCommentId)
  {
    var rows, comment := t.commentLikes, t.comments[commentId];
    var r := CommentLike(t.nextCommentLikeId, commentId, userId);
    var comments := t.comments[commentId := comment.(likesCount := comment.likesCount + 1)];
    assert ApplyCommentLike(t, commentId, userId).commentLikes == rows + [r];
    assert ApplyCommentLike(t, commentId, userId).comments == comments;
    AppendLike(rows, r);
    assert forall x :: x in rows + [r] ==> x in rows || x == r;
  }

  lemma RemoveKeepsLikesConsistent(t: Tables, commentId: nat, userId: nat, i: nat)
    requires CommentsConsistent(t.comments, t.quotes.Keys, t.commentLikes, t.nextCommentId)
    requires commentId in t.comments && FindLike(t.commentLikes, commentId, userId) == Some(i)
    ensures var after := ApplyCommentLike(t, commentId, userId);
      CommentsConsistent(after.comments, t.quotes.Keys, after.commentLikes, after.nextCommentId)
  {
    var rows, comment := t.commentLikes, t.comments[commentId];
    var comments := t.comments[commentId := comment.(likesCount := comment.likesCount - 1)];
    assert ApplyCommentLike(t, commentId, userId).commentLikes == RemoveAt(rows, i);
    assert ApplyCommentLike(t, commentId, userId).comments == comments;
    RemoveLike(rows, i);
  }

  /**
   * Only the liked comment's counter and the caller's own like change: other
   * comments, other pairs' rows and every other table stay as they were.
   */
  lemma CommentLikeLeavesOthers(t: Tables, commentId: nat, userId: nat)
    requires commentId in t.comments
    ensures var after := ApplyCommentLike(t, commentId, userId);
      after.comments.Keys == t.comments.Keys &&
      (forall id :: id in t.comments && id != commentId ==> after.comments[id] == t.comments[id]) &&
      after.comments[commentId].(likesCount := 0) == t.comments[commentId].(likesCount := 0) &&
      OtherLikes(after.commentLikes, commentId, userId) == OtherLikes(t.commentLikes, commentId, userId) &&
      after.quotes == t.quotes && after.quoteLikes == t.quoteLikes && after.users == t.users
  {
    match FindLike(t.commentLikes, commentId, userId)
    case None =>
      AppendLike(t.commentLikes, CommentLike(t.nextCommentLikeId, commentId, userId));
    case Some(i) =>
      RemoveLike(t.commentLikes, i);
  }

  /** Two likes in a row by the same user restore the counter and the other pairs' rows. */
  lemma CommentLikeTwiceRestores(t: Tables, commentId: nat, userId: nat)
    requires commentId in t.comments && UniqueLikes(t.commentLikes)
    ensures var twice := ApplyCommentLike(ApplyCommentLike(t, commentId, userId), commentId, userId);
      twice.comments == t.comments &&
      OtherLikes(twice.commentLikes, commentId, userId) == OtherLikes(t.commentLikes, commentId, userId) &&
      LikerCount(twice.commentLikes, commentId, userId) == LikerCount(t.commentLikes, commentId, userId)
  {
    match FindLike(t.commentLikes, commentId, userId)
    case None =>
      TwiceFromNoLike(t, commentId, userId);
    case Some(i) =>
      TwiceFromLike(t, commentId, userId, i);
  }

  /** Like then unlike: the appended row is the one deleted, so the table is back as it was. */
  lemma TwiceFromNoLike(t: Tables, commentId: nat, userId: nat)
    requires commentId in t.comments && UniqueLikes(t.commentLikes)
    requires FindLike(t.commentLikes, commentId, userId).None?
    ensures var twice := ApplyCommentLike(ApplyCommentLike(t, commentId, userId), commentId, userId);
      twice.comments == t.comments && twice.commentLikes == t.commentLikes
  {
    var rows, comment := t.commentLikes, t.comments[commentId];
    var r := CommentLike(t.nextCommentLikeId, commentId, userId);
    var once := ApplyCommentLike(t, commentId, userId);
    var liked := comment.(likesCount := comment.likesCount + 1);
    assert once.commentLikes == rows + [r];
    assert once.comments == t.comments[commentId := liked];
    AppendLike(rows, r);
    forall c: int, u: int
      ensures LikerCount(rows + [r], c, u) <= 1
    {
    }
    var j := |rows|;
    FindLikeIsTheRow(rows + [r], j, commentId, userId);
    assert RemoveAt(rows + [r], j) == rows;
    assert liked.(likesCount := liked.likesCount - 1) == comment;
    assert t.comments[commentId := comment] == t.comments;
  }

  /** Unlike then like: the pair's row comes back under a new id, and nothing else moves. */
  lemma TwiceFromLike(t: Tables, commentId: nat, userId: nat, i: nat)
    requires commentId in t.comments && UniqueLikes(t.commentLikes)
    requires FindLike(t.commentLikes, commentId, userId) == Some(i)
    ensures var twice := ApplyCommentLike(ApplyCommentLike(t, commentId, userId), commentId, userId);
      twice.comments == t.comments &&
      OtherLikes(twice.commentLikes, commentId, userId) == OtherLikes(t.commentLikes, commentId, userId) &&
      LikerCount(twice.commentLikes, commentId, userId) == LikerCount(t.commentLikes, commentId, userId)
  {
    var rows, comment := t.commentLikes, t.comments[commentId];
    var rest := RemoveAt(rows, i);
    var once := ApplyCommentLike(t, commentId, userId);
    var unliked := comment.(likesCount := comment.likesCount - 1);
    assert once.commentLikes == rest;
    assert once.comments == t.comments[commentId := unliked];
    RemoveLike(rows, i);
    assert LikerCount(rows, commentId, userId) == 1;
    var r := CommentLike(once.nextCommentLikeId, commentId, userId);
    assert ApplyCommentLike(once, commentId, userId).commentLikes == rest + [r];
    AppendLike(rest, r);
    assert unliked.(likesCount := unliked.likesCount + 1) == comment;
    assert t.comments[commentId := comment] == t.comments;
  }

  /** Liking a missing comment answers NotFound and changes nothing. */
  lemma LikeMissingComment(t: Tables, commentId: nat, caller: nat)
    requires commentId <= MaxInt64 && commentId !in t.comments
    ensures LikeCommentEffect(t, Itoa(commentId), Some(caller)) == Outcome(NotFound, t)
  {
    AtoiItoa(commentId);
  }
}
