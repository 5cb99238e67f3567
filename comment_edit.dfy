/**
 * Adding, listing, editing and deleting the comments of a quote. Adding checks
 * the id, the caller, the body and then the quote; editing and deleting check
 * the id, the caller, the comment's existence and its owner before anything
 * else. A comment's creation time is the `now` the caller supplies.
 */
module CommentEdit {
  import opened Wrappers
  import opened Http
  import opened Strconv
  import opened Models
  import opened Rows
  import opened Store

  // ---------------------------------------------------------------------------
  // Add

  /** The row a successful add inserts: on the given quote, owned by the caller, with no likes. */
  function NewComment(t: Tables, quoteId: nat, content: string, userId: nat, now: int): Comment
  {
    Comment(t.nextCommentId, content, quoteId, Some(userId), 0, now)
  }

  function AddCommentEffect(t: Tables, idParam: string, caller: Option<nat>, body: Option<CommentCreateRequest>, now: int)
    : (r: Outcome)
    ensures Atoi(idParam).None? ==> r.status == BadRequest
    ensures Atoi(idParam).Some? && caller.None? ==> r.status == Unauthorized
    ensures (Atoi(idParam).Some? && caller.Some? && !(body.Some? && ValidCommentContent(body.value.content)))
            ==> r.status == BadRequest
    ensures r.status == NotFound <==>
              Atoi(idParam).Some? && caller.Some? && body.Some? && ValidCommentContent(body.value.content) &&
              Atoi(idParam).value !in t.quotes
    ensures r.status == Created <==>
              Atoi(idParam).Some? && caller.Some? && body.Some? && ValidCommentContent(body.value.content) &&
              Atoi(idParam).value in t.quotes
    ensures r.status in {BadRequest, Unauthorized, NotFound, Created}
    ensures r.status != Created ==> r.after == t
    ensures r.status == Created ==>
              Atoi(idParam).value >= 0 &&
              r.after == t.(comments := t.comments[t.nextCommentId :=
                                         NewComment(t, Atoi(idParam).value, body.value.content, caller.value, now)],
                            nextCommentId := t.nextCommentId + 1)
  {
    match Atoi(idParam)
    case None => Outcome(BadRequest, t)
    case Some(quoteId) =>
      if caller.None? then Outcome(Unauthorized, t)
      else if body.None? || !ValidCommentContent(body.value.content) then Outcome(BadRequest, t)
      else if quoteId !in t.quotes then Outcome(NotFound, t)
      else
        Outcome(Created, t.(comments := t.comments[t.nextCommentId :=
                                         NewComment(t, quoteId, body.value.content, caller.value, now)],
                            nextCommentId := t.nextCommentId + 1))
  }

  method AddComment(db: Database, idParam: string, caller: Option<nat>, body: Option<CommentCreateRequest>, now: int)
    returns (status: Status)
    modifies db
    ensures Outcome(status, db.Snapshot()) == AddCommentEffect(old(db.Snapshot()), idParam, caller, body, now)
    ensures old(db.Valid()) ==> db.Valid()
  {
    ghost var before := db.Snapshot();
    var parsed := Atoi(idParam);
    if parsed.None? {
      return BadRequest;
    }
    if caller.None? {
      return Unauthorized;
    }
    if body.None? || !ValidCommentContent(body.value.content) {
      return BadRequest;
    }
    var quoteId := parsed.value;
    if quoteId !in db.quotes {
      return NotFound;
    }
    var comment := Comment(db.nextCommentId, body.value.content, quoteId, Some(caller.value), 0, now);
    db.comments := db.comments[db.nextCommentId := comment];
    db.nextCommentId := db.nextCommentId + 1;
    status := Created;
    if Consistent(before) {
      AddPreservesConsistency(before, quoteId, body.value.content, caller.value, now);
    }
  }

  lemma {:induction false} LikeCountAbsent(rows: seq<CommentLike>, id: int)
    requires forall r :: r in rows ==> r.commentId != id
    ensures LikeCount(rows, id) == 0
  {
    if rows != [] {
      assert rows[0] in rows;
      assert forall r :: r in rows[1..] ==> r in rows;
      LikeCountAbsent(rows[1..], id);
    }
  }

  /** A new comment has no likes, and no stale like row can name its fresh id. */
  lemma AddPreservesConsistency(t: Tables, quoteId: nat, content: string, userId: nat, now: int)
    requires Consistent(t) && quoteId in t.quotes
    ensures Consistent(t.(comments := t.comments[t.nextCommentId := NewComment(t, quoteId, content, userId, now)],
                          nextCommentId := t.nextCommentId + 1))
  {
    LikeCountAbsent(t.commentLikes, t.nextCommentId);
  }

  // ---------------------------------------------------------------------------
  // List

  /** Newest first: creation times never increase along the list. */
  predicate NewestFirst(s: seq<Comment>)
  {
    forall i, j :: 0 <= i < j < |s| ==> s[i].createdAt >= s[j].createdAt
  }

  /** Insert `c` into a newest-first list, ahead of every comment not newer than it. */
  function InsertByTime(s: seq<Comment>, c: Comment): (r: seq<Comment>)
    requires NewestFirst(s)
    ensures NewestFirst(r)
    ensures multiset(r) == multiset(s) + multiset{c}
  {
    if s == [] then [c]
    else if c.createdAt >= s[0].createdAt then [c] + s
    else
      var rest := InsertByTime(s[1..], c);
      assert s == [s[0]] + s[1..];
      NotNewerThanHead(s, rest, c);
      PrependNewest(s[0], rest);
      [s[0]] + rest
  }

  /** Whatever is made of the tail of a newest-first list and an older comment is no newer than its head. */
  lemma NotNewerThanHead(s: seq<Comment>, rest: seq<Comment>, c: Comment)
    requires NewestFirst(s) && s != [] && c.createdAt < s[0].createdAt
    requires multiset(rest) == multiset(s[1..]) + multiset{c}
    ensures forall i :: 0 <= i < |rest| ==> rest[i].createdAt <= s[0].createdAt
  {
    forall i | 0 <= i < |rest|
      ensures rest[i].createdAt <= s[0].createdAt
    {
      var x := rest[i];
      assert x in multiset(rest);
      if x != c {
        assert x in multiset(s[1..]);
        var k :| 0 <= k < |s[1..]| && s[1..][k] == x;
        assert s[k + 1] == x;
      }
    }
  }

  lemma PrependNewest(x: Comment, s: seq<Comment>)
    requires NewestFirst(s)
    requires forall i :: 0 <= i < |s| ==> s[i].createdAt <= x.createdAt
    ensures NewestFirst([x] + s)
  {
    var r := [x] + s;
    forall i, j | 0 <= i < j < |r|
      ensures r[i].createdAt >= r[j].createdAt
    {
      if i > 0 {
        assert r[i] == s[i - 1] && r[j] == s[j - 1];
      } else {
        assert r[j] == s[j - 1];
      }
    }
  }

  /**
   * The comments of quote `quoteId` whose ids are below `n`, newest first;
   * among comments created at the same time the later id comes first.
   */
  function CommentsUpTo(comments: map<nat, Comment>, quoteId: int, n: nat): (r: seq<Comment>)
    ensures NewestFirst(r)
  {
    if n == 0 then []
    else
      var prev := CommentsUpTo(comments, quoteId, n - 1);
      if n - 1 in comments && comments[n - 1].quoteId == quoteId then InsertByTime(prev, comments[n - 1])
      else prev
  }

  /** Whether comment `c` is stored under its id, belongs to quote `quoteId` and has an id below `n`. */
  predicate ListedBelow(comments: map<nat, Comment>, quoteId: int, n: nat, c: Comment)
  {
    c.id < n && c.id in comments && comments[c.id] == c && c.quoteId == quoteId
  }

  /** Each comment of the quote with an id below `n` is listed exactly once, and nothing else is. */
  lemma {:induction false} ListedOnce(comments: map<nat, Comment>, quoteId: int, n: nat, c: Comment)
    requires forall id :: id in comments ==> comments[id].id == id
    ensures multiset(CommentsUpTo(comments, quoteId, n))[c] == if ListedBelow(comments, quoteId, n, c) then 1 else 0
  {
    if n > 0 {
      ListedOnce(comments, quoteId, n - 1, c);
      ListingStep(comments, quoteId, n);
      CountStep(comments, quoteId, n, c,
                multiset(CommentsUpTo(comments, quoteId, n - 1)), multiset(CommentsUpTo(comments, quoteId, n)));
    }
  }

  /** Raising the bound from `n - 1` to `n` lists one more comment, or none. */
  lemma ListingStep(comments: map<nat, Comment>, quoteId: int, n: nat)
    requires n > 0
    ensures multiset(CommentsUpTo(comments, quoteId, n)) ==
            if n - 1 in comments && comments[n - 1].quoteId == quoteId
            then multiset(CommentsUpTo(comments, quoteId, n - 1)) + multiset{comments[n - 1]}
            else multiset(CommentsUpTo(comments, quoteId, n - 1))
  {
  }

  /** The count of one comment across that step: it rises only for the comment whose id is `n - 1`. */
  lemma CountStep(comments: map<nat, Comment>, quoteId: int, n: nat, c: Comment,
                  prev: multiset<Comment>, listed: multiset<Comment>)
    requires n > 0
    requires forall id :: id in comments ==> comments[id].id == id
    requires prev[c] == if ListedBelow(comments, quoteId, n - 1, c) then 1 else 0
    requires listed == if n - 1 in comments && comments[n - 1].quoteId == quoteId
                       then prev + multiset{comments[n - 1]} else prev
    ensures listed[c] == if ListedBelow(comments, quoteId, n, c) then 1 else 0
  {
  }

  /** `GetComments`: the status and the comments it shows. */
  function GetComments(t: Tables, idParam: string): (r: (Status, seq<Comment>))
    ensures r.0 == BadRequest <==> Atoi(idParam).None?
    ensures r.0 == NotFound <==> Atoi(idParam).Some? && Atoi(idParam).value !in t.quotes
    ensures r.0 == OK <==> Atoi(idParam).Some? && Atoi(idParam).value in t.quotes
    ensures r.0 != OK ==> r.1 == []
    ensures NewestFirst(r.1)
  {
    match Atoi(idParam)
    case None => (BadRequest, [])
    case Some(quoteId) =>
      if quoteId !in t.quotes then (NotFound, [])
      else (OK, CommentsUpTo(t.comments, quoteId, t.nextCommentId))
  }

  /** The listing of a quote holds exactly its comments, each once. */
  lemma GetCommentsListsTheQuote(t: Tables, idParam: string)
    requires Consistent(t) && GetComments(t, idParam).0 == OK
    ensures var listed, q := GetComments(t, idParam).1, Atoi(idParam).value;
      (forall c :: c in listed <==> c.id in t.comments && t.comments[c.id] == c && c.quoteId == q) &&
      (forall c :: multiset(listed)[c] <= 1)
  {
    var q := Atoi(idParam).value;
    var listed := CommentsUpTo(t.comments, q, t.nextCommentId);
    assert GetComments(t, idParam).1 == listed;
    forall c: Comment
      ensures c in listed <==> c.id in t.comments && t.comments[c.id] == c && c.quoteId == q
      ensures multiset(listed)[c] <= 1
    {
      ListedOnce(t.comments, q, t.nextCommentId, c);
      assert c in listed <==> c in multiset(listed);
    }
  }

  /** A comment just added shows up when its quote's comments are listed. */
  lemma AddThenList(t: Tables, idParam: string, caller: Option<nat>, body: Option<CommentCreateRequest>, now: int)
    requires Consistent(t)
    requires AddCommentEffect(t, idParam, caller, body, now).status == Created
    ensures var after := AddCommentEffect(t, idParam, caller, body, now).after;
      GetComments(after, idParam).0 == OK &&
      NewComment(t, Atoi(idParam).value, body.value.content, caller.value, now) in GetComments(after, idParam).1
  {
    var after := AddCommentEffect(t, idParam, caller, body, now).after;
    AddPreservesConsistency(t, Atoi(idParam).value, body.value.content, caller.value, now);
    GetCommentsListsTheQuote(after, idParam);
  }

  // ---------------------------------------------------------------------------
  // Update

  function UpdateCommentEffect(t: Tables, idParam: string, caller: Option<nat>, body: Option<CommentUpdateRequest>)
    : (r: Outcome)
    ensures Atoi(idParam).None? ==> r.status == BadRequest
    ensures Atoi(idParam).Some? && caller.None? ==> r.status == Unauthorized
    ensures Atoi(idParam).Some? && caller.Some? && Atoi(idParam).value !in t.comments ==> r.status == NotFound
    ensures (Atoi(idParam).Some? && caller.Some? && Atoi(idParam).value in t.comments &&
             !OwnedBy(t.comments[Atoi(idParam).value].userId, caller.value)) ==> r.status == Forbidden
    ensures r.status == OK <==>
              Atoi(idParam).Some? && caller.Some? && Atoi(idParam).value in t.comments &&
              OwnedBy(t.comments[Atoi(idParam).value].userId, caller.value) &&
              body.Some? && ValidCommentContent(body.value.content)
    ensures (Atoi(idParam).Some? && caller.Some? && Atoi(idParam).value in t.comments &&
             OwnedBy(t.comments[Atoi(idParam).value].userId, caller.value) &&
             !(body.Some? && ValidCommentContent(body.value.content))) ==> r.status == BadRequest
    ensures r.status in {BadRequest, Unauthorized, NotFound, Forbidden, OK}
    ensures r.status != OK ==> r.after == t
  {
    match Atoi(idParam)
    case None => Outcome(BadRequest, t)
    case Some(id) =>
      if caller.None? then Outcome(Unauthorized, t)
      else if id !in t.comments then Outcome(NotFound, t)
      else if !OwnedBy(t.comments[id].userId, caller.value) then Outcome(Forbidden, t)
      else if body.None? || !ValidCommentContent(body.value.content) then Outcome(BadRequest, t)
      else Outcome(OK, t.(comments := t.comments[id := t.comments[id].(content := body.value.content)]))
  }

  method UpdateComment(db: Database, idParam: string, caller: Option<nat>, body: Option<CommentUpdateRequest>)
    returns (status: Status)
    modifies db
    ensures Outcome(status, db.Snapshot()) == UpdateCommentEffect(old(db.Snapshot()), idParam, caller, body)
    ensures old(db.Valid()) ==> db.Valid()
  {
    var parsed := Atoi(idParam);
    if parsed.None? {
      return BadRequest;
    }
    if caller.None? {
      return Unauthorized;
    }
    var id := parsed.value;
    if id !in db.comments {
      return NotFound;
    }
    var comment := db.comments[id];
    if comment.userId.None? || comment.userId.value != caller.value {
      return Forbidden;
    }
    if body.None? || !ValidCommentContent(body.value.content) {
      return BadRequest;
    }
    comment := comment.(content := body.value.content);
    db.comments := db.comments[id := comment];
    status := OK;
  }

  /**
   * A successful edit sets the content, within its bounds, and changes nothing
   * else about the comment or the store.
   */
  lemma UpdateCommentChangesOnlyContent(t: Tables, idParam: string, caller: Option<nat>, body: Option<CommentUpdateRequest>)
    requires UpdateCommentEffect(t, idParam, caller, body).status == OK
    ensures var id, after := Atoi(idParam).value, UpdateCommentEffect(t, idParam, caller, body).after;
      id in after.comments &&
      after.comments[id].content == body.value.content &&
      1 <= |after.comments[id].content| <= MaxCommentContent &&
      after.comments[id].(content := t.comments[id].content) == t.comments[id] &&
      after.comments - {id} == t.comments - {id} &&
      after.(comments := t.comments) == t &&
      (Consistent(t) ==> Consistent(after))
  {
  }

  // ---------------------------------------------------------------------------
  // Delete

  /** Deleting a comment removes only that row; its like rows are not cascaded. */
  function DeleteCommentEffect(t: Tables, idParam: string, caller: Option<nat>): (r: Outcome)
    ensures Atoi(idParam).None? ==> r.status == BadRequest
    ensures Atoi(idParam).Some? && caller.None? ==> r.status == Unauthorized
    ensures Atoi(idParam).Some? && caller.Some? && Atoi(idParam).value !in t.comments ==> r.status == NotFound
    ensures (Atoi(idParam).Some? && caller.Some? && Atoi(idParam).value in t.comments &&
             !OwnedBy(t.comments[Atoi(idParam).value].userId, caller.value)) ==> r.status == Forbidden
    ensures r.status == OK <==>
              Atoi(idParam).Some? && caller.Some? && Atoi(idParam).value in t.comments &&
              OwnedBy(t.comments[Atoi(idParam).value].userId, caller.value)
    ensures r.status in {BadRequest, Unauthorized, NotFound, Forbidden, OK}
    ensures r.status != OK ==> r.after == t
    ensures r.status == OK ==> r.after == t.(comments := t.comments - {Atoi(idParam).value})
  {
    match Atoi(idParam)
    case None => Outcome(BadRequest, t)
    case Some(id) =>
      if caller.None? then Outcome(Unauthorized, t)
      else if id !in t.comments then Outcome(NotFound, t)
      else if !OwnedBy(t.comments[id].userId, caller.value) then Outcome(Forbidden, t)
      else Outcome(OK, t.(comments := t.comments - {id}))
  }

  method DeleteComment(db: Database, idParam: string, caller: Option<nat>) returns (status: Status)
    modifies db
    ensures Outcome(status, db.Snapshot()) == DeleteCommentEffect(old(db.Snapshot()), idParam, caller)
    ensures old(db.Valid()) ==> db.Valid()
  {
    var parsed := Atoi(idParam);
    if parsed.None? {
      return BadRequest;
    }
    if caller.None? {
      return Unauthorized;
    }
    var id := parsed.value;
    if id !in db.comments {
      return NotFound;
    }
    var comment := db.comments[id];
    if comment.userId.None? || comment.userId.value != caller.value {
      return Forbidden;
    }
    db.comments := db.comments - {id};
    status := OK;
  }

  /** A deleted comment drops out of its quote's listing, and the store stays consistent. */
  lemma DeleteThenList(t: Tables, idParam: string, caller: Option<nat>, quoteParam: string)
    requires Consistent(t)
    requires DeleteCommentEffect(t, idParam, caller).status == OK
    ensures var id, after := Atoi(idParam).value, DeleteCommentEffect(t, idParam, caller).after;
      Consistent(after) && t.comments[id] !in GetComments(after, quoteParam).1
  {
    var after := DeleteCommentEffect(t, idParam, caller).after;
    if GetComments(after, quoteParam).0 == OK {
      GetCommentsListsTheQuote(after, quoteParam);
    }
  }

  // ---------------------------------------------------------------------------
  // Ownership

  /** A comment without an owner can be neither edited nor deleted, by anyone. */
  lemma OwnerlessCommentIsLocked(t: Tables, id: nat, caller: Option<nat>, body: Option<CommentUpdateRequest>)
    requires id <= MaxInt64 && id in t.comments && t.comments[id].userId.None?
    ensures UpdateCommentEffect(t, Itoa(id), caller, body).status != OK
    ensures DeleteCommentEffect(t, Itoa(id), caller).status != OK
    ensures UpdateCommentEffect(t, Itoa(id), caller, body).after == t
    ensures DeleteCommentEffect(t, Itoa(id), caller).after == t
  {
    AtoiItoa(id);
  }
}
