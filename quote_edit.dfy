/**
 * Creating, reading, updating and deleting a quote. Update and delete check,
 * in this order: the path id parses, the caller is signed in, the quote
 * exists, the caller owns it; only then is the body looked at. Create is the
 * exception: it binds and validates the body before it asks who the caller is.
 * A request body is `None` when it cannot be bound at all (malformed JSON).
 */
module QuoteEdit {
  import opened Wrappers
  import opened Http
  import opened Strconv
  import opened Models
  import opened Rows
  import opened Store

  // ---------------------------------------------------------------------------
  // Create

  /** The row a successful create inserts: owned by the caller, in the given category, with no reactions. */
  function NewQuote(t: Tables, body: QuoteCreateRequest, userId: nat): Quote
  {
    Quote(t.nextQuoteId, body.content, body.author, Some(userId), Some(body.categoryId), 0, 0)
  }

  function CreateQuoteEffect(t: Tables, body: Option<QuoteCreateRequest>, caller: Option<nat>): (r: Outcome)
    ensures r.status == BadRequest <==>
              !(body.Some? && ValidQuoteCreate(body.value)) ||
              (caller.Some? && body.value.categoryId !in t.categories)
    ensures r.status == Unauthorized <==> body.Some? && ValidQuoteCreate(body.value) && caller.None?
    ensures r.status == Created <==>
              body.Some? && ValidQuoteCreate(body.value) && caller.Some? && body.value.categoryId in t.categories
    ensures r.status != Created ==> r.after == t
    ensures r.status == Created ==>
              r.after.quotes == t.quotes[t.nextQuoteId := NewQuote(t, body.value, caller.value)] &&
              r.after.nextQuoteId == t.nextQuoteId + 1 &&
              r.after.(quotes := t.quotes, nextQuoteId := t.nextQuoteId) == t
  {
    if body.None? || !ValidQuoteCreate(body.value) then Outcome(BadRequest, t)
    else if caller.None? then Outcome(Unauthorized, t)
    else if body.value.categoryId !in t.categories then Outcome(BadRequest, t)
    else
      Outcome(Created, t.(quotes := t.quotes[t.nextQuoteId := NewQuote(t, body.value, caller.value)],
                          nextQuoteId := t.nextQuoteId + 1))
  }

  method CreateQuote(db: Database, body: Option<QuoteCreateRequest>, caller: Option<nat>) returns (status: Status)
    modifies db
    ensures Outcome(status, db.Snapshot()) == CreateQuoteEffect(old(db.Snapshot()), body, caller)
    ensures old(db.Valid()) ==> db.Valid()
  {
    ghost var before := db.Snapshot();
    if body.None? || !ValidQuoteCreate(body.value) {
      return BadRequest;
    }
    var input := body.value;
    if caller.None? {
      return Unauthorized;
    }
    if input.categoryId !in db.categories {
      return BadRequest;
    }
    var quote := Quote(db.nextQuoteId, input.content, input.author, Some(caller.value), Some(input.categoryId), 0, 0);
    db.quotes := db.quotes[db.nextQuoteId := quote];
    db.nextQuoteId := db.nextQuoteId + 1;
    status := Created;
    if Consistent(before) {
      CreatePreservesConsistency(before, input, caller.value);
    }
  }

  /** A new quote has no reactions, so the reaction counts it starts with are already right. */
  lemma CreatePreservesConsistency(t: Tables, body: QuoteCreateRequest, userId: nat)
    requires Consistent(t)
    ensures var after := t.(quotes := t.quotes[t.nextQuoteId := NewQuote(t, body, userId)],
                            nextQuoteId := t.nextQuoteId + 1);
      Consistent(after)
  {
    var id := t.nextQuoteId;
    assert id !in t.quotes;
    NoReactionsOnUnissued(t, id);
  }

  /** No reaction row names a quote id not yet issued. */
  lemma NoReactionsOnUnissued(t: Tables, id: nat)
    requires Consistent(t) && id >= t.nextQuoteId
    ensures forall k: Reaction :: KindCount(t.quoteLikes, id, k) == 0
  {
    forall k: Reaction ensures KindCount(t.quoteLikes, id, k) == 0 {
      KindCountAbsent(t.quoteLikes, id, k);
    }
  }

  lemma {:induction false} KindCountAbsent(rows: seq<QuoteLike>, id: int, k: Reaction)
    requires forall r :: r in rows ==> r.quoteId != id
    ensures KindCount(rows, id, k) == 0
  {
    if rows != [] {
      assert rows[0] in rows;
      assert forall r :: r in rows[1..] ==> r in rows;
      KindCountAbsent(rows[1..], id, k);
    }
  }

  /** A new quote starts with both counters at zero and belongs to its creator. */
  lemma CreatedQuoteIsFresh(t: Tables, body: Option<QuoteCreateRequest>, caller: Option<nat>)
    requires CreateQuoteEffect(t, body, caller).status == Created
    ensures var q := CreateQuoteEffect(t, body, caller).after.quotes[t.nextQuoteId];
      q.likesCount == 0 && q.dislikesCount == 0 &&
      q.userId == caller && q.categoryId == Some(body.value.categoryId) &&
      q.content == body.value.content && q.author == body.value.author
  {
  }

  // ---------------------------------------------------------------------------
  // Read

  /** `GetQuoteByID` without the preloaded relations: the status and the quote it shows. */
  function GetQuote(t: Tables, idParam: string): (r: (Status, Option<Quote>))
    ensures r.0 == BadRequest <==> Atoi(idParam).None?
    ensures r.0 == NotFound <==> Atoi(idParam).Some? && Atoi(idParam).value !in t.quotes
    ensures r.0 == OK <==> Atoi(idParam).Some? && Atoi(idParam).value in t.quotes
    ensures r.1.Some? <==> r.0 == OK
    ensures r.0 == OK ==> r.1.value == t.quotes[Atoi(idParam).value]
  {
    match Atoi(idParam)
    case None => (BadRequest, None)
    case Some(id) => if id in t.quotes then (OK, Some(t.quotes[id])) else (NotFound, None)
  }

  /** A created quote can be fetched by the id it was given, and is exactly what was stored. */
  lemma CreateThenGet(t: Tables, body: Option<QuoteCreateRequest>, caller: Option<nat>)
    requires t.nextQuoteId <= MaxInt64
    requires CreateQuoteEffect(t, body, caller).status == Created
    ensures GetQuote(CreateQuoteEffect(t, body, caller).after, Itoa(t.nextQuoteId))
            == (OK, Some(NewQuote(t, body.value, caller.value)))
  {
    AtoiItoa(t.nextQuoteId);
  }

  // ---------------------------------------------------------------------------
  // Update

  /**
   * The quote with the fields the request carries: an empty string or a zero
   * category means "leave as it is".
   */
  function Patched(quote: Quote, body: QuoteUpdateRequest): (r: Quote)
    ensures r.(content := quote.content, author := quote.author, categoryId := quote.categoryId) == quote
    ensures body.content == [] && body.author == [] && body.categoryId == 0 ==> r == quote
  {
    quote.(content := if body.content != [] then body.content else quote.content,
           author := if body.author != [] then body.author else quote.author,
           categoryId := if body.categoryId != 0 then Some(body.categoryId) else quote.categoryId)
  }

  /** Sending the same update twice leaves the quote as the first one did. */
  lemma PatchIdempotent(quote: Quote, body: QuoteUpdateRequest)
    ensures Patched(Patched(quote, body), body) == Patched(quote, body)
  {
  }

  function UpdateQuoteEffect(t: Tables, idParam: string, caller: Option<nat>, body: Option<QuoteUpdateRequest>): (r: Outcome)
    ensures Atoi(idParam).None? ==> r.status == BadRequest
    ensures Atoi(idParam).Some? && caller.None? ==> r.status == Unauthorized
    ensures Atoi(idParam).Some? && caller.Some? && Atoi(idParam).value !in t.quotes ==> r.status == NotFound
    ensures (Atoi(idParam).Some? && caller.Some? && Atoi(idParam).value in t.quotes &&
             !OwnedBy(t.quotes[Atoi(idParam).value].userId, caller.value)) ==> r.status == Forbidden
    ensures r.status == OK <==>
              Atoi(idParam).Some? && caller.Some? && Atoi(idParam).value in t.quotes &&
              OwnedBy(t.quotes[Atoi(idParam).value].userId, caller.value) &&
              body.Some? && ValidQuoteUpdate(body.value) &&
              (body.value.categoryId == 0 || body.value.categoryId in t.categories)
    ensures (Atoi(idParam).Some? && caller.Some? && Atoi(idParam).value in t.quotes &&
             OwnedBy(t.quotes[Atoi(idParam).value].userId, caller.value) &&
             !(body.Some? && ValidQuoteUpdate(body.value) &&
               (body.value.categoryId == 0 || body.value.categoryId in t.categories))) ==> r.status == BadRequest
    ensures r.status in {BadRequest, Unauthorized, NotFound, Forbidden, OK}
    ensures r.status != OK ==> r.after == t
  {
    match Atoi(idParam)
    case None => Outcome(BadRequest, t)
    case Some(id) =>
      if caller.None? then Outcome(Unauthorized, t)
      else if id !in t.quotes then Outcome(NotFound, t)
      else if !OwnedBy(t.quotes[id].userId, caller.value) then Outcome(Forbidden, t)
      else if body.None? || !ValidQuoteUpdate(body.value) then Outcome(BadRequest, t)
      else if body.value.categoryId != 0 && body.value.categoryId !in t.categories then Outcome(BadRequest, t)
      else Outcome(OK, t.(quotes := t.quotes[id := Patched(t.quotes[id], body.value)]))
  }

  method UpdateQuote(db: Database, idParam: string, caller: Option<nat>, body: Option<QuoteUpdateRequest>)
    returns (status: Status)
    modifies db
    ensures Outcome(status, db.Snapshot()) == UpdateQuoteEffect(old(db.Snapshot()), idParam, caller, body)
    ensures old(db.Valid()) ==> db.Valid()
  {
    ghost var before := db.Snapshot();
    var parsed := Atoi(idParam);
    if parsed.None? {
      return BadRequest;
    }
    if caller.None? {
      return Unauthorized;
    }
    var id := parsed.value;
    if id !in db.quotes {
      return NotFound;
    }
    var quote := db.quotes[id];
    if quote.userId.None? || quote.userId.value != caller.value {
      return Forbidden;
    }
    if body.None? || !ValidQuoteUpdate(body.value) {
      return BadRequest;
    }
    var input := body.value;
    if input.content != [] {
      quote := quote.(content := input.content);
    }
    if input.author != [] {
      quote := quote.(author := input.author);
    }
    if input.categoryId != 0 {
      if input.categoryId !in db.categories {
        return BadRequest;
      }
      quote := quote.(categoryId := Some(input.categoryId));
    }
    db.quotes := db.quotes[id := quote];
    status := OK;
    if Consistent(before) {
      UpdatePreservesConsistency(before, id, input);
    }
  }

  /** An update touches neither the id, the owner nor the counters, so the store stays consistent. */
  lemma UpdatePreservesConsistency(t: Tables, id: nat, body: QuoteUpdateRequest)
    requires Consistent(t) && id in t.quotes
    ensures Consistent(t.(quotes := t.quotes[id := Patched(t.quotes[id], body)]))
  {
    var after := t.(quotes := t.quotes[id := Patched(t.quotes[id], body)]);
    assert after.quotes.Keys == t.quotes.Keys;
    assert forall q, k: Reaction :: q in after.quotes ==> after.quotes[q].Counter(k) == t.quotes[q].Counter(k);
  }

  /**
   * The partial-update rule, field by field: a field the request leaves empty
   * (or a zero category) keeps its value, a field it carries replaces it, and
   * nothing else about the quote or the store changes.
   */
  lemma PartialUpdate(t: Tables, idParam: string, caller: Option<nat>, body: Option<QuoteUpdateRequest>)
    requires UpdateQuoteEffect(t, idParam, caller, body).status == OK
    ensures var id := Atoi(idParam).value;
      var before, after := t.quotes[id], UpdateQuoteEffect(t, idParam, caller, body).after;
      id in after.quotes &&
      var q := after.quotes[id];
      (body.value.content == [] ==> q.content == before.content) &&
      (body.value.content != [] ==> q.content == body.value.content) &&
      (body.value.author == [] ==> q.author == before.author) &&
      (body.value.author != [] ==> q.author == body.value.author) &&
      (body.value.categoryId == 0 ==> q.categoryId == before.categoryId) &&
      (body.value.categoryId != 0 ==> q.categoryId == Some(body.value.categoryId) &&
                                       body.value.categoryId in t.categories) &&
      q.id == before.id && q.userId == before.userId &&
      q.likesCount == before.likesCount && q.dislikesCount == before.dislikesCount &&
      after == t.(quotes := t.quotes[id := q])
  {
  }

  /** An update that succeeds is visible to the next read of the same id. */
  lemma UpdateThenGet(t: Tables, idParam: string, caller: Option<nat>, body: Option<QuoteUpdateRequest>)
    requires UpdateQuoteEffect(t, idParam, caller, body).status == OK
    ensures var id := Atoi(idParam).value;
      GetQuote(UpdateQuoteEffect(t, idParam, caller, body).after, idParam)
        == (OK, Some(Patched(t.quotes[id], body.value)))
  {
  }

  // ---------------------------------------------------------------------------
  // Delete

  /** The comments that survive deleting quote `id`: the cascade removes that quote's comments. */
  function CommentsWithoutQuote(comments: map<nat, Comment>, id: nat): (r: map<nat, Comment>)
    ensures forall c :: c in r <==> c in comments && comments[c].quoteId != id
    ensures forall c :: c in r ==> r[c] == comments[c]
  {
    map c | c in comments && comments[c].quoteId != id :: comments[c]
  }

  /** Deleting the quote and, by cascade, its reactions and its comments; likes of those comments stay. */
  function DeleteQuoteEffect(t: Tables, idParam: string, caller: Option<nat>): (r: Outcome)
    ensures Atoi(idParam).None? ==> r.status == BadRequest
    ensures Atoi(idParam).Some? && caller.None? ==> r.status == Unauthorized
    ensures Atoi(idParam).Some? && caller.Some? && Atoi(idParam).value !in t.quotes ==> r.status == NotFound
    ensures (Atoi(idParam).Some? && caller.Some? && Atoi(idParam).value in t.quotes &&
             !OwnedBy(t.quotes[Atoi(idParam).value].userId, caller.value)) ==> r.status == Forbidden
    ensures r.status == OK <==>
              Atoi(idParam).Some? && caller.Some? && Atoi(idParam).value in t.quotes &&
              OwnedBy(t.quotes[Atoi(idParam).value].userId, caller.value)
    ensures r.status in {BadRequest, Unauthorized, NotFound, Forbidden, OK}
    ensures r.status != OK ==> r.after == t
  {
    match Atoi(idParam)
    case None => Outcome(BadRequest, t)
    case Some(id) =>
      if caller.None? then Outcome(Unauthorized, t)
      else if id !in t.quotes then Outcome(NotFound, t)
      else if !OwnedBy(t.quotes[id].userId, caller.value) then Outcome(Forbidden, t)
      else Outcome(OK, t.(quotes := t.quotes - {id},
                          quoteLikes := WithoutQuote(t.quoteLikes, id),
                          comments := CommentsWithoutQuote(t.comments, id)))
  }

  method DeleteQuote(db: Database, idParam: string, caller: Option<nat>) returns (status: Status)
    modifies db
    ensures Outcome(status, db.Snapshot()) == DeleteQuoteEffect(old(db.Snapshot()), idParam, caller)
    ensures old(db.Valid()) ==> db.Valid()
  {
    ghost var before := db.Snapshot();
    var parsed := Atoi(idParam);
    if parsed.None? {
      return BadRequest;
    }
    if caller.None? {
      return Unauthorized;
    }
    var id := parsed.value;
    if id !in db.quotes {
      return NotFound;
    }
    var quote := db.quotes[id];
    if quote.userId.None? || quote.userId.value != caller.value {
      return Forbidden;
    }
    db.quotes := db.quotes - {id};
    db.quoteLikes := WithoutQuote(db.quoteLikes, id);
    db.comments := CommentsWithoutQuote(db.comments, id);
    status := OK;
    if Consistent(before) {
      DeletePreservesConsistency(before, id);
    }
  }

  lemma DeletePreservesConsistency(t: Tables, id: nat)
    requires Consistent(t) && id in t.quotes
    ensures Consistent(t.(quotes := t.quotes - {id},
                          quoteLikes := WithoutQuote(t.quoteLikes, id),
                          comments := CommentsWithoutQuote(t.comments, id)))
  {
    DropQuoteReactions(t.quoteLikes, id);
    var rows := WithoutQuote(t.quoteLikes, id);
    assert UniqueReactions(rows) by {
      forall q: int, u: int ensures PairCount(rows, q, u) <= 1 {
        assert PairCount(t.quoteLikes, q, u) <= 1;
      }
    }
  }

  /**
   * After a delete the quote is gone, and so is everything that referred to
   * it through a cascading key; other quotes, their reactions and their
   * comments are untouched.
   */
  lemma DeleteQuoteCascades(t: Tables, idParam: string, caller: Option<nat>)
    requires DeleteQuoteEffect(t, idParam, caller).status == OK
    ensures var id, after := Atoi(idParam).value, DeleteQuoteEffect(t, idParam, caller).after;
      id !in after.quotes &&
      (forall r :: r in after.quoteLikes <==> r in t.quoteLikes && r.quoteId != id) &&
      (forall c :: c in after.comments ==> after.comments[c].quoteId != id) &&
      (forall q :: q in t.quotes && q != id ==> q in after.quotes && after.quotes[q] == t.quotes[q]) &&
      (forall q: int, k: Reaction :: q != id ==> KindCount(after.quoteLikes, q, k) == KindCount(t.quoteLikes, q, k)) &&
      (forall c :: c in t.comments && t.comments[c].quoteId != id ==>
         c in after.comments && after.comments[c] == t.comments[c]) &&
      after.commentLikes == t.commentLikes && after.users == t.users
  {
    DropQuoteReactions(t.quoteLikes, Atoi(idParam).value);
  }

  /** A deleted quote can no longer be fetched. */
  lemma DeleteThenGet(t: Tables, idParam: string, caller: Option<nat>)
    requires DeleteQuoteEffect(t, idParam, caller).status == OK
    ensures GetQuote(DeleteQuoteEffect(t, idParam, caller).after, idParam).0 == NotFound
  {
  }
}
