/**
 * Liking and disliking a quote. Per (quote, user) a reaction is a three-state
 * machine: no row, a row of the requested kind, or a row of the other kind.
 * A request inserts the row, deletes it, or rewrites its kind, and moves the
 * quote's two denormalised counters to match.
 */
module QuoteReaction {
  import opened Wrappers
  import opened Http
  import opened Strconv
  import opened Models
  import opened Rows
  import opened Store

  /**
   * The effect of a reaction by `userId` on the existing quote `quoteId`.
   * The row is found with the same first-row lookup the handler uses.
   */
  function ApplyReaction(t: Tables, quoteId: nat, userId: nat, kind: Reaction): (r: Tables)
    requires quoteId in t.quotes
    ensures r.quotes.Keys == t.quotes.Keys
    ensures forall id :: id in t.quotes && id != quoteId ==> r.quotes[id] == t.quotes[id]
    ensures r.quotes[quoteId].(likesCount := t.quotes[quoteId].likesCount,
                               dislikesCount := t.quotes[quoteId].dislikesCount) == t.quotes[quoteId]
    ensures var before, after := t.quotes[quoteId], r.quotes[quoteId];
      -1 <= (after.likesCount + after.dislikesCount) - (before.likesCount + before.dislikesCount) <= 1
    ensures r.users == t.users && r.categories == t.categories &&
            r.comments == t.comments && r.commentLikes == t.commentLikes
  {
    var quote := t.quotes[quoteId];
    match FindReaction(t.quoteLikes, quoteId, userId)
    case None =>
      t.(quoteLikes := t.quoteLikes + [QuoteLike(t.nextQuoteLikeId, quoteId, userId, kind)],
         nextQuoteLikeId := t.nextQuoteLikeId + 1,
         quotes := t.quotes[quoteId := quote.Bump(kind, 1)])
    case Some(i) =>
      if t.quoteLikes[i].kind == kind then
        t.(quoteLikes := RemoveAt(t.quoteLikes, i),
           quotes := t.quotes[quoteId := quote.Bump(kind, -1)])
      else
        t.(quoteLikes := t.quoteLikes[i := t.quoteLikes[i].(kind := kind)],
           quotes := t.quotes[quoteId := quote.Bump(kind, 1).Bump(kind.Opposite(), -1)])
  }

  /**
   * The whole request: the path id must parse, the caller must be signed in,
   * and the quote must exist, in that order; a failed check changes nothing.
   */
  function ReactionEffect(t: Tables, idParam: string, caller: Option<nat>, kind: Reaction): (r: Outcome)
    ensures r.status == BadRequest <==> Atoi(idParam).None?
    ensures r.status == Unauthorized <==> Atoi(idParam).Some? && caller.None?
    ensures r.status == NotFound <==> Atoi(idParam).Some? && caller.Some? && Atoi(idParam).value !in t.quotes
    ensures r.status == OK <==>
              Atoi(idParam).Some? && caller.Some? && Atoi(idParam).value in t.quotes
    ensures r.status != OK ==> r.after == t
    ensures r.status == OK ==>
              (Atoi(idParam).value >= 0 && r.after == ApplyReaction(t, Atoi(idParam).value, caller.value, kind))
  {
    match Atoi(idParam)
    case None => Outcome(BadRequest, t)
    case Some(quoteId) =>
      if caller.None? then Outcome(Unauthorized, t)
      else if quoteId !in t.quotes then Outcome(NotFound, t)
      else Outcome(OK, ApplyReaction(t, quoteId, caller.value, kind))
  }

  /** The handler behind both the like and the dislike route. */
  method HandleQuoteReaction(db: Database, idParam: string, caller: Option<nat>, kind: Reaction)
    returns (status: Status)
    modifies db
    ensures Outcome(status, db.Snapshot()) == ReactionEffect(old(db.Snapshot()), idParam, caller, kind)
    ensures old(db.Valid()) ==> db.Valid()
  {
    ghost var before := db.Snapshot();
    var parsed := Atoi(idParam);
    if parsed.None? {
      return BadRequest;
    }
    if caller.None? {
      return Unauthorized;
    }
    var quoteId, userId := parsed.value, caller.value;
    var existing := FindReaction(db.quoteLikes, quoteId, userId);
    if quoteId !in db.quotes {
      return NotFound;
    }
    assert ReactionEffect(before, idParam, caller, kind) == Outcome(OK, ApplyReaction(before, quoteId, userId, kind));
    var quote := db.quotes[quoteId];
    ghost var original := quote;
    match existing {
      case None =>
        db.quoteLikes := db.quoteLikes + [QuoteLike(db.nextQuoteLikeId, quoteId, userId, kind)];
        db.nextQuoteLikeId := db.nextQuoteLikeId + 1;
        if kind == Like {
          quote := quote.(likesCount := quote.likesCount + 1);
        } else {
          quote := quote.(dislikesCount := quote.dislikesCount + 1);
        }
        assert quote == original.Bump(kind, 1);
      case Some(i) =>
        var row := db.quoteLikes[i];
        if row.kind == kind {
          db.quoteLikes := RemoveAt(db.quoteLikes, i);
          if kind == Like {
            quote := quote.(likesCount := quote.likesCount - 1);
          } else {
            quote := quote.(dislikesCount := quote.dislikesCount - 1);
          }
          assert quote == original.Bump(kind, -1);
        } else {
          db.quoteLikes := db.quoteLikes[i := row.(kind := kind)];
          if kind == Like {
            quote := quote.(likesCount := quote.likesCount + 1, dislikesCount := quote.dislikesCount - 1);
          } else {
            quote := quote.(likesCount := quote.likesCount - 1, dislikesCount := quote.dislikesCount + 1);
          }
          assert quote == original.Bump(kind, 1).Bump(kind.Opposite(), -1);
        }
    }
    db.quotes := db.quotes[quoteId := quote];
    status := OK;
    assert db.Snapshot() == ApplyReaction(before, quoteId, userId, kind);
    if Consistent(before) {
      ReactionPreservesConsistency(before, quoteId, userId, kind);
    }
  }

  method LikeQuote(db: Database, idParam: string, caller: Option<nat>) returns (status: Status)
    modifies db
    ensures Outcome(status, db.Snapshot()) == ReactionEffect(old(db.Snapshot()), idParam, caller, Like)
    ensures old(db.Valid()) ==> db.Valid()
  {
    status := HandleQuoteReaction(db, idParam, caller, Like);
  }

  method DislikeQuote(db: Database, idParam: string, caller: Option<nat>) returns (status: Status)
    modifies db
    ensures Outcome(status, db.Snapshot()) == ReactionEffect(old(db.Snapshot()), idParam, caller, Dislike)
    ensures old(db.Valid()) ==> db.Valid()
  {
    status := HandleQuoteReaction(db, idParam, caller, Dislike);
  }

  // ---------------------------------------------------------------------------
  // The three transitions

  /** No reaction yet: exactly one row of the requested kind is inserted and only its counter goes up. */
  lemma ReactionOnAbsent(t: Tables, quoteId: nat, userId: nat, kind: Reaction)
    requires quoteId in t.quotes && PairCount(t.quoteLikes, quoteId, userId) == 0
    ensures var after := ApplyReaction(t, quoteId, userId, kind);
      after.quoteLikes == t.quoteLikes + [QuoteLike(t.nextQuoteLikeId, quoteId, userId, kind)] &&
      after.quotes[quoteId].Counter(kind) == t.quotes[quoteId].Counter(kind) + 1 &&
      after.quotes[quoteId].Counter(kind.Opposite()) == t.quotes[quoteId].Counter(kind.Opposite()) &&
      PairCount(after.quoteLikes, quoteId, userId) == 1
  {
    AppendReaction(t.quoteLikes, QuoteLike(t.nextQuoteLikeId, quoteId, userId, kind));
  }

  /** A reaction of the kind already recorded withdraws it: the row goes and its counter goes down. */
  lemma ReactionRepeated(t: Tables, quoteId: nat, userId: nat, kind: Reaction, i: nat)
    requires quoteId in t.quotes && UniqueReactions(t.quoteLikes)
    requires i < |t.quoteLikes| && t.quoteLikes[i].kind == kind && OfPair(t.quoteLikes[i], quoteId, userId)
    ensures var after := ApplyReaction(t, quoteId, userId, kind);
      after.quoteLikes == RemoveAt(t.quoteLikes, i) &&
      after.quotes[quoteId].Counter(kind) == t.quotes[quoteId].Counter(kind) - 1 &&
      after.quotes[quoteId].Counter(kind.Opposite()) == t.quotes[quoteId].Counter(kind.Opposite()) &&
      PairCount(after.quoteLikes, quoteId, userId) == 0
  {
    FindReactionIsTheRow(t.quoteLikes, i, quoteId, userId);
    RemoveReaction(t.quoteLikes, i);
  }

  /**
   * A reaction of the other kind switches it in place: the row keeps its id,
   * one unit moves from the old kind's counter to the new one's, and the total is unchanged.
   */
  lemma ReactionSwitched(t: Tables, quoteId: nat, userId: nat, kind: Reaction, i: nat)
    requires quoteId in t.quotes && UniqueReactions(t.quoteLikes)
    requires i < |t.quoteLikes| && t.quoteLikes[i].kind != kind && OfPair(t.quoteLikes[i], quoteId, userId)
    ensures var after := ApplyReaction(t, quoteId, userId, kind);
      after.quoteLikes == t.quoteLikes[i := t.quoteLikes[i].(kind := kind)] &&
      after.quotes[quoteId].Counter(kind) == t.quotes[quoteId].Counter(kind) + 1 &&
      after.quotes[quoteId].Counter(kind.Opposite()) == t.quotes[quoteId].Counter(kind.Opposite()) - 1 &&
      after.quotes[quoteId].likesCount + after.quotes[quoteId].dislikesCount
        == t.quotes[quoteId].likesCount + t.quotes[quoteId].dislikesCount
  {
    FindReactionIsTheRow(t.quoteLikes, i, quoteId, userId);
  }

  // ---------------------------------------------------------------------------
  // Invariants and frame

  /** Counters equal row counts, and one row per pair at most, before and after a reaction. */
  lemma ReactionPreservesConsistency(t: Tables, quoteId: nat, userId: nat, kind: Reaction)
    requires Consistent(t) && quoteId in t.quotes
    ensures Consistent(ApplyReaction(t, quoteId, userId, kind))
  {
    var after := ApplyReaction(t, quoteId, userId, kind);
    assert after.quotes.Keys == t.quotes.Keys;
    assert QuotesKeyed(after.quotes, after.nextQuoteId);
    assert CommentsConsistent(after.comments, after.quotes.Keys, after.commentLikes, after.nextCommentId);
    match FindReaction(t.quoteLikes, quoteId, userId)
    case None =>
      InsertKeepsReactionsConsistent(t, quoteId, userId, kind);
    case Some(i) =>
      if t.quoteLikes[i].kind == kind {
        RemoveKeepsReactionsConsistent(t, quoteId, userId, kind, i);
      } else {
        SwitchKeepsReactionsConsistent(t, quoteId, userId, kind, i);
      }
  }

  lemma InsertKeepsReactionsConsistent(t: Tables, quoteId: nat, userId: nat, kind: Reaction)
    requires ReactionsConsistent(t.quotes, t.quoteLikes) && quoteId in t.quotes
    requires FindReaction(t.quoteLikes, quoteId, userId).None?
    ensures var after := ApplyReaction(t, quoteId, userId, kind);
      ReactionsConsistent(after.quotes, after.quoteLikes)
  {
    var rows, quote := t.quoteLikes, t.quotes[quoteId];
    var r := QuoteLike(t.nextQuoteLikeId, quoteId, userId, kind);
    var quotes := t.quotes[quoteId := quote.Bump(kind, 1)];
    assert ApplyReaction(t, quoteId, userId, kind).quoteLikes == rows + [r];
    assert ApplyReaction(t, quoteId, userId, kind).quotes == quotes;
    AppendReaction(rows, r);
    forall id, k: Reaction | id in quotes
      ensures quotes[id].Counter(k) == KindCount(rows + [r], id, k)
    {
      if id == quoteId && k != kind {
        assert k == kind.Opposite();
      }
    }
  }

  lemma RemoveKeepsReactionsConsistent(t: Tables, quoteId: nat, userId: nat, kind: Reaction, i: nat)
    requires ReactionsConsistent(t.quotes, t.quoteLikes) && quoteId in t.quotes
    requires FindReaction(t.quoteLikes, quoteId, userId) == Some(i) && t.quoteLikes[i].kind == kind
    ensures var after := ApplyReaction(t, quoteId, userId, kind);
      ReactionsConsistent(after.quotes, after.quoteLikes)
  {
    var rows, quote := t.quoteLikes, t.quotes[quoteId];
    var rest := RemoveAt(rows, i);
    var quotes := t.quotes[quoteId := quote.Bump(kind, -1)];
    assert ApplyReaction(t, quoteId, userId, kind).quoteLikes == rest;
    assert ApplyReaction(t, quoteId, userId, kind).quotes == quotes;
    RemoveReaction(rows, i);
    forall id, k: Reaction | id in quotes
      ensures quotes[id].Counter(k) == KindCount(rest, id, k)
    {
      if id == quoteId && k != kind {
        assert k == kind.Opposite();
      }
    }
  }

  lemma SwitchKeepsReactionsConsistent(t: Tables, quoteId: nat, userId: nat, kind: Reaction, i: nat)
    requires ReactionsConsistent(t.quotes, t.quoteLikes) && quoteId in t.quotes
    requires FindReaction(t.quoteLikes, quoteId, userId) == Some(i) && t.quoteLikes[i].kind != kind
    ensures var after := ApplyReaction(t, quoteId, userId, kind);
      ReactionsConsistent(after.quotes, after.quoteLikes)
  {
    var rows, quote := t.quoteLikes, t.quotes[quoteId];
    var r := rows[i].(kind := kind);
    var switched := rows[i := r];
    var quotes := t.quotes[quoteId := quote.Bump(kind, 1).Bump(kind.Opposite(), -1)];
    assert ApplyReaction(t, quoteId, userId, kind).quoteLikes == switched;
    assert ApplyReaction(t, quoteId, userId, kind).quotes == quotes;
    ReplaceReaction(rows, i, r);
    forall q: int, u: int
      ensures PairCount(switched, q, u) <= 1
    {
      assert PairCount(switched, q, u) == PairCount(rows, q, u);
    }
    forall id, k: Reaction | id in quotes
      ensures quotes[id].Counter(k) == KindCount(switched, id, k)
    {
      if id == quoteId && k != kind {
        assert k == kind.Opposite();
      }
    }
    forall x | x in switched
      ensures x.quoteId in quotes
    {
      var j :| 0 <= j < |switched| && switched[j] == x;
      assert j == i || x == rows[j];
    }
  }

  /**
   * Only the reacted-on quote and the caller's own row change: every other
   * quote, every other pair's row and every other table stay as they were.
   */
  lemma ReactionLeavesOthers(t: Tables, quoteId: nat, userId: nat, kind: Reaction)
    requires quoteId in t.quotes
    ensures var after := ApplyReaction(t, quoteId, userId, kind);
      after.quotes.Keys == t.quotes.Keys &&
      (forall id :: id in t.quotes && id != quoteId ==> after.quotes[id] == t.quotes[id]) &&
      after.quotes[quoteId].(likesCount := 0, dislikesCount := 0)
        == t.quotes[quoteId].(likesCount := 0, dislikesCount := 0) &&
      OtherReactions(after.quoteLikes, quoteId, userId) == OtherReactions(t.quoteLikes, quoteId, userId) &&
      after.users == t.users && after.categories == t.categories &&
      after.comments == t.comments && after.commentLikes == t.commentLikes
  {
    var rows := t.quoteLikes;
    match FindReaction(rows, quoteId, userId)
    case None =>
      AppendReaction(rows, QuoteLike(t.nextQuoteLikeId, quoteId, userId, kind));
    case Some(i) =>
      if rows[i].kind == kind {
        RemoveReaction(rows, i);
      } else {
        ReplaceReaction(rows, i, rows[i].(kind := kind));
      }
  }

  // ---------------------------------------------------------------------------
  // Two requests in a row

  /** From no reaction, the same request twice restores every table; only a row id has been spent. */
  lemma ReactionTwiceFromAbsent(t: Tables, quoteId: nat, userId: nat, kind: Reaction)
    requires quoteId in t.quotes && UniqueReactions(t.quoteLikes) && PairCount(t.quoteLikes, quoteId, userId) == 0
    ensures ApplyReaction(ApplyReaction(t, quoteId, userId, kind), quoteId, userId, kind)
            == t.(nextQuoteLikeId := t.nextQuoteLikeId + 1)
  {
    var once := ApplyReaction(t, quoteId, userId, kind);
    var r := QuoteLike(t.nextQuoteLikeId, quoteId, userId, kind);
    ReactionOnAbsent(t, quoteId, userId, kind);
    assert once.quoteLikes[|t.quoteLikes|] == r;
    FindReactionIsTheRow(once.quoteLikes, |t.quoteLikes|, quoteId, userId) by {
      AppendReaction(t.quoteLikes, r);
      assert UniqueReactions(once.quoteLikes) by {
        forall q: int, u: int ensures PairCount(once.quoteLikes, q, u) <= 1 {
          if !OfPair(r, q, u) {
            assert PairCount(once.quoteLikes, q, u) == PairCount(t.quoteLikes, q, u);
          }
        }
      }
    }
    assert RemoveAt(once.quoteLikes, |t.quoteLikes|) == t.quoteLikes;
    assert once.quotes[quoteId].Bump(kind, -1) == t.quotes[quoteId];
    assert t.quotes[quoteId := t.quotes[quoteId]] == t.quotes;
  }

  /**
   * Whether or not a reaction of that kind was there, the same request twice
   * leaves every quote's counters as they were.
   */
  lemma ReactionTwiceRestoresCounters(t: Tables, quoteId: nat, userId: nat, kind: Reaction)
    requires Consistent(t) && quoteId in t.quotes
    requires forall i :: 0 <= i < |t.quoteLikes| && OfPair(t.quoteLikes[i], quoteId, userId)
               ==> t.quoteLikes[i].kind == kind
    ensures ApplyReaction(ApplyReaction(t, quoteId, userId, kind), quoteId, userId, kind).quotes == t.quotes
  {
    match FindReaction(t.quoteLikes, quoteId, userId)
    case None =>
      ReactionTwiceFromAbsent(t, quoteId, userId, kind);
    case Some(i) =>
      var once := ApplyReaction(t, quoteId, userId, kind);
      ReactionRepeated(t, quoteId, userId, kind, i);
      ReactionPreservesConsistency(t, quoteId, userId, kind);
      assert once.quotes[quoteId].Bump(kind, 1) == t.quotes[quoteId];
      assert t.quotes[quoteId := t.quotes[quoteId]] == t.quotes;
  }
}
