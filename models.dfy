/**
 * The records of the quotes site and the request bodies the handlers bind,
 * with the length bounds their binding tags declare. Lengths are counted in
 * characters (runes), as the validator counts them; a `string` here is a
 * sequence of runes. Timestamps are left out, except a comment's creation
 * time, by which comments are listed.
 */
module Models {
  import opened Wrappers

  /** The kind of a quote reaction; the table's check constraint admits exactly these two. */
  datatype Reaction = Like | Dislike
  {
    function Opposite(): (r: Reaction)
      ensures r != this
    {
      if this == Like then Dislike else Like
    }
  }

  datatype User = User(id: nat, username: string, email: string, passwordHash: string)

  /** Owner and category are nullable references; the two counters are denormalised reaction counts. */
  datatype Quote = Quote(
    id: nat,
    content: string,
    author: string,
    userId: Option<nat>,
    categoryId: Option<nat>,
    likesCount: int,
    dislikesCount: int)
  {
    /** The counter that tracks reactions of kind `k`. */
    function Counter(k: Reaction): int
    {
      if k == Like then likesCount else dislikesCount
    }

    /** This quote with the counter of kind `k` moved by `delta` and nothing else changed. */
    function Bump(k: Reaction, delta: int): (q: Quote)
      ensures q.Counter(k) == Counter(k) + delta
      ensures q.Counter(k.Opposite()) == Counter(k.Opposite())
      ensures q.(likesCount := likesCount, dislikesCount := dislikesCount) == this
    {
      if k == Like then this.(likesCount := likesCount + delta)
      else this.(dislikesCount := dislikesCount + delta)
    }
  }

  datatype QuoteLike = QuoteLike(id: nat, quoteId: nat, userId: nat, kind: Reaction)

  /** A comment always belongs to one quote; its owner is nullable. */
  datatype Comment = Comment(
    id: nat,
    content: string,
    quoteId: nat,
    userId: Option<nat>,
    likesCount: int,
    createdAt: int)

  datatype CommentLike = CommentLike(id: nat, commentId: nat, userId: nat)

  datatype QuoteCreateRequest = QuoteCreateRequest(content: string, author: string, categoryId: nat)

  /** Every field may be left out; an empty string or a zero id stands for "absent". */
  datatype QuoteUpdateRequest = QuoteUpdateRequest(content: string, author: string, categoryId: nat)

  datatype CommentCreateRequest = CommentCreateRequest(content: string)

  /** The body an owner sends to edit a comment; it carries the same bound as a new one. */
  datatype CommentUpdateRequest = CommentUpdateRequest(content: string)

  datatype RegisterRequest = RegisterRequest(username: string, email: string, password: string)

  datatype LoginRequest = LoginRequest(email: string, password: string)

  const MaxQuoteContent: nat := 1000
  const MaxAuthor: nat := 100
  const MaxCommentContent: nat := 500
  const MinUsername: nat := 3
  const MaxUsername: nat := 50
  const MinPassword: nat := 6

  /** `binding:"required,min=1,max=1000"` and friends: present and within the bounds. */
  predicate LengthWithin(s: string, lo: nat, hi: nat)
  {
    lo <= |s| <= hi
  }

  /** `binding:"omitempty,min=1,max=…"`: absent, or present and within the bounds. */
  predicate OptionalLengthWithin(s: string, lo: nat, hi: nat)
  {
    s == [] || LengthWithin(s, lo, hi)
  }

  /** A body that may create a quote may also be sent to update one. */
  function ValidQuoteCreate(r: QuoteCreateRequest): (b: bool)
    ensures b ==> ValidQuoteUpdate(QuoteUpdateRequest(r.content, r.author, r.categoryId))
    ensures b ==> r.content != [] && r.author != [] && r.categoryId != 0
    ensures |r.content| == 1 && |r.author| == 1 && r.categoryId != 0 ==> b
    ensures |r.content| == MaxQuoteContent && |r.author| == MaxAuthor && r.categoryId != 0 ==> b
  {
    LengthWithin(r.content, 1, MaxQuoteContent) &&
    LengthWithin(r.author, 1, MaxAuthor) &&
    r.categoryId != 0
  }

  /** An empty patch always binds; a text field that is sent keeps within its bound. */
  function ValidQuoteUpdate(r: QuoteUpdateRequest): (b: bool)
    ensures r.content == [] && r.author == [] ==> b
    ensures b ==> |r.content| <= MaxQuoteContent && |r.author| <= MaxAuthor
    ensures |r.content| == MaxQuoteContent && |r.author| == MaxAuthor ==> b
  {
    OptionalLengthWithin(r.content, 1, MaxQuoteContent) &&
    OptionalLengthWithin(r.author, 1, MaxAuthor)
  }

  function ValidCommentContent(content: string): (b: bool)
    ensures content == [] ==> !b
    ensures |content| > MaxCommentContent ==> !b
    ensures |content| == MaxCommentContent ==> b
    ensures |content| == 1 ==> b
  {
    LengthWithin(content, 1, MaxCommentContent)
  }

  /** `isEmail` stands for the validation library's e-mail format check. */
  function ValidRegister(r: RegisterRequest, isEmail: string -> bool): (b: bool)
    ensures b ==> ValidLogin(LoginRequest(r.email, r.password), isEmail)
    ensures b ==> MinUsername <= |r.username| <= MaxUsername
    ensures |r.password| < MinPassword ==> !b
    ensures |r.username| == MinUsername && r.email != [] && isEmail(r.email) && |r.password| == MinPassword ==> b
  {
    LengthWithin(r.username, MinUsername, MaxUsername) &&
    r.email != [] && isEmail(r.email) &&
    |r.password| >= MinPassword
  }

  function ValidLogin(r: LoginRequest, isEmail: string -> bool): (b: bool)
    ensures b ==> isEmail(r.email) && r.password != []
    ensures r.email == [] ==> !b
    ensures r.email != [] && isEmail(r.email) && |r.password| == 1 ==> b
  {
    r.email != [] && isEmail(r.email) && r.password != []
  }

  /** Ownership check shared by the update and delete handlers: a null owner matches nobody. */
  function OwnedBy(owner: Option<nat>, caller: nat): (b: bool)
    ensures owner.None? ==> !b
    ensures b <==> owner == Some(caller)
  {
    owner.Some? && owner.value == caller
  }
}
