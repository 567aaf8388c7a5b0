/** `RefreshTokenRepository`: the statements issued against the
    `refresh_tokens` table. */
module RefreshTokenRepository {
  import opened Wrappers
  import opened Tables
  import opened Crypto
  import opened RefreshTokenModel
  import opened Database

  /** `create`: the `UNIQUE` index on `token` is checked as the row is
      inserted, before the foreign key on `user_id`. */
  method Create(db: Db, userId: int, token: Jwt, expiresAt: int) returns (r: Result<int, DbError>)
    requires db.Valid()
    modifies db
    ensures db.Valid()
    ensures db.UsersSame() && db.EventsSame() && db.TicketsSame() && db.RsvpsSame()
    ensures r == Failure(UniqueViolation) <==> exists k | k in old(db.tokens) :: old(db.tokens)[k].token == token
    ensures r == Failure(ForeignKeyViolation) <==>
              (forall k | k in old(db.tokens) :: old(db.tokens)[k].token != token) && userId !in old(db.users)
    ensures r.Failure? ==> db.TokensSame()
    ensures r.Success? ==>
              && r.value == old(db.nextTokenId) && r.value !in old(db.tokens)
              && db.tokens == old(db.tokens)[r.value := RefreshToken(userId, token, expiresAt)]
  {
    if exists k | k in db.tokens :: db.tokens[k].token == token {
      return Failure(UniqueViolation);
    }
    if userId !in db.users {
      return Failure(ForeignKeyViolation);
    }
    var id := db.nextTokenId;
    db.tokens := db.tokens[id := RefreshToken(userId, token, expiresAt)];
    db.nextTokenId := id + 1;
    r := Success(id);
  }

  predicate HasToken(token: Jwt, t: RefreshToken) { t.token == token }

  /** `get`: the stored row with that token, if any. The unique index makes
      `scalar_one_or_none` return at most one row. */
  function Get(tokens: map<int, RefreshToken>, token: Jwt): (r: Option<RefreshToken>)
    ensures r.None? <==> forall k | k in tokens :: tokens[k].token != token
    ensures r.Some? ==> r.value.token == token && exists k | k in tokens :: tokens[k] == r.value
  {
    var rows := Where(tokens, t => HasToken(token, t));
    if rows == [] then None
    else
      assert rows[0] in rows;
      Some(rows[0].1)
  }

  /** The rows that are not of the user. */
  function WithoutUser(tokens: map<int, RefreshToken>, userId: int): (r: map<int, RefreshToken>)
    ensures forall k :: k in r <==> k in tokens && tokens[k].userId != userId
    ensures forall k | k in r :: r[k] == tokens[k]
  {
    map k | k in tokens && tokens[k].userId != userId :: tokens[k]
  }

  /** The rows that do not hold the token. */
  function WithoutToken(tokens: map<int, RefreshToken>, token: Jwt): (r: map<int, RefreshToken>)
    ensures forall k :: k in r <==> k in tokens && tokens[k].token != token
    ensures forall k | k in r :: r[k] == tokens[k]
  {
    map k | k in tokens && tokens[k].token != token :: tokens[k]
  }

  /** `delete`: removes the row with that token, if any. */
  method Delete(db: Db, token: Jwt)
    requires db.Valid()
    modifies db
    ensures db.Valid()
    ensures db.UsersSame() && db.EventsSame() && db.TicketsSame() && db.RsvpsSame()
    ensures db.tokens == WithoutToken(old(db.tokens), token)
    ensures db.nextTokenId == old(db.nextTokenId)
  {
    db.tokens := WithoutToken(db.tokens, token);
  }

  /** `delete_all_for_user`, and `invalidate_all_for_user`, which issues the
      same statement: removes every token of the user. */
  method DeleteAllForUser(db: Db, userId: int)
    requires db.Valid()
    modifies db
    ensures db.Valid()
    ensures db.UsersSame() && db.EventsSame() && db.TicketsSame() && db.RsvpsSame()
    ensures db.tokens == WithoutUser(old(db.tokens), userId)
    ensures db.nextTokenId == old(db.nextTokenId)
  {
    db.tokens := WithoutUser(db.tokens, userId);
  }

  /** After the deletion the user has no token left, so the user's active
      token is none; the token `delete` removes is not found again. */
  lemma DeletionsForget(tokens: map<int, RefreshToken>, userId: int, token: Jwt, now: int)
    ensures ActiveTokenForUser(WithoutUser(tokens, userId), userId, now) == Success(None)
    ensures Get(WithoutToken(tokens, token), token).None?
  {
  }

  /** `scalar_one_or_none` raising `MultipleResultsFound`. */
  datatype QueryError = MultipleResultsFound

  predicate Unexpired(userId: int, now: int, t: RefreshToken)
  {
    t.userId == userId && t.expiresAt > now
  }

  /** `get_active_token_for_user`: the user's one unexpired token, or none.
      The expired-token `DELETE` it issues first is never committed, so the
      table is unchanged; a user with two unexpired tokens makes the query
      raise. */
  function ActiveTokenForUser(tokens: map<int, RefreshToken>, userId: int, now: int)
    : (r: Result<Option<RefreshToken>, QueryError>)
    ensures r == Success(None) <==> forall k | k in tokens :: !Unexpired(userId, now, tokens[k])
    ensures r.Failure? <==> Count(tokens, t => Unexpired(userId, now, t)) > 1
    ensures r.Success? && r.value.Some? ==>
              && Unexpired(userId, now, r.value.value)
              && exists k | k in tokens :: tokens[k] == r.value.value
  {
    var rows := Where(tokens, t => Unexpired(userId, now, t));
    if |rows| == 0 then Success(None)
    else if |rows| == 1 then
      assert rows[0] in rows;
      Success(Some(rows[0].1))
    else Failure(MultipleResultsFound)
  }
}
