/**
 * RefreshTokenServiceImpl: issuing and rotating the refresh token of a
 * principal (at most one record per username), looking a token up by its
 * value, the expiry check, and the principal a token is linked to.
 * The new token value (a random UUID in the source) and the current time
 * are parameters.
 */
module RefreshTokens {
  import opened Entities
  import opened Store

  /** Lifetime of a refresh token: two days, in seconds. */
  const RefreshTtl: int := 2 * 24 * 60 * 60

  /** The username and e-mail a refresh token is issued for. */
  datatype Identity = Identity(username: string, email: string)

  function IdentityOfPrincipal(p: Principal): Identity {
    Identity(p.Username(), p.Email())
  }

  /**
   * The principal behind a (username-or-e-mail, e-mail) pair: the user
   * matching either key, else the worker with that e-mail. Several matching
   * users make the single-result finder fail before the worker is consulted.
   */
  function ResolvePrincipal(users: map<Id, User>, workers: map<Id, Worker>, usernameOrEmail: string, email: string)
    : (r: Result<Principal>)
    requires UniqueWorkerKeys(workers)
    ensures r == Err(NonUniqueResult) <==> |UsersByUsernameOrEmail(users, usernameOrEmail, email)| > 1
    ensures r == Err(NotFound) <==>
      UsersByUsernameOrEmail(users, usernameOrEmail, email) == {} && !WorkerEmailTaken(workers, email)
    ensures r.Err? ==> r.error == NonUniqueResult || r.error == NotFound
    ensures r.Ok? && r.value.UserPrincipal? ==>
      && |UsersByUsernameOrEmail(users, usernameOrEmail, email)| == 1
      && exists id :: id in users && users[id] == r.value.user
                      && (users[id].username == usernameOrEmail || users[id].email == email)
    ensures r.Ok? && r.value.WorkerPrincipal? ==>
      && UsersByUsernameOrEmail(users, usernameOrEmail, email) == {}
      && r.value.worker.email == email
      && exists id :: id in workers && workers[id] == r.value.worker
  {
    match Single(UsersByUsernameOrEmail(users, usernameOrEmail, email))
    case ManyRows => Err(NonUniqueResult)
    case OneRow(id) => Ok(UserPrincipal(users[id]))
    case NoRow =>
      match WorkerByEmail(workers, email)
      case Some(id) => Ok(WorkerPrincipal(workers[id]))
      case None => Err(NotFound)
  }

  // ---------------------------------------------------------------------
  // Create or rotate.
  // ---------------------------------------------------------------------

  /** The key of the record createRefreshToken writes: the username's existing record, else a fresh key. */
  function IssuedId(tokens: map<Id, RefreshToken>, nextId: Id, username: string): (r: Id)
    requires OneTokenPerUsername(tokens) && nextId !in tokens
    ensures r in tokens ==> tokens[r].username == username
    ensures r !in tokens ==> r == nextId && forall id :: id in tokens ==> tokens[id].username != username
  {
    match TokenByUsername(tokens, username)
    case Some(id) => id
    case None => nextId
  }

  /**
   * The token table after createRefreshToken for `username`: a new record
   * under `nextId`, or the existing record with only its value and expiry
   * overwritten.
   */
  function AfterIssue(tokens: map<Id, RefreshToken>, nextId: Id, username: string, email: string,
                      newValue: string, expiry: Instant): map<Id, RefreshToken>
    requires OneTokenPerUsername(tokens)
  {
    match TokenByUsername(tokens, username)
    case None => tokens[nextId := RefreshToken(nextId, newValue, expiry, username, email, None, None)]
    case Some(id) => tokens[id := tokens[id].(token := newValue, expiry := expiry)]
  }

  /** Issuing keeps at most one record per username. */
  lemma IssueKeepsOneTokenPerUsername(tokens: map<Id, RefreshToken>, nextId: Id, username: string, email: string,
                                      newValue: string, expiry: Instant)
    requires OneTokenPerUsername(tokens) && nextId !in tokens
    ensures OneTokenPerUsername(AfterIssue(tokens, nextId, username, email, newValue, expiry))
  {
    var after := AfterIssue(tokens, nextId, username, email, newValue, expiry);
    var issued := IssuedId(tokens, nextId, username);
    assert forall id :: id in after ==> after[id].username == (if id == issued then username else tokens[id].username);
    forall a, b | a in after && b in after && a != b
      ensures after[a].username != after[b].username
    {
      if a != issued && b != issued {
        assert a in tokens && b in tokens;
      }
    }
  }

  /**
   * After issuing, the username has exactly one record, under IssuedId, and it
   * holds the new value and the new expiry.
   */
  lemma IssueHoldsFreshValue(tokens: map<Id, RefreshToken>, nextId: Id, username: string, email: string,
                             newValue: string, expiry: Instant)
    requires OneTokenPerUsername(tokens) && nextId !in tokens
    ensures var after := AfterIssue(tokens, nextId, username, email, newValue, expiry);
      var id := IssuedId(tokens, nextId, username);
      && id in after
      && after[id].token == newValue && after[id].expiry == expiry && after[id].username == username
      && (forall other :: other in after && after[other].username == username ==> other == id)
  {
    IssueKeepsOneTokenPerUsername(tokens, nextId, username, email, newValue, expiry);
  }

  /**
   * Issuing touches one record only. A username without a record gets a new
   * record with the caller's e-mail and no links; an existing record keeps
   * its key, username, e-mail and links, and no second record appears.
   */
  lemma IssueLeavesOthers(tokens: map<Id, RefreshToken>, nextId: Id, username: string, email: string,
                          newValue: string, expiry: Instant)
    requires OneTokenPerUsername(tokens) && nextId !in tokens
    ensures var after := AfterIssue(tokens, nextId, username, email, newValue, expiry);
      var id := IssuedId(tokens, nextId, username);
      && after.Keys == tokens.Keys + {id}
      && (forall other :: other in tokens && other != id ==> other in after && after[other] == tokens[other])
      && (id in tokens ==> after.Keys == tokens.Keys && after[id] == tokens[id].(token := newValue, expiry := expiry))
      && (id !in tokens ==> id == nextId && after[id] == RefreshToken(nextId, newValue, expiry, username, email, None, None))
  {
  }

  /** Rotation retires the old value: no record holds it for that username any more. */
  lemma RotationRetiresOldValue(tokens: map<Id, RefreshToken>, nextId: Id, username: string, email: string,
                                newValue: string, expiry: Instant, id: Id)
    requires OneTokenPerUsername(tokens) && nextId !in tokens
    requires id in tokens && tokens[id].username == username && tokens[id].token != newValue
    ensures var after := AfterIssue(tokens, nextId, username, email, newValue, expiry);
      forall other :: other in TokensWithValue(after, tokens[id].token) ==> after[other].username != username
  {
    IssueHoldsFreshValue(tokens, nextId, username, email, newValue, expiry);
  }

  /**
   * createRefreshToken(usernameOrEmail, email): resolves the principal, then
   * creates or rotates the record for the principal's username, valid for
   * two days from `now`.
   */
  method CreateRefreshToken(db: Db, usernameOrEmail: string, email: string, newValue: string, now: Instant)
    returns (r: Result<TokenDto>)
    requires db.Valid()
    modifies db
    ensures db.Valid()
    ensures r.Ok? <==> ResolvePrincipal(old(db.users), old(db.workers), usernameOrEmail, email).Ok?
    ensures r.Err? ==>
      && r.error == ResolvePrincipal(old(db.users), old(db.workers), usernameOrEmail, email).error
      && unchanged(db)
    ensures r.Ok? ==>
      var who := IdentityOfPrincipal(ResolvePrincipal(old(db.users), old(db.workers), usernameOrEmail, email).value);
      var id := IssuedId(old(db.tokens), old(db.nextTokenId), who.username);
      && r.value == TokenDto(id, newValue, now + RefreshTtl)
      && db.State() == old(db.State()).(
           tokens := AfterIssue(old(db.tokens), old(db.nextTokenId), who.username, who.email, newValue, now + RefreshTtl),
           nextTokenId := if id in old(db.tokens) then old(db.nextTokenId) else old(db.nextTokenId) + 1)
  {
    var principal := ResolvePrincipal(db.users, db.workers, usernameOrEmail, email);
    if principal.Err? {
      return Err(principal.error);
    }
    var identifier := principal.value.Username();
    var emails := principal.value.Email();
    IssueKeepsOneTokenPerUsername(db.tokens, db.nextTokenId, identifier, emails, newValue, now + RefreshTtl);
    var existing := TokenByUsername(db.tokens, identifier);
    var record: RefreshToken;
    if existing.None? {
      record := RefreshToken(db.nextTokenId, newValue, now + RefreshTtl, identifier, emails, None, None);
      db.nextTokenId := db.nextTokenId + 1;
    } else {
      record := db.tokens[existing.value];
      record := record.(token := newValue);
      record := record.(expiry := now + RefreshTtl);
    }
    db.tokens := db.tokens[record.id := record];
    r := Ok(ToDto(record));
  }

  // ---------------------------------------------------------------------
  // Lookup and expiry.
  // ---------------------------------------------------------------------

  /** findByToken: the record holding `value`. */
  function FindByToken(tokens: map<Id, RefreshToken>, value: string): (r: Result<TokenDto>)
    ensures r == Err(NotFound) <==> TokensWithValue(tokens, value) == {}
    ensures r == Err(NonUniqueResult) <==> |TokensWithValue(tokens, value)| > 1
    ensures r.Ok? ==> r.value.token == value && exists id :: id in tokens && r.value == ToDto(tokens[id])
  {
    match Single(TokensWithValue(tokens, value))
    case NoRow => Err(NotFound)
    case ManyRows => Err(NonUniqueResult)
    case OneRow(id) => Ok(ToDto(tokens[id]))
  }

  /**
   * verifyRefreshToken(dto): a token whose expiry is strictly before `now` is
   * deleted (by its key; an absent key deletes nothing) and refused; any other
   * token is handed back as it came.
   */
  method VerifyRefreshToken(db: Db, dto: TokenDto, now: Instant) returns (r: Result<TokenDto>)
    requires db.Valid()
    modifies db
    ensures db.Valid()
    ensures r.Err? <==> dto.expiry < now
    ensures r.Err? ==> r.error == TokenExpired && db.State() == old(db.State()).(tokens := old(db.tokens) - {dto.id})
    ensures r.Ok? ==> r.value == dto && unchanged(db)
  {
    if dto.expiry < now {
      db.tokens := db.tokens - {dto.id};
      return Err(TokenExpired);
    }
    r := Ok(dto);
  }

  /** Once an expired token has been verified, looking its value up again finds nothing. */
  lemma ExpiredTokenIsGone(tokens: map<Id, RefreshToken>, value: string, dto: TokenDto)
    requires forall id :: id in tokens ==> tokens[id].id == id
    requires FindByToken(tokens, value) == Ok(dto)
    ensures FindByToken(tokens - {dto.id}, value) == Err(NotFound)
  {
    var id :| id in tokens && dto == ToDto(tokens[id]);
    assert TokensWithValue(tokens, value) == {id};
    assert TokensWithValue(tokens - {dto.id}, value) == {};
  }

  // ---------------------------------------------------------------------
  // The principal linked to a token.
  // ---------------------------------------------------------------------

  /**
   * getUser as written: the linked user's profile, dereferencing the link
   * unconditionally, so a token without a user link fails. A link to a row
   * that is gone fails as not found.
   */
  function GetUser(tokens: map<Id, RefreshToken>, users: map<Id, User>, value: string): (r: Result<UserResponse>)
    ensures r.Ok? ==> exists id :: id in tokens && tokens[id].token == value && tokens[id].user.Some?
    ensures TokensWithValue(tokens, value) == {} ==> r == Err(NotFound)
    ensures |TokensWithValue(tokens, value)| > 1 ==> r == Err(NonUniqueResult)
    ensures Single(TokensWithValue(tokens, value)).OneRow? ==>
      var record := tokens[Single(TokensWithValue(tokens, value)).id];
      && (record.user.None? ==> r == Err(NullReference))
      && (record.user.Some? && record.user.value in users ==> r == Ok(ToResponse(users[record.user.value])))
      && (record.user.Some? && record.user.value !in users ==> r == Err(NotFound))
  {
    match Single(TokensWithValue(tokens, value))
    case NoRow => Err(NotFound)
    case ManyRows => Err(NonUniqueResult)
    case OneRow(id) =>
      match tokens[id].user
      case None => Err(NullReference)
      case Some(uid) => if uid in users then Ok(ToResponse(users[uid])) else Err(NotFound)
  }

  /**
   * getWorker as written: the linked worker, dereferencing the link
   * unconditionally. The worker record stands for the worker's response
   * object, whose class is not part of this model.
   */
  function GetWorker(tokens: map<Id, RefreshToken>, workers: map<Id, Worker>, value: string): (r: Result<Worker>)
    ensures r.Ok? ==> exists id :: id in tokens && tokens[id].token == value && tokens[id].worker.Some?
    ensures TokensWithValue(tokens, value) == {} ==> r == Err(NotFound)
    ensures |TokensWithValue(tokens, value)| > 1 ==> r == Err(NonUniqueResult)
    ensures Single(TokensWithValue(tokens, value)).OneRow? ==>
      var record := tokens[Single(TokensWithValue(tokens, value)).id];
      && (record.worker.None? ==> r == Err(NullReference))
      && (record.worker.Some? && record.worker.value in workers ==> r == Ok(workers[record.worker.value]))
      && (record.worker.Some? && record.worker.value !in workers ==> r == Err(NotFound))
  {
    match Single(TokensWithValue(tokens, value))
    case NoRow => Err(NotFound)
    case ManyRows => Err(NonUniqueResult)
    case OneRow(id) =>
      match tokens[id].worker
      case None => Err(NullReference)
      case Some(wid) => if wid in workers then Ok(workers[wid]) else Err(NotFound)
  }

  /** getUser as evidently intended: a missing link is an absent user, not a failure. */
  function LinkedUser(tokens: map<Id, RefreshToken>, users: map<Id, User>, value: string)
    : (r: Result<Option<UserResponse>>)
    ensures r == Err(NotFound) <==>
      TokensWithValue(tokens, value) == {} || GetUser(tokens, users, value) == Err(NotFound)
    ensures r == Err(NonUniqueResult) <==> GetUser(tokens, users, value) == Err(NonUniqueResult)
    ensures r == Ok(None) <==> GetUser(tokens, users, value) == Err(NullReference)
    ensures forall u :: r == Ok(Some(u)) <==> GetUser(tokens, users, value) == Ok(u)
  {
    match Single(TokensWithValue(tokens, value))
    case NoRow => Err(NotFound)
    case ManyRows => Err(NonUniqueResult)
    case OneRow(id) =>
      match tokens[id].user
      case None => Ok(None)
      case Some(uid) => if uid in users then Ok(Some(ToResponse(users[uid]))) else Err(NotFound)
  }

  /** getWorker as evidently intended: a missing link is an absent worker, not a failure. */
  function LinkedWorker(tokens: map<Id, RefreshToken>, workers: map<Id, Worker>, value: string)
    : (r: Result<Option<Worker>>)
    ensures r == Err(NotFound) <==>
      TokensWithValue(tokens, value) == {} || GetWorker(tokens, workers, value) == Err(NotFound)
    ensures r == Err(NonUniqueResult) <==> GetWorker(tokens, workers, value) == Err(NonUniqueResult)
    ensures r == Ok(None) <==> GetWorker(tokens, workers, value) == Err(NullReference)
    ensures forall w :: r == Ok(Some(w)) <==> GetWorker(tokens, workers, value) == Ok(w)
  {
    match Single(TokensWithValue(tokens, value))
    case NoRow => Err(NotFound)
    case ManyRows => Err(NonUniqueResult)
    case OneRow(id) =>
      match tokens[id].worker
      case None => Ok(None)
      case Some(wid) => if wid in workers then Ok(Some(workers[wid])) else Err(NotFound)
  }

  /**
   * The identity regenerateToken re-issues for: the user's username and e-mail
   * when a user is present, else the worker's; neither present dereferences null.
   */
  function IdentityOf(user: Option<UserResponse>, worker: Option<Worker>): (r: Result<Identity>)
    ensures r.Err? <==> user.None? && worker.None?
    ensures r.Err? ==> r.error == NullReference
    ensures user.Some? ==> r == Ok(Identity(user.value.username, user.value.email))
    ensures user.None? && worker.Some? ==> r == Ok(Identity(worker.value.username, worker.value.email))
  {
    if user.Some? then Ok(Identity(user.value.username, user.value.email))
    else if worker.Some? then Ok(Identity(worker.value.username, worker.value.email))
    else Err(NullReference)
  }

  /**
   * As written, both lookups succeed only for a token linked to a user and to
   * a worker at once: a token linked to a user alone fails in getWorker.
   */
  lemma {:induction false} AsWrittenNeedsBothLinks(tokens: map<Id, RefreshToken>, users: map<Id, User>,
                                                   workers: map<Id, Worker>, value: string, id: Id)
    requires TokensWithValue(tokens, value) == {id}
    requires tokens[id].user.Some? && tokens[id].user.value in users && tokens[id].worker.None?
    ensures GetUser(tokens, users, value) == Ok(ToResponse(users[tokens[id].user.value]))
    ensures GetWorker(tokens, workers, value) == Err(NullReference)
  {
    assert Single(TokensWithValue(tokens, value)) == OneRow(id);
  }

  /**
   * Corrected, the same user-only token yields the user's identity, which is
   * what the null test on the user in regenerateToken is there to choose.
   */
  lemma {:induction false} CorrectedUserOnlyTokenHasIdentity(tokens: map<Id, RefreshToken>, users: map<Id, User>,
                                                             workers: map<Id, Worker>, value: string, id: Id)
    requires TokensWithValue(tokens, value) == {id}
    requires tokens[id].user.Some? && tokens[id].user.value in users && tokens[id].worker.None?
    ensures var u := users[tokens[id].user.value];
      && LinkedWorker(tokens, workers, value) == Ok(None)
      && LinkedUser(tokens, users, value) == Ok(Some(ToResponse(u)))
      && IdentityOf(LinkedUser(tokens, users, value).value, LinkedWorker(tokens, workers, value).value)
         == Ok(Identity(u.username, u.email))
  {
    assert Single(TokensWithValue(tokens, value)) == OneRow(id);
  }

  /** A worker-only token likewise yields the worker's identity once corrected. */
  lemma {:induction false} CorrectedWorkerOnlyTokenHasIdentity(tokens: map<Id, RefreshToken>, users: map<Id, User>,
                                                               workers: map<Id, Worker>, value: string, id: Id)
    requires TokensWithValue(tokens, value) == {id}
    requires tokens[id].worker.Some? && tokens[id].worker.value in workers && tokens[id].user.None?
    ensures var w := workers[tokens[id].worker.value];
      && GetUser(tokens, users, value) == Err(NullReference)
      && IdentityOf(LinkedUser(tokens, users, value).value, LinkedWorker(tokens, workers, value).value)
         == Ok(Identity(w.username, w.email))
  {
    assert Single(TokensWithValue(tokens, value)) == OneRow(id);
  }

  /**
   * A record created by createRefreshToken carries no link, so even the
   * corrected lookups give no identity for it.
   */
  lemma {:induction false} IssuedRecordHasNoIdentity(tokens: map<Id, RefreshToken>, nextId: Id, username: string,
                                                     email: string, newValue: string, expiry: Instant,
                                                     users: map<Id, User>, workers: map<Id, Worker>)
    requires OneTokenPerUsername(tokens) && nextId !in tokens
    requires forall id :: id in tokens ==> tokens[id].token != newValue
    requires forall id :: id in tokens ==> tokens[id].username != username
    ensures var after := AfterIssue(tokens, nextId, username, email, newValue, expiry);
      LinkedUser(after, users, newValue) == Ok(None) && LinkedWorker(after, workers, newValue) == Ok(None)
  {
    var after := AfterIssue(tokens, nextId, username, email, newValue, expiry);
    assert TokenByUsername(tokens, username).None?;
    assert TokensWithValue(after, newValue) == {nextId};
    assert Single(TokensWithValue(after, newValue)) == OneRow(nextId);
  }
}
