/**
 * RefreshTokenController.regenerateToken: trading a refresh token for a new
 * access token and a rotated refresh token. The JWT provider is the
 * parameter `jwt`, applied to the freshly loaded principal details (whose
 * roles carry the authorities).
 */
module RefreshTokenController {
  import opened Entities
  import opened Store
  import opened UserDetails
  import opened RefreshTokens

  /** The body of the response: access token, rotated refresh token and the linked profiles. */
  datatype TokenResponse = TokenResponse(
    accessToken: string,
    refresh: TokenDto,
    user: Option<UserResponse>,
    worker: Option<Worker>)

  /**
   * regenerateToken, in the source's order: look the token up, verify its
   * expiry, read the linked user and worker, pick the identity, reload the
   * principal, issue the access token, and only then rotate the refresh token.
   * The linked profiles are read with the corrected lookups.
   */
  method RegenerateToken(db: Db, value: string, newValue: string, now: Instant, jwt: Details -> string)
    returns (r: Result<TokenResponse>)
    requires db.Valid()
    modifies db
    ensures db.Valid()
    // An unknown value aborts with nothing changed.
    ensures FindByToken(old(db.tokens), value).Err? ==>
      r == Err(FindByToken(old(db.tokens), value).error) && unchanged(db)
    // An expired token is deleted and nothing is issued.
    ensures FindByToken(old(db.tokens), value).Ok? && FindByToken(old(db.tokens), value).value.expiry < now ==>
      && r == Err(TokenExpired)
      && db.State() == old(db.State()).(tokens := old(db.tokens) - {FindByToken(old(db.tokens), value).value.id})
    // Any later failure leaves the store as it was.
    ensures (FindByToken(old(db.tokens), value).Ok? && !(FindByToken(old(db.tokens), value).value.expiry < now)
             && r.Err?) ==> unchanged(db)
    // Each later step that fails aborts with its own error; when every step
    // resolves, the exchange succeeds.
    ensures FindByToken(old(db.tokens), value).Ok? && !(FindByToken(old(db.tokens), value).value.expiry < now) ==>
      var user := LinkedUser(old(db.tokens), old(db.users), value);
      && (user.Err? ==> r == Err(user.error))
      && (user.Ok? ==>
            var worker := LinkedWorker(old(db.tokens), old(db.workers), value);
            && (worker.Err? ==> r == Err(worker.error))
            && (worker.Ok? ==>
                  var who := IdentityOf(user.value, worker.value);
                  && (who.Err? ==> r == Err(who.error))
                  && (who.Ok? ==>
                        var p := ResolvePrincipal(old(db.users), old(db.workers), who.value.username, who.value.email);
                        && (p.Err? ==> r == Err(p.error))
                        && (p.Ok? ==> r.Ok?))))
    ensures r.Ok? ==>
      && FindByToken(old(db.tokens), value).Ok? && !(FindByToken(old(db.tokens), value).value.expiry < now)
      && LinkedUser(old(db.tokens), old(db.users), value).Ok?
      && LinkedWorker(old(db.tokens), old(db.workers), value).Ok?
      && var user := LinkedUser(old(db.tokens), old(db.users), value).value;
         var worker := LinkedWorker(old(db.tokens), old(db.workers), value).value;
         && IdentityOf(user, worker).Ok?
         && var who := IdentityOf(user, worker).value;
            && ResolvePrincipal(old(db.users), old(db.workers), who.username, who.email).Ok?
            && var p := ResolvePrincipal(old(db.users), old(db.workers), who.username, who.email).value;
               var issued := IdentityOfPrincipal(p);
               var id := IssuedId(old(db.tokens), old(db.nextTokenId), issued.username);
               && r.value.accessToken == jwt(BuildFromPrincipal(p, old(db.workers)))
               && r.value.refresh == TokenDto(id, newValue, now + RefreshTtl)
               && r.value.user == user
               && r.value.worker == worker
               && db.State() == old(db.State()).(
                    tokens := AfterIssue(old(db.tokens), old(db.nextTokenId), issued.username, issued.email,
                                         newValue, now + RefreshTtl),
                    nextTokenId := if id in old(db.tokens) then old(db.nextTokenId) else old(db.nextTokenId) + 1)
  {
    var found := FindByToken(db.tokens, value);
    if found.Err? {
      return Err(found.error);
    }
    var verified := VerifyRefreshToken(db, found.value, now);
    if verified.Err? {
      return Err(verified.error);
    }
    var user := LinkedUser(db.tokens, db.users, verified.value.token);
    if user.Err? {
      return Err(user.error);
    }
    var worker := LinkedWorker(db.tokens, db.workers, verified.value.token);
    if worker.Err? {
      return Err(worker.error);
    }
    var who := IdentityOf(user.value, worker.value);
    if who.Err? {
      return Err(who.error);
    }
    var principal := ResolvePrincipal(db.users, db.workers, who.value.username, who.value.email);
    if principal.Err? {
      return Err(principal.error);
    }
    var details := BuildFromPrincipal(principal.value, db.workers);
    var accessToken := jwt(details);
    var refresh := CreateRefreshToken(db, who.value.username, who.value.email, newValue, now);
    r := Ok(TokenResponse(accessToken, refresh.value, user.value, worker.value));
  }
}
