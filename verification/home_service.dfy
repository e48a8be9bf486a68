/**
 * HomeServiceImpl.verifyAccount: e-mail verification of a registered user
 * by the code sent in the verification link.
 */
module HomeService {
  import opened Entities
  import opened Store

  /** The code a user still has to confirm: none when verified, or when the status itself is null. */
  function PendingCode(u: User): Option<string> {
    if u.status.Some? then u.status.value.verificationCode else None
  }

  /** The user once the pending code has been confirmed. */
  function Verified(u: User): (v: User)
    requires u.status.Some?
    ensures v.status.Some? && v.status.value.isActive && PendingCode(v) == None
    ensures v.(status := u.status) == u
    ensures v.status.value.passwordResetToken == u.status.value.passwordResetToken
  {
    u.(status := Some(u.status.value.(isActive := true, verificationCode := None)))
  }

  /**
   * verifyAccount(uid, code): Ok(true) and the success mail when `code` is the
   * pending one; Ok(false) and nothing changed on a wrong code.
   */
  method VerifyAccount(db: Db, uid: Id, code: string) returns (r: Result<bool>)
    requires db.Valid()
    modifies db
    ensures db.Valid()
    ensures uid !in old(db.users) ==> r == Err(NotFound)
    ensures uid in old(db.users) && old(db.users[uid]).status.None? ==> r == Err(NullReference)
    ensures uid in old(db.users) && old(db.users[uid]).status.Some? && PendingCode(old(db.users[uid])).None? ==>
      r == Err(AlreadyVerified)
    ensures r == Ok(true) <==> uid in old(db.users) && PendingCode(old(db.users[uid])) == Some(code)
    ensures r == Ok(false) <==>
      uid in old(db.users) && PendingCode(old(db.users[uid])).Some? && PendingCode(old(db.users[uid])) != Some(code)
    ensures r == Ok(true) ==>
      var u := old(db.users[uid]);
      db.State() == old(db.State()).(
        users := old(db.users)[uid := Verified(u)],
        outbox := old(db.outbox) + [VerificationSucceeded(u.email, u.name)])
    ensures r != Ok(true) ==> unchanged(db)
  {
    if uid !in db.users {
      return Err(NotFound);
    }
    var user := db.users[uid];
    if user.status.None? {
      return Err(NullReference);
    }
    if user.status.value.verificationCode.None? {
      return Err(AlreadyVerified);
    }
    if user.status.value.verificationCode.value == code {
      var status := user.status.value.(isActive := true);
      status := status.(verificationCode := None);
      user := user.(status := Some(status));
      db.users := db.users[uid := user];
      db.outbox := db.outbox + [VerificationSucceeded(user.email, user.name)];
      r := Ok(true);
    } else {
      r := Ok(false);
    }
  }

  /** A verification code works once: the verified user has no code left to confirm. */
  lemma VerificationIsSingleUse(u: User, code: string)
    requires PendingCode(u) == Some(code)
    ensures PendingCode(Verified(u)) == None
    ensures Verified(u).status.value.isActive
  {
  }

  /** Replaying the link after a successful verification is refused as already verified. */
  method VerifyTwice(db: Db, uid: Id, code: string) returns (first: Result<bool>, second: Result<bool>)
    requires db.Valid()
    modifies db
    ensures first == Ok(true) ==> second == Err(AlreadyVerified)
    ensures first.Err? ==> second == first
  {
    first := VerifyAccount(db, uid, code);
    second := VerifyAccount(db, uid, code);
  }
}
