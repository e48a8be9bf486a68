/**
 * The part of UserController.uploadUserImage that is logic rather than I/O:
 * the filter keeping the caller's usable roles, and the profile fields set
 * from that filter and from the stored image's name.
 */
module UserController {
  import opened Entities
  import opened UserDetails
  import FileService

  /** The roles that are both active and not deleted. */
  function ActiveRoles(roles: set<Role>): (r: set<Role>)
    ensures r <= roles
    ensures forall role :: role in roles ==> (role in r <==> role.active && !role.deleted)
  {
    set role | role in roles && role.active && !role.deleted
  }

  /**
   * The profile uploadUserImage hands to the update: the stored image name is
   * composed first (its errors come first), then the caller's own record is
   * fetched (NotFound when absent), and its response gets the caller's active
   * roles and the new image name.
   */
  function UploadUserImage(loggedIn: Details, users: map<Id, User>, original: Option<string>, generatedId: string)
    : (r: Result<UserResponse>)
    ensures FileService.UploadFileName(original, generatedId).Err? ==>
      r == Err(FileService.UploadFileName(original, generatedId).error)
    ensures FileService.UploadFileName(original, generatedId).Ok? && loggedIn.id !in users ==>
      r == Err(NotFound)
    ensures r.Ok? <==> FileService.UploadFileName(original, generatedId).Ok? && loggedIn.id in users
    ensures r.Ok? ==>
      && r.value.roles <= loggedIn.roles
      && (forall role :: role in r.value.roles <==> role in loggedIn.roles && role.active && !role.deleted)
      && r.value.imageName == Some(FileService.UploadFileName(original, generatedId).value)
      && r.value.(roles := users[loggedIn.id].roles, imageName := None) == ToResponse(users[loggedIn.id])
  {
    var activeRoles := ActiveRoles(loggedIn.roles);
    match FileService.UploadFileName(original, generatedId)
    case Err(e) => Err(e)
    case Ok(imageName) =>
      if loggedIn.id !in users then Err(NotFound)
      else Ok(ToResponse(users[loggedIn.id]).(roles := activeRoles, imageName := Some(imageName)))
  }

  /** Filtering twice changes nothing more. */
  lemma ActiveRolesIdempotent(roles: set<Role>)
    ensures ActiveRoles(ActiveRoles(roles)) == ActiveRoles(roles)
  {
  }

  /** The filtered roles grant no authority the unfiltered ones did not. */
  lemma ActiveRolesGrantNoNewAuthority(roles: set<Role>)
    ensures RoleNames(ActiveRoles(roles)) <= RoleNames(roles)
  {
  }
}
