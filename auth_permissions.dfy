/** The GraphQL permission classes: each `has_permission` looks only at the
    `current_user` of the request context, absent for an anonymous request.
    The warning logged on a refusal has no effect on the result. */
module AuthPermissions {
  import opened Wrappers
  import UserModel
  import opened UserSchema

  /** `IsAuthenticated.has_permission`. */
  function IsAuthenticated(current: Option<UserModel.User>): (ok: bool)
    ensures ok <==> current.Some?
  {
    current != None
  }

  /** `IsAdmin.has_permission`. */
  function IsAdmin(current: Option<UserModel.User>): (ok: bool)
    ensures ok <==> current.Some? && current.value.role == Admin
  {
    match current
    case None => false
    case Some(user) => user.role == Admin
  }

  /** `IsOrganizer.has_permission`. */
  function IsOrganizer(current: Option<UserModel.User>): (ok: bool)
    ensures ok <==> current.Some? && current.value.role == Organizer
  {
    match current
    case None => false
    case Some(user) => user.role == Organizer
  }

  /** Roles are distinct, so no user passes both role checks, and passing
      either implies being authenticated. Organizer-only operations are
      therefore closed to administrators. */
  lemma RoleChecksExclude(current: Option<UserModel.User>)
    ensures !(IsAdmin(current) && IsOrganizer(current))
    ensures IsAdmin(current) || IsOrganizer(current) ==> IsAuthenticated(current)
  {
  }

  /** An attendee, the role every account registers with, passes only the
      authentication check. */
  lemma AttendeePassesOnlyAuthentication(user: UserModel.User)
    requires user.role == Attendee
    ensures IsAuthenticated(Some(user)) && !IsAdmin(Some(user)) && !IsOrganizer(Some(user))
  {
  }
}
