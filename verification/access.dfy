/**
 * The role gate wrapped around every staff and member view: the view runs
 * only for a user who has a member profile whose role is among the allowed
 * role names; every other request gets a forbidden response. The roles form
 * no hierarchy: each view lists the role names it admits.
 */
module Access {
  import opened Wrappers
  import opened Models

  datatype Response<T> = Forbidden(message: string) | Allowed(body: T)

  const ForbiddenMessage := "You are not allowed!"
  const StaffRoles := ["Admin", "Librarian"]
  const MemberRoles := ["Member"]

  /**
   * `profile` is the requesting user's member profile, `None` when the user
   * has none; `view` is the wrapped view applied to the request.
   */
  function RoleRequired<Req, Resp>(roles: seq<string>, view: Req -> Resp,
                                   profile: Option<MemberProfile>, request: Req): (r: Response<Resp>)
    ensures r.Allowed? <==> profile.Some? && RoleName(profile.value.role) in roles
    ensures r.Allowed? ==> r.body == view(request)
    ensures r.Forbidden? ==> r.message == ForbiddenMessage
  {
    if profile.Some? && RoleName(profile.value.role) in roles
    then Allowed(view(request))
    else Forbidden(ForbiddenMessage)
  }

  /** A refused request does not depend on the view: the view is never called. */
  lemma ForbiddenIgnoresView<Req, Resp>(roles: seq<string>, v1: Req -> Resp, v2: Req -> Resp,
                                        profile: Option<MemberProfile>, request: Req)
    requires RoleRequired(roles, v1, profile, request).Forbidden?
    ensures RoleRequired(roles, v2, profile, request) == RoleRequired(roles, v1, profile, request)
  {
  }

  /** The default, empty role list refuses everybody. */
  lemma EmptyRolesForbidAll<Req, Resp>(view: Req -> Resp, profile: Option<MemberProfile>, request: Req)
    ensures RoleRequired([], view, profile, request) == Forbidden(ForbiddenMessage)
  {
  }

  /** Staff views admit exactly Admins and Librarians. */
  lemma StaffGate<Req, Resp>(view: Req -> Resp, profile: MemberProfile, request: Req)
    ensures RoleRequired(StaffRoles, view, Some(profile), request).Allowed? <==> profile.role != Member
  {
  }

  /** The member dashboard admits Members only: no role inherits it. */
  lemma MemberGate<Req, Resp>(view: Req -> Resp, profile: MemberProfile, request: Req)
    ensures RoleRequired(MemberRoles, view, Some(profile), request).Allowed? <==> profile.role == Member
  {
  }
}
