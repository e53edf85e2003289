/** The role checks that guard the admin routes. `req.admin` is the admin
    the authentication step attached, if any; only its role matters here. */
module Authorize {
  import opened JsValues
  import opened Security

  /** The admin on the request: absent, or present with the value of its `role` field. */
  datatype Admin = NoAdmin | Admin(role: JsValue)

  /** `requireAdmin`: 401 without an admin, 403 unless the role is exactly
      'admin', otherwise the request goes on. */
  function RequireAdmin(admin: Admin): (r: Outcome)
    ensures admin.NoAdmin? <==> r == Reject(401, "Admin authentication required")
    ensures r == Next <==> admin == Admin(Str("admin"))
    ensures admin.Admin? && admin.role != Str("admin") ==> r == Reject(403, "Admin access required")
  {
    match admin
    case NoAdmin => Reject(401, "Admin authentication required")
    case Admin(role) => if role != Str("admin") then Reject(403, "Admin access required") else Next
  }

  /** `requireAdminOrModerator`: 401 without an admin, 403 unless the role is
      exactly 'admin' or 'moderator', otherwise the request goes on. */
  function RequireAdminOrModerator(admin: Admin): (r: Outcome)
    ensures admin.NoAdmin? <==> r == Reject(401, "Admin authentication required")
    ensures r == Next <==> admin.Admin? && admin.role in {Str("admin"), Str("moderator")}
    ensures admin.Admin? && admin.role !in {Str("admin"), Str("moderator")} ==> r == Reject(403, "Insufficient permissions")
  {
    match admin
    case NoAdmin => Reject(401, "Admin authentication required")
    case Admin(role) =>
      if role != Str("admin") && role != Str("moderator") then Reject(403, "Insufficient permissions") else Next
  }

  /** The admin-only check is the stricter one: what it lets through, the
      admin-or-moderator check lets through too, and a moderator is what
      only the second admits. */
  lemma AdminOnlyIsStricter(admin: Admin)
    ensures RequireAdmin(admin) == Next ==> RequireAdminOrModerator(admin) == Next
    ensures RequireAdminOrModerator(admin) == Next && RequireAdmin(admin) != Next <==> admin == Admin(Str("moderator"))
    ensures RequireAdmin(admin).Reject? && RequireAdmin(admin).status == 401 <==>
            RequireAdminOrModerator(admin).Reject? && RequireAdminOrModerator(admin).status == 401
  {
  }
}
