/** The guards in front of the staff pages and the input checks of the
    administration forms. */
module Access {
  import opened Common

  /** What the staff session holds; a key that is not set is None. */
  datatype Session = Session(staffUserId: Option<int>, username: Option<string>,
                             role: Option<string>, shelter: Option<string>)

  /** The role a page asks for beyond being signed in. */
  datatype RoleNeed = AnyRole | AdminOnly | StaffOrAdmin

  /** Where a guarded request goes: on to the page, to the login page, to the
      shelter choice, or back home with a refusal. */
  datatype Gate = Pass | ToLogin | ToSelectShelter | Refused(message: string)

  /** The role check of require_admin. */
  predicate IsAdmin(role: Option<string>) {
    role == Some("admin")
  }

  /** The role check of require_staff_or_admin. */
  predicate IsStaffOrAdmin(role: Option<string>) {
    role == Some("admin") || role == Some("staff")
  }

  predicate RoleAllows(need: RoleNeed, role: Option<string>) {
    match need
    case AnyRole => true
    case AdminOnly => IsAdmin(role)
    case StaffOrAdmin => IsStaffOrAdmin(role)
  }

  /** The guards a staff page is wrapped in, applied outermost first:
      require_login, then require_shelter when the page needs a shelter, then
      the role check. */
  function Admit(s: Session, needsShelter: bool, need: RoleNeed): (g: Gate)
    ensures g == Pass <==>
              s.staffUserId.Some? && (needsShelter ==> s.shelter.Some?) && RoleAllows(need, s.role)
    ensures s.staffUserId.None? ==> g == ToLogin
    ensures s.staffUserId.Some? && needsShelter && s.shelter.None? ==> g == ToSelectShelter
    ensures g.Refused? <==>
              s.staffUserId.Some? && (needsShelter ==> s.shelter.Some?) && !RoleAllows(need, s.role)
    ensures g.Refused? ==> need != AnyRole
                           && g.message == (if need == AdminOnly then "Admin only." else "Staff or admin only.")
  {
    if s.staffUserId.None? then ToLogin
    else if needsShelter && s.shelter.None? then ToSelectShelter
    else
      match need
      case AnyRole => Pass
      case AdminOnly => if IsAdmin(s.role) then Pass else Refused("Admin only.")
      case StaffOrAdmin => if IsStaffOrAdmin(s.role) then Pass else Refused("Staff or admin only.")
  }

  /** Whatever passes the admin guard passes the staff-or-admin guard, and a
      staff member who is not an admin is refused by the first only. */
  lemma AdminPassesStaffGate(s: Session, needsShelter: bool)
    ensures Admit(s, needsShelter, AdminOnly) == Pass ==> Admit(s, needsShelter, StaffOrAdmin) == Pass
    ensures s.role == Some("staff") && Admit(s, needsShelter, StaffOrAdmin) == Pass ==>
              Admit(s, needsShelter, AdminOnly) == Refused("Admin only.")
  {
  }

  /** The roles an account may be given. */
  predicate KnownRole(role: string) {
    role == "staff" || role == "admin"
  }

  /** The role the new-user form asks for: an empty field means staff, and
      the value is stripped after that default is taken, so a field of only
      white space is an empty role. */
  function RequestedRole(raw: string): (role: string)
    ensures raw == [] ==> role == "staff"
    ensures raw != [] ==> role == Strip(raw)
  {
    Strip(if raw == [] then "staff" else raw)
  }

  /** A role field of only white space is refused, not defaulted. */
  lemma BlankRoleIsInvalid(raw: string)
    requires raw != [] && AllSpace(raw)
    ensures !KnownRole(RequestedRole(raw))
  {
    StripEmpty(raw);
  }

  datatype UserError = MissingCredentials | InvalidRole | UsernameTaken
  {
    function Message(): string {
      match this
      case MissingCredentials => "Username and password required."
      case InvalidRole => "Invalid role."
      case UsernameTaken => "Username already exists."
    }
  }

  /** The new-user checks on the stripped username and password and the
      requested role, in the handler's order; the insert fails on a username
      already in `taken`. */
  function CheckNewUser(username: string, password: string, role: string, taken: set<string>)
    : (r: Option<UserError>)
    ensures r.None? <==> username != "" && password != "" && KnownRole(role) && username !in taken
    ensures r == Some(MissingCredentials) <==> username == "" || password == ""
    ensures r == Some(InvalidRole) <==> username != "" && password != "" && !KnownRole(role)
    ensures r == Some(UsernameTaken) <==>
              username != "" && password != "" && KnownRole(role) && username in taken
  {
    if username == "" || password == "" then Some(MissingCredentials)
    else if !KnownRole(role) then Some(InvalidRole)
    else if username in taken then Some(UsernameTaken)
    else None
  }

  /** The self-delete guard: the signed-in user cannot delete their own
      account. */
  function CheckDelete(username: string, s: Session): (r: Option<string>)
    ensures r.Some? <==> s.username == Some(username)
    ensures r.Some? ==> r.value == "You cannot delete yourself."
  {
    if s.username == Some(username) then Some("You cannot delete yourself.") else None
  }

  /** The resident activation flag: the stripped field must be "0" or "1". */
  function ActiveFlag(raw: string): (r: Option<bool>)
    ensures r.Some? <==> Strip(raw) == "0" || Strip(raw) == "1"
    ensures r == Some(true) <==> Strip(raw) == "1"
  {
    var a := Strip(raw);
    if a == "1" then Some(true) else if a == "0" then Some(false) else None
  }
}
