/** Users, roles and the role gate of the server's protected routes. */
module Accounts {

  import opened Wrappers

  datatype Role = SeniorAdmin | Receptionist | DoctorRole | Customer

  /** A row of `users` (the password hash is not modelled). */
  datatype User = User(id: nat, username: string, role: Role, email: Option<string>, isActive: bool)

  /** A row of `doctors`: the doctor profile of a user. */
  datatype Doctor = Doctor(doctorId: nat, userId: nat, name: string, specialization: string)

  /** `get_current_active_user`: an inactive account is refused with 400. */
  function ActiveUser(u: User): (r: Result<User>)
    ensures r.Ok? <==> u.isActive
    ensures r.Ok? ==> r.value == u
    ensures r.Err? ==> r.status == 400
  {
    if u.isActive then Ok(u) else Err(400, "Inactive user")
  }

  /**
   * `require_role(allowed)`: the active user passes exactly when its role is
   * listed; an inactive user gets 400 first, an unlisted role 403.
   */
  function RequireRole(u: User, allowed: seq<Role>): (r: Result<User>)
    ensures r.Ok? <==> u.isActive && u.role in allowed
    ensures r.Ok? ==> r.value == u
    ensures r.Err? && r.status == 400 <==> !u.isActive
    ensures r.Err? && r.status == 403 <==> u.isActive && u.role !in allowed
  {
    if !u.isActive then Err(400, "Inactive user")
    else if u.role !in allowed then Err(403, "Operation not permitted")
    else Ok(u)
  }

  /** `query(Doctor).filter(user_id == id).first()`. */
  function DoctorProfile(doctors: seq<Doctor>, userId: nat): (r: Option<Doctor>)
    ensures r.Some? ==> r.value in doctors && r.value.userId == userId
    ensures r.None? <==> forall d :: d in doctors ==> d.userId != userId
  {
    if doctors == [] then None
    else if doctors[0].userId == userId then Some(doctors[0])
    else DoctorProfile(doctors[1..], userId)
  }

  /** The display name of a user: a doctor's profile name, otherwise its username. */
  function DisplayName(u: User, doctors: seq<Doctor>): string
  {
    if u.role == DoctorRole && DoctorProfile(doctors, u.id).Some? then DoctorProfile(doctors, u.id).value.name
    else u.username
  }
}
