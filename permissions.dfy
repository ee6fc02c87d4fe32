/** The role checks of the user application's permission classes.
    A user's role is the string column `rol`: "1" administrator,
    "2" teacher (profesor), "3" student (estudiante). */
module Permissions {

  /** The part of the requesting user the permission classes read. */
  datatype User = User(authenticated: bool, rol: string)

  const AdminRole := "1"
  const TeacherRole := "2"
  const StudentRole := "3"

  /** DRF's IsAuthenticated, used by several handlers. */
  predicate IsAuthenticated(u: User) {
    u.authenticated
  }

  predicate IsAdmin(u: User) {
    u.authenticated && u.rol == AdminRole
  }

  predicate IsProfesor(u: User) {
    u.authenticated && u.rol == TeacherRole
  }

  predicate IsEstudiante(u: User) {
    u.authenticated && u.rol == StudentRole
  }

  /** Documented as "teacher or administrator", but the code admits roles
      "2" and "3": teachers and students. */
  predicate IsProfesorOrAdmin(u: User) {
    u.authenticated && (u.rol == TeacherRole || u.rol == StudentRole)
  }

  /** An anonymous user fails every predicate, and no user holds two roles. */
  lemma RolesExclusive(u: User)
    ensures !u.authenticated ==>
      !IsAdmin(u) && !IsProfesor(u) && !IsEstudiante(u) && !IsProfesorOrAdmin(u)
    ensures !(IsAdmin(u) && IsProfesor(u))
    ensures !(IsAdmin(u) && IsEstudiante(u))
    ensures !(IsProfesor(u) && IsEstudiante(u))
  {
  }

  /** IsProfesorOrAdmin admits teachers and students, and never an administrator. */
  lemma ProfesorOrAdminDeniesAdmin(u: User)
    ensures IsProfesorOrAdmin(u) <==> IsProfesor(u) || IsEstudiante(u)
    ensures IsAdmin(u) ==> !IsProfesorOrAdmin(u)
  {
  }
}
