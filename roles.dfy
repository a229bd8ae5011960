/**
 * User roles and the environment-dependent access groups built from them.
 * The groups are used only for membership tests, so they are sets here.
 */
module Roles {

  datatype Role = Guest | User | Manager | Admin | Developer

  /** `MODE == 'PROD'`: the flag the access groups are derived from. */
  predicate IsProdMode(mode: string) {
    mode == "PROD"
  }

  datatype RoleGroups = RoleGroups(common: set<Role>, staff: set<Role>, admin: set<Role>, privateRoles: set<Role>)

  /** `_extra`: the developer role outside production, nothing in it. */
  function Extra(isProd: bool): set<Role> {
    if isProd then {} else {Developer}
  }

  /** COMMON, STAFF, ADMIN and PRIVATE as functions of the production flag. */
  function Groups(isProd: bool): (g: RoleGroups)
    ensures Developer in g.common <==> !isProd
    ensures Developer in g.staff <==> !isProd
    ensures Developer in g.admin <==> !isProd
    ensures Developer in g.privateRoles <==> !isProd
    ensures User in g.common && Manager !in g.common && Admin !in g.common
    ensures g.common <= g.staff && Manager in g.staff && Admin in g.staff
    ensures g.admin == g.staff
    ensures g.privateRoles == if isProd then {} else {Developer}
    ensures Guest !in g.common && Guest !in g.staff && Guest !in g.admin && Guest !in g.privateRoles
  {
    var extra := Extra(isProd);
    var common := {User} + extra;
    var staff := common + {Manager, Admin} + extra;
    var admin := staff + {Admin} + extra;
    var privateRoles := if !isProd then extra else {};
    RoleGroups(common, staff, admin, privateRoles)
  }
}
