/**
  The role store of internal/auth and its permission check: a depth-first search
  over parents that shares one mutable `seen` set across all roles of a user.
 */
module Rbac {
  import opened Sets
  import opened RbacSpec

  // The map[string]bool the search passes around and writes to.
  class SeenSet {
    var marked: set<string>

    constructor ()
      ensures marked == {}
    {
      marked := {};
    }
  }

  class User {
    var roles: seq<string>
  }

  method ActionListed(actions: seq<string>, action: string) returns (found: bool)
    ensures found == Covers(actions, action)
  {
    for i := 0 to |actions|
      invariant forall j :: 0 <= j < i ==> actions[j] != "*" && actions[j] != action
    {
      if actions[i] == "*" || actions[i] == action { return true; }
    }
    return false;
  }

  class RBAC {
    var roles: Roles
    var permissions: Permissions

    constructor ()
      ensures roles == map[] && permissions == map[]
    {
      roles, permissions := map[], map[];
    }

    method AddRole(role: Role)
      modifies this`roles
      ensures roles == old(roles)[role.name := role]
    {
      roles := roles[role.name := role];
    }

    method RemoveRole(name: string)
      modifies this`roles
      ensures roles == old(roles) - {name}
    {
      roles := roles - {name};
    }

    method AddPermission(perm: Permission)
      modifies this`permissions
      ensures permissions == old(permissions)[perm.resource := perm]
    {
      permissions := permissions[perm.resource := perm];
    }

    method CheckDeny(role: Role, q: Request) returns (denied: bool)
      ensures denied == Denies(role, q)
    {
      denied := false;
      if q.resource in role.deny {
        denied := ActionListed(role.deny[q.resource], q.action);
        if denied { return; }
      }
      if "*" in role.deny {
        denied := ActionListed(role.deny["*"], q.action);
      }
    }

    method CheckAllow(role: Role, q: Request) returns (allowed: bool)
      ensures allowed == Allows(permissions, role, q)
    {
      if q.resource in role.resourceActions {
        var found := ActionListed(role.resourceActions[q.resource], q.action);
        if found { return true; }
      }
      if "*" in role.resourceActions {
        var found := ActionListed(role.resourceActions["*"], q.action);
        if found { return true; }
      }
      for i := 0 to |role.permissions|
        invariant !Grants(role.resourceActions, q)
        invariant forall j :: 0 <= j < i ==> !NamedGrant(permissions, role.permissions[j], q)
      {
        if role.permissions[i] !in permissions { continue; }
        var perm := permissions[role.permissions[i]];
        if perm.resource == "*" || perm.resource == q.resource {
          var found := ActionListed(perm.actions, q.action);
          if found {
            assert NamedGrant(permissions, role.permissions[i], q);
            return true;
          }
        }
      }
      return false;
    }

    // Defined roles the search has not visited.
    ghost function Left(seen: SeenSet): nat
      reads this, seen
    {
      |roles.Keys - seen.marked|
    }

    // On failure every role visited for the first time is spent.
    method HasPermissionRecursive(roleName: string, q: Request, seen: SeenSet) returns (ok: bool)
      modifies seen
      ensures old(seen.marked) + {roleName} <= seen.marked
      ensures ok ==> RoleGrants(roles, permissions, q, roleName)
      ensures !ok ==> forall name :: name in seen.marked - old(seen.marked) ==>
        Spent(roles, permissions, q, name, seen.marked)
      decreases Left(seen)
    {
      if roleName in seen.marked { return false; }
      ghost var before := seen.marked;
      seen.marked := seen.marked + {roleName};
      if roleName !in roles { return false; }
      var role := roles[roleName];
      var denied := CheckDeny(role, q);
      if denied { return false; }
      var allowed := CheckAllow(role, q);
      if allowed {
        GrantsHere(roles, permissions, q, roleName);
        return true;
      }
      for i := 0 to |role.parents|
        invariant before + {roleName} <= seen.marked
        invariant forall j :: 0 <= j < i ==> role.parents[j] in seen.marked
        invariant forall name :: name in seen.marked - before - {roleName} ==>
          Spent(roles, permissions, q, name, seen.marked)
      {
        FewerLeft(roles.Keys, before, seen.marked, roleName);
        ghost var middle := seen.marked;
        ok := HasPermissionRecursive(role.parents[i], q, seen);
        if ok {
          GrantsThroughParent(roles, permissions, q, roleName, role.parents[i]);
          return true;
        }
        forall name | name in seen.marked - before - {roleName}
          ensures Spent(roles, permissions, q, name, seen.marked)
        {
          if name in middle { assert Spent(roles, permissions, q, name, middle); }
        }
      }
      return false;
    }

    // True exactly when some chain of parents from one of the user's roles reaches a
    // role that allows, through defined roles none of which denies.
    method HasPermission(user: User, q: Request) returns (ok: bool)
      ensures ok == Permitted(roles, permissions, user.roles, q)
    {
      var seen := new SeenSet();
      for i := 0 to |user.roles|
        invariant fresh(seen)
        invariant forall j :: 0 <= j < i ==> user.roles[j] in seen.marked
        invariant forall name :: name in seen.marked ==> Spent(roles, permissions, q, name, seen.marked)
      {
        ghost var middle := seen.marked;
        ok := HasPermissionRecursive(user.roles[i], q, seen);
        if ok { return true; }
        forall name | name in seen.marked ensures Spent(roles, permissions, q, name, seen.marked) {
          if name in middle { assert Spent(roles, permissions, q, name, middle); }
        }
      }
      NothingPermitted(user.roles, q, seen.marked);
      return false;
    }

    lemma {:induction false} NothingPermitted(userRoles: seq<string>, q: Request, seen: set<string>)
      requires forall j :: 0 <= j < |userRoles| ==> userRoles[j] in seen
      requires forall name :: name in seen ==> Spent(roles, permissions, q, name, seen)
      ensures !Permitted(roles, permissions, userRoles, q)
    {
      if Permitted(roles, permissions, userRoles, q) {
        var i :| 0 <= i < |userRoles| && RoleGrants(roles, permissions, q, userRoles[i]);
        var p :| GrantedBy(roles, permissions, q, p) && p[0] == userRoles[i];
        SpentGrantsNothing(roles, permissions, q, p, seen);
      }
    }

    method AssignRole(user: User, roleName: string)
      modifies user
      ensures user.roles == old(user.roles) + [roleName]
    {
      user.roles := user.roles + [roleName];
    }

    method RemoveRoleFromUser(user: User, roleName: string)
      modifies user
      ensures user.roles == Without(old(user.roles), roleName)
    {
      for i := 0 to |user.roles|
        invariant user.roles == old(user.roles)
        invariant forall j :: 0 <= j < i ==> user.roles[j] != roleName
        invariant Without(user.roles, roleName) == user.roles[..i] + Without(user.roles[i..], roleName)
      {
        if user.roles[i] == roleName {
          user.roles := user.roles[..i] + user.roles[i + 1..];
          return;
        }
      }
    }
  }

  lemma {:induction false} FewerLeft(all: set<string>, before: set<string>, now: set<string>, name: string)
    requires name in all && name !in before && before + {name} <= now
    ensures |all - now| < |all - before|
  {
    SubsetSize(all - now, all - before - {name});
  }
}
