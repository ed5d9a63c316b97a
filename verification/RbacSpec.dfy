/**
  What a permission means in internal/auth, without the search: matching of actions,
  and chains of parent roles none of which denies.
 */
module RbacSpec {

  datatype Role = Role(
    name: string,
    permissions: seq<string>,
    resourceActions: map<string, seq<string>>,
    parents: seq<string>,
    deny: map<string, seq<string>>)

  datatype Permission = Permission(resource: string, actions: seq<string>)

  type Roles = map<string, Role>
  type Permissions = map<string, Permission>

  datatype Request = Request(resource: string, action: string)

  ghost predicate Covers(actions: seq<string>, action: string) {
    "*" in actions || action in actions
  }

  // A table of actions by resource grants what the entry of the resource or the
  // entry of "*" covers.
  ghost predicate Grants(table: map<string, seq<string>>, q: Request) {
    (q.resource in table && Covers(table[q.resource], q.action)) || ("*" in table && Covers(table["*"], q.action))
  }

  ghost predicate Denies(role: Role, q: Request) { Grants(role.deny, q) }

  ghost predicate NamedGrant(perms: Permissions, name: string, q: Request) {
    && name in perms && (perms[name].resource == "*" || perms[name].resource == q.resource)
    && Covers(perms[name].actions, q.action)
  }

  ghost predicate Allows(perms: Permissions, role: Role, q: Request) {
    Grants(role.resourceActions, q) || exists name :: name in role.permissions && NamedGrant(perms, name, q)
  }

  // Some entry for the resource or for any resource names the action or any action.
  ghost predicate Listed(table: map<string, seq<string>>, q: Request) {
    exists r, i :: r in table && 0 <= i < |table[r]| &&
      (r == q.resource || r == "*") && (table[r][i] == q.action || table[r][i] == "*")
  }

  // What denies and what allows, entry by entry.
  lemma {:induction false} DeniesIff(role: Role, q: Request)
    ensures Denies(role, q) <==> Listed(role.deny, q)
  {
    GrantsIff(role.deny, q);
  }

  lemma {:induction false} AllowsIff(perms: Permissions, role: Role, q: Request)
    ensures Allows(perms, role, q) <==>
      || Listed(role.resourceActions, q)
      || exists i :: 0 <= i < |role.permissions| && role.permissions[i] in perms &&
           Listed(map[perms[role.permissions[i]].resource := perms[role.permissions[i]].actions], q)
  {
    GrantsIff(role.resourceActions, q);
    forall name | name in perms
      ensures NamedGrant(perms, name, q) <==> Listed(map[perms[name].resource := perms[name].actions], q)
    {
      GrantsIff(map[perms[name].resource := perms[name].actions], q);
    }
  }

  lemma {:induction false} GrantsIff(table: map<string, seq<string>>, q: Request)
    ensures Grants(table, q) <==> Listed(table, q)
  {
    if q.resource in table && Covers(table[q.resource], q.action) {
      var i :| 0 <= i < |table[q.resource]| && (table[q.resource][i] == q.action || table[q.resource][i] == "*");
    }
    if "*" in table && Covers(table["*"], q.action) {
      var i :| 0 <= i < |table["*"]| && (table["*"][i] == q.action || table["*"][i] == "*");
    }
    if Listed(table, q) {
      var r, i :| r in table && 0 <= i < |table[r]| &&
        (r == q.resource || r == "*") && (table[r][i] == q.action || table[r][i] == "*");
      assert table[r][i] in table[r];
    }
  }

  // A chain of roles, each a parent of the one before, all defined and none denying.
  ghost predicate Chain(roles: Roles, q: Request, p: seq<string>) {
    && |p| > 0
    && (forall i :: 0 <= i < |p| ==> p[i] in roles && !Denies(roles[p[i]], q))
    && (forall i :: 0 <= i < |p| - 1 ==> p[i + 1] in roles[p[i]].parents)
  }

  ghost predicate GrantedBy(roles: Roles, perms: Permissions, q: Request, p: seq<string>) {
    Chain(roles, q, p) && Allows(perms, roles[p[|p| - 1]], q)
  }

  // Some chain from this role ends in a role that allows the request.
  ghost predicate RoleGrants(roles: Roles, perms: Permissions, q: Request, name: string) {
    exists p :: GrantedBy(roles, perms, q, p) && p[0] == name
  }

  ghost predicate Permitted(roles: Roles, perms: Permissions, userRoles: seq<string>, q: Request) {
    exists i :: 0 <= i < |userRoles| && RoleGrants(roles, perms, q, userRoles[i])
  }

  lemma {:induction false} GrantsHere(roles: Roles, perms: Permissions, q: Request, name: string)
    requires name in roles && !Denies(roles[name], q) && Allows(perms, roles[name], q)
    ensures RoleGrants(roles, perms, q, name)
  {
    assert GrantedBy(roles, perms, q, [name]);
  }

  lemma {:induction false} GrantsThroughParent(
    roles: Roles, perms: Permissions, q: Request, name: string, parent: string)
    requires name in roles && !Denies(roles[name], q)
    requires parent in roles[name].parents && RoleGrants(roles, perms, q, parent)
    ensures RoleGrants(roles, perms, q, name)
  {
    var p :| GrantedBy(roles, perms, q, p) && p[0] == parent;
    var r := [name] + p;
    forall i | 0 <= i < |r| - 1 ensures r[i + 1] in roles[r[i]].parents {
      if i > 0 { assert r[i] == p[i - 1] && r[i + 1] == p[i]; }
    }
    assert GrantedBy(roles, perms, q, r);
  }

  // ------------------------------------------------------- exhausted roles

  // A visited role offers nothing new: it is undefined, denies, or neither allows nor
  // has a parent outside the visited set.
  ghost predicate Spent(roles: Roles, perms: Permissions, q: Request, name: string, seen: set<string>) {
    || name !in roles
    || Denies(roles[name], q)
    || (!Allows(perms, roles[name], q) && forall parent :: parent in roles[name].parents ==> parent in seen)
  }

  // A visited set in which every role is spent leads to no allowing role.
  lemma {:induction false} SpentGrantsNothing(
    roles: Roles, perms: Permissions, q: Request, p: seq<string>, seen: set<string>)
    requires GrantedBy(roles, perms, q, p) && p[0] in seen
    requires forall name :: name in seen ==> Spent(roles, perms, q, name, seen)
    ensures false
    decreases |p|
  {
    assert Spent(roles, perms, q, p[0], seen);
    if |p| > 1 {
      var r := p[1..];
      assert p[1] in roles[p[0]].parents;
      assert Chain(roles, q, r) by {
        forall i | 0 <= i < |r| - 1 ensures r[i + 1] in roles[r[i]].parents {
          assert r[i] == p[i + 1] && r[i + 1] == p[i + 2];
        }
      }
      SpentGrantsNothing(roles, perms, q, r, seen);
    }
  }

  // ------------------------------------------------ what role edits change

  // The answer depends on which roles a user has, not on their order or repetition,
  // and more roles never take a permission away.
  lemma {:induction false} MoreRolesPermitMore(
    roles: Roles, perms: Permissions, a: seq<string>, b: seq<string>, q: Request)
    requires forall name :: name in a ==> name in b
    ensures Permitted(roles, perms, a, q) ==> Permitted(roles, perms, b, q)
  {
    if Permitted(roles, perms, a, q) {
      var i :| 0 <= i < |a| && RoleGrants(roles, perms, q, a[i]);
      assert a[i] in b;
      var j :| 0 <= j < |b| && b[j] == a[i];
    }
  }

  // Assigning a role adds exactly what that role grants.
  lemma {:induction false} AssignmentAdds(roles: Roles, perms: Permissions, a: seq<string>, name: string, q: Request)
    ensures Permitted(roles, perms, a + [name], q) <==>
      Permitted(roles, perms, a, q) || RoleGrants(roles, perms, q, name)
  {
    MoreRolesPermitMore(roles, perms, a, a + [name], q);
    if RoleGrants(roles, perms, q, name) { assert (a + [name])[|a|] == name; }
    if Permitted(roles, perms, a + [name], q) {
      var i :| 0 <= i < |a + [name]| && RoleGrants(roles, perms, q, (a + [name])[i]);
      if i < |a| { assert (a + [name])[i] == a[i]; }
    }
  }

  // A role that denies grants nothing, so inheriting from it or holding it beside
  // others changes no answer: denial cuts a chain, it does not override.
  lemma {:induction false} DenyOnlyCuts(roles: Roles, perms: Permissions, a: seq<string>, name: string, q: Request)
    requires name in roles && Denies(roles[name], q)
    ensures !RoleGrants(roles, perms, q, name)
    ensures Permitted(roles, perms, a + [name], q) <==> Permitted(roles, perms, a, q)
  {
    AssignmentAdds(roles, perms, a, name, q);
  }

  // Removes the first occurrence, as RemoveRoleFromUser does.
  function Without(a: seq<string>, name: string): seq<string> {
    if a == [] then [] else if a[0] == name then a[1..] else [a[0]] + Without(a[1..], name)
  }

  lemma {:induction false} WithoutFirst(a: seq<string>, name: string, i: nat)
    requires i <= |a| && name !in a[..i]
    ensures i < |a| && a[i] == name ==> Without(a, name) == a[..i] + a[i + 1..]
    ensures i == |a| ==> Without(a, name) == a
  {
    if i > 0 {
      assert a[0] == a[..i][0] && a[1..][..i - 1] == a[..i][1..];
      WithoutFirst(a[1..], name, i - 1);
      if i < |a| {
        assert a[1..][i..] == a[i + 1..] && a[..i] == [a[0]] + a[1..][..i - 1];
      } else {
        assert [a[0]] + a[1..] == a;
      }
    }
  }

  lemma {:induction false} WithoutMembers(a: seq<string>, name: string, x: string)
    ensures multiset(Without(a, name)) == multiset(a) - multiset{name}
    ensures x != name ==> (x in Without(a, name) <==> x in a)
  {
    if a != [] {
      assert a == [a[0]] + a[1..];
      if a[0] != name { WithoutMembers(a[1..], name, x); }
    }
  }

  // Removal revokes only when no other occurrence of the role is left, and then
  // exactly what no remaining role grants.
  lemma {:induction false} RemovalRevokes(roles: Roles, perms: Permissions, a: seq<string>, name: string, q: Request)
    requires name in a
    ensures Permitted(roles, perms, a, q) <==>
      Permitted(roles, perms, Without(a, name), q) || RoleGrants(roles, perms, q, name)
    ensures multiset(a)[name] > 1 ==> (Permitted(roles, perms, Without(a, name), q) <==> Permitted(roles, perms, a, q))
  {
    var rest := Without(a, name);
    forall x ensures x in a <==> x in rest + [name] { WithoutMembers(a, name, x); }
    MoreRolesPermitMore(roles, perms, a, rest + [name], q);
    MoreRolesPermitMore(roles, perms, rest + [name], a, q);
    AssignmentAdds(roles, perms, rest, name, q);
    if multiset(a)[name] > 1 {
      WithoutMembers(a, name, name);
      assert multiset(rest)[name] > 0;
      assert name in rest;
      MoreRolesPermitMore(roles, perms, rest + [name], rest, q);
    }
  }
}
