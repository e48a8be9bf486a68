/**
 * RoleServiceImpl: creating an active role, reading one, renaming one, and
 * deleting one. The request body is reduced to its one field, the name,
 * which may be null.
 */
module RoleService {
  import opened Entities
  import opened Store

  /** A name no other role carries: what the unique constraint on the name column accepts. */
  predicate NameFree(roles: map<Id, Role>, name: string, except: Option<Id>) {
    forall id :: id in roles && Some(id) != except ==> roles[id].name != name
  }

  /** create(request): saves the role as active and not deleted. */
  method Create(db: Db, name: Option<string>) returns (r: Result<Role>)
    requires db.Valid()
    modifies db
    ensures db.Valid()
    ensures name.None? ==> r == Err(NotNullViolation)
    ensures name.Some? && !NameFree(old(db.roles), name.value, None) ==> r == Err(DuplicateKey)
    ensures r.Ok? <==> name.Some? && NameFree(old(db.roles), name.value, None)
    ensures r.Err? ==> unchanged(db)
    ensures r.Ok? ==>
      var id := old(db.nextRoleId);
      && id !in old(db.roles)
      && r.value == Role(id, name.value, true, false)
      && db.State() == old(db.State()).(roles := old(db.roles)[id := r.value], nextRoleId := id + 1)
  {
    if name.None? {
      return Err(NotNullViolation);
    }
    if !NameFree(db.roles, name.value, None) {
      return Err(DuplicateKey);
    }
    var role := Role(db.nextRoleId, name.value, false, false);
    role := role.(active := true);
    db.roles := db.roles[role.id := role];
    db.nextRoleId := db.nextRoleId + 1;
    r := Ok(role);
  }

  /**
   * getById: roleRepository.findById(id).orElseThrow(...), the stored role or
   * NotFound. Each service runs this lookup on its own table.
   */
  function GetById(roles: map<Id, Role>, id: Id): (r: Result<Role>)
    ensures r.Ok? <==> id in roles
    ensures r.Ok? ==> r.value == roles[id]
    ensures r.Err? ==> r.error == NotFound
  {
    if id in roles then Ok(roles[id]) else Err(NotFound)
  }

  /**
   * update(id, request): a provided name replaces the stored one (the unique
   * constraint refuses another role's name); the flags are never touched.
   */
  method Update(db: Db, id: Id, name: Option<string>) returns (r: Result<Role>)
    requires db.Valid()
    modifies db
    ensures db.Valid()
    ensures id !in old(db.roles) ==> r == Err(NotFound)
    ensures id in old(db.roles) && name.Some? && !NameFree(old(db.roles), name.value, Some(id)) ==>
      r == Err(DuplicateKey)
    ensures r.Ok? <==> id in old(db.roles) && (name.Some? ==> NameFree(old(db.roles), name.value, Some(id)))
    ensures r.Err? ==> unchanged(db)
    ensures r.Ok? ==>
      && r.value.id == id
      && r.value.active == old(db.roles)[id].active && r.value.deleted == old(db.roles)[id].deleted
      && r.value.name == (if name.Some? then name.value else old(db.roles)[id].name)
      && db.State() == old(db.State()).(roles := old(db.roles)[id := r.value])
    ensures name.None? && id in old(db.roles) ==> r == Ok(old(db.roles)[id]) && db.State() == old(db.State())
  {
    if id !in db.roles {
      return Err(NotFound);
    }
    var role := db.roles[id];
    if name.Some? {
      if !NameFree(db.roles, name.value, Some(id)) {
        return Err(DuplicateKey);
      }
      role := role.(name := name.value);
    }
    db.roles := db.roles[id := role];
    r := Ok(role);
  }

  /**
   * delete(id): removes exactly that role and answers true. The users_roles
   * join rows are not modelled, so a role a user still holds is deleted here,
   * where the database's foreign key would refuse it.
   */
  method Delete(db: Db, id: Id) returns (r: Result<bool>)
    requires db.Valid()
    modifies db
    ensures db.Valid()
    ensures r.Ok? <==> id in old(db.roles)
    ensures r.Err? ==> r.error == NotFound && unchanged(db)
    ensures r.Ok? ==> r.value && db.State() == old(db.State()).(roles := old(db.roles) - {id})
  {
    if id !in db.roles {
      return Err(NotFound);
    }
    db.roles := db.roles - {id};
    r := Ok(true);
  }

  /** Renaming keeps the role-name constraint: a free name, or the role's own. */
  lemma RenameKeepsUniqueNames(roles: map<Id, Role>, id: Id, name: string)
    requires UniqueRoleNames(roles) && id in roles && NameFree(roles, name, Some(id))
    ensures UniqueRoleNames(roles[id := roles[id].(name := name)])
    ensures RoleByName(roles[id := roles[id].(name := name)], name) == Some(id)
  {
    var after := roles[id := roles[id].(name := name)];
    assert UniqueRoleNames(after) by {
      forall a, b | a in after && b in after && a != b
        ensures after[a].name != after[b].name
      {
        if a != id && b != id {
          assert a in roles && b in roles;
        }
      }
    }
    assert after[id].name == name;
    var found := RoleByName(after, name);
    assert found.Some?;
  }

  /** A created role is found by its id and by its name. */
  method CreateThenFind(db: Db, name: string) returns (created: Result<Role>, byId: Result<Role>)
    requires db.Valid()
    modifies db
    ensures db.Valid()
    ensures created.Ok? ==> byId == created && RoleByName(db.roles, name) == Some(created.value.id)
  {
    created := Create(db, Some(name));
    byId := Err(NotFound);
    if created.Ok? {
      byId := GetById(db.roles, created.value.id);
      assert db.roles[created.value.id].name == name;
      var found := RoleByName(db.roles, name);
      assert found.Some?;
    }
  }
}
