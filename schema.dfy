/**
  tracker/schema.py: the permissions of the "User" role on the `user` and
  `query` classes, with the three check functions `own_record`, `view_query`
  and `edit_query`. The role's permissions are a list of entries (action,
  class, properties, check), in the order the schema adds them.
*/
module Schema {
  import opened Tracker

  /** A stored `query` node: the user it is private for (`None` for a
      public query) and the user who created it. */
  datatype Query = Query(privateFor: Value, creator: string)

  /** `own_record(db, userid, itemid)` */
  predicate OwnRecord(userid: string, itemid: string)
  {
    userid == itemid
  }

  /** `view_query(db, userid, itemid)`: a query that is not private for
      anyone is visible to all; a private one only to its user. Reading
      `private_for` of a query that does not exist raises, so the query must
      exist. */
  predicate ViewQuery(queries: map<string, Query>, userid: string, itemid: string)
    requires itemid in queries
  {
    !Truthy(queries[itemid].privateFor) || Str(userid) == queries[itemid].privateFor
  }

  /** `edit_query(db, userid, itemid)`: only the creator. */
  predicate EditQuery(queries: map<string, Query>, userid: string, itemid: string)
    requires itemid in queries
  {
    userid == queries[itemid].creator
  }

  /** The check a permission carries, if any. */
  datatype Check = NoCheck | OwnRecordCheck | ViewQueryCheck | EditQueryCheck

  /** `addPermission(name=..., klass=..., properties=..., check=...)`;
      `properties == None` means every property. */
  datatype Permission = Permission(name: string, klass: string, properties: Option<set<string>>, check: Check)

  /** The properties of any user that other users may view. */
  const PublicUserProperties: set<string> :=
    {"id", "organisation", "phone", "realname", "timezone", "username"}

  /** The properties users may edit on their own record; `roles` is not
      one of them. */
  const OwnEditableProperties: set<string> :=
    {"username", "password", "address", "realname", "phone", "organisation",
     "alternate_addresses", "queries", "timezone"}

  /** The permissions the schema gives the "User" role on `user` and
      `query`. */
  const UserRolePermissions: seq<Permission> := [
    Permission("View", "user", Some(PublicUserProperties), NoCheck),
    Permission("View", "user", None, OwnRecordCheck),
    Permission("Edit", "user", Some(OwnEditableProperties), OwnRecordCheck),
    Permission("View", "query", None, ViewQueryCheck),
    Permission("Search", "query", None, NoCheck),
    Permission("Edit", "query", None, EditQueryCheck),
    Permission("Retire", "query", None, EditQueryCheck),
    Permission("Restore", "query", None, EditQueryCheck),
    Permission("Create", "query", None, NoCheck)
  ]

  /** The query checks are only ever attached to `query` permissions. */
  predicate Scoped(p: Permission)
  {
    (p.check == ViewQueryCheck || p.check == EditQueryCheck) ==> p.klass == "query"
  }

  /** The check, run on the item being accessed. */
  predicate Passes(c: Check, queries: map<string, Query>, userid: string, itemid: string)
    requires (c == ViewQueryCheck || c == EditQueryCheck) ==> itemid in queries
  {
    match c
    case NoCheck => true
    case OwnRecordCheck => OwnRecord(userid, itemid)
    case ViewQueryCheck => ViewQuery(queries, userid, itemid)
    case EditQueryCheck => EditQuery(queries, userid, itemid)
  }

  /** One permission allows `name` on property `property` (`None`: the item
      as a whole) of item `itemid` of class `klass`. */
  predicate PermitsOne(p: Permission, queries: map<string, Query>, name: string, klass: string,
                       userid: string, itemid: string, property: Option<string>)
    requires Scoped(p) && (klass == "query" ==> itemid in queries)
  {
    && p.name == name && p.klass == klass
    && (property.None? || p.properties.None? || property.value in p.properties.value)
    && Passes(p.check, queries, userid, itemid)
  }

  /** A user of the "User" role may do `name` when one of the role's
      permissions allows it. */
  predicate Grants(queries: map<string, Query>, name: string, klass: string,
                   userid: string, itemid: string, property: Option<string>)
    requires klass == "query" ==> itemid in queries
  {
    exists i :: 0 <= i < |UserRolePermissions| && Scoped(UserRolePermissions[i]) &&
                PermitsOne(UserRolePermissions[i], queries, name, klass, userid, itemid, property)
  }

  /** Users edit exactly the listed properties, and only on their own
      record. */
  lemma OwnDetailsEditable(queries: map<string, Query>, userid: string, itemid: string, property: string)
    ensures Grants(queries, "Edit", "user", userid, itemid, Some(property)) <==>
              userid == itemid && property in OwnEditableProperties
  {
    var ps := UserRolePermissions;
    if userid == itemid && property in OwnEditableProperties {
      assert PermitsOne(ps[2], queries, "Edit", "user", userid, itemid, Some(property));
    }
  }

  /** No user can change `roles`, not even their own. */
  lemma RolesNotSelfEditable(queries: map<string, Query>, userid: string, itemid: string)
    ensures !Grants(queries, "Edit", "user", userid, itemid, Some("roles"))
  {
    OwnDetailsEditable(queries, userid, itemid, "roles");
  }

  /** Of another user's record, only the public properties are visible;
      of one's own, everything is. */
  lemma UserViewable(queries: map<string, Query>, userid: string, itemid: string, property: string)
    ensures Grants(queries, "View", "user", userid, itemid, Some(property)) <==>
              userid == itemid || property in PublicUserProperties
  {
    var ps := UserRolePermissions;
    if property in PublicUserProperties {
      assert PermitsOne(ps[0], queries, "View", "user", userid, itemid, Some(property));
    }
    if userid == itemid {
      assert PermitsOne(ps[1], queries, "View", "user", userid, itemid, Some(property));
    }
  }

  /** A public query is visible to everybody, a private one only to the
      user it is private for. */
  lemma QueryViewable(queries: map<string, Query>, userid: string, itemid: string)
    requires itemid in queries
    ensures Grants(queries, "View", "query", userid, itemid, None) <==>
              !Truthy(queries[itemid].privateFor) || queries[itemid].privateFor == Str(userid)
  {
    var ps := UserRolePermissions;
    if !Truthy(queries[itemid].privateFor) || queries[itemid].privateFor == Str(userid) {
      assert PermitsOne(ps[3], queries, "View", "query", userid, itemid, None);
    }
  }

  /** Only the creator of a query may edit, retire or restore it. */
  lemma QueryOwnerOnly(queries: map<string, Query>, userid: string, itemid: string, action: string)
    requires itemid in queries
    requires action == "Edit" || action == "Retire" || action == "Restore"
    ensures Grants(queries, action, "query", userid, itemid, None) <==> queries[itemid].creator == userid
  {
    var ps := UserRolePermissions;
    if queries[itemid].creator == userid {
      var k := if action == "Edit" then 5 else if action == "Retire" then 6 else 7;
      assert PermitsOne(ps[k], queries, action, "query", userid, itemid, None);
    }
  }

  /** Every user may search queries and create new ones. */
  lemma QuerySearchAndCreateOpen(queries: map<string, Query>, userid: string, itemid: string)
    requires itemid in queries
    ensures Grants(queries, "Search", "query", userid, itemid, None)
    ensures Grants(queries, "Create", "query", userid, itemid, None)
  {
    var ps := UserRolePermissions;
    assert PermitsOne(ps[4], queries, "Search", "query", userid, itemid, None);
    assert PermitsOne(ps[8], queries, "Create", "query", userid, itemid, None);
  }
}
