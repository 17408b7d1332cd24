/**
 * `RoleBasedPermissionStrategy`: which role may perform which action. `Can` is the table the
 * strategy evidently intends; `CanAsWritten` is the switch as written, which compares the role
 * with lowercase strings that no `UserRole` value equals.
 */
module Permission {
  import opened Models

  /** The `Action` union: `'topic:create'`, `'topic:read'`, ... `'resource:delete'`. */
  datatype Action =
    | TopicCreate | TopicRead | TopicUpdate | TopicDelete
    | ResourceCreate | ResourceRead | ResourceUpdate | ResourceDelete

  predicate IsRead(a: Action) {
    a == TopicRead || a == ResourceRead
  }

  predicate IsDelete(a: Action) {
    a == TopicDelete || a == ResourceDelete
  }

  /** `can`, with each `case` label matched against the `UserRole` member it names. */
  function Can(role: UserRole, action: Action): (r: bool)
    ensures IsRead(action) ==> r
    ensures IsDelete(action) ==> (r <==> role == Admin)
  {
    match role
    case Admin => true
    case Editor =>
      (match action
       case TopicCreate => true
       case TopicRead => true
       case TopicUpdate => true
       case ResourceCreate => true
       case ResourceRead => true
       case ResourceUpdate => true
       case TopicDelete => false
       case ResourceDelete => false)
    case Viewer =>
      (match action
       case TopicRead => true
       case ResourceRead => true
       case _ => false)
  }

  /** Admin may do everything, Editor everything but deleting, Viewer only reading. */
  lemma CanTable(action: Action)
    ensures Can(Admin, action)
    ensures Can(Editor, action) <==> !IsDelete(action)
    ensures Can(Viewer, action) <==> IsRead(action)
  {
  }

  /** The roles ordered by what they may do. */
  function Rank(role: UserRole): nat {
    match role
    case Viewer => 0
    case Editor => 1
    case Admin => 2
  }

  /** Permissions grow with the role: Viewer ⊆ Editor ⊆ Admin for every action. */
  lemma CanMonotone(lower: UserRole, higher: UserRole, action: Action)
    requires Rank(lower) <= Rank(higher)
    ensures Can(lower, action) ==> Can(higher, action)
  {
  }

  /** The `switch (user.role)` as written, over the role's string value. */
  function CanAsWritten(role: string, action: Action): (r: bool)
    ensures r ==> role == "admin" || role == "editor" || role == "viewer"
    ensures IsRead(action) ==> (r <==> role == "admin" || role == "editor" || role == "viewer")
    ensures IsDelete(action) ==> (r <==> role == "admin")
  {
    if role == "admin" then true
    else if role == "editor" then !IsDelete(action)
    else if role == "viewer" then IsRead(action)
    else false
  }

  /** As written, every user is denied every action: no `UserRole` value is a lowercase case label. */
  lemma AsWrittenDeniesEveryRole(role: UserRole, action: Action)
    ensures !CanAsWritten(RoleValue(role), action)
  {
    assert RoleValue(role)[0] != "admin"[0] && RoleValue(role)[0] != "editor"[0] && RoleValue(role)[0] != "viewer"[0];
  }

  /** ASCII lower-casing. */
  function Lower(s: string): (r: string)
    ensures |r| == |s|
  {
    seq(|s|, i requires 0 <= i < |s| => if 'A' <= s[i] <= 'Z' then (s[i] as int + 32) as char else s[i])
  }

  /** The intended table is the switch as written, applied to the lower-cased role value. */
  lemma CanIsLowercaseSwitch(role: UserRole, action: Action)
    ensures Can(role, action) == CanAsWritten(Lower(RoleValue(role)), action)
  {
    match role
    case Admin => assert Lower(RoleValue(role)) == "admin";
    case Editor => assert Lower(RoleValue(role)) == "editor";
    case Viewer => assert Lower(RoleValue(role)) == "viewer";
  }
}
