/**
  The commands of discordBot.py: `includeroles` and `disallowroles` update the one
  document the guild's collection holds, `assignrole` grants a role found by name,
  and `listroles` lists the guild's role names.
 */
module RolesBot {
  import opened Wrappers
  import opened Guild

  /** The module-level list of role names `assignrole` refuses and `listroles` hides. */
  const DisallowedRoles: seq<string> := ["Moderator", "Administrator"]

  const PermissionDenied := "You do not have permission to use this command."

  /** Only an author holding a role named "Moderator" or "Administrator" may edit the document. */
  predicate IsStaff(authorRoleNames: seq<string>)
  {
    "Moderator" in authorRoleNames || "Administrator" in authorRoleNames
  }

  /** MongoDB's `$pull`: remove every occurrence of `x`. */
  function Pull(s: seq<string>, x: string): (r: seq<string>)
    ensures x !in r
    ensures forall y :: y != x ==> multiset(r)[y] == multiset(s)[y]
    ensures |r| <= |s|
  {
    if s == [] then []
    else
      assert s == [s[0]] + s[1..];
      (if s[0] == x then [] else [s[0]]) + Pull(s[1..], x)
  }

  /** MongoDB's `$addToSet`: append `x` unless it is already there. */
  function AddToSet(s: seq<string>, x: string): seq<string>
  {
    if x in s then s else s + [x]
  }

  /** `$pull` keeps the relative order of the entries it leaves: it works piecewise. */
  lemma {:induction false} PullConcat(a: seq<string>, b: seq<string>, x: string)
    ensures Pull(a + b, x) == Pull(a, x) + Pull(b, x)
  {
    if a != [] {
      assert (a + b)[1..] == a[1..] + b;
      PullConcat(a[1..], b, x);
    } else {
      assert a + b == b;
    }
  }

  /** Pulling a value that is absent leaves the list as it was. */
  lemma {:induction false} PullAbsent(s: seq<string>, x: string)
    requires x !in s
    ensures Pull(s, x) == s
  {
    if s != [] {
      PullAbsent(s[1..], x);
      assert s == [s[0]] + s[1..];
    }
  }

  /** Repeating `includeroles r` changes nothing more. */
  lemma PullIdempotent(s: seq<string>, x: string)
    ensures Pull(Pull(s, x), x) == Pull(s, x)
  {
    PullAbsent(Pull(s, x), x);
  }

  /**
    `$addToSet` leaves exactly one occurrence of a value that was absent, adds none to
    one that was present, keeps the old entries as a prefix, and a second call changes nothing.
   */
  lemma AddToSetSpec(s: seq<string>, x: string)
    ensures x !in s ==> multiset(AddToSet(s, x))[x] == 1
    ensures x in s ==> AddToSet(s, x) == s
    ensures forall y :: y != x ==> multiset(AddToSet(s, x))[y] == multiset(s)[y]
    ensures AddToSet(s, x)[..|s|] == s
    ensures AddToSet(AddToSet(s, x), x) == AddToSet(s, x)
  {
    if x !in s {
      assert multiset(s)[x] == 0;
    }
  }

  /** `includeroles r` then `disallowroles r` leaves `r` listed exactly once. */
  lemma IncludeThenDisallow(s: seq<string>, x: string)
    ensures multiset(AddToSet(Pull(s, x), x))[x] == 1
    ensures AddToSet(Pull(s, x), x) == Pull(s, x) + [x]
  {
    AddToSetSpec(Pull(s, x), x);
  }

  /**
    `disallowroles r` then `includeroles r` has the effect of `includeroles r` alone;
    on a list that lacked `r` it restores the list.
   */
  lemma DisallowThenInclude(s: seq<string>, x: string)
    ensures Pull(AddToSet(s, x), x) == Pull(s, x)
    ensures x !in s ==> Pull(AddToSet(s, x), x) == s
  {
    if x !in s {
      PullConcat(s, [x], x);
      assert Pull([x], x) == [] by {
        assert [x][1..] == [];
      }
      PullAbsent(s, x);
    }
  }

  /**
    The document held by a guild's collection. `allowed` is `allowed_roles`, absent
    until the first edit; `disallowed` is `disallowed_roles` (a missing field acts as
    an empty list under `$pull` and `$addToSet`).
   */
  class GuildDocument {
    var allowed: Option<seq<string>>
    var disallowed: seq<string>

    /** The state of a guild whose collection holds no document yet. */
    constructor ()
      ensures allowed == None && disallowed == []
    {
      allowed := None;
      disallowed := [];
    }

    /** The `$set` with upsert both commands run first: fill `allowed_roles` only if it is absent. */
    method InitAllowed(guildRoles: seq<Role>)
      modifies this
      ensures allowed == if old(allowed).None? then Some(Names(guildRoles)) else old(allowed)
      ensures disallowed == old(disallowed)
    {
      if allowed.None? {
        allowed := Some(Names(guildRoles));
      }
    }

    /** `includeroles role_name`: permit a role again by pulling it from `disallowed_roles`. */
    method Include(authorRoles: seq<Role>, guildRoles: seq<Role>, roleName: string)
      returns (reply: string)
      modifies this
      ensures !IsStaff(Names(authorRoles)) ==>
        allowed == old(allowed) && disallowed == old(disallowed) && reply == PermissionDenied
      ensures IsStaff(Names(authorRoles)) ==>
        && allowed == (if old(allowed).None? then Some(Names(guildRoles)) else old(allowed))
        && disallowed == Pull(old(disallowed), roleName)
        && reply == "Role '" + roleName + "' is now allowed."
    {
      if IsStaff(Names(authorRoles)) {
        InitAllowed(guildRoles);
        disallowed := Pull(disallowed, roleName);
        reply := "Role '" + roleName + "' is now allowed.";
      } else {
        reply := PermissionDenied;
      }
    }

    /** `disallowroles role_name`: add a role to `disallowed_roles` unless it is already there. */
    method Disallow(authorRoles: seq<Role>, guildRoles: seq<Role>, roleName: string)
      returns (reply: string)
      modifies this
      ensures !IsStaff(Names(authorRoles)) ==>
        allowed == old(allowed) && disallowed == old(disallowed) && reply == PermissionDenied
      ensures IsStaff(Names(authorRoles)) ==>
        && allowed == (if old(allowed).None? then Some(Names(guildRoles)) else old(allowed))
        && disallowed == AddToSet(old(disallowed), roleName)
        && reply == "Role '" + roleName + "' is now disallowed."
    {
      if IsStaff(Names(authorRoles)) {
        InitAllowed(guildRoles);
        disallowed := AddToSet(disallowed, roleName);
        reply := "Role '" + roleName + "' is now disallowed.";
      } else {
        reply := PermissionDenied;
      }
    }
  }

  /** Running `includeroles r` twice leaves the document as one run does, with the same reply. */
  method RepeatInclude(doc: GuildDocument, authorRoles: seq<Role>, guildRoles: seq<Role>, roleName: string)
    returns (first: string, second: string)
    modifies doc
    ensures !IsStaff(Names(authorRoles)) ==> doc.allowed == old(doc.allowed) && doc.disallowed == old(doc.disallowed)
    ensures IsStaff(Names(authorRoles)) ==>
      && doc.allowed == (if old(doc.allowed).None? then Some(Names(guildRoles)) else old(doc.allowed))
      && doc.disallowed == Pull(old(doc.disallowed), roleName)
    ensures second == first
  {
    first := doc.Include(authorRoles, guildRoles, roleName);
    second := doc.Include(authorRoles, guildRoles, roleName);
    PullIdempotent(old(doc.disallowed), roleName);
  }

  /** Running `disallowroles r` twice leaves the document as one run does, with the same reply. */
  method RepeatDisallow(doc: GuildDocument, authorRoles: seq<Role>, guildRoles: seq<Role>, roleName: string)
    returns (first: string, second: string)
    modifies doc
    ensures !IsStaff(Names(authorRoles)) ==> doc.allowed == old(doc.allowed) && doc.disallowed == old(doc.disallowed)
    ensures IsStaff(Names(authorRoles)) ==>
      && doc.allowed == (if old(doc.allowed).None? then Some(Names(guildRoles)) else old(doc.allowed))
      && doc.disallowed == AddToSet(old(doc.disallowed), roleName)
    ensures second == first
  {
    first := doc.Disallow(authorRoles, guildRoles, roleName);
    second := doc.Disallow(authorRoles, guildRoles, roleName);
    AddToSetSpec(old(doc.disallowed), roleName);
  }

  /**
    `includeroles r` then `disallowroles r` by staff leaves `r` in `disallowed_roles`
    exactly once, whatever the document held before; anyone else changes nothing.
   */
  method IncludeThenDisallowDocument(doc: GuildDocument, authorRoles: seq<Role>, guildRoles: seq<Role>, roleName: string)
    returns (first: string, second: string)
    modifies doc
    ensures IsStaff(Names(authorRoles)) ==> multiset(doc.disallowed)[roleName] == 1
    ensures !IsStaff(Names(authorRoles)) ==> doc.allowed == old(doc.allowed) && doc.disallowed == old(doc.disallowed)
  {
    first := doc.Include(authorRoles, guildRoles, roleName);
    second := doc.Disallow(authorRoles, guildRoles, roleName);
    IncludeThenDisallow(old(doc.disallowed), roleName);
  }

  /** The first role of the guild whose name is `name`. */
  function FirstNamed(roles: seq<Role>, name: string): Option<Role>
  {
    if roles == [] then None
    else if roles[0].name == name then Some(roles[0])
    else FirstNamed(roles[1..], name)
  }

  /** `FirstNamed` finds a role of that name preceded by none, or reports that none has it. */
  lemma {:induction false} FirstNamedSpec(roles: seq<Role>, name: string)
    ensures FirstNamed(roles, name).None? <==> forall j :: 0 <= j < |roles| ==> roles[j].name != name
    ensures FirstNamed(roles, name).Some? ==>
      exists i :: 0 <= i < |roles| && roles[i] == FirstNamed(roles, name).value
                  && roles[i].name == name && forall j :: 0 <= j < i ==> roles[j].name != name
  {
    if roles != [] && roles[0].name != name {
      FirstNamedSpec(roles[1..], name);
      if FirstNamed(roles, name).Some? {
        var i :| 0 <= i < |roles[1..]| && roles[1..][i] == FirstNamed(roles, name).value
                 && roles[1..][i].name == name && forall j :: 0 <= j < i ==> roles[1..][j].name != name;
        assert roles[i + 1] == FirstNamed(roles, name).value;
        assert forall j :: 0 <= j < i + 1 ==> roles[j].name != name by {
          forall j | 0 <= j < i + 1
            ensures roles[j].name != name
          {
            if j > 0 { assert roles[j] == roles[1..][j - 1]; }
          }
        }
      }
    } else if roles != [] {
      assert roles[0] == FirstNamed(roles, name).value;
    }
  }

  /** The `for r in ctx.guild.roles` loop of `assignrole`, with its `break` at the first match. */
  method FindRoleByName(roles: seq<Role>, name: string) returns (role: Option<Role>)
    ensures role == FirstNamed(roles, name)
  {
    role := None;
    var i := 0;
    while i < |roles|
      invariant 0 <= i <= |roles|
      invariant role == None
      invariant FirstNamed(roles[i..], name) == FirstNamed(roles, name)
    {
      assert roles[i..][1..] == roles[i + 1..];
      if roles[i].name == name {
        role := Some(roles[i]);
        break;
      }
      i := i + 1;
    }
  }

  /**
    `assignrole role_name`: refuse a name on the constant list before any lookup,
    otherwise grant the first guild role of that name, or say none was found.
    `authorMention` is the author's mention text; `granted` is the role handed to `add_roles`.
   */
  method AssignRole(guildRoles: seq<Role>, roleName: string, authorMention: string)
    returns (granted: Option<Role>, reply: string)
    ensures roleName in DisallowedRoles ==> granted == None && reply == "You cannot assign this role."
    ensures roleName !in DisallowedRoles ==> granted == FirstNamed(guildRoles, roleName)
    ensures roleName !in DisallowedRoles && granted.None? ==> reply == "Role '" + roleName + "' not found."
    ensures granted.Some? ==> granted.value.name == roleName && granted.value in guildRoles
    ensures granted.Some? ==> reply == "Role '" + roleName + "' has been assigned to " + authorMention + "."
  {
    if roleName in DisallowedRoles {
      return None, "You cannot assign this role.";
    }
    granted := FindRoleByName(guildRoles, roleName);
    if granted.None? {
      return None, "Role '" + roleName + "' not found.";
    }
    FirstNamedSpec(guildRoles, roleName);
    reply := "Role '" + roleName + "' has been assigned to " + authorMention + ".";
  }

  /** `[r.name for r in ctx.guild.roles if r.name not in disallowed_roles]`. */
  function AvailableRoleNames(roles: seq<Role>): seq<string>
  {
    if roles == [] then []
    else (if roles[0].name in DisallowedRoles then [] else [roles[0].name]) + AvailableRoleNames(roles[1..])
  }

  /**
    `listroles` shows a guild role name exactly when it is not on the constant list,
    as often as the guild has it, in guild order.
   */
  lemma {:induction false} AvailableRoleNamesSpec(roles: seq<Role>)
    ensures forall n :: n in AvailableRoleNames(roles) <==> n in Names(roles) && n !in DisallowedRoles
    ensures forall n :: n !in DisallowedRoles ==> multiset(AvailableRoleNames(roles))[n] == multiset(Names(roles))[n]
  {
    if roles != [] {
      AvailableRoleNamesSpec(roles[1..]);
      assert Names(roles) == [roles[0].name] + Names(roles[1..]);
    }
    forall n
      ensures n in AvailableRoleNames(roles) <==> n in Names(roles) && n !in DisallowedRoles
    {
      assert n in AvailableRoleNames(roles) <==> n in multiset(AvailableRoleNames(roles));
      assert n in Names(roles) <==> n in multiset(Names(roles));
    }
  }

  lemma {:induction false} AvailableRoleNamesConcat(a: seq<Role>, b: seq<Role>)
    ensures AvailableRoleNames(a + b) == AvailableRoleNames(a) + AvailableRoleNames(b)
  {
    if a != [] {
      assert (a + b)[1..] == a[1..] + b;
      AvailableRoleNamesConcat(a[1..], b);
    } else {
      assert a + b == b;
    }
  }

  /** The message `listroles` sends. */
  function ListRolesReply(roles: seq<Role>): (r: string)
    ensures AvailableRoleNames(roles) == [] ==> r == "No available roles."
    ensures AvailableRoleNames(roles) != [] ==> r == "Available roles:\n" + Join(AvailableRoleNames(roles), "\n")
    ensures r == "No available roles." <==> AvailableRoleNames(roles) == []
  {
    var names := AvailableRoleNames(roles);
    if names != [] then
      var r := "Available roles:\n" + Join(names, "\n");
      assert r[0] == 'A';
      r
    else "No available roles."
  }
}
