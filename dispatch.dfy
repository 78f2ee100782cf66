/**
  The `interactionCreate` handler of discordBot.js as a decision over one interaction.
  The awaited platform calls are abstracted: whether `member.roles.add` or
  `member.roles.remove` resolves is an input, and the handler's effect is the role
  change it asks for and the one reply it sends, if any.
 */
module Dispatch {
  import opened Wrappers
  import opened Guild
  import opened RoleList

  /** The invoking guild member: the roles it holds and whether it has the administrator permission. */
  datatype Member = Member(roleIds: set<nat>, isAdministrator: bool)

  /** The parts of an interaction the handler reads. */
  datatype Interaction = Interaction(
    isCommand: bool,
    commandName: string,
    subcommand: string,
    member: Option<Member>,
    roleOption: Option<Role>,
    guildRoles: seq<Role>)

  /** The role change asked of the platform (it may still fail). */
  datatype Action = NoAction | Grant(role: Role) | Revoke(role: Role)

  /** The effect of one interaction: at most one role change and at most one reply. */
  datatype Outcome = Outcome(action: Action, reply: Option<Reply>)

  const Silent := Outcome(NoAction, None)

  function Say(text: string): Outcome
  {
    Outcome(NoAction, Some(Text(text)))
  }

  /** `role add` from a member; `succeeds` is whether `member.roles.add(role)` resolves. */
  function RoleAdd(member: Member, role: Option<Role>, succeeds: bool): (o: Outcome)
    ensures o.reply.Some? && o.reply.value.Text?
    ensures role.None? ==> o == Say("Please specify a valid role to add.")
    ensures o.action != NoAction <==> role.Some? && role.value.id !in member.roleIds
    ensures o.action != NoAction ==> o.action == Grant(role.value)
    ensures role.Some? && role.value.id in member.roleIds ==> o == Say("You already have that role.")
    ensures o.action.Grant? && succeeds ==> o.reply == Some(Text("Role " + role.value.name + " has been added to you."))
    ensures o.action.Grant? && !succeeds ==> o.reply == Some(Text("Failed to add the role."))
  {
    match role
    case None => Say("Please specify a valid role to add.")
    case Some(r) =>
      if r.id !in member.roleIds then
        Outcome(Grant(r), Some(Text(if succeeds then "Role " + r.name + " has been added to you."
                                    else "Failed to add the role.")))
      else Say("You already have that role.")
  }

  /** `role remove` from a member; `succeeds` is whether `member.roles.remove(role)` resolves. */
  function RoleRemove(member: Member, role: Option<Role>, succeeds: bool): (o: Outcome)
    ensures o.reply.Some? && o.reply.value.Text?
    ensures role.None? ==> o == Say("Please specify a valid role to remove.")
    ensures o.action != NoAction <==> role.Some? && role.value.id in member.roleIds
    ensures o.action != NoAction ==> o.action == Revoke(role.value)
    ensures role.Some? && role.value.id !in member.roleIds ==> o == Say("You don't have that role.")
    ensures o.action.Revoke? && succeeds ==> o.reply == Some(Text("Role " + role.value.name + " has been removed from you."))
    ensures o.action.Revoke? && !succeeds ==> o.reply == Some(Text("Failed to remove the role."))
  {
    match role
    case None => Say("Please specify a valid role to remove.")
    case Some(r) =>
      if r.id in member.roleIds then
        Outcome(Revoke(r), Some(Text(if succeeds then "Role " + r.name + " has been removed from you."
                                     else "Failed to remove the role.")))
      else Say("You don't have that role.")
  }

  /**
    The `role` command. `list` answers everyone, unless the listable roles do not fit
    in one embed; `add` and `remove` are handled only when the interaction has a
    member, and any other case gets no reply.
   */
  function RoleCommand(i: Interaction, compare: (string, string) -> int, succeeds: bool): (o: Outcome)
    ensures i.subcommand == "list" ==> o == Outcome(NoAction, RoleListReply(compare, i.guildRoles))
    ensures i.subcommand == "add" && i.member.Some? ==> o == RoleAdd(i.member.value, i.roleOption, succeeds)
    ensures i.subcommand == "remove" && i.member.Some? ==> o == RoleRemove(i.member.value, i.roleOption, succeeds)
    ensures o.reply.None? <==>
      if i.subcommand == "list" then |ListableRoles(i.guildRoles)| > ColumnSize * MaxEmbedFields
      else i.member.None? || (i.subcommand != "add" && i.subcommand != "remove")
    ensures o.reply.None? ==> o == Silent
  {
    if i.subcommand == "list" then Outcome(NoAction, RoleListReply(compare, i.guildRoles))
    else if i.subcommand == "add" && i.member.Some? then RoleAdd(i.member.value, i.roleOption, succeeds)
    else if i.subcommand == "remove" && i.member.Some? then RoleRemove(i.member.value, i.roleOption, succeeds)
    else Silent
  }

  /**
    The `config` command. It never changes a role (the store update is a placeholder
    in the source); without a member it refuses, and a member without the
    administrator permission gets no reply at all.
   */
  function ConfigCommand(i: Interaction): (o: Outcome)
    ensures o.action == NoAction
    ensures i.member.None? ==> o == Say("This command is restricted to members only.")
    ensures o.reply.None? <==> i.member.Some? && !i.member.value.isAdministrator
    ensures i.member.Some? && i.member.value.isAdministrator ==>
      o == Say(match (i.subcommand, i.roleOption)
               case ("add", None) => "Please specify a valid role to add."
               case ("add", Some(r)) => "Role " + r.name + " has been added to the available roles."
               case ("remove", None) => "Please specify a valid role to remove."
               case ("remove", Some(r)) => "Role " + r.name + " has been removed from the available roles."
               case _ => "You do not have permission to use this command.")
  {
    match i.member
    case None => Say("This command is restricted to members only.")
    case Some(m) =>
      if !m.isAdministrator then Silent
      else if i.subcommand == "add" then
        match i.roleOption
        case None => Say("Please specify a valid role to add.")
        case Some(r) => Say("Role " + r.name + " has been added to the available roles.")
      else if i.subcommand == "remove" then
        match i.roleOption
        case None => Say("Please specify a valid role to remove.")
        case Some(r) => Say("Role " + r.name + " has been removed from the available roles.")
      else Say("You do not have permission to use this command.")
  }

  /** The interactions the handler leaves without a reply. */
  predicate Unanswered(i: Interaction)
  {
    || !i.isCommand
    || (i.commandName != "role" && i.commandName != "config")
    || (i.commandName == "role" && i.subcommand == "list"
        && |ListableRoles(i.guildRoles)| > ColumnSize * MaxEmbedFields)
    || (i.commandName == "role" && i.subcommand != "list"
        && (i.member.None? || (i.subcommand != "add" && i.subcommand != "remove")))
    || (i.commandName == "config" && i.member.Some? && !i.member.value.isAdministrator)
  }

  /**
    The whole handler. Only `role add` and `role remove` from a member change a role,
    and each asks for at most one change; the `role` and `config` branches are
    disjoint; and the interactions without a reply are exactly the `Unanswered` ones.
   */
  function Dispatch(i: Interaction, compare: (string, string) -> int, succeeds: bool): (o: Outcome)
    ensures !i.isCommand ==> o == Silent
    ensures i.isCommand && i.commandName == "role" ==> o == RoleCommand(i, compare, succeeds)
    ensures i.isCommand && i.commandName == "config" ==> o == ConfigCommand(i)
    ensures o.action.Grant? ==>
      && i.commandName == "role" && i.subcommand == "add" && i.member.Some?
      && i.roleOption == Some(o.action.role) && o.action.role.id !in i.member.value.roleIds
    ensures o.action.Revoke? ==>
      && i.commandName == "role" && i.subcommand == "remove" && i.member.Some?
      && i.roleOption == Some(o.action.role) && o.action.role.id in i.member.value.roleIds
    ensures o.reply.None? <==> Unanswered(i)
    ensures o.reply.None? ==> o.action == NoAction
  {
    if !i.isCommand then Silent
    else if i.commandName == "role" then RoleCommand(i, compare, succeeds)
    else if i.commandName == "config" then ConfigCommand(i)
    else Silent
  }

  /** The member after the platform applied a change. */
  function Apply(member: Member, action: Action): Member
  {
    match action
    case NoAction => member
    case Grant(r) => member.(roleIds := member.roleIds + {r.id})
    case Revoke(r) => member.(roleIds := member.roleIds - {r.id})
  }

  /** For a given role, exactly one of `role add` and `role remove` asks for a change. */
  lemma AddRemoveExclusive(member: Member, role: Role, succeeds: bool)
    ensures (RoleAdd(member, Some(role), succeeds).action == NoAction)
            != (RoleRemove(member, Some(role), succeeds).action == NoAction)
  {
  }

  /**
    Once a grant has gone through, a repeated `role add` asks for nothing and says the
    member already has the role, and `role remove` revokes that same role: the two
    commands undo each other.
   */
  lemma AddThenAddOrRemove(member: Member, role: Role, succeeds: bool)
    requires role.id !in member.roleIds
    ensures RoleAdd(member, Some(role), true).action == Grant(role)
    ensures RoleAdd(Apply(member, Grant(role)), Some(role), succeeds) == Say("You already have that role.")
    ensures RoleRemove(Apply(member, Grant(role)), Some(role), succeeds).action == Revoke(role)
    ensures Apply(Apply(member, Grant(role)), Revoke(role)) == member
  {
    assert Apply(Apply(member, Grant(role)), Revoke(role)).roleIds == member.roleIds;
  }

  /** A member without "Red" who runs `role add role:Red` gets one grant of Red and the confirmation. */
  lemma RoleAddScenario(roleIds: set<nat>, red: Role, guildRoles: seq<Role>, compare: (string, string) -> int)
    requires red.name == "Red" && red.id !in roleIds
    ensures Dispatch(Interaction(true, "role", "add", Some(Member(roleIds, false)), Some(red), guildRoles), compare, true)
            == Outcome(Grant(red), Some(Text("Role Red has been added to you.")))
  {
    assert "Role " + red.name + " has been added to you." == "Role Red has been added to you.";
  }

  /** A member without the administrator permission who runs `config add role:Red` gets no reply. */
  lemma ConfigNonAdministratorScenario(roleIds: set<nat>, red: Role, guildRoles: seq<Role>,
                                       compare: (string, string) -> int, succeeds: bool)
    ensures Dispatch(Interaction(true, "config", "add", Some(Member(roleIds, false)), Some(red), guildRoles), compare, succeeds)
            == Silent
  {
  }
}
