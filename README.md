# Self-assignable roles bot: a Dafny model

PulseAI ships two small chat bots that let guild members give themselves roles.
The JavaScript bot (`discordBot.js`) answers the slash commands `role list|add|remove`
and `config add|remove`. The Python bot (`discordBot.py`) answers `includeroles`,
`disallowroles`, `assignrole` and `listroles`, and keeps one MongoDB document per guild.
This project models the decision logic of both bots and proves what that logic promises.

- `Chunking` (chunking.dfy) models `chunkArray`. The function `Chunks` gives the
  groups; the method `ChunkArray` runs the source's loop and is proved equal to it.
  Lemmas give the layout: concatenating the groups gives back the input; group `i` is
  the slice `[i*k, min((i+1)*k, n))`; there are `ceil(n/k)` groups; all are full except
  the last, which has between 1 and `k` elements.
- `RoleList` (role_list.dfy) models the `role list` branch: the filter on managed roles
  and names starting with '@', the sort by name, the three-name columns and the reply.
- `Dispatch` (dispatch.dfy) models the `interactionCreate` handler as a function from
  one interaction to an `Outcome`. An `Outcome` holds at most one role change
  (`Grant`/`Revoke`) and at most one reply. The result of the awaited grant or revoke
  call is an input (`succeeds`).
- `RolesBot` (roles_bot.dfy) models the Python commands. The class `GuildDocument`
  holds the document's `allowed_roles` and `disallowed_roles`. Its methods `Include`
  and `Disallow` apply the `$set`/`$pull`/`$addToSet` updates in order. `FindRoleByName`
  is the first-match loop of `assignrole`. `AvailableRoleNames` is the `listroles`
  comprehension.
- `Guild` and `Wrappers` hold the shared role datatype, the reply datatype, `Names`,
  `Join` and `Option`.

Facts about the code that the model keeps:

- `config add/remove` only reply. Where the bot would record the role, the code has only
  a comment (discordBot.js:210 and :221).
- Some interactions get no reply at all. They are exactly the ones `Unanswered`
  describes. One of them is a `role list` with more than 75 listable roles: that needs 26
  or more embed fields, the platform's limit is 25, so `addFields` throws before the reply.
- `role add/remove` do not check any list of self-assignable roles.
- The Python document has two lists, `allowed_roles` and `disallowed_roles`.

## Model

| member | source | states |
|---|---|---|
| `Chunking.Chunks` | discordBot.js:105-115 | the groups of `chunkArray`, characterised by `FlattenChunks`, `ChunkAt`, `ChunkCount` and `ChunkSizes` below |
| `Chunking.ChunkArray` | discordBot.js:105-115 | for `chunkSize > 0`, or any size with an empty array, the loop's result is exactly `Chunks(array, chunkSize)` (no groups for an empty array) |
| `Chunking.FlattenChunks` | discordBot.js:109-112 | concatenating the chunks gives back the input, in order |
| `Chunking.ChunkAt` | discordBot.js:110 | chunk `i` is the slice from `i*k` to `(i+1)*k`, clamped to the length |
| `Chunking.ChunkCount` | discordBot.js:109-111 | the number of chunks is `ceil(n/k)`: `(c-1)*k < n <= c*k` and `c == (n+k-1)/k` |
| `Chunking.ChunkSizes` | discordBot.js:109-112 | every chunk but the last has exactly `k` elements; the last has 1 to `k`; empty input gives no chunks, and only empty input |
| `Chunking.SevenByThree` | discordBot.js:132 | seven items in groups of three give sizes 3, 3, 1: `[s[..3], s[3..6], s[6..]]` |
| `RoleList.Listable` | discordBot.js:128 | the filter's test: not managed and the name does not start with '@'; used by `ListableRolesSpec` |
| `RoleList.ListableRoles` | discordBot.js:127-128 | the filtered roles, characterised by `ListableRolesSpec` |
| `RoleList.ListableRolesSpec` | discordBot.js:127-128 | the filter keeps a role iff it is not managed and its name does not start with '@', with the guild's multiplicity |
| `RoleList.Insert` | discordBot.js:129 | inserting adds exactly one element (multiset) and starts with the new role or the old head |
| `RoleList.SortByName` | discordBot.js:129 | the sort is a permutation of its input |
| `RoleList.InsertSorted` | discordBot.js:129 | with a total comparator, insertion keeps name order |
| `RoleList.SortByNameSorted` | discordBot.js:129 | with a total comparator, adjacent roles are in ascending `localeCompare` order |
| `RoleList.ShownRoles` | discordBot.js:127-129 | the filtered and sorted roles, characterised by `ShownRolesSpec` |
| `RoleList.ShownRolesSpec` | discordBot.js:127-129 | exactly the listable roles are shown, as many as the filter keeps, with the guild's multiplicity, in ascending name order |
| `RoleList.Columns` | discordBot.js:132-140 | the embed's column strings, characterised by `ColumnsLayout` |
| `RoleList.ColumnsLayout` | discordBot.js:132-140 | `ceil(n/3)` columns; column `i` is the names of roles `3i..3i+2` (fewer in the last), joined by newlines |
| `RoleList.RoleListReply` | discordBot.js:131-145 | text reply iff no role is listable, and then exactly 'No roles available.'; no reply (`None`) iff more than 75 roles are listable, since 26 or more fields exceed the 25-field embed limit; otherwise an 'Available Roles' embed of the shown roles' columns, 1 to 25 of them |
| `RoleList.ShownRolesScenario` | discordBot.js:127-129 | a managed "Admin", "@everyone", "Red", "Blue" shows exactly ["Blue", "Red"] |
| `RoleList.ColumnOfTwo` | discordBot.js:136-139 | two roles make one column: the two names on two lines |
| `RoleList.RoleListScenario` | discordBot.js:126-145 | that guild gets an embed with one column "Blue\nRed" |
| `Dispatch.RoleAdd` | discordBot.js:146-164 | a missing role gives 'Please specify a valid role to add.' and no grant; a held role gives 'You already have that role.' and no grant; otherwise exactly one grant of that role, replying with the confirmation or 'Failed to add the role.' |
| `Dispatch.RoleRemove` | discordBot.js:165-183 | the mirror image: a revoke only when the member holds the role; otherwise 'You don't have that role.'; 'Failed to remove the role.' on failure |
| `Dispatch.RoleCommand` | discordBot.js:123-185 | `list` answers with the role-list reply and never changes a role; it sends no reply iff more than 75 roles are listable; `add`/`remove` are handled only with a member; every other case sends no reply and changes nothing |
| `Dispatch.ConfigCommand` | discordBot.js:188-228 | never changes a role; no member gives 'This command is restricted to members only.'; a non-administrator gets no reply; an administrator gets the matching 'Please specify…' or confirmation text, or the permission message for another subcommand |
| `Dispatch.Dispatch` | discordBot.js:117-229 | non-commands are ignored; `role` and `config` go only to their own handlers; a grant or revoke happens only for `role add`/`remove` from a member, with that role and only when it is missing or held; no reply iff `Unanswered` |
| `Dispatch.Unanswered` | discordBot.js:117-229 | the interactions that get no reply: non-commands, other command names, an oversized `role list`, `role add`/`remove` without a member, `role` with a subcommand other than list/add/remove, `config` from a non-administrator member; `Dispatch` ensures no reply iff this holds |
| `Dispatch.AddRemoveExclusive` | discordBot.js:154-173 | for a given role, exactly one of `role add` and `role remove` asks for a change |
| `Dispatch.AddThenAddOrRemove` | discordBot.js:154-175 | after a grant, a repeated `role add` asks for nothing and says 'You already have that role.', `role remove` revokes that role, and grant then revoke restore the member |
| `Dispatch.RoleAddScenario` | discordBot.js:146-157 | a member without "Red" running `role add role:Red` gets one grant of Red and 'Role Red has been added to you.' |
| `Dispatch.ConfigNonAdministratorScenario` | discordBot.js:197-228 | a non-administrator running `config add role:Red` gets no reply and no change |
| `RolesBot.IsStaff` | discordBot.py:20 | the permission test (repeated at discordBot.py:43): the author has a role named "Moderator" or "Administrator"; the `GuildDocument` methods' ensures use it |
| `RolesBot.Pull` | discordBot.py:31 | `$pull` removes every occurrence and keeps every other value's count |
| `RolesBot.PullConcat` | discordBot.py:31 | `$pull` works piecewise, so the remaining entries keep their relative order |
| `RolesBot.PullAbsent` | discordBot.py:31 | pulling an absent value leaves the list unchanged |
| `RolesBot.PullIdempotent` | discordBot.py:31 | a second `$pull` of `r` changes nothing |
| `RolesBot.AddToSet` | discordBot.py:54 | `$addToSet`, appending at the end (modelled order), characterised by `AddToSetSpec` |
| `RolesBot.AddToSetSpec` | discordBot.py:54 | `$addToSet` leaves an absent value exactly once; a present value changes nothing; other counts are kept; a second call changes nothing; the old list is kept as a prefix (modelled order) |
| `RolesBot.IncludeThenDisallow` | discordBot.py:31-54 | `includeroles r` then `disallowroles r` leaves `r` exactly once, and (modelled order) at the end |
| `RolesBot.DisallowThenInclude` | discordBot.py:31-54 | `disallowroles r` then `includeroles r` equals `includeroles r` alone, and restores a list that lacked `r` |
| `RolesBot.GuildDocument.constructor` | discordBot.py:25-26 | a guild without a document has no `allowed_roles` and an empty `disallowed_roles` |
| `RolesBot.GuildDocument.InitAllowed` | discordBot.py:25-28 | `allowed_roles` becomes the guild's role names only when absent; otherwise it is kept, and `disallowed_roles` is untouched |
| `RolesBot.GuildDocument.Include` | discordBot.py:18-35 | if the author has no "Moderator" or "Administrator" role, the permission message and an unchanged document; otherwise lazy `allowed_roles`, then `disallowed_roles` pulled, and the "is now allowed" message |
| `RolesBot.GuildDocument.Disallow` | discordBot.py:41-58 | the same permission rule; otherwise lazy `allowed_roles`, then `$addToSet` on `disallowed_roles`, and the "is now disallowed" message |
| `RolesBot.RepeatInclude` | discordBot.py:18-35 | `includeroles r` twice on one document: the state after both is the state after the first, and the second reply equals the first |
| `RolesBot.RepeatDisallow` | discordBot.py:41-58 | `disallowroles r` twice on one document: the same, with `$addToSet` |
| `RolesBot.IncludeThenDisallowDocument` | discordBot.py:18-58 | `includeroles r` then `disallowroles r` on one document: for staff, `r` is on `disallowed_roles` exactly once; for others, the document is unchanged |
| `RolesBot.FirstNamed` | discordBot.py:71-75 | the first role with that name, characterised by `FirstNamedSpec` |
| `RolesBot.FirstNamedSpec` | discordBot.py:71-75 | the lookup finds a role of that name with none before it, or reports none iff no role has that name |
| `RolesBot.FindRoleByName` | discordBot.py:71-75 | the `for`/`break` loop returns exactly the first role with that name |
| `RolesBot.AssignRole` | discordBot.py:64-83 | a name on the constant list is refused with 'You cannot assign this role.' before any lookup; otherwise the first matching guild role is granted with the confirmation, or "Role 'n' not found." |
| `RolesBot.AvailableRoleNames` | discordBot.py:92 | the listed names, characterised by `AvailableRoleNamesSpec` and `AvailableRoleNamesConcat` |
| `RolesBot.AvailableRoleNamesSpec` | discordBot.py:92 | a guild role name is listed iff it is not on the constant list, with the guild's multiplicity |
| `RolesBot.AvailableRoleNamesConcat` | discordBot.py:92 | the comprehension works piecewise, so guild order is kept |
| `Guild.Names` | discordBot.js:137 | one name per role, in order: the result has the input's length and entry `i` is role `i`'s name |
| `Guild.Join` | discordBot.js:137 | `join`: the parts with the separator between them; used by `Columns` and `ListRolesReply` |
| `RolesBot.ListRolesReply` | discordBot.py:94-97 | 'No available roles.' iff nothing is listed; otherwise "Available roles:" and the names on separate lines |

## Left out

- Gateway connection, client construction, login and event registration in both files. This is I/O.
- Slash-command registration over REST (`registerGuildSlashCommands`). It pushes static data to a foreign API and only logs failures.
- Embed construction details (EmbedBuilder, the zero-width field name, `inline`). The model keeps only the title and the column strings.
- The locale rules of `localeCompare`. It is an abstract `compare` parameter. Sortedness is proved for any comparator that is total (`compare(a,b) <= 0 || compare(b,a) <= 0`).
- RoleList.SortByName: when names compare equal, it keeps guild order, like ECMAScript's stable sort. The model does not prove the sort unique; it proves sortedness and permutation.
- `role list` outside a guild (`guild` null makes the source throw). The model always has the guild's roles.
- Whether the platform library accepts the `'ADMINISTRATOR'` permission name. The member's administrator capability is a plain flag.
- Failures of `interaction.reply`, `ctx.send` and `ctx.author.add_roles`. They are not modelled; a failed `add_roles` in Python would skip the confirmation.
- Chunking.ChunkArray: requires `chunkSize > 0` or an empty array. With `chunkSize <= 0` and a non-empty array the source loop never ends; an empty array gives `[]` for any size. The size is a `nat`, so negative and fractional sizes are not modelled. The only caller passes 3.
- MongoDB connection setup and the storage engine. Only the document contents and the `$set`/`$pull`/`$addToSet` upsert semantics are modelled.
- Concurrent `includeroles`/`disallowroles` on one guild. The read-then-write can interleave, but the model is sequential.
- The `config add/remove` store update. The code has only a comment there (discordBot.js:210 and :221), so the model only replies.
- Embed limits other than the 25-field count: 1024 characters per field value and 6000 characters in total. The model does not measure text length.
- RolesBot.AddToSet: appends an absent value at the end. MongoDB does not document where `$addToSet` puts the new value, so this order is the modelled choice. The order-free claims (counts, idempotence) are the ones about MongoDB.
- RolesBot.AddToSetSpec: its clause that the old list is kept as a prefix depends on the modelled append-at-end order, not on a MongoDB guarantee.
- RolesBot.IncludeThenDisallow: its clause `== Pull(s, r) + [r]` ("at the end") depends on the same modelled order; "exactly once" does not.
- Logging (`console.log`, `console.error`, `print`).
