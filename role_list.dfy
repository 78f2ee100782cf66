/**
  The `role list` branch of discordBot.js: keep the roles that are not managed and
  whose name does not start with '@', sort them by name, and render them as columns
  of three names each.
 */
module RoleList {
  import opened Wrappers
  import opened Guild
  import opened Chunking

  /** The names per column of the embed. */
  const ColumnSize := 3

  /**
    The most fields a platform embed holds. `embed.addFields` throws once a 26th field
    is added, the handler's promise is rejected and no reply is sent.
   */
  const MaxEmbedFields := 25

  /** A role `role list` may show. */
  predicate Listable(r: Role)
  {
    !r.managed && !(|r.name| > 0 && r.name[0] == '@')
  }

  /** `guild.roles.cache.filter(...)`: the listable roles, in guild order. */
  function ListableRoles(roles: seq<Role>): seq<Role>
  {
    if roles == [] then []
    else (if Listable(roles[0]) then [roles[0]] else []) + ListableRoles(roles[1..])
  }

  /** The filter keeps every listable role, as often as the guild holds it, and nothing else. */
  lemma {:induction false} ListableRolesSpec(roles: seq<Role>)
    ensures forall x :: multiset(ListableRoles(roles))[x] == if Listable(x) then multiset(roles)[x] else 0
    ensures forall x :: x in ListableRoles(roles) <==> x in roles && Listable(x)
  {
    if roles != [] {
      ListableRolesSpec(roles[1..]);
      assert roles == [roles[0]] + roles[1..];
    }
    forall x
      ensures x in ListableRoles(roles) <==> x in roles && Listable(x)
    {
      assert x in ListableRoles(roles) <==> x in multiset(ListableRoles(roles));
      assert x in roles <==> x in multiset(roles);
    }
  }

  /**
    The sign of `a.localeCompare(b)` is abstracted as `compare(a, b)`: a role goes
    before another when the comparison of their names is at most zero.
   */
  ghost predicate TotalComparator(compare: (string, string) -> int)
  {
    forall a, b :: compare(a, b) <= 0 || compare(b, a) <= 0
  }

  /** Adjacent roles are in `compare` order of their names. */
  predicate SortedByName(compare: (string, string) -> int, s: seq<Role>)
  {
    forall i :: 0 < i < |s| ==> compare(s[i - 1].name, s[i].name) <= 0
  }

  /** Insert `x` before the first role it does not compare above; ties keep `x` first. */
  function Insert(compare: (string, string) -> int, x: Role, sorted: seq<Role>): (r: seq<Role>)
    ensures multiset(r) == multiset(sorted) + multiset{x}
    ensures |r| == |sorted| + 1
    ensures r[0] == x || (sorted != [] && r[0] == sorted[0])
  {
    if sorted == [] || compare(x.name, sorted[0].name) <= 0 then [x] + sorted
    else
      assert sorted == [sorted[0]] + sorted[1..];
      [sorted[0]] + Insert(compare, x, sorted[1..])
  }

  /**
    `.sort((a, b) => a.name.localeCompare(b.name))`, a stable sort: roles whose
    names compare equal keep the order the guild gives them.
   */
  function SortByName(compare: (string, string) -> int, roles: seq<Role>): (r: seq<Role>)
    ensures multiset(r) == multiset(roles)
    ensures |r| == |roles|
  {
    if roles == [] then []
    else
      assert roles == [roles[0]] + roles[1..];
      Insert(compare, roles[0], SortByName(compare, roles[1..]))
  }

  lemma {:induction false} InsertSorted(compare: (string, string) -> int, x: Role, s: seq<Role>)
    requires TotalComparator(compare)
    requires SortedByName(compare, s)
    ensures SortedByName(compare, Insert(compare, x, s))
  {
    if s != [] && compare(x.name, s[0].name) > 0 {
      assert compare(s[0].name, x.name) <= 0;
      InsertSorted(compare, x, s[1..]);
      var t := Insert(compare, x, s[1..]);
      assert Insert(compare, x, s) == [s[0]] + t;
      assert t[0] == x || t[0] == s[1];
    }
  }

  /** With a total comparator the sorted roles are in ascending name order. */
  lemma {:induction false} SortByNameSorted(compare: (string, string) -> int, roles: seq<Role>)
    requires TotalComparator(compare)
    ensures SortedByName(compare, SortByName(compare, roles))
  {
    if roles != [] {
      SortByNameSorted(compare, roles[1..]);
      InsertSorted(compare, roles[0], SortByName(compare, roles[1..]));
    }
  }

  /** The roles `role list` shows, in the order it shows them. */
  function ShownRoles(compare: (string, string) -> int, guildRoles: seq<Role>): seq<Role>
  {
    SortByName(compare, ListableRoles(guildRoles))
  }

  /**
    Exactly the listable roles of the guild are shown, each as often as the guild
    holds it, and (for a total comparator) in ascending name order.
   */
  lemma ShownRolesSpec(compare: (string, string) -> int, guildRoles: seq<Role>)
    ensures forall x :: x in ShownRoles(compare, guildRoles) <==> x in guildRoles && Listable(x)
    ensures forall x :: multiset(ShownRoles(compare, guildRoles))[x] ==
                        if Listable(x) then multiset(guildRoles)[x] else 0
    ensures TotalComparator(compare) ==> SortedByName(compare, ShownRoles(compare, guildRoles))
    ensures |ShownRoles(compare, guildRoles)| == |ListableRoles(guildRoles)|
  {
    var shown := ShownRoles(compare, guildRoles);
    ListableRolesSpec(guildRoles);
    assert multiset(shown) == multiset(ListableRoles(guildRoles));
    forall x
      ensures x in shown <==> x in guildRoles && Listable(x)
    {
      assert x in shown <==> x in multiset(shown);
    }
    if TotalComparator(compare) {
      SortByNameSorted(compare, ListableRoles(guildRoles));
    }
  }

  /** One column per group of three roles: their names, one per line. */
  function Columns(roles: seq<Role>): seq<string>
  {
    var groups := Chunks(roles, ColumnSize);
    seq(|groups|, i requires 0 <= i < |groups| => Join(Names(groups[i]), "\n"))
  }

  /**
    The layout of the embed: the ceiling of `|roles| / 3` columns, column `i` holding
    the names of roles `3i` to `3i + 2` (fewer in the last one), in order.
   */
  lemma ColumnsLayout(roles: seq<Role>)
    ensures |Columns(roles)| == (|roles| + ColumnSize - 1) / ColumnSize
    ensures forall i :: 0 <= i < |Columns(roles)| ==>
              Columns(roles)[i] == Join(Names(roles)[i * ColumnSize .. Min((i + 1) * ColumnSize, |roles|)], "\n")
  {
    ChunkCount(roles, ColumnSize);
    forall i | 0 <= i < |Columns(roles)|
      ensures Columns(roles)[i] == Join(Names(roles)[i * ColumnSize .. Min((i + 1) * ColumnSize, |roles|)], "\n")
    {
      ChunkAt(roles, ColumnSize, i);
      var lo, hi := i * ColumnSize, Min((i + 1) * ColumnSize, |roles|);
      assert Names(roles[lo..hi]) == Names(roles)[lo..hi];
    }
  }

  /**
    The reply to `role list`: the "none" text, an embed of the columns, or nothing
    when the listable roles need more columns than an embed holds.
   */
  function RoleListReply(compare: (string, string) -> int, guildRoles: seq<Role>): (r: Option<Reply>)
    ensures r.None? <==> |ListableRoles(guildRoles)| > ColumnSize * MaxEmbedFields
    ensures r == Some(Text("No roles available.")) <==> forall i :: 0 <= i < |guildRoles| ==> !Listable(guildRoles[i])
    ensures r.Some? && r.value.Text? ==> r.value.content == "No roles available."
    ensures r.Some? && r.value.Embed? ==>
      && r.value.title == "Available Roles"
      && r.value.columns == Columns(ShownRoles(compare, guildRoles))
      && 0 < |r.value.columns| <= MaxEmbedFields
  {
    var shown := ShownRoles(compare, guildRoles);
    ShownRolesSpec(compare, guildRoles);
    ColumnsLayout(shown);
    if |shown| == 0 then
      assert forall i :: 0 <= i < |guildRoles| ==> guildRoles[i] !in shown;
      Some(Text("No roles available."))
    else
      assert shown[0] in guildRoles && Listable(shown[0]);
      if |Columns(shown)| > MaxEmbedFields then None
      else Some(Embed("Available Roles", Columns(shown)))
  }

  /**
    A guild with a managed "Admin", "@everyone", "Red" and "Blue", where "Red" sorts
    after "Blue", shows exactly "Blue" then "Red".
   */
  lemma ShownRolesScenario(compare: (string, string) -> int)
    requires compare("Red", "Blue") > 0
    ensures ShownRoles(compare, [Role(1, "Admin", true), Role(0, "@everyone", false),
                                 Role(2, "Red", false), Role(3, "Blue", false)])
            == [Role(3, "Blue", false), Role(2, "Red", false)]
  {
    var red, blue := Role(2, "Red", false), Role(3, "Blue", false);
    var roles := [Role(1, "Admin", true), Role(0, "@everyone", false), red, blue];
    assert ListableRoles(roles) == [red, blue] by {
      assert roles[1..] == [Role(0, "@everyone", false), red, blue];
      assert roles[1..][1..] == [red, blue];
      assert [red, blue][1..] == [blue];
      assert [blue][1..] == [];
      assert ListableRoles([blue]) == [blue];
      assert ListableRoles([red, blue]) == [red, blue];
    }
    assert [red, blue][1..] == [blue];
    assert [blue][1..] == [];
    assert SortByName(compare, [blue]) == [blue];
    assert Insert(compare, red, [blue]) == [blue, red];
  }

  /** Two roles fit in one column: their names on two lines. */
  lemma ColumnOfTwo(a: Role, b: Role)
    ensures Columns([a, b]) == [a.name + "\n" + b.name]
  {
    assert Chunks([a, b], ColumnSize) == [[a, b]] by {
      assert [a, b][..2] == [a, b];
      assert [a, b][2..] == [];
      assert Chunks<Role>([], ColumnSize) == [];
    }
    assert Names([a, b]) == [a.name, b.name];
    assert [a.name, b.name][1..] == [b.name];
    assert Join([a.name, b.name], "\n") == a.name + "\n" + b.name;
    var cols := Columns([a, b]);
    assert |cols| == 1 && cols[0] == Join(Names([a, b]), "\n");
  }

  /** The same guild gets an embed with one column reading "Blue", a line break, "Red". */
  lemma RoleListScenario(compare: (string, string) -> int)
    requires compare("Red", "Blue") > 0
    ensures RoleListReply(compare, [Role(1, "Admin", true), Role(0, "@everyone", false),
                                    Role(2, "Red", false), Role(3, "Blue", false)])
            == Some(Embed("Available Roles", ["Blue" + "\n" + "Red"]))
  {
    var red, blue := Role(2, "Red", false), Role(3, "Blue", false);
    var roles := [Role(1, "Admin", true), Role(0, "@everyone", false), red, blue];
    ShownRolesScenario(compare);
    ColumnOfTwo(blue, red);
    assert |ShownRoles(compare, roles)| > 0;
    assert |Columns(ShownRoles(compare, roles))| == 1;
  }
}
