/**
  The platform entities both bots read: a guild role (its identifier, display name and
  whether an external integration manages it), and the text helpers used to render replies.
 */
module Guild {

  /** A role of a guild as the platform reports it. */
  datatype Role = Role(id: nat, name: string, managed: bool)

  /** A reply sent back to the invoker: plain text, or an embed whose fields are side-by-side columns. */
  datatype Reply = Text(content: string) | Embed(title: string, columns: seq<string>)

  /** The display names of a sequence of roles, in the same order. */
  function Names(roles: seq<Role>): (names: seq<string>)
    ensures |names| == |roles|
    ensures forall i :: 0 <= i < |roles| ==> names[i] == roles[i].name
  {
    if roles == [] then [] else [roles[0].name] + Names(roles[1..])
  }

  /** `parts.join(sep)` in JavaScript and `sep.join(parts)` in Python. */
  function Join(parts: seq<string>, sep: string): string
  {
    if parts == [] then ""
    else if |parts| == 1 then parts[0]
    else parts[0] + sep + Join(parts[1..], sep)
  }
}
