/**
 * JSON values, and the text that the printer gives them.
 */
module JsonValue {
  import opened JsonString

  datatype Member = Member(key: string, value: Value)

  /** A number is its text: printing and reading floating point is left to the C library. */
  datatype Value =
    | Null
    | False
    | True
    | Number(token: string)
    | Text(s: string)
    | Array(items: seq<Value>)
    | Object(members: seq<Member>)

  // ---- Text ----

  function Tabs(n: nat): (s: string)
    ensures |s| == n
  {
    seq(n, _ => '\t')
  }

  /** Text that only a formatted print has. */
  function Pretty(format: bool, s: string): string {
    if format then s else ""
  }

  function Render(v: Value, format: bool, depth: nat): string
    decreases v
  {
    match v
    case Null => "null"
    case False => "false"
    case True => "true"
    case Number(token) => token
    case Text(s) => Quoted(s)
    case Array(items) => "[" + RenderItems(v, 0, format, depth + 1)
    case Object(members) => "{" + Pretty(format, "\n") + RenderMembers(v, 0, format, depth + 1)
  }

  function Separator(last: bool, format: bool): string {
    if last then "" else "," + Pretty(format, " ")
  }

  /** The items from index i on, and the closing bracket. */
  function RenderItems(v: Value, i: nat, format: bool, depth: nat): string
    requires v.Array? && i <= |v.items|
    decreases v, |v.items| - i
  {
    if i == |v.items| then "]"
    else
      Render(v.items[i], format, depth)
      + (Separator(i + 1 == |v.items|, format) + RenderItems(v, i + 1, format, depth))
  }

  function MemberEnd(last: bool, format: bool): string {
    (if last then "" else ",") + Pretty(format, "\n")
  }

  function MemberStart(key: string, format: bool, depth: nat): string {
    Pretty(format, Tabs(depth)) + (Quoted(key) + (":" + Pretty(format, "\t")))
  }

  /** The members from index i on, and the closing brace. */
  function RenderMembers(v: Value, i: nat, format: bool, depth: nat): string
    requires v.Object? && i <= |v.members| && depth > 0
    decreases v, |v.members| - i
  {
    if i == |v.members| then Pretty(format, Tabs(depth - 1)) + "}"
    else
      MemberStart(v.members[i].key, format, depth)
      + (Render(v.members[i].value, format, depth)
      + (MemberEnd(i + 1 == |v.members|, format) + RenderMembers(v, i + 1, format, depth)))
  }

  // ---- Which values can be printed and read back ----

  predicate NumberChar(c: char) {
    '0' <= c <= '9' || c == '+' || c == '-' || c == 'e' || c == 'E' || c == '.'
  }

  /** Longest text that print_number accepts. */
  const NUMBER_LIMIT := 25

  /** strtod reads all of the token; scan gives how many characters strtod reads. */
  predicate NumberToken(token: string, scan: string -> nat) {
    && 0 < |token| <= NUMBER_LIMIT
    && (forall i :: 0 <= i < |token| ==> NumberChar(token[i]))
    && (token[0] == '-' || '0' <= token[0] <= '9')
    && scan(token) == |token|
  }

  /** Strings without NUL, numbers that strtod reads back, and no more than room levels of nesting. */
  ghost predicate Printable(v: Value, scan: string -> nat, room: int) {
    match v
    case Null => true
    case False => true
    case True => true
    case Number(token) => NumberToken(token, scan)
    case Text(s) => NoNul(s)
    case Array(items) => room > 0 && forall i :: 0 <= i < |items| ==> Printable(items[i], scan, room - 1)
    case Object(members) => room > 0 && forall i :: 0 <= i < |members| ==>
        NoNul(members[i].key) && Printable(members[i].value, scan, room - 1)
  }
}
