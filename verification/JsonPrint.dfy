/**
 The text cJSON prints for a value, formatted or not
 (`print_value` and its callees in `src/cJSON/cJSON.c`).
 */
module JsonPrint {
  import opened CStrings
  import opened JsonText

  function HexChar(d: nat): char
    requires d < 16
  {
    if d < 10 then ('0' as int + d) as char else ('a' as int + (d - 10)) as char
  }

  function EscapeChar(c: char): (s: string)
    ensures |s| > 0
  {
    if c > 31 as char && c != '\"' && c != '\\' then [c]
    else
      match c
      case '\\' => "\\\\"
      case '\"' => "\\\""
      case '\U{08}' => "\\b"
      case '\U{0C}' => "\\f"
      case '\n' => "\\n"
      case '\r' => "\\r"
      case '\t' => "\\t"
      case _ => "\\u00" + [HexChar(c as int / 16), HexChar(c as int % 16)]
  }

  function Escape(s: string): string {
    if s == [] then "" else EscapeChar(s[0]) + Escape(s[1..])
  }

  function Quote(s: string): string {
    "\"" + Escape(s) + "\""
  }

  function Tabs(n: int): (s: string)
    ensures AllSpace(s)
    ensures |s| == if n < 0 then 0 else n
  {
    if n <= 0 then "" else "\t" + Tabs(n - 1)
  }

  function Print(v: Json, depth: nat, fmt: bool): string
    requires Printable(v)
    decreases v, 0
  {
    match v
    case Null => "null"
    case False => "false"
    case True => "true"
    case Number(r) => Decimal(r.Floor)
    case String(s) => Quote(s)
    case Array(items) => "[" + PrintItems(items, depth, fmt)
    case Object(members) =>
      if members == [] then "{" + If(fmt, "\n" + Tabs(depth - 1)) + "}"
      else "{" + If(fmt, "\n") + PrintMembers(members, depth, fmt)
  }

  /** The elements still to be written and the closing bracket. */
  function PrintItems(items: seq<Json>, depth: nat, fmt: bool): string
    requires PrintableItems(items)
    decreases items, 1
  {
    if items == [] then "]"
    else
      Print(items[0], depth + 1, fmt)
      + (if |items| > 1 then "," + If(fmt, " ") else "")
      + PrintItems(items[1..], depth, fmt)
  }

  function PrintMember(m: Member, depth: nat, fmt: bool): string
    requires PrintableMember(m)
    decreases m, 1
  {
    If(fmt, Tabs(depth + 1)) + Quote(m.name) + (":" + If(fmt, "\t")) + Print(m.value, depth + 1, fmt)
  }

  /** The members still to be written, the last indentation and the closing brace. */
  function PrintMembers(members: seq<Member>, depth: nat, fmt: bool): string
    requires PrintableMembers(members)
    decreases members, 1
  {
    if members == [] then If(fmt, Tabs(depth)) + "}"
    else
      PrintMember(members[0], depth, fmt)
      + ((if |members| > 1 then "," else "") + If(fmt, "\n"))
      + PrintMembers(members[1..], depth, fmt)
  }
}
