/**
 * Parsed JSON values as the scripts see them after `JSON.parse`, the
 * property reads and truthiness tests they apply, and `JSON.stringify`.
 */
module Json {
  import opened Wrappers
  import Text

  /**
   * A parsed JSON value. An object is its list of members; unlike an object
   * `JSON.parse` builds, the list may repeat a key and may hold its members
   * in any order.
   */
  datatype Json =
    | JNull
    | JBool(b: bool)
    | JNumber(n: int)
    | JString(text: string)
    | JArray(items: seq<Json>)
    | JObject(members: seq<Member>)

  datatype Member = Member(key: string, value: Json)

  /** The value of the last member named `key` (a later duplicate key overrides an earlier one). */
  function Lookup(members: seq<Member>, key: string): Option<Json>
    decreases |members|
  {
    if members == [] then None
    else if members[|members| - 1].key == key then Some(members[|members| - 1].value)
    else Lookup(members[..|members| - 1], key)
  }

  /** A key is found exactly when some member has it, and then its value is the last such member's. */
  lemma {:induction false} LookupFindsLast(members: seq<Member>, key: string)
    ensures var r := Lookup(members, key);
      && (r.None? <==> forall i :: 0 <= i < |members| ==> members[i].key != key)
      && (r.Some? ==> exists i :: 0 <= i < |members| && members[i] == Member(key, r.value)
                        && forall k :: i < k < |members| ==> members[k].key != key)
    decreases |members|
  {
    if members != [] && members[|members| - 1].key != key {
      var init := members[..|members| - 1];
      LookupFindsLast(init, key);
      if Lookup(init, key).Some? {
        var i :| 0 <= i < |init| && init[i] == Member(key, Lookup(init, key).value)
                 && forall k :: i < k < |init| ==> init[k].key != key;
        assert members[i] == init[i];
      }
    }
  }

  /**
   * `v[key]` on a value that is not null: an object's member, or `undefined`
   * (None) when the object has no such member or the value is not an object.
   */
  function Get(v: Option<Json>, key: string): Option<Json> {
    match v
    case Some(JObject(members)) => Lookup(members, key)
    case _ => None
  }

  /** `Boolean(v)`: `undefined`, `null`, `false`, `0` and `""` are falsy. */
  predicate Truthy(v: Option<Json>) {
    match v
    case None => false
    case Some(JNull) => false
    case Some(JBool(b)) => b
    case Some(JNumber(n)) => n != 0
    case Some(JString(t)) => t != []
    case Some(JArray(_)) => true
    case Some(JObject(_)) => true
  }

  /** `Array.isArray(v)` */
  predicate IsArray(v: Option<Json>) {
    v.Some? && v.value.JArray?
  }

  /** `typeof v === "string"` */
  predicate IsString(v: Option<Json>) {
    v.Some? && v.value.JString?
  }

  /** A non-empty string: what `!v || typeof v !== "string"` rejects is everything else. */
  predicate IsNonEmptyString(v: Option<Json>) {
    IsString(v) && v.value.text != []
  }

  function Digit(d: nat): char
    requires d < 10
  {
    "0123456789"[d]
  }

  function NatToString(n: nat): string
    decreases n
  {
    if n < 10 then [Digit(n)] else NatToString(n / 10) + [Digit(n % 10)]
  }

  function IntToString(n: int): string {
    if n < 0 then "-" + NatToString(-n) else NatToString(n)
  }

  function HexDigit(d: nat): char
    requires d < 16
  {
    "0123456789abcdef"[d]
  }

  /** How `JSON.stringify` writes one character inside a string literal. */
  function EscapeChar(c: char): string {
    if c == '"' then "\\\""
    else if c == '\\' then "\\\\"
    else if c == '\n' then "\\n"
    else if c == '\r' then "\\r"
    else if c == '\t' then "\\t"
    else if c == '\U{0008}' then "\\b"
    else if c == '\U{000C}' then "\\f"
    else if (c as int) < 0x20 then "\\u00" + [HexDigit(c as int / 16), HexDigit(c as int % 16)]
    else [c]
  }

  function Escape(t: string): string
    decreases |t|
  {
    if t == [] then [] else EscapeChar(t[0]) + Escape(t[1..])
  }

  function Quote(t: string): string {
    "\"" + Escape(t) + "\""
  }

  /**
   * `JSON.stringify(v, null, gap)` at nesting `indent`: with the empty gap
   * everything is on one line; with a gap every element and member starts a
   * new line indented by one more gap, and empty arrays and objects stay `[]`/`{}`.
   */
  function Stringify(v: Json, gap: string, indent: string): string
    decreases v, 1
  {
    match v
    case JNull => "null"
    case JBool(b) => if b then "true" else "false"
    case JNumber(n) => IntToString(n)
    case JString(t) => Quote(t)
    case JArray(items) =>
      if items == [] then "[]"
      else Bracket("[", StringifyItems(items, gap, indent + gap), "]", gap, indent)
    case JObject(members) =>
      if members == [] then "{}"
      else Bracket("{", StringifyMembers(members, gap, indent + gap), "}", gap, indent)
  }

  function StringifyItems(items: seq<Json>, gap: string, indent: string): seq<string>
    decreases items, 0
  {
    if items == [] then []
    else [Stringify(items[0], gap, indent)] + StringifyItems(items[1..], gap, indent)
  }

  function StringifyMembers(members: seq<Member>, gap: string, indent: string): seq<string>
    decreases members, 0
  {
    if members == [] then []
    else
      var colon := if gap == [] then ":" else ": ";
      [Quote(members[0].key) + colon + Stringify(members[0].value, gap, indent)]
        + StringifyMembers(members[1..], gap, indent)
  }

  function Bracket(open: string, parts: seq<string>, close: string, gap: string, indent: string): string {
    if gap == [] then open + Text.Join(parts, ",") + close
    else
      var inner := indent + gap;
      open + "\n" + inner + Text.Join(parts, ",\n" + inner) + "\n" + indent + close
  }

  /** `JSON.stringify(v)` */
  function Compact(v: Json): string {
    Stringify(v, [], [])
  }

  /** `JSON.stringify(v, null, 2)` */
  function Pretty(v: Json): string {
    Stringify(v, "  ", [])
  }
}
