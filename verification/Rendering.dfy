/** The text the printers produce, formatted or not. */
module Rendering {
  import opened CStrings
  import opened Json
  import opened Decimals

  const QUOTE: Char8 := 34
  const COMMA: Char8 := 44
  const COLON: Char8 := 58
  const OPEN_BRACKET: Char8 := 91
  const BACKSLASH: Char8 := 92
  const CLOSE_BRACKET: Char8 := 93
  const OPEN_BRACE: Char8 := 123
  const CLOSE_BRACE: Char8 := 125
  const SPACE: Char8 := 32
  const TAB: Char8 := 9
  const NEWLINE: Char8 := 10

  const NULL_TEXT: CStr := [110, 117, 108, 108]
  const FALSE_TEXT: CStr := [102, 97, 108, 115, 101]
  const TRUE_TEXT: CStr := [116, 114, 117, 101]

  function HexDigit(d: int): Char8
    requires 0 <= d < 16
  {
    if d < 10 then 48 + d else 87 + d
  }

  /** A byte of a string as it appears between the quotes. */
  function Escape(c: Char8): (r: CStr)
    ensures |r| > 0
    ensures c > 31 && c != QUOTE && c != BACKSLASH ==> r == [c]
    ensures !(c > 31 && c != QUOTE && c != BACKSLASH) ==> r[0] == BACKSLASH && (|r| == 2 || |r| == 6)
  {
    if c > 31 && c != QUOTE && c != BACKSLASH then [c]
    else if c == BACKSLASH then [BACKSLASH, BACKSLASH]
    else if c == QUOTE then [BACKSLASH, QUOTE]
    else if c == 8 then [BACKSLASH, 98]
    else if c == 12 then [BACKSLASH, 102]
    else if c == NEWLINE then [BACKSLASH, 110]
    else if c == 13 then [BACKSLASH, 114]
    else if c == TAB then [BACKSLASH, 116]
    else [BACKSLASH, 117, 48, 48, HexDigit(c / 16), HexDigit(c % 16)]
  }

  function EscapeAll(s: CStr): CStr {
    if s == [] then [] else Escape(s[0]) + EscapeAll(s[1..])
  }

  function RenderString(s: CStr): CStr {
    [QUOTE] + EscapeAll(s) + [QUOTE]
  }

  function Tabs(n: nat): (r: CStr)
    ensures |r| == n
  {
    seq(n, i => TAB)
  }

  /** The text of a value whose container is `depth` levels deep. */
  function Render(j: Json, format: bool, depth: nat): (r: CStr)
    decreases j
  {
    match j
    case Invalid => []
    case False => FALSE_TEXT
    case True => TRUE_TEXT
    case Null => NULL_TEXT
    case Number(n) => DecInt(n)
    case Text(s) => RenderString(s)
    case Raw(s) => s
    case Array(es) => [OPEN_BRACKET] + RenderElements(es, format, depth + 1) + [CLOSE_BRACKET]
    case Object(ms) => OpenObject(format) + RenderMembers(ms, format, depth + 1) + CloseObject(format, depth)
  }

  function OpenObject(format: bool): CStr {
    if format then [OPEN_BRACE, NEWLINE] else [OPEN_BRACE]
  }

  function CloseObject(format: bool, depth: nat): CStr {
    Indent(format, depth) + [CLOSE_BRACE]
  }

  function Separator(format: bool): CStr {
    if format then [COMMA, SPACE] else [COMMA]
  }

  function RenderElements(es: seq<Json>, format: bool, depth: nat): CStr
    decreases es
  {
    if es == [] then []
    else Render(es[0], format, depth) + (if |es| > 1 then Separator(format) else []) + RenderElements(es[1..], format, depth)
  }

  /** What comes before the value of a member, and what comes after it. */
  function MemberHead(key: CStr, format: bool, depth: nat): CStr {
    Indent(format, depth) + RenderString(key) + ColonText(format)
  }

  function Indent(format: bool, depth: nat): CStr {
    if format then Tabs(depth) else []
  }

  function ColonText(format: bool): CStr {
    if format then [COLON, TAB] else [COLON]
  }

  function MemberEnd(last: bool, format: bool): CStr {
    (if last then [] else [COMMA]) + (if format then [NEWLINE] else [])
  }

  function RenderMembers(ms: Members, format: bool, depth: nat): CStr
    decreases ms
  {
    if ms == [] then []
    else MemberHead(ms[0].key, format, depth) + Render(ms[0].item, format, depth) + MemberEnd(|ms| == 1, format) +
         RenderMembers(ms[1..], format, depth)
  }
}
