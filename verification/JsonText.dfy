/** A string as `json.dumps` writes it when non-ASCII characters are kept. */
module JsonText {
  import opened Unicode

  function HexDigit(v: nat): (c: Code)
    requires v < 16
  {
    if v < 10 then 0x30 + v else 0x61 + v - 10
  }

  function Escaped(c: Code): (t: Text)
    ensures t != [] && t[0] != QUOTE
  {
    if c == QUOTE then [BACKSLASH, QUOTE]
    else if c == BACKSLASH then [BACKSLASH, BACKSLASH]
    else if c == 0x0A then [BACKSLASH, 0x6E]
    else if c == 0x0D then [BACKSLASH, 0x72]
    else if c == 0x09 then [BACKSLASH, 0x74]
    else if c == 0x0C then [BACKSLASH, 0x66]
    else if c == 0x08 then [BACKSLASH, 0x62]
    else if c < 0x20 then [BACKSLASH, 0x75, 0x30, 0x30, HexDigit(c / 16), HexDigit(c % 16)]
    else [c]
  }

  function EscapeAll(value: Text): (t: Text) {
    if value == [] then [] else Escaped(value[0]) + EscapeAll(value[1..])
  }

  function Dumps(value: Text): (t: Text)
    ensures |t| >= 2
  {
    [QUOTE] + EscapeAll(value) + [QUOTE]
  }
}
