/** The part of `JSON.stringify` the code relies on: a string becomes a
    double-quoted JSON string literal. Quotation marks and backslashes are
    escaped, the control characters U+0000..U+001F become their short
    escapes (\b \t \n \f \r) or a lower-case `\u00XX` escape, and every
    other character is copied. */
module Json {
  import opened Wrappers

  /** The lower-case hexadecimal digit for `d`. */
  function HexDigit(d: nat): char
    requires d < 16
  {
    if d < 10 then ('0' as int + d) as char else ('a' as int + d - 10) as char
  }

  /** The value of a hexadecimal digit, either case. */
  function HexValue(c: char): Option<nat> {
    if '0' <= c <= '9' then Some(c as int - '0' as int)
    else if 'a' <= c <= 'f' then Some(c as int - 'a' as int + 10)
    else if 'A' <= c <= 'F' then Some(c as int - 'A' as int + 10)
    else None
  }

  /** The letter of the short escape `\x` for a character that has one. */
  function ShortCode(c: char): Option<char> {
    if c == '"' then Some('"')
    else if c == '\\' then Some('\\')
    else if c == 8 as char then Some('b')
    else if c == '\t' then Some('t')
    else if c == '\n' then Some('n')
    else if c == 12 as char then Some('f')
    else if c == '\r' then Some('r')
    else None
  }

  /** The text one character becomes inside a JSON string literal. */
  function EscapeChar(c: char): string {
    match ShortCode(c)
    case Some(x) => ['\\', x]
    case None =>
      if c < 32 as char then ['\\', 'u', '0', '0', HexDigit(c as int / 16), HexDigit(c as int % 16)]
      else [c]
  }

  /** The escaped body of a string literal. */
  function Escape(s: string): string {
    if s == [] then [] else EscapeChar(s[0]) + Escape(s[1..])
  }

  /** `JSON.stringify(s)` for a string `s`. */
  function Quote(s: string): string {
    "\"" + Escape(s) + "\""
  }

  /** The character a short escape `\c` stands for. */
  function ShortEscape(c: char): Option<char> {
    match c
    case '"' => Some('"')
    case '\\' => Some('\\')
    case '/' => Some('/')
    case 'b' => Some(8 as char)
    case 't' => Some('\t')
    case 'n' => Some('\n')
    case 'f' => Some(12 as char)
    case 'r' => Some('\r')
    case _ => None
  }

  function Prepend(c: char, r: Option<string>): Option<string> {
    match r
    case Some(s) => Some([c] + s)
    case None => None
  }

  /** Reads the body of a JSON string literal back into the string it
      denotes; `None` when the body is not well formed. */
  function Unescape(t: string): Option<string>
    decreases |t|
  {
    if t == [] then Some([])
    else if t[0] != '\\' then
      if t[0] == '"' || t[0] < 32 as char then None else Prepend(t[0], Unescape(t[1..]))
    else if |t| < 2 then None
    else if t[1] == 'u' then
      if |t| < 6 then None
      else match (HexValue(t[2]), HexValue(t[3]), HexValue(t[4]), HexValue(t[5]))
        case (Some(a), Some(b), Some(c), Some(d)) =>
          var v := ((a * 16 + b) * 16 + c) * 16 + d;
          if 0xD800 <= v < 0xE000 then None else Prepend(v as char, Unescape(t[6..]))
        case _ => None
    else match ShortEscape(t[1])
      case Some(c) => Prepend(c, Unescape(t[2..]))
      case None => None
  }

  /** Reads a JSON string literal. */
  function Unquote(t: string): Option<string> {
    if |t| >= 2 && t[0] == '"' && t[|t| - 1] == '"' then Unescape(t[1..|t| - 1]) else None
  }

  lemma HexRoundTrip(d: nat)
    requires d < 16
    ensures HexValue(HexDigit(d)) == Some(d)
  {
  }

  /** Reading an escaped character gives the character back and goes on
      with what follows it. */
  lemma UnescapeChar(c: char, rest: string)
    ensures Unescape(EscapeChar(c) + rest) == Prepend(c, Unescape(rest))
  {
    var t := EscapeChar(c) + rest;
    match ShortCode(c) {
      case Some(x) =>
        assert t[2..] == rest;
      case None =>
        if c < 32 as char {
          var hi, lo := c as int / 16, c as int % 16;
          HexRoundTrip(hi);
          HexRoundTrip(lo);
          assert t[6..] == rest;
        } else {
          assert t[1..] == rest;
        }
    }
  }

  /** Reading an escaped body gives the string back. */
  lemma {:induction false} UnescapeEscape(s: string)
    ensures Unescape(Escape(s)) == Some(s)
  {
    if s != [] {
      UnescapeEscape(s[1..]);
      UnescapeChar(s[0], Escape(s[1..]));
      assert [s[0]] + s[1..] == s;
    }
  }

  /** `JSON.parse` undoes `JSON.stringify` on strings. */
  lemma QuoteRoundTrip(s: string)
    ensures Unquote(Quote(s)) == Some(s)
  {
    var t := Quote(s);
    assert t[1..|t| - 1] == Escape(s);
    UnescapeEscape(s);
  }

  /** A quoted string never holds a raw line break. */
  lemma {:induction false} QuoteHasNoLineBreak(s: string)
    ensures '\n' !in Quote(s)
  {
    EscapeHasNoLineBreak(s);
  }

  lemma {:induction false} EscapeHasNoLineBreak(s: string)
    ensures '\n' !in Escape(s)
  {
    if s != [] {
      EscapeHasNoLineBreak(s[1..]);
    }
  }
}
