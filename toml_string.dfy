/**
 * Reading a basic string of TOML v1.0.0 (section "String" of the TOML
 * specification): the text between quotation marks, in which a quotation
 * mark, a backslash and the control characters other than tab must be
 * escaped. This decoder is what a front-matter reader applies to the title
 * line of a page, so it is the partner of the title escaping.
 */
module TomlString {
  import opened Wrappers

  /** Characters that may not appear unescaped in a basic string. */
  predicate IsControl(c: char) {
    (c as int < 0x20 && c != '\t') || c as int == 0x7F
  }

  /** The short escapes `\b \t \n \f \r \" \\`; the `\u` and `\U` forms are not decoded. */
  function Unescape(c: char): Option<char> {
    if c == 'b' then Some(8 as char)
    else if c == 't' then Some('\t')
    else if c == 'n' then Some('\n')
    else if c == 'f' then Some(12 as char)
    else if c == 'r' then Some('\r')
    else if c == '"' then Some('"')
    else if c == '\\' then Some('\\')
    else None
  }

  function Prepend(c: char, r: Option<(string, string)>): Option<(string, string)> {
    match r
    case None => None
    case Some((text, rest)) => Some(([c] + text, rest))
  }

  /**
   * Decodes the body of a basic string that starts right after its opening
   * quotation mark: the decoded text up to the closing quotation mark, and what
   * follows that mark. `None` for an unterminated string, a bad escape or an
   * unescaped control character.
   */
  function DecodeBasic(s: string): (r: Option<(string, string)>)
    ensures r.Some? ==> |r.value.1| < |s|
    decreases |s|
  {
    if s == [] then None
    else if s[0] == '"' then Some(("", s[1..]))
    else if s[0] == '\\' then
      if |s| < 2 then None
      else match Unescape(s[1])
        case None => None
        case Some(c) => Prepend(c, DecodeBasic(s[2..]))
    else if IsControl(s[0]) then None
    else Prepend(s[0], DecodeBasic(s[1..]))
  }
}
