/** The quote- and comment-aware scanner that the statement splitter and the placeholder
    converter share: which region of a SQL text a character belongs to. */
module SqlScan {

  datatype Mode = Plain | Quoted(quote: char) | LineComment | BlockComment

  predicate IsQuote(c: char) {
    c == '\'' || c == '"' || c == '`'
  }

  predicate StartsWith(text: string, c: char, d: char) {
    |text| > 1 && text[0] == c && text[1] == d
  }

  /** How many characters the scanner takes next, and the mode it is in after them. */
  function Step(mode: Mode, text: string, backslash: bool): (r: (nat, Mode))
    requires text != []
    ensures 1 <= r.0 <= 2 && r.0 <= |text|
  {
    var c := text[0];
    match mode
    case LineComment => (1, if c == '\n' then Plain else LineComment)
    case BlockComment => if StartsWith(text, '*', '/') then (2, Plain) else (1, BlockComment)
    case Quoted(q) =>
      if backslash && c == '\\' then (if |text| > 1 then 2 else 1, mode)
      else if c != q then (1, mode)
      else if StartsWith(text, q, q) then (2, mode)
      else (1, Plain)
    case Plain =>
      (1, if StartsWith(text, '-', '-') then LineComment
          else if StartsWith(text, '/', '*') then BlockComment
          else if IsQuote(c) then Quoted(c)
          else Plain)
  }

  /** The scanner's five flags, of which at most one is up. */
  ghost function ModeOf(single: bool, double: bool, backtick: bool, line: bool, block: bool): Mode {
    if line then LineComment
    else if block then BlockComment
    else if single then Quoted('\'')
    else if double then Quoted('"')
    else if backtick then Quoted('`')
    else Plain
  }

  ghost predicate AtMostOne(single: bool, double: bool, backtick: bool, line: bool, block: bool) {
    && (single ==> !double && !backtick && !line && !block)
    && (double ==> !backtick && !line && !block)
    && (backtick ==> !line && !block)
    && (line ==> !block)
  }

  /** One character, or an escaped or doubled pair, of a quoted region. */
  method TakeQuoted(sql: string, i: nat, quote: char, backslash: bool) returns (n: nat, inside: bool)
    requires i < |sql|
    ensures Step(Quoted(quote), sql[i..], backslash) == (n, if inside then Quoted(quote) else Plain)
  {
    if backslash && sql[i] == '\\' {
      return if i + 1 < |sql| then 2 else 1, true;
    }
    if sql[i] == quote {
      if i + 1 < |sql| && sql[i + 1] == quote {
        return 2, true;
      }
      return 1, false;
    }
    return 1, true;
  }
}
