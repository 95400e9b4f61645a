/** What an INI file says, read line by line and without touching it. */
module IniReference {
  import opened Wrappers
  import opened IniText
  import opened IniTokens

  datatype Item = Section(name: string) | Entry(key: string, value: string)

  // What is left of `s` after its first `n` characters.
  function Drop(s: string, n: nat): (r: string)
    ensures |r| == if n <= |s| then |s| - n else 0
  {
    if n <= |s| then s[n..] else ""
  }

  // The value in the text after a '=', and what is left of the line after it: nothing
  // after a quoted value, and otherwise what follows a NUL.
  function ReadValue(text: string): (r: Option<(string, string)>)
    ensures r.Some? ==> |r.value.1| <= |text|
  {
    if text == "" || text[0] == NUL then None
    else if text[0] == '"' then
      var value := Unescape(text[1..]);
      if value == "" then None else Some((value, ""))
    else
      var n := Span(text, "");
      Some((TrimEnd(text[..n]), text[n..]))
  }

  // The text after the '=' at `eq` and the blanks that follow it.
  function ValueText(line: string, eq: nat): (text: string)
    requires eq < |line|
    ensures |text| < |line|
  {
    line[eq + 1..][BlankPrefix(line[eq + 1..])..]
  }

  // The items of one line.  A NUL ends a header, a key or a plain value as the end of the
  // line would; after a header or a plain value the scan goes on behind it.
  function LineItems(line: string): (items: seq<Item>)
    decreases |line|
  {
    if line == "" || line[0] == ';' then []
    else if IsBlank(line[0]) || line[0] == NUL then LineItems(line[1..])
    else if line[0] == '[' then
      var name := line[1..][..Span(line[1..], "]")];
      [Section(name)] + LineItems(Drop(line, |name| + 2))
    else
      var eq := Span(line, "=");
      if eq == |line| || line[eq] == NUL then []
      else match ReadValue(ValueText(line, eq))
        case None => []
        case Some((value, rest)) => [Entry(TrimEnd(line[..eq]), value)] + LineItems(rest)
  }

  function FileItems(file: string): (items: seq<Item>)
    decreases |file|
  {
    var n := LineLength(file);
    if n == |file| then LineItems(file)
    else LineItems(file[..n]) + FileItems(file[n + 1..])
  }

  // Each entry belongs to the last section named before it.
  function InSections(items: seq<Item>, section: string): (r: seq<Setting>)
  {
    if items == [] then []
    else match items[0]
      case Section(name) => InSections(items[1..], name)
      case Entry(key, value) => [Setting(section, key, value)] + InSections(items[1..], section)
  }

  function FileSettings(file: string): seq<Setting> {
    InSections(FileItems(file), "")
  }
}
