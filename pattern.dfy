// Construction of the scanner's regular expression.
//
// Both versions of the identifier build the pattern text
//   \b( e1 | e2 | ... | en )\b
// from the lexicon entries, each entry passed through `re.escape`, and compile
// it with IGNORECASE. The model writes out the escaping and the joining, and
// reads the pattern text back the way the regular-expression compiler reads a
// plain alternation of literals. The round trip `Compile(PatternSource(es)) ==
// Some(es)` is what "every entry is escaped so it matches literally" means:
// the compiled pattern has exactly the entries as its alternatives, in order.

module Pattern {
  import opened Results

  /** The characters `re.escape` (Python 3.7 and later) puts a backslash before. */
  predicate IsSpecial(c: char) {
    IsMeta(c) || c == '|' || c == '-' || c == '&' || c == '~' || c == '#' || c == ' '
    || c == '\t' || c == '\n' || c == '\r' || c as int == 11 || c as int == 12
  }

  /** The characters that have a meaning of their own when not escaped, other
      than the alternation bar. */
  predicate IsMeta(c: char) {
    c == '(' || c == ')' || c == '[' || c == ']' || c == '{' || c == '}' || c == '?'
    || c == '*' || c == '+' || c == '^' || c == '$' || c == '.' || c == '\\'
  }

  function EscapeChar(c: char): string {
    if IsSpecial(c) then ['\\', c] else [c]
  }

  /** `re.escape(s)`. */
  function Escape(s: string): string {
    if s == [] then [] else EscapeChar(s[0]) + Escape(s[1..])
  }

  /** `'|'.join(re.escape(e) for e in entries)`. */
  function JoinEscaped(entries: seq<string>): string
    requires |entries| > 0
  {
    if |entries| == 1 then Escape(entries[0])
    else Escape(entries[0]) + "|" + JoinEscaped(entries[1..])
  }

  /** The pattern text `r'\b(' + ... + r')\b'`. */
  function PatternSource(entries: seq<string>): string
    requires |entries| > 0
  {
    "\\b(" + JoinEscaped(entries) + ")\\b"
  }

  /** Adds `c` in front of the first alternative of a parse. */
  function Extend(c: char, parsed: Option<seq<string>>): (r: Option<seq<string>>)
    requires parsed.Some? ==> |parsed.value| > 0
    ensures r.Some? <==> parsed.Some?
    ensures r.Some? ==> |r.value| == |parsed.value| && r.value[0] == [c] + parsed.value[0]
                        && r.value[1..] == parsed.value[1..]
  {
    match parsed
    case None => None
    case Some(parts) => Some([[c] + parts[0]] + parts[1..])
  }

  /** Reads an alternation of literals: an unescaped `|` separates two
      alternatives, a backslash makes the special character after it literal,
      and any other unescaped metacharacter means the text is not a plain
      alternation of literals. */
  function ParseLiterals(s: string): (r: Option<seq<string>>)
    ensures r.Some? ==> |r.value| > 0
    decreases |s|
  {
    if s == [] then Some([""])
    else if s[0] == '\\' then
      if |s| >= 2 && IsSpecial(s[1]) then Extend(s[1], ParseLiterals(s[2..])) else None
    else if s[0] == '|' then
      match ParseLiterals(s[1..])
      case None => None
      case Some(rest) => Some([""] + rest)
    else if IsMeta(s[0]) then None
    else Extend(s[0], ParseLiterals(s[1..]))
  }

  /** The alternatives of a pattern `\b(...)\b` whose group is a plain
      alternation of literals; `None` for any other pattern text. */
  function Compile(source: string): Option<seq<string>> {
    if |source| >= 6 && source[..3] == "\\b(" && source[|source| - 3..] == ")\\b" then
      ParseLiterals(source[3..|source| - 3])
    else None
  }

  /** Reading one escaped character back yields it, in front of whatever follows. */
  lemma ParseEscapedChar(c: char, tail: string, parts: seq<string>)
    requires ParseLiterals(tail) == Some(parts)
    ensures ParseLiterals(EscapeChar(c) + tail) == Some([[c] + parts[0]] + parts[1..])
  {
    var s := EscapeChar(c) + tail;
    if IsSpecial(c) {
      assert s[0] == '\\' && s[1] == c && s[2..] == tail;
    } else {
      assert s[0] == c && s[1..] == tail;
      assert c != '\\' && c != '|' && !IsMeta(c);
    }
  }

  /** Escaping distributes over the first character. */
  lemma EscapeFront(e: string, rest: string)
    requires e != []
    ensures Escape(e) + rest == EscapeChar(e[0]) + (Escape(e[1..]) + rest)
  {
  }

  lemma PrependFirst(e: string, x: string)
    requires e != []
    ensures [e[0]] + (e[1..] + x) == e + x
  {
    assert [e[0]] + e[1..] == e;
  }

  /** Reading an escaped entry back yields the entry, in front of whatever
      follows it. */
  lemma {:induction false} ParseEscaped(e: string, rest: string, parts: seq<string>)
    requires ParseLiterals(rest) == Some(parts)
    ensures ParseLiterals(Escape(e) + rest) == Some([e + parts[0]] + parts[1..])
  {
    if e == [] {
      assert Escape(e) + rest == rest;
      assert e + parts[0] == parts[0];
      assert [e + parts[0]] + parts[1..] == parts;
    } else {
      var tail := Escape(e[1..]) + rest;
      var tailParts := [e[1..] + parts[0]] + parts[1..];
      ParseEscaped(e[1..], rest, parts);
      ParseEscapedChar(e[0], tail, tailParts);
      EscapeFront(e, rest);
      PrependFirst(e, parts[0]);
      assert tailParts[1..] == parts[1..];
    }
  }

  /** Splitting the joined, escaped entries on unescaped bars gives the entries back. */
  lemma {:induction false} ParseJoined(entries: seq<string>)
    requires |entries| > 0
    ensures ParseLiterals(JoinEscaped(entries)) == Some(entries)
  {
    var e := entries[0];
    if |entries| == 1 {
      ParseEscaped(e, "", [""]);
      assert Escape(e) + "" == Escape(e);
      assert e + "" == e;
      assert [e + ""] + [""][1..] == entries;
    } else {
      var rest := JoinEscaped(entries[1..]);
      ParseJoined(entries[1..]);
      assert ("|" + rest)[0] == '|' && ("|" + rest)[1..] == rest;
      assert ParseLiterals("|" + rest) == Some([""] + entries[1..]);
      ParseEscaped(e, "|" + rest, [""] + entries[1..]);
      assert Escape(e) + "|" + rest == Escape(e) + ("|" + rest);
      assert e + "" == e;
      assert ([""] + entries[1..])[0] == "" && ([""] + entries[1..])[1..] == entries[1..];
      assert [e] + entries[1..] == entries;
    }
  }

  /** The compiled pattern has exactly the lexicon entries as its alternatives,
      in the order they were joined, each to be matched literally. */
  lemma CompileRoundTrip(entries: seq<string>)
    requires |entries| > 0
    ensures Compile(PatternSource(entries)) == Some(entries)
  {
    var mid := JoinEscaped(entries);
    var source := PatternSource(entries);
    assert source[..3] == "\\b(";
    assert source[|source| - 3..] == ")\\b";
    assert source[3..|source| - 3] == mid;
    ParseJoined(entries);
  }
}
