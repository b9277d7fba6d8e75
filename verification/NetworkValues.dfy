/** lib/netcheck/collectors/nic.py: what the parser of .network files reads, key by key.

    Every value of a key is kept, in the order of the lines, also when its section is opened again. */
module NetworkValues {
  import opened PythonBasics
  import opened PythonText
  import opened NetworkTemplate
  import opened NetworkParser

  /** The line as the parser sees it: cut at '#', and trimmed. */
  function Content(raw: string): string { Strip(Before(raw, '#')) }

  /** The value a token gives to a key, if it does. */
  ghost function ValueOf(part: string, key: string): seq<string>
  {
    var token := Strip(part);
    if token != "" && key != "" && Strip(Before(token, '=')) == key then [Strip(After(token, '='))] else []
  }

  ghost function ValuesOf(parts: seq<string>, key: string): seq<string>
  {
    if parts == [] then [] else ValuesOf(parts[..|parts| - 1], key) + ValueOf(parts[|parts| - 1], key)
  }

  /** The section a line after these would stand in: the one opened last. */
  ghost function LastOpened(lines: seq<string>): Option<string>
  {
    if lines == [] then None
    else
      var line := Content(lines[|lines| - 1]);
      if IsHeader(line) then Some(HeaderName(line)) else LastOpened(lines[..|lines| - 1])
  }

  /** All values a section gives to a key, in the order of the lines and of the tokens in each, wherever the section is
      opened again. */
  ghost function ValuesIn(lines: seq<string>, section: string, key: string): seq<string>
  {
    if lines == [] then []
    else
      var before, line := lines[..|lines| - 1], Content(lines[|lines| - 1]);
      ValuesIn(before, section, key)
      + if line != "" && !IsHeader(line) && LastOpened(before) == Some(section) then ValuesOf(Split(line, ','), key)
        else []
  }

  lemma {:induction false} Regroup<T>(a: seq<T>, b: seq<T>, c: seq<T>)
    ensures a + b + c == a + (b + c)
  {
  }

  lemma {:induction false} TokenCollects(keys: Keys, part: string, key: string)
    ensures Get(AddToken(keys, part), key, []) == Get(keys, key, []) + ValueOf(part, key)
  {
  }

  /** The tokens of a line add their values behind those that were there; none is lost. */
  lemma {:induction false} TokensCollect(keys: Keys, parts: seq<string>, key: string)
    ensures Get(AddTokens(keys, parts), key, []) == Get(keys, key, []) + ValuesOf(parts, key)
  {
    if parts != [] {
      var before, part := parts[..|parts| - 1], parts[|parts| - 1];
      TokensCollect(keys, before, key);
      TokenCollects(AddTokens(keys, before), part, key);
      Regroup(Get(keys, key, []), ValuesOf(before, key), ValueOf(part, key));
    }
  }

  /** A key is present exactly when some token gives it a value. */
  lemma {:induction false} TokensPresent(keys: Keys, parts: seq<string>, key: string)
    ensures key in AddTokens(keys, parts) <==> key in keys || ValuesOf(parts, key) != []
  {
    if parts != [] {
      TokensPresent(keys, parts[..|parts| - 1], key);
    }
  }

  lemma {:induction false} SectionIs(lines: seq<string>)
    ensures ParseLines(lines).cur == LastOpened(lines)
  {
    if lines != [] {
      SectionIs(lines[..|lines| - 1]);
    }
  }

  /** What one line leaves of a key of a section. */
  lemma {:induction false} LineValues(st: ParseState, raw: string, section: string, key: string)
    requires st.cur.Some? ==> st.cur.value in st.sections
    ensures var line := Content(raw);
            Get(Get(ParseLine(st, raw).sections, section, map[]), key, []) ==
              Get(Get(st.sections, section, map[]), key, []) +
              if line != "" && !IsHeader(line) && st.cur == Some(section) then ValuesOf(Split(line, ','), key) else []
  {
    var line := Content(raw);
    if line != "" && !IsHeader(line) && st.cur == Some(section) {
      TokensCollect(st.sections[section], Split(line, ','), key);
    }
  }

  /** What the parser reads for any key of any section: exactly the values its lines give it, in order. */
  lemma {:induction false} ParsedValues(lines: seq<string>, section: string, key: string)
    ensures Get(Get(ParseLines(lines).sections, section, map[]), key, []) == ValuesIn(lines, section, key)
  {
    if lines != [] {
      var before := lines[..|lines| - 1];
      ParsedValues(before, section, key);
      SectionIs(before);
      LineValues(ParseLines(before), lines[|lines| - 1], section, key);
    }
  }
}
