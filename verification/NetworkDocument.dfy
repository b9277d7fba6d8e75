/**
 * Documents of sections and entries, whatever they hold, as the two parsers of a .network file read them.
 *
 * Line by line, the checker of lib/netcheck/helper/network_template.py finds no error in a printed document, and the
 * parser of lib/netcheck/collectors/nic.py takes up its sections.
 */
module NetworkDocument {
  import opened PythonBasics
  import opened PythonText
  import opened NetworkTemplate
  import opened NetworkParser
  import opened NetworkTheorems

  /** A value both parsers keep as it stands. */
  ghost predicate GoodValue(v: string)
  {
    Trimmed(v) && NoBreaks(v) && ',' !in v && forall c :: c in VALUE_FORBIDDEN ==> c !in v
  }

  ghost predicate GoodSection(wl: Whitelist, s: Section)
  {
    s.name in wl &&
    forall i :: 0 <= i < |s.entries| ==> s.entries[i].key in wl[s.name] && GoodValue(s.entries[i].value)
  }

  ghost predicate AllGood(wl: Whitelist, doc: seq<Section>)
  {
    forall i :: 0 <= i < |doc| ==> GoodSection(wl, doc[i]) && doc[i].entries != []
  }

  ghost function KeysOf(keys: Keys, entries: seq<Entry>): Keys
  {
    if entries == [] then keys
    else
      var e := entries[|entries| - 1];
      AddValue(KeysOf(keys, entries[..|entries| - 1]), e.key, e.value)
  }

  /** What a document means: for each section name the values of each key, in order. */
  ghost function SectionsOf(doc: seq<Section>): Sections
  {
    if doc == [] then map[]
    else
      var before, s := SectionsOf(doc[..|doc| - 1]), doc[|doc| - 1];
      before[s.name := KeysOf(Get(before, s.name, map[]), s.entries)]
  }

  lemma {:induction false} PlainEdges(name: string)
    requires PlainName(name)
    ensures Trimmed(name) && NoBreaks(name) && name[0] != '[' && name[0] != ';' && name[0] != '#'
    ensures '#' !in name && ',' !in name && '=' !in name
  {
    assert forall i :: 0 <= i < |name| ==> name[i] in name;
  }

  lemma {:induction false} HeaderLine(wl: Whitelist, cs: CheckState, ps: ParseState, ln: nat, name: string)
    requires PlainWhitelist(wl)
    requires name in wl
    ensures var raw := "[" + name + "]";
            && NoBreaks(raw)
            && CheckLine(wl, cs, ln, raw) == cs.(section := Some(name))
            && ParseLine(ps, raw) == ParseState(Some(name), ps.sections[name := Get(ps.sections, name, map[])])
  {
    var raw := "[" + name + "]";
    PlainEdges(name);
    FindAbsent(raw, '#');
    assert raw[..|raw|] == raw;
    StripTrimmed(raw);
    assert raw[1..|raw| - 1] == name;
    assert cs.errors + [] == cs.errors;
  }

  /** The raw text of an entry, as every step of either parser sees it. */
  lemma {:induction false} EntryShape(key: string, value: string)
    requires PlainName(key) && GoodValue(value)
    ensures var raw := key + "=" + value;
            && NoBreaks(raw) && Trimmed(raw) && Strip(raw) == raw && Before(raw, '#') == raw && Split(raw, ',') == [raw]
            && Before(raw, '=') == key && After(raw, '=') == value && raw != "" && !IsComment(raw) && !IsHeader(raw) &&
               '=' in raw
            && Strip(key) == key && Strip(value) == value
  {
    var raw := key + "=" + value;
    PlainEdges(key);
    assert raw[|key|] == '=' && raw[0] == key[0];
    assert raw[..|key|] == key && raw[|key| + 1..] == value;
    FindUnique(raw, '=', |key|);
    assert '#' !in raw && ',' !in raw by {
      assert '#' in VALUE_FORBIDDEN;
    }
    FindAbsent(raw, '#');
    assert raw[..|raw|] == raw;
    SplitNothing(raw, ',');
    StripTrimmed(raw);
    StripTrimmed(key);
    StripTrimmed(value);
  }

  lemma {:induction false} EntryLine(wl: Whitelist, cs: CheckState, ps: ParseState, ln: nat, section: string, e: Entry)
    requires PlainWhitelist(wl)
    requires section in wl && e.key in wl[section] && GoodValue(e.value)
    requires cs.section == Some(section) && ps.cur == Some(section) && section in ps.sections
    ensures var raw := e.key + "=" + e.value;
            && NoBreaks(raw) && CheckLine(wl, cs, ln, raw) == cs
            && ParseLine(ps, raw)
               == ps.(sections := ps.sections[section := AddValue(ps.sections[section], e.key, e.value)])
  {
    var raw := e.key + "=" + e.value;
    EntryShape(e.key, e.value);
    assert !HasForbidden(e.value) by {
      assert forall i :: 0 <= i < |e.value| ==> e.value[i] in e.value;
    }
    assert cs.errors + [] + [] == cs.errors;
    assert AddTokens(ps.sections[section], [raw]) == AddToken(ps.sections[section], raw) by {
      assert [raw][..0] == [];
      assert AddTokens(ps.sections[section], [raw]) == AddToken(AddTokens(ps.sections[section], []), raw);
    }
  }

  /** Both parsers over a run of lines, one line further. */
  lemma {:induction false} LinesSnoc(wl: Whitelist, lines: seq<string>, raw: string)
    ensures CheckLines(wl, lines + [raw]) == CheckLine(wl, CheckLines(wl, lines), |lines| + 1, raw)
    ensures ParseLines(lines + [raw]) == ParseLine(ParseLines(lines), raw)
  {
    assert (lines + [raw])[..|lines|] == lines;
  }

  ghost predicate AllNoBreaks(lines: seq<string>)
  {
    forall i :: 0 <= i < |lines| ==> NoBreaks(lines[i])
  }

  lemma {:induction false} EntryAppended(wl: Whitelist, lines: seq<string>, section: string, e: Entry)
    requires PlainWhitelist(wl) && section in wl && e.key in wl[section] && GoodValue(e.value)
    requires CheckLines(wl, lines).section == Some(section) && ParseLines(lines).cur == Some(section)
    ensures var longer, ps := lines + [e.key + "=" + e.value], ParseLines(lines);
            && NoBreaks(e.key + "=" + e.value) && CheckLines(wl, longer) == CheckLines(wl, lines)
            && ParseLines(longer)
               == ps.(sections := ps.sections[section := AddValue(ps.sections[section], e.key, e.value)])
  {
    LinesSnoc(wl, lines, e.key + "=" + e.value);
    EntryLine(wl, CheckLines(wl, lines), ParseLines(lines), |lines| + 1, section, e);
  }

  lemma {:induction false} HeaderAppended(wl: Whitelist, lines: seq<string>, name: string)
    requires PlainWhitelist(wl) && name in wl
    ensures var longer, ps := lines + ["[" + name + "]"], ParseLines(lines);
            && NoBreaks("[" + name + "]") && CheckLines(wl, longer) == CheckLines(wl, lines).(section := Some(name))
            && ParseLines(longer) == ParseState(Some(name), ps.sections[name := Get(ps.sections, name, map[])])
  {
    LinesSnoc(wl, lines, "[" + name + "]");
    HeaderLine(wl, CheckLines(wl, lines), ParseLines(lines), |lines| + 1, name);
  }

  /** The blank line that closes a section changes nothing. */
  lemma {:induction false} BlankAppended(wl: Whitelist, lines: seq<string>)
    ensures CheckLines(wl, lines + [""]) == CheckLines(wl, lines) && ParseLines(lines + [""]) == ParseLines(lines)
  {
    LinesSnoc(wl, lines, "");
  }

  lemma {:induction false} Regroup(a: seq<string>, b: seq<string>, c: seq<string>)
    ensures a + (b + c) == (a + b) + c
  {
  }

  lemma {:induction false} EntriesRead(wl: Whitelist, lines: seq<string>, s: Section)
    requires PlainWhitelist(wl) && GoodSection(wl, s)
    requires CheckLines(wl, lines).section == Some(s.name) && ParseLines(lines).cur == Some(s.name)
    ensures CheckLines(wl, lines + EntryLines(s.entries)) == CheckLines(wl, lines)
    ensures var before, after := ParseLines(lines), ParseLines(lines + EntryLines(s.entries));
            && after.cur == Some(s.name)
            && after.sections == before.sections[s.name := KeysOf(before.sections[s.name], s.entries)]
    decreases |s.entries|
  {
    if s.entries == [] {
      assert lines + [] == lines;
    } else {
      var n := |s.entries| - 1;
      var shorter, e := Section(s.name, s.entries[..n]), s.entries[n];
      EntriesRead(wl, lines, shorter);
      var sofar := lines + EntryLines(shorter.entries);
      EntryAppended(wl, sofar, s.name, e);
      Regroup(lines, EntryLines(shorter.entries), [e.key + "=" + e.value]);
    }
  }

  lemma {:induction false} SectionRead(wl: Whitelist, lines: seq<string>, s: Section)
    requires PlainWhitelist(wl) && GoodSection(wl, s)
    ensures CheckLines(wl, lines + SectionLines(s)).errors == CheckLines(wl, lines).errors
    ensures var before, after := ParseLines(lines).sections, ParseLines(lines + SectionLines(s)).sections;
            after == before[s.name := KeysOf(Get(before, s.name, map[]), s.entries)]
  {
    var body := lines + ["[" + s.name + "]"];
    var all := body + EntryLines(s.entries);
    assert lines + SectionLines(s) == lines + ["[" + s.name + "]"] + EntryLines(s.entries) + [""];
    HeaderAppended(wl, lines, s.name);
    EntriesRead(wl, body, s);
    BlankAppended(wl, all);
  }

  lemma {:induction false} EntriesNoBreaks(wl: Whitelist, s: Section)
    requires PlainWhitelist(wl) && GoodSection(wl, s)
    ensures AllNoBreaks(EntryLines(s.entries))
    decreases |s.entries|
  {
    if s.entries != [] {
      var n := |s.entries| - 1;
      EntriesNoBreaks(wl, Section(s.name, s.entries[..n]));
      EntryShape(s.entries[n].key, s.entries[n].value);
    }
  }

  lemma {:induction false} DocumentNoBreaks(wl: Whitelist, doc: seq<Section>)
    requires PlainWhitelist(wl) && forall i :: 0 <= i < |doc| ==> GoodSection(wl, doc[i])
    ensures AllNoBreaks(DocumentLines(doc))
  {
    if doc != [] {
      var n := |doc| - 1;
      DocumentNoBreaks(wl, doc[..n]);
      EntriesNoBreaks(wl, doc[n]);
      PlainEdges(doc[n].name);
      assert NoBreaks("[" + doc[n].name + "]");
    }
  }

  lemma {:induction false} DocumentReadStep(wl: Whitelist, doc: seq<Section>, s: Section)
    requires PlainWhitelist(wl) && GoodSection(wl, s)
    requires CheckLines(wl, DocumentLines(doc)).errors == [] &&
             ParseLines(DocumentLines(doc)).sections == SectionsOf(doc)
    ensures CheckLines(wl, DocumentLines(doc + [s])).errors == []
    ensures ParseLines(DocumentLines(doc + [s])).sections == SectionsOf(doc + [s])
  {
    SectionRead(wl, DocumentLines(doc), s);
    DocumentSnoc(doc, s);
    assert (doc + [s])[..|doc|] == doc;
  }

  lemma {:induction false} DocumentRead(wl: Whitelist, doc: seq<Section>)
    requires PlainWhitelist(wl) && forall i :: 0 <= i < |doc| ==> GoodSection(wl, doc[i])
    ensures CheckLines(wl, DocumentLines(doc)).errors == []
    ensures ParseLines(DocumentLines(doc)).sections == SectionsOf(doc)
  {
    if doc != [] {
      var n := |doc| - 1;
      DocumentRead(wl, doc[..n]);
      DocumentReadStep(wl, doc[..n], doc[n]);
      assert doc == doc[..n] + [doc[n]];
    }
  }

  /** The last section's last entry is the last line but one, before the closing blank. */
  lemma {:induction false} LastLine(wl: Whitelist, doc: seq<Section>)
    requires PlainWhitelist(wl)
    requires doc != [] && GoodSection(wl, doc[|doc| - 1]) && doc[|doc| - 1].entries != []
    ensures var lines := DocumentLines(doc);
            && |lines| >= 2 && lines == lines[..|lines| - 1] + [""]
            && Trimmed(lines[|lines| - 2]) && lines[|lines| - 2] != ""
  {
    var s := doc[|doc| - 1];
    var e := s.entries[|s.entries| - 1];
    assert PlainName(e.key);
    EntryShape(e.key, e.value);
  }

  // Sections and entries with distinct keys, one at a time.

  lemma {:induction false} KeysSnoc(entries: seq<Entry>, e: Entry)
    ensures KeysOf(map[], entries + [e]) == AddValue(KeysOf(map[], entries), e.key, e.value)
  {
    assert (entries + [e])[..|entries|] == entries;
  }

  lemma {:induction false} OneKey(a: Entry)
    ensures KeysOf(map[], [a]) == map[a.key := [a.value]]
  {
    KeysSnoc([], a);
    assert [] + [a] == [a];
  }

  lemma {:induction false} TwoKeys(a: Entry, b: Entry)
    requires a.key != b.key
    ensures KeysOf(map[], [a, b]) == map[a.key := [a.value], b.key := [b.value]]
  {
    OneKey(a);
    KeysSnoc([a], b);
    assert [a] + [b] == [a, b];
  }

  lemma {:induction false} ThreeKeys(a: Entry, b: Entry, c: Entry)
    requires a.key != b.key && a.key != c.key && b.key != c.key
    ensures KeysOf(map[], [a, b, c]) == map[a.key := [a.value], b.key := [b.value], c.key := [c.value]]
  {
    TwoKeys(a, b);
    KeysSnoc([a, b], c);
    assert [a, b] + [c] == [a, b, c];
  }

  /** A section with a new name adds exactly its own keys. */
  lemma {:induction false} SectionsSnoc(doc: seq<Section>, s: Section)
    requires s.name !in SectionsOf(doc)
    ensures SectionsOf(doc + [s]) == SectionsOf(doc)[s.name := KeysOf(map[], s.entries)]
  {
    assert (doc + [s])[..|doc|] == doc;
  }

  lemma {:induction false} TwoSections(a: Section, b: Section)
    requires a.name != b.name
    ensures SectionsOf([a, b]) == map[a.name := KeysOf(map[], a.entries), b.name := KeysOf(map[], b.entries)]
  {
    SectionsSnoc([], a);
    assert [] + [a] == [a] && [a] + [b] == [a, b];
    assert SectionsOf([a]).Keys == {a.name};
    SectionsSnoc([a], b);
  }
}
