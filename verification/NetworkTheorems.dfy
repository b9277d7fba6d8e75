/** lib/netcheck/helper/network_template.py: what its checker guarantees about the parser of nic.py. */
module NetworkTheorems {
  import opened PythonBasics
  import opened PythonText
  import opened NetworkTemplate
  import opened NetworkParser

  // ---------- soundness of the checker for the parser, for any whitelist of plain names ----------

  ghost predicate Whitelisted(wl: Whitelist, sections: Sections)
  {
    forall s :: s in sections ==> s in wl && sections[s].Keys <= wl[s]
  }

  /** A comma-separated token that the parser files under a key the section does not allow. */
  ghost predicate BadToken(wl: Whitelist, section: string, part: string)
    requires section in wl
  {
    var token := Strip(part);
    var k := Strip(Before(token, '='));
    token != "" && k != "" && k !in wl[section]
  }

  /** A line the checker reads differently from the parser: a ';' comment inside a section, or a value
      with a comma behind which the parser finds another, unlisted key. */
  ghost predicate Smuggles(wl: Whitelist, section: Option<string>, raw: string)
    requires section.Some? ==> section.value in wl
  {
    var line := Strip(raw);
    section.Some? && line != "" && !StartsWith(line, '#') &&
    (StartsWith(line, ';') ||
     (!IsHeader(line) && exists i :: 1 <= i < |Split(line, ',')| && BadToken(wl, section.value, Split(line, ',')[i])))
  }

  predicate PlainChar(c: char) { 'A' <= c <= 'Z' || 'a' <= c <= 'z' || '0' <= c <= '9' }

  /** Whitelisted names hold no character that either parser treats specially. */
  ghost predicate PlainName(s: string)
  {
    s != "" && forall c :: c in s ==> PlainChar(c)
  }

  /** A whitelist whose section and key names are all plain. */
  ghost predicate PlainWhitelist(wl: Whitelist)
  {
    forall s :: s in wl ==> PlainName(s) && forall k :: k in wl[s] ==> PlainName(k)
  }

  lemma {:induction false} TokensWhitelisted(wl: Whitelist, keys: Keys, parts: seq<string>, section: string)
    requires section in wl
    ensures keys.Keys <= AddTokens(keys, parts).Keys
    ensures AddTokens(keys, parts).Keys <= wl[section]
       <==> keys.Keys <= wl[section] && forall i :: 0 <= i < |parts| ==> !BadToken(wl, section, parts[i])
  {
    if parts != [] {
      var n := |parts| - 1;
      TokensWhitelisted(wl, keys, parts[..n], section);
      var before, after := AddTokens(keys, parts[..n]), AddTokens(keys, parts);
      var token := Strip(parts[n]);
      var k := Strip(Before(token, '='));
      assert after.Keys == if token == "" || k == "" then before.Keys else before.Keys + {k};
      assert forall i :: 0 <= i < n ==> parts[..n][i] == parts[i];
    }
  }

  /** A line the checker skips as '#' or blank is nothing to the parser either. */
  lemma {:induction false} SkippedByBoth(raw: string)
    requires Strip(raw) == "" || StartsWith(Strip(raw), '#')
    ensures Strip(Before(raw, '#')) == ""
  {
    var a, b := StripSlice(raw);
    if Strip(raw) == "" {
      assert forall i :: 0 <= i < |raw| ==> IsSpace(raw[i]);
      FindAbsent(raw, '#');
      BlankStrips(raw);
      assert raw[..|raw|] == raw;
    } else {
      assert raw[a] == Strip(raw)[0];
      assert '#' !in raw[..a];
      FindUnique(raw, '#', a);
      BlankStrips(raw[..a]);
    }
  }

  /** What a key=value line without errors looks like: no '#', and its first '=' comes before its first ','. */
  lemma {:induction false} KeyLineShape(wl: Whitelist, section: string, raw: string)
    requires PlainWhitelist(wl)
    requires section in wl
    requires var line := Strip(raw);
             '=' in line && Strip(Before(line, '=')) in wl[section] && !HasForbidden(After(line, '='))
    ensures var line := Strip(raw); '#' !in raw && Trimmed(line) && Find(line, '=') < Find(line, ',')
  {
    var line := Strip(raw);
    var e := Find(line, '=');
    FindAbsent(line, '=');
    StripKeeps(line[..e], '#');
    StripKeeps(line[..e], ',');
    var value := After(line, '=');
    assert line == line[..e] + ['='] + value;
    assert '#' !in value by { assert forall i :: 0 <= i < |value| ==> value[i] !in VALUE_FORBIDDEN; }
    StripKeeps(raw, '#');
    assert forall i :: 0 <= i < e ==> line[i] in line[..e];
  }

  /** The first token of such a line carries the key the checker looked at. */
  lemma {:induction false} FirstTokenKey(line: string)
    requires Trimmed(line) && line != "" && Find(line, '=') < Find(line, ',')
    ensures Before(Strip(Split(line, ',')[0]), '=') == Before(line, '=')
  {
    var part, e := Before(line, ','), Find(line, '=');
    var a, b := StripSlice(part);
    assert part[0] == line[0] && part[e] == '=';
    assert a == 0;
    var token := part[..b];
    assert token[..e] == line[..e];
    FindUnique(token, '=', e);
  }

  lemma {:induction false} SplitFirst(line: string, c: char)
    ensures Split(line, c)[0] == Before(line, c)
  {
    FindAbsent(line, c);
    if Find(line, c) == |line| { assert line[..|line|] == line; }
  }

  /** A ';' line stays one when the parser cuts it at '#'. */
  lemma {:induction false} SemicolonStays(raw: string)
    requires StartsWith(Strip(raw), ';')
    ensures StartsWith(Strip(Before(raw, '#')), ';')
  {
    var a, b := StripSlice(raw);
    assert raw[a] == ';';
    var cut := Before(raw, '#');
    assert forall i :: 0 <= i <= a ==> raw[i] != '#';
    assert a < |cut| && forall i :: 0 <= i <= a ==> cut[i] == raw[i];
    StripHead(cut, a);
  }

  /** Inside a section it always leaves an unlisted key behind. */
  lemma {:induction false} SemicolonIsBad(wl: Whitelist, section: string, line: string)
    requires PlainWhitelist(wl) && section in wl && StartsWith(line, ';')
    ensures BadToken(wl, section, Split(line, ',')[0])
  {
    SplitFirst(line, ',');
    var part := Before(line, ',');
    assert part[0] == ';';
    StripHead(part, 0);
    var token := Strip(part);
    var k := Before(token, '=');
    assert k[0] == ';';
    StripHead(k, 0);
    assert ';' in Strip(k);
  }

  lemma {:induction false} SectionUpdate(wl: Whitelist, ps: ParseState, keys: Keys)
    requires ps.cur.Some? && ps.cur.value in wl && ps.cur.value in ps.sections
    requires ps.sections[ps.cur.value].Keys <= keys.Keys
    ensures Whitelisted(wl, ps.sections[ps.cur.value := keys])
       <==> Whitelisted(wl, ps.sections) && keys.Keys <= wl[ps.cur.value]
  {
    var after := ps.sections[ps.cur.value := keys];
    if Whitelisted(wl, after) {
      forall s | s in ps.sections ensures s in wl && ps.sections[s].Keys <= wl[s] {
        assert s in after;
      }
    }
  }

  lemma {:induction false} HeaderAgrees(wl: Whitelist, ps: ParseState, raw: string)
    requires PlainWhitelist(wl)
    requires IsHeader(Strip(raw)) && HeaderName(Strip(raw)) in wl
    ensures Before(raw, '#') == raw
    ensures Whitelisted(wl, ParseLine(ps, raw).sections) <==> Whitelisted(wl, ps.sections)
  {
    var line := Strip(raw);
    var name := HeaderName(line);
    StripKeeps(raw, '#');
    FindAbsent(raw, '#');
    assert line == "[" + name + "]";
    var after := ps.sections[name := Get(ps.sections, name, map[])];
    if Whitelisted(wl, after) {
      forall s | s in ps.sections ensures s in wl && ps.sections[s].Keys <= wl[s] {
        assert s in after && after[s] == ps.sections[s];
      }
    }
  }

  lemma {:induction false} FirstTokenGood(wl: Whitelist, section: string, line: string)
    requires section in wl && Trimmed(line) && line != "" && Find(line, '=') < Find(line, ',')
    requires Strip(Before(line, '=')) in wl[section]
    ensures !BadToken(wl, section, Split(line, ',')[0])
  {
    FirstTokenKey(line);
  }

  lemma {:induction false} KeyLineAgrees(wl: Whitelist, cs: CheckState, ps: ParseState, ln: nat, raw: string)
    requires PlainWhitelist(wl)
    requires cs.errors == [] && CheckLine(wl, cs, ln, raw).errors == []
    requires var line := Strip(raw); line != "" && !IsComment(line) && !IsHeader(line)
    requires ps.cur == cs.section && (ps.cur.Some? ==> ps.cur.value in wl && ps.cur.value in ps.sections)
    ensures ps.cur.Some? && ParseLine(ps, raw).cur == ps.cur && ps.cur.value in ParseLine(ps, raw).sections
    ensures Whitelisted(wl, ParseLine(ps, raw).sections) <==>
            Whitelisted(wl, ps.sections) && !Smuggles(wl, cs.section, raw)
  {
    var line, section := Strip(raw), cs.section.value;
    KeyLineShape(wl, section, raw);
    assert ParseLine(ps, raw) ==
           ps.(sections := ps.sections[ps.cur.value := AddTokens(ps.sections[ps.cur.value], Split(Strip(raw), ','))])
    by {
      FindAbsent(raw, '#');
      assert raw[..|raw|] == raw;
    }
    var parts := Split(line, ',');
    FirstTokenGood(wl, section, line);
    TokensWhitelisted(wl, ps.sections[section], parts, section);
    SectionUpdate(wl, ps, AddTokens(ps.sections[section], parts));
  }

  /** One line: when the checker finds nothing wrong, the two parsers stay on the same section, and the parser's
      result stays whitelisted exactly when the line smuggles nothing. */
  lemma {:induction false} LineAgrees(wl: Whitelist, cs: CheckState, ps: ParseState, ln: nat, raw: string)
    requires PlainWhitelist(wl)
    requires cs.errors == [] && CheckLine(wl, cs, ln, raw).errors == []
    requires ps.cur == cs.section && (ps.cur.Some? ==> ps.cur.value in wl && ps.cur.value in ps.sections)
    ensures var after := ParseLine(ps, raw);
            && after.cur == CheckLine(wl, cs, ln, raw).section
            && (after.cur.Some? ==> after.cur.value in wl && after.cur.value in after.sections)
            && (Whitelisted(wl, after.sections) <==> Whitelisted(wl, ps.sections) && !Smuggles(wl, cs.section, raw))
  {
    var line := Strip(raw);
    if line == "" || StartsWith(line, '#') {
      SkippedByBoth(raw);
    } else if StartsWith(line, ';') {
      SemicolonStays(raw);
      if cs.section.Some? {
        SemicolonIsBad(wl, cs.section.value, Strip(Before(raw, '#')));
        TokensWhitelisted(wl, ps.sections[ps.cur.value], Split(Strip(Before(raw, '#')), ','), ps.cur.value);
        SectionUpdate(wl, ps, AddTokens(ps.sections[ps.cur.value], Split(Strip(Before(raw, '#')), ',')));
      }
    } else if IsHeader(line) {
      HeaderAgrees(wl, ps, raw);
    } else {
      KeyLineAgrees(wl, cs, ps, ln, raw);
    }
  }

  /** Errors are never withdrawn, and without errors the section in force is a whitelisted one. */
  lemma {:induction false} CheckedPrefix(wl: Whitelist, lines: seq<string>, last: string)
    requires CheckLines(wl, lines + [last]).errors == []
    ensures CheckLines(wl, lines).errors == []
    ensures CheckLines(wl, lines).section.Some? ==> CheckLines(wl, lines).section.value in wl
  {
    assert (lines + [last])[..|lines|] == lines;
    if lines != [] {
      var n := |lines| - 1;
      assert lines == lines[..n] + [lines[n]];
      CheckedPrefix(wl, lines[..n], lines[n]);
    }
  }

  ghost predicate SmugglesNowhere(wl: Whitelist, lines: seq<string>)
    requires CheckLines(wl, lines).errors == []
  {
    lines == [] ||
    (CheckedPrefix(wl, lines[..|lines| - 1], lines[|lines| - 1]);
     && SmugglesNowhere(wl, lines[..|lines| - 1])
     && !Smuggles(wl, CheckLines(wl, lines[..|lines| - 1]).section, lines[|lines| - 1]))
  }

  lemma {:induction false} LinesAgree(wl: Whitelist, lines: seq<string>)
    requires PlainWhitelist(wl)
    requires CheckLines(wl, lines).errors == []
    ensures var cs, ps := CheckLines(wl, lines), ParseLines(lines);
            && ps.cur == cs.section && (ps.cur.Some? ==> ps.cur.value in wl)
            && (Whitelisted(wl, ps.sections) <==> SmugglesNowhere(wl, lines))
  {
    if lines != [] {
      var n := |lines| - 1;
      assert lines == lines[..n] + [lines[n]];
      CheckedPrefix(wl, lines[..n], lines[n]);
      LinesAgree(wl, lines[..n]);
      LineAgrees(wl, CheckLines(wl, lines[..n]), ParseLines(lines[..n]), |lines|, lines[n]);
    }
  }

  lemma {:induction false} NothingToSmuggle(wl: Whitelist, lines: seq<string>)
    requires CheckLines(wl, lines).errors == []
    requires forall i :: 0 <= i < |lines| ==> ',' !in lines[i] && !StartsWith(Strip(lines[i]), ';')
    ensures SmugglesNowhere(wl, lines)
  {
    if lines != [] {
      var n := |lines| - 1;
      assert lines == lines[..n] + [lines[n]];
      CheckedPrefix(wl, lines[..n], lines[n]);
      NothingToSmuggle(wl, lines[..n]);
      StripKeeps(lines[n], ',');
      SplitNothing(Strip(lines[n]), ',');
    }
  }

  // ---------- the whitelist of the source ----------

  lemma {:induction false} LongNamesPlain()
    ensures PlainName("Address") && PlainName("Destination") && PlainName("Gateway")
    ensures PlainName("MTUBytes") && PlainName("RouteMetric")
  {
  }

  lemma {:induction false} LongerNamesPlain()
    ensures PlainName("IPv6AcceptRA") && PlainName("ClientIdentifier") && PlainName("MACAddress")
    ensures PlainName("LinkLocalAddressing")
  {
  }

  lemma {:induction false} NamesArePlain()
    ensures PlainName("Match") && PlainName("Network") && PlainName("Route") && PlainName("Link")
    ensures PlainName("DHCPv4") && PlainName("DHCPv6") && PlainName("Name") && PlainName("MACAddress") &&
            PlainName("Type")
    ensures PlainName("DHCP") && PlainName("Address") && PlainName("DNS") && PlainName("LinkLocalAddressing")
    ensures PlainName("IPv6AcceptRA") && PlainName("Destination") && PlainName("Gateway") && PlainName("Metric")
    ensures PlainName("MTUBytes") && PlainName("ClientIdentifier") && PlainName("RouteMetric")
  {
    assert PlainName("Match") && PlainName("Network") && PlainName("Route") && PlainName("Link");
    assert PlainName("DHCPv4") && PlainName("DHCPv6") && PlainName("DHCP") && PlainName("DNS");
    assert PlainName("Name") && PlainName("Type") && PlainName("Metric");
    LongNamesPlain();
    LongerNamesPlain();
  }

  lemma {:induction false} WhitelistIsPlain()
    ensures PlainWhitelist(KEY_WHITELIST)
  {
    forall section | section in KEY_WHITELIST
      ensures PlainName(section) && forall k :: k in KEY_WHITELIST[section] ==> PlainName(k)
    {
      assert PlainName(section) && forall k :: k in KEY_WHITELIST[section] ==> PlainName(k) by {
        NamesArePlain();
      }
    }
  }

  /** For a text the checker accepts, every section and key the parser finds is whitelisted exactly when no line
      inside a section starts with ';' and no comma in a value is followed by an unlisted key. */
  lemma {:induction false} CheckerSoundnessIff(text: string)
    requires SyntaxErrors(text) == []
    ensures Whitelisted(KEY_WHITELIST, Parsed(text)) <==> SmugglesNowhere(KEY_WHITELIST, SplitLines(text))
  {
    WhitelistIsPlain();
    LinesAgree(KEY_WHITELIST, SplitLines(text));
  }

  /** In particular it holds for every accepted text with no comma and no line starting with ';'. */
  lemma {:induction false} CheckerSound(text: string)
    requires SyntaxErrors(text) == []
    requires forall i :: 0 <= i < |SplitLines(text)| ==>
               ',' !in SplitLines(text)[i] && !StartsWith(Strip(SplitLines(text)[i]), ';')
    ensures Whitelisted(KEY_WHITELIST, Parsed(text))
  {
    NothingToSmuggle(KEY_WHITELIST, SplitLines(text));
    CheckerSoundnessIff(text);
  }
}
