/** lib/netcheck/helper/network_template.py: writing a systemd .network body and checking one. */
module NetworkTemplate {
  import opened PythonBasics
  import opened PythonText

  /** The keys each section may hold. */
  type Whitelist = map<string, set<string>>

  const KEY_WHITELIST: Whitelist := map[
    "Match" := {"Name", "MACAddress", "Type"},
    "Network" := {"DHCP", "Address", "DNS", "LinkLocalAddressing", "IPv6AcceptRA"},
    "Route" := {"Destination", "Gateway", "Metric"},
    "Link" := {"MTUBytes"},
    "DHCPv4" := {"ClientIdentifier", "RouteMetric"},
    "DHCPv6" := {"RouteMetric"}
  ]
  const VALUE_FORBIDDEN: set<char> := {'[', ']', ';', '#', '\n', '\r'}

  datatype Settings = Settings(iface: string, mode: string, ipv4: string, prefix: int, gateway: string,
                               dns: seq<string>, mtu: Option<int>)

  predicate WantsDhcp(c: Settings) { c.mode == "dhcp" || c.mode == "reset" }

  predicate WantsRoute(c: Settings) { c.mode == "static" && c.gateway != "" }

  predicate WantsLink(c: Settings) { c.mtu.Some? && c.mtu.value != 0 }

  // ---------- the file as a document ----------

  datatype Entry = Entry(key: string, value: string)
  datatype Section = Section(name: string, entries: seq<Entry>)

  function MatchOf(c: Settings): Section { Section("Match", [Entry("Name", c.iface)]) }

  function NetworkOf(c: Settings): Section
  {
    Section("Network",
      if WantsDhcp(c) then [Entry("DHCP", "ipv4"), Entry("LinkLocalAddressing", "ipv6")]
      else [Entry("DHCP", "no"), Entry("Address", c.ipv4 + "/" + IntText(c.prefix))]
           + (if c.dns != [] then [Entry("DNS", Join(c.dns, " "))] else [])
           + [Entry("LinkLocalAddressing", "ipv6")])
  }

  function RouteOf(c: Settings): Section
  {
    Section("Route", [Entry("Destination", "0.0.0.0/0"), Entry("Gateway", c.gateway)])
  }

  function LinkOf(c: Settings): Section
    requires WantsLink(c)
  {
    Section("Link", [Entry("MTUBytes", IntText(c.mtu.value))])
  }

  /** The sections and entries a setting asks for. */
  function Document(c: Settings): seq<Section>
  {
    [MatchOf(c), NetworkOf(c)]
    + (if WantsRoute(c) then [RouteOf(c)] else [])
    + (if WantsLink(c) then [LinkOf(c)] else [])
  }

  function EntryLines(entries: seq<Entry>): seq<string>
  {
    if entries == [] then []
    else EntryLines(entries[..|entries| - 1]) + [entries[|entries| - 1].key + "=" + entries[|entries| - 1].value]
  }

  function SectionLines(s: Section): seq<string>
  {
    ["[" + s.name + "]"] + EntryLines(s.entries) + [""]
  }

  function DocumentLines(doc: seq<Section>): seq<string>
  {
    if doc == [] then [] else DocumentLines(doc[..|doc| - 1]) + SectionLines(doc[|doc| - 1])
  }

  function Render(c: Settings): string
  {
    RStrip(Join(DocumentLines(Document(c)), "\n")) + "\n"
  }

  /** The lines of the [Network] section, between its header and the blank that closes it. */
  function NetworkBody(c: Settings): seq<string>
  {
    if WantsDhcp(c) then ["DHCP=ipv4", "LinkLocalAddressing=ipv6"]
    else ["DHCP=no", "Address=" + c.ipv4 + "/" + IntText(c.prefix)]
         + (if c.dns != [] then ["DNS=" + Join(c.dns, " ")] else [])
         + ["LinkLocalAddressing=ipv6"]
  }

  /** The body of the [Network] section, appended line by line. */
  method AppendNetwork(lines: seq<string>, c: Settings) returns (longer: seq<string>)
    ensures longer == lines + NetworkBody(c)
  {
    longer := lines;
    if WantsDhcp(c) {
      longer := longer + ["DHCP=ipv4"];
      longer := longer + ["LinkLocalAddressing=ipv6"];
    } else {
      longer := longer + ["DHCP=no"];
      longer := longer + ["Address=" + c.ipv4 + "/" + IntText(c.prefix)];
      if c.dns != [] {
        longer := longer + ["DNS=" + Join(c.dns, " ")];
      }
      longer := longer + ["LinkLocalAddressing=ipv6"];
    }
  }

  lemma {:induction false} DocumentSnoc(doc: seq<Section>, s: Section)
    ensures DocumentLines(doc + [s]) == DocumentLines(doc) + SectionLines(s)
  {
    assert (doc + [s])[..|doc|] == doc;
  }

  lemma {:induction false} FirstTwo(a: Section, b: Section)
    ensures DocumentLines([a, b]) == SectionLines(a) + SectionLines(b)
  {
    DocumentSnoc([], a);
    DocumentSnoc([a], b);
    assert [] + [a] == [a] && [a] + [b] == [a, b];
    assert DocumentLines([]) + SectionLines(a) == SectionLines(a);
  }

  lemma {:induction false} EntriesSnoc(entries: seq<Entry>, e: Entry)
    ensures EntryLines(entries + [e]) == EntryLines(entries) + [e.key + "=" + e.value]
  {
    assert (entries + [e])[..|entries|] == entries;
  }

  function Text(e: Entry): string { e.key + "=" + e.value }

  lemma {:induction false} OneLine(a: Entry)
    ensures EntryLines([a]) == [Text(a)]
  {
    EntriesSnoc([], a);
    assert [] + [a] == [a];
  }

  lemma {:induction false} TwoLines(a: Entry, b: Entry)
    ensures EntryLines([a, b]) == [Text(a), Text(b)]
  {
    OneLine(a);
    EntriesSnoc([a], b);
    assert [a] + [b] == [a, b];
  }

  lemma {:induction false} ThreeLines(a: Entry, b: Entry, c: Entry)
    ensures EntryLines([a, b, c]) == [Text(a), Text(b), Text(c)]
  {
    TwoLines(a, b);
    EntriesSnoc([a, b], c);
    assert [a, b] + [c] == [a, b, c];
  }

  lemma {:induction false} AddressLine(address: string, prefix: string, dns: string)
    ensures Text(Entry("Address", address + "/" + prefix)) == "Address=" + address + "/" + prefix
    ensures Text(Entry("DNS", dns)) == "DNS=" + dns
  {
    assert "Address" + "=" + (address + "/" + prefix) == "Address=" + address + "/" + prefix;
  }

  lemma {:induction false} NetworkEntries(c: Settings)
    ensures EntryLines(NetworkOf(c).entries) == NetworkBody(c)
  {
    assert Text(Entry("LinkLocalAddressing", "ipv6")) == "LinkLocalAddressing=ipv6";
    assert Text(Entry("DHCP", "ipv4")) == "DHCP=ipv4" && Text(Entry("DHCP", "no")) == "DHCP=no";
    AddressLine(c.ipv4, IntText(c.prefix), Join(c.dns, " "));
    var d, ll := Entry("DHCP", "no"), Entry("LinkLocalAddressing", "ipv6");
    var a, n := Entry("Address", c.ipv4 + "/" + IntText(c.prefix)), Entry("DNS", Join(c.dns, " "));
    if WantsDhcp(c) {
      TwoLines(Entry("DHCP", "ipv4"), ll);
    } else if c.dns != [] {
      assert EntryLines([d, a, n, ll]) == [Text(d), Text(a), Text(n), Text(ll)] by {
        ThreeLines(d, a, n);
        EntriesSnoc([d, a, n], ll);
        assert [d, a, n] + [ll] == [d, a, n, ll];
      }
      assert NetworkOf(c).entries == [d, a, n, ll];
    } else {
      ThreeLines(d, a, ll);
      assert NetworkOf(c).entries == [d, a, ll];
    }
  }

  lemma {:induction false} HeadLines(c: Settings)
    ensures DocumentLines([MatchOf(c), NetworkOf(c)])
         == ["[Match]", "Name=" + c.iface, "", "[Network]"] + NetworkBody(c) + [""]
  {
    assert SectionLines(MatchOf(c)) == ["[Match]", "Name=" + c.iface, ""] by {
      OneLine(Entry("Name", c.iface));
      assert "[" + "Match" + "]" == "[Match]" && "Name" + "=" == "Name=";
    }
    assert SectionLines(NetworkOf(c)) == ["[Network]"] + NetworkBody(c) + [""] by {
      NetworkEntries(c);
      assert "[" + "Network" + "]" == "[Network]";
    }
    FirstTwo(MatchOf(c), NetworkOf(c));
    assert ["[Match]", "Name=" + c.iface, ""] + (["[Network]"] + NetworkBody(c) + [""])
        == ["[Match]", "Name=" + c.iface, "", "[Network]"] + NetworkBody(c) + [""];
  }

  lemma {:induction false} RouteAppended(lines: seq<string>, doc: seq<Section>, c: Settings)
    requires lines == DocumentLines(doc)
    ensures lines + ["[Route]", "Destination=0.0.0.0/0", "Gateway=" + c.gateway, ""]
            == DocumentLines(doc + [RouteOf(c)])
  {
    TwoLines(Entry("Destination", "0.0.0.0/0"), Entry("Gateway", c.gateway));
    assert "[" + "Route" + "]" == "[Route]" && "Destination" + "=" + "0.0.0.0/0" == "Destination=0.0.0.0/0";
    assert "Gateway" + "=" == "Gateway=";
    DocumentSnoc(doc, RouteOf(c));
  }

  lemma {:induction false} LinkAppended(lines: seq<string>, doc: seq<Section>, c: Settings)
    requires lines == DocumentLines(doc) && WantsLink(c)
    ensures lines + ["[Link]", "MTUBytes=" + IntText(c.mtu.value), ""] == DocumentLines(doc + [LinkOf(c)])
  {
    OneLine(Entry("MTUBytes", IntText(c.mtu.value)));
    assert "[" + "Link" + "]" == "[Link]" && "MTUBytes" + "=" == "MTUBytes=";
    DocumentSnoc(doc, LinkOf(c));
  }

  method RenderNetApply(c: Settings) returns (text: string)
    ensures text == Render(c)
  {
    var lines := AppendNetwork(["[Match]", "Name=" + c.iface, "", "[Network]"], c);
    lines := lines + [""];
    HeadLines(c);
    ghost var doc := [MatchOf(c), NetworkOf(c)];
    if c.mode == "static" && c.gateway != "" {
      RouteAppended(lines, doc, c);
      doc := doc + [RouteOf(c)];
      lines := lines + ["[Route]", "Destination=0.0.0.0/0", "Gateway=" + c.gateway, ""];
    }
    assert lines == DocumentLines(doc);
    if c.mtu.Some? && c.mtu.value != 0 {
      LinkAppended(lines, doc, c);
      doc := doc + [LinkOf(c)];
      lines := lines + ["[Link]", "MTUBytes=" + IntText(c.mtu.value), ""];
    }
    assert doc == Document(c);
    return RStrip(Join(lines, "\n")) + "\n";
  }

  // ---------- the checker ----------

  datatype SyntaxError =
    | UnknownSection(line: nat, section: string)
    | OutsideSection(line: nat)
    | NotKeyValue(line: nat)
    | KeyNotAllowed(line: nat, key: string, section: string)
    | ForbiddenValue(line: nat, key: string)

  predicate IsComment(line: string) { StartsWith(line, '#') || StartsWith(line, ';') }

  predicate IsHeader(line: string) { StartsWith(line, '[') && EndsWith(line, ']') }

  /** line[1:-1]; a bare pair of brackets gives the empty name. */
  function HeaderName(line: string): string
    requires IsHeader(line)
  {
    Slice(line, 1, -1)
  }

  predicate HasForbidden(value: string)
  {
    exists i :: 0 <= i < |value| && value[i] in VALUE_FORBIDDEN
  }

  datatype CheckState = CheckState(section: Option<string>, errors: seq<SyntaxError>)

  /** What one line adds to the errors, and the section in force after it. */
  function CheckLine(wl: Whitelist, st: CheckState, ln: nat, raw: string): CheckState
  {
    var line := Strip(raw);
    if line == "" || IsComment(line) then st
    else if IsHeader(line) then
      var name := HeaderName(line);
      CheckState(Some(name), st.errors + if name in wl then [] else [UnknownSection(ln, name)])
    else if st.section.None? then st.(errors := st.errors + [OutsideSection(ln)])
    else if '=' !in line then st.(errors := st.errors + [NotKeyValue(ln)])
    else
      var name, key, value := st.section.value, Strip(Before(line, '=')), After(line, '=');
      st.(errors := st.errors
        + (if name in wl && key !in wl[name] then [KeyNotAllowed(ln, key, name)] else [])
        + (if HasForbidden(value) then [ForbiddenValue(ln, key)] else []))
  }

  function CheckLines(wl: Whitelist, lines: seq<string>): CheckState
  {
    if lines == [] then CheckState(None, [])
    else CheckLine(wl, CheckLines(wl, lines[..|lines| - 1]), |lines|, lines[|lines| - 1])
  }

  function SyntaxErrors(text: string): seq<SyntaxError> { CheckLines(KEY_WHITELIST, SplitLines(text)).errors }

  method SyntaxCheck(text: string) returns (errors: seq<SyntaxError>)
    ensures errors == SyntaxErrors(text)
  {
    errors := [];
    var section: Option<string> := None;
    var lines := SplitLines(text);
    for i := 0 to |lines|
      invariant CheckState(section, errors) == CheckLines(KEY_WHITELIST, lines[..i])
    {
      assert lines[..i + 1][..i] == lines[..i];
      var line := Strip(lines[i]);
      if line == "" || IsComment(line) {
        continue;
      }
      if IsHeader(line) {
        section := Some(HeaderName(line));
        if section.value !in KEY_WHITELIST {
          errors := errors + [UnknownSection(i + 1, section.value)];
        }
        continue;
      }
      if section.None? {
        errors := errors + [OutsideSection(i + 1)];
        continue;
      }
      if '=' !in line {
        errors := errors + [NotKeyValue(i + 1)];
        continue;
      }
      var key := Strip(Before(line, '='));
      if section.value in KEY_WHITELIST && key !in KEY_WHITELIST[section.value] {
        errors := errors + [KeyNotAllowed(i + 1, key, section.value)];
      }
      if HasForbidden(After(line, '=')) {
        errors := errors + [ForbiddenValue(i + 1, key)];
      }
    }
    assert lines[..|lines|] == lines;
  }
}
