/** lib/netcheck/collectors/nic.py: reading .network files back and deriving the addressing mode. */
module NetworkParser {
  import opened PythonBasics
  import opened PythonText
  import opened NetworkTemplate

  type Keys = map<string, seq<string>>
  type Sections = map<string, Keys>

  datatype ParseState = ParseState(cur: Option<string>, sections: Sections)

  /** d.setdefault(k, []).append(v). */
  function AddValue(keys: Keys, k: string, v: string): Keys
  {
    keys[k := if k in keys then keys[k] + [v] else [v]]
  }

  function AddToken(keys: Keys, part: string): Keys
  {
    var token := Strip(part);
    var k := Strip(Before(token, '='));
    if token == "" || k == "" then keys else AddValue(keys, k, Strip(After(token, '=')))
  }

  function AddTokens(keys: Keys, parts: seq<string>): Keys
  {
    if parts == [] then keys
    else AddToken(AddTokens(keys, parts[..|parts| - 1]), parts[|parts| - 1])
  }

  function ParseLine(st: ParseState, raw: string): ParseState
  {
    var line := Strip(Before(raw, '#'));
    if line == "" then st
    else if IsHeader(line) then
      var name := HeaderName(line);
      ParseState(Some(name), st.sections[name := Get(st.sections, name, map[])])
    else if st.cur.None? || st.cur.value !in st.sections then st
    else st.(sections := st.sections[st.cur.value := AddTokens(st.sections[st.cur.value], Split(line, ','))])
  }

  function ParseLines(lines: seq<string>): (st: ParseState)
    ensures st.cur.Some? ==> st.cur.value in st.sections
  {
    if lines == [] then ParseState(None, map[])
    else ParseLine(ParseLines(lines[..|lines| - 1]), lines[|lines| - 1])
  }

  function Parsed(text: string): Sections { ParseLines(SplitLines(text)).sections }

  /** The inner loop over the comma-separated tokens of one line. */
  method CollectTokens(keys: Keys, parts: seq<string>) returns (after: Keys)
    ensures after == AddTokens(keys, parts)
  {
    after := keys;
    for j := 0 to |parts|
      invariant after == AddTokens(keys, parts[..j])
    {
      assert parts[..j + 1][..j] == parts[..j];
      var token := Strip(parts[j]);
      if token != "" {
        var k := Strip(Before(token, '='));
        if k != "" {
          after := AddValue(after, k, Strip(After(token, '=')));
        }
      }
    }
    assert parts[..|parts|] == parts;
  }

  method ParseNetworkText(text: string) returns (sections: Sections)
    ensures sections == Parsed(text)
  {
    sections := map[];
    var cur: Option<string> := None;
    var lines := SplitLines(text);
    for i := 0 to |lines|
      invariant ParseState(cur, sections) == ParseLines(lines[..i])
    {
      assert lines[..i + 1][..i] == lines[..i];
      var line := Strip(Before(lines[i], '#'));
      if line == "" {
        continue;
      }
      if IsHeader(line) {
        cur := Some(HeaderName(line));
        sections := sections[cur.value := Get(sections, cur.value, map[])];
        continue;
      }
      if cur.None? {
        continue;
      }
      var keys := CollectTokens(sections[cur.value], Split(line, ','));
      sections := sections[cur.value := keys];
    }
    assert lines[..|lines|] == lines;
  }

  // ---------- addressing mode ----------

  datatype Mode = Mode(mode: string, v4: string, v6: string, dhcp: string, addresses: seq<string>, ra: bool)

  /** derive_mode; isV4 stands for the address library's version test. Taking element 0 of an empty list raises. */
  function DeriveMode(net: Keys, isV4: string -> bool): Mode
    requires "DHCP" in net ==> net["DHCP"] != []
    requires "IPv6AcceptRA" in net ==> net["IPv6AcceptRA"] != []
  {
    var dhcp := Lower(Get(net, "DHCP", ["no"])[0]);
    var addrs := Get(net, "Address", []);
    var hasV4 := exists i :: 0 <= i < |addrs| && '/' in addrs[i] && isV4(Before(addrs[i], '/'));
    var hasV6 := exists i :: 0 <= i < |addrs| && '/' in addrs[i] && !isV4(Before(addrs[i], '/'));
    var v4Dhcp := dhcp in {"yes", "true", "ipv4"};
    var v6Dhcp := dhcp in {"yes", "true", "ipv6"};
    var ra := Lower(Get(net, "IPv6AcceptRA", ["yes"])[0]) in {"yes", "true"};
    Mode(if v4Dhcp then "dhcp"
         else if hasV4 then "static"
         else if v6Dhcp then "dhcp"
         else if hasV6 then "static"
         else "none",
         if v4Dhcp then "dhcp" else if hasV4 then "static" else "none",
         if v6Dhcp then "dhcp6" else if hasV6 then "static6" else if ra then "slaac" else "none",
         dhcp, addrs, ra)
  }

  // What the answer means, in terms of the values parsed.

  /** The key's first value, whatever its case, is one of the words; a missing key says nothing. */
  ghost predicate Says(net: Keys, key: string, words: set<string>)
  {
    key in net && net[key] != [] && Lower(net[key][0]) in words
  }

  ghost predicate AsksV4(net: Keys) { Says(net, "DHCP", {"yes", "true", "ipv4"}) }

  ghost predicate AsksV6(net: Keys) { Says(net, "DHCP", {"yes", "true", "ipv6"}) }

  /** Some Address line has a prefix and an address that is, or is not, of version 4. */
  ghost predicate Addressed(net: Keys, isV4: string -> bool, v4: bool)
  {
    "Address" in net && exists a :: a in net["Address"] && '/' in a && isV4(Before(a, '/')) == v4
  }

  ghost predicate Advertised(net: Keys) { "IPv6AcceptRA" !in net || Says(net, "IPv6AcceptRA", {"yes", "true"}) }

  /** Exactly when each mode and each detail is reported: DHCPv4 first, then a version 4 address, then DHCPv6, then any
      other address; router advertisements count unless they are refused. */
  ghost predicate ModeMeans(m: Mode, net: Keys, isV4: string -> bool)
  {
    && (m.v4 == "dhcp" <==> AsksV4(net))
    && (m.v4 == "static" <==> !AsksV4(net) && Addressed(net, isV4, true))
    && (m.v4 == "none" <==> !AsksV4(net) && !Addressed(net, isV4, true))
    && (m.v6 == "dhcp6" <==> AsksV6(net))
    && (m.v6 == "static6" <==> !AsksV6(net) && Addressed(net, isV4, false))
    && (m.v6 == "slaac" <==> !AsksV6(net) && !Addressed(net, isV4, false) && Advertised(net))
    && (m.v6 == "none" <==> !AsksV6(net) && !Addressed(net, isV4, false) && !Advertised(net))
    && (m.mode == "dhcp" <==> AsksV4(net) || (AsksV6(net) && !Addressed(net, isV4, true)))
    && (m.mode == "static" <==>
        || (!AsksV4(net) && Addressed(net, isV4, true))
        || (!AsksV4(net) && !AsksV6(net) && Addressed(net, isV4, false)))
    && (m.mode == "none" <==>
        !AsksV4(net) && !AsksV6(net) && !Addressed(net, isV4, true) && !Addressed(net, isV4, false))
    && m.dhcp == (if "DHCP" in net && net["DHCP"] != [] then Lower(net["DHCP"][0]) else "no")
    && m.addresses == (if "Address" in net then net["Address"] else [])
    && (m.ra <==> Advertised(net))
  }

  lemma {:induction false} WordsDiffer()
    ensures "dhcp" != "static" && "dhcp" != "none" && "static" != "none" && "dhcp6" != "static6" && "dhcp6" != "slaac"
    ensures "dhcp6" != "none" && "static6" != "slaac" && "static6" != "none" && "slaac" != "none"
    ensures Lower("no") == "no" && Lower("yes") == "yes"
    ensures "no" !in {"yes", "true", "ipv4"} && "no" !in {"yes", "true", "ipv6"}
  {
    assert |"dhcp"| == 4 && |"none"| == 4 && "dhcp"[0] == 'd' && "none"[0] == 'n' && |"static"| == 6;
    assert |"dhcp6"| == 5 && |"slaac"| == 5 && "slaac"[0] == 's' && |"static6"| == 7;
    assert |"no"| == 2 && |"yes"| == 3 && |"true"| == 4 && |"ipv4"| == 4 && |"ipv6"| == 4;
  }

  /** Every [Network] section is answered by those rules. */
  lemma {:induction false} DerivedMeans(net: Keys, isV4: string -> bool)
    requires forall k :: k in net ==> net[k] != []
    ensures ModeMeans(DeriveMode(net, isV4), net, isV4)
  {
    WordsDiffer();
    var m := DeriveMode(net, isV4);
    var addrs := Get(net, "Address", []);
    forall v4: bool ensures Addressed(net, isV4, v4) <==>
      exists i :: 0 <= i < |addrs| && '/' in addrs[i] && isV4(Before(addrs[i], '/')) == v4
    {
      if Addressed(net, isV4, v4) {
        var a :| a in net["Address"] && '/' in a && isV4(Before(a, '/')) == v4;
      }
    }
  }

  /** The two answers differ at most in the echoed DHCP value. */
  ghost predicate SameMode(a: Mode, b: Mode) { a.mode == b.mode && a.v4 == b.v4 && a.v6 == b.v6 && a.ra == b.ra }

  lemma {:induction false} OtherKeys(net: Keys, values: seq<string>)
    ensures Get(net["DHCP" := values], "Address", []) == Get(net - {"DHCP"}, "Address", [])
    ensures Get(net["DHCP" := values], "IPv6AcceptRA", ["yes"]) == Get(net - {"DHCP"}, "IPv6AcceptRA", ["yes"])
    ensures "Address" != "DHCP" && "IPv6AcceptRA" != "DHCP"
  {
    assert |"DHCP"| == 4 && |"Address"| == 7 && |"IPv6AcceptRA"| == 12;
  }

  /** "yes" and "true" act alike, with the v4 side of "ipv4" and the v6 side of "ipv6"; letter case does not matter, nor
      does a second DHCP value; and any other word acts as no DHCP line at all. */
  lemma {:induction false} DhcpWords(net: Keys, isV4: string -> bool, word: string, values: seq<string>)
    requires (forall k :: k in net ==> net[k] != []) && values != [] && Lower(values[0]) == Lower(word)
    ensures var given := DeriveMode(net["DHCP" := values], isV4);
            && given == DeriveMode(net["DHCP" := [word]], isV4)
            && (Lower(word) in {"yes", "true"} ==>
                && given.mode == "dhcp"
                && given.v4 == DeriveMode(net["DHCP" := ["ipv4"]], isV4).v4 == "dhcp"
                && given.v6 == DeriveMode(net["DHCP" := ["ipv6"]], isV4).v6 == "dhcp6")
            && (Lower(word) !in {"yes", "true", "ipv4", "ipv6"} ==> SameMode(given, DeriveMode(net - {"DHCP"}, isV4)))
  {
    WordsDiffer();
    assert Lower("ipv4") == "ipv4" && Lower("ipv6") == "ipv6";
    OtherKeys(net, values);
  }

  /** What is known of the interface a .network file may match; fits stands for fnmatch(ifname, pattern). */
  datatype Link = Link(mac: string, linkType: string, fits: string -> bool)

  predicate FileMatches(m: Keys, link: Link)
  {
    && (Get(m, "Name", []) == [] || exists i :: 0 <= i < |m["Name"]| && link.fits(m["Name"][i]))
    && (Get(m, "MACAddress", []) == []
        || exists i :: 0 <= i < |m["MACAddress"]| && link.mac != "" && Lower(link.mac) == Lower(m["MACAddress"][i]))
    && (Get(m, "Type", []) == [] || exists i :: 0 <= i < |m["Type"]| && link.linkType == m["Type"][i])
  }

  /** The section has no line of this key, or one of them fits. */
  ghost predicate Fits(m: Keys, key: string, fits: string -> bool)
  {
    key in m && m[key] != [] ==> exists v :: v in m[key] && fits(v)
  }

  lemma {:induction false} SomeFits(values: seq<string>, fits: string -> bool)
    ensures (exists v :: v in values && fits(v)) <==> exists i :: 0 <= i < |values| && fits(values[i])
  {
    if v :| v in values && fits(v) {
      var i :| 0 <= i < |values| && values[i] == v;
    }
  }

  /** When a file counts for an interface: each of its Name, MACAddress and Type lists is empty or has a line that fits;
      a MAC address fits whatever its case, and never an interface whose own is not known. */
  lemma {:induction false} MatchesIff(m: Keys, link: Link)
    ensures FileMatches(m, link) <==>
            && Fits(m, "Name", link.fits)
            && Fits(m, "MACAddress", v => link.mac != "" && Lower(link.mac) == Lower(v))
            && Fits(m, "Type", v => link.linkType == v)
  {
    var mac: string -> bool, linkType: string -> bool :=
      v => link.mac != "" && Lower(link.mac) == Lower(v), v => link.linkType == v;
    SomeFits(Get(m, "Name", []), link.fits);
    SomeFits(Get(m, "MACAddress", []), mac);
    SomeFits(Get(m, "Type", []), linkType);
  }

  /** The [Network] keys in force after reading the files in name order: a later file overrides key by key. */
  function Merged(files: seq<string>, link: Link): Keys
  {
    if files == [] then map[]
    else
      var before := Merged(files[..|files| - 1], link);
      var sec := Parsed(files[|files| - 1]);
      if FileMatches(Get(sec, "Match", map[]), link) then before + Get(sec, "Network", map[]) else before
  }

  /** The file counts for the interface, and its [Network] section has the key. */
  ghost predicate Sets(text: string, link: Link, key: string)
  {
    FileMatches(Get(Parsed(text), "Match", map[]), link) && key in Get(Parsed(text), "Network", map[])
  }

  /** File i is the last that counts and has the key. */
  ghost predicate SetsLast(files: seq<string>, link: Link, key: string, i: nat)
  {
    i < |files| && Sets(files[i], link, key) && forall j :: i < j < |files| ==> !Sets(files[j], link, key)
  }

  lemma {:induction false} OneFileMore(files: seq<string>, text: string, link: Link, key: string)
    ensures var before, after := Merged(files, link), Merged(files + [text], link);
            if Sets(text, link, key) then key in after && after[key] == Parsed(text)["Network"][key]
            else (key in after <==> key in before) && (key in before ==> after[key] == before[key])
  {
    assert (files + [text])[..|files|] == files;
  }

  lemma {:induction false} SetsLastSnoc(files: seq<string>, text: string, link: Link, key: string, i: nat)
    ensures SetsLast(files + [text], link, key, i) <==>
            if Sets(text, link, key) then i == |files| else SetsLast(files, link, key, i)
  {
    var all := files + [text];
    assert all[|files|] == text && forall j :: 0 <= j < |files| ==> all[j] == files[j];
  }

  /** A key is in force exactly when some file that counts has it, with the values of the last such file. */
  lemma {:induction false} MergedIff(files: seq<string>, link: Link, key: string)
    ensures key in Merged(files, link) <==> exists i: nat :: SetsLast(files, link, key, i)
    ensures forall i: nat :: SetsLast(files, link, key, i) ==>
              key in Merged(files, link) && Merged(files, link)[key] == Parsed(files[i])["Network"][key]
  {
    if files != [] {
      var before, text := files[..|files| - 1], files[|files| - 1];
      assert files == before + [text];
      MergedIff(before, link, key);
      OneFileMore(before, text, link, key);
      forall i: nat ensures SetsLast(files, link, key, i) <==>
        if Sets(text, link, key) then i == |before| else SetsLast(before, link, key, i)
      {
        SetsLastSnoc(before, text, link, key, i);
      }
      if Sets(text, link, key) {
        assert SetsLast(files, link, key, |before|);
      }
    }
  }

  /** Every list the parser builds has a value in it, so taking element 0 of one never raises. */
  ghost predicate NoEmptyLists(sections: Sections)
  {
    forall s, k :: s in sections && k in sections[s] ==> sections[s][k] != []
  }

  lemma {:induction false} TokensNonEmpty(keys: Keys, parts: seq<string>)
    requires forall k :: k in keys ==> keys[k] != []
    ensures forall k :: k in AddTokens(keys, parts) ==> AddTokens(keys, parts)[k] != []
  {
    if parts != [] {
      TokensNonEmpty(keys, parts[..|parts| - 1]);
    }
  }

  lemma {:induction false} ParsedNonEmpty(lines: seq<string>)
    ensures NoEmptyLists(ParseLines(lines).sections)
  {
    if lines != [] {
      var st, raw := ParseLines(lines[..|lines| - 1]), lines[|lines| - 1];
      ParsedNonEmpty(lines[..|lines| - 1]);
      var line := Strip(Before(raw, '#'));
      if line != "" && !IsHeader(line) && st.cur.Some? {
        TokensNonEmpty(st.sections[st.cur.value], Split(line, ','));
      }
    }
  }

  lemma {:induction false} MergedNonEmpty(files: seq<string>, link: Link)
    ensures forall k :: k in Merged(files, link) ==> Merged(files, link)[k] != []
  {
    if files != [] {
      MergedNonEmpty(files[..|files| - 1], link);
      ParsedNonEmpty(SplitLines(files[|files| - 1]));
    }
  }

  /** collect_mode over the contents of the .network files, in file-name order. */
  method CollectMode(files: seq<string>, link: Link, isV4: string -> bool) returns (mode: Mode)
    ensures (forall k :: k in Merged(files, link) ==> Merged(files, link)[k] != [])
         && mode == DeriveMode(Merged(files, link), isV4)
    ensures ModeMeans(mode, Merged(files, link), isV4)
  {
    var merged: Keys := map[];
    for i := 0 to |files|
      invariant merged == Merged(files[..i], link)
    {
      assert files[..i + 1][..i] == files[..i];
      var sec := ParseNetworkText(files[i]);
      if FileMatches(Get(sec, "Match", map[]), link) {
        merged := merged + Get(sec, "Network", map[]);
      }
    }
    assert files[..|files|] == files;
    MergedNonEmpty(files, link);
    DerivedMeans(merged, isV4);
    mode := DeriveMode(merged, isV4);
  }
}
