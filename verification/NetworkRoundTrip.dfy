/** Rendering a .network body and reading it back: it is accepted, parsed as intended, and its mode is derived back. */
module NetworkRoundTrip {
  import opened PythonBasics
  import opened PythonText
  import opened NetworkTemplate
  import opened NetworkParser
  import opened NetworkTheorems
  import opened NetworkDocument

  /** Print, then check and parse: any document of well-behaved sections comes back as what it means. */
  lemma {:induction false} PrintParse(wl: Whitelist, doc: seq<Section>)
    requires PlainWhitelist(wl)
    requires doc != [] && AllGood(wl, doc)
    ensures var text := RStrip(Join(DocumentLines(doc), "\n")) + "\n";
            CheckLines(wl, SplitLines(text)).errors == [] && Parsed(text) == SectionsOf(doc)
  {
    var lines := DocumentLines(doc);
    var body := lines[..|lines| - 1];
    LastLine(wl, doc);
    DocumentRead(wl, doc);
    BlankAppended(wl, body);
    JoinedLines(body);
    DocumentNoBreaks(wl, doc);
    SplitUnlines(body);
  }

  // ---------- the settings the helper writes ----------

  /** A field value with no white space, no comma and none of the characters the checker forbids. */
  ghost predicate CleanValue(v: string)
  {
    forall i :: 0 <= i < |v| ==> !IsSpace(v[i]) && v[i] != ',' && v[i] !in VALUE_FORBIDDEN
  }

  ghost predicate CleanFields(c: Settings)
  {
    && CleanValue(c.iface) && CleanValue(c.ipv4) && CleanValue(c.gateway)
    && forall i :: 0 <= i < |c.dns| ==> CleanValue(c.dns[i])
  }

  /** Where DNS servers are written, none is empty at either end of the list, but for the list of one empty server. */
  ghost predicate DnsEnds(c: Settings)
  {
    WantsDhcp(c) || c.dns == [] || c.dns == [""] || (c.dns[0] != "" && c.dns[|c.dns| - 1] != "")
  }

  ghost predicate CleanSettings(c: Settings) { CleanFields(c) && DnsEnds(c) }

  ghost function IntendedNetwork(c: Settings): Keys
  {
    if c.mode == "dhcp" || c.mode == "reset" then map["DHCP" := ["ipv4"], "LinkLocalAddressing" := ["ipv6"]]
    else if c.dns == [] then
      map["DHCP" := ["no"], "Address" := [c.ipv4 + "/" + IntText(c.prefix)], "LinkLocalAddressing" := ["ipv6"]]
    else
      map["DHCP" := ["no"], "Address" := [c.ipv4 + "/" + IntText(c.prefix)], "DNS" := [Join(c.dns, " ")],
          "LinkLocalAddressing" := ["ipv6"]]
  }

  ghost function IntendedBase(c: Settings): Sections
  {
    map["Match" := map["Name" := [c.iface]], "Network" := IntendedNetwork(c)]
  }

  ghost function IntendedRouted(c: Settings): Sections
  {
    if c.mode == "static" && c.gateway != "" then
      IntendedBase(c)["Route" := map["Destination" := ["0.0.0.0/0"], "Gateway" := [c.gateway]]]
    else IntendedBase(c)
  }

  /** The sections a setting should produce, stated outright. */
  ghost function Intended(c: Settings): Sections
  {
    if c.mtu.Some? && c.mtu.value != 0 then IntendedRouted(c)["Link" := map["MTUBytes" := [IntText(c.mtu.value)]]]
    else IntendedRouted(c)
  }

  lemma {:induction false} CleanIsGood(v: string)
    requires CleanValue(v)
    ensures GoodValue(v)
  {
  }

  predicate CleanOrBlank(v: string)
  {
    forall i :: 0 <= i < |v| ==> v[i] == ' ' || (!IsSpace(v[i]) && v[i] != ',' && v[i] !in VALUE_FORBIDDEN)
  }

  lemma {:induction false} JoinedChars(parts: seq<string>)
    requires forall i :: 0 <= i < |parts| ==> CleanValue(parts[i])
    ensures CleanOrBlank(Join(parts, " "))
  {
    var n := |parts| - 1;
    if n >= 0 {
      assert CleanOrBlank(parts[n]) by { assert CleanValue(parts[n]); }
    }
    if n > 0 {
      JoinedChars(parts[..n]);
      var front, last := Join(parts[..n], " "), parts[n];
      assert Join(parts, " ") == front + " " + last;
    }
  }

  lemma {:induction false} JoinStart(parts: seq<string>)
    requires |parts| >= 2
    ensures Join(parts, " ") != "" && Join(parts, " ")[0] == if parts[0] == "" then ' ' else parts[0][0]
  {
    var n := |parts| - 1;
    var front, last := Join(parts[..n], " "), parts[n];
    assert Join(parts, " ") == front + " " + last;
    if n == 1 {
      assert front == parts[0];
    } else {
      JoinStart(parts[..n]);
      assert (front + " " + last)[0] == front[0];
    }
  }

  lemma {:induction false} JoinEnd(parts: seq<string>)
    requires |parts| >= 2
    ensures var v, last := Join(parts, " "), parts[|parts| - 1];
            v != "" && v[|v| - 1] == if last == "" then ' ' else last[|last| - 1]
  {
    var n := |parts| - 1;
    assert Join(parts, " ") == Join(parts[..n], " ") + " " + parts[n];
  }

  /** The joined text has a blank at an end exactly when the list has an empty server there, unless it is alone. */
  lemma {:induction false} TrimmedIff(parts: seq<string>)
    requires parts != [] && forall i :: 0 <= i < |parts| ==> CleanValue(parts[i])
    ensures Trimmed(Join(parts, " ")) <==> parts == [""] || (parts[0] != "" && parts[|parts| - 1] != "")
  {
    assert CleanValue(parts[0]) && CleanValue(parts[|parts| - 1]);
    if |parts| == 1 {
      assert parts == [parts[0]];
    } else {
      JoinStart(parts);
      JoinEnd(parts);
    }
  }

  lemma {:induction false} CleanListIsGood(parts: seq<string>)
    requires forall i :: 0 <= i < |parts| ==> CleanValue(parts[i])
    requires Trimmed(Join(parts, " "))
    ensures GoodValue(Join(parts, " "))
  {
    JoinedChars(parts);
    assert GoodValue(Join(parts, " ")) by {
      forall c | c in Join(parts, " ") ensures c != ',' && c !in VALUE_FORBIDDEN && !IsLineBreak(c) {
        var i :| 0 <= i < |Join(parts, " ")| && Join(parts, " ")[i] == c;
      }
    }
  }

  lemma {:induction false} NumberIsGood(n: int, prefix: string)
    requires CleanValue(prefix)
    ensures GoodValue(IntText(n)) && GoodValue(prefix + "/" + IntText(n))
  {
    var t := IntText(n);
    assert CleanValue(t) by {
      assert forall i :: 0 <= i < |t| ==> IsDigit(t[i]) || t[i] == '-';
    }
    assert CleanValue("/");
    assert CleanValue(prefix + "/" + t);
  }

  lemma {:induction false} WhitelistHolds()
    ensures "Match" in KEY_WHITELIST && "Network" in KEY_WHITELIST && "Route" in KEY_WHITELIST &&
            "Link" in KEY_WHITELIST
    ensures "Name" in KEY_WHITELIST["Match"] && "MTUBytes" in KEY_WHITELIST["Link"]
    ensures {"Destination", "Gateway"} <= KEY_WHITELIST["Route"]
    ensures {"DHCP", "Address", "DNS", "LinkLocalAddressing"} <= KEY_WHITELIST["Network"]
  {
  }

  lemma {:induction false} FixedValuesGood()
    ensures GoodValue("ipv4") && GoodValue("ipv6") && GoodValue("no") && GoodValue("0.0.0.0/0")
  {
    assert CleanValue("ipv4") && CleanValue("ipv6") && CleanValue("no");
    CleanIsGood("ipv4");
    CleanIsGood("ipv6");
    CleanIsGood("no");
    assert GoodValue("0.0.0.0/0") by {
      CleanIsGood("0.0.0.0/0");
    }
  }

  lemma {:induction false} NetworkGood(c: Settings)
    requires CleanSettings(c)
    ensures GoodSection(KEY_WHITELIST, NetworkOf(c))
  {
    WhitelistHolds();
    FixedValuesGood();
    NumberIsGood(c.prefix, c.ipv4);
    if !WantsDhcp(c) && c.dns != [] {
      TrimmedIff(c.dns);
      CleanListIsGood(c.dns);
    }
  }

  lemma {:induction false} OthersGood(c: Settings)
    requires CleanSettings(c)
    ensures GoodSection(KEY_WHITELIST, MatchOf(c)) && GoodSection(KEY_WHITELIST, RouteOf(c))
    ensures WantsLink(c) ==> GoodSection(KEY_WHITELIST, LinkOf(c))
  {
    WhitelistHolds();
    FixedValuesGood();
    CleanIsGood(c.iface);
    CleanIsGood(c.gateway);
    if c.mtu.Some? { NumberIsGood(c.mtu.value, ""); }
  }

  lemma {:induction false} AllGoodBoth(wl: Whitelist, a: seq<Section>, b: seq<Section>)
    requires AllGood(wl, a) && AllGood(wl, b)
    ensures AllGood(wl, a + b)
  {
  }

  lemma {:induction false} DocumentSections(wl: Whitelist, c: Settings)
    requires GoodSection(wl, MatchOf(c)) && GoodSection(wl, NetworkOf(c)) && GoodSection(wl, RouteOf(c))
    requires WantsLink(c) ==> GoodSection(wl, LinkOf(c))
    ensures AllGood(wl, Document(c))
  {
    assert AllGood(wl, [MatchOf(c), NetworkOf(c)]);
    var route, link := if WantsRoute(c) then [RouteOf(c)] else [], if WantsLink(c) then [LinkOf(c)] else [];
    AllGoodBoth(wl, [MatchOf(c), NetworkOf(c)], route);
    AllGoodBoth(wl, [MatchOf(c), NetworkOf(c)] + route, link);
  }

  lemma {:induction false} KeysDiffer()
    ensures "DHCP" != "Address" && "DHCP" != "DNS" && "DHCP" != "LinkLocalAddressing"
    ensures "Address" != "DNS" && "Address" != "LinkLocalAddressing" && "DNS" != "LinkLocalAddressing"
    ensures "Destination" != "Gateway"
  {
    assert |"DHCP"| == 4 && |"Address"| == 7 && |"DNS"| == 3 && |"LinkLocalAddressing"| == 19;
    assert |"Destination"| == 11 && |"Gateway"| == 7;
  }

  lemma {:induction false} NetworkKeys(c: Settings)
    ensures KeysOf(map[], NetworkOf(c).entries) == IntendedNetwork(c)
  {
    KeysDiffer();
    var ll := Entry("LinkLocalAddressing", "ipv6");
    if WantsDhcp(c) {
      TwoKeys(Entry("DHCP", "ipv4"), ll);
    } else {
      var d, a, n := Entry("DHCP", "no"), Entry("Address", c.ipv4 + "/" + IntText(c.prefix)),
          Entry("DNS", Join(c.dns, " "));
      if c.dns != [] {
        assert KeysOf(map[], [d, a, n, ll])
            == map[d.key := [d.value], a.key := [a.value], n.key := [n.value], ll.key := [ll.value]] by {
          ThreeKeys(d, a, n);
          KeysSnoc([d, a, n], ll);
          assert [d, a, n] + [ll] == [d, a, n, ll];
        }
        assert [d, a] + [n] + [ll] == [d, a, n, ll];
      } else {
        ThreeKeys(d, a, ll);
        assert [d, a] + [] + [ll] == [d, a, ll];
      }
    }
  }

  lemma {:induction false} SectionNamesDiffer()
    ensures "Match" != "Network" && "Match" != "Route" && "Match" != "Link" && "Network" != "Route" &&
            "Network" != "Link"
    ensures "Route" != "Link"
  {
    assert "Match"[0] == 'M' && "Network"[0] == 'N' && "Route"[0] == 'R' && "Link"[0] == 'L';
  }

  lemma {:induction false} BaseMeans(c: Settings)
    ensures SectionsOf([MatchOf(c), NetworkOf(c)]) == IntendedBase(c)
  {
    SectionNamesDiffer();
    TwoSections(MatchOf(c), NetworkOf(c));
    OneKey(Entry("Name", c.iface));
    NetworkKeys(c);
  }

  ghost function RoutedDoc(c: Settings): seq<Section>
  {
    if WantsRoute(c) then [MatchOf(c), NetworkOf(c)] + [RouteOf(c)] else [MatchOf(c), NetworkOf(c)]
  }

  lemma {:induction false} RoutedMeans(c: Settings)
    ensures SectionsOf(RoutedDoc(c)) == IntendedRouted(c)
    ensures "Link" !in IntendedRouted(c)
  {
    SectionNamesDiffer();
    BaseMeans(c);
    assert IntendedBase(c).Keys == {"Match", "Network"};
    if WantsRoute(c) {
      assert KeysOf(map[], RouteOf(c).entries) == map["Destination" := ["0.0.0.0/0"], "Gateway" := [c.gateway]] by {
        KeysDiffer();
        TwoKeys(Entry("Destination", "0.0.0.0/0"), Entry("Gateway", c.gateway));
      }
      SectionsSnoc([MatchOf(c), NetworkOf(c)], RouteOf(c));
    }
  }

  lemma {:induction false} DocumentMeans(c: Settings)
    ensures SectionsOf(Document(c)) == Intended(c)
  {
    RoutedMeans(c);
    if WantsLink(c) {
      OneKey(Entry("MTUBytes", IntText(c.mtu.value)));
      SectionsSnoc(RoutedDoc(c), LinkOf(c));
    }
    assert Document(c) == if WantsLink(c) then RoutedDoc(c) + [LinkOf(c)] else RoutedDoc(c);
  }

  /** The round trip: for clean field values the checker finds no error in what is rendered, and the other
      file's parser reads back exactly the intended sections and keys. */
  lemma {:induction false} RenderRoundTrip(c: Settings)
    requires CleanSettings(c)
    ensures SyntaxErrors(Render(c)) == [] && Parsed(Render(c)) == Intended(c)
  {
    WhitelistIsPlain();
    assert AllGood(KEY_WHITELIST, Document(c)) by {
      NetworkGood(c);
      OthersGood(c);
      DocumentSections(KEY_WHITELIST, c);
    }
    PrintParse(KEY_WHITELIST, Document(c));
    DocumentMeans(c);
  }

  lemma {:induction false} IntendedParts(c: Settings)
    ensures "Match" in Intended(c) && Intended(c)["Match"] == map["Name" := [c.iface]]
    ensures "Network" in Intended(c) && Intended(c)["Network"] == IntendedNetwork(c)
  {
    SectionNamesDiffer();
  }

  lemma {:induction false} IntendedModeKeys(c: Settings)
    ensures var net := IntendedNetwork(c);
            && "DHCP" in net && net["DHCP"] == [if WantsDhcp(c) then "ipv4" else "no"]
            && (!WantsDhcp(c) ==> "Address" in net && net["Address"] == [c.ipv4 + "/" + IntText(c.prefix)])
            && "IPv6AcceptRA" !in net
  {
    KeysDiffer();
    assert |"IPv6AcceptRA"| == 12;
  }

  /** The address line is the address, a '/', and a text that writes the prefix. */
  ghost predicate AddressWrites(values: seq<string>, address: string, prefix: int)
  {
    exists n: string :: values == [address + "/" + n] && '/' !in n && Writes(n, prefix)
  }

  ghost predicate LinkWrites(keys: Keys, mtu: int)
  {
    exists n: string :: keys == map["MTUBytes" := [n]] && Writes(n, mtu)
  }

  lemma {:induction false} AddressWritten(address: string, prefix: int)
    ensures AddressWrites([address + "/" + IntText(prefix)], address, prefix)
  {
    IntReadsBack(prefix);
  }

  lemma {:induction false} LinkWritten(mtu: int)
    ensures LinkWrites(map["MTUBytes" := [IntText(mtu)]], mtu)
  {
    IntReadsBack(mtu);
  }

  lemma {:induction false} IntendedOptional(c: Settings)
    ensures "Route" in Intended(c) <==> WantsRoute(c)
    ensures WantsRoute(c) ==> Intended(c)["Route"] == map["Destination" := ["0.0.0.0/0"], "Gateway" := [c.gateway]]
    ensures "Link" in Intended(c) <==> WantsLink(c)
    ensures WantsLink(c) ==> Intended(c)["Link"] == map["MTUBytes" := [IntText(c.mtu.value)]]
  {
    SectionNamesDiffer();
  }

  /** The numbers read back: behind the last '/' of the address stands the prefix, and MTUBytes is the mtu. */
  lemma {:induction false} RenderedNumbers(c: Settings)
    requires CleanSettings(c)
    ensures var read := Parsed(Render(c));
            && "Network" in read && ("Link" in read <==> c.mtu.Some? && c.mtu.value != 0)
            && (c.mode != "dhcp" && c.mode != "reset" ==>
                  "Address" in read["Network"] && AddressWrites(read["Network"]["Address"], c.ipv4, c.prefix))
            && ("Link" in read ==> LinkWrites(read["Link"], c.mtu.value))
  {
    RenderRoundTrip(c);
    IntendedParts(c);
    IntendedOptional(c);
    AddressWritten(c.ipv4, c.prefix);
    if WantsLink(c) { LinkWritten(c.mtu.value); }
    if !WantsDhcp(c) { IntendedModeKeys(c); }
  }

  // What can be told apart from the file.

  /** The settings agree in all that is written for their mode; no mtu and an mtu of 0 are alike. */
  ghost predicate SameFile(c: Settings, d: Settings)
  {
    && c.iface == d.iface && WantsDhcp(c) == WantsDhcp(d) && WantsRoute(c) == WantsRoute(d)
    && WantsLink(c) == WantsLink(d)
    && (!WantsDhcp(c) ==> c.ipv4 == d.ipv4 && c.prefix == d.prefix && c.dns == d.dns)
    && (WantsRoute(c) ==> c.gateway == d.gateway)
    && (WantsLink(c) ==> c.mtu == d.mtu)
  }

  lemma {:induction false} LastSlash(a: string, s: string, b: string, t: string)
    requires a + "/" + s == b + "/" + t && '/' !in s && '/' !in t
    ensures a == b && s == t
  {
    var whole := a + "/" + s;
    assert whole[|a|] == '/' && whole[|b|] == '/';
    assert forall i :: |a| < i < |whole| ==> whole[i] == s[i - |a| - 1];
    assert forall i :: |b| < i < |whole| ==> whole[i] == t[i - |b| - 1];
    assert |a| == |b|;
    assert a == whole[..|a|] && b == whole[..|b|] && s == whole[|a| + 1..] && t == whole[|b| + 1..];
  }

  lemma {:induction false} JoinCons(first: string, rest: seq<string>)
    requires rest != []
    ensures Join([first] + rest, " ") == first + " " + Join(rest, " ")
  {
    var all, n := [first] + rest, |rest| - 1;
    assert all[..n + 1] == [first] + rest[..n];
    if n > 0 {
      JoinCons(first, rest[..n]);
      assert first + " " + (Join(rest[..n], " ") + " " + rest[n]) == first + " " + Join(rest[..n], " ") + " " + rest[n];
    } else {
      assert rest == [rest[0]] && all[..1] == [first];
    }
  }

  /** Splitting at the blanks undoes joining with them. */
  lemma {:induction false} SplitJoined(parts: seq<string>)
    requires parts != [] && forall i :: 0 <= i < |parts| ==> ' ' !in parts[i]
    ensures Split(Join(parts, " "), ' ') == parts
  {
    if |parts| == 1 {
      SplitNothing(parts[0], ' ');
    } else {
      var first, rest := parts[0], parts[1..];
      assert parts == [first] + rest;
      JoinCons(first, rest);
      var whole := Join(parts, " ");
      assert whole[..|first|] == first && whole[|first|] == ' ' && whole[|first| + 1..] == Join(rest, " ");
      FindUnique(whole, ' ', |first|);
      SplitJoined(rest);
    }
  }

  lemma {:induction false} CleanHasNoBlank(parts: seq<string>)
    requires forall i :: 0 <= i < |parts| ==> CleanValue(parts[i])
    ensures forall i :: 0 <= i < |parts| ==> ' ' !in parts[i]
  {
    forall i | 0 <= i < |parts| ensures ' ' !in parts[i] { assert CleanValue(parts[i]); }
  }

  lemma {:induction false} NetworksTellApart(c: Settings, d: Settings)
    requires CleanFields(c) && CleanFields(d) && IntendedNetwork(c) == IntendedNetwork(d)
    ensures WantsDhcp(c) == WantsDhcp(d)
    ensures !WantsDhcp(c) ==> c.ipv4 == d.ipv4 && c.prefix == d.prefix && c.dns == d.dns
  {
    KeysDiffer();
    var m, n := IntendedNetwork(c), IntendedNetwork(d);
    assert m["DHCP"][0] == n["DHCP"][0] && |"ipv4"| == 4 && |"no"| == 2;
    if !WantsDhcp(c) {
      assert m["Address"][0] == n["Address"][0];
      IntReadsBack(c.prefix);
      IntReadsBack(d.prefix);
      LastSlash(c.ipv4, IntText(c.prefix), d.ipv4, IntText(d.prefix));
      assert "DNS" in m <==> c.dns != [];
      assert "DNS" in n <==> d.dns != [];
      if c.dns != [] {
        assert m["DNS"][0] == n["DNS"][0];
        CleanHasNoBlank(c.dns);
        CleanHasNoBlank(d.dns);
        SplitJoined(c.dns);
        SplitJoined(d.dns);
      }
    }
  }

  lemma {:induction false} IntentionsTellApart(c: Settings, d: Settings)
    requires CleanFields(c) && CleanFields(d) && Intended(c) == Intended(d)
    ensures SameFile(c, d)
  {
    IntendedParts(c);
    IntendedParts(d);
    IntendedOptional(c);
    IntendedOptional(d);
    NetworksTellApart(c, d);
    var x, y := Intended(c), Intended(d);
    assert x["Match"]["Name"][0] == y["Match"]["Name"][0];
    if WantsRoute(c) {
      assert x["Route"]["Gateway"][0] == y["Route"]["Gateway"][0];
    }
    if WantsLink(c) {
      assert x["Link"]["MTUBytes"][0] == y["Link"]["MTUBytes"][0];
      IntReadsBack(c.mtu.value);
      IntReadsBack(d.mtu.value);
    }
  }

  /** Nothing is lost on the way: two clean settings are rendered alike, and their files are read alike, exactly when
      they agree in all that is written for their mode. */
  lemma {:induction false} RenderInjectiveIff(c: Settings, d: Settings)
    requires CleanSettings(c) && CleanSettings(d)
    ensures Parsed(Render(c)) == Parsed(Render(d)) <==> SameFile(c, d)
    ensures Render(c) == Render(d) <==> SameFile(c, d)
  {
    RenderRoundTrip(c);
    RenderRoundTrip(d);
    if Intended(c) == Intended(d) {
      IntentionsTellApart(c, d);
    }
    if SameFile(c, d) {
      assert NetworkOf(c) == NetworkOf(d) && MatchOf(c) == MatchOf(d);
      assert Document(c) == Document(d);
    }
  }

  // Whatever the text, every value the parser returns is trimmed.

  ghost predicate TrimmedValues(keys: Keys)
  {
    forall k, i :: k in keys && 0 <= i < |keys[k]| ==> Trimmed(keys[k][i])
  }

  lemma {:induction false} TokensTrimmed(keys: Keys, parts: seq<string>)
    requires TrimmedValues(keys)
    ensures TrimmedValues(AddTokens(keys, parts))
  {
    if parts != [] {
      var n := |parts| - 1;
      TokensTrimmed(keys, parts[..n]);
      StripKeeps(After(Strip(parts[n]), '='), '=');
    }
  }

  lemma {:induction false} LinesTrimmed(lines: seq<string>)
    ensures forall s :: s in ParseLines(lines).sections ==> TrimmedValues(ParseLines(lines).sections[s])
  {
    if lines != [] {
      var n := |lines| - 1;
      LinesTrimmed(lines[..n]);
      var st, line := ParseLines(lines[..n]), Strip(Before(lines[n], '#'));
      if line != "" && !IsHeader(line) && st.cur.Some? {
        TokensTrimmed(st.sections[st.cur.value], Split(line, ','));
      }
    }
  }

  /** The exact condition of the round trip: for clean fields the parser reads back what was intended if and only if
      dhcp or reset was asked for, or the DNS list is empty, or a single empty server, or has no empty server first or
      last. */
  lemma {:induction false} RoundTripIff(c: Settings)
    requires CleanFields(c)
    ensures Parsed(Render(c)) == Intended(c) <==> DnsEnds(c)
  {
    if DnsEnds(c) {
      RenderRoundTrip(c);
    } else {
      LinesTrimmed(SplitLines(Render(c)));
      IntendedParts(c);
      assert "DNS" in IntendedNetwork(c) && IntendedNetwork(c)["DNS"] == [Join(c.dns, " ")] by {
        KeysDiffer();
      }
      TrimmedIff(c.dns);
      assert [Join(c.dns, " ")][0] == Join(c.dns, " ");
    }
  }

  lemma {:induction false} ModeOf(net: Keys, c: Settings, isV4: string -> bool)
    requires "DHCP" in net && net["DHCP"] == [if WantsDhcp(c) then "ipv4" else "no"]
    requires !WantsDhcp(c) ==> "Address" in net && net["Address"] == [c.ipv4 + "/" + IntText(c.prefix)]
    requires "IPv6AcceptRA" in net ==> net["IPv6AcceptRA"] != []
    ensures DeriveMode(net, isV4).mode == (if WantsDhcp(c) then "dhcp" else "static")
    ensures DeriveMode(net, isV4).v4 ==
            (if WantsDhcp(c) then "dhcp" else if isV4(Before(c.ipv4 + "/" + IntText(c.prefix), '/')) then "static"
             else "none")
  {
    assert Lower("ipv4") == "ipv4" && Lower("no") == "no";
    if !WantsDhcp(c) {
      var a := c.ipv4 + "/" + IntText(c.prefix);
      assert a[|c.ipv4|] == '/';
      assert '/' in net["Address"][0] && net["Address"][0] == a;
    }
  }

  /** The mode derived from a rendered file is the one asked for; any mode other than dhcp or reset is static. */
  lemma {:induction false} RenderedMode(c: Settings, isV4: string -> bool)
    requires CleanSettings(c)
    ensures "Network" in Parsed(Render(c))
    ensures var net := Parsed(Render(c))["Network"];
            && ("DHCP" in net ==> net["DHCP"] != []) && ("IPv6AcceptRA" in net ==> net["IPv6AcceptRA"] != [])
            && DeriveMode(net, isV4).mode == (if c.mode == "dhcp" || c.mode == "reset" then "dhcp" else "static")
            && DeriveMode(net, isV4).v4 ==
               (if c.mode == "dhcp" || c.mode == "reset" then "dhcp"
                else if isV4(Before(c.ipv4 + "/" + IntText(c.prefix), '/')) then "static"
                else "none")
  {
    RenderRoundTrip(c);
    IntendedParts(c);
    IntendedModeKeys(c);
    ModeOf(Intended(c)["Network"], c, isV4);
  }

  lemma {:induction false} MergedLast(files: seq<string>, text: string, link: Link, network: Keys, iface: string)
    requires link.fits(iface) && "Match" in Parsed(text) && Parsed(text)["Match"] == map["Name" := [iface]]
    requires "Network" in Parsed(text) && Parsed(text)["Network"] == network
    ensures Merged(files + [text], link) == Merged(files, link) + network
  {
    assert (files + [text])[..|files|] == files;
    var m := Parsed(text)["Match"];
    assert |"Name"| == 4 && |"Type"| == 4 && "Name"[0] == 'N' && "Type"[0] == 'T' && |"MACAddress"| == 10;
    assert m["Name"][0] == iface && FileMatches(m, link);
  }

  /** Whatever the earlier files say, a rendered file that is last in name order and names the interface decides
      the mode the collector reports. */
  lemma {:induction false} LastFileDecides(files: seq<string>, c: Settings, link: Link, isV4: string -> bool)
    requires CleanSettings(c) && link.fits(c.iface)
    ensures var net := Merged(files + [Render(c)], link);
            && ("DHCP" in net ==> net["DHCP"] != []) && ("IPv6AcceptRA" in net ==> net["IPv6AcceptRA"] != [])
            && DeriveMode(net, isV4).mode == (if c.mode == "dhcp" || c.mode == "reset" then "dhcp" else "static")
  {
    RenderRoundTrip(c);
    IntendedParts(c);
    IntendedModeKeys(c);
    MergedNonEmpty(files + [Render(c)], link);
    MergedLast(files, Render(c), link, IntendedNetwork(c), c.iface);
    ModeOf(Merged(files, link) + IntendedNetwork(c), c, isV4);
  }

  lemma {:induction false} CommaPieces(key: string, a: string, b: string)
    ensures var raw, left := key + "=" + a + "," + b, key + "=" + a;
            && raw == key + "=" + (a + "," + b)
            && raw[..|key|] == key && raw[|key|] == '=' && raw[|key| + 1..] == a + "," + b
            && raw[..|left|] == left && raw[|left|] == ',' && raw[|left| + 1..] == b
  {
  }

  lemma {:induction false} CommaSplit(key: string, a: string, b: string)
    requires ',' !in key && ',' !in a && ',' !in b
    ensures Split(key + "=" + a + "," + b, ',') == [key + "=" + a, b]
  {
    var raw, left := key + "=" + a + "," + b, key + "=" + a;
    CommaPieces(key, a, b);
    FindUnique(raw, ',', |left|);
    SplitNothing(b, ',');
  }

  lemma {:induction false} CommaEdges(key: string, a: string, b: string)
    requires PlainName(key) && CleanValue(a) && PlainName(b)
    ensures var raw := key + "=" + a + "," + b;
            NoBreaks(raw) && Strip(raw) == raw && !IsComment(raw) && !IsHeader(raw) && !HasForbidden(a + "," + b)
  {
    var raw := key + "=" + a + "," + b;
    PlainEdges(key);
    PlainEdges(b);
    assert raw[0] == key[0] && raw[|raw| - 1] == b[|b| - 1];
    StripTrimmed(raw);
    assert forall i :: 0 <= i < |b| ==> b[i] in b;
  }

  lemma {:induction false} CommaShape(key: string, a: string, b: string)
    requires PlainName(key) && CleanValue(a) && PlainName(b)
    ensures var raw := key + "=" + a + "," + b;
            && NoBreaks(raw) && Strip(raw) == raw && raw != "" && !IsComment(raw) && !IsHeader(raw) && '=' in raw
            && Strip(Before(raw, '=')) == key && !HasForbidden(After(raw, '='))
            && Split(raw, ',') == [key + "=" + a, b] && Strip(b) == b && Before(b, '=') == b
  {
    var raw := key + "=" + a + "," + b;
    PlainEdges(key);
    PlainEdges(b);
    CommaEdges(key, a, b);
    CommaPieces(key, a, b);
    CommaSplit(key, a, b);
    FindUnique(raw, '=', |key|);
    StripTrimmed(key);
    StripTrimmed(b);
    FindAbsent(b, '=');
    assert b[..|b|] == b;
  }

  lemma {:induction false} CommaAppended(wl: Whitelist, lines: seq<string>, section: string, key: string, a: string,
                                         b: string)
    requires PlainWhitelist(wl) && section in wl && key in wl[section] && b !in wl[section]
    requires CleanValue(a) && PlainName(b) && CheckLines(wl, lines) == CheckState(Some(section), [])
    ensures var raw := key + "=" + a + "," + b;
            NoBreaks(raw) && Smuggles(wl, Some(section), raw) && CheckLines(wl, lines + [raw]) == CheckLines(wl, lines)
  {
    var raw := key + "=" + a + "," + b;
    CommaShape(key, a, b);
    LinesSnoc(wl, lines, raw);
    assert BadToken(wl, section, Split(Strip(raw), ',')[1]);
  }

  lemma {:induction false} CommaSmuggles(wl: Whitelist, section: string, key: string, a: string, b: string)
    requires PlainWhitelist(wl) && section in wl && key in wl[section] && b !in wl[section]
    requires CleanValue(a) && PlainName(b)
    ensures var text := Unlines(["[" + section + "]", key + "=" + a + "," + b]);
            CheckLines(wl, SplitLines(text)).errors == [] && !Whitelisted(wl, Parsed(text))
  {
    var header, raw := "[" + section + "]", key + "=" + a + "," + b;
    HeaderAppended(wl, [], section);
    CommaAppended(wl, [header], section, key, a, b);
    assert [] + [header] == [header] && [header] + [raw] == [header, raw] && [header, raw][..1] == [header];
    SplitUnlines([header, raw]);
    LinesAgree(wl, [header, raw]);
  }

  /** The comma the checker does not look past. Any accepted key=a value followed by a comma and text with an
      unlisted key leaves that key in the parser's result. */
  lemma {:induction false} CommaSlipsThrough(section: string, key: string, a: string, b: string)
    requires section in KEY_WHITELIST && key in KEY_WHITELIST[section] && b !in KEY_WHITELIST[section]
    requires CleanValue(a) && PlainName(b)
    ensures var text := Unlines(["[" + section + "]", key + "=" + a + "," + b]);
            SyntaxErrors(text) == [] && !Whitelisted(KEY_WHITELIST, Parsed(text))
  {
    WhitelistIsPlain();
    CommaSmuggles(KEY_WHITELIST, section, key, a, b);
  }
}
