/** lib/netcheck/helper/network_template.py: which errors the checker reports.

    One list for each line, in the order of the checks, laid end to end; a line stands in the section opened last
    before it. */
module NetworkChecker {
  import opened PythonBasics
  import opened PythonText
  import opened NetworkTemplate

  /** The sections that may hold keys are the six that may occur at all. */
  lemma {:induction false} SectionsListed()
    ensures KEY_WHITELIST.Keys == {"Match", "Network", "Route", "Link", "DHCPv4", "DHCPv6"}
  {
  }

  /** Line i opens this section. */
  ghost predicate Opens(lines: seq<string>, i: nat, section: string)
  {
    i < |lines| && Strip(lines[i]) == "[" + section + "]"
  }

  /** The section a line stands in: the one opened last before it. */
  ghost predicate InForce(lines: seq<string>, i: nat, section: string)
  {
    exists h: nat :: h < i && Opens(lines, h, section) && forall j, s :: h < j < i ==> !Opens(lines, j, s)
  }

  ghost predicate Outside(lines: seq<string>, i: nat) { forall j, s :: 0 <= j < i ==> !Opens(lines, j, s) }

  /** A line that should say key=value: not blank, no comment, and no section header. */
  ghost predicate IsBody(lines: seq<string>, i: nat)
  {
    && i < |lines| && var line := Strip(lines[i]);
    line != "" && line[0] != '#' && line[0] != ';' && !IsHeader(line)
  }

  /** A body line inside a section, with the key in front of its first '='. */
  ghost predicate HasKey(lines: seq<string>, i: nat, key: string)
  {
    && IsBody(lines, i) && !Outside(lines, i)
    && '=' in Strip(lines[i]) && key == Strip(Before(Strip(lines[i]), '='))
  }

  /** What is wrong with line i. */
  ghost predicate WrongAt(wl: Whitelist, lines: seq<string>, i: nat, e: SyntaxError)
  {
    e.line == i + 1 &&
    match e
    case UnknownSection(_, section) => Opens(lines, i, section) && section !in wl
    case OutsideSection(_) => IsBody(lines, i) && Outside(lines, i)
    case NotKeyValue(_) => IsBody(lines, i) && !Outside(lines, i) && '=' !in Strip(lines[i])
    case KeyNotAllowed(_, key, section) =>
      HasKey(lines, i, key) && InForce(lines, i, section) && section in wl && key !in wl[section]
    case ForbiddenValue(_, key) =>
      && HasKey(lines, i, key)
      && exists c :: c in {'[', ']', ';', '#', '\n', '\r'} && c in After(Strip(lines[i]), '=')
  }

  lemma {:induction false} HeaderIs(line: string)
    ensures IsHeader(line) && |line| >= 2 ==> line == "[" + HeaderName(line) + "]"
    ensures forall s :: line == "[" + s + "]" ==>
            IsHeader(line) && HeaderName(line) == s && line != "" && !IsComment(line)
    ensures IsHeader(line) ==> |line| >= 2
  {
    forall s | line == "[" + s + "]" ensures IsHeader(line) && HeaderName(line) == s && line != "" && !IsComment(line) {
      assert line[1..|s| + 1] == s;
    }
  }

  lemma {:induction false} OpensIff(lines: seq<string>, i: nat)
    requires i < |lines|
    ensures IsHeader(Strip(lines[i])) <==> exists s :: Opens(lines, i, s)
    ensures IsHeader(Strip(lines[i])) ==> forall s :: Opens(lines, i, s) <==> s == HeaderName(Strip(lines[i]))
  {
    HeaderIs(Strip(lines[i]));
    if IsHeader(Strip(lines[i])) {
      assert Opens(lines, i, HeaderName(Strip(lines[i])));
    }
  }

  lemma {:induction false} OpensPrefix(lines: seq<string>, n: nat, i: nat, s: string)
    requires i < n <= |lines|
    ensures Opens(lines[..n], i, s) <==> Opens(lines, i, s)
  {
  }

  lemma {:induction false} LastOpens(lines: seq<string>, n: nat, name: string, s: string)
    requires 0 < n <= |lines| && Opens(lines, n - 1, name)
    ensures InForce(lines, n, s) <==> s == name
  {
    OpensIff(lines, n - 1);
    if InForce(lines, n, s) {
      var h: nat :| h < n && Opens(lines, h, s) && forall j, t :: h < j < n ==> !Opens(lines, j, t);
      assert h == n - 1;
    }
  }

  lemma {:induction false} StillInForce(lines: seq<string>, n: nat, s: string)
    requires 0 < n <= |lines| && !IsHeader(Strip(lines[n - 1]))
    ensures InForce(lines, n, s) <==> InForce(lines, n - 1, s)
  {
    OpensIff(lines, n - 1);
    if InForce(lines, n, s) {
      var h: nat :| h < n && Opens(lines, h, s) && forall j, t :: h < j < n ==> !Opens(lines, j, t);
      assert h < n - 1;
    }
    if InForce(lines, n - 1, s) {
      var h: nat :| h < n - 1 && Opens(lines, h, s) && forall j, t :: h < j < n - 1 ==> !Opens(lines, j, t);
    }
  }

  /** The checker's section after n lines is the one in force. */
  lemma {:induction false} SectionAfter(wl: Whitelist, lines: seq<string>, n: nat)
    requires n <= |lines|
    ensures var section := CheckLines(wl, lines[..n]).section;
            && (section.None? <==> Outside(lines, n))
            && forall s :: InForce(lines, n, s) <==> section == Some(s)
  {
    if n > 0 {
      assert lines[..n][..n - 1] == lines[..n - 1];
      SectionAfter(wl, lines, n - 1);
      OpensIff(lines, n - 1);
      var before, line := CheckLines(wl, lines[..n - 1]).section, Strip(lines[n - 1]);
      HeaderIs(line);
      if IsHeader(line) {
        assert Opens(lines, n - 1, HeaderName(line));
        forall s ensures InForce(lines, n, s) <==> s == HeaderName(line) { LastOpens(lines, n, HeaderName(line), s); }
      } else {
        forall s ensures InForce(lines, n, s) <==> InForce(lines, n - 1, s) { StillInForce(lines, n, s); }
      }
    }
  }

  lemma {:induction false} ForbiddenIff(value: string)
    ensures HasForbidden(value) <==> exists c :: c in {'[', ']', ';', '#', '\n', '\r'} && c in value
  {
    if HasForbidden(value) {
      var i :| 0 <= i < |value| && value[i] in VALUE_FORBIDDEN;
      assert value[i] in value;
    } else {
      forall c | c in value ensures c !in VALUE_FORBIDDEN {
        var i :| 0 <= i < |value| && value[i] == c;
      }
    }
  }

  /** The errors of one line, given the section it stands in. */
  ghost predicate Faulty(wl: Whitelist, section: Option<string>, raw: string, e: SyntaxError)
  {
    var line := Strip(raw);
    var body := line != "" && !IsComment(line) && !IsHeader(line);
    match e
    case UnknownSection(_, name) => IsHeader(line) && name == HeaderName(line) && name !in wl
    case OutsideSection(_) => body && section.None?
    case NotKeyValue(_) => body && section.Some? && '=' !in line
    case KeyNotAllowed(_, key, name) =>
      body && section == Some(name) && '=' in line && key == Strip(Before(line, '=')) && name in wl && key !in wl[name]
    case ForbiddenValue(_, key) =>
      body && section.Some? && '=' in line && key == Strip(Before(line, '=')) && HasForbidden(After(line, '='))
  }

  /** One line adds its own errors, behind those found so far and with its own number. */
  lemma {:induction false} LineAppends(wl: Whitelist, st: CheckState, ln: nat, raw: string)
    returns (added: seq<SyntaxError>)
    ensures CheckLine(wl, st, ln, raw).errors == st.errors + added
    ensures forall e :: e in added <==> e.line == ln && Faulty(wl, st.section, raw, e)
  {
    var line := Strip(raw);
    HeaderIs(line);
    if line == "" || IsComment(line) {
      added := [];
    } else if IsHeader(line) {
      added := if HeaderName(line) in wl then [] else [UnknownSection(ln, HeaderName(line))];
    } else if st.section.None? {
      added := [OutsideSection(ln)];
    } else if '=' !in line {
      added := [NotKeyValue(ln)];
    } else {
      var name, key := st.section.value, Strip(Before(line, '='));
      added := (if name in wl && key !in wl[name] then [KeyNotAllowed(ln, key, name)] else [])
        + (if HasForbidden(After(line, '=')) then [ForbiddenValue(ln, key)] else []);
    }
  }

  lemma {:induction false} FaultyIsWrong(wl: Whitelist, lines: seq<string>, i: nat, e: SyntaxError)
    requires i < |lines|
    ensures WrongAt(wl, lines, i, e) <==>
            e.line == i + 1 && Faulty(wl, CheckLines(wl, lines[..i]).section, lines[i], e)
  {
    SectionAfter(wl, lines, i);
    OpensIff(lines, i);
    HeaderIs(Strip(lines[i]));
    ForbiddenIff(After(Strip(lines[i]), '='));
  }

  /** What one line adds: the errors it should be given, and no other. */
  lemma {:induction false} LineAdds(wl: Whitelist, lines: seq<string>, i: nat, e: SyntaxError)
    requires i < |lines|
    ensures e in CheckLines(wl, lines[..i + 1]).errors <==>
            e in CheckLines(wl, lines[..i]).errors || WrongAt(wl, lines, i, e)
  {
    assert lines[..i + 1][..i] == lines[..i];
    var added := LineAppends(wl, CheckLines(wl, lines[..i]), i + 1, lines[i]);
    FaultyIsWrong(wl, lines, i, e);
  }

  /** Exactly which errors are reported: for each line what is wrong with it, with its number. */
  lemma {:induction false} ErrorsIff(wl: Whitelist, lines: seq<string>, n: nat, e: SyntaxError)
    requires n <= |lines|
    ensures e in CheckLines(wl, lines[..n]).errors <==> exists i: nat :: i < n && WrongAt(wl, lines, i, e)
  {
    if n > 0 {
      ErrorsIff(wl, lines, n - 1, e);
      LineAdds(wl, lines, n - 1, e);
    }
  }

  ghost predicate Sorted(errors: seq<SyntaxError>, last: nat)
  {
    && (forall e :: e in errors ==> e.line <= last)
    && forall a, b :: 0 <= a < b < |errors| ==> errors[a].line <= errors[b].line
  }

  lemma {:induction false} SortedAppend(errors: seq<SyntaxError>, added: seq<SyntaxError>, ln: nat)
    requires Sorted(errors, ln) && forall e :: e in added ==> e.line == ln
    ensures Sorted(errors + added, ln)
  {
    var all := errors + added;
    forall a, b | 0 <= a < b < |all| ensures all[a].line <= all[b].line {
      if b >= |errors| {
        assert all[b] in added;
        assert all[a] in errors || all[a] in added;
      }
    }
  }

  lemma {:induction false} InOrder(wl: Whitelist, lines: seq<string>)
    ensures Sorted(CheckLines(wl, lines).errors, |lines|)
  {
    if lines != [] {
      var n := |lines| - 1;
      InOrder(wl, lines[..n]);
      var before := CheckLines(wl, lines[..n]);
      var added := LineAppends(wl, before, n + 1, lines[n]);
      SortedAppend(before.errors, added, n + 1);
    }
  }

  lemma {:induction false} WrongInside(wl: Whitelist, lines: seq<string>, i: nat, e: SyntaxError)
    ensures WrongAt(wl, lines, i, e) ==> i < |lines|
  {
  }

  /** For a whole text: the errors are those of its lines, in the order of the lines. */
  lemma {:induction false} AllErrors(wl: Whitelist, lines: seq<string>, e: SyntaxError)
    ensures e in CheckLines(wl, lines).errors <==> exists i: nat :: WrongAt(wl, lines, i, e)
    ensures Sorted(CheckLines(wl, lines).errors, |lines|)
  {
    ErrorsIff(wl, lines, |lines|, e);
    InOrder(wl, lines);
    assert lines[..|lines|] == lines;
    if i: nat :| WrongAt(wl, lines, i, e) {
      WrongInside(wl, lines, i, e);
    }
  }
}
