/**
 * Which texts int() takes for a number, as the Python language reference describes them: white space around an optional
 * sign and groups of decimal digits with single underscores between the groups.
 */
module IntLiterals {
  import opened PythonBasics
  import opened PythonText
  import opened ArHeader

  /** \d+(_\d+)*, and the digits without the underscores. */
  ghost predicate Groups(body: string, digits: string)
    decreases |body|
  {
    || (body != "" && AllDigits(body) && digits == body)
    || exists group: string, rest: string, more: string ::
         && body == group + "_" + rest && digits == group + more
         && group != "" && AllDigits(group) && |rest| < |body| && Groups(rest, more)
  }

  ghost predicate Blank(s: string) { forall i :: 0 <= i < |s| ==> IsIntSpace(s[i]) }

  function Signed(sign: string, n: nat): int { if sign == "-" then 0 - n else n }

  /** The text, cut into its parts, is the number n. */
  ghost predicate Cut(s: string, n: int, before: string, sign: string, body: string, digits: string, after: string)
  {
    && s == before + sign + body + after && Blank(before) && Blank(after) && sign in {"", "+", "-"}
    && Groups(body, digits) && AllDigits(digits) && n == Signed(sign, DigitsValue(digits))
  }

  /** The text is the number n, the way int() reads it. */
  ghost predicate Denotes(s: string, n: int)
  {
    exists before: string, sign: string, body: string, digits: string, after: string ::
      Cut(s, n, before, sign, body, digits, after)
  }

  lemma {:induction false} DropConcat(a: string, b: string)
    requires forall i :: 0 <= i < |a| ==> IsDigit(a[i]) || a[i] == '_'
    requires forall i :: 0 <= i < |b| ==> IsDigit(b[i]) || b[i] == '_'
    ensures forall i :: 0 <= i < |a + b| ==> IsDigit((a + b)[i]) || (a + b)[i] == '_'
    ensures DropUnderscores(a + b) == DropUnderscores(a) + DropUnderscores(b)
  {
    if b == "" {
      assert a + b == a;
    } else {
      var n := |b| - 1;
      assert (a + b)[..|a + b| - 1] == a + b[..n] && (a + b)[|a + b| - 1] == b[n];
      DropConcat(a, b[..n]);
    }
  }

  lemma {:induction false} DropOneGroup(group: string, rest: string)
    requires AllDigits(group) && forall i :: 0 <= i < |rest| ==> IsDigit(rest[i]) || rest[i] == '_'
    ensures forall i :: 0 <= i < |group + "_" + rest| ==>
              IsDigit((group + "_" + rest)[i]) || (group + "_" + rest)[i] == '_'
    ensures DropUnderscores(group + "_" + rest) == group + DropUnderscores(rest)
  {
    NoUnderscores(group);
    DropConcat(group, "_");
    assert "_"[..0] == "";
    DropConcat(group + "_", rest);
  }

  /** A digit group, an underscore and more: underscored digits exactly when the rest is. */
  lemma {:induction false} OneGroupMore(group: string, rest: string)
    requires group != "" && AllDigits(group)
    ensures UnderscoredDigits(group + "_" + rest) <==> UnderscoredDigits(rest)
  {
    var s, g := group + "_" + rest, |group|;
    assert s[g] == '_' && forall i :: 0 <= i < g ==> s[i] == group[i];
    assert forall i :: 0 <= i < |rest| ==> s[g + 1 + i] == rest[i];
    if UnderscoredDigits(s) {
      assert s[|s| - 1] != '_';
      assert rest != "" && s[g + 1] == rest[0];
      forall i | 0 <= i < |rest| - 1 ensures !(rest[i] == '_' && rest[i + 1] == '_') {
        assert s[g + 1 + i] == rest[i] && s[g + 1 + i + 1] == rest[i + 1];
      }
    }
    if UnderscoredDigits(rest) {
      forall i | 0 <= i < |s| - 1 ensures !(s[i] == '_' && s[i + 1] == '_') {
        if i > g {
          assert s[i] == rest[i - g - 1] && s[i + 1] == rest[i - g - 1 + 1];
        }
      }
    }
  }

  lemma {:induction false} GroupsAreDigits(body: string, digits: string)
    requires Groups(body, digits)
    ensures UnderscoredDigits(body) && digits == DropUnderscores(body)
    decreases |body|
  {
    if body != "" && AllDigits(body) && digits == body {
      NoUnderscores(body);
    } else {
      var group: string, rest: string, more: string :|
        && body == group + "_" + rest && digits == group + more
        && group != "" && AllDigits(group) && |rest| < |body| && Groups(rest, more);
      GroupsAreDigits(rest, more);
      OneGroupMore(group, rest);
      DropOneGroup(group, rest);
    }
  }

  lemma {:induction false} DigitsAreGroups(body: string)
    requires UnderscoredDigits(body)
    ensures Groups(body, DropUnderscores(body))
    decreases |body|
  {
    var g := Find(body, '_');
    if g == |body| {
      assert AllDigits(body) by {
        FindAbsent(body, '_');
        assert forall i :: 0 <= i < |body| ==> body[i] in body;
      }
      NoUnderscores(body);
    } else {
      var group, rest := body[..g], body[g + 1..];
      assert body == group + "_" + rest;
      assert AllDigits(group) by { assert forall i :: 0 <= i < g ==> group[i] in group; }
      assert group != "" by { assert body[0] != '_'; }
      OneGroupMore(group, rest);
      DigitsAreGroups(rest);
      DropOneGroup(group, rest);
    }
  }

  lemma {:induction false} GroupsIff(body: string, digits: string)
    ensures Groups(body, digits) <==> UnderscoredDigits(body) && digits == DropUnderscores(body)
    decreases |body|
  {
    if Groups(body, digits) {
      GroupsAreDigits(body, digits);
    }
    if UnderscoredDigits(body) && digits == DropUnderscores(body) {
      DigitsAreGroups(body);
    }
  }

  lemma {:induction false} BlankConcat(a: string, b: string)
    requires Blank(a) && Blank(b)
    ensures Blank(a + b)
  {
  }

  lemma {:induction false} CutFront(s: string, c: nat, d: nat)
    requires s != "" && IsIntSpace(s[0]) && c <= d < |s| && Blank(s[1..][..c]) && Blank(s[1..][d..])
    ensures s[c + 1..d + 1] == s[1..][c..d] && Blank(s[..c + 1]) && Blank(s[d + 1..])
  {
    assert s[c + 1..d + 1] == s[1..][c..d] && s[d + 1..] == s[1..][d..];
    BlankConcat([s[0]], s[1..][..c]);
    assert s[..c + 1] == [s[0]] + s[1..][..c];
  }

  lemma {:induction false} CutBack(s: string, a: nat, b: nat)
    requires s != "" && IsIntSpace(s[|s| - 1]) && a <= b < |s|
    requires Blank(s[..|s| - 1][..a]) && Blank(s[..|s| - 1][b..])
    ensures s[a..b] == s[..|s| - 1][a..b] && Blank(s[..a]) && Blank(s[b..])
  {
    var front := s[..|s| - 1];
    assert s[..a] == front[..a] && s[a..b] == front[a..b];
    BlankConcat(front[b..], [s[|s| - 1]]);
    assert s[b..] == front[b..] + [s[|s| - 1]];
  }

  /** What int() leaves when it cuts the white space: a core with none at its ends. */
  lemma {:induction false} TrimSlice(s: string) returns (a: nat, b: nat)
    ensures a <= b <= |s| && IntTrim(s) == s[a..b]
    ensures Blank(s[..a]) && Blank(s[b..])
    ensures a < b ==> !IsIntSpace(s[a]) && !IsIntSpace(s[b - 1])
    decreases |s|
  {
    if s != "" && IsIntSpace(s[0]) {
      var c, d := TrimSlice(s[1..]);
      a, b := c + 1, d + 1;
      CutFront(s, c, d);
    } else if s != "" && IsIntSpace(s[|s| - 1]) {
      a, b := TrimSlice(s[..|s| - 1]);
      CutBack(s, a, b);
    } else {
      a, b := 0, |s|;
    }
  }

  /** Whatever is cut around a core with no white space at its ends, the core is left. */
  lemma {:induction false} TrimCore(before: string, core: string, after: string)
    requires Blank(before) && Blank(after) && core != "" && !IsIntSpace(core[0]) && !IsIntSpace(core[|core| - 1])
    ensures IntTrim(before + core + after) == core
  {
    var s := before + core + after;
    var a, b := TrimSlice(s);
    var c, d := |before|, |before| + |core|;
    assert s[c] == core[0] && s[d - 1] == core[|core| - 1];
    assert forall i :: 0 <= i < c ==> s[i] == before[i];
    assert forall i :: d <= i < |s| ==> s[i] == after[i - d];
    assert forall i :: 0 <= i < a ==> s[..a][i] == s[i];
    assert forall i :: b <= i < |s| ==> s[b..][i - b] == s[i];
    assert a <= c && d <= b;
    assert a == c && b == d;
    assert s[a..b] == core;
  }

  /** The sign of a text: its first character if that is one. */
  function SignOf(t: string): string { if StartsWith(t, '-') || StartsWith(t, '+') then t[..1] else "" }

  lemma {:induction false} SignedParses(t: string, n: int)
    requires ParseSigned(t) == Some(n)
    ensures var sign, body := SignOf(t), t[|SignOf(t)|..];
            && t == sign + body && sign in {"", "+", "-"} && UnderscoredDigits(body)
            && n == Signed(sign, DigitsValue(DropUnderscores(body)))
  {
    var sign := SignOf(t);
    if sign != "" {
      assert sign == [t[0]];
    }
    assert "-"[0] == '-' && "+"[0] == '+';
  }

  lemma {:induction false} PartsParse(sign: string, body: string)
    requires sign in {"", "+", "-"} && UnderscoredDigits(body)
    ensures ParseSigned(sign + body) == Some(Signed(sign, DigitsValue(DropUnderscores(body))))
  {
    var t := sign + body;
    assert IsDigit(body[0]);
    if sign == "" {
      assert t == body;
    } else {
      assert t[0] == sign[0] && t[1..] == body;
      assert "-"[0] == '-' && "+"[0] == '+';
    }
  }

  lemma {:induction false} TrimParts(s: string) returns (before: string, core: string, after: string)
    ensures s == before + core + after && Blank(before) && Blank(after) && IntTrim(s) == core
  {
    var a, b := TrimSlice(s);
    before, core, after := s[..a], s[a..b], s[b..];
  }

  lemma {:induction false} SignedParts(t: string, n: int) returns (sign: string, body: string)
    requires ParseSigned(t) == Some(n)
    ensures t == sign + body && sign in {"", "+", "-"} && UnderscoredDigits(body)
    ensures n == Signed(sign, DigitsValue(DropUnderscores(body)))
  {
    SignedParses(t, n);
    sign, body := SignOf(t), t[|SignOf(t)|..];
  }

  lemma {:induction false} Regrouped(before: string, sign: string, body: string, after: string)
    ensures before + (sign + body) + after == before + sign + body + after
  {
  }

  lemma {:induction false} ParsedIsCut(s: string, n: int)
    requires ParseInt(s) == Some(n)
    ensures Denotes(s, n)
  {
    var before, core, after := TrimParts(s);
    var sign, body := SignedParts(core, n);
    DigitsAreGroups(body);
    Regrouped(before, sign, body, after);
    assert Cut(s, n, before, sign, body, DropUnderscores(body), after);
  }

  lemma {:induction false} CoreEdges(sign: string, body: string)
    requires sign in {"", "+", "-"} && UnderscoredDigits(body)
    ensures var core := sign + body;
            core != "" && !IsIntSpace(core[0]) && !IsIntSpace(core[|core| - 1])
  {
    var core := sign + body;
    assert IsDigit(body[0]) && IsDigit(body[|body| - 1]) && core[|core| - 1] == body[|body| - 1];
    assert core[0] == if sign == "" then body[0] else sign[0];
    assert "-"[0] == '-' && "+"[0] == '+';
  }

  lemma {:induction false} CutParses(s: string, n: int, before: string, sign: string, body: string, digits: string,
                                     after: string)
    requires Cut(s, n, before, sign, body, digits, after)
    ensures ParseInt(s) == Some(n)
  {
    GroupsAreDigits(body, digits);
    CoreEdges(sign, body);
    TrimCore(before, sign + body, after);
    Regrouped(before, sign, body, after);
    PartsParse(sign, body);
  }

  /** int() takes exactly the texts that denote a number, and takes them for it. */
  lemma {:induction false} ParsesIff(s: string, n: int)
    ensures ParseInt(s) == Some(n) <==> Denotes(s, n)
  {
    if ParseInt(s) == Some(n) {
      ParsedIsCut(s, n);
    }
    if Denotes(s, n) {
      var before: string, sign: string, body: string, digits: string, after: string :|
        Cut(s, n, before, sign, body, digits, after);
      CutParses(s, n, before, sign, body, digits, after);
    }
  }

  /** Among ASCII characters int() skips six; str.rstrip(), which runs before it, four more. */
  lemma {:induction false} AsciiBlanks(c: char)
    requires c as int < 128
    ensures IsIntSpace(c) <==> c in {' ', '\t', '\n', '\U{0B}', '\U{0C}', '\r'}
    ensures IsSpace(c) <==> IsIntSpace(c) || c in {'\U{1C}', '\U{1D}', '\U{1E}', '\U{1F}'}
  {
  }
}
