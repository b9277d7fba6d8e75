/** tools/build_compliance.py: what the patterns of the block loop match.

    Each branch tests its line with a regular expression; each predicate here says which strings it matches, part by
    part. */
module MarkdownPatterns {
  import opened PythonText
  import opened MarkdownBlocks

  /** One character n times. */
  ghost predicate Times(s: string, c: char, n: nat) { |s| == n && forall i :: 0 <= i < n ==> s[i] == c }

  /** #{1,6}\s */
  ghost predicate HeadingText(s: string)
  {
    exists marks: string, c, rest: string ::
      s == marks + [c] + rest && 1 <= |marks| <= 6 && Times(marks, '#', |marks|) && IsSpace(c)
  }

  /** -{3,}, the whole line */
  ghost predicate DashesText(s: string) { |s| >= 3 && Times(s, '-', |s|) }

  /** \|[\s:|-]+\|, the whole line */
  ghost predicate TableRuleText(s: string)
  {
    exists inner: string ::
      s == "|" + inner + "|" && inner != "" && forall c :: c in inner ==> IsSpace(c) || c == ':' || c == '|' || c == '-'
  }

  /** \d+\.\s */
  ghost predicate OrderedText(s: string)
  {
    exists digits: string, c, rest: string ::
      s == digits + "." + [c] + rest && digits != "" && AllDigits(digits) && IsSpace(c)
  }

  /** [-*]\s */
  ghost predicate BulletText(s: string)
  {
    exists c, rest: string :: (s == "-" + [c] + rest || s == "*" + [c] + rest) && IsSpace(c)
  }

  lemma {:induction false} RunUnique(s: string, p: char -> bool, n: nat)
    requires n < |s| && !p(s[n]) && forall i :: 0 <= i < n ==> p(s[i])
    ensures Run(s, p) == n
  {
  }

  lemma {:induction false} HeadingIff(s: string)
    ensures Heading(s) <==> HeadingText(s)
  {
    if Heading(s) {
      var n := Run(s, c => c == '#');
      assert s == s[..n] + [s[n]] + s[n + 1..] && Times(s[..n], '#', n);
    }
    if HeadingText(s) {
      var marks: string, c, rest: string :|
        s == marks + [c] + rest && 1 <= |marks| <= 6 && Times(marks, '#', |marks|) && IsSpace(c);
      assert s[|marks|] == c && forall i :: 0 <= i < |marks| ==> s[i] == marks[i];
      RunUnique(s, d => d == '#', |marks|);
    }
  }

  lemma {:induction false} TableRuleIff(s: string)
    ensures TableRule(s) <==> TableRuleText(s)
  {
    if TableRule(s) {
      var inner := s[1..|s| - 1];
      assert s == "|" + inner + "|";
      forall c | c in inner ensures IsSpace(c) || c == ':' || c == '|' || c == '-' {
        var i :| 0 <= i < |inner| && inner[i] == c;
        assert s[i + 1] == c;
      }
    }
    if TableRuleText(s) {
      var inner: string :| s == "|" + inner + "|" && inner != ""
        && forall c :: c in inner ==> IsSpace(c) || c == ':' || c == '|' || c == '-';
      forall i | 1 <= i < |s| - 1 ensures IsSpace(s[i]) || s[i] in {':', '|', '-'} {
        assert s[i] == inner[i - 1] && inner[i - 1] in inner;
      }
    }
  }

  lemma {:induction false} OrderedIs(digits: string, c: char, rest: string)
    requires digits != "" && AllDigits(digits) && IsSpace(c)
    ensures Ordered(digits + "." + [c] + rest)
  {
    var s := digits + "." + [c] + rest;
    assert s[|digits|] == '.' && s[|digits| + 1] == c && forall i :: 0 <= i < |digits| ==> s[i] == digits[i];
    RunUnique(s, IsDigit, |digits|);
  }

  lemma {:induction false} OrderedIff(s: string)
    ensures Ordered(s) <==> OrderedText(s)
  {
    if Ordered(s) {
      var n := Run(s, IsDigit);
      assert s == s[..n] + "." + [s[n + 1]] + s[n + 2..];
    }
    if OrderedText(s) {
      var digits: string, c, rest: string :|
        s == digits + "." + [c] + rest && digits != "" && AllDigits(digits) && IsSpace(c);
      OrderedIs(digits, c, rest);
    }
  }

  lemma {:induction false} BulletIff(s: string)
    ensures Bullet(s) <==> BulletText(s)
  {
    if Bullet(s) {
      assert s == [s[0]] + [s[1]] + s[2..];
    }
  }

  /** Every pattern matches exactly the lines its regular expression describes; a list is begun by a bullet and a blank,
      or by a number. */
  lemma {:induction false} PatternsIff(s: string)
    ensures Heading(s) <==> HeadingText(s)
    ensures Dashes(s) <==> DashesText(s)
    ensures TableRule(s) <==> TableRuleText(s)
    ensures Ordered(s) <==> OrderedText(s)
    ensures Bullet(s) <==> BulletText(s)
    ensures Fence(s) <==> exists rest: string :: s == "```" + rest
    ensures ListStart(s) <==> OrderedText(s) || exists rest: string :: s == "- " + rest || s == "* " + rest
  {
    HeadingIff(s);
    TableRuleIff(s);
    OrderedIff(s);
    BulletIff(s);
    if Fence(s) { assert s == "```" + s[3..]; }
    if "- " <= s { assert s == "- " + s[2..]; }
    if "* " <= s { assert s == "* " + s[2..]; }
  }
}
