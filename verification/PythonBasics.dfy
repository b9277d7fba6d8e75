/** Small pieces of Python behaviour that several modules share. */
module PythonBasics {

  datatype Option<+T> = None | Some(value: T)

  /** dict.get(key, default). */
  function Get<K, V>(m: map<K, V>, key: K, default: V): V
  {
    if key in m then m[key] else default
  }

  /** The position a slice bound stands for: a negative bound counts from the end, and both ends clamp. */
  function SliceBound(length: nat, bound: int): (r: nat)
    ensures r <= length
  {
    var b := if bound < 0 then bound + length else bound;
    if b < 0 then 0 else if b > length then length else b
  }

  /** s[lo:hi] as Python reads it. */
  function Slice<T>(s: seq<T>, lo: int, hi: int): seq<T>
  {
    var l := SliceBound(|s|, lo);
    var h := SliceBound(|s|, hi);
    if l <= h then s[l..h] else []
  }

  /** Where a bound points when the length is added to a negative one. */
  function Position(length: nat, bound: int): int { if bound < 0 then bound + length else bound }

  /** A slice holds the elements at the positions from the one bound up to the other, as far as there are any. */
  lemma {:induction false} SlicePositions<T>(s: seq<T>, lo: int, hi: int)
    ensures var l, h := Position(|s|, lo), Position(|s|, hi);
            var from, to := if l > 0 then l else 0, if h < |s| then h else |s|;
            && |Slice(s, lo, hi)| == (if from <= to then to - from else 0)
            && forall i :: 0 <= i < |Slice(s, lo, hi)| ==> from + i < |s| && Slice(s, lo, hi)[i] == s[from + i]
  {
  }
}

/** What json.load yields; an object is a map from member names. */
module JsonValue {
  datatype Json =
    | Null
    | Bool(b: bool)
    | Num(n: real)
    | Str(s: string)
    | Arr(items: seq<Json>)
    | Obj(members: map<string, Json>)
}

/** Python's str operations used by the parsers: splitlines, strip, partition, split, decimal formatting. */
module PythonText {
  /** The characters str.splitlines() breaks at. */
  predicate IsLineBreak(c: char)
  {
    c in {'\n', '\r', '\U{0B}', '\U{0C}', '\U{1C}', '\U{1D}', '\U{1E}', '\U{85}', '\U{2028}', '\U{2029}'}
  }

  /** The characters str.strip() removes: the line breaks and the other white space. */
  predicate IsSpace(c: char)
  {
    || IsLineBreak(c)
    || c in {' ', '\t', '\U{1F}', '\U{A0}', '\U{1680}', '\U{202F}', '\U{205F}', '\U{3000}'}
    || '\U{2000}' <= c <= '\U{200A}'
  }

  /** Both tables by code point; every line break is white space. */
  lemma {:induction false} WhiteSpaceCodes(c: char)
    ensures var n := c as int;
            && (IsLineBreak(c) <==> 10 <= n <= 13 || 28 <= n <= 30 || n == 133 || n == 8232 || n == 8233)
            && (IsSpace(c) <==> 9 <= n <= 13 || 28 <= n <= 32 || n == 133 || n == 160 || n == 5760 ||
                                8192 <= n <= 8202 || n == 8232 || n == 8233 || n == 8239 || n == 8287 || n == 12288)
  {
  }

  function FirstBreak(s: string): (n: nat)
    ensures n <= |s|
    ensures forall i :: 0 <= i < n ==> !IsLineBreak(s[i])
    ensures n < |s| ==> IsLineBreak(s[n])
  {
    if s == "" || IsLineBreak(s[0]) then 0 else 1 + FirstBreak(s[1..])
  }

  /** str.splitlines(): CR LF is one break, and a break at the very end opens no further line. */
  function SplitLines(s: string): (lines: seq<string>)
    ensures forall i, j :: 0 <= i < |lines| && 0 <= j < |lines[i]| ==> !IsLineBreak(lines[i][j])
    decreases |s|
  {
    if s == "" then []
    else
      var n := FirstBreak(s);
      if n == |s| then [s]
      else
        var width := if s[n] == '\r' && n + 1 < |s| && s[n + 1] == '\n' then 2 else 1;
        [s[..n]] + SplitLines(s[n + width..])
  }

  function LStrip(s: string): string
  {
    if s != "" && IsSpace(s[0]) then LStrip(s[1..]) else s
  }

  function RStrip(s: string): string
  {
    if s != "" && IsSpace(s[|s| - 1]) then RStrip(s[..|s| - 1]) else s
  }

  function Strip(s: string): string
  {
    LStrip(RStrip(s))
  }

  /** The position of the first c, or the length when there is none. */
  function Find(s: string, c: char): (n: nat)
    ensures n <= |s|
    ensures c !in s[..n]
    ensures n < |s| ==> s[n] == c
  {
    if s == "" || s[0] == c then 0
    else
      var n := 1 + Find(s[1..], c);
      assert s[..n] == [s[0]] + s[1..][..n - 1];
      n
  }

  /** str.partition(c)[0]; with no c it is the whole string. */
  function Before(s: string, c: char): string { s[..Find(s, c)] }

  /** str.partition(c)[2]; with no c it is empty. */
  function After(s: string, c: char): string
  {
    if Find(s, c) == |s| then "" else s[Find(s, c) + 1..]
  }

  /** str.split(c). */
  function Split(s: string, c: char): (parts: seq<string>)
    ensures parts != []
    decreases |s|
  {
    if Find(s, c) == |s| then [s] else [Before(s, c)] + Split(After(s, c), c)
  }

  predicate StartsWith(s: string, c: char) { s != "" && s[0] == c }

  predicate EndsWith(s: string, c: char) { s != "" && s[|s| - 1] == c }

  /** sep.join(parts). */
  function Join(parts: seq<string>, sep: string): string
  {
    if parts == [] then ""
    else if |parts| == 1 then parts[0]
    else Join(parts[..|parts| - 1], sep) + sep + parts[|parts| - 1]
  }

  /** Every line followed by a newline. */
  function Unlines(lines: seq<string>): string
  {
    if lines == [] then "" else Unlines(lines[..|lines| - 1]) + lines[|lines| - 1] + "\n"
  }

  function Lower(s: string): (r: string)
    ensures |r| == |s|
  {
    seq(|s|, i requires 0 <= i < |s| => if 'A' <= s[i] <= 'Z' then (s[i] as int + 32) as char else s[i])
  }

  /** Only the letters A to Z change, each to its small letter. */
  lemma {:induction false} LowerLetter(s: string, i: nat, k: nat)
    requires i < |s| && k < 26
    ensures s[i] as int == 65 + k ==> Lower(s)[i] as int == 97 + k
    ensures s[i] as int < 65 || s[i] as int > 90 ==> Lower(s)[i] == s[i]
  {
  }

  // ---------- decimal numbers ----------

  function DigitChar(d: nat): (c: char)
    requires d < 10
    ensures '0' <= c <= '9' && c as int - '0' as int == d
  {
    ('0' as int + d) as char
  }

  predicate IsDigit(c: char) { '0' <= c <= '9' }

  predicate AllDigits(s: string) { forall i :: 0 <= i < |s| ==> IsDigit(s[i]) }

  /** str(n) for a natural number. */
  function Decimal(n: nat): (s: string)
    ensures s != "" && AllDigits(s)
  {
    if n < 10 then [DigitChar(n)] else Decimal(n / 10) + [DigitChar(n % 10)]
  }

  /** str(n) for any integer. */
  function IntText(n: int): (s: string)
    ensures s != "" && forall i :: 0 <= i < |s| ==> IsDigit(s[i]) || s[i] == '-'
  {
    if n < 0 then "-" + Decimal(-n) else Decimal(n)
  }

  function Pow10(k: nat): (p: nat)
    ensures p >= 1
  {
    if k == 0 then 1 else 10 * Pow10(k - 1)
  }

  /** The number a digit string denotes. */
  function DigitsValue(s: string): nat
    requires AllDigits(s)
  {
    if s == "" then 0 else 10 * DigitsValue(s[..|s| - 1]) + (s[|s| - 1] as int - '0' as int)
  }

  lemma {:induction false} DecimalValue(n: nat)
    ensures DigitsValue(Decimal(n)) == n
  {
    var s := Decimal(n);
    if n >= 10 {
      DecimalValue(n / 10);
      assert s[..|s| - 1] == Decimal(n / 10);
    } else {
      assert s[..|s| - 1] == "";
    }
  }

  /** The number that digits with an optional minus sign denote. */
  function IntValue(s: string): int
    requires AllDigits(if StartsWith(s, '-') then s[1..] else s)
  {
    if StartsWith(s, '-') then 0 - DigitsValue(s[1..]) else DigitsValue(s)
  }

  lemma {:induction false} NoLeadingZero(n: nat)
    ensures Decimal(n)[0] == '0' ==> Decimal(n) == "0"
  {
    if n >= 10 {
      NoLeadingZero(n / 10);
      DecimalValue(n / 10);
      assert DigitsValue("0") == 0 by { assert "0"[..0] == ""; }
    }
  }

  /** s writes n as str() does: digits with no needless zero in front, behind a minus sign for a negative number. */
  ghost predicate Writes(s: string, n: int)
  {
    var digits := if StartsWith(s, '-') then s[1..] else s;
    && digits != "" && AllDigits(digits) && IntValue(s) == n && (StartsWith(s, '-') <==> n < 0)
    && (digits[0] == '0' ==> digits == "0")
  }

  /** The text of an integer reads back as it. */
  lemma {:induction false} IntReadsBack(n: int)
    ensures Writes(IntText(n), n) && '/' !in IntText(n)
  {
    var digits := Decimal(if n < 0 then 0 - n else n);
    DecimalValue(if n < 0 then 0 - n else n);
    NoLeadingZero(if n < 0 then 0 - n else n);
    assert IsDigit(digits[0]);
    if n < 0 {
      assert ("-" + digits)[1..] == digits;
    }
  }

  lemma {:induction false} IntTextInjective(m: int, n: int)
    requires IntText(m) == IntText(n)
    ensures m == n
  {
    IntReadsBack(m);
    IntReadsBack(n);
  }

  /** A number's decimal text fits a field of k characters exactly when it is below ten to the k. */
  lemma {:induction false} DecimalWidth(n: nat, k: nat)
    requires k > 0
    ensures |Decimal(n)| <= k <==> n < Pow10(k)
  {
    if n >= 10 && k > 1 {
      DecimalWidth(n / 10, k - 1);
    } else if n < 10 {
      assert Pow10(k) == 10 * Pow10(k - 1);
    } else {
      assert Pow10(1) == 10 by { assert Pow10(0) == 1; }
    }
  }

  // ---------- facts about strip and split ----------

  /** Nothing to strip at either end. */
  predicate Trimmed(s: string)
  {
    s == "" || (!IsSpace(s[0]) && !IsSpace(s[|s| - 1]))
  }

  lemma {:induction false} StripTrimmed(s: string)
    requires Trimmed(s)
    ensures RStrip(s) == s && LStrip(s) == s && Strip(s) == s
  {
  }

  lemma {:induction false} LStripEdge(s: string)
    ensures var r := LStrip(s); r == "" || !IsSpace(r[0])
    ensures |LStrip(s)| <= |s| && LStrip(s) == s[|s| - |LStrip(s)|..]
    ensures forall i :: 0 <= i < |s| - |LStrip(s)| ==> IsSpace(s[i])
  {
    if s != "" && IsSpace(s[0]) {
      LStripEdge(s[1..]);
      forall i | 0 <= i < |s| - |LStrip(s)| ensures IsSpace(s[i]) {
        if i > 0 {
          assert s[i] == s[1..][i - 1];
        }
      }
    }
  }

  lemma {:induction false} RStripEdge(s: string)
    ensures var r := RStrip(s); r == "" || !IsSpace(r[|r| - 1])
    ensures |RStrip(s)| <= |s| && RStrip(s) == s[..|RStrip(s)|]
    ensures forall i :: |RStrip(s)| <= i < |s| ==> IsSpace(s[i])
  {
    if s != "" && IsSpace(s[|s| - 1]) {
      RStripEdge(s[..|s| - 1]);
    }
  }

  /** What strip() returns: the slice left when the white space at both ends is cut. */
  lemma {:induction false} StripSlice(s: string) returns (a: nat, b: nat)
    ensures a <= b <= |s| && Strip(s) == s[a..b] && Trimmed(Strip(s))
    ensures forall i :: 0 <= i < |s| && !(a <= i < b) ==> IsSpace(s[i])
  {
    var r := RStrip(s);
    RStripEdge(s);
    LStripEdge(r);
    a, b := |r| - |LStrip(r)|, |r|;
    assert r[a..] == s[a..b];
    assert a < b ==> !IsSpace(s[b - 1]);
  }

  /** strip() keeps every character that is not white space, and adds none. */
  lemma {:induction false} StripKeeps(s: string, c: char)
    ensures c in Strip(s) ==> c in s
    ensures c in s && !IsSpace(c) ==> c in Strip(s)
    ensures Trimmed(Strip(s))
  {
    var a, b := StripSlice(s);
    if c in s && !IsSpace(c) {
      var i :| 0 <= i < |s| && s[i] == c;
      assert s[a..b][i - a] == c;
    }
  }

  /** The first character that is not white space opens the stripped text. */
  lemma {:induction false} StripHead(s: string, n: nat)
    requires n < |s| && !IsSpace(s[n]) && forall i :: 0 <= i < n ==> IsSpace(s[i])
    ensures StartsWith(Strip(s), s[n])
  {
    var a, b := StripSlice(s);
    assert a <= n < b;
    assert !IsSpace(s[a..b][0]) && s[a..b][0] == s[a];
  }

  lemma {:induction false} BlankStrips(s: string)
    requires forall i :: 0 <= i < |s| ==> IsSpace(s[i])
    ensures RStrip(s) == "" && Strip(s) == ""
  {
    if s != "" {
      BlankStrips(s[..|s| - 1]);
    }
  }

  lemma {:induction false} FindUnique(s: string, c: char, n: nat)
    requires n <= |s| && c !in s[..n] && (n < |s| ==> s[n] == c)
    ensures Find(s, c) == n
  {
    var m := Find(s, c);
    assert forall i :: 0 <= i < n ==> s[i] == s[..n][i];
    assert forall i :: 0 <= i < m ==> s[i] == s[..m][i];
  }

  lemma {:induction false} FindAbsent(s: string, c: char)
    ensures Find(s, c) == |s| <==> c !in s
  {
    if Find(s, c) == |s| {
      assert s[..|s|] == s;
    } else {
      assert s[Find(s, c)] in s;
    }
  }

  lemma {:induction false} SplitNothing(s: string, c: char)
    requires c !in s
    ensures Split(s, c) == [s]
  {
    FindAbsent(s, c);
  }

  /** The three parts of str.partition(c): what stands before the first c, the c itself, and what stands behind it. */
  lemma {:induction false} Parts(s: string, c: char)
    ensures c !in Before(s, c)
    ensures if c in s then s == Before(s, c) + [c] + After(s, c) else Before(s, c) == s && After(s, c) == ""
  {
    FindAbsent(s, c);
    if c !in s {
      assert s[..|s|] == s;
    }
  }

  /** A line ends at the first break, and CR LF is one break. */
  lemma {:induction false} FirstLine(line: string, c: char, rest: string)
    requires (forall i :: 0 <= i < |line| ==> !IsLineBreak(line[i])) && IsLineBreak(c)
    ensures SplitLines(line + [c] + rest) ==
            [line] + SplitLines(if c == '\r' && StartsWith(rest, '\n') then rest[1..] else rest)
  {
    var s := line + [c] + rest;
    var n := FirstBreak(s);
    assert s[|line|] == c && forall i :: 0 <= i < |line| ==> s[i] == line[i];
    assert n == |line| && s[..n] == line;
    assert s[n + 1..] == rest;
    if c == '\r' && StartsWith(rest, '\n') {
      assert s[n + 2..] == rest[1..] && s[n + 1] == '\n';
    }
  }

  // ---------- splitlines undoes joining lines ----------

  ghost predicate NoBreaks(s: string)
  {
    forall i :: 0 <= i < |s| ==> !IsLineBreak(s[i])
  }

  lemma {:induction false} FirstBreakAt(line: string, rest: string)
    requires NoBreaks(line)
    ensures FirstBreak(line + "\n" + rest) == |line|
  {
    var s := line + "\n" + rest;
    var n := FirstBreak(s);
    assert s[|line|] == '\n';
    assert forall i :: 0 <= i < |line| ==> s[i] == line[i];
  }

  lemma {:induction false} UnlinesCons(line: string, lines: seq<string>)
    ensures Unlines([line] + lines) == line + "\n" + Unlines(lines)
  {
    if lines == [] {
      assert [line] + lines == [line];
      assert Unlines([line]) == Unlines([]) + line + "\n";
    } else {
      var n := |lines| - 1;
      UnlinesCons(line, lines[..n]);
      assert ([line] + lines)[..n + 1] == [line] + lines[..n];
      assert line + "\n" + (Unlines(lines[..n]) + lines[n] + "\n")
          == line + "\n" + Unlines(lines[..n]) + lines[n] + "\n";
    }
  }

  lemma {:induction false} SplitUnlines(lines: seq<string>)
    requires forall i :: 0 <= i < |lines| ==> NoBreaks(lines[i])
    ensures SplitLines(Unlines(lines)) == lines
  {
    if lines != [] {
      var rest := lines[1..];
      UnlinesCons(lines[0], rest);
      assert [lines[0]] + rest == lines;
      FirstBreakAt(lines[0], Unlines(rest));
      var s := Unlines(lines);
      assert s[..|lines[0]|] == lines[0] && s[|lines[0]| + 1..] == Unlines(rest);
      SplitUnlines(rest);
    }
  }

  lemma {:induction false} JoinThenNewline(lines: seq<string>)
    requires lines != []
    ensures Join(lines, "\n") + "\n" == Unlines(lines)
  {
    if |lines| == 1 {
      assert Unlines(lines) == Unlines([]) + lines[0] + "\n";
    } else {
      JoinThenNewline(lines[..|lines| - 1]);
    }
  }

  lemma {:induction false} JoinEnd(lines: seq<string>)
    requires lines != [] && lines[|lines| - 1] != ""
    ensures EndsWith(Join(lines, "\n"), lines[|lines| - 1][|lines[|lines| - 1]| - 1])
  {
  }

  /** Joining with newlines, stripping the end and closing with one newline is `Unlines` without the trailing blank. */
  lemma {:induction false} JoinedLines(lines: seq<string>)
    requires lines != [] && lines[|lines| - 1] != "" && Trimmed(lines[|lines| - 1])
    ensures RStrip(Join(lines + [""], "\n")) + "\n" == Unlines(lines)
  {
    var whole := Join(lines + [""], "\n");
    assert (lines + [""])[..|lines|] == lines;
    JoinThenNewline(lines);
    var body := Join(lines, "\n");
    assert whole == body + "\n" + "" == body + "\n";
    JoinEnd(lines);
    assert whole[..|whole| - 1] == body;
    assert RStrip(whole) == RStrip(body) == body;
  }
}
