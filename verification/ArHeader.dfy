/**
 * tools/build_deb.py: one member of an `ar` archive.
 *
 * A header is 60 bytes of text: name, time, owner, group, mode, size and two closing characters. It is written from a
 * name and a size; the reader takes the name and the size back out of it, with str.rstrip() and int().
 */
module ArHeader {
  import opened PythonBasics
  import opened PythonText

  // ---------- writing ----------

  type byte = x: int | 0 <= x < 256
  type bytes = seq<byte>

  datatype Error = NameTooLong | NotAscii | BadHeaderLength | NotAnArchive | BadMemberHeader | BadSize
  datatype Result<+T> = Ok(value: T) | Err(error: Error)

  datatype Entry = Entry(name: string, data: bytes)

  const HEADER := 60

  predicate IsAscii(s: string) { forall i :: 0 <= i < |s| ==> s[i] as int < 128 }

  function Encode(s: string): (b: bytes)
    requires IsAscii(s)
    ensures |b| == |s|
  {
    seq(|s|, i requires 0 <= i < |s| => s[i] as int)
  }

  predicate Decodes(b: bytes) { forall i :: 0 <= i < |b| ==> b[i] < 128 }

  function Decode(b: bytes): (s: string)
    requires Decodes(b)
    ensures |s| == |b|
  {
    seq(|b|, i requires 0 <= i < |b| => b[i] as char)
  }

  function Spaces(n: nat): string { seq(n, _ => ' ') }

  /** f"{s:<n}": padded on the right, never cut. */
  function Pad(s: string, n: nat): (r: string)
    ensures |r| == if |s| < n then n else |s|
  {
    if |s| < n then s + Spaces(n - |s|) else s
  }

  /** Time, owner, group and mode: always the same. */
  function Middle(): string { Pad("0", 12) + Pad("0", 6) + Pad("0", 6) + Pad("100644", 8) }

  function HeaderText(name: string, size: string): string { Pad(name, 16) + Middle() + Pad(size, 10) + "`\n" }

  const BACKTICK: byte := 96

  /** The newline that keeps the next header at an even offset. */
  function Padding(n: nat): bytes { if n % 2 == 1 then [10] else [] }

  /** gnu_ar_member */
  function Member(e: Entry): Result<bytes>
  {
    var header := HeaderText(e.name, Decimal(|e.data|));
    if |e.name| > 15 then Err(NameTooLong)
    else if !IsAscii(header) then Err(NotAscii)
    else if |header| != HEADER then Err(BadHeaderLength)
    else Ok(Encode(header) + e.data + Padding(|e.data|))
  }

  // ---------- reading the fields ----------

  /** str.rstrip(c) for one character. */
  function DropTrailing(s: string, c: char): string
  {
    if s != "" && s[|s| - 1] == c then DropTrailing(s[..|s| - 1], c) else s
  }

  /** Digits with single underscores between them, as int() accepts. */
  predicate UnderscoredDigits(s: string)
  {
    && s != "" && s[0] != '_' && s[|s| - 1] != '_'
    && (forall i :: 0 <= i < |s| ==> IsDigit(s[i]) || s[i] == '_')
    && (forall i :: 0 <= i < |s| - 1 ==> !(s[i] == '_' && s[i + 1] == '_'))
  }

  function DropUnderscores(s: string): (r: string)
    requires forall i :: 0 <= i < |s| ==> IsDigit(s[i]) || s[i] == '_'
    ensures AllDigits(r)
  {
    if s == "" then ""
    else
      var rest := DropUnderscores(s[..|s| - 1]);
      if s[|s| - 1] == '_' then rest else rest + [s[|s| - 1]]
  }

  /** The white space int() skips: all but the separators U+001C to U+001F, which only strip() removes. */
  predicate IsIntSpace(c: char) { IsSpace(c) && !('\U{1C}' <= c <= '\U{1F}') }

  function IntTrim(s: string): string
    decreases |s|
  {
    if s != "" && IsIntSpace(s[0]) then IntTrim(s[1..])
    else if s != "" && IsIntSpace(s[|s| - 1]) then IntTrim(s[..|s| - 1])
    else s
  }

  /** An optional sign, and digits with underscores. */
  function ParseSigned(t: string): Option<int>
  {
    var signed := StartsWith(t, '-') || StartsWith(t, '+');
    var body := if signed then t[1..] else t;
    if !UnderscoredDigits(body) then None
    else
      var n: int := DigitsValue(DropUnderscores(body));
      Some(if StartsWith(t, '-') then -n else n)
  }

  /** int(s): the same, with white space around it. */
  function ParseInt(s: string): Option<int> { ParseSigned(IntTrim(s)) }

  // ---------- what a written header reads as ----------

  lemma {:induction false} NoUnderscores(s: string)
    requires AllDigits(s)
    ensures DropUnderscores(s) == s
  {
    if s != "" {
      NoUnderscores(s[..|s| - 1]);
    }
  }

  lemma {:induction false} DigitsTrimmed(s: string)
    requires AllDigits(s)
    ensures Trimmed(s)
  {
  }

  /** int() of plain digits is their value; of nothing, an error. */
  lemma {:induction false} DigitsParse(s: string)
    requires AllDigits(s)
    ensures ParseInt(s) == if s == "" then None else Some(DigitsValue(s))
  {
    DigitsTrimmed(s);
    StripTrimmed(s);
    NoUnderscores(s);
    assert s != "" ==> IsDigit(s[0]) && IsDigit(s[|s| - 1]);
  }

  /** The name the reader finds in a header: trailing blanks are cut, and then trailing slashes. */
  function BareName(name: string): string { DropTrailing(DropTrailing(name, ' '), '/') }

  predicate KeepsName(e: Entry) { !EndsWith(e.name, ' ') && !EndsWith(e.name, '/') }

  lemma {:induction false} DropTrailingIff(s: string, c: char)
    ensures if EndsWith(s, c) then |DropTrailing(s, c)| < |s| else DropTrailing(s, c) == s
  {
    if EndsWith(s, c) {
      DropTrailingIff(s[..|s| - 1], c);
    }
  }

  lemma {:induction false} BareNameIff(e: Entry)
    ensures BareName(e.name) == e.name <==> KeepsName(e)
  {
    DropTrailingIff(e.name, ' ');
    DropTrailingIff(DropTrailing(e.name, ' '), '/');
  }

  lemma {:induction false} TenDigits(n: nat)
    ensures |Decimal(n)| <= 10 <==> n < 10000000000
  {
    DecimalWidth(n, 10);
    assert Pow10(2) == 100 && Pow10(4) == 10000 by { assert Pow10(1) == 10; assert Pow10(3) == 1000; }
    assert Pow10(6) == 1000000 by { assert Pow10(5) == 100000; }
    assert Pow10(8) == 100000000 by { assert Pow10(7) == 10000000; }
    assert Pow10(10) == 10000000000 by { assert Pow10(9) == 1000000000; }
  }

  lemma {:induction false} MiddleFacts()
    ensures |Middle()| == 32 && IsAscii(Middle())
  {
  }

  lemma {:induction false} FieldsAt(a: string, b: string, c: string)
    ensures var h := a + b + c + "`\n";
            && |h| == |a| + |b| + |c| + 2 && a <= h && h[..|a|] == a && h[|a| + |b|..|a| + |b| + |c|] == c
            && h[|a| + |b| + |c|] == '`'
  {
  }

  lemma {:induction false} AsciiConcat(a: string, b: string)
    requires IsAscii(a) && IsAscii(b)
    ensures IsAscii(a + b)
  {
  }

  lemma {:induction false} HeaderAscii(name: string, size: string)
    requires IsAscii(name) && IsAscii(size)
    ensures IsAscii(HeaderText(name, size))
  {
    MiddleFacts();
    AsciiConcat(Pad(name, 16), Middle());
    AsciiConcat(Pad(name, 16) + Middle(), Pad(size, 10));
    AsciiConcat(Pad(name, 16) + Middle() + Pad(size, 10), "`\n");
  }

  /** The header's fixed fields, wherever the name and the size fit theirs. */
  lemma {:induction false} HeaderFields(name: string, size: string)
    ensures |HeaderText(name, size)| == |Pad(name, 16)| + 32 + |Pad(size, 10)| + 2
    ensures name <= Pad(name, 16) <= HeaderText(name, size)
    ensures |name| <= 16 && |size| <= 10 ==>
              var h := HeaderText(name, size);
              |h| == HEADER && h[..16] == Pad(name, 16) && h[48..58] == Pad(size, 10) && h[58] == '`'
  {
    MiddleFacts();
    FieldsAt(Pad(name, 16), Middle(), Pad(size, 10));
  }

  lemma {:induction false} DigitsAscii(s: string)
    requires AllDigits(s)
    ensures IsAscii(s)
  {
    assert forall i :: 0 <= i < |s| ==> IsDigit(s[i]);
  }

  lemma {:induction false} NotAsciiPrefix(a: string, b: string)
    requires a <= b && !IsAscii(a)
    ensures !IsAscii(b)
  {
    assert forall i :: 0 <= i < |a| ==> b[i] == a[i];
  }

  /** A member can be written exactly when its name is ASCII and short enough and its size has at most ten digits. */
  lemma {:induction false} MemberWritableIff(e: Entry)
    ensures Member(e).Ok? <==> |e.name| <= 15 && IsAscii(e.name) && |e.data| < 10000000000
  {
    var size := Decimal(|e.data|);
    TenDigits(|e.data|);
    DigitsAscii(size);
    HeaderFields(e.name, size);
    if IsAscii(e.name) {
      HeaderAscii(e.name, size);
    } else {
      NotAsciiPrefix(e.name, HeaderText(e.name, size));
    }
  }

  lemma {:induction false} PaddedText(s: string, n: nat)
    requires |s| <= n
    ensures RStrip(s + Spaces(n - |s|)) == RStrip(s)
    ensures DropTrailing(s + Spaces(n - |s|), ' ') == DropTrailing(s, ' ')
  {
    var t := s + Spaces(n - |s|);
    if n > |s| {
      PaddedText(s, n - 1);
      assert t[..|t| - 1] == s + Spaces(n - 1 - |s|);
      assert t[|t| - 1] == ' ';
    } else {
      assert t == s;
    }
  }

  lemma {:induction false} PadStrips(s: string, n: nat)
    requires |s| <= n && AllDigits(s)
    ensures RStrip(Pad(s, n)) == s
  {
    PaddedText(s, n);
    assert |s| == n ==> s + Spaces(0) == s;
    DigitsTrimmed(s);
    StripTrimmed(s);
  }

  /** The size field reads back as the size. */
  lemma {:induction false} SizeReadsBack(n: nat)
    requires |Decimal(n)| <= 10
    ensures ParseInt(RStrip(Pad(Decimal(n), 10))) == Some(n)
  {
    PadStrips(Decimal(n), 10);
    DigitsParse(Decimal(n));
    DecimalValue(n);
  }

  lemma {:induction false} NameReadsBack(name: string)
    requires |name| <= 15
    ensures DropTrailing(DropTrailing(Pad(name, 16), ' '), '/') == BareName(name)
  {
    PaddedText(name, 16);
  }

  lemma {:induction false} DecodeEncode(s: string, lo: nat, hi: nat)
    requires IsAscii(s) && lo <= hi <= |s|
    ensures Decodes(Encode(s)[lo..hi]) && Decode(Encode(s)[lo..hi]) == s[lo..hi]
  {
  }

  lemma {:induction false} HeaderBytes(text: string)
    requires IsAscii(text) && |text| == HEADER
    ensures var h := Encode(text);
            && Decodes(h[..16]) && Decode(h[..16]) == text[..16]
            && Decodes(h[48..58]) && Decode(h[48..58]) == text[48..58]
            && h[58] as int == text[58] as int
  {
    DecodeEncode(text, 0, 16);
    DecodeEncode(text, 48, 58);
    assert Encode(text)[0..16] == Encode(text)[..16];
    assert text[0..16] == text[..16];
  }

  /** The bytes of a header, and what its fields decode to. */
  ghost predicate HeaderHolds(header: bytes, name: string, size: string)
  {
    && |header| == HEADER && header[58] == BACKTICK && Decodes(header[..16]) && Decodes(header[48..58])
    && Decode(header[..16]) == Pad(name, 16) && Decode(header[48..58]) == Pad(size, 10)
  }

  lemma {:induction false} HeaderEncodes(name: string, size: string)
    requires IsAscii(name) && IsAscii(size) && |name| <= 16 && |size| <= 10
    ensures IsAscii(HeaderText(name, size)) && HeaderHolds(Encode(HeaderText(name, size)), name, size)
  {
    HeaderAscii(name, size);
    HeaderFields(name, size);
    HeaderBytes(HeaderText(name, size));
  }

  /** The parts of a written member. */
  lemma {:induction false} MemberParts(e: Entry) returns (header: bytes)
    requires Member(e).Ok?
    ensures Member(e) == Ok(header + e.data + Padding(|e.data|))
    ensures |header| == HEADER && header[58] == BACKTICK && Decodes(header[..16]) && Decodes(header[48..58])
    ensures DropTrailing(DropTrailing(Decode(header[..16]), ' '), '/') == BareName(e.name)
    ensures ParseInt(RStrip(Decode(header[48..58]))) == Some(|e.data|) && AllDigits(RStrip(Decode(header[48..58])))
  {
    MemberWritableIff(e);
    TenDigits(|e.data|);
    DigitsAscii(Decimal(|e.data|));
    HeaderEncodes(e.name, Decimal(|e.data|));
    PadStrips(Decimal(|e.data|), 10);
    SizeReadsBack(|e.data|);
    NameReadsBack(e.name);
    header := Encode(HeaderText(e.name, Decimal(|e.data|)));
  }

  lemma {:induction false} MiddleAt(a: string, b: string, c: string)
    ensures var h := a + b + c + "`\n";
            && (forall i :: 0 <= i < |b| ==> h[|a| + i] == b[i])
            && h[|a| + |b| + |c|] == '`' && h[|a| + |b| + |c| + 1] == '\n'
  {
  }

  lemma {:induction false} MiddleFields()
    ensures var m := Middle();
            && |m| == 32 && m[0] == '0' && m[12] == '0' && m[18] == '0'
            && m[24] == '1' && m[25] == '0' && m[26] == '0' && m[27] == '6' && m[28] == '4' && m[29] == '4'
            && (forall i :: 0 < i < 12 || 12 < i < 18 || 18 < i < 24 || 30 <= i < 32 ==> m[i] == ' ')
  {
  }

  /** The header bytes between the name and the size, and those that close it. */
  ghost predicate FixedFields(m: bytes)
    requires |m| >= 60
  {
    && m[16] == 48 && m[28] == 48 && m[34] == 48 && m[58] == 96 && m[59] == 10
    && m[40] == 49 && m[41] == 48 && m[42] == 48 && m[43] == 54 && m[44] == 52 && m[45] == 52
    && forall i :: 16 < i < 28 || 28 < i < 34 || 34 < i < 40 || 46 <= i < 48 ==> m[i] == 32
  }

  /** The same as text. */
  ghost predicate FixedText(t: string)
    requires |t| == 60
  {
    && t[16] == '0' && t[28] == '0' && t[34] == '0' && t[58] == '`' && t[59] == '\n'
    && t[40] == '1' && t[41] == '0' && t[42] == '0' && t[43] == '6' && t[44] == '4' && t[45] == '4'
    && forall i :: 16 < i < 28 || 28 < i < 34 || 34 < i < 40 || 46 <= i < 48 ==> t[i] == ' '
  }

  lemma {:induction false} TextFixed(name: string, size: string)
    requires |name| <= 16 && |size| <= 10
    ensures |HeaderText(name, size)| == 60 && FixedText(HeaderText(name, size))
  {
    HeaderFields(name, size);
    MiddleFields();
    var text, a, m, c := HeaderText(name, size), Pad(name, 16), Middle(), Pad(size, 10);
    MiddleAt(a, m, c);
    forall i | 0 <= i < 32 ensures text[16 + i] == m[i] { assert text[|a| + i] == m[i]; }
    forall i | 16 <= i < 48 ensures text[i] == m[i - 16] { assert text[16 + (i - 16)] == m[i - 16]; }
  }

  lemma {:induction false} BytesFixed(text: string)
    requires |text| == 60 && FixedText(text) && IsAscii(text)
    ensures FixedFields(Encode(text))
  {
    assert forall i :: 0 <= i < 60 ==> Encode(text)[i] == text[i] as int;
  }

  lemma {:induction false} HeaderFixed(name: string, size: string)
    requires IsAscii(name) && IsAscii(size) && |name| <= 16 && |size| <= 10
    ensures IsAscii(HeaderText(name, size))
    ensures var h := Encode(HeaderText(name, size)); |h| == 60 && FixedFields(h)
  {
    HeaderAscii(name, size);
    TextFixed(name, size);
    BytesFixed(HeaderText(name, size));
  }

  lemma {:induction false} FieldsStay(header: bytes, data: bytes, pad: bytes)
    requires |header| == 60 && FixedFields(header)
    ensures var m := header + data + pad;
            FixedFields(m) && m[60..60 + |data|] == data && m[60 + |data|..] == pad && |m| == 60 + |data| + |pad|
  {
    var m := header + data + pad;
    assert forall i :: 0 <= i < 60 ==> m[i] == header[i];
  }

  /** A written member, byte for byte: behind the name the time, owner and group 0 and the mode 100644, behind the size
      the two closing characters; then the data, and a newline where it has an odd length. */
  lemma {:induction false} MemberLayout(e: Entry)
    requires Member(e).Ok?
    ensures var m, n := Member(e).value, |e.data|;
            && |m| == 60 + n + n % 2 && FixedFields(m) && m[60..60 + n] == e.data
            && m[60 + n..] == if n % 2 == 1 then [10] else []
  {
    MemberWritableIff(e);
    TenDigits(|e.data|);
    DigitsAscii(Decimal(|e.data|));
    HeaderFixed(e.name, Decimal(|e.data|));
    FieldsStay(Encode(HeaderText(e.name, Decimal(|e.data|))), e.data, Padding(|e.data|));
  }

  /** A minus sign in front of digits reads as their negation. */
  lemma {:induction false} MinusParses(digits: string)
    requires digits != "" && AllDigits(digits)
    ensures RStrip(['-'] + digits) == ['-'] + digits
    ensures ParseInt(['-'] + digits) == Some((0 - DigitsValue(digits)) as int)
  {
    var s := ['-'] + digits;
    assert s[|s| - 1] == digits[|digits| - 1] && s[1..] == digits;
    NoUnderscores(digits);
  }

  /** The field that says -60. */
  lemma {:induction false} MinusSixtyParses() returns (size: string)
    ensures IsAscii(size) && |size| <= 10 && ParseInt(RStrip(Pad(size, 10))) == Some(-60)
  {
    var digits := Decimal(60);
    DecimalWidth(60, 2);
    DecimalValue(60);
    size := ['-'] + digits;
    MinusParses(digits);
    DigitsAscii(digits);
    AsciiConcat(['-'], digits);
    PaddedText(size, 10);
  }
}
