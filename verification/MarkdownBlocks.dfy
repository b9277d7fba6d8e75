/** tools/build_compliance.py: the block loop of render_markdown.

    Which lines each branch consumes, as the branches' own regular expressions decide; the HTML made of them is not
    part of this model. */
module MarkdownBlocks {
  import opened PythonText

  // ---------- what a stripped line opens ----------

  predicate Fence(s: string) { "```" <= s }

  /** -{3,} and nothing else. */
  predicate Dashes(s: string) { |s| >= 3 && forall i :: 0 <= i < |s| ==> s[i] == '-' }

  /** The length of the run of characters satisfying p at the start. */
  function Run(s: string, p: char -> bool): (n: nat)
    ensures n <= |s| && (forall i :: 0 <= i < n ==> p(s[i])) && (n < |s| ==> !p(s[n]))
  {
    if s == "" || !p(s[0]) then 0 else 1 + Run(s[1..], p)
  }

  predicate SpaceAt(s: string, i: nat) { i < |s| && IsSpace(s[i]) }

  /** #{1,6}\s */
  predicate Heading(s: string)
  {
    var n := Run(s, c => c == '#');
    1 <= n <= 6 && SpaceAt(s, n)
  }

  /** \|[\s:|-]+\| */
  predicate TableRule(s: string)
  {
    && |s| >= 3 && s[0] == '|' && s[|s| - 1] == '|'
    && forall i :: 1 <= i < |s| - 1 ==> IsSpace(s[i]) || s[i] in {':', '|', '-'}
  }

  /** \d+\.\s */
  predicate Ordered(s: string)
  {
    var n := Run(s, IsDigit);
    n >= 1 && n < |s| && s[n] == '.' && SpaceAt(s, n + 1)
  }

  /** [-*]\s */
  predicate Bullet(s: string) { s != "" && (s[0] == '-' || s[0] == '*') && SpaceAt(s, 1) }

  predicate ListStart(s: string) { "- " <= s || "* " <= s || Ordered(s) }

  predicate Item(s: string, ordered: bool) { if ordered then Ordered(s) else Bullet(s) }

  /** _starts_block */
  predicate StartsBlock(s: string)
  {
    Heading(s) || Fence(s) || StartsWith(s, '>') || Dashes(s) || StartsWith(s, '|') || Bullet(s) || Ordered(s)
  }

  predicate TableStart(lines: seq<string>, i: nat)
  {
    i + 1 < |lines| && StartsWith(Strip(lines[i]), '|') && TableRule(Strip(lines[i + 1]))
  }

  // ---------- what the loop makes of the lines ----------

  datatype Kind = Blank | RuleLine | HeadingLine | Code | Table | Quote | ItemList(ordered: bool) | Paragraph

  /** A branch's result with the raw lines it consumed. */
  datatype Part = Part(kind: Kind, raw: seq<string>)

  /** The lines that the first n parts took. */
  function RawTo(parts: seq<Part>, n: nat): seq<string>
    requires n <= |parts|
  {
    if n == 0 then [] else RawTo(parts, n - 1) + parts[n - 1].raw
  }

  function RawLines(parts: seq<Part>): seq<string> { RawTo(parts, |parts|) }

  /** A line a list may swallow after its first item: an item of its own kind, or a lazy continuation. */
  predicate Continues(s: string, ordered: bool) { Item(s, ordered) || (s != "" && !StartsBlock(s)) }

  /** A line that no branch takes on its own account; a '|' line opens a table only before a table rule. */
  predicate PlainText(s: string)
  {
    s != "" && !Fence(s) && !Dashes(s) && !Heading(s) && !StartsWith(s, '>') && !ListStart(s)
  }

  /** What the lines of a part look like, branch by branch. */
  ghost predicate WellFormed(p: Part)
  {
    && p.raw != []
    && var first := Strip(p.raw[0]);
       match p.kind
       case Blank => |p.raw| == 1 && first == ""
       case RuleLine => |p.raw| == 1 && Dashes(first)
       case HeadingLine => |p.raw| == 1 && Heading(first)
       case Code => Fence(first) && forall i :: 1 <= i < |p.raw| - 1 ==> !Fence(Strip(p.raw[i]))
       case Table =>
         && |p.raw| >= 2 && StartsWith(first, '|') && TableRule(Strip(p.raw[1]))
         && forall i :: 2 <= i < |p.raw| ==> StartsWith(Strip(p.raw[i]), '|')
       case Quote => forall i :: 0 <= i < |p.raw| ==> StartsWith(Strip(p.raw[i]), '>')
       case ItemList(ordered) =>
         && ListStart(first) && Item(first, ordered)
         && forall i :: 1 <= i < |p.raw| ==> Continues(Strip(p.raw[i]), ordered)
       case Paragraph => forall i :: 0 <= i < |p.raw| ==> PlainText(Strip(p.raw[i]))
  }

  /** Where a part that took the lines from start to end must stop: a block runs on as far as its rule allows, and a
      paragraph as far as no other branch takes the line. */
  ghost predicate StopsAt(kind: Kind, lines: seq<string>, start: nat, end: nat)
    requires start < end <= |lines|
  {
    match kind
    case Code => end < |lines| ==> end - start >= 2 && Fence(Strip(lines[end - 1]))
    case Table => end < |lines| ==> !StartsWith(Strip(lines[end]), '|')
    case Quote => end < |lines| ==> !StartsWith(Strip(lines[end]), '>')
    case ItemList(ordered) => end < |lines| ==> !Continues(Strip(lines[end]), ordered)
    case Paragraph =>
      && (forall i :: start <= i < end ==> !TableStart(lines, i))
      && (end < |lines| ==> !PlainText(Strip(lines[end])) || TableStart(lines, end))
    case _ => true
  }

  /** The part is the block that begins at `start`. */
  ghost predicate BlockAt(p: Part, lines: seq<string>, start: nat)
  {
    && start + |p.raw| <= |lines| && p.raw == lines[start..start + |p.raw|]
    && WellFormed(p) && StopsAt(p.kind, lines, start, start + |p.raw|)
  }

  /** What counts as the block at a line. */
  type Rule = (Part, seq<string>, nat) -> bool

  /** The i-th part is the block that begins where the parts before it end. */
  ghost predicate PartAt(block: Rule, parts: seq<Part>, lines: seq<string>, i: nat)
  {
    i < |parts| && block(parts[i], lines, |RawTo(parts, i)|)
  }

  ghost predicate CutBy(block: Rule, parts: seq<Part>, lines: seq<string>)
  {
    forall i: nat :: i < |parts| ==> PartAt(block, parts, lines, i)
  }

  ghost predicate Blocks(parts: seq<Part>, lines: seq<string>) { CutBy(BlockAt, parts, lines) }

  /** The kind of the block at a line, by the first branch that takes it. */
  ghost function KindAt(lines: seq<string>, start: nat): Kind
    requires start < |lines|
  {
    var s := Strip(lines[start]);
    if Fence(s) then Code
    else if s == "" then Blank
    else if Dashes(s) then RuleLine
    else if Heading(s) then HeadingLine
    else if TableStart(lines, start) then Table
    else if StartsWith(s, '>') then Quote
    else if ListStart(s) then ItemList(Ordered(s))
    else Paragraph
  }

  /** The first character tells most branches apart. */
  lemma {:induction false} FirstChar(s: string)
    ensures Fence(s) ==> s != "" && s[0] == '`'
    ensures Dashes(s) ==> s[0] == '-' && s[1] == '-' && s[2] == '-'
    ensures Heading(s) ==> s != "" && s[0] == '#'
    ensures Ordered(s) ==> s != "" && IsDigit(s[0])
    ensures Bullet(s) ==> |s| >= 2 && (s[0] == '-' || s[0] == '*') && IsSpace(s[1])
    ensures ListStart(s) && !Ordered(s) ==> |s| >= 2 && (s[0] == '-' || s[0] == '*') && s[1] == ' '
  {
    assert "```"[0] == '`' && "- "[0] == '-' && "- "[1] == ' ' && "* "[0] == '*' && "* "[1] == ' ';
  }

  /** Where a list stops: at a blank line, and at a line that is no item of its own kind and opens a fence, rule,
      heading or quote, starts with '|', or is an item of the other kind. What it swallows behind its first item is a
      paragraph's line or an item of its own kind, taken alone. */
  lemma {:induction false} ContinuesIff(lines: seq<string>, i: nat, ordered: bool)
    requires i < |lines|
    ensures var s := Strip(lines[i]);
            Continues(s, ordered) <==>
              && s != ""
              && (Item(s, ordered) ||
                  (KindAt(lines, i) !in {Code, RuleLine, HeadingLine, Quote} && s[0] != '|' && !Item(s, !ordered)))
    ensures Continues(Strip(lines[i]), ordered) ==> KindAt(lines, i) in {Paragraph, ItemList(ordered)}
  {
    FirstChar(Strip(lines[i]));
  }

  lemma {:induction false} KindIs(p: Part, lines: seq<string>, start: nat)
    requires BlockAt(p, lines, start)
    ensures p.kind == KindAt(lines, start)
  {
    var s := Strip(lines[start]);
    assert p.raw[0] == lines[start];
    FirstChar(s);
    match p.kind
    case Table => assert p.raw[1] == lines[start + 1];
    case ItemList(ordered) =>
      assert ordered == Ordered(s);
    case _ =>
  }

  /** A block of the same kind does not stop before another one that begins with it. */
  lemma {:induction false} NotShorter(p: Part, q: Part, lines: seq<string>, start: nat)
    requires BlockAt(p, lines, start) && BlockAt(q, lines, start) && p.kind == q.kind
    ensures |p.raw| >= |q.raw|
  {
    assert forall i :: 0 <= i < |q.raw| ==> q.raw[i] == lines[start + i];
  }

  /** Only one block can begin at a line. */
  lemma {:induction false} OneBlockAt(p: Part, q: Part, lines: seq<string>, start: nat)
    requires BlockAt(p, lines, start) && BlockAt(q, lines, start)
    ensures p == q
  {
    assert p.raw[0] == lines[start] == q.raw[0];
    assert p.kind == q.kind by {
      KindIs(p, lines, start);
      KindIs(q, lines, start);
    }
    if |p.raw| < |q.raw| {
      NotShorter(p, q, lines, start);
    } else if |q.raw| < |p.raw| {
      NotShorter(q, p, lines, start);
    }
  }

  lemma {:induction false} SamePrefix(parts: seq<Part>, qs: seq<Part>, n: nat)
    requires n <= |parts| && n <= |qs|
    requires forall i :: 0 <= i < n && RawTo(parts, i) == RawTo(qs, i) ==> parts[i] == qs[i]
    ensures RawTo(parts, n) == RawTo(qs, n) && forall i :: 0 <= i < n ==> parts[i] == qs[i]
  {
    if n > 0 {
      SamePrefix(parts, qs, n - 1);
    }
  }

  lemma {:induction false} RawGrows(parts: seq<Part>, m: nat, n: nat)
    requires m <= n <= |parts|
    ensures |RawTo(parts, m)| <= |RawTo(parts, n)|
  {
    if m < n {
      RawGrows(parts, m, n - 1);
    }
  }

  /** Once the lines are used up there is no further part. */
  lemma {:induction false} NothingMore(parts: seq<Part>, qs: seq<Part>)
    requires |parts| <= |qs| && forall i :: 0 <= i < |parts| ==> parts[i] == qs[i]
    requires RawTo(parts, |parts|) == RawTo(qs, |parts|) == RawTo(qs, |qs|)
    requires forall i :: 0 <= i < |qs| ==> qs[i].raw != []
    ensures parts == qs
  {
    if |parts| < |qs| {
      RawGrows(qs, |parts| + 1, |qs|);
    }
  }

  /** There is only one way to cut the lines into blocks: what the loop makes is determined by the branches' rules. */
  lemma {:induction false} BlocksUnique(parts: seq<Part>, qs: seq<Part>, lines: seq<string>)
    requires Blocks(parts, lines) && Blocks(qs, lines) && RawLines(parts) == lines && RawLines(qs) == lines
    ensures parts == qs
  {
    forall i | 0 <= i < |parts| && i < |qs| && RawTo(parts, i) == RawTo(qs, i) ensures parts[i] == qs[i] {
      assert PartAt(BlockAt, parts, lines, i) && PartAt(BlockAt, qs, lines, i);
      OneBlockAt(parts[i], qs[i], lines, |RawTo(parts, i)|);
    }
    forall i | 0 <= i < |parts| ensures parts[i].raw != [] { assert PartAt(BlockAt, parts, lines, i); }
    forall i | 0 <= i < |qs| ensures qs[i].raw != [] { assert PartAt(BlockAt, qs, lines, i); }
    if |parts| <= |qs| {
      SamePrefix(parts, qs, |parts|);
      NothingMore(parts, qs);
    } else {
      SamePrefix(parts, qs, |qs|);
      NothingMore(qs, parts);
    }
  }

  lemma {:induction false} RawPrefix(parts: seq<Part>, p: Part, n: nat)
    requires n <= |parts|
    ensures RawTo(parts + [p], n) == RawTo(parts, n)
  {
    if n > 0 {
      RawPrefix(parts, p, n - 1);
    }
  }

  /** The opening line of a list is itself an item, so the list branch always makes progress. */
  lemma {:induction false} ListOpensWithItem(s: string)
    requires ListStart(s)
    ensures Item(s, Ordered(s))
  {
    assert "- " <= s ==> s[0] == '-' && s[1] == ' ';
    assert "* " <= s ==> s[0] == '*' && s[1] == ' ';
  }

  lemma {:induction false} CutSnoc(block: Rule, parts: seq<Part>, p: Part, lines: seq<string>)
    requires CutBy(block, parts, lines) && block(p, lines, |RawLines(parts)|)
    ensures CutBy(block, parts + [p], lines) && RawLines(parts + [p]) == RawLines(parts) + p.raw
  {
    RawPrefix(parts, p, |parts|);
    var longer := parts + [p];
    forall i: nat | i < |longer| ensures PartAt(block, longer, lines, i) {
      RawPrefix(parts, p, i);
      if i < |parts| {
        assert PartAt(block, parts, lines, i);
      }
    }
  }

  /** What counts as a line of a paragraph. */
  type Where = (seq<string>, nat) -> bool

  /** A line that no branch before the paragraph takes. */
  ghost predicate InParagraph(lines: seq<string>, i: nat)
  {
    i < |lines| && PlainText(Strip(lines[i])) && !TableStart(lines, i)
  }

  /** The parts so far and the paragraph being gathered account for the lines up to the index. */
  ghost predicate Gathered(block: Rule, plain: Where, parts: seq<Part>, paragraph: seq<string>, lines: seq<string>,
                           index: nat)
  {
    && index <= |lines| && CutBy(block, parts, lines) && RawLines(parts) <= lines
    && |RawLines(parts)| + |paragraph| == index && paragraph == lines[|RawLines(parts)|..index]
    && forall i :: |RawLines(parts)| <= i < index ==> plain(lines, i)
  }

  /** One more block behind the parts so far. */
  lemma {:induction false} BlockSnoc(block: Rule, plain: Where, parts: seq<Part>, p: Part, lines: seq<string>,
                                     index: nat)
    requires Gathered(block, plain, parts, [], lines, index) && block(p, lines, index)
    requires index + |p.raw| <= |lines| && p.raw == lines[index..index + |p.raw|]
    ensures Gathered(block, plain, parts + [p], [], lines, index + |p.raw|)
  {
    CutSnoc(block, parts, p, lines);
    assert RawLines(parts) + p.raw <= lines;
  }

  /** One more line of the paragraph. */
  lemma {:induction false} ParagraphLine(block: Rule, plain: Where, parts: seq<Part>, paragraph: seq<string>,
                                         lines: seq<string>, index: nat)
    requires Gathered(block, plain, parts, paragraph, lines, index) && index < |lines| && plain(lines, index)
    ensures Gathered(block, plain, parts, paragraph + [lines[index]], lines, index + 1)
  {
    assert lines[|RawLines(parts)|..index] + [lines[index]] == lines[|RawLines(parts)|..index + 1];
  }

  lemma {:induction false} ParagraphIsBlock(paragraph: seq<string>, lines: seq<string>, start: nat, index: nat)
    requires start <= index <= |lines| && paragraph == lines[start..index] && !InParagraph(lines, index)
    requires forall i :: start <= i < index ==> InParagraph(lines, i)
    ensures paragraph != [] ==> BlockAt(Part(Paragraph, paragraph), lines, start)
  {
    forall i | start <= i < index ensures PlainText(Strip(lines[i])) && !TableStart(lines, i) {
      assert InParagraph(lines, i);
    }
    assert forall i :: 0 <= i < |paragraph| ==> paragraph[i] == lines[start + i];
  }

  /** flush_paragraph, under any rule by which the gathered lines are a block. */
  method Flush(ghost block: Rule, ghost plain: Where, parts: seq<Part>, paragraph: seq<string>,
               ghost lines: seq<string>, ghost index: nat)
    returns (flushed: seq<Part>)
    requires Gathered(block, plain, parts, paragraph, lines, index)
    requires paragraph != [] ==> block(Part(Paragraph, paragraph), lines, |RawLines(parts)|)
    ensures Gathered(block, plain, flushed, [], lines, index)
  {
    if paragraph == [] {
      return parts;
    }
    BlockSnoc(block, plain, parts, Part(Paragraph, paragraph), lines, |RawLines(parts)|);
    return parts + [Part(Paragraph, paragraph)];
  }

  /** A block of another kind ends the paragraph and comes behind it. */
  method TakeBlock(ghost block: Rule, ghost plain: Where, parts: seq<Part>, paragraph: seq<string>, p: Part,
                   ghost lines: seq<string>, ghost index: nat)
    returns (longer: seq<Part>)
    requires Gathered(block, plain, parts, paragraph, lines, index)
    requires paragraph != [] ==> block(Part(Paragraph, paragraph), lines, |RawLines(parts)|)
    requires block(p, lines, index) && index + |p.raw| <= |lines| && p.raw == lines[index..index + |p.raw|]
    ensures Gathered(block, plain, longer, [], lines, index + |p.raw|)
  {
    longer := Flush(block, plain, parts, paragraph, lines, index);
    BlockSnoc(block, plain, longer, p, lines, index);
    longer := longer + [p];
  }

  /** The end of a fenced block that opens at `start`: past its closing fence, or past the last line. */
  method CodeEnd(lines: seq<string>, start: nat) returns (end: nat)
    requires start < |lines| && Fence(Strip(lines[start]))
    ensures start < end <= |lines| && BlockAt(Part(Code, lines[start..end]), lines, start)
  {
    end := start + 1;
    while end < |lines| && !Fence(Strip(lines[end]))
      invariant start < end <= |lines|
      invariant forall i :: start < i < end ==> !Fence(Strip(lines[i]))
    {
      end := end + 1;
    }
    ghost var body := end;
    if end < |lines| {
      end := end + 1;
    }
    assert forall i :: 1 <= i < end - start - 1 ==> lines[start..end][i] == lines[start + i];
  }

  method TableEnd(lines: seq<string>, start: nat) returns (end: nat)
    requires TableStart(lines, start)
    ensures start < end <= |lines| && BlockAt(Part(Table, lines[start..end]), lines, start)
  {
    end := start + 2;
    while end < |lines| && StartsWith(Strip(lines[end]), '|')
      invariant start + 2 <= end <= |lines|
      invariant forall i :: start + 2 <= i < end ==> StartsWith(Strip(lines[i]), '|')
    {
      end := end + 1;
    }
    assert forall i :: 2 <= i < end - start ==> lines[start..end][i] == lines[start + i];
  }

  method QuoteEnd(lines: seq<string>, start: nat) returns (end: nat)
    requires start < |lines| && StartsWith(Strip(lines[start]), '>')
    ensures start < end <= |lines| && BlockAt(Part(Quote, lines[start..end]), lines, start)
  {
    end := start;
    while end < |lines| && StartsWith(Strip(lines[end]), '>')
      invariant start <= end <= |lines|
      invariant end == start ==> StartsWith(Strip(lines[end]), '>')
      invariant forall i :: start <= i < end ==> StartsWith(Strip(lines[i]), '>')
    {
      end := end + 1;
    }
    assert forall i :: 0 <= i < end - start ==> lines[start..end][i] == lines[start + i];
  }

  /** The list branch: items of one kind, and lines that wrap an item. `items` is empty only before the first line. */
  method ListEnd(lines: seq<string>, start: nat, ordered: bool) returns (end: nat)
    requires start < |lines| && ListStart(Strip(lines[start])) && ordered == Ordered(Strip(lines[start]))
    ensures start < end <= |lines| && BlockAt(Part(ItemList(ordered), lines[start..end]), lines, start)
  {
    ListOpensWithItem(Strip(lines[start]));
    end := start;
    var items: seq<seq<string>> := [];
    while end < |lines|
      invariant start <= end <= |lines|
      invariant items == [] <==> end == start
      invariant forall i :: start < i < end ==> Continues(Strip(lines[i]), ordered)
      decreases |lines| - end
    {
      var current := Strip(lines[end]);
      if Item(current, ordered) {
        items := items + [[current]];
        end := end + 1;
        continue;
      }
      if current == "" || StartsBlock(current) || items == [] {
        break;
      }
      items := items[|items| - 1 := items[|items| - 1] + [current]];
      end := end + 1;
    }
    assert forall i :: 1 <= i < end - start ==> lines[start..end][i] == lines[start + i];
  }

  /** The branch that takes the line at `start`, in the order the loop tries them, and where it stops. */
  method Branch(lines: seq<string>, start: nat) returns (kind: Kind, end: nat)
    requires start < |lines|
    ensures start < end <= |lines|
    ensures if kind == Paragraph then end == start + 1 && InParagraph(lines, start)
            else BlockAt(Part(kind, lines[start..end]), lines, start) && !InParagraph(lines, start)
  {
    var stripped := Strip(lines[start]);
    kind, end := Paragraph, start + 1;
    assert lines[start..start + 1] == [lines[start]];
    if Fence(stripped) {
      kind := Code;
      end := CodeEnd(lines, start);
    } else if stripped == "" {
      kind := Blank;
    } else if Dashes(stripped) {
      kind := RuleLine;
    } else if Heading(stripped) {
      kind := HeadingLine;
    } else if TableStart(lines, start) {
      kind := Table;
      end := TableEnd(lines, start);
    } else if StartsWith(stripped, '>') {
      kind := Quote;
      end := QuoteEnd(lines, start);
    } else if ListStart(stripped) {
      kind := ItemList(Ordered(stripped));
      end := ListEnd(lines, start, Ordered(stripped));
    }
  }

  /** The block loop: it ends on every list of lines, and the parts it makes consume each line exactly once and in
      order, each part being the block its branch makes of the lines where the parts before it end. */
  method RenderBlocks(lines: seq<string>) returns (parts: seq<Part>)
    ensures RawLines(parts) == lines && Blocks(parts, lines)
  {
    parts := [];
    var paragraph: seq<string> := [];
    var index := 0;
    while index < |lines|
      invariant Gathered(BlockAt, InParagraph, parts, paragraph, lines, index)
      decreases |lines| - index
    {
      var kind, end := Branch(lines, index);
      if kind == Paragraph {
        ParagraphLine(BlockAt, InParagraph, parts, paragraph, lines, index);
        paragraph := paragraph + [lines[index]];
      } else {
        ParagraphIsBlock(paragraph, lines, |RawLines(parts)|, index);
        parts := TakeBlock(BlockAt, InParagraph, parts, paragraph, Part(kind, lines[index..end]), lines, index);
        paragraph := [];
      }
      index := end;
    }
    ParagraphIsBlock(paragraph, lines, |RawLines(parts)|, index);
    parts := Flush(BlockAt, InParagraph, parts, paragraph, lines, index);
    assert lines[..|lines|] == lines;
  }
}
