/** tools/build_deb.py: `ar` archives, written and read back byte for byte, and when reading one ends. */
module DebArchive {
  import opened PythonBasics
  import opened PythonText
  import opened ArHeader

  const MAGIC: bytes := [33, 60, 97, 114, 99, 104, 62, 10]

  // ---------- reading ----------

  datatype Step = Bad(error: Error) | Next(name: string, data: bytes, size: int, offset: int)

  /** One turn of the extraction loop at `offset`, with Python's slices and floor remainder. */
  function ReadMember(data: bytes, offset: int): Step
  {
    var header := Slice(data, offset, offset + HEADER);
    if |header| != HEADER || header[58] != BACKTICK then Bad(BadMemberHeader)
    else if !Decodes(header[..16]) then Bad(NotAscii)
    else if !Decodes(header[48..58]) then Bad(NotAscii)
    else
      var size := ParseInt(RStrip(Decode(header[48..58])));
      if size.None? then Bad(BadSize)
      else
        var start := offset + HEADER;
        Next(DropTrailing(DropTrailing(Decode(header[..16]), ' '), '/'),
             Slice(data, start, start + size.value), size.value, start + size.value + size.value % 2)
  }

  /** members[name] = data in an ordered dict: an existing key keeps its place. */
  function Put(members: seq<Entry>, e: Entry): seq<Entry>
  {
    if members == [] then [e]
    else if members[0].name == e.name then [e] + members[1..]
    else [members[0]] + Put(members[1..], e)
  }

  // The loop, for any way of reading one member.

  type Reader = (bytes, int) -> Step

  /** From this offset the loop ends, or raises, within n turns. */
  ghost predicate StopsWithin(read: Reader, data: bytes, offset: int, n: nat)
    decreases n
  {
    offset >= |data| || read(data, offset).Bad? || (n > 0 && StopsWithin(read, data, read(data, offset).offset, n - 1))
  }

  ghost function ExtractFrom(read: Reader, data: bytes, offset: int, members: seq<Entry>, n: nat): Result<seq<Entry>>
    requires StopsWithin(read, data, offset, n)
    decreases n
  {
    if offset >= |data| then Ok(members)
    else match read(data, offset)
      case Bad(error) => Err(error)
      case Next(name, d, _, next) => ExtractFrom(read, data, next, Put(members, Entry(name, d)), n - 1)
  }

  lemma {:induction false} TurnsDoNotMatter(read: Reader, data: bytes, offset: int, members: seq<Entry>, n: nat, m: nat)
    requires StopsWithin(read, data, offset, n) && StopsWithin(read, data, offset, m)
    ensures ExtractFrom(read, data, offset, members, n) == ExtractFrom(read, data, offset, members, m)
    decreases n
  {
    if offset < |data| && read(data, offset).Next? {
      var step := read(data, offset);
      TurnsDoNotMatter(read, data, step.offset, Put(members, Entry(step.name, step.data)), n - 1, m - 1);
    }
  }

  /** The extraction loop comes to an end on this input. */
  ghost predicate Terminates(data: bytes) { exists n: nat :: StopsWithin(ReadMember, data, 8, n) }

  ghost function Extract(data: bytes): Result<seq<Entry>>
    requires Terminates(data)
  {
    if Slice(data, 0, 8) != MAGIC then Err(NotAnArchive)
    else
      var n: nat :| StopsWithin(ReadMember, data, 8, n);
      ExtractFrom(ReadMember, data, 8, [], n)
  }

  lemma {:induction false} ExtractionIs(data: bytes, n: nat)
    requires StopsWithin(ReadMember, data, 8, n) && Slice(data, 0, 8) == MAGIC
    ensures Extract(data) == ExtractFrom(ReadMember, data, 8, [], n)
  {
    forall m: nat | StopsWithin(ReadMember, data, 8, m)
      ensures ExtractFrom(ReadMember, data, 8, [], m) == ExtractFrom(ReadMember, data, 8, [], n)
    {
      TurnsDoNotMatter(ReadMember, data, 8, [], m, n);
    }
  }

  method ExtractArMembers(data: bytes) returns (r: Result<seq<Entry>>)
    requires Terminates(data)
    ensures r == Extract(data)
  {
    if Slice(data, 0, 8) != MAGIC {
      return Err(NotAnArchive);
    }
    var read: Reader := ReadMember;
    ghost var n: nat :| StopsWithin(read, data, 8, n);
    ExtractionIs(data, n);
    var offset := 8;
    var members: seq<Entry> := [];
    while offset < |data|
      invariant StopsWithin(read, data, offset, n)
      invariant ExtractFrom(read, data, offset, members, n) == Extract(data)
      decreases n
    {
      var step := read(data, offset);
      if step.Bad? {
        return Err(step.error);
      }
      members := Put(members, Entry(step.name, step.data));
      offset := step.offset;
      n := n - 1;
    }
    return Ok(members);
  }

  // ---------- termination ----------

  lemma {:induction false} StepOffset(data: bytes, offset: int)
    ensures var step := ReadMember(data, offset);
            step.Next? ==> step.offset == offset + HEADER + step.size + step.size % 2
  {
  }

  lemma {:induction false} Parity(size: int)
    ensures size + size % 2 > -60 <==> size >= -59
    ensures size + size % 2 == -60 <==> size == -60 || size == -61
  {
  }

  /** A header moves the offset forward exactly when its size is at least -59. */
  lemma {:induction false} AdvancesIff(data: bytes, offset: int)
    ensures var step := ReadMember(data, offset);
            step.Next? ==> (step.offset > offset <==> step.size >= -59)
  {
    var step := ReadMember(data, offset);
    StepOffset(data, offset);
    if step.Next? { Parity(step.size); }
  }

  /** The size field at an offset, when the header there has one. */
  ghost predicate PlainSize(data: bytes, offset: int)
  {
    var header := Slice(data, offset, offset + HEADER);
    |header| == HEADER && Decodes(header[48..58]) ==> AllDigits(RStrip(Decode(header[48..58])))
  }

  lemma {:induction false} PlainSizeAdvances(data: bytes, offset: int)
    requires PlainSize(data, offset)
    ensures var step := ReadMember(data, offset); step.Next? ==> step.offset > offset
  {
    var step := ReadMember(data, offset);
    if step.Next? {
      var header := Slice(data, offset, offset + HEADER);
      var text := RStrip(Decode(header[48..58]));
      DigitsParse(text);
      assert step.size == ParseInt(text).value;
      AdvancesIff(data, offset);
    }
  }

  // The offsets the loop goes through.

  ghost predicate Stopped(read: Reader, data: bytes, offset: int) { offset >= |data| || read(data, offset).Bad? }

  /** Where the loop stands after n turns; it stays where it ended. */
  ghost function Turns(read: Reader, data: bytes, offset: int, n: nat): int
    decreases n
  {
    if n == 0 || Stopped(read, data, offset) then offset else Turns(read, data, read(data, offset).offset, n - 1)
  }

  lemma {:induction false} StopsAtTurn(read: Reader, data: bytes, offset: int, n: nat)
    ensures StopsWithin(read, data, offset, n) <==> Stopped(read, data, Turns(read, data, offset, n))
    decreases n
  {
    if n > 0 && !Stopped(read, data, offset) {
      StopsAtTurn(read, data, read(data, offset).offset, n - 1);
    }
  }

  lemma {:induction false} TurnsStay(read: Reader, data: bytes, offset: int, n: nat)
    ensures Stopped(read, data, offset) ==> Turns(read, data, offset, n) == offset
  {
  }

  lemma {:induction false} TurnsAdd(read: Reader, data: bytes, offset: int, m: nat, n: nat)
    ensures Turns(read, data, offset, m + n) == Turns(read, data, Turns(read, data, offset, m), n)
    decreases m
  {
    if m > 0 && !Stopped(read, data, offset) {
      TurnsAdd(read, data, read(data, offset).offset, m - 1, n);
    } else {
      TurnsStay(read, data, offset, m + n);
      TurnsStay(read, data, offset, n);
    }
  }

  /** Every header reached moves the offset forward. */
  ghost predicate Advances(read: Reader, data: bytes, offset: int)
  {
    forall n: nat :: var o := Turns(read, data, offset, n); Stopped(read, data, o) || read(data, o).offset > o
  }

  lemma {:induction false} AdvancingStops(read: Reader, data: bytes, offset: int) returns (n: nat)
    requires Advances(read, data, offset)
    ensures StopsWithin(read, data, offset, n)
    decreases |data| - offset
  {
    n := 0;
    if !Stopped(read, data, offset) {
      var next := read(data, offset).offset;
      assert Turns(read, data, offset, 0) == offset;
      forall m: nat
        ensures var o := Turns(read, data, next, m); Stopped(read, data, o) || read(data, o).offset > o
      {
        assert Turns(read, data, offset, m + 1) == Turns(read, data, next, m);
      }
      n := AdvancingStops(read, data, next);
      n := n + 1;
    }
  }

  /** Extraction ends on every input whose headers, as they are reached, have sizes of at least -59. */
  lemma {:induction false} SizesTerminate(data: bytes)
    requires forall n: nat :: var o := Turns(ReadMember, data, 8, n);
               o < |data| && ReadMember(data, o).Next? ==> ReadMember(data, o).size >= -59
    ensures Terminates(data)
  {
    forall n: nat
      ensures var o := Turns(ReadMember, data, 8, n); Stopped(ReadMember, data, o) || ReadMember(data, o).offset > o
    {
      var o := Turns(ReadMember, data, 8, n);
      if !Stopped(ReadMember, data, o) { AdvancesIff(data, o); }
    }
    var n := AdvancingStops(ReadMember, data, 8);
  }

  /** Every size field the loop reaches is plain digits. */
  ghost predicate PlainSizes(data: bytes)
  {
    forall n: nat :: PlainSize(data, Turns(ReadMember, data, 8, n))
  }

  /** Extraction ends on every input whose size fields, as they are reached, are plain digits. */
  lemma {:induction false} PlainSizesTerminate(data: bytes)
    requires PlainSizes(data)
    ensures Terminates(data)
  {
    forall n: nat
      ensures var o := Turns(ReadMember, data, 8, n); Stopped(ReadMember, data, o) || ReadMember(data, o).offset > o
    {
      var o := Turns(ReadMember, data, 8, n);
      assert PlainSize(data, o);
      if !Stopped(ReadMember, data, o) { PlainSizeAdvances(data, o); }
    }
    var n := AdvancingStops(ReadMember, data, 8);
  }

  /** No header is reached twice. */
  ghost predicate NeverReturns(read: Reader, data: bytes, offset: int)
  {
    forall m: nat, n: nat :: m < n && !Stopped(read, data, Turns(read, data, offset, n)) ==>
      Turns(read, data, offset, m) != Turns(read, data, offset, n)
  }

  /** A loop that comes back to where it was does not end. */
  lemma {:induction false} CycleRunsOn(read: Reader, data: bytes, offset: int, p: nat, n: nat)
    requires p > 0 && Turns(read, data, offset, p) == offset && !Stopped(read, data, offset)
    ensures !StopsWithin(read, data, offset, n)
  {
    StopsAtTurn(read, data, offset, n);
    if n >= p {
      CycleRunsOn(read, data, offset, p, n - p);
      StopsAtTurn(read, data, offset, n - p);
      TurnsAdd(read, data, offset, p, n - p);
    } else {
      TurnsAdd(read, data, offset, n, p - n);
      TurnsStay(read, data, Turns(read, data, offset, n), p - n);
    }
  }

  lemma {:induction false} ReturningRunsOn(read: Reader, data: bytes, offset: int, m: nat, n: nat, last: nat)
    requires m < n && Turns(read, data, offset, m) == Turns(read, data, offset, n)
    requires !Stopped(read, data, Turns(read, data, offset, n))
    ensures !StopsWithin(read, data, offset, last)
  {
    var o := Turns(read, data, offset, m);
    TurnsAdd(read, data, offset, m, n - m);
    CycleRunsOn(read, data, o, n - m, last);
    StopsAtTurn(read, data, offset, last);
    StopsAtTurn(read, data, o, last);
    TurnsAdd(read, data, offset, m, last);
    TurnsAdd(read, data, offset, last, m);
    TurnsStay(read, data, Turns(read, data, offset, last), m);
  }

  /** Distinct numbers in a range are no more than the range is wide. */
  lemma {:induction false} DistinctInRange(s: seq<int>, lo: int, hi: int)
    requires lo <= hi && (forall i :: 0 <= i < |s| ==> lo <= s[i] < hi)
    requires forall i, j :: 0 <= i < j < |s| ==> s[i] != s[j]
    ensures |s| <= hi - lo
    decreases hi - lo
  {
    if s != [] {
      assert lo <= s[0] < hi;
      if i :| 0 <= i < |s| && s[i] == hi - 1 {
        var rest := s[..i] + s[i + 1..];
        assert forall k :: 0 <= k < |rest| ==> rest[k] == s[if k < i then k else k + 1];
        DistinctInRange(rest, lo, hi - 1);
      } else {
        DistinctInRange(s, lo, hi - 1);
      }
    }
  }

  /** A header can be read only at an offset from the archive's length below zero to its length above. */
  lemma {:induction false} HeaderRange(data: bytes, offset: int)
    requires !Stopped(ReadMember, data, offset)
    ensures -|data| <= offset < |data|
  {
    assert |Slice(data, offset, offset + HEADER)| == HEADER;
  }

  ghost function Visited(read: Reader, data: bytes, offset: int, k: nat): (s: seq<int>)
    ensures |s| == k && forall i :: 0 <= i < k ==> s[i] == Turns(read, data, offset, i)
  {
    seq(k, i requires 0 <= i < k => Turns(read, data, offset, i))
  }

  lemma {:induction false} NeverReturningStops(read: Reader, data: bytes, offset: int, lo: int, hi: int, k: nat)
    requires NeverReturns(read, data, offset) && lo <= hi == lo + k
    requires forall o :: !Stopped(read, data, o) ==> lo <= o < hi
    ensures StopsWithin(read, data, offset, k)
  {
    StopsAtTurn(read, data, offset, k);
    if !Stopped(read, data, Turns(read, data, offset, k)) {
      var s := Visited(read, data, offset, k + 1);
      forall i | 0 <= i <= k ensures !Stopped(read, data, s[i]) {
        assert !Stopped(read, data, Turns(read, data, offset, i)) by {
          TurnsAdd(read, data, offset, i, k - i);
          TurnsStay(read, data, Turns(read, data, offset, i), k - i);
        }
      }
      DistinctInRange(s, lo, hi);
    }
  }

  lemma {:induction false} NeverReturningEnds(data: bytes)
    requires NeverReturns(ReadMember, data, 8)
    ensures StopsWithin(ReadMember, data, 8, 2 * |data|)
  {
    forall o | !Stopped(ReadMember, data, o) ensures -|data| <= o < |data| { HeaderRange(data, o); }
    NeverReturningStops(ReadMember, data, 8, -|data|, |data|, 2 * |data|);
  }

  lemma {:induction false} ReturningNeverEnds(data: bytes)
    ensures !NeverReturns(ReadMember, data, 8) ==> !Terminates(data)
  {
    if !NeverReturns(ReadMember, data, 8) {
      var m: nat, n: nat :| m < n && !Stopped(ReadMember, data, Turns(ReadMember, data, 8, n))
                         && Turns(ReadMember, data, 8, m) == Turns(ReadMember, data, 8, n);
      forall last: nat ensures !StopsWithin(ReadMember, data, 8, last) {
        ReturningRunsOn(ReadMember, data, 8, m, n, last);
      }
    }
  }

  /** When extraction ends: exactly when no header is reached twice, which shows within twice as many turns as the input
      has bytes. */
  lemma {:induction false} TerminatesIff(data: bytes)
    ensures Terminates(data) <==> NeverReturns(ReadMember, data, 8)
    ensures Terminates(data) <==> StopsWithin(ReadMember, data, 8, 2 * |data|)
  {
    if NeverReturns(ReadMember, data, 8) {
      NeverReturningEnds(data);
    } else {
      ReturningNeverEnds(data);
    }
  }

  // ---------- what is refused ----------

  lemma {:induction false} AsciiIff(data: bytes, lo: nat, hi: nat)
    requires lo <= hi <= |data|
    ensures Decodes(data[lo..hi]) <==> forall i :: lo <= i < hi ==> data[i] < 128
  {
    if Decodes(data[lo..hi]) {
      forall i | lo <= i < hi ensures data[i] < 128 { assert data[i] == data[lo..hi][i - lo]; }
    }
  }

  /** What the reader makes of the 60 bytes it has cut out, or of the fewer there were. */
  lemma {:induction false} HeaderDecides(data: bytes, offset: int)
    ensures var header, step := Slice(data, offset, offset + HEADER), ReadMember(data, offset);
            if |header| != HEADER || header[58] != BACKTICK then step == Bad(BadMemberHeader)
            else if !Decodes(header[..16]) || !Decodes(header[48..58]) then step == Bad(NotAscii)
            else if ParseInt(RStrip(Decode(header[48..58]))).None? then step == Bad(BadSize)
            else step.Next?
  {
  }

  lemma {:induction false} SliceFrom<T>(s: seq<T>, start: nat, n: nat)
    requires start <= |s|
    ensures Slice(s, start, start + n) == s[start..if start + n < |s| then start + n else |s|]
  {
  }

  lemma {:induction false} SubSlice<T>(s: seq<T>, a: nat, b: nat, c: nat, d: nat)
    requires a <= b <= |s| && c <= d <= b - a
    ensures s[a..b][c..d] == s[a + c..a + d]
  {
    var inner, outer := s[a..b][c..d], s[a + c..a + d];
    assert forall i :: 0 <= i < d - c ==> inner[i] == s[a..b][c + i] == s[a + c + i] == outer[i];
    assert inner == outer;
  }

  lemma {:induction false} HeaderAt(data: bytes, offset: nat)
    requires offset <= |data|
    ensures var header := Slice(data, offset, offset + HEADER);
            if offset + 60 > |data| then |header| != HEADER
            else
              && |header| == HEADER && header[58] == data[offset + 58]
              && header[..16] == data[offset..offset + 16] && header[48..58] == data[offset + 48..offset + 58]
  {
    SliceFrom(data, offset, HEADER);
    if offset + 60 <= |data| {
      SubSlice(data, offset, offset + 60, 0, 16);
      SubSlice(data, offset, offset + 60, 48, 58);
    }
  }

  ghost predicate AsciiIn(data: bytes, lo: int, hi: int)
    requires 0 <= lo <= hi <= |data|
  {
    forall i :: lo <= i < hi ==> data[i] < 128
  }

  /** A header is read exactly when all its 60 bytes are there, the 59th is a backtick, and its name and size fields are
      ASCII, the latter a number; otherwise the first of these that fails is the error. */
  lemma {:induction false} ReadsIff(data: bytes, offset: nat)
    requires offset <= |data|
    ensures var step := ReadMember(data, offset);
            if offset + 60 > |data| || data[offset + 58] != 96 then step == Bad(BadMemberHeader)
            else if !AsciiIn(data, offset, offset + 16) || !AsciiIn(data, offset + 48, offset + 58) then
              step == Bad(NotAscii)
            else
              && Decodes(data[offset + 48..offset + 58])
              && if ParseInt(RStrip(Decode(data[offset + 48..offset + 58]))).None? then step == Bad(BadSize)
                 else step.Next?
  {
    HeaderDecides(data, offset);
    HeaderAt(data, offset);
    if offset + 60 <= |data| {
      AsciiIff(data, offset, offset + 16);
      AsciiIff(data, offset + 48, offset + 58);
    }
  }

  lemma {:induction false} StepData(data: bytes, offset: int)
    ensures var step := ReadMember(data, offset);
            step.Next? ==> step.data == Slice(data, offset + 60, offset + 60 + step.size)
  {
  }

  /** The data of a member is what follows its header, as many bytes as its size says or as there are. */
  lemma {:induction false} ReadsData(data: bytes, offset: nat)
    requires offset + 60 <= |data|
    ensures var step := ReadMember(data, offset);
            step.Next? && step.size >= 0 ==>
              var end := offset + 60 + step.size;
              step.data == data[offset + 60..if end < |data| then end else |data|]
  {
    var step := ReadMember(data, offset);
    StepData(data, offset);
    if step.Next? && step.size >= 0 { SliceFrom(data, offset + 60, step.size); }
  }

  /** Everything the loop comes to is a member it can read, up to the end of the input. */
  ghost predicate AllReadable(read: Reader, data: bytes, offset: int)
  {
    forall n: nat :: Turns(read, data, offset, n) < |data| ==> read(data, Turns(read, data, offset, n)).Next?
  }

  lemma {:induction false} ReadableFrom(read: Reader, data: bytes, offset: int)
    requires !Stopped(read, data, offset)
    ensures AllReadable(read, data, offset) <==> AllReadable(read, data, read(data, offset).offset)
  {
    var next := read(data, offset).offset;
    forall n: nat ensures Turns(read, data, offset, n + 1) == Turns(read, data, next, n) {}
    assert Turns(read, data, offset, 0) == offset;
    if AllReadable(read, data, next) {
      forall n: nat | Turns(read, data, offset, n) < |data| ensures read(data, Turns(read, data, offset, n)).Next? {
        if n > 0 {
          assert Turns(read, data, offset, n) == Turns(read, data, next, n - 1);
        }
      }
    }
    if AllReadable(read, data, offset) {
      forall n: nat | Turns(read, data, next, n) < |data| ensures read(data, Turns(read, data, next, n)).Next? {
        assert Turns(read, data, offset, n + 1) == Turns(read, data, next, n);
      }
    }
  }

  lemma {:induction false} ExtractFromOkIff(read: Reader, data: bytes, offset: int, members: seq<Entry>, n: nat)
    requires StopsWithin(read, data, offset, n)
    ensures ExtractFrom(read, data, offset, members, n).Ok? <==> AllReadable(read, data, offset)
    decreases n
  {
    if !Stopped(read, data, offset) {
      var step := read(data, offset);
      ReadableFrom(read, data, offset);
      ExtractFromOkIff(read, data, step.offset, Put(members, Entry(step.name, step.data)), n - 1);
    } else if offset < |data| {
      assert Turns(read, data, offset, 0) == offset;
    } else {
      forall m: nat { TurnsStay(read, data, offset, m); }
    }
  }

  /** An input is refused as no archive exactly when it does not begin with the magic line, and otherwise extracted
      exactly when every header come to can be read. */
  lemma {:induction false} ExtractsIff(data: bytes)
    requires Terminates(data)
    ensures var magic := |data| >= 8 && data[..8] == [33, 60, 97, 114, 99, 104, 62, 10];
            && (!magic ==> Extract(data) == Err(NotAnArchive))
            && (Extract(data).Ok? <==> magic && AllReadable(ReadMember, data, 8))
  {
    assert Slice(data, 0, 8) == if |data| >= 8 then data[..8] else data;
    if Slice(data, 0, 8) == MAGIC {
      var n: nat :| StopsWithin(ReadMember, data, 8, n);
      ExtractionIs(data, n);
      ExtractFromOkIff(ReadMember, data, 8, [], n);
    }
  }

  lemma {:induction false} StuckLoops(read: Reader, data: bytes, offset: int, n: nat)
    requires offset < |data| && read(data, offset).Next? && read(data, offset).offset == offset
    ensures !StopsWithin(read, data, offset, n)
  {
    if n > 0 {
      StuckLoops(read, data, offset, n - 1);
    }
  }

  /** A header whose size reads as -60 or -61 sends the loop back to itself: no number of turns ends it. */
  lemma {:induction false} NegativeSizeLoops(data: bytes, offset: int, n: nat)
    requires offset < |data| && ReadMember(data, offset).Next?
    requires ReadMember(data, offset).size == -60 || ReadMember(data, offset).size == -61
    ensures !StopsWithin(ReadMember, data, offset, n)
  {
    StepOffset(data, offset);
    Parity(ReadMember(data, offset).size);
    StuckLoops(ReadMember, data, offset, n);
  }

  // ---------- one member, wherever it stands ----------

  lemma {:induction false} SliceInside<T>(a: seq<T>, b: seq<T>, c: seq<T>)
    ensures Slice(a + b + c, |a|, |a| + |b|) == b
  {
    assert (a + b + c)[|a|..|a| + |b|] == b;
  }

  lemma {:induction false} Regroup(a: bytes, b: bytes, c: bytes, d: bytes)
    ensures a + b + (c + d) == (a + b) + c + d
    ensures a + (b + c) + d == a + b + (c + d)
  {
  }

  /** Reading a header followed by its data, for any header bytes whose fields say so. */
  lemma {:induction false} ReadHeaderAndData(before: bytes, header: bytes, e: Entry, rest: bytes)
    requires |header| == HEADER && header[58] == BACKTICK && Decodes(header[..16]) && Decodes(header[48..58])
    requires DropTrailing(DropTrailing(Decode(header[..16]), ' '), '/') == e.name
    requires ParseInt(RStrip(Decode(header[48..58]))) == Some(|e.data|)
    ensures ReadMember(before + header + (e.data + rest), |before|)
         == Next(e.name, e.data, |e.data|, |before| + HEADER + |e.data| + |e.data| % 2)
  {
    var all := before + header + (e.data + rest);
    SliceInside(before, header, e.data + rest);
    SliceInside(before + header, e.data, rest);
    Regroup(before, header, e.data, rest);
  }

  /** The reader takes this header to announce e, whatever stands around it. */
  ghost predicate HeaderReads(read: Reader, header: bytes, e: Entry)
  {
    forall before: bytes, rest: bytes ::
      read(before + header + (e.data + rest), |before|)
      == Next(e.name, e.data, |e.data|, |before| + HEADER + |e.data| + |e.data| % 2)
  }

  lemma {:induction false} HeaderReadsBack(header: bytes, e: Entry)
    requires |header| == HEADER && header[58] == BACKTICK && Decodes(header[..16]) && Decodes(header[48..58])
    requires DropTrailing(DropTrailing(Decode(header[..16]), ' '), '/') == e.name
    requires ParseInt(RStrip(Decode(header[48..58]))) == Some(|e.data|)
    ensures HeaderReads(ReadMember, header, e)
  {
    forall before: bytes, rest: bytes
      ensures ReadMember(before + header + (e.data + rest), |before|)
           == Next(e.name, e.data, |e.data|, |before| + HEADER + |e.data| + |e.data| % 2)
    {
      ReadHeaderAndData(before, header, e, rest);
    }
  }

  lemma {:induction false} Layout(before: bytes, header: bytes, data: bytes, pad: bytes, after: bytes)
    ensures before + (header + data + pad) + after == before + header + (data + (pad + after))
  {
  }

  lemma {:induction false} ReadSize(header: bytes, size: int)
    requires |header| == HEADER && header[58] == BACKTICK && Decodes(header[..16]) && Decodes(header[48..58])
    requires ParseInt(RStrip(Decode(header[48..58]))) == Some(size)
    ensures ReadMember(MAGIC + header, 8).Next? && ReadMember(MAGIC + header, 8).size == size
  {
    assert |MAGIC| == 8;
    assert (MAGIC + header)[8..8 + HEADER] == header;
    assert Slice(MAGIC + header, 8, 8 + HEADER) == header;
  }

  /** Such an input exists: one bare header whose size field says -60. Extraction of it never ends. */
  lemma {:induction false} SomeInputLoops() returns (header: bytes)
    ensures |header| == HEADER && Decodes(header[48..58]) && ParseInt(RStrip(Decode(header[48..58]))) == Some(-60)
    ensures !Terminates(MAGIC + header)
  {
    var size := MinusSixtyParses();
    HeaderEncodes("", size);
    header := Encode(HeaderText("", size));
    ReadSize(header, -60);
    forall n: nat { NegativeSizeLoops(MAGIC + header, 8, n); }
  }

  // ---------- whole archives, for any reader and any members it reads back ----------

  /** The reader gives e back wherever the bytes m stand. */
  ghost predicate Reads(read: Reader, m: bytes, e: Entry)
  {
    && |m| > 0 && |m| % 2 == 0
    && forall before: bytes, after: bytes ::
         read(before + m + after, |before|) == Next(e.name, e.data, |e.data|, |before| + |m|)
  }

  function Concat(ms: seq<bytes>): bytes
  {
    if ms == [] then [] else Concat(ms[..|ms| - 1]) + ms[|ms| - 1]
  }

  lemma {:induction false} ConcatSplit(ms: seq<bytes>, i: nat)
    requires i <= |ms|
    ensures Concat(ms) == Concat(ms[..i]) + Concat(ms[i..])
    decreases |ms|
  {
    if i == |ms| {
      assert ms[..i] == ms;
    } else {
      var n := |ms| - 1;
      ConcatSplit(ms[..n], i);
      assert ms[..n][..i] == ms[..i];
      assert ms[i..][..n - i] == ms[..n][i..];
    }
  }

  lemma {:induction false} ConcatAt(ms: seq<bytes>, i: nat)
    requires i < |ms|
    ensures Concat(ms) == Concat(ms[..i]) + ms[i] + Concat(ms[i + 1..])
    ensures Concat(ms[..i + 1]) == Concat(ms[..i]) + ms[i]
  {
    ConcatSplit(ms, i + 1);
    assert ms[..i + 1][..i] == ms[..i];
  }

  lemma {:induction false} EvenConcat(ms: seq<bytes>)
    requires forall i :: 0 <= i < |ms| ==> |ms[i]| % 2 == 0
    ensures |Concat(ms)| % 2 == 0
  {
    if ms != [] {
      EvenConcat(ms[..|ms| - 1]);
    }
  }

  /** What the reader's dict holds after these members. */
  function Collected(rs: seq<Entry>): seq<Entry>
  {
    if rs == [] then [] else Put(Collected(rs[..|rs| - 1]), rs[|rs| - 1])
  }

  ghost predicate DistinctNames(es: seq<Entry>)
  {
    forall i, j :: 0 <= i < j < |es| ==> es[i].name != es[j].name
  }

  predicate Named(members: seq<Entry>, name: string) { exists i :: 0 <= i < |members| && members[i].name == name }

  lemma {:induction false} PutNew(members: seq<Entry>, e: Entry)
    ensures if Named(members, e.name) then |Put(members, e)| == |members| else Put(members, e) == members + [e]
  {
    if members != [] && members[0].name != e.name {
      PutNew(members[1..], e);
      assert forall i :: 0 < i < |members| ==> members[i] == members[1..][i - 1];
    }
  }

  lemma {:induction false} DistinctOneMore(before: seq<Entry>, e: Entry)
    ensures DistinctNames(before + [e]) <==> DistinctNames(before) && !Named(before, e.name)
  {
    var all := before + [e];
    assert all[|before|] == e && forall i :: 0 <= i < |before| ==> all[i] == before[i];
    if DistinctNames(all) {
      forall i, j | 0 <= i < j < |before| ensures before[i].name != before[j].name {
        assert all[i].name != all[j].name;
      }
    }
  }

  /** The dict holds as many members as were read exactly when no name was repeated; it then holds them in order. */
  lemma {:induction false} CollectedIff(rs: seq<Entry>)
    ensures |Collected(rs)| <= |rs| && (|Collected(rs)| == |rs| <==> DistinctNames(rs))
    ensures DistinctNames(rs) ==> Collected(rs) == rs
  {
    if rs != [] {
      var before, e := rs[..|rs| - 1], rs[|rs| - 1];
      CollectedIff(before);
      PutNew(Collected(before), e);
      DistinctOneMore(before, e);
      assert rs == before + [e];
    }
  }

  lemma {:induction false} Recentre(a: bytes, b: bytes, c: bytes, d: bytes)
    ensures a + (b + c + d) == (a + b) + c + d && |a + (b + c)| == |a + b| + |c|
  {
  }

  lemma {:induction false} ReadsBetween(read: Reader, before: bytes, m: bytes, after: bytes, e: Entry)
    requires Reads(read, m, e)
    ensures |m| > 0 && read(before + m + after, |before|) == Next(e.name, e.data, |e.data|, |before| + |m|)
  {
  }

  lemma {:induction false} ReadsAt(read: Reader, magic: bytes, ms: seq<bytes>, e: Entry, i: nat)
    requires i < |ms| && Reads(read, ms[i], e)
    ensures read(magic + Concat(ms), |magic + Concat(ms[..i])|)
         == Next(e.name, e.data, |e.data|, |magic + Concat(ms[..i + 1])|)
    ensures |magic + Concat(ms[..i])| < |magic + Concat(ms[..i + 1])| <= |magic + Concat(ms)|
  {
    ConcatAt(ms, i);
    Recentre(magic, Concat(ms[..i]), ms[i], Concat(ms[i + 1..]));
    ReadsBetween(read, magic + Concat(ms[..i]), ms[i], Concat(ms[i + 1..]), e);
  }

  lemma {:induction false} ExtractRest(read: Reader, magic: bytes, ms: seq<bytes>, rs: seq<Entry>, i: nat)
    requires |ms| == |rs| && i <= |rs|
    requires forall k :: 0 <= k < |rs| ==> Reads(read, ms[k], rs[k])
    ensures StopsWithin(read, magic + Concat(ms), |magic + Concat(ms[..i])|, |rs| - i)
    ensures ExtractFrom(read, magic + Concat(ms), |magic + Concat(ms[..i])|, Collected(rs[..i]), |rs| - i)
         == Ok(Collected(rs))
    decreases |rs| - i
  {
    if i == |rs| {
      assert rs[..i] == rs && ms[..i] == ms;
    } else {
      ReadsAt(read, magic, ms, rs[i], i);
      assert rs[..i + 1][..i] == rs[..i];
      ExtractRest(read, magic, ms, rs, i + 1);
    }
  }

  // ---------- archives written by this program ----------

  predicate Writable(es: seq<Entry>) { forall i :: 0 <= i < |es| ==> Member(es[i]).Ok? }

  /** A member as it is read back. */
  function ReadBack(e: Entry): Entry { Entry(BareName(e.name), e.data) }

  function ReadBacks(es: seq<Entry>): seq<Entry>
  {
    seq(|es|, i requires 0 <= i < |es| => ReadBack(es[i]))
  }

  /** The bytes of one member; nothing when it cannot be written. */
  function MemberBytes(e: Entry): bytes
  {
    if Member(e).Ok? then Member(e).value else []
  }

  function Chunks(es: seq<Entry>): seq<bytes>
  {
    seq(|es|, i requires 0 <= i < |es| => MemberBytes(es[i]))
  }

  function Archive(es: seq<Entry>): bytes { MAGIC + Concat(Chunks(es)) }

  lemma {:induction false} PaddedAt(read: Reader, header: bytes, e: Entry, pad: bytes, before: bytes, after: bytes)
    requires HeaderReads(read, header, e)
    ensures read(before + (header + e.data + pad) + after, |before|)
         == Next(e.name, e.data, |e.data|, |before| + HEADER + |e.data| + |e.data| % 2)
  {
    assert read(before + header + (e.data + (pad + after)), |before|)
        == Next(e.name, e.data, |e.data|, |before| + HEADER + |e.data| + |e.data| % 2);
    Layout(before, header, e.data, pad, after);
  }

  lemma {:induction false} PaddedReads(read: Reader, header: bytes, e: Entry, pad: bytes)
    requires |header| == HEADER && |pad| == |e.data| % 2 && HeaderReads(read, header, e)
    ensures Reads(read, header + e.data + pad, e)
  {
    var m := header + e.data + pad;
    forall before: bytes, after: bytes
      ensures read(before + m + after, |before|) == Next(e.name, e.data, |e.data|, |before| + |m|)
    {
      PaddedAt(read, header, e, pad, before, after);
    }
  }

  /** Any member that can be written is read back wherever it stands, under its bare name. */
  lemma {:induction false} WrittenReads(e: Entry)
    requires Member(e).Ok?
    ensures Reads(ReadMember, MemberBytes(e), ReadBack(e))
  {
    var header := MemberParts(e);
    HeaderReadsBack(header, ReadBack(e));
    PaddedReads(ReadMember, header, ReadBack(e), Padding(|e.data|));
  }

  lemma {:induction false} ChunksRead(es: seq<Entry>)
    requires Writable(es)
    ensures forall k :: 0 <= k < |es| ==> Reads(ReadMember, Chunks(es)[k], ReadBacks(es)[k])
  {
    forall k | 0 <= k < |es| { WrittenReads(es[k]); }
  }

  /** Extracting an archive ends, and collects the members under their bare names. */
  lemma {:induction false} ArchiveExtracts(es: seq<Entry>)
    requires Writable(es)
    ensures Terminates(Archive(es)) && Extract(Archive(es)) == Ok(Collected(ReadBacks(es)))
  {
    ChunksRead(es);
    ExtractRest(ReadMember, MAGIC, Chunks(es), ReadBacks(es), 0);
    assert Slice(MAGIC + Concat(Chunks(es)), 0, 8) == MAGIC && |MAGIC| == 8 by {
      assert (MAGIC + Concat(Chunks(es)))[0..8] == MAGIC;
    }
    assert MAGIC + Concat(Chunks(es)[..0]) == MAGIC && ReadBacks(es)[..0] == [];
    ExtractionIs(Archive(es), |es|);
  }

  /** The archive round trip, for all members that can be written: extraction ends, and gives back the same members in
      the same order, if and only if no name ends in a blank or a slash and none is repeated. */
  lemma {:induction false} ArchiveRoundTripIff(es: seq<Entry>)
    requires Writable(es)
    ensures Terminates(Archive(es))
    ensures Extract(Archive(es)) == Ok(es) <==>
            (forall i :: 0 <= i < |es| ==> KeepsName(es[i])) && DistinctNames(es)
  {
    var rs := ReadBacks(es);
    ArchiveExtracts(es);
    CollectedIff(rs);
    forall i | 0 <= i < |es| ensures rs[i] == es[i] <==> KeepsName(es[i]) { BareNameIff(es[i]); }
    if forall i :: 0 <= i < |es| ==> KeepsName(es[i]) {
      assert rs == es;
    }
  }

  lemma {:induction false} EvenAt(read: Reader, magic: bytes, ms: seq<bytes>, es: seq<Entry>, i: nat)
    requires |ms| == |es| && i < |es| && |magic| % 2 == 0 && forall k :: 0 <= k < |es| ==> Reads(read, ms[k], es[k])
    ensures var offset := |magic + Concat(ms[..i])|;
            && offset % 2 == 0
            && read(magic + Concat(ms), offset)
               == Next(es[i].name, es[i].data, |es[i].data|, |magic + Concat(ms[..i + 1])|)
  {
    assert forall k :: 0 <= k < i ==> ms[..i][k] == ms[k] && Reads(read, ms[k], es[k]);
    EvenConcat(ms[..i]);
    ReadsAt(read, magic, ms, es[i], i);
  }

  /** Every header starts at an even offset, the one where the previous member and its padding end. */
  lemma {:induction false} HeadersAtEvenOffsets(es: seq<Entry>, i: nat)
    requires Writable(es) && i < |es|
    ensures var offset, next := |MAGIC + Concat(Chunks(es)[..i])|, |MAGIC + Concat(Chunks(es)[..i + 1])|;
            && offset % 2 == 0
            && ReadMember(Archive(es), offset) == Next(BareName(es[i].name), es[i].data, |es[i].data|, next)
  {
    ChunksRead(es);
    EvenAt(ReadMember, MAGIC, Chunks(es), ReadBacks(es), i);
  }

  /** The loop over written members stands at each header in turn, and then at the end. */
  lemma {:induction false} TurnsAt(read: Reader, magic: bytes, ms: seq<bytes>, es: seq<Entry>, n: nat)
    requires |ms| == |es| && forall k :: 0 <= k < |es| ==> Reads(read, ms[k], es[k])
    ensures Turns(read, magic + Concat(ms), |magic|, n) == |magic + Concat(ms[..if n < |ms| then n else |ms|])|
  {
    var data := magic + Concat(ms);
    if n == 0 {
      assert ms[..0] == [];
    } else {
      TurnsAt(read, magic, ms, es, n - 1);
      TurnsAdd(read, data, |magic|, n - 1, 1);
      if n - 1 < |ms| {
        ReadsAt(read, magic, ms, es[n - 1], n - 1);
      } else {
        assert ms[..|ms|] == ms;
      }
    }
  }

  lemma {:induction false} MemberPlain(before: bytes, e: Entry, after: bytes)
    requires Member(e).Ok?
    ensures PlainSize(before + MemberBytes(e) + after, |before|)
  {
    var header := MemberParts(e);
    assert PlainSize(before + header + (e.data + (Padding(|e.data|) + after)), |before|) by {
      SliceInside(before, header, (e.data + (Padding(|e.data|) + after)));
    }
    Layout(before, header, e.data, Padding(|e.data|), after);
  }

  lemma {:induction false} HeaderPlain(es: seq<Entry>, i: nat)
    requires Writable(es) && i < |es|
    ensures PlainSize(Archive(es), |MAGIC + Concat(Chunks(es)[..i])|)
  {
    var ms := Chunks(es);
    ConcatAt(ms, i);
    Recentre(MAGIC, Concat(ms[..i]), ms[i], Concat(ms[i + 1..]));
    MemberPlain(MAGIC + Concat(ms[..i]), es[i], Concat(ms[i + 1..]));
  }

  lemma {:induction false} TurnPlain(es: seq<Entry>, n: nat)
    requires Writable(es)
    ensures PlainSize(Archive(es), Turns(ReadMember, Archive(es), |MAGIC|, n))
  {
    var ms := Chunks(es);
    ChunksRead(es);
    TurnsAt(ReadMember, MAGIC, ms, ReadBacks(es), n);
    if n < |ms| {
      HeaderPlain(es, n);
    } else {
      assert ms[..|ms|] == ms;
      assert PlainSize(Archive(es), |Archive(es)|) by {
        assert |Slice(Archive(es), |Archive(es)|, |Archive(es)| + HEADER)| == 0;
      }
    }
  }

  /** What this program writes meets the condition: every size field reached is plain digits. */
  lemma {:induction false} ArchiveSizesPlain(es: seq<Entry>)
    requires Writable(es)
    ensures PlainSizes(Archive(es))
  {
    forall n: nat ensures PlainSize(Archive(es), Turns(ReadMember, Archive(es), 8, n)) {
      TurnPlain(es, n);
    }
  }

  // ---------- the package ----------

  const VERSION: bytes := [50, 46, 48, 10]

  function PackageEntries(control: bytes, data: bytes): seq<Entry>
  {
    [Entry("debian-binary", VERSION), Entry("control.tar.gz", control), Entry("data.tar.gz", data)]
  }

  /** A name that any size can be written under, and that is read back as it is. */
  predicate GoodName(name: string)
  {
    |name| <= 15 && IsAscii(name) && !EndsWith(name, ' ') && !EndsWith(name, '/')
  }

  lemma {:induction false} PackageNames()
    ensures GoodName("debian-binary") && GoodName("control.tar.gz") && GoodName("data.tar.gz")
    ensures "debian-binary" != "control.tar.gz" && "debian-binary" != "data.tar.gz" && "control.tar.gz" != "data.tar.gz"
  {
    assert |"debian-binary"| == 13 && |"control.tar.gz"| == 14 && |"data.tar.gz"| == 11;
  }

  lemma {:induction false} PackageGood(control: bytes, data: bytes)
    ensures forall e :: e in PackageEntries(control, data) ==> GoodName(e.name)
    ensures DistinctNames(PackageEntries(control, data))
  {
    PackageNames();
  }

  lemma {:induction false} WritableWhenGood(e: Entry)
    requires GoodName(e.name)
    ensures Member(e).Ok? <==> |e.data| < 10000000000
  {
    MemberWritableIff(e);
  }

  lemma {:induction false} PackageWritable(control: bytes, data: bytes)
    ensures var es := PackageEntries(control, data);
            && Member(es[0]).Ok? && (Member(es[1]).Ok? <==> |control| < 10000000000)
            && (Member(es[2]).Ok? <==> |data| < 10000000000)
  {
    PackageNames();
    WritableWhenGood(PackageEntries(control, data)[0]);
    WritableWhenGood(PackageEntries(control, data)[1]);
    WritableWhenGood(PackageEntries(control, data)[2]);
  }

  lemma {:induction false} ThreeChunks(a: bytes, b: bytes, c: bytes)
    ensures MAGIC + Concat([a, b, c]) == MAGIC + a + b + c
  {
    assert [a, b, c][..2] == [a, b] && [a, b][..1] == [a] && [a][..0] == [];
    assert Concat([a]) == [] + a == a;
    assert Concat([a, b]) == Concat([a]) + b;
    assert Concat([a, b, c]) == Concat([a, b]) + c;
    assert MAGIC + (a + b + c) == MAGIC + a + b + c;
  }

  /** write_python_deb: three members on a stream; the two tarballs are given. It fails exactly when one of them
      is too long for its size field, and otherwise the package extracts to the three members. */
  method WritePythonDeb(control: bytes, data: bytes) returns (r: Result<bytes>)
    ensures r.Ok? <==> |control| < 10000000000 && |data| < 10000000000
    ensures r.Ok? ==>
              && Terminates(r.value)
              && Extract(r.value) == Ok([Entry("debian-binary", [50, 46, 48, 10]), Entry("control.tar.gz", control),
                                         Entry("data.tar.gz", data)])
  {
    var es := PackageEntries(control, data);
    var m0, m1, m2 := Member(es[0]), Member(es[1]), Member(es[2]);
    PackageWritable(control, data);
    if m1.Err? { return Err(m1.error); }
    if m2.Err? { return Err(m2.error); }
    var stream := MAGIC;
    stream := stream + m0.value;
    stream := stream + m1.value;
    stream := stream + m2.value;
    assert Archive([es[0], es[1], es[2]]) == MAGIC + MemberBytes(es[0]) + MemberBytes(es[1]) + MemberBytes(es[2]) by {
      ThreeChunks(MemberBytes(es[0]), MemberBytes(es[1]), MemberBytes(es[2]));
      assert Chunks([es[0], es[1], es[2]]) == [MemberBytes(es[0]), MemberBytes(es[1]), MemberBytes(es[2])];
    }
    PackageGood(control, data);
    assert forall i :: 0 <= i < 3 ==> es[i] in es;
    assert Writable(es);
    ArchiveRoundTripIff(es);
    return Ok(stream);
  }
}
