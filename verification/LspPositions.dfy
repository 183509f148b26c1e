/** The language server's conversion between byte offsets and LSP positions (line, UTF-16 units). */
module LspPositions {
  import opened Utf8

  datatype Position = Position(line: nat, character: nat)

  // ---- the two conversions, step by step ----

  function UnitsOfPoint(point: bv32): nat {
    if point > 0xffff then 2 else 1
  }

  /** The position reached from p by walking from offset to limit. */
  function Walk(source: seq<byte>, offset: nat, limit: nat, p: Position): Position
    requires limit <= |source|
    decreases limit - offset
  {
    if offset >= limit then p
    else if source[offset] == NEWLINE then Walk(source, offset + 1, limit, Position(p.line + 1, 0))
    else
      var width := LeadWidth(source[offset]);
      if width > limit - offset then Walk(source, offset + 1, limit, Position(p.line, p.character + 1))
      else
        var units := UnitsOfPoint(CodePoint(source, offset, width));
        Walk(source, offset + width, limit, Position(p.line, p.character + units))
  }

  method LspPosition(source: seq<byte>, rawOffset: nat) returns (position: Position)
    ensures position == Walk(source, 0, if rawOffset < |source| then rawOffset else |source|, Position(0, 0))
    ensures var o := if rawOffset < |source| then rawOffset else |source|;
            Chars(source, 0, o) ==> position.line == Newlines(source, o) && exists b: nat :: OnLine(source, b, o, position)
    ensures forall c: nat :: c < rawOffset < |source| && Chars(source, 0, c) && rawOffset < c + WidthAt(source, c) ==>
              exists b: nat, p :: OnLine(source, b, c, p) && position == Position(p.line, p.character + (rawOffset - c))
  {
    hide CodePoint, LeadWidth, Chars, OnLine, WidthAt;
    var limit := if rawOffset < |source| then rawOffset else |source|;
    if Chars(source, 0, limit) { PositionMeaning(source, limit); }
    forall c: nat | c < limit && Chars(source, 0, c) && limit < c + WidthAt(source, c)
      ensures exists b: nat, p :: OnLine(source, b, c, p) && Walk(source, 0, limit, Position(0, 0)) == Position(p.line, p.character + (limit - c))
    {
      PositionMeaning(source, c);
      PositionInside(source, c, limit - c);
    }
    position := Position(0, 0);
    var offset := 0;
    while offset < limit
      invariant offset <= limit
      invariant Walk(source, offset, limit, position) == Walk(source, 0, limit, Position(0, 0))
    {
      var lead := source[offset];
      if lead == NEWLINE {
        position := Position(position.line + 1, 0);
        offset := offset + 1;
        continue;
      }
      var width := LeadWidth(lead);
      if width > limit - offset {
        position := position.(character := position.character + 1);
        offset := offset + 1;
        continue;
      }
      var codePoint := CodePoint(source, offset, width);
      position := position.(character := position.character + UnitsOfPoint(codePoint));
      offset := offset + width;
    }
  }

  /** The offset and line reached by skipping newlines up to the target line. */
  function SkipLines(source: seq<byte>, offset: nat, line: nat, target: nat): (r: (nat, nat))
    requires offset <= |source|
    ensures r.0 <= |source|
    decreases |source| - offset
  {
    if offset < |source| && line < target then
      SkipLines(source, offset + 1, if source[offset] == NEWLINE then line + 1 else line, target)
    else (offset, line)
  }

  /** The offset reached on a line before more than target units. */
  function SkipUnits(source: seq<byte>, offset: nat, character: nat, target: nat): (r: nat)
    requires offset <= |source|
    ensures r <= |source|
    decreases |source| - offset
  {
    if offset < |source| && source[offset] != NEWLINE && character < target then
      var width := LeadWidth(source[offset]);
      var available := if width < |source| - offset then width else |source| - offset;
      var units := UnitsOfPoint(CodePoint(source, offset, available));
      if character + units > target then offset
      else SkipUnits(source, offset + available, character + units, target)
    else offset
  }

  function OffsetOf(source: seq<byte>, target: Position): (r: nat)
    ensures r <= |source|
  {
    var (offset, line) := SkipLines(source, 0, 0, target.line);
    if line != target.line then |source| else SkipUnits(source, offset, 0, target.character)
  }

  method RawOffset(source: seq<byte>, target: Position) returns (offset: nat)
    ensures offset == OffsetOf(source, target)
    ensures WellFormed(source) ==>
              if Newlines(source, |source|) < target.line then offset == |source|
              else exists b: nat :: LastWithin(source, b, offset, target)
    ensures WellFormed(source) ==> Chars(source, 0, offset)
    ensures forall o: nat :: o <= |source| && Chars(source, 0, o) && Walk(source, 0, o, Position(0, 0)) == target ==> offset == o
  {
    hide CodePoint, LeadWidth, Chars, Walk, WellFormed, LastWithin;
    if WellFormed(source) {
      OffsetIsBoundary(source, target);
      OffsetMeaning(source, target);
    }
    forall o: nat | o <= |source| && Chars(source, 0, o) && Walk(source, 0, o, Position(0, 0)) == target
      ensures OffsetOf(source, target) == o
    {
      OffsetOfPosition(source, o);
    }
    offset := 0;
    var line: nat := 0;
    while offset < |source| && line < target.line
      invariant offset <= |source|
      invariant SkipLines(source, offset, line, target.line) == SkipLines(source, 0, 0, target.line)
    {
      if source[offset] == NEWLINE { line := line + 1; }
      offset := offset + 1;
    }
    if line != target.line { return |source|; }
    var character: nat := 0;
    ghost var start := offset;
    while offset < |source| && source[offset] != NEWLINE && character < target.character
      invariant offset <= |source|
      invariant SkipUnits(source, offset, character, target.character) == SkipUnits(source, start, 0, target.character)
      decreases |source| - offset
    {
      var width := LeadWidth(source[offset]);
      var available := if width < |source| - offset then width else |source| - offset;
      LeadWidthRange(source[offset]);
      var units := UnitsOfPoint(CodePoint(source, offset, available));
      if character + units > target.character { break; }
      character := character + units;
      offset := offset + available;
    }
  }

  lemma LeadWidthRange(lead: byte)
    ensures 1 <= LeadWidth(lead) <= 4
  {
  }

  // ---- what a position says ----

  /** The newline bytes before an offset. */
  ghost function Newlines(source: seq<byte>, o: nat): nat
    requires o <= |source|
  {
    if o == 0 then 0 else Newlines(source, o - 1) + (if source[o - 1] == NEWLINE then 1 else 0)
  }

  /** The UTF-16 length of the characters from i to o: two units for a four-byte character. */
  ghost function Utf16Length(source: seq<byte>, i: nat, o: nat): nat
    requires i <= |source| && Chars(source, i, o)
    decreases |source| - i
  {
    if i == o then 0
    else (if WidthAt(source, i) == 4 then 2 else 1) + Utf16Length(source, i + WidthAt(source, i), o)
  }

  /** b starts a line, no newline follows before i, and p counts the lines before b and the units from b. */
  ghost predicate OnLine(source: seq<byte>, b: nat, i: nat, p: Position) {
    && b <= i <= |source| && Chars(source, b, i)
    && (b == 0 || source[b - 1] == NEWLINE)
    && (forall k :: b <= k < i ==> source[k] != NEWLINE)
    && p == Position(Newlines(source, b), Utf16Length(source, b, i))
  }

  lemma {:induction false} LengthOfOneMore(source: seq<byte>, i: nat, o: nat)
    requires i <= o < |source| && Chars(source, i, o) && WidthAt(source, o) > 0
    ensures Chars(source, i, o + WidthAt(source, o))
    ensures Utf16Length(source, i, o + WidthAt(source, o))
            == Utf16Length(source, i, o) + (if WidthAt(source, o) == 4 then 2 else 1)
    decreases |source| - i
  {
    hide WidthAt;
    if i != o { LengthOfOneMore(source, i + WidthAt(source, i), o); }
  }

  /** Newline bytes are characters of their own. */
  lemma OnlyNewlineItself(source: seq<byte>, i: nat)
    requires i < |source| && WidthAt(source, i) > 0
    ensures source[i] == NEWLINE ==> WidthAt(source, i) == 1
    ensures source[i] != NEWLINE ==> forall k :: i <= k < i + WidthAt(source, i) ==> source[k] != NEWLINE
  {
  }

  lemma UnitsAreUtf16(source: seq<byte>, i: nat)
    requires i < |source| && WidthAt(source, i) > 0
    ensures WidthAt(source, i) == LeadWidth(source[i])
    ensures UnitsOfPoint(CodePoint(source, i, WidthAt(source, i))) == if WidthAt(source, i) == 4 then 2 else 1
  {
    EncodeOfDecode(source, i);
  }

  /** Walking whole characters keeps the position's meaning. */
  lemma {:induction false} WalkTracks(source: seq<byte>, i: nat, limit: nat, p: Position, b: nat) returns (start: nat)
    requires limit <= |source| && i <= limit && Chars(source, i, limit) && OnLine(source, b, i, p)
    ensures OnLine(source, start, limit, Walk(source, i, limit, p))
    decreases limit - i
  {
    hide WidthAt, CodePoint, LeadWidth;
    if i == limit {
      start := b;
    } else {
      OnlyNewlineItself(source, i);
      UnitsAreUtf16(source, i);
      LengthOfOneMore(source, b, i);
      var w := WidthAt(source, i);
      if source[i] == NEWLINE {
        NewlinesWithin(source, b, i);
        start := WalkTracks(source, i + 1, limit, Position(p.line + 1, 0), i + 1);
      } else {
        start := WalkTracks(source, i + w, limit,
                            Position(p.line, p.character + UnitsOfPoint(CodePoint(source, i, w))), b);
      }
    }
  }

  lemma {:induction false} NewlinesWithin(source: seq<byte>, b: nat, i: nat)
    requires b <= i <= |source| && forall k :: b <= k < i ==> source[k] != NEWLINE
    ensures Newlines(source, i) == Newlines(source, b)
    decreases i - b
  {
    if b < i { NewlinesWithin(source, b, i - 1); }
  }

  /** Skipping lines finds the start of the line with a given number of newlines before it. */
  lemma {:induction false} SkipLinesFinds(source: seq<byte>, i: nat, b: nat)
    requires i <= b <= |source| && (b == 0 || source[b - 1] == NEWLINE)
    ensures SkipLines(source, i, Newlines(source, i), Newlines(source, b)) == (b, Newlines(source, b))
    decreases b - i
  {
    if i < b {
      SkipLinesFinds(source, i + 1, b);
      NewlinesGrow(source, i, b - 1);
    }
  }

  lemma {:induction false} NewlinesGrow(source: seq<byte>, i: nat, o: nat)
    requires i <= o <= |source|
    ensures Newlines(source, i) <= Newlines(source, o)
    decreases o - i
  {
    if i < o { NewlinesGrow(source, i, o - 1); }
  }

  /** Skipping exactly the units of some whole characters ends after them. */
  lemma {:induction false} SkipUnitsFinds(source: seq<byte>, i: nat, o: nat, character: nat)
    requires i <= o <= |source| && Chars(source, i, o)
    requires forall k :: i <= k < o ==> source[k] != NEWLINE
    ensures SkipUnits(source, i, character, character + Utf16Length(source, i, o)) == o
    decreases o - i
  {
    hide WidthAt, CodePoint, LeadWidth;
    if i < o {
      UnitsAreUtf16(source, i);
      var w := WidthAt(source, i);
      SkipUnitsFinds(source, i + w, o, character + (if w == 4 then 2 else 1));
    }
  }

  /** A position of a character boundary leads back to it. */
  lemma OffsetOfPosition(source: seq<byte>, o: nat)
    requires o <= |source| && Chars(source, 0, o)
    ensures OffsetOf(source, Walk(source, 0, o, Position(0, 0))) == o
  {
    hide WidthAt, CodePoint, LeadWidth;
    var b := WalkTracks(source, 0, o, Position(0, 0), 0);
    SkipLinesFinds(source, 0, b);
    SkipUnitsFinds(source, b, o, 0);
  }

  /** The line of a boundary is the number of newlines before it, its character the UTF-16 length of the line so far. */
  lemma PositionMeaning(source: seq<byte>, o: nat)
    requires o <= |source| && Chars(source, 0, o)
    ensures var p := Walk(source, 0, o, Position(0, 0));
            && p.line == Newlines(source, o)
            && exists b: nat :: OnLine(source, b, o, p)
  {
    var b := WalkTracks(source, 0, o, Position(0, 0), 0);
    NewlinesWithin(source, b, o);
  }

  // ---- any position of a well-formed text ----

  /** Every offset after a newline is a boundary. */
  lemma {:induction false} NewlineEndsCharacter(source: seq<byte>, i: nat, k: nat)
    requires i <= k < |source| && Chars(source, i, |source|) && source[k] == NEWLINE
    ensures Chars(source, i, k + 1)
    decreases |source| - i
  {
    hide WidthAt;
    var w := WidthAt(source, i);
    OnlyNewlineItself(source, i);
    if i != k { NewlineEndsCharacter(source, i + w, k); }
  }

  lemma {:induction false} SkipLinesStops(source: seq<byte>, offset: nat, line: nat, target: nat)
    requires offset <= |source| && (offset == 0 || source[offset - 1] == NEWLINE || line < target)
    ensures var (o, l) := SkipLines(source, offset, line, target);
            l == target && line <= target ==> o == 0 || source[o - 1] == NEWLINE
    decreases |source| - offset
  {
    if offset < |source| && line < target {
      SkipLinesStops(source, offset + 1, if source[offset] == NEWLINE then line + 1 else line, target);
    }
  }

  lemma {:induction false} SkipUnitsStops(source: seq<byte>, offset: nat, character: nat, target: nat)
    requires offset <= |source| && Chars(source, 0, offset) && Chars(source, offset, |source|)
    ensures Chars(source, 0, SkipUnits(source, offset, character, target))
    decreases |source| - offset
  {
    hide WidthAt, CodePoint, LeadWidth;
    if offset < |source| && source[offset] != NEWLINE && character < target {
      UnitsAreUtf16(source, offset);
      var w := WidthAt(source, offset);
      OneMoreChar(source, offset);
      var units := UnitsOfPoint(CodePoint(source, offset, w));
      SkipUnitsStops(source, offset + w, character + units, target);
    }
  }

  /** In a well-formed text every requested position, even one past a line's end or inside a surrogate pair, gives a boundary. */
  lemma OffsetIsBoundary(source: seq<byte>, target: Position)
    requires WellFormed(source)
    ensures Chars(source, 0, OffsetOf(source, target))
  {
    hide WidthAt, CodePoint, LeadWidth;
    var (offset, line) := SkipLines(source, 0, 0, target.line);
    SkipLinesStops(source, 0, 0, target.line);
    if line == target.line {
      if offset > 0 { NewlineEndsCharacter(source, 0, offset - 1); }
      CharsFrom(source, 0, offset, |source|);
      SkipUnitsStops(source, offset, 0, target.character);
    }
  }

  // ---- which offset a position asks for ----

  /** b starts the target line, and offset is the last boundary on it that is no further than the target. */
  ghost predicate LastWithin(source: seq<byte>, b: nat, offset: nat, target: Position) {
    && (exists units: nat :: units <= target.character && OnLine(source, b, offset, Position(target.line, units)))
    && forall o: nat, units: nat :: units <= target.character && OnLine(source, b, o, Position(target.line, units)) ==> o <= offset
  }

  lemma {:induction false} SkipLinesCounts(source: seq<byte>, i: nat, target: nat)
    requires i <= |source| && Newlines(source, i) <= target
    ensures var (o, l) := SkipLines(source, i, Newlines(source, i), target);
            l == Newlines(source, o) <= target && (l < target ==> o == |source|)
    decreases |source| - i
  {
    if i < |source| && Newlines(source, i) < target { SkipLinesCounts(source, i + 1, target); }
  }

  lemma {:induction false} LengthSplits(source: seq<byte>, i: nat, m: nat, o: nat)
    requires i <= m <= |source| && Chars(source, i, m) && m <= o <= |source| && Chars(source, m, o)
    ensures Chars(source, i, o) && Utf16Length(source, i, o) == Utf16Length(source, i, m) + Utf16Length(source, m, o)
    decreases |source| - i
  {
    hide WidthAt;
    if i != m { LengthSplits(source, i + WidthAt(source, i), m, o); }
  }

  /** Whatever lies behind a boundary on its line is at least the next character further. */
  lemma NextIsFurther(source: seq<byte>, b: nat, i: nat, o: nat, p: Position, q: Position)
    requires OnLine(source, b, i, p) && OnLine(source, b, o, q) && i < o
    ensures source[i] != NEWLINE && WidthAt(source, i) > 0
    ensures q.character >= p.character + if WidthAt(source, i) == 4 then 2 else 1
  {
    hide WidthAt;
    CharsFrom(source, b, i, o);
    LengthSplits(source, b, i, o);
  }

  /** Skipping units stops at the last boundary of the line within the target. */
  lemma {:induction false} SkipUnitsIsLast(source: seq<byte>, b: nat, i: nat, character: nat, target: Position)
    requires i <= |source| && OnLine(source, b, i, Position(target.line, character)) && character <= target.character
    requires Chars(source, i, |source|)
    ensures LastWithin(source, b, SkipUnits(source, i, character, target.character), target)
    decreases |source| - i
  {
    hide WidthAt, CodePoint, LeadWidth;
    if i < |source| {
      UnitsAreUtf16(source, i);
      OnlyNewlineItself(source, i);
      var w := WidthAt(source, i);
      var more := character + if w == 4 then 2 else 1;
      if source[i] != NEWLINE && more <= target.character {
        LengthOfOneMore(source, b, i);
        SkipUnitsIsLast(source, b, i + w, more, target);
      } else {
        StopsHere(source, b, i, character, target);
      }
    } else {
      assert forall o: nat, p :: OnLine(source, b, o, p) ==> o <= |source|;
    }
  }

  lemma StopsHere(source: seq<byte>, b: nat, i: nat, character: nat, target: Position)
    requires i < |source| && OnLine(source, b, i, Position(target.line, character)) && character <= target.character
    requires source[i] == NEWLINE || character + (if WidthAt(source, i) == 4 then 2 else 1) > target.character
    ensures LastWithin(source, b, i, target)
  {
    hide WidthAt, OnLine;
    forall o: nat, units: nat | units <= target.character && OnLine(source, b, o, Position(target.line, units))
      ensures o <= i
    {
      if o > i { NextIsFurther(source, b, i, o, Position(target.line, character), Position(target.line, units)); }
    }
  }

  /** The requested offset: the end of the text without such a line, else the last boundary of the line within the target. */
  lemma OffsetMeaning(source: seq<byte>, target: Position)
    requires WellFormed(source)
    ensures if Newlines(source, |source|) < target.line then OffsetOf(source, target) == |source|
            else exists b: nat :: LastWithin(source, b, OffsetOf(source, target), target)
  {
    hide WidthAt, CodePoint, LeadWidth;
    var (b, line) := SkipLines(source, 0, 0, target.line);
    SkipLinesCounts(source, 0, target.line);
    SkipLinesStops(source, 0, 0, target.line);
    if line == target.line {
      if b > 0 { NewlineEndsCharacter(source, 0, b - 1); }
      CharsFrom(source, 0, b, |source|);
      NewlinesGrow(source, b, |source|);
      SkipUnitsIsLast(source, b, b, 0, target);
      hide LastWithin;
      assert LastWithin(source, b, OffsetOf(source, target), target);
    }
  }

  // ---- offsets inside a character ----

  lemma {:induction false} WalkOn(source: seq<byte>, i: nat, c: nat, limit: nat, p: Position)
    requires i <= c <= limit <= |source| && Chars(source, i, c)
    ensures Walk(source, i, limit, p) == Walk(source, c, limit, Walk(source, i, c, p))
    decreases c - i
  {
    hide WidthAt, CodePoint, LeadWidth;
    if i < c {
      UnitsAreUtf16(source, i);
      OnlyNewlineItself(source, i);
      var w := WidthAt(source, i);
      if source[i] == NEWLINE {
        WalkOn(source, i + 1, c, limit, Position(p.line + 1, 0));
      } else {
        WalkOn(source, i + w, c, limit, Position(p.line, p.character + UnitsOfPoint(CodePoint(source, i, w))));
      }
    }
  }

  /** Tail bytes count one unit each. */
  lemma {:induction false} WalkTails(source: seq<byte>, i: nat, limit: nat, p: Position)
    requires i <= limit <= |source| && forall k :: i <= k < limit ==> Tail(source[k])
    ensures Walk(source, i, limit, p) == Position(p.line, p.character + (limit - i))
    decreases limit - i
  {
    if i < limit {
      TailAlone(source, i);
      hide CodePoint, LeadWidth;
      WalkTails(source, i + 1, limit, Position(p.line, p.character + 1));
    }
  }

  lemma TailAlone(source: seq<byte>, i: nat)
    requires i < |source| && Tail(source[i])
    ensures source[i] != NEWLINE && LeadWidth(source[i]) == 1 && UnitsOfPoint(CodePoint(source, i, 1)) == 1
  {
  }

  lemma TailsBehind(source: seq<byte>, c: nat, k: nat)
    requires c < |source| && 0 < k < WidthAt(source, c)
    ensures Tail(source[c + k])
  {
  }

  /** Inside a character every byte counts one unit beyond the position of the character. */
  lemma PositionInside(source: seq<byte>, c: nat, k: nat)
    requires c < |source| && Chars(source, 0, c) && 0 < k < WidthAt(source, c)
    ensures var p := Walk(source, 0, c, Position(0, 0));
            Walk(source, 0, c + k, Position(0, 0)) == Position(p.line, p.character + k)
  {
    var p := Walk(source, 0, c, Position(0, 0));
    WalkOn(source, 0, c, c + k, Position(0, 0));
    UnitsAreUtf16(source, c);
    OnlyNewlineItself(source, c);
    forall l | c < l < c + k
      ensures Tail(source[l])
    {
      TailsBehind(source, c, l - c);
    }
    WalkTails(source, c + 1, c + k, Position(p.line, p.character + 1));
    hide CodePoint, LeadWidth, WidthAt;
  }
}
