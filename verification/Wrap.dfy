/** Greedy wrapping of a text in UTF-8 into lines that fit a panel. */
module Wrap {
  import opened Bytes
  import Font

  const SPACE: byte := 0x20
  const SCRATCH := 512
  const MAX_LINES := 7
  const MAIN_WIDTH := 70

  datatype Line = Line(start: nat, len: nat)

  // ---------------------------------------------------------------------------
  // Characters and their width
  // ---------------------------------------------------------------------------

  function Used(s: seq<byte>): (n: nat)
    requires s != []
    ensures 1 <= n <= |s|
  {
    Font.Decode(s).used
  }

  function Chars(s: seq<byte>): nat
    decreases |s|
  {
    if s == [] then 0 else 1 + Chars(s[Used(s)..])
  }

  /** Each character takes its columns, and a gap follows each except the last. */
  function TextWidth(s: seq<byte>, advance: nat): int {
    if s == [] then 0 else Chars(s) * advance - 1
  }

  /** A place between two characters of the text. */
  predicate Boundary(s: seq<byte>, k: nat)
    decreases |s|
  {
    k == 0 || (s != [] && Used(s) <= k && Boundary(s[Used(s)..], k - Used(s)))
  }

  /** The character at the front reads the same in a part of the text that holds it. */
  lemma UsedInPart(s: seq<byte>, k: nat)
    requires s != [] && Used(s) <= k <= |s|
    ensures Used(s[..k]) == Used(s)
  {
  }

  lemma {:induction false} BoundaryInside(s: seq<byte>, k: nat)
    requires Boundary(s, k)
    ensures k <= |s|
    decreases |s|
  {
    if k > 0 {
      BoundaryInside(s[Used(s)..], k - Used(s));
    }
  }

  /** A text cut between two characters has the characters of its parts. */
  lemma {:induction false} CharsSplit(s: seq<byte>, k: nat)
    requires Boundary(s, k) && k <= |s|
    ensures Chars(s) == Chars(s[..k]) + Chars(s[k..])
    decreases |s|
  {
    hide Used;
    if k == 0 {
      assert s[0..] == s;
    } else {
      var n := Used(s);
      UsedInPart(s, k);
      CharsSplit(s[n..], k - n);
      assert s[..k][n..] == s[n..][..k - n] && s[n..][k - n..] == s[k..];
    }
  }

  lemma {:induction false} BoundaryAdds(s: seq<byte>, i: nat, k: nat)
    requires i <= |s| && Boundary(s, i) && Boundary(s[i..], k)
    ensures Boundary(s, i + k)
    decreases |s|
  {
    hide Used;
    if i == 0 {
      assert s[0..] == s;
    } else {
      var n := Used(s);
      assert s[n..][i - n..] == s[i..];
      BoundaryAdds(s[n..], i - n, k);
    }
  }

  /** A boundary of the whole text is one of the part before a later boundary. */
  lemma {:induction false} BoundaryInPart(s: seq<byte>, j: nat, k: nat)
    requires j <= k <= |s| && Boundary(s, j)
    ensures Boundary(s[..k], j)
    decreases |s|
  {
    hide Used;
    if j > 0 {
      var n := Used(s);
      UsedInPart(s, k);
      assert s[..k][n..] == s[n..][..k - n];
      BoundaryInPart(s[n..], j - n, k - n);
    }
  }

  /** A space is never inside a longer character. */
  lemma {:induction false} SpaceIsACharacter(s: seq<byte>, j: nat, k: nat)
    requires Boundary(s, j) && k < j <= |s| && s[k] == SPACE
    ensures Boundary(s, k) && Boundary(s, k + 1) && k + 1 <= j
    decreases |s|
  {
    var n := Used(s);
    if k >= n {
      assert s[n..][k - n] == SPACE;
      SpaceIsACharacter(s[n..], j - n, k - n);
    } else {
      assert k == 0 && n == 1;
      assert Boundary(s[1..], 0);
    }
  }

  /** The place after at most `most` characters. */
  function Advance(s: seq<byte>, most: nat): (k: nat)
    ensures k <= |s|
    decreases most
  {
    if s == [] || most == 0 then 0 else Used(s) + Advance(s[Used(s)..], most - 1)
  }

  lemma {:induction false} AdvanceCounts(s: seq<byte>, most: nat)
    ensures Boundary(s, Advance(s, most))
    ensures Chars(s[..Advance(s, most)]) == (if Chars(s) <= most then Chars(s) else most)
    ensures Advance(s, most) < |s| <==> Chars(s) > most
    decreases most
  {
    hide Used;
    if s != [] && most > 0 {
      var n, k := Used(s), Advance(s, most);
      AdvanceCounts(s[n..], most - 1);
      UsedInPart(s, k);
      assert s[..k][n..] == s[n..][..k - n];
    }
  }

  /** The space at which a line breaks: the last one behind its first byte. */
  function LastSpace(s: seq<byte>, j: nat): (k: nat)
    requires j <= |s|
    ensures k > 0 ==> k < j && s[k] == SPACE && forall i :: k < i < j ==> s[i] != SPACE
    ensures k == 0 ==> forall i :: 0 < i < j ==> s[i] != SPACE
    decreases j
  {
    if j <= 1 then 0 else if s[j - 1] == SPACE then j - 1 else LastSpace(s, j - 1)
  }

  // ---------------------------------------------------------------------------
  // The lines
  // ---------------------------------------------------------------------------

  /** How many characters fit a line of `maxw` pixels. */
  function Fit(maxw: nat, advance: nat): nat
    requires advance > 0
  {
    (maxw + 1) / advance
  }

  /** One line of the text `s`: the bytes that it shows and the bytes that it takes. */
  function Cut(s: seq<byte>, most: nat): (c: (nat, nat))
    ensures c.0 <= c.1 <= |s|
  {
    var j := Advance(s, most);
    if j >= |s| then (|s|, |s|)
    else
      var b := LastSpace(s, j);
      if b > 0 then (b, b + 1) else (j, j)
  }

  /** The lines of s[from..]. */
  function Lines(s: seq<byte>, from: nat, most: nat, maxlines: nat): seq<Line>
    decreases maxlines
  {
    if from >= |s| || maxlines == 0 then []
    else
      var (shown, taken) := Cut(s[from..], most);
      [Line(from, shown)] + Lines(s, from + taken, most, maxlines - 1)
  }

  lemma FitsExactly(n: nat, maxw: nat, advance: nat)
    requires advance > 0
    ensures n * advance - 1 <= maxw <==> n <= Fit(maxw, advance)
  {
    var q := Fit(maxw, advance);
    assert maxw + 1 == q * advance + (maxw + 1) % advance;
    assert (q + 1) * advance == q * advance + advance;
    if n <= q {
      assert n * advance <= q * advance;
    } else {
      assert (q + 1) * advance <= n * advance;
    }
  }

  // ---------------------------------------------------------------------------
  // The loops
  // ---------------------------------------------------------------------------

  /** The width of a text, character by character. */
  method MeasureText(s: seq<byte>, advance: nat) returns (w: int)
    ensures w == TextWidth(s, advance)
  {
    hide Used;
    var i, count := 0, 0;
    assert s[0..] == s;
    while i < |s|
      invariant 0 <= i <= |s|
      invariant count + Chars(s[i..]) == Chars(s)
      invariant count > 0 <==> i > 0
    {
      assert s[i..][Used(s[i..])..] == s[i + Used(s[i..])..];
      i := i + Used(s[i..]);
      count := count + 1;
    }
    assert s[i..] == [];
    if count == 0 {
      return 0;
    }
    w := count * advance - 1;
  }

  /** The bytes behind the first one of a character are no spaces. */
  lemma NoSpaceInside(s: seq<byte>, k: nat)
    requires s != [] && 0 < k < Used(s)
    ensures s[k] != SPACE
  {
  }

  /** One more character of a line. */
  lemma OneMoreChar(s: seq<byte>, k: nat)
    requires Boundary(s, k) && k < |s|
    ensures var n := k + Used(s[k..]);
            Boundary(s, n) && Chars(s[..n]) == Chars(s[..k]) + 1 && n <= |s|
  {
    hide Used;
    var n := k + Used(s[k..]);
    assert s[k..] != [] && Boundary(s[k..], Used(s[k..])) by {
      assert Boundary(s[k..][Used(s[k..])..], 0);
    }
    BoundaryAdds(s, k, Used(s[k..]));
    BoundaryInPart(s, k, n);
    CharsSplit(s[..n], k);
    assert s[..n][..k] == s[..k] && s[..n][k..] == s[k..][..Used(s[k..])];
    OneChar(s[k..]);
  }

  lemma OneChar(s: seq<byte>)
    requires s != []
    ensures Chars(s[..Used(s)]) == 1
  {
    hide Used;
    UsedInPart(s, Used(s));
    assert s[..Used(s)][Used(s)..] == [];
  }

  /** The scan of one line: the last place that still fits, and the last space before it. */
  method FitLine(s: seq<byte>, i: nat, advance: nat, maxw: nat)
    returns (j: nat, hasSpace: bool, lastSpace: nat)
    requires i < |s| && advance > 0
    ensures j == i + Advance(s[i..], Fit(maxw, advance))
    ensures hasSpace ==> i <= lastSpace < j && s[lastSpace] == SPACE
    ensures forall k :: (if hasSpace then lastSpace + 1 else i) <= k < j ==> s[k] != SPACE
  {
    hide Used, Fit;
    ghost var t, most := s[i..], Fit(maxw, advance);
    lastSpace, hasSpace, j := 0, false, i;
    assert t[..0] == [];
    while j < |s|
      invariant i <= j <= |s|
      invariant Boundary(t, j - i) && Chars(t[..j - i]) <= most
      invariant hasSpace ==> i <= lastSpace < j && s[lastSpace] == SPACE
      invariant forall k :: (if hasSpace then lastSpace + 1 else i) <= k < j ==> s[k] != SPACE
    {
      ghost var q := j - i;
      assert t[q..] == s[j..];
      OneMoreChar(t, q);
      var next := j + Used(s[j..]);
      assert s[i..next] == t[..next - i];
      var w := MeasureText(s[i..next], advance);
      FitsExactly(Chars(t[..next - i]), maxw, advance);
      if w > maxw {
        AdvanceStopsAt(t, most, q);
        return;
      }
      forall k | j < k < next
        ensures s[k] != SPACE
      {
        NoSpaceInside(s[j..], k - j);
        assert s[j..][k - j] == s[k];
      }
      if s[j] == SPACE {
        lastSpace, hasSpace := j, true;
      }
      j := next;
    }
    assert t[..j - i] == t;
    AdvanceCounts(t, most);
  }

  /** The greedy place is the last one that fits. */
  lemma {:induction false} AdvanceIsLargest(s: seq<byte>, most: nat, k: nat)
    requires Boundary(s, k) && k <= |s| && Chars(s[..k]) <= most
    ensures k <= Advance(s, most)
    decreases most
  {
    hide Used;
    if k > 0 {
      var n := Used(s);
      UsedInPart(s, k);
      assert s[..k][n..] == s[n..][..k - n];
      AdvanceIsLargest(s[n..], most - 1, k - n);
    }
  }

  lemma AdvanceStopsAt(s: seq<byte>, most: nat, k: nat)
    requires Boundary(s, k) && k < |s| && Chars(s[..k]) <= most && Chars(s[..k]) + 1 > most
    ensures k == Advance(s, most)
  {
    hide Used, Advance;
    var j := Advance(s, most);
    AdvanceIsLargest(s, most, k);
    AdvanceCounts(s, most);
    CharsSplit(s, k);
    BoundaryInPart(s, k, j);
    CharsSplit(s[..j], k);
    assert s[..j][..k] == s[..k];
  }

  /** Break a text into lines of at most maxw pixels. */
  method WrapText(s: seq<byte>, advance: nat, maxw: nat, starts: array<nat>, lens: array<nat>, maxlines: nat)
    returns (n: nat)
    requires advance > 0 && starts != lens && maxlines <= starts.Length && maxlines <= lens.Length
    modifies starts, lens
    ensures var lines := Lines(s, 0, Fit(maxw, advance), maxlines);
            n == |lines| <= maxlines
            && forall k :: 0 <= k < n ==> lines[k] == Line(starts[k], lens[k])
  {
    hide Fit, Advance, Cut, Lines, LastSpace;
    ghost var most := Fit(maxw, advance);
    ghost var lines := Lines(s, 0, most, maxlines);
    var i := 0;
    n := 0;
    assert lines[0..] == lines;
    while i < |s| && n < maxlines
      invariant n <= maxlines && n <= |lines|
      invariant forall k :: 0 <= k < n ==> lines[k] == Line(starts[k], lens[k])
      invariant lines[n..] == Lines(s, i, most, maxlines - n)
    {
      var j, hasSpace, lastSpace := FitLine(s, i, advance, maxw);
      CutIs(s, i, most, hasSpace, lastSpace);
      LineIs(s, i, most, maxlines - n, lines, n);
      starts[n] := i;
      if j >= |s| {
        lens[n] := |s| - i;
        n := n + 1;
        NoMoreLines(s, |s|, most, maxlines - n);
        return;
      }
      if hasSpace && lastSpace > i {
        lens[n] := lastSpace - i;
        i := lastSpace + 1;
      } else {
        lens[n] := j - i;
        i := j;
      }
      n := n + 1;
    }
    NoMoreLines(s, i, most, maxlines - n);
  }

  lemma LineIs(s: seq<byte>, i: nat, most: nat, left: nat, lines: seq<Line>, n: nat)
    requires i < |s| && left > 0 && n <= |lines| && lines[n..] == Lines(s, i, most, left)
    ensures var (shown, taken) := Cut(s[i..], most);
            n < |lines| && lines[n] == Line(i, shown) && lines[n + 1..] == Lines(s, i + taken, most, left - 1)
  {
    hide Cut;
    var (shown, taken) := Cut(s[i..], most);
    var rest := Lines(s, i + taken, most, left - 1);
    assert lines[n..] == [Line(i, shown)] + rest;
    assert lines[n] == lines[n..][0] && lines[n + 1..] == lines[n..][1..];
  }

  lemma NoMoreLines(s: seq<byte>, i: nat, most: nat, left: nat)
    requires i >= |s| || left == 0
    ensures Lines(s, i, most, left) == []
  {
  }

  lemma CutIs(s: seq<byte>, i: nat, most: nat, hasSpace: bool, lastSpace: nat)
    requires i < |s|
    requires var j := i + Advance(s[i..], most);
             && (hasSpace ==> i <= lastSpace < j && s[lastSpace] == SPACE)
             && (forall k :: (if hasSpace then lastSpace + 1 else i) <= k < j ==> s[k] != SPACE)
    ensures var j := i + Advance(s[i..], most);
            Cut(s[i..], most) == if j >= |s| then (|s| - i, |s| - i)
                                 else if hasSpace && lastSpace > i then (lastSpace - i, lastSpace + 1 - i)
                                 else (j - i, j - i)
  {
    hide Advance;
    var t := s[i..];
    var j := Advance(t, most);
    var b := LastSpace(t, j);
    if b > 0 {
      assert s[i + b] == t[b];
    }
    if hasSpace && lastSpace > i {
      assert t[lastSpace - i] == s[lastSpace];
    }
  }

  // ---------------------------------------------------------------------------
  // What the lines promise
  // ---------------------------------------------------------------------------

  /** One line, of a font no wider than the panel. */
  lemma CutPromises(s: seq<byte>, most: nat)
    requires s != [] && most > 0
    ensures var (shown, taken) := Cut(s, most);
            && 0 < shown <= taken <= |s|
            && Boundary(s, shown) && Boundary(s, taken) && Chars(s[..shown]) <= most
            && (taken == shown || (taken == shown + 1 && s[shown] == SPACE))
            && (taken < |s| || shown == |s| || taken == shown + 1)
  {
    hide Used, Advance, Boundary, Chars;
    var j := Advance(s, most);
    AdvanceCounts(s, most);
    AdvanceMoves(s, most);
    if j >= |s| {
      assert s[..j] == s;
    } else if LastSpace(s, j) > 0 {
      BreakAtSpace(s, j, LastSpace(s, j));
    }
  }

  /** A line that ends at a space before the place j. */
  lemma BreakAtSpace(s: seq<byte>, j: nat, b: nat)
    requires Boundary(s, j) && 0 < b < j <= |s| && s[b] == SPACE
    ensures Boundary(s, b) && Boundary(s, b + 1) && Chars(s[..b]) <= Chars(s[..j])
  {
    hide Used, Chars;
    SpaceIsACharacter(s, j, b);
    BoundaryInPart(s, b, j);
    CharsSplit(s[..j], b);
    assert s[..j][..b] == s[..b];
  }

  lemma AdvanceMoves(s: seq<byte>, most: nat)
    requires s != [] && most > 0
    ensures Advance(s, most) > 0
  {
  }

  /** The lines tile the text from `from` to `end`, one space skipped at most behind each. */
  predicate Tiled(s: seq<byte>, from: nat, lines: seq<Line>, end: nat)
    decreases lines
  {
    if lines == [] then from == end
    else
      var l := lines[0];
      var stop := l.start + l.len;
      && l.start == from && l.len > 0 && stop <= |s|
      && (Tiled(s, stop, lines[1..], end)
          || (stop < |s| && s[stop] == SPACE && Tiled(s, stop + 1, lines[1..], end)))
  }

  /** A line that fits and starts and ends between two characters of the whole text. */
  predicate LineOk(s: seq<byte>, l: Line, advance: nat, maxw: nat) {
    && l.start + l.len <= |s| && l.len > 0
    && Boundary(s, l.start) && Boundary(s, l.start + l.len)
    && TextWidth(s[l.start..l.start + l.len], advance) <= maxw
  }

  lemma OneLine(s: seq<byte>, from: nat, advance: nat, maxw: nat)
    requires 0 < advance <= maxw + 1
    requires from < |s| && Boundary(s, from)
    ensures var (shown, taken) := Cut(s[from..], Fit(maxw, advance));
            && 0 < shown <= taken && from + taken <= |s|
            && LineOk(s, Line(from, shown), advance, maxw) && Boundary(s, from + taken)
            && (taken == shown || (taken == shown + 1 && s[from + shown] == SPACE))
  {
    hide Used, Cut, Chars;
    var t, most := s[from..], Fit(maxw, advance);
    FitsExactly(1, maxw, advance);
    CutPromises(t, most);
    var (shown, taken) := Cut(t, most);
    BoundaryAdds(s, from, shown);
    BoundaryAdds(s, from, taken);
    assert s[from..from + shown] == t[..shown];
    FitsExactly(Chars(t[..shown]), maxw, advance);
    assert taken == shown + 1 ==> s[from + shown] == t[shown];
  }

  /** Every line fits and is cut between characters. The lines and one skipped space for
      each word break are a prefix of the text, and all of it when a line is left. */
  lemma {:induction false} LinesPromise(s: seq<byte>, from: nat, advance: nat, maxw: nat, maxlines: nat)
    returns (end: nat)
    requires 0 < advance <= maxw + 1
    requires from <= |s| && Boundary(s, from)
    ensures var lines := Lines(s, from, Fit(maxw, advance), maxlines);
            && |lines| <= maxlines
            && (forall k :: 0 <= k < |lines| ==> LineOk(s, lines[k], advance, maxw))
            && end <= |s| && Tiled(s, from, lines, end)
            && (|lines| < maxlines ==> end == |s|)
    decreases maxlines
  {
    hide Cut, LineOk, Boundary, Fit;
    end := from;
    if from < |s| && maxlines > 0 {
      var most := Fit(maxw, advance);
      OneLine(s, from, advance, maxw);
      var (shown, taken) := Cut(s[from..], most);
      end := LinesPromise(s, from + taken, advance, maxw, maxlines - 1);
      var rest := Lines(s, from + taken, most, maxlines - 1);
      var lines := [Line(from, shown)] + rest;
      assert lines[1..] == rest;
      forall k | 0 <= k < |lines|
        ensures LineOk(s, lines[k], advance, maxw)
      {
        if k > 0 {
          assert lines[k] == rest[k - 1];
        }
      }
    }
  }

  // ---------------------------------------------------------------------------
  // Which lines
  // ---------------------------------------------------------------------------

  /** A space at which a line from `from` on may end: it fits the line as well. */
  predicate WordEnd(s: seq<byte>, from: nat, p: nat, advance: nat, maxw: nat) {
    from < p < |s| && s[p] == 0x20 && TextWidth(s[from..p + 1], advance) <= maxw
  }

  /** The line that starts at `from` is the rest of the text when that fits; else it ends at the
      last space that fits, which is skipped; else at the last character that fits. */
  ghost predicate GreedyLine(s: seq<byte>, from: nat, l: Line, next: nat, advance: nat, maxw: nat)
    requires from < |s|
  {
    var end := from + l.len;
    && l.start == from && l.len > 0 && end <= |s|
    && if TextWidth(s[from..], advance) <= maxw then end == |s| == next
       else if exists p: nat :: WordEnd(s, from, p, advance, maxw) then
         && WordEnd(s, from, end, advance, maxw) && next == end + 1
         && forall p: nat :: WordEnd(s, from, p, advance, maxw) ==> p <= end
       else
         && next == end && Boundary(s[from..], l.len) && TextWidth(s[from..end], advance) <= maxw
         && forall k: nat :: l.len < k <= |s| - from && Boundary(s[from..], k) ==>
              TextWidth(s[from..from + k], advance) > maxw
  }

  ghost predicate Greedy(s: seq<byte>, from: nat, lines: seq<Line>, maxlines: nat, advance: nat, maxw: nat)
    decreases lines
  {
    if lines == [] then from >= |s| || maxlines == 0
    else
      && from < |s| && maxlines > 0
      && exists next: nat :: GreedyLine(s, from, lines[0], next, advance, maxw)
                        && Greedy(s, next, lines[1..], maxlines - 1, advance, maxw)
  }

  lemma {:induction false} WholeIsBoundary(s: seq<byte>)
    ensures Boundary(s, |s|)
    decreases |s|
  {
    if s != [] {
      WholeIsBoundary(s[Used(s)..]);
    }
  }

  /** A text that is not empty fits exactly when its characters are few enough. */
  lemma FitsByChars(s: seq<byte>, advance: nat, maxw: nat)
    requires s != [] && advance > 0
    ensures TextWidth(s, advance) <= maxw <==> Chars(s) <= Fit(maxw, advance)
  {
    hide Chars;
    FitsExactly(Chars(s), maxw, advance);
  }

  /** A space byte of the text is a character that ends before the greedy place exactly when the
      text up to it fits. */
  lemma SpaceFits(t: seq<byte>, b: nat, most: nat)
    requires 0 < b < |t| && t[b] == SPACE
    ensures Chars(t[..b + 1]) <= most <==> b < Advance(t, most)
  {
    hide Used, Chars, Advance, Boundary;
    var j := Advance(t, most);
    WholeIsBoundary(t);
    BreakAtSpace(t, |t|, b);
    AdvanceCounts(t, most);
    if Chars(t[..b + 1]) <= most {
      AdvanceIsLargest(t, most, b + 1);
    }
    if b < j {
      BoundaryInPart(t, b + 1, j);
      CharsSplit(t[..j], b + 1);
      assert t[..j][..b + 1] == t[..b + 1];
    }
  }

  lemma CutIsGreedy(s: seq<byte>, from: nat, advance: nat, maxw: nat)
    requires from < |s| && 0 < advance <= maxw + 1
    ensures var (shown, taken) := Cut(s[from..], Fit(maxw, advance));
            GreedyLine(s, from, Line(from, shown), from + taken, advance, maxw)
  {
    hide Used, Chars, Advance, Boundary, TextWidth, Fit;
    var t, most := s[from..], Fit(maxw, advance);
    var j := Advance(t, most);
    FitsExactly(1, maxw, advance);
    AdvanceMoves(t, most);
    AdvanceCounts(t, most);
    FitsByChars(t, advance, maxw);
    assert t[..|t|] == t;
    forall p | from < p < |s| && s[p] == SPACE
      ensures WordEnd(s, from, p, advance, maxw) <==> p - from < j
    {
      assert s[from..p + 1] == t[..p - from + 1] && t[p - from] == SPACE;
      SpaceFits(t, p - from, most);
      FitsByChars(t[..p - from + 1], advance, maxw);
    }
    var b := LastSpace(t, j);
    if b > 0 {
      assert s[from + b] == t[b] == SPACE;
      assert j < |t| ==> WordEnd(s, from, from + b, advance, maxw);
      forall p: nat | WordEnd(s, from, p, advance, maxw)
        ensures p <= from + b
      {
        assert t[p - from] == s[p];
      }
    } else {
      forall p | from < p < |s|
        ensures !WordEnd(s, from, p, advance, maxw)
      {
        assert t[p - from] == s[p];
      }
      assert s[from..from + j] == t[..j];
      FitsByChars(t[..j], advance, maxw);
      forall k | j < k <= |t| && Boundary(t, k)
        ensures TextWidth(s[from..from + k], advance) > maxw
      {
        assert s[from..from + k] == t[..k];
        FitsByChars(t[..k], advance, maxw);
        if Chars(t[..k]) <= most {
          AdvanceIsLargest(t, most, k);
        }
      }
    }
  }

  /** The lines are those of the greedy rule, as many as there may be. */
  lemma {:induction false} LinesAreGreedy(s: seq<byte>, from: nat, advance: nat, maxw: nat, maxlines: nat)
    requires 0 < advance <= maxw + 1
    ensures Greedy(s, from, Lines(s, from, Fit(maxw, advance), maxlines), maxlines, advance, maxw)
    decreases maxlines
  {
    hide Cut, GreedyLine, Fit;
    if from < |s| && maxlines > 0 {
      var most := Fit(maxw, advance);
      var (shown, taken) := Cut(s[from..], most);
      var rest := Lines(s, from + taken, most, maxlines - 1);
      CutIsGreedy(s, from, advance, maxw);
      LinesAreGreedy(s, from + taken, advance, maxw, maxlines - 1);
      var lines := [Line(from, shown)] + rest;
      assert lines[1..] == rest;
      assert GreedyLine(s, from, lines[0], from + taken, advance, maxw)
          && Greedy(s, from + taken, lines[1..], maxlines - 1, advance, maxw);
    }
  }

  /** The width of a text: the columns of its characters, and one between each two. */
  lemma WidthOfText(s: seq<byte>, width: nat)
    ensures TextWidth(s, width + 1) == if s == [] then 0 else Chars(s) * width + (Chars(s) - 1)
  {
    assert Chars(s) * (width + 1) == Chars(s) * width + Chars(s);
  }

  /** The bitmap of a wrapped text with its gap fits the scratch, for every font that gives
      more than one line on the panel. */
  lemma WrappedBitmapFits(width: nat, height: nat, rows: nat, n: nat)
    requires width <= MAIN_WIDTH && height == 14 && rows > 0 && height / rows > 1 && n <= MAX_LINES
    ensures (width + 7) / 8 * (n * rows + rows) <= SCRATCH
  {
    assert rows <= 7;
    assert n * rows <= MAX_LINES * 7 by {
      assert n * rows <= MAX_LINES * rows;
    }
    var stride, h := (width + 7) / 8, n * rows + rows;
    assert stride <= 9 && h <= 56;
    assert stride * h <= 9 * h;
  }
}
