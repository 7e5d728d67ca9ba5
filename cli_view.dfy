/** The console table of CLIView: every row is framed by '|' and padded with
    spaces to a fixed width of 60, rows longer than that are wrapped at the
    last space of each 60-character window, and words longer than a window
    are cut into 59-character pieces each followed by '-'. Each table is
    closed above and below by a border of '-' between two '+' corners, and a
    further border separates its first row (the header) from the rest. */
module TableView {

  /** DEFAULT_HORI_BORDER_LENGTH: the width of a table between its borders. */
  const Width: nat := 60

  /** n copies of c. */
  function Repeat(c: char, n: nat): (r: string)
    ensures |r| == n
    ensures forall i :: 0 <= i < n ==> r[i] == c
  {
    if n == 0 then [] else Repeat(c, n - 1) + [c]
  }

  /** getRemainingSpaces: a string of exactly n spaces, filled into a char
      array one cell at a time ("" when n is 0). */
  method RemainingSpaces(n: nat) returns (r: string)
    ensures r == Repeat(' ', n)
  {
    if n == 0 {
      return "";
    }
    var remainingSpaces := new char[n];
    for i := 0 to n
      invariant forall k :: 0 <= k < i ==> remainingSpaces[k] == ' '
    {
      remainingSpaces[i] := ' ';
    }
    r := remainingSpaces[..];
  }

  /** The border string: n '-' between two '+' corners. */
  function Border(n: nat): (r: string)
    ensures |r| == n + 2
    ensures r[0] == '+' && r[n + 1] == '+'
    ensures forall i :: 1 <= i <= n ==> r[i] == '-'
  {
    "+" + Repeat('-', n) + "+"
  }

  /** consolePrintTableHoriBorder: fills a char array with n '-' and puts a
      '+' at either end. */
  method HoriBorder(n: nat) returns (r: string)
    ensures r == Border(n)
  {
    var border := new char[n];
    for i := 0 to n
      invariant forall k :: 0 <= k < i ==> border[k] == '-'
    {
      border[i] := '-';
    }
    r := "+" + border[..] + "+";
  }

  /** A piece of a wrapped string: a plain line, or a cut through a long word
      that is shown with a '-' after it. */
  datatype Piece = Line(text: string) | Hyphenated(text: string)

  /** The string a piece is shown as. */
  function Shown(p: Piece): string {
    match p
    case Line(t) => t
    case Hyphenated(t) => t + "-"
  }

  /** The strings the pieces are shown as, in order. */
  function ShownAll(ps: seq<Piece>): (r: seq<string>)
    ensures |r| == |ps|
  {
    if |ps| == 0 then [] else [Shown(ps[0])] + ShownAll(ps[1..])
  }

  /** The characters of the original string each piece stands for. */
  function Texts(ps: seq<Piece>): (r: seq<string>)
    ensures |r| == |ps|
  {
    if |ps| == 0 then [] else [ps[0].text] + Texts(ps[1..])
  }

  /** The strings of ss one after another. */
  function Flatten(ss: seq<string>): string {
    if |ss| == 0 then "" else ss[0] + Flatten(ss[1..])
  }

  /** The walk back from e to just after the last space before it. */
  function LastSpaceCut(s: string, lo: nat, e: nat): (r: nat)
    requires lo < e <= |s| && ' ' in s[lo..e]
    ensures lo < r <= e && s[r - 1] == ' '
    decreases e
  {
    if s[e - 1] == ' ' then e
    else
      assert s[lo..e - 1] + [s[e - 1]] == s[lo..e];
      LastSpaceCut(s, lo, e - 1)
  }

  /** The walk forward from e across a word: it stops just after the next
      space, or at the end of the string. */
  function WordEnd(s: string, e: nat): (r: nat)
    requires 1 <= e < |s|
    ensures e <= r <= |s|
    ensures r == |s| || s[r - 1] == ' '
    decreases |s| - e
  {
    if s[e - 1] == ' ' then e
    else if e + 1 == |s| then |s|
    else WordEnd(s, e + 1)
  }

  /** k hyphenated pieces of 59 characters each (one less than Width, leaving
      room for the '-'), from position a. */
  function Chunks(s: string, a: nat, k: nat): (r: seq<Piece>)
    requires a + 59 * k <= |s|
    ensures |r| == k
  {
    if k == 0 then []
    else Chunks(s, a, k - 1) + [Hyphenated(s[a + 59 * (k - 1)..a + 59 * k])]
  }

  /** One round of getArrayOfSplitStrings from position start, where a full
      window of Width characters still leaves characters after it: the
      pieces it adds and where the next round starts. A window holding a
      space is cut after its last space. A window without one is part of a
      word that runs on to the next space (or the end of s); that word is cut
      into as many 59-character hyphenated pieces as fit in it, counting the
      space after it. */
  function Round(s: string, start: nat): (r: (seq<Piece>, nat))
    requires start + Width < |s|
    ensures start < r.1 <= |s|
  {
    if ' ' in s[start..start + Width] then
      var cut := LastSpaceCut(s, start, start + Width);
      ([Line(s[start..cut])], cut)
    else
      var e := WordEnd(s, start + Width);
      var k := (e - start) / 59;
      SegmentsFit(e - start);
      (Chunks(s, start, k), start + 59 * k)
  }

  /** The pieces getArrayOfSplitStrings cuts s into from position start:
      rounds until the next window reaches the end of s, and then what
      remains as the last piece. */
  function WrapFrom(s: string, start: nat): seq<Piece>
    requires start + Width < |s|
    decreases |s| - start
  {
    var (ps, next) := Round(s, start);
    if next + Width >= |s| then ps + [Line(s[next..])]
    else ps + WrapFrom(s, next)
  }

  /** All the pieces of a string longer than Width. */
  function Wrap(s: string): seq<Piece>
    requires |s| > Width
  {
    WrapFrom(s, 0)
  }

  lemma {:induction false} ShownAllAppend(a: seq<Piece>, b: seq<Piece>)
    ensures ShownAll(a + b) == ShownAll(a) + ShownAll(b)
  {
    if |a| > 0 {
      assert (a + b)[1..] == a[1..] + b;
      ShownAllAppend(a[1..], b);
    } else {
      assert a + b == b;
    }
  }

  /** Whole 59-character segments of x characters fit in them. */
  lemma {:induction false} SegmentsFit(x: nat)
    ensures 59 * (x / 59) <= x
  {
  }

  /** The strings shown from start on: those of one round, then the rest. */
  lemma {:induction false} ShownFrom(s: string, start: nat)
    requires start + Width < |s|
    ensures var (ps, next) := Round(s, start);
      ShownAll(WrapFrom(s, start))
        == ShownAll(ps) + if next + Width >= |s| then [s[next..]] else ShownAll(WrapFrom(s, next))
  {
    var (ps, next) := Round(s, start);
    if next + Width >= |s| {
      ShownAllAppend(ps, [Line(s[next..])]);
    } else {
      ShownAllAppend(ps, WrapFrom(s, next));
    }
  }

  /** getArrayOfSplitStrings: each round of the loop adds the pieces of one
      Round and moves the start on, until the next window reaches the end of
      s; then the rest of s is the last piece. The strings it returns are the
      shown pieces of Wrap(s). */
  method SplitLongString(s: string) returns (pieces: seq<string>)
    requires |s| > Width
    ensures pieces == ShownAll(Wrap(s))
  {
    pieces := [];
    var start := 0;
    var end := Width;
    var isLastLine := false;
    while !isLastLine
      invariant 0 <= start <= |s|
      invariant !isLastLine ==> end == start + Width && end < |s|
      invariant !isLastLine ==> pieces + ShownAll(WrapFrom(s, start)) == ShownAll(Wrap(s))
      invariant isLastLine ==> pieces == ShownAll(Wrap(s))
      decreases !isLastLine, |s| - start
    {
      ShownFrom(s, start);
      ghost var whole := ShownAll(WrapFrom(s, start));
      var round;
      round, start := SplitRound(s, start);
      ghost var tail := if start + Width >= |s| then [s[start..]] else ShownAll(WrapFrom(s, start));
      assert whole == round + tail;
      Regroup3(pieces, round, tail);
      pieces := pieces + round;
      end := start + Width;
      if end >= |s| {
        pieces := pieces + [s[start..]];
        isLastLine := true;
      }
    }
  }

  lemma {:induction false} Regroup3<T>(a: seq<T>, b: seq<T>, c: seq<T>)
    ensures (a + b) + c == a + (b + c)
  {
  }

  /** The body of the loop of getArrayOfSplitStrings up to its last-line
      test: the window from start is cut after its last space, or the long
      word it lies in is cut into hyphenated pieces. */
  method SplitRound(s: string, start0: nat) returns (round: seq<string>, start: nat)
    requires start0 + Width < |s|
    ensures round == ShownAll(Round(s, start0).0) && start == Round(s, start0).1
  {
    start := start0;
    var end := start + Width;
    if ' ' in s[start..end] {
      end := WalkBack(s, start, end);
      round := [s[start..end]];
      start := end;
    } else {
      end := WalkForward(s, start, end);
      var numOfLines := (end - start) / 59;
      SegmentsFit(end - start);
      round, start := AddSegments(s, [], start, numOfLines);
    }
  }

  /** The first inner loop of getArrayOfSplitStrings: from the end of a window
      holding a space, step back until the character before the end is a
      space. */
  method WalkBack(s: string, start: nat, end0: nat) returns (end: nat)
    requires start < end0 <= |s| && ' ' in s[start..end0]
    ensures end == LastSpaceCut(s, start, end0)
  {
    end := end0;
    while s[end - 1] != ' '
      invariant start < end <= end0
      invariant ' ' in s[start..end]
      invariant LastSpaceCut(s, start, end) == LastSpaceCut(s, start, end0)
      decreases end
    {
      assert s[start..end - 1] + [s[end - 1]] == s[start..end];
      end := end - 1;
    }
  }

  /** The second inner loop: from the end of a window without a space, step
      forward until the character before the end is a space or the end
      reaches the end of s. */
  method WalkForward(s: string, start: nat, end0: nat) returns (end: nat)
    requires 1 <= end0 < |s|
    ensures end == WordEnd(s, end0)
  {
    end := end0;
    while s[end - 1] != ' '
      invariant end0 <= end < |s|
      invariant WordEnd(s, end) == WordEnd(s, end0)
      decreases |s| - end
    {
      end := end + 1;
      if end == |s| {
        break;
      }
    }
  }

  /** The for loop over numOfLines: each round adds the next 59
      characters followed by '-' and moves the start past them. */
  method AddSegments(s: string, pieces0: seq<string>, start0: nat, numOfLines: nat)
    returns (pieces: seq<string>, start: nat)
    requires start0 + 59 * numOfLines <= |s|
    ensures pieces == pieces0 + ShownAll(Chunks(s, start0, numOfLines))
    ensures start == start0 + 59 * numOfLines
  {
    pieces := pieces0;
    start := start0;
    for i := 1 to numOfLines + 1
      invariant start == start0 + 59 * (i - 1)
      invariant pieces == pieces0 + ShownAll(Chunks(s, start0, i - 1))
    {
      var piece := Hyphenated(s[start..start + 59]);
      assert Chunks(s, start0, i) == Chunks(s, start0, i - 1) + [piece];
      ShownAllAppend(Chunks(s, start0, i - 1), [piece]);
      assert ShownAll([piece]) == [Shown(piece)];
      pieces := pieces + [s[start..start + 59] + "-"];
      start := start + 59;
    }
  }

  /** Every piece shown is at most Width characters long. */
  predicate FitsWidth(ss: seq<string>) {
    forall k :: 0 <= k < |ss| ==> |ss[k]| <= Width
  }

  lemma {:induction false} ChunksAreSegments(s: string, a: nat, k: nat)
    requires a + 59 * k <= |s|
    ensures forall i :: 0 <= i < k ==> Chunks(s, a, k)[i] == Hyphenated(s[a + 59 * i..a + 59 * (i + 1)])
  {
    if k > 0 {
      ChunksAreSegments(s, a, k - 1);
    }
  }

  /** The walk forward from e crosses no space before the one it stops at. */
  lemma {:induction false} WordEndCrossesNoSpace(s: string, e: nat)
    requires 1 <= e < |s|
    ensures forall j :: e - 1 <= j < WordEnd(s, e) - 1 ==> s[j] != ' '
    decreases |s| - e
  {
    if s[e - 1] != ' ' && e + 1 < |s| {
      WordEndCrossesNoSpace(s, e + 1);
    }
  }

  /** A window without a space lies in one word: no space up to its end. */
  lemma {:induction false} WordNoSpace(s: string, start: nat)
    requires start + Width < |s| && ' ' !in s[start..start + Width]
    ensures forall j :: start <= j < WordEnd(s, start + Width) - 1 ==> s[j] != ' '
  {
    WordEndCrossesNoSpace(s, start + Width);
    forall j | start <= j < start + Width ensures s[j] != ' ' {
      assert s[start..start + Width][j - start] == s[j];
    }
  }

  /** The pieces of one round fit the width. */
  lemma {:induction false} RoundFits(s: string, start: nat)
    requires start + Width < |s|
    ensures FitsWidth(ShownAll(Round(s, start).0))
  {
    if ' ' !in s[start..start + Width] {
      var e := WordEnd(s, start + Width);
      var k := (e - start) / 59;
      SegmentsFit(e - start);
      ChunksFit(s, start, k);
    }
  }

  /** Each hyphenated piece is 59 characters and its '-': exactly Width. */
  lemma {:induction false} ChunksFit(s: string, a: nat, k: nat)
    requires a + 59 * k <= |s|
    ensures FitsWidth(ShownAll(Chunks(s, a, k)))
  {
    if k > 0 {
      var front := Chunks(s, a, k - 1);
      var last := Hyphenated(s[a + 59 * (k - 1)..a + 59 * k]);
      ChunksFit(s, a, k - 1);
      ShownAllAppend(front, [last]);
      assert ShownAll([last]) == [Shown(last)];
      assert |Shown(last)| == Width;
    }
  }

  /** Every piece getArrayOfSplitStrings returns fits the table: the table's
      promise that each wrapped line is at most Width characters. */
  lemma {:induction false} WrapFromFits(s: string, start: nat)
    requires start + Width < |s|
    ensures FitsWidth(ShownAll(WrapFrom(s, start)))
    decreases |s| - start
  {
    var (ps, next) := Round(s, start);
    RoundFits(s, start);
    ShownFrom(s, start);
    if next + Width < |s| {
      WrapFromFits(s, next);
    }
  }

  /** A hyphenated piece is 59 characters of one word: no space in it but
      perhaps the last, which may be the space after the word. */
  predicate WordCut(p: Piece) {
    p.Hyphenated? ==> |p.text| == 59 && ' ' !in p.text[..58]
  }

  predicate AllWordCuts(ps: seq<Piece>) {
    forall k :: 0 <= k < |ps| ==> WordCut(ps[k])
  }

  lemma {:induction false} AllWordCutsAppend(a: seq<Piece>, b: seq<Piece>)
    requires AllWordCuts(a) && AllWordCuts(b)
    ensures AllWordCuts(a + b)
  {
    forall k | 0 <= k < |a + b| ensures WordCut((a + b)[k]) {
      if k >= |a| {
        assert (a + b)[k] == b[k - |a|];
      }
    }
  }

  /** The hyphenated pieces of one round are cut from a single word. */
  lemma {:induction false} RoundWordCuts(s: string, start: nat)
    requires start + Width < |s|
    ensures AllWordCuts(Round(s, start).0)
  {
    if ' ' !in s[start..start + Width] {
      var e := WordEnd(s, start + Width);
      var k := (e - start) / 59;
      SegmentsFit(e - start);
      assert Round(s, start) == (Chunks(s, start, k), start + 59 * k);
      WordNoSpace(s, start);
      ChunksWordCuts(s, start, k);
    } else {
      var cut := LastSpaceCut(s, start, start + Width);
      assert Round(s, start) == ([Line(s[start..cut])], cut);
    }
  }

  /** Hyphenated pieces cut from a stretch without spaces are word cuts. */
  lemma {:induction false} ChunksWordCuts(s: string, a: nat, k: nat)
    requires a + 59 * k <= |s|
    requires forall j :: a <= j < a + 59 * k - 1 ==> s[j] != ' '
    ensures AllWordCuts(Chunks(s, a, k))
  {
    ChunksAreSegments(s, a, k);
    var ps := Chunks(s, a, k);
    forall i | 0 <= i < k ensures WordCut(ps[i]) {
      var t := s[a + 59 * i..a + 59 * (i + 1)];
      assert ps[i].text == t;
      forall j | 0 <= j < 58 ensures t[..58][j] != ' ' {
        assert t[..58][j] == s[a + 59 * i + j];
      }
    }
  }

  /** Every hyphenated piece getArrayOfSplitStrings returns is 59 characters
      of a word too long for the table, shown with a '-' after it. */
  lemma {:induction false} WrapFromWordCuts(s: string, start: nat)
    requires start + Width < |s|
    ensures AllWordCuts(WrapFrom(s, start))
    decreases |s| - start
  {
    var (ps, next) := Round(s, start);
    RoundWordCuts(s, start);
    if next + Width < |s| {
      WrapFromWordCuts(s, next);
      AllWordCutsAppend(ps, WrapFrom(s, next));
    } else {
      AllWordCutsAppend(ps, [Line(s[next..])]);
    }
  }

  lemma {:induction false} TextsAppend(a: seq<Piece>, b: seq<Piece>)
    ensures Texts(a + b) == Texts(a) + Texts(b)
  {
    if |a| > 0 {
      assert (a + b)[1..] == a[1..] + b;
      TextsAppend(a[1..], b);
    } else {
      assert a + b == b;
    }
  }

  lemma {:induction false} FlattenAppend(a: seq<string>, b: seq<string>)
    ensures Flatten(a + b) == Flatten(a) + Flatten(b)
  {
    if |a| > 0 {
      assert (a + b)[1..] == a[1..] + b;
      FlattenAppend(a[1..], b);
    } else {
      assert a + b == b;
    }
  }

  /** The hyphenated pieces of a word, without their '-', spell the word. */
  lemma {:induction false} ChunksSpell(s: string, a: nat, k: nat)
    requires a + 59 * k <= |s|
    ensures Flatten(Texts(Chunks(s, a, k))) == s[a..a + 59 * k]
  {
    if k > 0 {
      var last := Hyphenated(s[a + 59 * (k - 1)..a + 59 * k]);
      ChunksSpell(s, a, k - 1);
      assert Chunks(s, a, k) == Chunks(s, a, k - 1) + [last];
      TextsAppend(Chunks(s, a, k - 1), [last]);
      assert Texts([last]) == [last.text];
      FlattenAppend(Texts(Chunks(s, a, k - 1)), [last.text]);
      assert Flatten([last.text]) == last.text;
      assert s[a..a + 59 * (k - 1)] + last.text == s[a..a + 59 * k];
    }
  }

  /** One round, without the '-' of its hyphenated pieces, spells the
      characters it moves the start past. */
  lemma {:induction false} RoundSpells(s: string, start: nat)
    requires start + Width < |s|
    ensures Flatten(Texts(Round(s, start).0)) == s[start..Round(s, start).1]
  {
    if ' ' !in s[start..start + Width] {
      var e := WordEnd(s, start + Width);
      var k := (e - start) / 59;
      SegmentsFit(e - start);
      assert Round(s, start) == (Chunks(s, start, k), start + 59 * k);
      ChunksSpell(s, start, k);
    } else {
      var cut := LastSpaceCut(s, start, start + Width);
      assert Round(s, start) == ([Line(s[start..cut])], cut);
      OnePieceSpells(Line(s[start..cut]));
    }
  }

  lemma {:induction false} OnePieceSpells(p: Piece)
    ensures Flatten(Texts([p])) == p.text
  {
    assert Texts([p]) == [p.text] + Texts([]);
    assert Flatten([p.text]) == p.text + Flatten([]);
  }

  /** Nothing is lost or repeated: the pieces of s from start, without the
      '-' of the hyphenated ones, spell s from start. */
  lemma {:induction false} WrapFromSpells(s: string, start: nat)
    requires start + Width < |s|
    ensures Flatten(Texts(WrapFrom(s, start))) == s[start..]
    decreases |s| - start
  {
    var (ps, next) := Round(s, start);
    RoundSpells(s, start);
    if next + Width < |s| {
      WrapFromSpells(s, next);
      SpellsCompose(s, start, ps, next, WrapFrom(s, next));
    } else {
      var rest := [Line(s[next..])];
      assert Flatten(Texts(rest)) == s[next..];
      SpellsCompose(s, start, ps, next, rest);
    }
  }

  /** The pieces of one round followed by the pieces of the rest spell the
      string from the round's start. */
  lemma {:induction false} SpellsCompose(s: string, start: nat, ps: seq<Piece>, next: nat, rest: seq<Piece>)
    requires start <= next <= |s|
    requires Flatten(Texts(ps)) == s[start..next]
    requires Flatten(Texts(rest)) == s[next..]
    ensures Flatten(Texts(ps + rest)) == s[start..]
  {
    TextsAppend(ps, rest);
    FlattenAppend(Texts(ps), Texts(rest));
    SliceJoin(s, start, next);
  }

  lemma {:induction false} SliceJoin<T>(s: seq<T>, a: nat, b: nat)
    requires a <= b <= |s|
    ensures s[a..b] + s[b..] == s[a..]
  {
  }

  lemma {:induction false} ShownWithoutCuts(ps: seq<Piece>)
    requires forall k :: 0 <= k < |ps| ==> ps[k].Line?
    ensures ShownAll(ps) == Texts(ps)
  {
    if |ps| > 0 {
      ShownWithoutCuts(ps[1..]);
    }
  }

  /** When no word had to be hyphenated, the lines getArrayOfSplitStrings
      returns, put back together, are the string it was given. */
  lemma {:induction false} UnhyphenatedSplitRejoins(s: string)
    requires |s| > Width
    requires forall k :: 0 <= k < |Wrap(s)| ==> Wrap(s)[k].Line?
    ensures Flatten(ShownAll(Wrap(s))) == s
  {
    ShownWithoutCuts(Wrap(s));
    WrapFromSpells(s, 0);
  }

  /** A table row of at most Width characters: between two '|', padded with
      spaces to the width. */
  function Framed(row: string): string
    requires |row| <= Width
  {
    "|" + row + Repeat(' ', Width - |row|) + "|"
  }

  /** The framed lines of several pieces, in order. */
  function FramedAll(ss: seq<string>): (r: seq<string>)
    requires FitsWidth(ss)
    ensures |r| == |ss|
  {
    if |ss| == 0 then [] else FramedAll(ss[..|ss| - 1]) + [Framed(ss[|ss| - 1])]
  }

  /** The lines of one row: the row framed if it fits, and otherwise each of
      its pieces framed in turn. */
  function RowLines(row: string): seq<string> {
    if |row| <= Width then [Framed(row)]
    else
      WrapFromFits(row, 0);
      FramedAll(ShownAll(Wrap(row)))
  }

  /** The lines of several rows, one row after another. */
  function RowsLines(rows: seq<string>): seq<string> {
    if |rows| == 0 then [] else RowsLines(rows[..|rows| - 1]) + RowLines(rows[|rows| - 1])
  }

  /** Between the top and bottom borders of a table: its first row, a border
      under it, and the other rows. */
  function BlockBody(rows: seq<string>): seq<string> {
    if |rows| == 0 then [] else RowLines(rows[0]) + [Border(Width)] + RowsLines(rows[1..])
  }

  /** One table. */
  function Block(rows: seq<string>): seq<string> {
    [Border(Width)] + BlockBody(rows) + [Border(Width)]
  }

  /** The lines f gives for each of xs, one after another. */
  function Concat<T>(xs: seq<T>, f: T -> seq<string>): seq<string> {
    if |xs| == 0 then [] else Concat(xs[..|xs| - 1], f) + f(xs[|xs| - 1])
  }

  /** The tables, one after another. */
  function Table(tables: seq<seq<string>>): seq<string> {
    Concat(tables, Block)
  }

  /** consolePrintTable: for each table a border, then each row's lines, a
      border after the first row only, and a closing border. */
  method ConsolePrintTable(toPrintAll: seq<seq<string>>) returns (tableContent: seq<string>)
    ensures tableContent == Table(toPrintAll)
  {
    tableContent := [];
    for i := 0 to |toPrintAll|
      invariant tableContent == Table(toPrintAll[..i])
    {
      TableStep(toPrintAll, i);
      var toPrint := toPrintAll[i];
      var body := PrintTableBody(toPrint);
      var border := HoriBorder(Width);
      tableContent := tableContent + [border] + body + [border];
    }
    assert toPrintAll[..|toPrintAll|] == toPrintAll;
  }

  /** The tables up to i, and one more. */
  lemma {:induction false} TableStep(tables: seq<seq<string>>, i: nat)
    requires i < |tables|
    ensures Table(tables[..i + 1]) == Table(tables[..i]) + Block(tables[i])
  {
    assert tables[..i + 1][..i] == tables[..i];
  }

  /** The inner loop of consolePrintTable over the rows of one table, with
      its header flag. */
  method PrintTableBody(toPrint: seq<string>) returns (lines: seq<string>)
    ensures lines == BlockBody(toPrint)
  {
    lines := [];
    var hasPrintedTableHeader := false;
    for j := 0 to |toPrint|
      invariant hasPrintedTableHeader <==> j > 0
      invariant lines == BlockBody(toPrint[..j])
    {
      var row := PrintRow(toPrint[j]);
      BlockBodyStep(toPrint, j);
      lines := lines + row;
      if !hasPrintedTableHeader {
        var border := HoriBorder(Width);
        lines := lines + [border];
        hasPrintedTableHeader := true;
      }
    }
    assert toPrint[..|toPrint|] == toPrint;
  }

  lemma {:induction false} BlockBodyStep(rows: seq<string>, j: nat)
    requires j < |rows|
    ensures j == 0 ==> BlockBody(rows[..j + 1]) == RowLines(rows[j]) + [Border(Width)]
    ensures j > 0 ==> BlockBody(rows[..j + 1]) == BlockBody(rows[..j]) + RowLines(rows[j])
  {
    var b := Border(Width);
    if j > 0 {
      var prev := rows[..j];
      var tail := rows[..j + 1][1..];
      StepSlices(rows, j);
      assert RowsLines(tail) == RowsLines(prev[1..]) + RowLines(rows[j]);
      assert BlockBody(rows[..j + 1]) == RowLines(prev[0]) + [b] + RowsLines(tail);
      Regroup4(RowLines(prev[0]), b, RowsLines(prev[1..]), RowLines(rows[j]));
    } else {
      assert rows[..1][1..] == [];
    }
  }

  /** How the first j + 1 rows relate to the first j. */
  lemma {:induction false} StepSlices<T>(rows: seq<T>, j: nat)
    requires 0 < j < |rows|
    ensures var tail := rows[..j + 1][1..];
      && |tail| == j
      && tail[..|tail| - 1] == rows[..j][1..]
      && tail[|tail| - 1] == rows[j]
      && rows[..j + 1][0] == rows[..j][0]
  {
  }

  lemma {:induction false} Regroup4<T>(a: seq<T>, b: T, c: seq<T>, d: seq<T>)
    ensures a + [b] + (c + d) == a + [b] + c + d
  {
  }

  /** One row of consolePrintTable: framed as it is if it fits, otherwise
      split with getArrayOfSplitStrings and each piece framed. */
  method PrintRow(s: string) returns (lines: seq<string>)
    ensures lines == RowLines(s)
  {
    if |s| <= Width {
      var line := FrameLine(s);
      lines := [line];
    } else {
      var splitStrings := SplitLongString(s);
      WrapFromFits(s, 0);
      lines := [];
      for k := 0 to |splitStrings|
        invariant lines == FramedAll(splitStrings[..k])
      {
        assert splitStrings[..k + 1][..k] == splitStrings[..k];
        var line := FrameLine(splitStrings[k]);
        lines := lines + [line];
      }
      assert splitStrings[..|splitStrings|] == splitStrings;
    }
  }

  /** "|" + s + getRemainingSpaces(Width - length) + "|". */
  method FrameLine(s: string) returns (line: string)
    requires |s| <= Width
    ensures line == Framed(s)
  {
    var spaces := RemainingSpaces(Width - |s|);
    line := "|" + s + spaces + "|";
  }

  /** A framed row is Width + 2 characters: '|', the row, spaces, '|'. */
  lemma {:induction false} FramedShape(row: string)
    requires |row| <= Width
    ensures |Framed(row)| == Width + 2
    ensures Framed(row)[0] == '|' && Framed(row)[Width + 1] == '|'
    ensures Framed(row)[1..|row| + 1] == row
    ensures forall i :: |row| + 1 <= i <= Width ==> Framed(row)[i] == ' '
  {
    var f := Framed(row);
    assert f == "|" + row + Repeat(' ', Width - |row|) + "|";
    forall i | |row| + 1 <= i <= Width ensures f[i] == ' ' {
      assert f[i] == Repeat(' ', Width - |row|)[i - |row| - 1];
    }
  }

  /** Every line is as wide as the table: Width + 2 characters. */
  predicate AllTableWide(lines: seq<string>) {
    forall k :: 0 <= k < |lines| ==> |lines[k]| == Width + 2
  }

  lemma {:induction false} AllTableWideAppend(a: seq<string>, b: seq<string>)
    requires AllTableWide(a) && AllTableWide(b)
    ensures AllTableWide(a + b)
  {
    forall k | 0 <= k < |a + b| ensures |(a + b)[k]| == Width + 2 {
      if k >= |a| {
        assert (a + b)[k] == b[k - |a|];
      }
    }
  }

  lemma {:induction false} FramedAllWide(ss: seq<string>)
    requires FitsWidth(ss)
    ensures AllTableWide(FramedAll(ss))
  {
    if |ss| > 0 {
      var init := ss[..|ss| - 1];
      assert FitsWidth(init) by {
        forall k | 0 <= k < |init| ensures |init[k]| <= Width {
          assert init[k] == ss[k];
        }
      }
      FramedAllWide(init);
      FramedShape(ss[|ss| - 1]);
      AllTableWideAppend(FramedAll(init), [Framed(ss[|ss| - 1])]);
    }
  }

  lemma {:induction false} RowLinesWide(row: string)
    ensures AllTableWide(RowLines(row))
  {
    if |row| <= Width {
      FramedShape(row);
    } else {
      WrapFromFits(row, 0);
      FramedAllWide(ShownAll(Wrap(row)));
    }
  }

  lemma {:induction false} RowsLinesWide(rows: seq<string>)
    ensures AllTableWide(RowsLines(rows))
  {
    if |rows| > 0 {
      RowsLinesWide(rows[..|rows| - 1]);
      RowLinesWide(rows[|rows| - 1]);
      AllTableWideAppend(RowsLines(rows[..|rows| - 1]), RowLines(rows[|rows| - 1]));
    }
  }

  lemma {:induction false} BlockWide(rows: seq<string>)
    ensures AllTableWide(Block(rows))
  {
    var b := [Border(Width)];
    if |rows| > 0 {
      RowLinesWide(rows[0]);
      RowsLinesWide(rows[1..]);
      AllTableWideAppend(RowLines(rows[0]), b);
      AllTableWideAppend(RowLines(rows[0]) + b, RowsLines(rows[1..]));
    }
    AllTableWideAppend(b, BlockBody(rows));
    AllTableWideAppend(b + BlockBody(rows), b);
  }

  /** Every line consolePrintTable returns, border or row, is Width + 2
      characters: rows are padded and long rows are wrapped to fit. */
  lemma {:induction false} TableWide(tables: seq<seq<string>>)
    ensures AllTableWide(Table(tables))
  {
    if |tables| > 0 {
      TableWide(tables[..|tables| - 1]);
      BlockWide(tables[|tables| - 1]);
      AllTableWideAppend(Table(tables[..|tables| - 1]), Block(tables[|tables| - 1]));
    }
  }

  lemma {:induction false} ShortRowsOneLineEach(rows: seq<string>)
    requires forall k :: 0 <= k < |rows| ==> |rows[k]| <= Width
    ensures |RowsLines(rows)| == |rows|
  {
    if |rows| > 0 {
      ShortRowsOneLineEach(rows[..|rows| - 1]);
    }
  }

  /** A table whose rows all fit takes one line per row, three borders when
      it has a row, and just its two borders when it has none. */
  lemma {:induction false} ShortBlockLength(rows: seq<string>)
    requires forall k :: 0 <= k < |rows| ==> |rows[k]| <= Width
    ensures |Block(rows)| == if |rows| == 0 then 2 else |rows| + 3
  {
    if |rows| > 0 {
      ShortRowsOneLineEach(rows[1..]);
    }
  }

  /** The layout of one table: a border on top, the first row's lines, a
      border under them, the other rows' lines, and a border at the bottom. */
  lemma {:induction false} BlockLayout(rows: seq<string>)
    requires |rows| > 0
    ensures var h := |RowLines(rows[0])|;
      Block(rows)[0] == Border(Width) && Block(rows)[1..h + 1] == RowLines(rows[0])
      && Block(rows)[h + 1] == Border(Width)
      && Block(rows)[h + 2..|Block(rows)| - 1] == RowsLines(rows[1..])
      && Block(rows)[|Block(rows)| - 1] == Border(Width)
  {
    var b := Border(Width);
    var first := RowLines(rows[0]);
    var rest := RowsLines(rows[1..]);
    BlockParts(rows);
    Framing(b, first, rest);
  }

  lemma {:induction false} BlockParts(rows: seq<string>)
    requires |rows| > 0
    ensures Block(rows)
      == [Border(Width)] + RowLines(rows[0]) + [Border(Width)] + RowsLines(rows[1..]) + [Border(Width)]
  {
    var b := Border(Width);
    var first := RowLines(rows[0]);
    var rest := RowsLines(rows[1..]);
    assert Block(rows) == [b] + (first + [b] + rest) + [b];
    Regroup(b, first, rest);
  }

  lemma {:induction false} Regroup<T>(b: T, first: seq<T>, rest: seq<T>)
    ensures [b] + (first + [b] + rest) + [b] == [b] + first + [b] + rest + [b]
  {
  }

  /** Where the parts of [b] + first + [b] + rest + [b] sit. */
  lemma {:induction false} Framing<T>(b: T, first: seq<T>, rest: seq<T>)
    ensures var block := [b] + first + [b] + rest + [b];
      var h := |first|;
      block[0] == b && block[1..h + 1] == first && block[h + 1] == b
      && block[h + 2..|block| - 1] == rest && block[|block| - 1] == b
  {
    var block := [b] + first + [b] + rest + [b];
    var h := |first|;
    assert block[1..h + 1] == first;
    assert block[h + 2..|block| - 1] == rest;
  }

  lemma {:induction false} ConcatAppend<T>(a: seq<T>, b: seq<T>, f: T -> seq<string>)
    ensures Concat(a + b, f) == Concat(a, f) + Concat(b, f)
  {
    if |b| == 0 {
      assert a + b == a;
    } else {
      var ab := a + b;
      assert ab[..|ab| - 1] == a + b[..|b| - 1];
      assert ab[|ab| - 1] == b[|b| - 1];
      ConcatAppend(a, b[..|b| - 1], f);
    }
  }

  /** Tables are laid out in the order given: the lines for a + b are those
      for a followed by those for b. */
  lemma {:induction false} TableAppend(a: seq<seq<string>>, b: seq<seq<string>>)
    ensures Table(a + b) == Table(a) + Table(b)
  {
    ConcatAppend(a, b, Block);
  }

  /** A single table is laid out as one block. */
  lemma {:induction false} TableOfOne(rows: seq<string>)
    ensures Table([rows]) == Block(rows)
  {
    assert [rows][..0] == [];
    assert Concat([rows], Block) == Concat([], Block) + Block(rows);
  }
}
