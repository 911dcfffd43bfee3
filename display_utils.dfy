/**
 * The box renderer: a card's text is cut into lines of at most `rowlen`
 * characters (with a hyphen where a word is broken) and framed by a border.
 */
module DisplayUtils {
  import opened Wrappers
  import opened Strings
  import opened Cards
  import Lists

  /** `grid_builder` divides a line's length by `rowlen`. */
  datatype DisplayError = ZeroDivisionError

  /** The default line width of `card_displayer`. */
  const RowLen: nat := 80

  // ---------------------------------------------------------------------------
  // Cut positions
  // ---------------------------------------------------------------------------

  /** `k * r`, by repeated addition: the position of the `k`-th cut. */
  function Times(k: nat, r: nat): nat {
    if k == 0 then 0 else Times(k - 1, r) + r
  }

  lemma {:induction false} TimesIsProduct(k: nat, r: nat)
    ensures Times(k, r) == k * r
  {
    if k > 0 {
      TimesIsProduct(k - 1, r);
    }
  }

  /** Cut positions grow by `r`: an earlier cut ends no later than a later one starts. */
  lemma {:induction false} TimesGrow(k: nat, c: nat, r: nat)
    requires k < c
    ensures Times(k, r) + r <= Times(c, r)
  {
    if k + 1 < c {
      TimesGrow(k, c - 1, r);
    }
  }

  /**
   * How many full-width pieces are cut from a line of `len` characters before
   * the rest fits: the pieces at 0, r, 2r, ... whose remainder is still longer
   * than `r`.
   */
  function CutCount(len: nat, r: nat): (c: nat)
    requires r > 0 && len > 0
    ensures Times(c, r) < len <= Times(c, r) + r
    decreases len
  {
    if len <= r then 0 else 1 + CutCount(len - r, r)
  }

  // ---------------------------------------------------------------------------
  // Cutting a long line
  // ---------------------------------------------------------------------------

  /** A piece cut at `x`: `rowlen` characters, left-stripped, with a hyphen when a word is broken. */
  function Cut(itm: string, x: nat, r: nat): string
    requires r > 0 && x + r < |itm|
  {
    LStrip(itm[x..x + r]) + (if IsAlpha(itm[x + r - 1]) && itm[x + r] != ' ' then "-" else "")
  }

  /** The remainder of the line from `x`, left-stripped. */
  function Tail(itm: string, x: nat): string
    requires x <= |itm|
  {
    LStrip(itm[x..])
  }

  /** Piece `k` of a long line: a cut while the remainder is longer than `r`, the remainder after that. */
  function Piece(itm: string, r: nat, k: nat): string
    requires 0 < r < |itm|
  {
    var c := CutCount(|itm|, r);
    if k < c then
      TimesGrow(k, c, r);
      Cut(itm, Times(k, r), r)
    else Tail(itm, Times(c, r))
  }

  /**
   * A line longer than `r` becomes `len // r + 1` pieces: cuts at 0, r, 2r, ...
   * while the remainder is longer than `r`, then the remainder for every piece
   * still owed.
   */
  function WrapLine(itm: string, r: nat): (pieces: seq<string>)
    requires 0 < r < |itm|
    ensures |pieces| == |itm| / r + 1
  {
    seq(|itm| / r + 1, k requires 0 <= k < |itm| / r + 1 => Piece(itm, r, k))
  }

  /** Every line of the card, the long ones cut; `rowlen` 0 fails on the first non-empty line. */
  function WrapLines(lines: seq<string>, r: nat): (g: Result<seq<string>, DisplayError>)
    ensures r > 0 ==> g.Ok?
  {
    if lines == [] then Ok([])
    else
      match WrapLines(lines[..|lines| - 1], r)
      case Err(e) => Err(e)
      case Ok(g) =>
        var itm := lines[|lines| - 1];
        if |itm| <= r then Ok(g + [itm])
        else if r == 0 then Err(ZeroDivisionError)
        else Ok(g + WrapLine(itm, r))
  }

  /** `grid_builder(cardstr, rowlen)`: the card's lines, each at most `rowlen` wide (plus a hyphen). */
  function GridOf(cardstr: string, r: nat): Result<seq<string>, DisplayError> {
    WrapLines(Split(cardstr, "\n"), r)
  }

  // ---------------------------------------------------------------------------
  // Properties of the cutting
  // ---------------------------------------------------------------------------

  /**
   * The first `CutCount` pieces are cuts at multiples of `r`, all later ones are
   * the remainder; every piece is at most `r + 1` wide and the remainder at most `r`.
   */
  lemma WrapLineShape(itm: string, r: nat)
    requires 0 < r < |itm|
    ensures CutCount(|itm|, r) < |WrapLine(itm, r)|
    ensures forall k :: 0 <= k < CutCount(|itm|, r) ==>
      Times(k, r) + r < |itm| && WrapLine(itm, r)[k] == Cut(itm, Times(k, r), r)
    ensures forall k :: CutCount(|itm|, r) <= k < |WrapLine(itm, r)| ==>
      WrapLine(itm, r)[k] == Tail(itm, Times(CutCount(|itm|, r), r))
    ensures forall k :: 0 <= k < |WrapLine(itm, r)| ==> |WrapLine(itm, r)[k]| <= r + 1
    ensures |Tail(itm, Times(CutCount(|itm|, r), r))| <= r
  {
    var c := CutCount(|itm|, r);
    CutCountQuotient(|itm|, r);
    forall k | 0 <= k < c ensures Times(k, r) + r < |itm| {
      TimesGrow(k, c, r);
    }
  }

  /** The cut count is the quotient, one less when the length is a multiple of `r`. */
  lemma CutCountQuotient(len: nat, r: nat)
    requires 0 < r < len
    ensures len % r == 0 ==> CutCount(len, r) == len / r - 1
    ensures len % r != 0 ==> CutCount(len, r) == len / r
  {
    var c := CutCount(len, r);
    TimesIsProduct(c, r);
    TimesIsProduct(c + 1, r);
    DivBetween(len, r, c);
  }

  /** From `c * r < len <= c * r + r`, the quotient of `len` by `r`. */
  lemma DivBetween(len: nat, r: nat, c: nat)
    requires r > 0 && c * r < len <= c * r + r
    ensures len % r == 0 ==> len / r == c + 1
    ensures len % r != 0 ==> len / r == c
  {
    QuotientCases(len / r, c, r, len % r, len);
  }

  lemma QuotientCases(q: nat, c: nat, r: nat, m: nat, len: nat)
    requires len == q * r + m && m < r
    requires c * r < len <= c * r + r
    ensures m == 0 ==> q == c + 1
    ensures m != 0 ==> q == c
  {
    QuotientAtLeast(q, c, r, m);
    QuotientAtMost(q, c + 1, r, m);
    NextMultiple(c, r);
  }

  lemma QuotientAtLeast(q: nat, c: nat, r: nat, m: nat)
    requires m < r && c * r < q * r + m
    ensures c <= q
  {
    if q < c {
      MulStrict(q, c, r);
    }
  }

  lemma QuotientAtMost(q: nat, c: nat, r: nat, m: nat)
    requires r > 0 && q * r + m < c * r + r
    ensures q <= c
  {
    if q > c {
      MulStrict(c, q, r);
    }
  }

  lemma MulStrict(a: nat, b: nat, r: nat)
    requires a < b
    ensures a * r + r <= b * r
  {
    NextMultiple(a, r);
    MulMono(a + 1, b, r);
  }

  lemma NextMultiple(c: nat, r: nat)
    ensures (c + 1) * r == c * r + r
  {
  }

  lemma MulMono(a: nat, b: nat, r: nat)
    requires a <= b
    ensures a * r <= b * r
  {
  }

  /**
   * When the length is a multiple of `rowlen` the remainder is emitted twice;
   * otherwise only the last piece is the remainder.
   */
  lemma TailRepeats(itm: string, r: nat)
    requires 0 < r < |itm|
    ensures |itm| % r == 0 ==> WrapLine(itm, r)[|itm| / r - 1] == WrapLine(itm, r)[|itm| / r]
    ensures |itm| % r != 0 ==> CutCount(|itm|, r) == |itm| / r
  {
    CutCountQuotient(|itm|, r);
    WrapLineShape(itm, r);
  }

  /** A card whose every line fits comes back line for line. */
  lemma {:induction false} ShortLinesKept(lines: seq<string>, r: nat)
    requires forall k :: 0 <= k < |lines| ==> |lines[k]| <= r
    ensures WrapLines(lines, r) == Ok(lines)
  {
    if lines != [] {
      var n := |lines| - 1;
      ShortLinesKept(lines[..n], r);
      assert lines[..n] + [lines[n]] == lines;
    }
  }

  /** With `rowlen` 0 the card fails exactly when one of its lines is non-empty. */
  lemma {:induction false} ZeroWidthFails(lines: seq<string>)
    ensures WrapLines(lines, 0).Err? <==> exists k :: 0 <= k < |lines| && lines[k] != ""
  {
    if lines != [] {
      var n := |lines| - 1;
      ZeroWidthFails(lines[..n]);
      if exists k :: 0 <= k < n && lines[..n][k] != "" {
        var k :| 0 <= k < n && lines[..n][k] != "";
        assert lines[k] != "";
      }
      if exists k :: 0 <= k < |lines| && lines[k] != "" {
        var k :| 0 <= k < |lines| && lines[k] != "";
        if k < n {
          assert lines[..n][k] != "";
        }
      }
    }
  }

  // ---------------------------------------------------------------------------
  // The cutting, as the source computes it
  // ---------------------------------------------------------------------------

  /** The `while` loop of `grid_builder` for one line longer than `rowlen`. */
  method CutLine(itm: string, rowlen: nat) returns (toGrid: seq<string>)
    requires 0 < rowlen < |itm|
    ensures toGrid == WrapLine(itm, rowlen)
  {
    ghost var spec := WrapLine(itm, rowlen);
    var pieces := |itm| / rowlen + 1;
    assert |spec| == pieces;
    toGrid := [];
    var x := 0;
    while |toGrid| < pieces
      modifies {}
      invariant |toGrid| <= pieces
      invariant toGrid == spec[..|toGrid|]
      invariant x == CutStart(itm, rowlen, |toGrid|)
    {
      ghost var k := |toGrid|;
      CutLineStep(itm, rowlen, k, x);
      var piece;
      piece, x := NextPiece(itm, rowlen, x);
      GrowPrefix(spec, toGrid, piece);
      toGrid := toGrid + [piece];
    }
    assert spec[..|spec|] == spec;
  }

  /** The body of the cutting loop: the next piece from `x`, and where the one after it starts. */
  method NextPiece(itm: string, rowlen: nat, x: nat) returns (piece: string, next: nat)
    requires 0 < rowlen && x <= |itm|
    ensures |itm| - x > rowlen ==> x + rowlen < |itm| && piece == Cut(itm, x, rowlen) && next == x + rowlen
    ensures |itm| - x <= rowlen ==> piece == Tail(itm, x) && next == x
  {
    if |itm| - x > rowlen {
      if IsAlpha(itm[x + rowlen - 1]) && itm[x + rowlen] != ' ' {
        piece := LStrip(itm[x..x + rowlen]) + "-";
        next := x + rowlen;
      } else {
        piece := LStrip(itm[x..x + rowlen]);
        next := x + rowlen;
      }
    } else {
      piece := LStrip(itm[x..]);
      next := x;
    }
  }

  /** At piece `k` the loop cuts exactly when `k` is below the cut count. */
  lemma CutStep(itm: string, r: nat, k: nat)
    requires 0 < r < |itm|
    ensures var c := CutCount(|itm|, r); var x := Times(if k < c then k else c, r);
      && x <= |itm|
      && (|itm| - x > r <==> k < c)
  {
    var c := CutCount(|itm|, r);
    if k < c {
      TimesGrow(k, c, r);
    }
  }

  /** A prefix of `whole` grown by the next element is again a prefix. */
  lemma GrowPrefix<T>(whole: seq<T>, prefix: seq<T>, next: T)
    requires |prefix| < |whole| && prefix == whole[..|prefix|] && next == whole[|prefix|]
    ensures prefix + [next] == whole[..|prefix| + 1]
  {
  }

  /** Where piece `k` of a long line starts: `k * r` up to the last cut, then the remainder's start. */
  function CutStart(itm: string, r: nat, k: nat): nat
    requires 0 < r < |itm|
  {
    var c := CutCount(|itm|, r);
    Times(if k < c then k else c, r)
  }

  /** One turn of the cutting loop: what piece `k` is and where the next piece starts. */
  lemma CutLineStep(itm: string, r: nat, k: nat, x: nat)
    requires 0 < r < |itm| && k < |itm| / r + 1
    requires x == CutStart(itm, r, k)
    ensures x <= |itm|
    ensures |itm| - x > r ==>
      && x + r < |itm| && WrapLine(itm, r)[k] == Cut(itm, x, r)
      && x + r == CutStart(itm, r, k + 1)
    ensures |itm| - x <= r ==>
      && WrapLine(itm, r)[k] == Tail(itm, x)
      && x == CutStart(itm, r, k + 1)
  {
    CutStep(itm, r, k);
    var c := CutCount(|itm|, r);
    assert WrapLine(itm, r)[k] == Piece(itm, r, k);
    if k < c {
      assert x == Times(k, r);
      assert Piece(itm, r, k) == Cut(itm, x, r);
      assert CutStart(itm, r, k + 1) == Times(k + 1, r);
    } else {
      assert x == Times(c, r);
      assert Piece(itm, r, k) == Tail(itm, x);
      assert CutStart(itm, r, k + 1) == x;
    }
  }

  /** Once a line fails, the whole card fails. */
  lemma {:induction false} WrapLinesErrPersists(lines: seq<string>, r: nat, i: nat)
    requires i <= |lines| && WrapLines(lines[..i], r).Err?
    ensures WrapLines(lines, r) == Err(ZeroDivisionError)
  {
    if i < |lines| {
      var n := |lines| - 1;
      assert lines[..n][..i] == lines[..i];
      WrapLinesErrPersists(lines[..n], r, i);
    } else {
      assert lines[..i] == lines;
      assert WrapLines(lines, r).error.ZeroDivisionError?;
    }
  }

  /** `grid_builder`: split on line breaks, keep the short lines, cut the long ones. */
  method GridBuilder(cardstr: string, rowlen: nat) returns (r: Result<seq<string>, DisplayError>)
    ensures r == GridOf(cardstr, rowlen)
  {
    var initialGrid := Split(cardstr, "\n");
    var grid: seq<string> := [];
    for i := 0 to |initialGrid|
      invariant WrapLines(initialGrid[..i], rowlen) == Ok(grid)
    {
      var itm := initialGrid[i];
      assert initialGrid[..i + 1][..i] == initialGrid[..i];
      if |itm| <= rowlen {
        grid := grid + [itm];
      } else if rowlen == 0 {
        WrapLinesErrPersists(initialGrid, rowlen, i + 1);
        return Err(ZeroDivisionError);
      } else {
        var toGrid := CutLine(itm, rowlen);
        grid := grid + toGrid;
      }
    }
    assert initialGrid[..|initialGrid|] == initialGrid;
    return Ok(grid);
  }

  // ---------------------------------------------------------------------------
  // Accumulating renderings (`output += ...`, `printout += ...`)
  // ---------------------------------------------------------------------------

  /** The renderings of the items one after the other (a loop of `printout += ...`). */
  function Flatten<T>(render: T -> string, xs: seq<T>): string {
    if xs == [] then ""
    else Flatten(render, xs[..|xs| - 1]) + render(xs[|xs| - 1])
  }

  /** The rendering of a list splits at any position into the renderings before it and from it on. */
  lemma {:induction false} FlattenSplit<T>(render: T -> string, xs: seq<T>, j: nat)
    requires j <= |xs|
    ensures Flatten(render, xs) == Flatten(render, xs[..j]) + Flatten(render, xs[j..])
  {
    if j == |xs| {
      assert xs[..j] == xs;
      assert xs[j..] == [];
    } else {
      var n := |xs| - 1;
      FlattenSplit(render, xs[..n], j);
      assert xs[..n][..j] == xs[..j];
      assert xs[..n][j..] == xs[j..][..|xs[j..]| - 1];
    }
  }

  /** One more item extends the rendering by that item's rendering. */
  lemma FlattenSnoc<T>(render: T -> string, xs: seq<T>, i: nat)
    requires i < |xs|
    ensures Flatten(render, xs[..i + 1]) == Flatten(render, xs[..i]) + render(xs[i])
  {
    assert xs[..i + 1][..i] == xs[..i];
  }

  /** Item `i`'s rendering sits between the renderings of the items before it and those after it. */
  lemma FlattenAt<T>(render: T -> string, xs: seq<T>, i: nat)
    requires i < |xs|
    ensures Flatten(render, xs) == Flatten(render, xs[..i]) + render(xs[i]) + Flatten(render, xs[i + 1..])
  {
    FlattenSplit(render, xs, i + 1);
    FlattenSnoc(render, xs, i);
  }

  lemma Regroup(a: string, b: string, c: string, d: string)
    ensures a + (b + c + d) == (a + b) + c + d
  {
  }

  lemma TakeAll<T>(xs: seq<T>)
    ensures xs[..|xs|] == xs
  {
  }

  /** One turn of a `printout += ...` loop appends item `i`'s rendering. */
  lemma FlattenStep<T>(render: T -> string, heading: string, printout: string, xs: seq<T>, i: nat, line: string)
    requires i < |xs| && printout == heading + Flatten(render, xs[..i]) && line == render(xs[i])
    ensures printout + line == heading + Flatten(render, xs[..i + 1])
  {
    FlattenSnoc(render, xs, i);
  }

  lemma SliceOfFront<T>(a: seq<T>, b: seq<T>, lo: nat, hi: nat)
    requires lo <= hi <= |a|
    ensures (a + b)[lo..hi] == a[lo..hi]
  {
  }

  lemma SliceOfBack<T>(a: seq<T>, b: seq<T>, lo: nat, hi: nat)
    requires lo == |a| && hi == |a| + |b|
    ensures (a + b)[lo..hi] == b
  {
  }

  /** Renderings of one width `L` lie every `L` characters. */
  lemma {:induction false} FlattenLength<T>(render: T -> string, xs: seq<T>, L: nat)
    requires forall k :: 0 <= k < |xs| ==> |render(xs[k])| == L
    ensures |Flatten(render, xs)| == Times(|xs|, L)
  {
    if xs != [] {
      var n := |xs| - 1;
      assert forall k :: 0 <= k < n ==> xs[..n][k] == xs[k];
      FlattenLength(render, xs[..n], L);
    }
  }

  /** With every rendering `L` wide, item `i`'s rendering is the slice from `i * L` of length `L`. */
  lemma {:induction false} FlattenSlice<T>(render: T -> string, xs: seq<T>, L: nat, i: nat)
    requires forall k :: 0 <= k < |xs| ==> |render(xs[k])| == L
    requires i < |xs|
    ensures Times(i, L) + L <= |Flatten(render, xs)|
    ensures Flatten(render, xs)[Times(i, L)..Times(i, L) + L] == render(xs[i])
  {
    var n := |xs| - 1;
    var front := xs[..n];
    assert forall k :: 0 <= k < n ==> front[k] == xs[k];
    FlattenLength(render, front, L);
    FlattenLength(render, xs, L);
    if i < n {
      FlattenSlice(render, front, L, i);
      SliceOfFront(Flatten(render, front), render(xs[n]), Times(i, L), Times(i, L) + L);
    } else {
      SliceOfBack(Flatten(render, front), render(xs[n]), Times(i, L), Times(i, L) + L);
    }
  }

  // ---------------------------------------------------------------------------
  // The border (`out_put_builder`)
  // ---------------------------------------------------------------------------

  /** `c * n` in Python. */
  function Repeat(c: char, n: nat): (s: string)
    ensures |s| == n
  {
    if n == 0 then "" else Repeat(c, n - 1) + [c]
  }

  lemma {:induction false} RepeatChars(c: char, n: nat)
    ensures forall i :: 0 <= i < n ==> Repeat(c, n)[i] == c
  {
    if n > 0 {
      RepeatChars(c, n - 1);
    }
  }

  /** The length of the longest line of the grid, 0 for an empty grid. */
  function Longest(grid: seq<string>): nat {
    if grid == [] then 0
    else
      var w := Longest(grid[..|grid| - 1]);
      var last := |grid[|grid| - 1]|;
      if last > w then last else w
  }

  /** `longest_line` bounds every line and is the length of one of them (or 0 for no lines). */
  lemma {:induction false} LongestBounds(grid: seq<string>)
    ensures forall i :: 0 <= i < |grid| ==> |grid[i]| <= Longest(grid)
    ensures Longest(grid) == 0 || exists i :: 0 <= i < |grid| && |grid[i]| == Longest(grid)
  {
    if grid != [] {
      var n := |grid| - 1;
      LongestBounds(grid[..n]);
      if Longest(grid) != |grid[n]| && Longest(grid) != 0 {
        var i :| 0 <= i < n && |grid[..n][i]| == Longest(grid[..n]);
        assert |grid[i]| == Longest(grid);
      }
    }
  }

  function TopLine(w: nat): string {
    "\n__" + Repeat('_', w) + "__\n"
  }

  function EmptyLine(w: nat): string {
    "| " + Repeat(' ', w) + " |\n"
  }

  function BottomLine(w: nat): string {
    "|_" + Repeat('_', w) + "_|\n"
  }

  /** `text_line`: the item, padded with spaces to `w` (Python pads nothing when the item is longer). */
  function TextLine(item: string, w: nat): string {
    "| " + item + Repeat(' ', if |item| <= w then w - |item| else 0) + " |\n"
  }

  /** `text_line` for a longest line of `w`. */
  function Framed(w: nat): string -> string {
    (item: string) => TextLine(item, w)
  }

  /** One text line per grid line, in order. */
  function Body(grid: seq<string>, w: nat): string {
    Flatten(Framed(w), grid)
  }

  /** The framed card: top border, a blank line, the text lines, the bottom border. */
  function OutPut(grid: seq<string>): string {
    var w := Longest(grid);
    TopLine(w) + EmptyLine(w) + Body(grid, w) + BottomLine(w)
  }

  /** A text line holds its item at column 2, spaces up to the frame, and the frame. */
  lemma TextLineShape(item: string, w: nat)
    requires |item| <= w
    ensures var t := TextLine(item, w);
      && |t| == w + 5
      && t[..2] == "| " && t[2..2 + |item|] == item
      && (forall j :: 2 + |item| <= j < w + 2 ==> t[j] == ' ')
      && t[w + 2..] == " |\n"
  {
    var pad := Repeat(' ', w - |item|);
    RepeatChars(' ', w - |item|);
    var t := TextLine(item, w);
    assert t == "| " + item + pad + " |\n";
    assert t[w + 2..] == " |\n";
    forall j | 2 + |item| <= j < w + 2
      ensures t[j] == ' '
    {
      assert t[j] == pad[j - 2 - |item|];
    }
  }

  /** Each text line is `w + 5` characters, so the lines of the body start every `w + 5`. */
  lemma BodyLine(grid: seq<string>, w: nat, i: nat)
    requires forall k :: 0 <= k < |grid| ==> |grid[k]| <= w
    requires i < |grid|
    ensures Times(i, w + 5) + w + 5 <= |Body(grid, w)|
    ensures Body(grid, w)[Times(i, w + 5)..Times(i, w + 5) + w + 5] == TextLine(grid[i], w)
  {
    LinesWidth(grid, w);
    FlattenSlice(Framed(w), grid, w + 5, i);
  }

  lemma LinesWidth(grid: seq<string>, w: nat)
    requires forall k :: 0 <= k < |grid| ==> |grid[k]| <= w
    ensures forall k :: 0 <= k < |grid| ==> |Framed(w)(grid[k])| == w + 5
  {
    forall k | 0 <= k < |grid|
      ensures |Framed(w)(grid[k])| == w + 5
    {
      TextLineLength(grid[k], w);
    }
  }

  lemma TextLineLength(item: string, w: nat)
    requires |item| <= w
    ensures |TextLine(item, w)| == w + 5
  {
  }

  lemma BodyLength(grid: seq<string>, w: nat)
    requires forall k :: 0 <= k < |grid| ==> |grid[k]| <= w
    ensures |Body(grid, w)| == Times(|grid|, w + 5)
  {
    LinesWidth(grid, w);
    FlattenLength(Framed(w), grid, w + 5);
  }

  /** The framed card has `|grid| + 3` lines of `w + 5` characters after its leading line break. */
  lemma OutPutLength(grid: seq<string>)
    ensures |OutPut(grid)| == 1 + Times(|grid| + 3, Longest(grid) + 5)
  {
    var w := Longest(grid);
    LongestBounds(grid);
    BodyLength(grid, w);
    assert Times(|grid| + 3, w + 5) == Times(|grid|, w + 5) + 3 * (w + 5) by {
      assert Times(|grid| + 1, w + 5) == Times(|grid|, w + 5) + (w + 5);
      assert Times(|grid| + 2, w + 5) == Times(|grid| + 1, w + 5) + (w + 5);
    }
  }

  /** The longest-line loop of `out_put_builder`. */
  method LongestLine(grid: seq<string>) returns (longestLine: nat)
    ensures longestLine == Longest(grid)
  {
    longestLine := 0;
    for i := 0 to |grid|
      invariant longestLine == Longest(grid[..i])
    {
      assert grid[..i + 1][..i] == grid[..i];
      if |grid[i]| > longestLine {
        longestLine := |grid[i]|;
      }
    }
    assert grid[..|grid|] == grid;
  }

  /** `out_put_builder(grid)`: find the longest line, then frame the lines one by one. */
  method OutPutBuilder(grid: seq<string>) returns (output: string)
    ensures output == OutPut(grid)
  {
    var longestLine := LongestLine(grid);
    LongestBounds(grid);
    var topLine := "\n__" + Repeat('_', longestLine) + "__\n";
    var emptyLine := "| " + Repeat(' ', longestLine) + " |\n";
    var bottomLine := "|_" + Repeat('_', longestLine) + "_|\n";
    output := topLine + emptyLine;
    ghost var frame := output;
    for i := 0 to |grid|
      invariant output == frame + Body(grid[..i], longestLine)
    {
      var row := grid[i];
      var column := Lists.FirstIndexOf(grid, row);
      var whiteSpace := longestLine - |grid[column]|;
      var textLne := "| " + grid[column] + Repeat(' ', whiteSpace) + " |\n";
      FlattenStep(Framed(longestLine), frame, output, grid, i, textLne);
      output := output + textLne;
    }
    TakeAll(grid);
    assert frame == TopLine(longestLine) + EmptyLine(longestLine);
    output := output + bottomLine;
  }

  // ---------------------------------------------------------------------------
  // Cards and decks (`card_displayer`, `display_deck`)
  // ---------------------------------------------------------------------------

  /** Every line of a card cut at `r > 0` is at most `r + 1` wide (a cut plus its hyphen). */
  lemma {:induction false} WrapLinesWidth(lines: seq<string>, r: nat)
    requires r > 0
    ensures forall k :: 0 <= k < |WrapLines(lines, r).value| ==> |WrapLines(lines, r).value[k]| <= r + 1
  {
    if lines != [] {
      var n := |lines| - 1;
      WrapLinesWidth(lines[..n], r);
      var itm := lines[n];
      if |itm| > r {
        WrapLineShape(itm, r);
      }
    }
  }

  /** `card_displayer(card)`: the card's text cut at 80 characters and framed. */
  function CardText(card: string): string {
    OutPut(GridOf(card, RowLen).value)
  }

  method CardDisplayer(card: string) returns (boxed: string)
    ensures boxed == CardText(card)
  {
    var grid := GridBuilder(card, RowLen);
    boxed := OutPutBuilder(grid.value);
  }

  /** A framed card is never wider than 80 characters of text plus a hyphen. */
  lemma CardWidth(card: string)
    ensures Longest(GridOf(card, RowLen).value) <= RowLen + 1
  {
    WrapLinesWidth(Split(card, "\n"), RowLen);
    LongestBounds(GridOf(card, RowLen).value);
  }

  /** A one-line card of at most 80 characters is not cut. */
  lemma ShortGrid(card: string)
    requires |card| <= RowLen && '\n' !in card
    ensures GridOf(card, RowLen) == Ok([card])
  {
    SplitCharNone(card, '\n');
    ShortLinesKept([card], RowLen);
  }

  /** A one-line card of at most 80 characters is framed as it is, in four lines of its width plus 5. */
  lemma ShortCard(card: string)
    requires |card| <= RowLen && '\n' !in card
    ensures CardText(card) == OutPut([card])
    ensures |CardText(card)| == 1 + Times(4, |card| + 5)
  {
    ShortGrid(card);
    OutPutLength([card]);
    assert Longest([card]) == |card|;
  }

  /** One pair of the printout: the front, an arrow pointing down, the back, each side framed. */
  function Entry(front: string, back: string): string {
    CardText(front) + "   |\n   V" + CardText(back) + "\n"
  }

  function CardEntry(card: Card): string {
    Entry(card.front, card.back)
  }

  /** `display_deck(deck)`: a "Front"/"Back" heading pair, then every card in the deck's order. */
  function DeckText(deck: seq<Card>): string {
    Entry("Front", "Back") + Flatten(CardEntry, deck)
  }

  /** The printout holds card `i`'s pair after the heading and the cards before it. */
  lemma DeckEntryAt(deck: seq<Card>, i: nat)
    requires i < |deck|
    ensures DeckText(deck) ==
      DeckText(deck[..i]) + Entry(deck[i].front, deck[i].back) + Flatten(CardEntry, deck[i + 1..])
  {
    FlattenAt(CardEntry, deck, i);
    Regroup(Entry("Front", "Back"), Flatten(CardEntry, deck[..i]), CardEntry(deck[i]), Flatten(CardEntry, deck[i + 1..]));
  }

  /** `display_deck(deck)`: the heading pair, then one pair per card. */
  method DisplayDeck(deck: seq<Card>) returns (printout: string)
    ensures printout == DeckText(deck)
  {
    var front := CardDisplayer("Front");
    var back := CardDisplayer("Back");
    printout := front + "   |\n   V" + back + "\n";
    printout := DisplayPairs(printout, deck);
  }

  /** The `for` loop of `display_deck`: append each card's pair to the printout so far. */
  method DisplayPairs(heading: string, deck: seq<Card>) returns (printout: string)
    ensures printout == heading + Flatten(CardEntry, deck)
  {
    printout := heading;
    for i := 0 to |deck|
      invariant printout == heading + Flatten(CardEntry, deck[..i])
    {
      var key := CardDisplayer(deck[i].front);
      var value := CardDisplayer(deck[i].back);
      var line := key + "   |\n   V" + value + "\n";
      FlattenStep(CardEntry, heading, printout, deck, i, line);
      printout := printout + line;
    }
    TakeAll(deck);
  }

  // ---------------------------------------------------------------------------
  // Worked cases
  // ---------------------------------------------------------------------------

  /** An empty line is framed in a box two spaces wide. */
  lemma EmptyLineBoxed()
    ensures OutPut([""]) == "\n____\n|  |\n|  |\n|__|\n"
  {
  }

  /** An empty card is one empty line, whatever the width. */
  lemma EmptyCardGrid(r: nat)
    ensures GridOf("", r) == Ok([""])
  {
    assert "\n" == ['\n'];
    SplitCharNone("", '\n');
    ShortLinesKept([""], r);
  }

  /** Three line breaks give four empty lines, whatever the width. */
  lemma BreaksGrid(r: nat)
    ensures GridOf("\n\n\n", r) == Ok(["", "", "", ""])
  {
    var nl := ['\n'];
    var t1 := "" + nl + "";
    var t2 := "" + nl + t1;
    var t3 := "" + nl + t2;
    SplitCharNone("", '\n');
    SplitAtFirst("", '\n', "");
    assert Split(t1, nl) == ["", ""];
    SplitAtFirst("", '\n', t1);
    assert Split(t2, nl) == ["", "", ""];
    SplitAtFirst("", '\n', t2);
    assert Split(t3, nl) == ["", "", "", ""];
    assert t3 == "\n\n\n" && nl == "\n";
    ShortLinesKept(["", "", "", ""], r);
  }

  /** A line that fits, followed by a line break, gives the line and then an empty one. */
  lemma TrailingBreakGrid(line: string, r: nat)
    requires '\n' !in line && |line| <= r
    ensures GridOf(line + "\n", r) == Ok([line, ""])
  {
    assert "\n" == ['\n'];
    assert line + "\n" == line + ['\n'] + "";
    SplitAround(line, '\n', "");
    ShortLinesKept([line, ""], r);
  }

  /** `"ABC"` at width 1 is cut into four pieces, the last one repeated. */
  lemma ShortestWidthGrid()
    ensures GridOf("ABC", 1).Ok? && |GridOf("ABC", 1).value| == 4
    ensures GridOf("ABC", 1).value[2] == GridOf("ABC", 1).value[3]
  {
    assert "\n" == ['\n'];
    SplitCharNone("ABC", '\n');
    assert ["ABC"][..0] == [];
    TailRepeats("ABC", 1);
  }
}
