/**
 * The two frame builders of the 16x2 character display: the progress bar
 * drawn while the timer runs, and the scrolling marquee shown when it is
 * idle. Each builds one line of `LcdWidth` characters followed by the C
 * string terminator; writing the line to the display is not modelled.
 */
module LcdDisplay {

  const LcdWidth: nat := 16
  const ProgressBarWidth: nat := LcdWidth - 2

  /** The terminator the frame buffers carry after their `LcdWidth` cells. */
  const Nul: char := 0 as char

  /** C's integer division, which truncates toward zero. */
  function CDiv(a: int, b: int): (q: int)
    requires b > 0
    // the quotient rounds toward zero: down for a non-negative dividend, up for a negative one
    ensures 0 <= a ==> 0 <= q && q * b <= a < q * b + b
    ensures a < 0 ==> q <= 0 && q * b - b < a <= q * b
  {
    if a >= 0 then a / b else -((-a) / b)
  }

  function Repeat(c: char, n: nat): (s: string)
    ensures |s| == n
    ensures forall i :: 0 <= i < n ==> s[i] == c
  {
    seq(n, _ => c)
  }

  /** Occurrences of `c` in `s`. */
  function Count(s: string, c: char): nat
  {
    if s == [] then 0 else (if s[0] == c then 1 else 0) + Count(s[1..], c)
  }

  // ---------------------------------------------------------------------
  // Progress bar
  // ---------------------------------------------------------------------

  /** The `bar_length` of the progress bar: `percent * 14 / 100` in C. */
  function BarLength(percent: int): (n: int)
    ensures percent <= 0 ==> n <= 0
    ensures 0 <= percent ==> 0 <= n && n * 100 <= percent * ProgressBarWidth < n * 100 + 100
    ensures percent >= 100 ==> n >= ProgressBarWidth
  {
    CDiv(percent * ProgressBarWidth, 100)
  }

  /** How many of the bar's cells the frame fills: `bar_length` cut to the bar. */
  function Filled(percent: int): (n: nat)
    ensures n <= ProgressBarWidth
    ensures percent <= 0 ==> n == 0
    ensures percent >= 100 ==> n == ProgressBarWidth
    ensures 0 <= percent <= 100 ==> n == percent * ProgressBarWidth / 100
  {
    var b := BarLength(percent);
    if b <= 0 then 0 else if b >= ProgressBarWidth then ProgressBarWidth else b
  }

  /**
   * Reference layout of the progress-bar line: a border, a run of `#`
   * for the filled part, a run of blanks for the rest, a border.
   */
  function ProgressFrame(percent: int): (f: string)
    ensures |f| == LcdWidth
    ensures f[0] == '|' && f[LcdWidth - 1] == '|'
  {
    "|" + Repeat('#', Filled(percent)) + Repeat(' ', ProgressBarWidth - Filled(percent)) + "|"
  }

  /** Cell `i` of the bar is filled exactly when `i <= bar_length`. */
  lemma ProgressFrameCell(percent: int, i: int)
    requires 0 < i < LcdWidth - 1
    ensures ProgressFrame(percent)[i] == (if i <= BarLength(percent) then '#' else ' ')
  {
  }

  /**
   * Builds the progress-bar line as the display code does, cell by cell
   * into a fresh buffer of `LcdWidth + 1` characters. The frame depends on
   * `percent` alone, so equal percentages give identical frames.
   */
  method RenderProgressBar(percent: int) returns (bar: array<char>)
    ensures fresh(bar)
    ensures bar.Length == LcdWidth + 1
    ensures bar[..LcdWidth] == ProgressFrame(percent)
    ensures bar[LcdWidth] == Nul
  {
    var barLength := CDiv(percent * ProgressBarWidth, 100);
    bar := new char[LcdWidth + 1];
    bar[0] := '|';
    bar[LcdWidth - 1] := '|';
    for i := 1 to LcdWidth - 1
      invariant bar[0] == '|' && bar[LcdWidth - 1] == '|'
      invariant forall j :: 1 <= j < i ==> bar[j] == ProgressFrame(percent)[j]
    {
      bar[i] := if i <= barLength then '#' else ' ';
      ProgressFrameCell(percent, i);
    }
    bar[LcdWidth] := Nul;
  }

  lemma {:induction false} CountConcat(a: string, b: string, c: char)
    ensures Count(a + b, c) == Count(a, c) + Count(b, c)
  {
    if a != [] {
      assert (a + b)[1..] == a[1..] + b;
      CountConcat(a[1..], b, c);
    } else {
      assert a + b == b;
    }
  }

  lemma {:induction false} CountRepeat(d: char, n: nat, c: char)
    ensures Count(Repeat(d, n), c) == if c == d then n else 0
  {
    if n > 0 {
      assert Repeat(d, n)[1..] == Repeat(d, n - 1);
      CountRepeat(d, n - 1, c);
    }
  }

  /** The bar shows exactly `Filled(percent)` cells of `#`. */
  lemma FilledCells(percent: int)
    ensures Count(ProgressFrame(percent), '#') == Filled(percent)
  {
    var f := Filled(percent);
    var hashes, blanks := Repeat('#', f), Repeat(' ', ProgressBarWidth - f);
    CountConcat("|", hashes, '#');
    CountConcat("|" + hashes, blanks, '#');
    CountConcat("|" + hashes + blanks, "|", '#');
    CountRepeat('#', f, '#');
    CountRepeat(' ', ProgressBarWidth - f, '#');
  }

  /** A full percentage fills every cell of the bar; zero fills none. */
  lemma ProgressFrameExtremes()
    ensures ProgressFrame(100) == "|##############|"
    ensures ProgressFrame(0) == "|              |"
  {
  }

  lemma BarLengthMonotone(p: int, q: int)
    requires p <= q
    ensures BarLength(p) <= BarLength(q)
  {
  }

  /**
   * A larger percentage never shows fewer cells: every cell filled at `p`
   * is filled at `q >= p`, and so the count of `#` cells cannot drop.
   */
  lemma ProgressFrameMonotone(p: int, q: int)
    requires p <= q
    ensures Filled(p) <= Filled(q)
    ensures Count(ProgressFrame(p), '#') <= Count(ProgressFrame(q), '#')
    ensures forall i :: 0 <= i < LcdWidth && ProgressFrame(p)[i] == '#' ==> ProgressFrame(q)[i] == '#'
  {
    BarLengthMonotone(p, q);
    FilledCells(p);
    FilledCells(q);
    forall i | 0 <= i < LcdWidth && ProgressFrame(p)[i] == '#'
      ensures ProgressFrame(q)[i] == '#'
    {
      ProgressFrameCell(p, i);
      ProgressFrameCell(q, i);
    }
  }

  // ---------------------------------------------------------------------
  // Scrolling marquee
  // ---------------------------------------------------------------------

  /**
   * Reference layout of one marquee frame: the text from `pos` on, cut to
   * the line width, padded with blanks. The text does not wrap around.
   */
  function ScrollWindow(text: string, pos: nat): (w: string)
    ensures |w| == LcdWidth
  {
    var rest := if pos < |text| then text[pos..] else "";
    var shown := if |rest| < LcdWidth then rest else rest[..LcdWidth];
    shown + Repeat(' ', LcdWidth - |shown|)
  }

  /** Cell `i` of a frame is the text's character `i + pos`, or a blank past its end. */
  lemma ScrollWindowCell(text: string, pos: nat, i: int)
    requires 0 <= i < LcdWidth
    ensures ScrollWindow(text, pos)[i] == if i + pos < |text| then text[i + pos] else ' '
  {
  }

  /** The window position of the next frame. */
  function NextPos(pos: int, len: int): (p: int)
    requires 0 <= pos < len
    ensures 0 <= p < len
    // the window returns to the start of the text exactly after its last position
    ensures p == 0 <==> pos == len - 1
    ensures p != 0 ==> p == pos + 1
  {
    (pos + 1) % len
  }

  /** A remainder is determined by any decomposition `a == q * len + r`. */
  lemma ModOfDecomposition(a: int, q: int, r: int, len: int)
    requires len > 0 && 0 <= r < len && a == q * len + r
    ensures a % len == r
  {
    var q', r' := a / len, a % len;
    assert q * len - q' * len == r' - r;
    if q' < q {
      MulAtLeast(q - q', len);
    } else if q < q' {
      MulAtLeast(q' - q, len);
    }
  }

  lemma MulAtLeast(x: int, len: int)
    requires x >= 1 && len > 0
    ensures x * len >= len
  {
  }

  /** After `k` frames from position 0 the window stands at `k % len`. */
  lemma NextPosAfter(k: nat, len: int)
    requires len > 0
    ensures NextPos(k % len, len) == (k + 1) % len
  {
    var q, r := k / len, k % len;
    if r + 1 < len {
      ModOfDecomposition(k + 1, q, r + 1, len);
    } else {
      ModOfDecomposition(k + 1, q + 1, 0, len);
    }
  }

  /** Fills one marquee frame into the reused display buffer. */
  method FillWindow(display: array<char>, text: string, pos: int)
    requires display.Length == LcdWidth + 1
    requires 0 <= pos
    modifies display
    ensures display[..LcdWidth] == ScrollWindow(text, pos)
    ensures display[LcdWidth] == Nul
  {
    var len := |text|;
    for i := 0 to LcdWidth
      invariant forall j :: 0 <= j < i ==> display[j] == ScrollWindow(text, pos)[j]
    {
      display[i] := if i + pos < len then text[i + pos] else ' ';
      ScrollWindowCell(text, pos, i);
    }
    display[LcdWidth] := Nul;
  }

  /**
   * The marquee: shows successive frames of `text`, one position further
   * each time, and after each frame polls the buttons; it stops after the
   * first frame whose poll saw a button held. `pressedAfter[k]` is the
   * outcome of the poll after frame `k`; the model stops when these
   * observations run out. The frames shown are returned in order.
   */
  method ScrollText(text: string, pressedAfter: seq<bool>) returns (frames: seq<string>)
    requires |text| > 0
    ensures |frames| <= |pressedAfter|
    ensures forall k :: 0 <= k < |frames| ==> frames[k] == ScrollWindow(text, k % |text|)
    // it does not stop before a poll sees a button ...
    ensures forall k :: 0 <= k < |frames| - 1 ==> !pressedAfter[k]
    // ... and it stops at the first one that does
    ensures |frames| < |pressedAfter| ==> 0 < |frames| && pressedAfter[|frames| - 1]
  {
    var display := new char[LcdWidth + 1];
    var len := |text|;
    var pos := 0;
    frames := [];
    while |frames| < |pressedAfter|
      invariant |frames| <= |pressedAfter|
      invariant pos == |frames| % len
      invariant forall k :: 0 <= k < |frames| ==> frames[k] == ScrollWindow(text, k % len)
      invariant forall k :: 0 <= k < |frames| ==> !pressedAfter[k]
    {
      FillWindow(display, text, pos);
      frames := frames + [display[..LcdWidth]];
      NextPosAfter(|frames| - 1, len);
      pos := NextPos(pos, len);
      if pressedAfter[|frames| - 1] {
        break;
      }
    }
  }
}
