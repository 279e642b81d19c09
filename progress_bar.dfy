/**
 * ProgressBar.cs: a console progress bar that redraws itself by writing only
 * the difference between the text on screen and the new text. The console is
 * modelled by the string of everything written to it, and the terminal line
 * by a row of cells and a cursor on which that string is replayed.
 */
module ProgressBars {

  const Backspace: char := 8 as char
  /** The spinner of TimerHandler. */
  const Animation: string := "|/-\\"

  /** `n` copies of `c`; StringBuilder.Append(c, n). */
  function Repeat(c: char, n: nat): (s: string)
    ensures |s| == n && forall i :: 0 <= i < n ==> s[i] == c
  {
    if n == 0 then [] else [c] + Repeat(c, n - 1)
  }

  /** The length of the longest common prefix of `a` and `b`. */
  function CommonPrefixLength(a: string, b: string): (p: nat)
    ensures p <= |a| && p <= |b| && a[..p] == b[..p]
    ensures p == |a| || p == |b| || a[p] != b[p]
  {
    if |a| == 0 || |b| == 0 || a[0] != b[0] then 0
    else
      var p := 1 + CommonPrefixLength(a[1..], b[1..]);
      assert a[..p] == [a[0]] + a[1..][..p - 1] && b[..p] == [b[0]] + b[1..][..p - 1];
      p
  }

  /** Any common prefix that cannot be extended is the longest one. */
  lemma {:induction false} CommonPrefixUnique(a: string, b: string, p: nat)
    requires p <= |a| && p <= |b| && a[..p] == b[..p]
    requires p == |a| || p == |b| || a[p] != b[p]
    ensures p == CommonPrefixLength(a, b)
  {
    if p > 0 {
      assert a[0] == a[..p][0] && b[0] == b[..p][0];
      assert a[1..][..p - 1] == a[..p][1..] && b[1..][..p - 1] == b[..p][1..];
      CommonPrefixUnique(a[1..], b[1..], p - 1);
    }
  }

  /**
   * What UpdateText writes to go from `current` to `text`: a backspace for
   * every character after the common prefix, the rest of the new text, and,
   * when the new text is shorter, blanks over the leftover characters and as
   * many backspaces.
   */
  function Redraw(current: string, text: string): string
  {
    if |current| > |text| then Rewrite(current, text) + Blank(|current| - |text|) else Rewrite(current, text)
  }

  /** Back to the end of the common prefix, then the rest of the new text. */
  function Rewrite(current: string, text: string): string
  {
    var p := CommonPrefixLength(current, text);
    Repeat(Backspace, |current| - p) + text[p..]
  }

  /** `n` blanks, then `n` backspaces to return over them. */
  function Blank(n: nat): string
  {
    Repeat(' ', n) + Repeat(Backspace, n)
  }

  /** Redrawing a text over itself writes nothing. */
  lemma RedrawSame(text: string)
    ensures Redraw(text, text) == ""
  {
    CommonPrefixUnique(text, text, |text|);
  }

  /** A terminal line: its cells and the cursor column. */
  datatype Line = Line(cells: seq<char>, cursor: nat)

  /** The cursor is on a cell or just after the last one. */
  predicate LineOk(l: Line)
  {
    l.cursor <= |l.cells|
  }

  /** A terminal receiving one character: a backspace moves left, any other character overwrites and moves right. */
  function Put(l: Line, c: char): (r: Line)
    requires LineOk(l)
    ensures LineOk(r)
  {
    if c == Backspace then Line(l.cells, if l.cursor > 0 then l.cursor - 1 else 0)
    else if l.cursor < |l.cells| then Line(l.cells[l.cursor := c], l.cursor + 1)
    else Line(l.cells + [c], l.cursor + 1)
  }

  /** A terminal receiving a string. */
  function Replay(l: Line, s: string): (r: Line)
    requires LineOk(l)
    ensures LineOk(r)
    decreases |s|
  {
    if s == [] then l else Replay(Put(l, s[0]), s[1..])
  }

  /** The line shows `text` from the first column, then only blanks, with the cursor after `text`. */
  ghost predicate Shows(l: Line, text: string)
  {
    l.cursor == |text| <= |l.cells| && l.cells[..|text|] == text
    && forall i :: |text| <= i < |l.cells| ==> l.cells[i] == ' '
  }

  /** A text without backspaces, as the progress bar's texts are. */
  predicate Plain(s: string)
  {
    forall i :: 0 <= i < |s| ==> s[i] != Backspace
  }

  lemma {:induction false} ReplayConcat(l: Line, a: string, b: string)
    requires LineOk(l)
    ensures Replay(l, a + b) == Replay(Replay(l, a), b)
    decreases |a|
  {
    if a == [] {
      assert a + b == b;
    } else {
      assert (a + b)[0] == a[0] && (a + b)[1..] == a[1..] + b;
      ReplayConcat(Put(l, a[0]), a[1..], b);
    }
  }

  /** `k` backspaces move the cursor `k` cells left and change no cell. */
  lemma {:induction false} ReplayBackspaces(l: Line, k: nat)
    requires LineOk(l) && k <= l.cursor
    ensures Replay(l, Repeat(Backspace, k)) == Line(l.cells, l.cursor - k)
    decreases k
  {
    if k > 0 {
      var s := Repeat(Backspace, k);
      assert s[1..] == Repeat(Backspace, k - 1);
      ReplayBackspaces(Put(l, Backspace), k - 1);
    }
  }

  /** `w` was written over `before` from column `c` on. */
  ghost predicate Overwritten(before: seq<char>, cells: seq<char>, c: nat, w: string)
  {
    c <= |before|
    && |cells| == (if c + |w| <= |before| then |before| else c + |w|)
    && (forall i :: 0 <= i < c && i < |cells| ==> cells[i] == before[i])
    && (forall i :: c <= i < c + |w| && i < |cells| ==> cells[i] == w[i - c])
    && (forall i :: c + |w| <= i < |before| ==> cells[i] == before[i])
  }

  /** Writing a plain string overwrites from the cursor on and leaves the cursor after it. */
  lemma {:induction false} ReplayPlain(l: Line, w: string)
    requires LineOk(l) && Plain(w)
    ensures Replay(l, w).cursor == l.cursor + |w|
    ensures Overwritten(l.cells, Replay(l, w).cells, l.cursor, w)
    decreases |w|
  {
    if w != [] {
      var l' := Put(l, w[0]);
      assert Plain(w[1..]) by {
        forall i | 0 <= i < |w[1..]| ensures w[1..][i] != Backspace { assert w[1..][i] == w[i + 1]; }
      }
      ReplayPlain(l', w[1..]);
      var r := Replay(l', w[1..]);
      assert r == Replay(l, w);
      forall i | l.cursor <= i < l.cursor + |w| && i < |r.cells| ensures r.cells[i] == w[i - l.cursor] {
        if i > l.cursor {
          assert r.cells[i] == w[1..][i - l'.cursor];
        }
      }
    }
  }

  /** The prefix `text[p..]` of a plain text is plain. */
  lemma PlainSuffix(text: string, p: nat)
    requires Plain(text) && p <= |text|
    ensures Plain(text[p..])
  {
    forall i | 0 <= i < |text[p..]| ensures text[p..][i] != Backspace {
      assert text[p..][i] == text[p + i];
    }
  }

  /**
   * After the backspaces and the rest of the new text, the line starts with
   * the new text, the cursor is after it, and the cells past both texts are
   * still blank.
   */
  lemma {:induction false} RewriteShows(l: Line, current: string, text: string) returns (l2: Line)
    requires LineOk(l) && Shows(l, current) && Plain(text)
    ensures l2 == Replay(l, Rewrite(current, text))
    ensures LineOk(l2) && l2.cursor == |text| && |current| <= |l2.cells| && l2.cells[..|text|] == text
    ensures forall i :: |text| <= i < |current| ==> l2.cells[i] == current[i]
    ensures forall i :: |current| <= i < |l2.cells| && |text| <= i ==> l2.cells[i] == ' '
  {
    var p := CommonPrefixLength(current, text);
    ReplayConcat(l, Repeat(Backspace, |current| - p), text[p..]);
    ReplayBackspaces(l, |current| - p);
    var l1 := Line(l.cells, p);
    PlainSuffix(text, p);
    ReplayPlain(l1, text[p..]);
    l2 := Replay(l1, text[p..]);
    RewriteCells(l.cells, l2.cells, current, text, p);
  }

  /**
   * The cells after the rest of the new text is written from the end of the
   * common prefix over cells that showed the old text followed by blanks.
   */
  lemma RewriteCells(before: seq<char>, cells: seq<char>, current: string, text: string, p: nat)
    requires |current| <= |before| && before[..|current|] == current
    requires forall i :: |current| <= i < |before| ==> before[i] == ' '
    requires p <= |current| && p <= |text| && current[..p] == text[..p]
    requires Overwritten(before, cells, p, text[p..])
    ensures |current| <= |cells| && |text| <= |cells| && cells[..|text|] == text
    ensures forall i :: |text| <= i < |current| ==> cells[i] == current[i]
    ensures forall i :: |current| <= i < |cells| && |text| <= i ==> cells[i] == ' '
  {
    forall i | 0 <= i < |text| ensures cells[i] == text[i] {
      if i < p {
        assert before[i] == before[..|current|][i] == current[i] == current[..p][i] == text[..p][i];
      } else {
        assert cells[i] == text[p..][i - p];
      }
    }
    forall i | |text| <= i < |current| ensures cells[i] == current[i] {
      assert before[i] == before[..|current|][i];
    }
  }

  /**
   * Blanking the leftover of a longer old text: spaces over the cells
   * `|text|..|current|-1`, then as many backspaces, leave the line showing `text`.
   */
  lemma {:induction false} BlankShows(l2: Line, current: string, text: string)
    requires LineOk(l2) && |text| < |current| <= |l2.cells| && l2.cursor == |text| && l2.cells[..|text|] == text
    requires forall i :: |current| <= i < |l2.cells| ==> l2.cells[i] == ' '
    ensures Shows(Replay(l2, Blank(|current| - |text|)), text)
  {
    var overlap := |current| - |text|;
    var spaces := Repeat(' ', overlap);
    ReplayConcat(l2, spaces, Repeat(Backspace, overlap));
    ReplayPlain(l2, spaces);
    var l3 := Replay(l2, spaces);
    ReplayBackspaces(l3, overlap);
    forall i | 0 <= i < |text| ensures l3.cells[i] == text[i] {
      assert l2.cells[i] == l2.cells[..|text|][i];
    }
    assert l3.cells[..|text|] == text;
  }

  /**
   * The redraw is right: replayed on a line that shows the old text, what
   * UpdateText writes leaves the line showing the new text, followed only by
   * blanks, with the cursor just after it.
   */
  lemma RedrawShows(l: Line, current: string, text: string)
    requires LineOk(l) && Shows(l, current) && Plain(text)
    ensures Shows(Replay(l, Redraw(current, text)), text)
  {
    var l2 := RewriteShows(l, current, text);
    if |current| > |text| {
      ReplayConcat(l, Rewrite(current, text), Blank(|current| - |text|));
      BlankShows(l2, current, text);
    }
  }

  lemma ConcatAssociative(a: string, b: string, c: string)
    ensures a + b + c == a + (b + c)
  {
  }

  /** The loop at the head of UpdateText: counts the characters the two texts share from the start. */
  method CountCommonPrefix(currentText: string, text: string) returns (commonPrefixLength: nat)
    ensures commonPrefixLength == CommonPrefixLength(currentText, text)
  {
    commonPrefixLength := 0;
    var commonLength := if |currentText| < |text| then |currentText| else |text|;
    while commonPrefixLength < commonLength && text[commonPrefixLength] == currentText[commonPrefixLength]
      invariant 0 <= commonPrefixLength <= commonLength
      invariant text[..commonPrefixLength] == currentText[..commonPrefixLength]
    {
      commonPrefixLength := commonPrefixLength + 1;
    }
    CommonPrefixUnique(currentText, text, commonPrefixLength);
  }

  class ProgressBar {
    var currentText: string
    var disposed: bool
    var animationIndex: int
    /** Everything written to the console so far. */
    var console: string
    /** The terminal line the console writes are replayed on. */
    ghost var screen: Line

    /** The screen is the replay of the console on an empty line. */
    ghost predicate Valid()
      reads this
    {
      screen == Replay(Line([], 0), console)
    }

    /** The screen shows the current text. */
    ghost predicate Displays()
      reads this
    {
      Shows(screen, currentText)
    }

    /** The constructor: nothing shown yet; the timer is not modelled. */
    constructor ()
      ensures Valid() && Displays()
      ensures currentText == "" && !disposed && console == "" && animationIndex == 0
    {
      currentText := "";
      disposed := false;
      animationIndex := 0;
      console := "";
      screen := Line([], 0);
    }

    /**
     * UpdateText: writes the difference between the shown text and `text`
     * and remembers `text` as shown. A plain text is then what the screen shows.
     */
    method UpdateText(text: string)
      requires Valid()
      modifies this
      ensures Valid()
      ensures console == old(console) + Redraw(old(currentText), text) && currentText == text
      ensures disposed == old(disposed) && animationIndex == old(animationIndex)
      ensures old(Displays()) && Plain(text) ==> Displays()
    {
      var commonPrefixLength := CountCommonPrefix(currentText, text);
      var output := Repeat(Backspace, |currentText| - commonPrefixLength);
      output := output + text[commonPrefixLength..];
      assert output == Rewrite(currentText, text);
      var overlapCount := |currentText| - |text|;
      if overlapCount > 0 {
        output := output + Repeat(' ', overlapCount);
        output := output + Repeat(Backspace, overlapCount);
        ConcatAssociative(Rewrite(currentText, text), Repeat(' ', overlapCount), Repeat(Backspace, overlapCount));
      }
      assert output == Redraw(currentText, text);
      ghost var before := screen;
      if Shows(screen, currentText) && Plain(text) {
        RedrawShows(screen, currentText, text);
      }
      ReplayConcat(Line([], 0), console, output);
      console := console + output;
      screen := Replay(before, output);
      currentText := text;
    }

    /**
     * TimerHandler: unless disposed, shows `head` (the bar and the percentage,
     * which come from the floating-point progress) followed by the next
     * spinner character. After Dispose it changes nothing.
     */
    method TimerHandler(head: string)
      requires Valid()
      modifies this
      ensures Valid()
      ensures old(disposed) ==> console == old(console) && currentText == old(currentText)
                                && animationIndex == old(animationIndex) && disposed
      ensures !old(disposed) ==>
        var text := head + [Animation[old(animationIndex) % |Animation|]];
        !disposed && currentText == text && animationIndex == old(animationIndex) + 1
        && console == old(console) + Redraw(old(currentText), text)
    {
      if disposed {
        return;
      }
      var text := head + [Animation[animationIndex % |Animation|]];
      animationIndex := animationIndex + 1;
      UpdateText(text);
    }

    /** Dispose: marks the bar disposed and redraws it as the empty text, which blanks the line. */
    method Dispose()
      requires Valid()
      modifies this
      ensures Valid() && disposed && currentText == ""
      ensures console == old(console) + Redraw(old(currentText), "")
      ensures old(Displays()) ==> Displays() && forall i :: 0 <= i < |screen.cells| ==> screen.cells[i] == ' '
    {
      disposed := true;
      UpdateText("");
    }
  }
}
