/** The program text: `'\n'.join(''.join(r) for r in prog)`. */
module Render {

  /** What `print_prog` prints for a grid: `'\n'.join(''.join(r) for r in prg)`, each row's
      symbols with one newline between consecutive rows. */
  function Text(grid: seq<seq<char>>): (t: string)
    ensures |grid| >= 1 ==> |t| == Symbols(grid) + |grid| - 1
  {
    if |grid| == 0 then ""
    else if |grid| == 1 then grid[0]
    else grid[0] + "\n" + Text(grid[1..])
  }

  /** The number of symbols in a grid, over all its rows. */
  function Symbols(grid: seq<seq<char>>): nat {
    if grid == [] then 0 else |grid[0]| + Symbols(grid[1..])
  }

  /** `s.split('\n')`: the pieces between newlines; the empty string is one empty piece. */
  function Split(s: string): (parts: seq<string>)
    ensures |parts| >= 1
  {
    if s == [] then [[]]
    else
      var rest := Split(s[1..]);
      if s[0] == '\n' then [[]] + rest else [[s[0]] + rest[0]] + rest[1..]
  }

  predicate NoNewline(s: string) {
    forall k :: 0 <= k < |s| ==> s[k] != '\n'
  }

  /** A piece without newlines splits into itself, and a newline after it starts a new piece. */
  lemma {:induction false} SplitPiece(a: string, b: string)
    requires NoNewline(a)
    ensures Split(a) == [a]
    ensures Split(a + "\n" + b) == [a] + Split(b)
  {
    if a != [] {
      SplitPiece(a[1..], b);
      assert (a + "\n" + b)[1..] == a[1..] + "\n" + b;
      assert [a[0]] + a[1..] == a;
    } else {
      assert a + "\n" + b == "\n" + b;
    }
  }

  /** Splitting the printed text on newlines gives back the grid, row for row. */
  lemma {:induction false} SplitText(grid: seq<seq<char>>)
    requires |grid| >= 1
    requires forall i :: 0 <= i < |grid| ==> NoNewline(grid[i])
    ensures Split(Text(grid)) == grid
  {
    SplitPiece(grid[0], []);
    if |grid| > 1 {
      SplitText(grid[1..]);
      SplitPiece(grid[0], Text(grid[1..]));
    }
  }

  /** The length of the text: every symbol plus one newline between rows. */
  lemma {:induction false} TextLength(grid: seq<seq<char>>, width: nat)
    requires |grid| >= 1
    requires forall i :: 0 <= i < |grid| ==> |grid[i]| == width
    ensures |Text(grid)| == |grid| * (width + 1) - 1
  {
    if |grid| > 1 {
      TextLength(grid[1..], width);
    }
  }
}
