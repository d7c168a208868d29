/** The text grid_as_string produces: 9 lines of 9 cell characters joined by
    newlines, with no newline at the end. */
module Render {
  import opened Board

  /** The character written for cell value v: '1' + v, so '1'..'9' for a digit. */
  function CellChar(v: int): (c: char)
    requires Empty <= v <= 8
    ensures c as int - '1' as int == v
    ensures v != Empty ==> '1' <= c <= '9'
    ensures c != '\n'
  {
    ('1' as int + v) as char
  }

  /** Position p of the text: a newline when p % 10 == 9, otherwise the cell in
      row p / 10 and column p % 10. */
  function RenderedAt(g: seq<int>, p: int): (c: char)
    requires IsGrid(g) && 0 <= p < 89
    ensures c == '\n' <==> p % 10 == 9
  {
    if p % 10 == 9 then '\n' else CellChar(g[p / 10 * 9 + p % 10])
  }

  /** r is the rendering of g. */
  ghost predicate IsRendering(r: string, g: seq<int>): (b: bool)
    requires IsGrid(g)
    ensures b ==> |r| == 89 && forall p :: 0 <= p < 89 ==> (r[p] == '\n' <==> p % 10 == 9)
  {
    |r| == 89 && forall p :: 0 <= p < 89 ==> r[p] == RenderedAt(g, p)
  }

  /** Reads the grid back from a rendering: cell k sits at position k + k / 9. */
  function ParseRendering(r: string): (g: seq<int>)
    requires |r| == 89
    ensures |g| == 81
  {
    seq(81, k requires 0 <= k < 81 => r[k + k / 9] as int - '1' as int)
  }

  lemma Split10(p: int, a: int, b: int)
    requires 0 <= b < 10 && p == 10 * a + b
    ensures p / 10 == a && p % 10 == b
  {
  }

  /** Cell k of g is written at position k + k / 9. */
  lemma RenderingCell(r: string, g: seq<int>, k: int)
    requires IsGrid(g) && IsRendering(r, g) && IsCell(k)
    ensures r[k + k / 9] == CellChar(g[k])
  {
    Split9(k, k / 9, k % 9);
    Split10(k + k / 9, k / 9, k % 9);
  }

  /** Parsing a rendering gives back the grid. */
  lemma ParseRenders(r: string, g: seq<int>)
    requires IsGrid(g) && IsRendering(r, g)
    ensures ParseRendering(r) == g
  {
    forall k | 0 <= k < 81
      ensures ParseRendering(r)[k] == g[k]
    {
      RenderingCell(r, g, k);
    }
  }

  /** The text with its newlines removed. */
  function StripNewlines(s: string): (t: string)
    ensures |t| <= |s|
    ensures forall i :: 0 <= i < |t| ==> t[i] != '\n'
  {
    if s == [] then []
    else StripNewlines(s[..|s| - 1]) + (if s[|s| - 1] == '\n' then [] else [s[|s| - 1]])
  }

  /** The first m characters of a rendering hold the first m - m / 10 cells and m / 10 newlines. */
  lemma {:induction false} StripPrefix(r: string, g: seq<int>, m: nat)
    requires IsGrid(g) && IsRendering(r, g) && m <= 89
    ensures m - m / 10 <= 81
    ensures StripNewlines(r[..m]) == seq(m - m / 10, k requires 0 <= k < m - m / 10 => CellChar(g[k]))
  {
    if m > 0 {
      var p := m - 1;
      StripPrefix(r, g, p);
      assert r[..m][..p] == r[..p];
      Split10(p, p / 10, p % 10);
      if p % 10 == 9 {
        Split10(m, p / 10 + 1, 0);
      } else {
        Split10(m, p / 10, p % 10 + 1);
      }
    }
  }

  /** On a full grid the rendering has 89 characters, 8 of them newlines, none
      at the end, and the other 81 are the digits '1'..'9' of the cells in
      row-major order. */
  lemma RenderingOfFullGrid(r: string, g: seq<int>)
    requires IsGrid(g) && IsFull(g) && IsRendering(r, g)
    ensures StripNewlines(r) == seq(81, k requires 0 <= k < 81 => CellChar(g[k]))
    ensures forall k :: 0 <= k < 81 ==> '1' <= CellChar(g[k]) <= '9'
    ensures r[88] != '\n'
    ensures forall p :: 0 <= p < 89 && r[p] != '\n' ==> '1' <= r[p] <= '9'
  {
    StripPrefix(r, g, 89);
    assert r[..89] == r;
  }
}
