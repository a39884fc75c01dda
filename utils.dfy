/** Indentation for rendering nested report lines (src/utils.rs). */
module Utils {

  /** `Indent(usize)`: a nesting depth; a value, copied rather than shared. */
  datatype Indent = Indent(depth: nat)

  /** `Indent::new`. */
  function NewIndent(): (i: Indent)
    ensures i.depth == 0
  {
    Indent(0)
  }

  /** `Indent::next`: one level deeper. The receiver is a copy, so the original is unchanged. */
  function Next(i: Indent): (n: Indent)
    ensures n.depth == i.depth + 1
  {
    Indent(i.depth + 1)
  }

  /** `BLANK`: twenty spaces. */
  const Blank: string := "                    "

  /** `count` copies of `s`, one after another. */
  function Repeat(s: string, count: nat): (r: string)
    ensures |r| == count * |s|
  {
    if count == 0 then "" else Repeat(s, count - 1) + s
  }

  predicate AllSpaces(s: string)
  {
    forall k | 0 <= k < |s| :: s[k] == ' '
  }

  /** What displaying an indent of depth `d` writes: whole chunks of `Blank`, then the rest of the 2·d spaces. */
  function Rendering(d: nat): string
  {
    Repeat(Blank, (2 * d) / |Blank|) + Blank[..(2 * d) % |Blank|]
  }

  lemma {:induction false} RepeatSpaces(s: string, count: nat)
    requires AllSpaces(s)
    ensures AllSpaces(Repeat(s, count))
    decreases count
  {
    if count > 0 {
      RepeatSpaces(s, count - 1);
    }
  }

  /** Displaying depth `d` writes exactly 2·d characters, all of them spaces. */
  lemma RenderingIsSpaces(d: nat)
    ensures |Rendering(d)| == 2 * d
    ensures AllSpaces(Rendering(d))
  {
    RepeatSpaces(Blank, (2 * d) / |Blank|);
  }

  /** One level deeper displays two more spaces. */
  lemma NextRendering(i: Indent)
    ensures Rendering(Next(i).depth) == Rendering(i.depth) + "  "
  {
    var a := Rendering(i.depth);
    var b := Rendering(Next(i).depth);
    RenderingIsSpaces(i.depth);
    RenderingIsSpaces(Next(i).depth);
    assert |b| == |a + "  "|;
    forall k | 0 <= k < |b|
      ensures b[k] == (a + "  ")[k]
    {
    }
  }

  /** `Display for Indent`: write `Blank` once per whole chunk, then the remaining slice of it. */
  method Display(i: Indent) returns (out: string)
    ensures out == Rendering(i.depth)
  {
    var amt := i.depth * 2;
    out := "";
    for n := 0 to amt / |Blank|
      invariant out == Repeat(Blank, n)
    {
      out := out + Blank;
    }
    out := out + Blank[..amt % |Blank|];
  }
}
