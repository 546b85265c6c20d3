/**
 * The layout loop of RenderText (main.c): which glyphs of a string are drawn
 * and where the pen puts them. Positions are the pen coordinates handed to
 * the viewport conversion; the conversion, the matrices and float rounding
 * are not modelled.
 */
module Render {
  import opened Font

  /** One glDrawElements call: the quad drawn, the program used and the pen position. */
  datatype Draw = Draw(vao: nat, program: nat, x: real, y: real)

  /** Every character of `text` indexes a glyph slot. */
  predicate InSlots(text: seq<char>)
  {
    forall k :: 0 <= k < |text| ==> text[k] as int < Slots
  }

  /** The slot of character `c` holds a glyph quad. */
  predicate HasGlyph(font: BitmapFont, c: char)
    requires font.Valid() && c as int < Slots
  {
    font.quads[c as int].vao != 0
  }

  /** How far the pen moves over `text`: the advances of the characters that have a glyph. */
  function Advance(font: BitmapFont, text: seq<char>): real
    requires font.Valid() && InSlots(text)
  {
    if text == [] then 0.0
    else
      var c := text[|text| - 1];
      Advance(font, text[..|text| - 1]) + (if HasGlyph(font, c) then font.xas[c as int] as real else 0.0)
  }

  /**
   * The draws of RenderText for `text` with the pen starting at (`x`, `y`):
   * one per character with a glyph, at the pen position plus the glyph's x
   * offset.
   */
  function Layout(font: BitmapFont, x: real, y: real, text: seq<char>): seq<Draw>
    requires font.Valid() && InSlots(text)
  {
    if text == [] then []
    else
      var init := text[..|text| - 1];
      var c := text[|text| - 1];
      Layout(font, x, y, init)
      + if HasGlyph(font, c)
        then [Draw(font.quads[c as int].vao, font.shaderProgramId,
                   x + Advance(font, init) + font.xos[c as int] as real, y)]
        else []
  }

  /**
   * RenderText (main.c): walk the string, skip a character whose slot has no
   * vertex array, otherwise draw its quad at the pen and move the pen by its
   * advance. The pen's y never changes.
   */
  method RenderText(font: BitmapFont, xPos: real, yPos: real, text: seq<char>) returns (draws: seq<Draw>)
    requires font.Valid() && InSlots(text)
    requires '\0' !in text  // the characters of a C string before its NUL
    ensures draws == Layout(font, xPos, yPos, text)
  {
    draws := [];
    var xOffset := xPos;
    var yOffset := yPos;
    for i := 0 to |text|
      invariant draws == Layout(font, xPos, yPos, text[..i])
      invariant xOffset == xPos + Advance(font, text[..i]) && yOffset == yPos
    {
      assert text[..i + 1][..i] == text[..i];
      var id := text[i] as int;
      var vao := font.quads[id].vao;
      if vao == 0 {
        continue;
      }
      draws := draws + [Draw(vao, font.shaderProgramId, xOffset + font.xos[id] as real, yOffset)];
      xOffset := xOffset + font.xas[id] as real;
    }
    assert text[..|text|] == text;
  }

  // ---------------------------------------------------------------------------
  // What the layout promises

  /** The characters of `text` that have a glyph, in order. */
  function Drawn(font: BitmapFont, text: seq<char>): seq<char>
    requires font.Valid() && InSlots(text)
  {
    if text == [] then []
    else
      var c := text[|text| - 1];
      Drawn(font, text[..|text| - 1]) + if HasGlyph(font, c) then [c] else []
  }

  /** The sum of the advances of `cs`. */
  function SumAdvances(font: BitmapFont, cs: seq<char>): real
    requires font.Valid() && InSlots(cs)
  {
    if cs == [] then 0.0 else SumAdvances(font, cs[..|cs| - 1]) + font.xas[cs[|cs| - 1] as int] as real
  }

  /** Only the characters with a glyph move the pen. */
  lemma {:induction false} AdvanceDrawn(font: BitmapFont, text: seq<char>)
    requires font.Valid() && InSlots(text)
    ensures InSlots(Drawn(font, text))
    ensures Advance(font, text) == SumAdvances(font, Drawn(font, text))
  {
    if text != [] {
      var init := text[..|text| - 1];
      var c := text[|text| - 1];
      AdvanceDrawn(font, init);
      var d := Drawn(font, init);
      if HasGlyph(font, c) {
        assert (d + [c])[..|d + [c]| - 1] == d;
        assert Drawn(font, text) == d + [c];
        assert SumAdvances(font, d + [c]) == SumAdvances(font, d) + font.xas[c as int] as real;
      } else {
        assert d + [] == d;
        assert Drawn(font, text) == d;
      }
      assert Advance(font, text) == Advance(font, init) + (if HasGlyph(font, c) then font.xas[c as int] as real else 0.0);
    }
  }

  /**
   * The k-th draw is the k-th character with a glyph: its quad and the
   * shader program, at y = `y` and at x = `x` plus the advances of the glyphs
   * drawn before it plus its own x offset. There are as many draws as such
   * characters.
   */
  lemma {:induction false} LayoutDraws(font: BitmapFont, x: real, y: real, text: seq<char>)
    requires font.Valid() && InSlots(text)
    ensures InSlots(Drawn(font, text))
    ensures |Layout(font, x, y, text)| == |Drawn(font, text)|
    ensures forall k :: 0 <= k < |Layout(font, x, y, text)| ==>
      var c := Drawn(font, text)[k];
      Layout(font, x, y, text)[k] ==
        Draw(font.quads[c as int].vao, font.shaderProgramId,
             x + SumAdvances(font, Drawn(font, text)[..k]) + font.xos[c as int] as real, y)
  {
    if text != [] {
      var init := text[..|text| - 1];
      var c := text[|text| - 1];
      LayoutDraws(font, x, y, init);
      AdvanceDrawn(font, init);
      var d := Drawn(font, init);
      var l := Layout(font, x, y, init);
      if HasGlyph(font, c) {
        var d' := d + [c];
        var l' := Layout(font, x, y, text);
        forall k | 0 <= k < |l'|
          ensures l'[k] == Draw(font.quads[d'[k] as int].vao, font.shaderProgramId,
                                x + SumAdvances(font, d'[..k]) + font.xos[d'[k] as int] as real, y)
        {
          if k < |l| {
            assert d'[..k] == d[..k] && d'[k] == d[k] && l'[k] == l[k];
          } else {
            assert d'[..k] == d;
          }
        }
      } else {
        assert d + [] == d && l + [] == l;
      }
    }
  }

  /** Drawing two strings one after the other is drawing their concatenation. */
  lemma {:induction false} LayoutAppend(font: BitmapFont, x: real, y: real, a: seq<char>, b: seq<char>)
    requires font.Valid() && InSlots(a) && InSlots(b)
    ensures InSlots(a + b)
    ensures Advance(font, a + b) == Advance(font, a) + Advance(font, b)
    ensures Layout(font, x, y, a + b) == Layout(font, x, y, a) + Layout(font, x + Advance(font, a), y, b)
    decreases |b|
  {
    if b != [] {
      var init := b[..|b| - 1];
      assert (a + b)[..|a + b| - 1] == a + init;
      assert (a + b)[|a + b| - 1] == b[|b| - 1];
      LayoutAppend(font, x, y, a, init);
    } else {
      assert a + b == a;
    }
  }

  /** A character without a glyph is skipped: it draws nothing and leaves the pen where it was. */
  lemma LayoutSkip(font: BitmapFont, x: real, y: real, a: seq<char>, c: char, b: seq<char>)
    requires font.Valid() && InSlots(a) && InSlots(b) && c as int < Slots
    requires !HasGlyph(font, c)
    ensures InSlots(a + [c] + b) && InSlots(a + b)
    ensures Layout(font, x, y, a + [c] + b) == Layout(font, x, y, a + b)
    ensures Advance(font, a + [c] + b) == Advance(font, a + b)
  {
    LayoutAppend(font, x, y, a, [c]);
    LayoutAppend(font, x, y, a + [c], b);
    LayoutAppend(font, x, y, a, b);
    assert Layout(font, x, y, [c]) == [] by {
      assert [c][..0] == [];
    }
    assert Advance(font, [c]) == 0.0 by {
      assert [c][..0] == [];
    }
  }
}
