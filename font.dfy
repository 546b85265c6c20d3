/**
 * The bitmap font of main.c: the glyph table, the loader that fills it from
 * a text description, and the release rule of UnloadBitmapFont.
 *
 * GL object names are natural numbers, 0 meaning "none". The metrics are the
 * integers GetLineAttrInt returns (the C code only converts them to float).
 */
module Font {
  import opened Wrappers
  import opened Scan

  /** One glyph slot per 8-bit character code. */
  const Slots := 256

  /** The GL names of one glyph quad: vertex array, vertex buffer, index buffer. */
  datatype Mesh = Mesh(vao: nat, vbo: nat, ebo: nat)

  /** The slot value of a character without a glyph. */
  const NoMesh := Mesh(0, 0, 0)

  datatype StatusCode = Success | CannotLoadDescFile | CannotLoadGlyphShader | InvalidDescription

  /** The BitmapFont struct; the C code passes it by value. */
  datatype BitmapFont = BitmapFont(
    status: StatusCode,
    fontSize: int,
    xos: seq<int>,
    yos: seq<int>,
    xas: seq<int>,
    quads: seq<Mesh>,
    shaderProgramId: nat)
  {
    /** The four tables have one entry per character code. */
    predicate Valid()
    {
      |xos| == Slots && |yos| == Slots && |xas| == Slots && |quads| == Slots
    }
  }

  /** The zero-initialised struct `{0}`. */
  const ZeroFont := BitmapFont(Success, 0, seq(Slots, _ => 0), seq(Slots, _ => 0),
                               seq(Slots, _ => 0), seq(Slots, _ => NoMesh), 0)

  /**
   * The GL's name generator, as far as the loader sees it: glGenVertexArrays
   * and glGenBuffers hand out names never handed out before, never 0.
   */
  class Gpu {
    var nextArray: nat
    var nextBuffer: nat

    ghost predicate Valid()
      reads this
    {
      nextArray > 0 && nextBuffer > 0
    }

    constructor ()
      ensures Valid() && nextArray == 1 && nextBuffer == 1
    {
      nextArray := 1;
      nextBuffer := 1;
    }

    /**
     * MakeGlyphQuad (main.c): one new vertex array and two new buffers
     * (vertices, then indices). The vertex data uploaded with them is not
     * modelled.
     */
    method MakeGlyphQuad() returns (m: Mesh)
      requires Valid()
      modifies this
      ensures Valid()
      ensures m == Mesh(old(nextArray), old(nextBuffer), old(nextBuffer) + 1)
      ensures nextArray == old(nextArray) + 1 && nextBuffer == old(nextBuffer) + 2
    {
      m := Mesh(nextArray, nextBuffer, nextBuffer + 1);
      nextArray := nextArray + 1;
      nextBuffer := nextBuffer + 2;
    }
  }

  // ---------------------------------------------------------------------------
  // The description, as the loader reads it

  /** The `=`-attributes 0..7 of one `char` line, the id converted to unsigned. */
  datatype GlyphLine = GlyphLine(id: nat, x: int, y: int, w: int, h: int, xo: int, yo: int, xa: int)

  function ReadGlyphLine(text: seq<char>, pos: nat): (g: GlyphLine)
    requires pos <= |text|
    ensures g.id < TwoTo32
  {
    GlyphLine(CUnsigned(Attr(text, pos, 0)), Attr(text, pos, 1), Attr(text, pos, 2), Attr(text, pos, 3),
              Attr(text, pos, 4), Attr(text, pos, 5), Attr(text, pos, 6), Attr(text, pos, 7))
  }

  /** The keyword every glyph line starts with. */
  const GlyphKeyword: string := "char"

  /** What the loader makes of a description text. */
  datatype Description =
    | Invalid(fontSize: int)   // a header line has the wrong keyword; fontSize as set so far
    | Fault                    // the loader would step past the last newline (an invalid read in C)
    | Parsed(fontSize: int, scaleW: int, scaleH: int, charCount: nat, glyphs: seq<GlyphLine>)

  /**
   * Where the glyph lines read after the line at `at` start, at most `n` of
   * them: each step moves to the next line and stops, without error, at the
   * first line that does not start with the keyword "char". None when a step
   * finds no newline left.
   */
  function GlyphStarts(text: seq<char>, at: nat, n: nat): (r: Option<seq<nat>>)
    requires at <= |text|
    ensures r.Some? ==> |r.value| <= n && forall k :: 0 <= k < |r.value| ==> at < r.value[k] <= |text|
    decreases n
  {
    if n == 0 then Some([])
    else if !HasNewline(text, at) then None
    else
      var next := GetNextLine(text, at);
      if !TokenAt(text, next, GlyphKeyword) then Some([])
      else
        match GlyphStarts(text, next, n - 1)
        case None => None
        case Some(rest) => Some([next] + rest)
  }

  /** The glyph lines that start at `starts`. */
  function ReadGlyphs(text: seq<char>, starts: seq<nat>): seq<GlyphLine>
    requires forall k :: 0 <= k < |starts| ==> starts[k] <= |text|
  {
    if starts == [] then [] else [ReadGlyphLine(text, starts[0])] + ReadGlyphs(text, starts[1..])
  }

  /**
   * The header checks and the glyph lines of LoadBitmapFont (main.c): line 1
   * must start with "info", line 2 with "common", line 3 is skipped and
   * line 4 must start with "chars".
   */
  function Describe(text: seq<char>): Description
  {
    if !TokenAt(text, 0, "info") then Invalid(0)
    else if !HasNewline(text, 0) then Fault
    else
      var fontSize := Attr(text, 0, 1);
      var common := GetNextLine(text, 0);
      if !TokenAt(text, common, "common") then Invalid(fontSize)
      else if !HasNewline(text, common) then Fault
      else
        var reserved := GetNextLine(text, common);
        if !HasNewline(text, reserved) then Fault
        else
          var chars := GetNextLine(text, reserved);
          if !TokenAt(text, chars, "chars") then Invalid(fontSize)
          else
            var charCount := CUnsigned(Attr(text, chars, 0));
            match GlyphStarts(text, chars, charCount)
            case None => Fault
            case Some(starts) =>
              Parsed(fontSize, Attr(text, common, 2), Attr(text, common, 3), charCount,
                     ReadGlyphs(text, starts))
  }

  /**
   * The glyph lines are consecutive lines after the line at `at`, each
   * starting with the keyword "char"; when fewer than `n` are read, the line
   * after the last one read does not start with "char".
   */
  lemma {:induction false} GlyphStartsSpec(text: seq<char>, at: nat, n: nat)
    requires at <= |text| && GlyphStarts(text, at, n).Some?
    ensures var s := GlyphStarts(text, at, n).value;
      && (forall k :: 0 <= k < |s| ==> s[k] <= |text| && TokenAt(text, s[k], GlyphKeyword))
      && (s != [] ==> HasNewline(text, at) && s[0] == GetNextLine(text, at))
      && (forall k :: 0 <= k < |s| - 1 ==> HasNewline(text, s[k]) && s[k + 1] == GetNextLine(text, s[k]))
      && (|s| < n ==>
            var last := if s == [] then at else s[|s| - 1];
            HasNewline(text, last) && !TokenAt(text, GetNextLine(text, last), GlyphKeyword))
    decreases n
  {
    if n > 0 {
      GlyphStartsStep(text, at, n);
      var next := GetNextLine(text, at);
      if TokenAt(text, next, GlyphKeyword) {
        GlyphStartsSpec(text, next, n - 1);
        var r := GlyphStarts(text, next, n - 1).value;
        var s := GlyphStarts(text, at, n).value;
        assert s == [next] + r;
        forall k | 0 <= k < |s|
          ensures s[k] <= |text| && TokenAt(text, s[k], GlyphKeyword)
        {
          if k > 0 {
            assert s[k] == r[k - 1];
          }
        }
        forall k | 0 <= k < |s| - 1
          ensures HasNewline(text, s[k]) && s[k + 1] == GetNextLine(text, s[k])
        {
          assert s[k + 1] == r[k];
          if k > 0 {
            assert s[k] == r[k - 1];
          }
        }
        if |s| < n && r != [] {
          assert s[|s| - 1] == r[|r| - 1];
        }
      }
    }
  }

  // ---------------------------------------------------------------------------
  // The glyph table a list of glyph lines describes

  /** The latest glyph line with id `c`, if any. */
  function Latest(glyphs: seq<GlyphLine>, c: nat): Option<GlyphLine>
  {
    if glyphs == [] then None
    else if glyphs[|glyphs| - 1].id == c then Some(glyphs[|glyphs| - 1])
    else Latest(glyphs[..|glyphs| - 1], c)
  }

  /**
   * Latest finds a line with id `c` exactly when there is one, and the line
   * it finds is the last of them.
   */
  lemma {:induction false} LatestSpec(glyphs: seq<GlyphLine>, c: nat)
    ensures Latest(glyphs, c).None? <==> forall k :: 0 <= k < |glyphs| ==> glyphs[k].id != c
    ensures Latest(glyphs, c).Some? ==>
      exists k :: 0 <= k < |glyphs| && glyphs[k] == Latest(glyphs, c).value && glyphs[k].id == c
                  && forall j :: k < j < |glyphs| ==> glyphs[j].id != c
  {
    if glyphs != [] {
      var init := glyphs[..|glyphs| - 1];
      var last := |glyphs| - 1;
      if glyphs[last].id == c {
        assert Latest(glyphs, c) == Some(glyphs[last]);
      } else {
        LatestSpec(init, c);
        assert Latest(glyphs, c) == Latest(init, c);
        assert forall k :: 0 <= k < |init| ==> init[k] == glyphs[k];
        if Latest(init, c).Some? {
          var k :| 0 <= k < |init| && init[k] == Latest(init, c).value && init[k].id == c
                   && forall j :: k < j < |init| ==> init[j].id != c;
          assert glyphs[k] == Latest(glyphs, c).value;
        }
      }
    }
  }

  /** How many of the glyph lines have an id that fits a slot (one mesh each). */
  function InRange(glyphs: seq<GlyphLine>): nat
  {
    if glyphs == [] then 0
    else InRange(glyphs[..|glyphs| - 1]) + (if glyphs[|glyphs| - 1].id < Slots then 1 else 0)
  }

  /** A slot holds the values of glyph line `g`, or is empty when there is none. */
  predicate SlotHolds(quad: Mesh, xo: int, yo: int, xa: int, g: Option<GlyphLine>)
  {
    match g
    case None => quad == NoMesh && xo == 0 && yo == 0 && xa == 0
    case Some(l) => quad != NoMesh && xo == l.xo && yo == l.yo && xa == l.xa
  }

  /** The GL names `m` holds, leaving out the zero ones. */
  datatype Handle = ProgramHandle(id: nat) | VertexArrayHandle(id: nat) | BufferHandle(id: nat)

  function MeshHandles(m: Mesh): set<Handle>
  {
    (if m.vao != 0 then {VertexArrayHandle(m.vao)} else {})
    + (if m.vbo != 0 then {BufferHandle(m.vbo)} else {})
    + (if m.ebo != 0 then {BufferHandle(m.ebo)} else {})
  }

  /** No non-zero name of `m` is a name of `n`. */
  predicate Apart(m: Mesh, n: Mesh)
  {
    && (m.vao == 0 || m.vao != n.vao)
    && (m.vbo == 0 || (m.vbo != n.vbo && m.vbo != n.ebo))
    && (m.ebo == 0 || (m.ebo != n.vbo && m.ebo != n.ebo))
  }

  /** Every GL name in the table belongs to one slot, and a slot's two buffers differ. */
  predicate DistinctMeshes(quads: seq<Mesh>)
  {
    && (forall c :: 0 <= c < |quads| && quads[c].vbo != 0 ==> quads[c].vbo != quads[c].ebo)
    && (forall c, d {:trigger Apart(quads[c], quads[d])} :: 0 <= c < |quads| && 0 <= d < |quads| && c != d ==> Apart(quads[c], quads[d]))
  }

  /** All names of `m` were handed out between the two generator states. */
  predicate MeshBetween(m: Mesh, a0: nat, a1: nat, b0: nat, b1: nat)
  {
    a0 <= m.vao < a1 && b0 <= m.vbo < b1 && b0 <= m.ebo < b1 && m.vbo != m.ebo
  }

  lemma LatestSnoc(glyphs: seq<GlyphLine>, g: GlyphLine, c: nat)
    ensures Latest(glyphs + [g], c) == if g.id == c then Some(g) else Latest(glyphs, c)
  {
    assert (glyphs + [g])[..|glyphs|] == glyphs;
  }

  /** One step of GlyphStarts, for a list that is read without a fault. */
  lemma GlyphStartsStep(text: seq<char>, at: nat, n: nat)
    requires at <= |text| && n > 0 && GlyphStarts(text, at, n).Some?
    ensures HasNewline(text, at)
    ensures var next := GetNextLine(text, at);
      if TokenAt(text, next, GlyphKeyword) then
        && GlyphStarts(text, next, n - 1).Some?
        && GlyphStarts(text, at, n).value == [next] + GlyphStarts(text, next, n - 1).value
      else GlyphStarts(text, at, n).value == []
  {
  }

  lemma InRangeSnoc(glyphs: seq<GlyphLine>, g: GlyphLine)
    ensures InRange(glyphs + [g]) == InRange(glyphs) + (if g.id < Slots then 1 else 0)
  {
    assert (glyphs + [g])[..|glyphs|] == glyphs;
  }

  /** The ids of the glyph lines that fit a slot. */
  function SlotIds(glyphs: seq<GlyphLine>): (ids: set<nat>)
    ensures forall c :: c in ids ==> c < Slots
  {
    if glyphs == [] then {}
    else
      var g := glyphs[|glyphs| - 1];
      SlotIds(glyphs[..|glyphs| - 1]) + (if g.id < Slots then {g.id} else {})
  }

  /**
   * The slots that end up holding a line are those of SlotIds, and there are
   * at most as many as quads made (one per in-range line, InRange). When two
   * in-range lines share an id there are strictly fewer: some quad that was
   * made is held by no slot, so UnloadBitmapFont never deletes its names.
   */
  lemma {:induction false} DuplicateIdLeak(glyphs: seq<GlyphLine>)
    ensures forall c :: 0 <= c < Slots ==> (c in SlotIds(glyphs) <==> Latest(glyphs, c).Some?)
    ensures |SlotIds(glyphs)| <= InRange(glyphs)
    ensures (exists i, j :: 0 <= i < j < |glyphs| && glyphs[i].id == glyphs[j].id < Slots) ==>
      |SlotIds(glyphs)| < InRange(glyphs)
  {
    if glyphs != [] {
      var init := glyphs[..|glyphs| - 1];
      var g := glyphs[|glyphs| - 1];
      assert forall k :: 0 <= k < |init| ==> init[k] == glyphs[k];
      DuplicateIdLeak(init);
      var s := SlotIds(init);
      if exists i, j :: 0 <= i < j < |glyphs| && glyphs[i].id == glyphs[j].id < Slots {
        var i, j :| 0 <= i < j < |glyphs| && glyphs[i].id == glyphs[j].id < Slots;
        if j == |glyphs| - 1 {
          LatestSpec(init, g.id);
          assert init[i].id == g.id;
          assert g.id in s;
          assert SlotIds(glyphs) == s;
        } else {
          assert init[i].id == init[j].id < Slots;
          assert |s| < InRange(init);
        }
      }
    }
  }

  /** The four tables hold, slot by slot, the latest of the glyph lines with that id. */
  predicate TableHolds(quads: seq<Mesh>, xos: seq<int>, yos: seq<int>, xas: seq<int>, glyphs: seq<GlyphLine>)
  {
    && |quads| == Slots && |xos| == Slots && |yos| == Slots && |xas| == Slots
    && forall c :: 0 <= c < Slots ==> SlotHolds(quads[c], xos[c], yos[c], xas[c], Latest(glyphs, c))
  }

  /**
   * The names in the table are all distinct and were handed out between the
   * generator states (a0, b0) and (a1, b1).
   */
  predicate NamesBetween(quads: seq<Mesh>, a0: nat, a1: nat, b0: nat, b1: nat)
  {
    && DistinctMeshes(quads)
    && forall c :: 0 <= c < |quads| && quads[c] != NoMesh ==> MeshBetween(quads[c], a0, a1, b0, b1)
  }

  /** Storing glyph line `g` with a new quad in slot `g.id` keeps the table up to date. */
  lemma TableStore(quads: seq<Mesh>, xos: seq<int>, yos: seq<int>, xas: seq<int>,
                   glyphs: seq<GlyphLine>, g: GlyphLine, m: Mesh)
    requires TableHolds(quads, xos, yos, xas, glyphs)
    requires g.id < Slots && m != NoMesh
    ensures TableHolds(quads[g.id := m], xos[g.id := g.xo], yos[g.id := g.yo], xas[g.id := g.xa], glyphs + [g])
  {
    forall c | 0 <= c < Slots {
      LatestSnoc(glyphs, g, c);
    }
  }

  /** A glyph line whose id fits no slot leaves the table as it is. */
  lemma TableSkip(quads: seq<Mesh>, xos: seq<int>, yos: seq<int>, xas: seq<int>,
                  glyphs: seq<GlyphLine>, g: GlyphLine)
    requires TableHolds(quads, xos, yos, xas, glyphs)
    requires g.id >= Slots
    ensures TableHolds(quads, xos, yos, xas, glyphs + [g])
  {
    forall c | 0 <= c < Slots {
      LatestSnoc(glyphs, g, c);
    }
  }

  /** A quad made from the next names, stored over any slot, keeps the names distinct. */
  lemma NamesStore(quads: seq<Mesh>, a0: nat, a1: nat, b0: nat, b1: nat, id: nat)
    requires NamesBetween(quads, a0, a1, b0, b1) && id < |quads|
    requires a0 <= a1 && b0 <= b1
    ensures NamesBetween(quads[id := Mesh(a1, b1, b1 + 1)], a0, a1 + 1, b0, b1 + 2)
  {
    var q := quads[id := Mesh(a1, b1, b1 + 1)];
    forall c, d | 0 <= c < |q| && 0 <= d < |q| && c != d
      ensures Apart(q[c], q[d])
    {
      if c != id && d != id {
        assert q[c] == quads[c] && q[d] == quads[d];
      }
    }
  }

  // ---------------------------------------------------------------------------
  // LoadBitmapFont

  /** The zero-initialised tables of `BitmapFont font = {0}`. */
  method NewTable() returns (xos: array<int>, yos: array<int>, xas: array<int>, quads: array<Mesh>)
    ensures fresh(xos) && fresh(yos) && fresh(xas) && fresh(quads)
    ensures xos != yos && xos != xas && yos != xas
    ensures xos[..] == ZeroFont.xos && yos[..] == ZeroFont.yos && xas[..] == ZeroFont.xas
    ensures quads[..] == ZeroFont.quads
  {
    xos := new int[Slots](_ => 0);
    yos := new int[Slots](_ => 0);
    xas := new int[Slots](_ => 0);
    quads := new Mesh[Slots](_ => NoMesh);
  }

  /** The zero tables describe no glyph line and hold no GL name. */
  lemma ZeroTable(a: nat, b: nat)
    ensures TableHolds(ZeroFont.quads, ZeroFont.xos, ZeroFont.yos, ZeroFont.xas, [])
    ensures NamesBetween(ZeroFont.quads, a, a, b, b)
  {
  }

  /**
   * LoadBitmapFont (main.c), from the point where the shader has been built
   * (its program name, 0 when LoadShader failed) and the description file read
   * (None when ReadFile failed). The four tables are filled in place.
   */
  method LoadBitmapFont(shaderProgramId: nat, descFile: Option<seq<char>>, gpu: Gpu)
    returns (font: BitmapFont)
    requires gpu.Valid()
    requires shaderProgramId != 0 && descFile.Some? ==> !Describe(CString(descFile.value)).Fault?
    modifies gpu
    ensures gpu.Valid() && font.Valid()
    ensures shaderProgramId == 0 ==>
      font == ZeroFont.(status := CannotLoadGlyphShader) && unchanged(gpu)
    ensures shaderProgramId != 0 && descFile.None? ==>
      font == ZeroFont.(status := CannotLoadDescFile, shaderProgramId := shaderProgramId)
      && unchanged(gpu)
    ensures shaderProgramId != 0 && descFile.Some? && Describe(CString(descFile.value)).Invalid? ==>
      font == ZeroFont.(status := InvalidDescription,
                        fontSize := Describe(CString(descFile.value)).fontSize,
                        shaderProgramId := shaderProgramId)
      && unchanged(gpu)
    ensures shaderProgramId != 0 && descFile.Some? && Describe(CString(descFile.value)).Parsed? ==>
      var d := Describe(CString(descFile.value));
      && font.status == Success
      && font.fontSize == d.fontSize
      && font.shaderProgramId == shaderProgramId
      && (forall c :: 0 <= c < Slots ==>
            SlotHolds(font.quads[c], font.xos[c], font.yos[c], font.xas[c], Latest(d.glyphs, c)))
      && (forall c :: 0 <= c < Slots && font.quads[c] != NoMesh ==>
            MeshBetween(font.quads[c], old(gpu.nextArray), gpu.nextArray,
                        old(gpu.nextBuffer), gpu.nextBuffer))
      && gpu.nextArray == old(gpu.nextArray) + InRange(d.glyphs)
      && gpu.nextBuffer == old(gpu.nextBuffer) + 2 * InRange(d.glyphs)
    ensures DistinctMeshes(font.quads)
  {
    // Every early exit of the C code jumps to `terminate`, which only frees
    // the buffer and returns the struct as it stands.
    font := ZeroFont.(shaderProgramId := shaderProgramId);
    if shaderProgramId == 0 {
      return font.(status := CannotLoadGlyphShader);
    }
    if descFile.None? {
      return font.(status := CannotLoadDescFile);
    }
    var text := CString(descFile.value);
    var status, fontSize, line, count, scaleW, scaleH := ReadHeader(text);
    if status != Success {
      return font.(status := status, fontSize := fontSize);
    }
    var xos, yos, xas, quads := NewTable();
    ZeroTable(gpu.nextArray, gpu.nextBuffer);
    FillGlyphTable(text, line, count, GlyphStarts(text, line, count).value, xos, yos, xas, quads, gpu);
    font := BitmapFont(Success, fontSize, xos[..], yos[..], xas[..], quads[..], shaderProgramId);
  }

  /**
   * The header part of LoadBitmapFont (main.c): the "info" line and its font
   * size, the "common" line and its scale, the skipped line and the "chars"
   * line and its glyph count; `line` is left at the "chars" line.
   */
  method ReadHeader(text: seq<char>)
    returns (status: StatusCode, fontSize: int, line: nat, count: nat, scaleW: int, scaleH: int)
    requires !Describe(text).Fault?
    ensures status == Success || status == InvalidDescription
    ensures status == InvalidDescription <==> Describe(text).Invalid?
    ensures status == InvalidDescription ==> fontSize == Describe(text).fontSize
    ensures status == Success ==>
      && line <= |text|
      && GlyphStarts(text, line, count).Some?
      && Describe(text) == Parsed(fontSize, scaleW, scaleH, count, ReadGlyphs(text, GlyphStarts(text, line, count).value))
  {
    status, fontSize, count, scaleW, scaleH := Success, 0, 0, 0, 0;
    line := 0;
    var ok := HasPrefix(text, line, "info");
    if !ok {
      return InvalidDescription, 0, line, count, scaleW, scaleH;
    }
    fontSize := GetLineAttrInt(text, line, 1);
    line := GetNextLine(text, line);

    ok := HasPrefix(text, line, "common");
    if !ok {
      status := InvalidDescription;
      return;
    }
    scaleW := GetLineAttrInt(text, line, 2);
    scaleH := GetLineAttrInt(text, line, 3);

    line := GetNextLine(text, line);
    line := GetNextLine(text, line);

    ok := HasPrefix(text, line, "chars");
    if !ok {
      status := InvalidDescription;
      return;
    }
    var charCount := GetLineAttrInt(text, line, 0);
    count := CUnsigned(charCount);
  }

  /**
   * The glyph loop of LoadBitmapFont (main.c): for at most `count` lines after
   * the line at `line`, stop at the first line not starting with "char", skip
   * ids above 255, and otherwise build a quad and store it with the offsets
   * and the advance in the slot of the id, over whatever the slot held.
   */
  method FillGlyphTable(text: seq<char>, chars: nat, count: nat, ghost starts: seq<nat>,
                        xos: array<int>, yos: array<int>, xas: array<int>, quads: array<Mesh>, gpu: Gpu)
    requires chars <= |text| && GlyphStarts(text, chars, count) == Some(starts)
    requires TableHolds(quads[..], xos[..], yos[..], xas[..], [])
    requires xos != yos && xos != xas && yos != xas
    requires NamesBetween(quads[..], gpu.nextArray, gpu.nextArray, gpu.nextBuffer, gpu.nextBuffer)
    requires gpu.Valid()
    modifies xos, yos, xas, quads, gpu
    ensures TableHolds(quads[..], xos[..], yos[..], xas[..], ReadGlyphs(text, starts))
    ensures NamesBetween(quads[..], old(gpu.nextArray), gpu.nextArray, old(gpu.nextBuffer), gpu.nextBuffer)
    ensures gpu.Valid()
    ensures gpu.nextArray == old(gpu.nextArray) + InRange(ReadGlyphs(text, starts))
    ensures gpu.nextBuffer == old(gpu.nextBuffer) + 2 * InRange(ReadGlyphs(text, starts))
  {
    ghost var a0, b0 := gpu.nextArray, gpu.nextBuffer;
    ghost var done: seq<GlyphLine> := [];
    ghost var rest := starts;
    var line: nat := chars;
    var i := 0;
    while i < count
      invariant i <= count && line <= |text|
      invariant GlyphStarts(text, line, count - i) == Some(rest)
      invariant ReadGlyphs(text, starts) == done + ReadGlyphs(text, rest)
      invariant TableHolds(quads[..], xos[..], yos[..], xas[..], done)
      invariant NamesBetween(quads[..], a0, gpu.nextArray, b0, gpu.nextBuffer)
      invariant gpu.Valid()
      invariant gpu.nextArray == a0 + InRange(done) && gpu.nextBuffer == b0 + 2 * InRange(done)
    {
      var ok;
      line, ok := NextGlyphLine(text, line, count - i, rest);
      if !ok {
        break;
      }
      ghost var g := ReadGlyphLine(text, line);
      ReadGlyphsCons(text, rest, done);
      LoadGlyph(text, line, done, a0, b0, xos, yos, xas, quads, gpu);
      done := done + [g];
      rest := rest[1..];
      i := i + 1;
    }
    assert rest == [] && done + [] == done;
  }

  lemma ReadGlyphsCons(text: seq<char>, starts: seq<nat>, done: seq<GlyphLine>)
    requires starts != [] && forall k :: 0 <= k < |starts| ==> starts[k] <= |text|
    ensures done + ReadGlyphs(text, starts)
            == (done + [ReadGlyphLine(text, starts[0])]) + ReadGlyphs(text, starts[1..])
  {
  }

  /**
   * The head of the glyph loop of LoadBitmapFont (main.c): move to the next
   * line and tell whether it starts with "char".
   */
  method NextGlyphLine(text: seq<char>, line: nat, ghost left: nat, ghost rest: seq<nat>)
    returns (next: nat, ok: bool)
    requires line <= |text| && left > 0 && GlyphStarts(text, line, left) == Some(rest)
    ensures next <= |text|
    ensures ok <==> rest != []
    ensures ok ==> rest[0] == next && GlyphStarts(text, next, left - 1) == Some(rest[1..])
  {
    GlyphStartsStep(text, line, left);
    next := GetNextLine(text, line);
    ok := HasPrefix(text, next, GlyphKeyword);
  }

  /**
   * The body of the glyph loop of LoadBitmapFont (main.c) for one `char`
   * line: an id above 255 is skipped; otherwise a new quad and the line's
   * offsets and advance go into the slot of the id.
   */
  method LoadGlyph(text: seq<char>, line: nat, ghost done: seq<GlyphLine>, ghost a0: nat, ghost b0: nat,
                   xos: array<int>, yos: array<int>, xas: array<int>, quads: array<Mesh>, gpu: Gpu)
    requires line <= |text|
    requires TableHolds(quads[..], xos[..], yos[..], xas[..], done)
    requires xos != yos && xos != xas && yos != xas
    requires NamesBetween(quads[..], a0, gpu.nextArray, b0, gpu.nextBuffer)
    requires gpu.Valid()
    requires gpu.nextArray == a0 + InRange(done) && gpu.nextBuffer == b0 + 2 * InRange(done)
    modifies xos, yos, xas, quads, gpu
    ensures TableHolds(quads[..], xos[..], yos[..], xas[..], done + [ReadGlyphLine(text, line)])
    ensures NamesBetween(quads[..], a0, gpu.nextArray, b0, gpu.nextBuffer)
    ensures gpu.Valid()
    ensures gpu.nextArray == a0 + InRange(done + [ReadGlyphLine(text, line)])
    ensures gpu.nextBuffer == b0 + 2 * InRange(done + [ReadGlyphLine(text, line)])
  {
    ghost var q0, xo0, yo0, xa0 := quads[..], xos[..], yos[..], xas[..];
    ghost var g := ReadGlyphLine(text, line);
    InRangeSnoc(done, g);
    var idAttr := GetLineAttrInt(text, line, 0);
    var id := CUnsigned(idAttr);
    if id > 255 {
      TableSkip(q0, xo0, yo0, xa0, done, g);
      return;
    }
    var xo, yo, xa := ReadGlyphMetrics(text, line, id);
    NamesStore(q0, a0, gpu.nextArray, b0, gpu.nextBuffer, id);
    var quad := gpu.MakeGlyphQuad();
    TableStore(q0, xo0, yo0, xa0, done, g, quad);
    StoreGlyph(quads, xos, yos, xas, id, quad, xo, yo, xa);
  }

  /**
   * The reads of attributes 1..7 in the glyph loop body of LoadBitmapFont
   * (main.c), once the id is known to fit a slot. The atlas rectangle
   * (attributes 1..4) only feeds MakeGlyphQuad's vertex data.
   */
  method ReadGlyphMetrics(text: seq<char>, line: nat, id: nat) returns (xo: int, yo: int, xa: int)
    requires line <= |text| && id == CUnsigned(Attr(text, line, 0))
    ensures ReadGlyphLine(text, line).id == id
    ensures ReadGlyphLine(text, line).xo == xo
    ensures ReadGlyphLine(text, line).yo == yo
    ensures ReadGlyphLine(text, line).xa == xa
  {
    var x := GetLineAttrInt(text, line, 1);
    var y := GetLineAttrInt(text, line, 2);
    var w := GetLineAttrInt(text, line, 3);
    var h := GetLineAttrInt(text, line, 4);
    xo := GetLineAttrInt(text, line, 5);
    yo := GetLineAttrInt(text, line, 6);
    xa := GetLineAttrInt(text, line, 7);
  }

  /** The four stores of one glyph into slot `id`. */
  method StoreGlyph(quads: array<Mesh>, xos: array<int>, yos: array<int>, xas: array<int>,
                    id: nat, quad: Mesh, xo: int, yo: int, xa: int)
    requires id < quads.Length && id < xos.Length && id < yos.Length && id < xas.Length
    requires xos != yos && xos != xas && yos != xas
    modifies quads, xos, yos, xas
    ensures quads[..] == old(quads[..])[id := quad]
    ensures xos[..] == old(xos[..])[id := xo]
    ensures yos[..] == old(yos[..])[id := yo]
    ensures xas[..] == old(xas[..])[id := xa]
  {
    quads[id] := quad;
    xos[id] := xo;
    yos[id] := yo;
    xas[id] := xa;
  }

  // ---------------------------------------------------------------------------
  // UnloadBitmapFont

  /** `h` is a GL name the font holds: its shader program or a name of one of its quads. */
  predicate Owns(font: BitmapFont, h: Handle)
  {
    || (font.shaderProgramId != 0 && h == ProgramHandle(font.shaderProgramId))
    || exists c :: 0 <= c < |font.quads| && h in MeshHandles(font.quads[c])
  }

  /** No handle occurs twice. */
  predicate NoRepeats(hs: seq<Handle>)
  {
    forall j, k :: 0 <= j < k < |hs| ==> hs[j] != hs[k]
  }

  lemma NoRepeatsAppend(a: seq<Handle>, b: seq<Handle>)
    requires NoRepeats(a) && NoRepeats(b)
    requires forall h :: h in b ==> h !in a
    ensures NoRepeats(a + b)
  {
    forall j, k | 0 <= j < k < |a + b|
      ensures (a + b)[j] != (a + b)[k]
    {
      if k < |a| {
        assert (a + b)[j] == a[j] && (a + b)[k] == a[k];
      } else if j < |a| {
        assert (a + b)[j] == a[j] && (a + b)[k] == b[k - |a|] && b[k - |a|] in b;
      } else {
        assert (a + b)[j] == b[j - |a|] && (a + b)[k] == b[k - |a|];
      }
    }
  }

  /** Quads that are apart hold no name in common. */
  lemma ApartDisjoint(m: Mesh, n: Mesh)
    requires Apart(m, n)
    ensures MeshHandles(m) !! MeshHandles(n)
  {
  }

  /** The slots of `quads` that hold a quad. */
  function Held(quads: seq<Mesh>): set<nat>
  {
    set c: nat | c < |quads| && quads[c] != NoMesh
  }

  /** The vertex-array names of the slots `cs`. */
  function VertexArrays(quads: seq<Mesh>, cs: set<nat>): set<nat>
  {
    set c | c in cs && c < |quads| :: quads[c].vao
  }

  /** The `n` names handed out from `a` on. */
  function NameRange(a: nat, n: nat): set<nat>
  {
    if n == 0 then {} else NameRange(a, n - 1) + {a + n - 1}
  }

  lemma {:induction false} VertexArraysCard(quads: seq<Mesh>, cs: set<nat>)
    requires forall c :: c in cs ==> c < |quads|
    requires forall c, d :: c in cs && d in cs && c != d ==> quads[c].vao != quads[d].vao
    ensures |VertexArrays(quads, cs)| == |cs|
    decreases |cs|
  {
    if cs != {} {
      var x :| x in cs;
      var rest := cs - {x};
      VertexArraysCard(quads, rest);
      assert VertexArrays(quads, cs) == VertexArrays(quads, rest) + {quads[x].vao};
    }
  }

  lemma {:induction false} NameRangeSpec(a: nat, n: nat)
    ensures forall v :: v in NameRange(a, n) <==> a <= v < a + n
    ensures |NameRange(a, n)| == n
    decreases n
  {
    if n > 0 {
      NameRangeSpec(a, n - 1);
    }
  }

  /**
   * Pigeonhole: when the quads of distinct names hold fewer slots than `n`
   * vertex arrays were made from `a0` on, one of those vertex arrays is in
   * no slot.
   */
  lemma {:induction false} UnheldVertexArray(quads: seq<Mesh>, a0: nat, n: nat) returns (v: nat)
    requires 0 < a0 && DistinctMeshes(quads)
    requires forall c :: 0 <= c < |quads| && quads[c] != NoMesh ==> a0 <= quads[c].vao < a0 + n
    requires |Held(quads)| < n
    ensures a0 <= v < a0 + n && forall c :: 0 <= c < |quads| ==> quads[c].vao != v
  {
    var held := Held(quads);
    forall c, d | c in held && d in held && c != d
      ensures quads[c].vao != quads[d].vao
    {
      assert Apart(quads[c], quads[d]);
    }
    VertexArraysCard(quads, held);
    NameRangeSpec(a0, n);
    var vs := VertexArrays(quads, held);
    assert vs <= NameRange(a0, n);
    var free := NameRange(a0, n) - vs;
    assert NameRange(a0, n) == free + vs && free !! vs;
    assert |free| > 0;
    v :| v in free;
    forall c | 0 <= c < |quads|
      ensures quads[c].vao != v
    {
      if quads[c] != NoMesh {
        assert c in held;
        assert quads[c].vao in vs;
      }
    }
  }

  /**
   * What DuplicateIdLeak means for the GL: when two in-range glyph lines share
   * an id, some vertex array made while loading is held by no slot, so the
   * font does not own it and UnloadBitmapFont never deletes it. The
   * requirements are the success postcondition of LoadBitmapFont.
   */
  lemma {:induction false} LeakedVertexArray(font: BitmapFont, glyphs: seq<GlyphLine>, a0: nat, a1: nat, b0: nat, b1: nat)
    requires font.Valid() && 0 < a0
    requires forall c :: 0 <= c < Slots ==>
      SlotHolds(font.quads[c], font.xos[c], font.yos[c], font.xas[c], Latest(glyphs, c))
    requires forall c :: 0 <= c < Slots && font.quads[c] != NoMesh ==> MeshBetween(font.quads[c], a0, a1, b0, b1)
    requires a1 == a0 + InRange(glyphs) && DistinctMeshes(font.quads)
    requires exists i, j :: 0 <= i < j < |glyphs| && glyphs[i].id == glyphs[j].id < Slots
    ensures exists v :: a0 <= v < a1 && !Owns(font, VertexArrayHandle(v))
  {
    DuplicateIdLeak(glyphs);
    assert Held(font.quads) == SlotIds(glyphs);
    var v := UnheldVertexArray(font.quads, a0, InRange(glyphs));
    assert !Owns(font, VertexArrayHandle(v));
  }

  /**
   * The body of the slot loop of UnloadBitmapFont (main.c): the deletes of one
   * quad, vertex array then vertex buffer then index buffer, each only when
   * its name is non-zero.
   */
  method ReleaseMesh(quad: Mesh) returns (hs: seq<Handle>)
    ensures forall h :: h in hs <==> h in MeshHandles(quad)
    ensures quad.vbo == 0 || quad.vbo != quad.ebo ==> NoRepeats(hs)
  {
    hs := [];
    if quad.vao != 0 {
      hs := hs + [VertexArrayHandle(quad.vao)];
    }
    if quad.vbo != 0 {
      hs := hs + [BufferHandle(quad.vbo)];
    }
    if quad.ebo != 0 {
      hs := hs + [BufferHandle(quad.ebo)];
    }
  }

  /**
   * UnloadBitmapFont (main.c): the GL deletes it issues, in order. The shader
   * program goes first, then the quads slot by slot; a zero name is never
   * deleted.
   */
  method UnloadBitmapFont(font: BitmapFont) returns (released: seq<Handle>)
    requires font.Valid()
    ensures forall h :: h in released <==> Owns(font, h)
    ensures font.shaderProgramId != 0 ==> released != [] && released[0] == ProgramHandle(font.shaderProgramId)
    ensures DistinctMeshes(font.quads) ==> NoRepeats(released)
    ensures font.shaderProgramId == 0 && (forall c :: 0 <= c < Slots ==> font.quads[c] == NoMesh) ==>
      released == []
  {
    released := [];
    if font.shaderProgramId != 0 {
      released := [ProgramHandle(font.shaderProgramId)];
    }
    for i := 0 to Slots
      invariant font.shaderProgramId != 0 ==> released != [] && released[0] == ProgramHandle(font.shaderProgramId)
      invariant forall h :: h in released <==>
        || (font.shaderProgramId != 0 && h == ProgramHandle(font.shaderProgramId))
        || exists c :: 0 <= c < i && h in MeshHandles(font.quads[c])
      invariant DistinctMeshes(font.quads) ==> NoRepeats(released)
    {
      var hs := ReleaseMesh(font.quads[i]);
      if DistinctMeshes(font.quads) {
        forall h | h in hs
          ensures h !in released
        {
          forall c | 0 <= c < i
            ensures h !in MeshHandles(font.quads[c])
          {
            assert Apart(font.quads[c], font.quads[i]);
            ApartDisjoint(font.quads[c], font.quads[i]);
          }
        }
        NoRepeatsAppend(released, hs);
      }
      released := released + hs;
    }
    assert released == [] || released[0] in released;
  }
}
