# SimpleFontRendering: bitmap font loader and text layout

This project models the font core of `main.c`, a small OpenGL program that
draws text with a bitmap font. The model covers:

- **Scanning the font description** (`module Scan`, `scan.dfy`). This is the
  text file of `key=value` lines that the loader reads.
  - `HasPrefix` tests the keyword at the start of a line.
  - `GetLineAttrInt` reads the number after the k-th `=` sign, with C's
    `strtol` and the `(int)` conversion written out.
  - `GetNextLine` steps past the next newline.
  - A "line" in the C code is a pointer into the whole buffer. The model
    therefore gives each helper the description with an index, and the
    helpers see everything up to the end of the buffer (the NUL), not just
    the current line.
- **The loader** (`module Font`, `font.dfy`).
  - `Describe` states what `LoadBitmapFont` makes of a description: the
    `info`, `common`, skipped and `chars` header lines, then at most
    `charCount` `char` lines.
  - `LoadBitmapFont` checks the header, then fills the four 256-slot tables
    (`quads`, `xos`, `yos`, `xas`) in place.
  - It is proved to produce, slot by slot, the values of the last glyph line
    with that id.
  - Every quad is made of fresh GL names that no other slot holds.
  - The error paths return the zero struct with the status, the shader
    program name and, once the `info` line has been read, the font size read
    from it. The failed font therefore still holds the program, and the
    caller must release it with `UnloadBitmapFont`.
- **The unloader** (`module Font`). `UnloadBitmapFont` deletes exactly the
  non-zero names the font holds, the program first. When the quads share no
  names, it deletes each name once.
- **The text layout** (`module Render`, `render.dfy`). `RenderText` skips
  characters whose slot has no vertex array. It draws every other character
  at the pen position plus the glyph's x offset, and moves the pen by the
  glyph's advance. The pen's y position never changes.

The GL is a name generator (`Font.Gpu`). The model assumes that
`glGenVertexArrays` and `glGenBuffers` hand out names never handed out
before, and never 0. The GL itself only promises names not currently in use;
no name is deleted while a font loads, so the two agree for one load.
Deletes and draws are returned as lists (`UnloadBitmapFont`'s released
handles, `RenderText`'s draws).

Where the code and its documentation differ, the model follows the code:

- Attributes are read from the rest of the buffer, so a line with too few
  `=` signs takes the numbers of the following lines.
- `HasPrefix` looks for the first space in the rest of the buffer, so a
  one-word last line is compared in full. A one-word line that is not the
  last is compared together with the following text up to its first space:
  an `info` line holding only `info`, followed by `common lineHeight=…`,
  is compared as `info` + newline + `common` and fails the `info` check.
- A description whose header or glyph lines run past the last newline makes
  `strchr` return NULL in `GetNextLine`, and the next helper then reads
  through the invalid pointer NULL + 1 (an invalid read). `Describe` calls
  that outcome `Fault`, and the loader requires descriptions that do not
  reach it.
- A glyph line whose in-range id repeats an earlier one makes a second quad
  (`InRange` counts both lines), but the table keeps only the later one. The
  earlier quad is then in no slot (`Font.DuplicateIdLeak`): one of the vertex
  arrays made during the load is not owned by the font, so `UnloadBitmapFont`
  never deletes it (`Font.LeakedVertexArray`). The model keeps this behaviour.

## Model

| member | source | states |
|---|---|---|
| Scan.CString | main.c:359-368 | the description is the characters of the zero-filled buffer before the first NUL; it holds no NUL and the buffer has a NUL right after it |
| Scan.TokenAtSpec | main.c:371-382 | a keyword matches exactly when the characters up to the first space (or to the end of the buffer) equal it in length and content |
| Scan.TokenUnique | main.c:371-382 | two keywords that both match the same line are equal, so "char" never matches a "chars" line |
| Scan.HasPrefix | main.c:371-382 | the scan for the first space and the length-and-content comparison answer true exactly when the keyword matches |
| Scan.SpaceEnd | main.c:389 | the run of white space strtol skips ends inside the buffer, at or after its start |
| Scan.SpaceEndSpec | main.c:389 | every skipped character is white space and the first character kept is not |
| Scan.LeadingDigits | main.c:389 | the digits strtol reads are all decimal digits |
| Scan.LeadingDigitsSpec | main.c:389 | those digits are a prefix of the text and stop only at a non-digit or at the end |
| Scan.StrToL | main.c:389 | strtol's result always lies in the 64-bit long range (out-of-range values are clamped) |
| Scan.LeadingDigitsOf | main.c:389 | digits followed by a non-digit are read exactly |
| Scan.StrToLDecimal | main.c:389 | a plain decimal number in the long range followed by a non-digit is read as its value |
| Scan.StrToLNegative | main.c:389 | a minus sign and digits whose value fits the long range, followed by a non-digit, are read as the negated value |
| Scan.CInt | main.c:389 | the (int) conversion gives the int congruent to the long modulo 2^32, unchanged when it fits |
| Scan.CUnsigned | main.c:292 | the (unsigned) conversion gives the value congruent modulo 2^32 in 0..2^32-1, unchanged when it fits |
| Scan.AttrsLength | main.c:384-397 | the rest of the buffer holds one attribute per `=` sign |
| Scan.AttrsAt | main.c:384-397 | attribute k is the number strtol reads right after the `=` sign with k others before it |
| Scan.GetLineAttrInt | main.c:384-397 | the counting walk returns attribute `attrId`, or 0 when there are not that many `=` signs |
| Scan.HasNewlineSpec | main.c:399 | the precondition of GetNextLine holds exactly when a newline follows the position |
| Scan.GetNextLine | main.c:399 | the next line starts after the position, inside the buffer, right after a newline |
| Scan.NextLineFirst | main.c:399 | no newline lies between the position and the one stepped over |
| Scan.NextLineAt | main.c:399 | a line ending in a newline, with none before it, is stepped over whole |
| Font.Gpu.constructor | main.c:417-419 | the name generator starts with valid counters |
| Font.Gpu.MakeGlyphQuad | main.c:417-419 | a quad gets one new vertex array and two new buffers; the counters move past them |
| Font.ReadGlyphLine | main.c:299 | the id of a glyph line, read as unsigned, is below 2^32 |
| Font.GlyphStarts | main.c:293-297 | at most `charCount` glyph lines are read, all after the `chars` line and inside the buffer |
| Font.GlyphStartsStep | main.c:293-297 | one iteration steps to the next line, and stops when it does not start with "char" |
| Font.GlyphStartsSpec | main.c:293-297 | the glyph lines are consecutive lines that each start with "char"; when fewer than `charCount` are read, the line after the last one does not |
| Font.LatestSnoc | main.c:313-316 | a later line with the same id overwrites the earlier one; other ids keep their line |
| Font.LatestSpec | main.c:313-316 | a slot holds a line exactly when some line has its id, and then it is the last such line |
| Font.DuplicateIdLeak | main.c:299-316 | the slots that hold a line are exactly those of the in-range ids, at most one per quad made; when two in-range lines share an id there are strictly fewer slots holding a line than quads made |
| Font.UnheldVertexArray | main.c:312-316 | when the slots holding a quad of distinct names number fewer than the vertex arrays made, one of those vertex arrays is in no slot |
| Font.LeakedVertexArray | main.c:312-346 | after a successful load where two in-range glyph lines share an id, some vertex array made during the load is not owned by the font, so UnloadBitmapFont does not delete it |
| Font.InRangeSnoc | main.c:299-312 | only lines whose id is at most 255 make a quad |
| Font.TableStore | main.c:312-316 | storing a line's quad, offsets and advance in its slot keeps every slot holding its latest line |
| Font.TableSkip | main.c:299-303 | a line whose id is above 255 leaves all slots as they were |
| Font.NamesStore | main.c:312-313 | a quad of new names stored over any slot keeps all names in the table distinct |
| Font.NewTable | main.c:251 | the zero-initialised struct has all-zero tables |
| Font.ZeroTable | main.c:251 | the zero tables hold no glyph and no GL name |
| Font.ReadHeader | main.c:265-292 | the status is INVALID_DESCRIPTION exactly when the info, common or chars keyword is missing, with the font size read so far; otherwise the font size, scale and glyph count are the attributes the description names |
| Font.LoadBitmapFont | main.c:248-325 | status by case (shader, file, header); on success each slot holds the offsets and advance of the last glyph line with its id and a quad of new names, empty slots stay zero, all names are distinct and one quad is made per in-range line |
| Font.FillGlyphTable | main.c:293-317 | after the glyph loop every slot holds its latest glyph line and the names made are distinct and new |
| Font.NextGlyphLine | main.c:294-297 | the loop head moves to the next line and continues exactly when the glyph list goes on |
| Font.LoadGlyph | main.c:299-316 | one glyph line is skipped when its id is above 255, otherwise stored with a new quad, keeping the table invariant |
| Font.ReadGlyphMetrics | main.c:305-311 | once the id fits a slot, the x offset, y offset and advance read are attributes 5, 6 and 7 of the glyph line |
| Font.StoreGlyph | main.c:313-316 | the four stores change slot `id` of each table and nothing else |
| Font.ApartDisjoint | main.c:327-346 | quads with distinct names share no handle |
| Font.ReleaseMesh | main.c:333-344 | a quad's deletes are exactly its non-zero names, each once when its two buffers differ |
| Font.UnloadBitmapFont | main.c:327-346 | the deletes are exactly the non-zero names the font holds, the program first, none twice when the quads are distinct, and none for an all-zero font |
| Render.RenderText | main.c:447-480 | the draws are the layout of the whole string from (xPos, yPos) |
| Render.AdvanceDrawn | main.c:447-480 | the pen moves by the advances of the drawn glyphs only |
| Render.LayoutDraws | main.c:447-480 | there is one draw per character with a glyph; the k-th is at y = yPos and x = xPos plus the advances of the earlier drawn glyphs plus its own x offset, with its quad and the font's program |
| Render.LayoutAppend | main.c:447-480 | laying out two strings one after the other is laying out their concatenation |
| Render.LayoutSkip | main.c:456-461 | a character without a glyph draws nothing and does not move the pen |

## Left out

- The GLFW window, the event loop and `main`: windowing glue, not part of the font core.
- `LoadShader` and `ReadFile` are inputs to `LoadBitmapFont`: a program name and an optional buffer (none when reading failed). The program name is 0 when a shader file cannot be read or does not compile; a failed link still returns the non-zero program name, so a non-zero name does not mean the shader was built. File I/O and shader compilation are not part of this model.
- `Log` calls are left out; they only print.
- The vertex data, attribute layout and buffer uploads of `MakeGlyphQuad`, and the `scaleW`/`scaleH`/`x`/`y`/`w`/`h` values they use, are left out: they are GPU calls. Only the names the quad gets are modelled.
- The atlas file name is unused by the C code, and it is not a parameter here.
- `MakeOrthoProj`, `MakeGlyphTransform`, `WorldToViewport` and the GL calls of each draw are left out. The model stops at the pen position handed to the viewport conversion.
- Font metrics are the ints `GetLineAttrInt` returns. The `(float)` conversions and float rounding are not modelled: pen positions are `real`.
- Render.RenderText: requires every character code to be below 256, and takes the characters of the C string before its NUL (so no NUL among them). Codes 128..255 follow a platform where `char` is unsigned; where `char` is signed they are negative, their `(unsigned)` conversion indexes outside the table, and the behaviour is undefined.
- Font.LoadBitmapFont: requires that the description does not make `GetNextLine` step past the last newline. The C code would then read through the invalid pointer `strchr` returns (NULL + 1).
- Freeing the description buffer is left out; the model has no heap of its own.
- GL names are unbounded naturals; the 32-bit `unsigned` width of GL names is not modelled.
- Scan.StrToL: assumes a 64-bit `long` (LP64) and GCC's modulo-2^32 conversion to `int`. Where `long` is 32-bit, `strtol` clamps at 2^31-1 instead, so an id such as 4294967361 is skipped there while the model wraps it to slot 65.
