/**
 * Scanning helpers of the font loader (main.c): keyword test, positional
 * `=`-attribute reader and line stepping over the description buffer.
 *
 * The description is the C string read from the file: the model holds its
 * characters (everything before the terminating NUL) as a `seq<char>`. A
 * "line" in the C code is a pointer into that buffer, so here it is the
 * buffer with an index `pos`, and the helpers that take a line see the whole
 * rest of the buffer from `pos` on, not just the characters up to the next
 * newline.
 */
module Scan {

  /** The characters of a NUL-terminated buffer: everything before its first NUL. */
  function CString(buf: seq<char>): (s: seq<char>)
    ensures s <= buf
    ensures '\0' !in s
    ensures |s| < |buf| ==> buf[|s|] == '\0'
  {
    if buf == [] || buf[0] == '\0' then [] else [buf[0]] + CString(buf[1..])
  }

  // ---------------------------------------------------------------------------
  // HasPrefix

  /**
   * The characters from `pos` up to the next space, or up to the end of the
   * buffer when there is none, are exactly `p`.
   */
  predicate TokenAt(text: seq<char>, pos: nat, p: seq<char>)
    decreases |p|
  {
    if p == [] then pos >= |text| || text[pos] == ' '
    else pos < |text| && text[pos] == p[0] && p[0] != ' ' && TokenAt(text, pos + 1, p[1..])
  }

  /** TokenAt, stated on the slice of the buffer that holds the keyword. */
  lemma {:induction false} TokenAtSpec(text: seq<char>, pos: nat, p: seq<char>)
    requires pos <= |text|
    ensures TokenAt(text, pos, p) <==>
      && pos + |p| <= |text|
      && text[pos..pos + |p|] == p
      && ' ' !in p
      && (pos + |p| == |text| || text[pos + |p|] == ' ')
    decreases |p|
  {
    if p != [] && pos < |text| {
      TokenAtSpec(text, pos + 1, p[1..]);
      if pos + |p| <= |text| {
        assert text[pos..pos + |p|] == [text[pos]] + text[pos + 1..pos + |p|];
      }
      assert p == [p[0]] + p[1..];
    }
  }

  /** A line starts with at most one token: "char" never matches a "chars" line. */
  lemma {:induction false} TokenUnique(text: seq<char>, pos: nat, p: seq<char>, q: seq<char>)
    requires TokenAt(text, pos, p) && TokenAt(text, pos, q)
    ensures p == q
    decreases |p|
  {
    if p != [] && q != [] {
      TokenUnique(text, pos + 1, p[1..], q[1..]);
      assert p == [p[0]] + p[1..] && q == [q[0]] + q[1..];
    }
  }

  /**
   * HasPrefix (main.c): find the first space of the rest of the buffer, then
   * compare the characters before it with the keyword, length and content.
   */
  method HasPrefix(text: seq<char>, pos: nat, prefix: seq<char>) returns (b: bool)
    requires pos <= |text|
    ensures b <==> TokenAt(text, pos, prefix)
  {
    var headerPos := 0;
    while pos + headerPos < |text|
      invariant pos + headerPos <= |text|
      invariant ' ' !in text[pos..pos + headerPos]
    {
      if text[pos + headerPos] == ' ' {
        break;
      }
      assert text[pos..pos + headerPos + 1] == text[pos..pos + headerPos] + [text[pos + headerPos]];
      headerPos := headerPos + 1;
    }
    b := headerPos == |prefix| && text[pos..pos + headerPos] == prefix;
    TokenAtSpec(text, pos, prefix);
  }

  // ---------------------------------------------------------------------------
  // strtol and the C integer conversions

  const LongMax := 0x7FFF_FFFF_FFFF_FFFF
  const LongMin := -0x8000_0000_0000_0000

  /** The characters C's isspace accepts in the "C" locale. */
  predicate IsSpace(c: char)
  {
    c == ' ' || c == '\t' || c == '\n' || c == '\U{B}' || c == '\U{C}' || c == '\r'
  }

  predicate IsDigit(c: char)
  {
    '0' <= c <= '9'
  }

  predicate AllDigits(s: seq<char>)
  {
    forall k :: 0 <= k < |s| ==> IsDigit(s[k])
  }

  /** The index of the first character at or after `i` that is not white space (|s| if none). */
  function SpaceEnd(s: seq<char>, i: nat): (e: nat)
    requires i <= |s|
    ensures i <= e <= |s|
    decreases |s| - i
  {
    if i < |s| && IsSpace(s[i]) then SpaceEnd(s, i + 1) else i
  }

  /** SpaceEnd skips a run of white space, and all of it. */
  lemma {:induction false} SpaceEndSpec(s: seq<char>, i: nat)
    requires i <= |s|
    ensures forall k :: i <= k < SpaceEnd(s, i) ==> IsSpace(s[k])
    ensures SpaceEnd(s, i) == |s| || !IsSpace(s[SpaceEnd(s, i)])
    decreases |s| - i
  {
    if i < |s| && IsSpace(s[i]) {
      SpaceEndSpec(s, i + 1);
    }
  }

  /** The longest run of decimal digits at the start of `s`. */
  function LeadingDigits(s: seq<char>): (ds: seq<char>)
    ensures AllDigits(ds)
  {
    if s != [] && IsDigit(s[0]) then [s[0]] + LeadingDigits(s[1..]) else []
  }

  /** LeadingDigits is a prefix of its argument that stops only at a non-digit. */
  lemma {:induction false} LeadingDigitsSpec(s: seq<char>)
    ensures LeadingDigits(s) <= s
    ensures |LeadingDigits(s)| == |s| || !IsDigit(s[|LeadingDigits(s)|])
  {
    if s != [] && IsDigit(s[0]) {
      LeadingDigitsSpec(s[1..]);
    }
  }

  /** The number a string of decimal digits denotes, most significant first. */
  function DecimalValue(ds: seq<char>): nat
    requires AllDigits(ds)
  {
    if ds == [] then 0
    else DecimalValue(ds[..|ds| - 1]) * 10 + (ds[|ds| - 1] as int - '0' as int)
  }

  /**
   * strtol(s, NULL, 10) with a 64-bit long: leading white space is skipped,
   * an optional sign is read, then the longest run of decimal digits; no
   * digits give 0, and an out-of-range value is clamped to the long range.
   */
  function StrToL(s: seq<char>): (r: int)
    ensures LongMin <= r <= LongMax
  {
    var t := s[SpaceEnd(s, 0)..];
    if t != [] && t[0] == '-' then
      var v := -(DecimalValue(LeadingDigits(t[1..])) as int);
      if v < LongMin then LongMin else v
    else
      var v := DecimalValue(LeadingDigits(if t != [] && t[0] == '+' then t[1..] else t));
      if v > LongMax then LongMax else v
  }

  /** A run of digits read from the start of a buffer stops at the first non-digit. */
  lemma {:induction false} LeadingDigitsOf(ds: seq<char>, rest: seq<char>)
    requires AllDigits(ds)
    requires rest == [] || !IsDigit(rest[0])
    ensures LeadingDigits(ds + rest) == ds
  {
    if ds != [] {
      assert (ds + rest)[0] == ds[0] && (ds + rest)[1..] == ds[1..] + rest;
      LeadingDigitsOf(ds[1..], rest);
    }
  }

  /** A plain decimal number followed by a non-digit is read as its value. */
  lemma StrToLDecimal(ds: seq<char>, rest: seq<char>)
    requires ds != [] && AllDigits(ds) && DecimalValue(ds) <= LongMax
    requires rest == [] || !IsDigit(rest[0])
    ensures StrToL(ds + rest) == DecimalValue(ds)
  {
    assert (ds + rest)[0] == ds[0];
    assert SpaceEnd(ds + rest, 0) == 0;
    LeadingDigitsOf(ds, rest);
  }

  /** A minus sign and a run of digits followed by a non-digit is read as the negated value. */
  lemma StrToLNegative(ds: seq<char>, rest: seq<char>)
    requires AllDigits(ds) && DecimalValue(ds) <= -LongMin
    requires rest == [] || !IsDigit(rest[0])
    ensures StrToL(['-'] + ds + rest) == -(DecimalValue(ds) as int)
  {
    var s := ['-'] + ds + rest;
    assert s[0] == '-' && s[1..] == ds + rest;
    assert SpaceEnd(s, 0) == 0;
    LeadingDigitsOf(ds, rest);
  }

  const TwoTo31 := 0x8000_0000
  const TwoTo32 := 0x1_0000_0000

  /**
   * The conversion of a long to a 32-bit int: the value congruent to `v`
   * modulo 2^32 in the int range (what GCC defines for this conversion).
   */
  function CInt(v: int): (r: int)
    ensures -TwoTo31 <= r < TwoTo31
    ensures (v - r) % TwoTo32 == 0
    ensures -TwoTo31 <= v < TwoTo31 ==> r == v
  {
    var m := v % TwoTo32;
    if m >= TwoTo31 then m - TwoTo32 else m
  }

  /** The conversion of an int to `unsigned`: the value congruent modulo 2^32 in 0..2^32-1. */
  function CUnsigned(v: int): (r: nat)
    ensures r < TwoTo32
    ensures (v - r) % TwoTo32 == 0
    ensures 0 <= v < TwoTo32 ==> r == v
  {
    v % TwoTo32
  }

  // ---------------------------------------------------------------------------
  // GetLineAttrInt

  /**
   * The `=`-attributes of the rest of the buffer from `pos` on, in order: for
   * each `=` sign, the number strtol reads right after it, converted to int.
   */
  function Attrs(text: seq<char>, pos: nat): seq<int>
    requires pos <= |text|
    decreases |text| - pos
  {
    if pos == |text| then []
    else if text[pos] == '=' then [CInt(StrToL(text[pos + 1..]))] + Attrs(text, pos + 1)
    else Attrs(text, pos + 1)
  }

  /**
   * The value GetLineAttrInt returns for attribute `k` of the line at `pos`:
   * the number after the `=` sign with `k` others before it in the rest of
   * the buffer, and 0 when there are not that many.
   */
  function Attr(text: seq<char>, pos: nat, k: nat): int
    requires pos <= |text|
  {
    var a := Attrs(text, pos);
    if k < |a| then a[k] else 0
  }

  /** How many `=` signs stand at the indexes `pos`..`end`-1 of the buffer. */
  function EqCount(text: seq<char>, pos: nat, end: nat): nat
    requires pos <= end <= |text|
    decreases end - pos
  {
    if pos == end then 0 else (if text[pos] == '=' then 1 else 0) + EqCount(text, pos + 1, end)
  }

  /** There is one attribute per `=` sign of the rest of the buffer. */
  lemma {:induction false} AttrsLength(text: seq<char>, pos: nat)
    requires pos <= |text|
    ensures |Attrs(text, pos)| == EqCount(text, pos, |text|)
    decreases |text| - pos
  {
    if pos < |text| {
      AttrsLength(text, pos + 1);
    }
  }

  /**
   * Every `=` sign is listed, after the ones before it: attribute `k` is the
   * sign with `k` others before it, wherever it stands (on this line or a
   * later one).
   */
  lemma {:induction false} AttrsAt(text: seq<char>, pos: nat, i: nat)
    requires pos <= i < |text| && text[i] == '='
    ensures EqCount(text, pos, i) < |Attrs(text, pos)|
    ensures Attrs(text, pos)[EqCount(text, pos, i)] == CInt(StrToL(text[i + 1..]))
    decreases i - pos
  {
    if pos < i {
      AttrsAt(text, pos + 1, i);
      var rest := Attrs(text, pos + 1);
      var j := EqCount(text, pos + 1, i);
      if text[pos] == '=' {
        var v := CInt(StrToL(text[pos + 1..]));
        assert Attrs(text, pos) == [v] + rest;
        assert EqCount(text, pos, i) == 1 + j;
        assert ([v] + rest)[1 + j] == rest[j];
      } else {
        assert Attrs(text, pos) == rest;
        assert EqCount(text, pos, i) == j;
      }
    }
  }

  /**
   * GetLineAttrInt (main.c): walk the rest of the buffer counting `=` signs
   * and parse the number after the one numbered `attrId` (from 0).
   */
  method GetLineAttrInt(text: seq<char>, pos: nat, attrId: nat) returns (r: int)
    requires pos <= |text|
    ensures r == Attr(text, pos, attrId)
  {
    var off := 0;
    var i := 0;
    while pos + i < |text|
      invariant pos + i <= |text| && off <= attrId
      invariant off <= |Attrs(text, pos)| && Attrs(text, pos)[off..] == Attrs(text, pos + i)
    {
      assert Attrs(text, pos + i) ==
        if text[pos + i] == '=' then [CInt(StrToL(text[pos + i + 1..]))] + Attrs(text, pos + i + 1)
        else Attrs(text, pos + i + 1);
      if text[pos + i] == '=' {
        if off == attrId {
          return CInt(StrToL(text[pos + i + 1..]));
        }
        off := off + 1;
      }
      i := i + 1;
    }
    return 0;
  }

  // ---------------------------------------------------------------------------
  // GetNextLine

  /** The rest of the buffer from `pos` on holds a newline. */
  predicate HasNewline(text: seq<char>, pos: nat)
    decreases |text| - pos
  {
    pos < |text| && (text[pos] == '\n' || HasNewline(text, pos + 1))
  }

  lemma {:induction false} HasNewlineSpec(text: seq<char>, pos: nat)
    ensures HasNewline(text, pos) <==> exists k :: pos <= k < |text| && text[k] == '\n'
    decreases |text| - pos
  {
    if pos < |text| {
      HasNewlineSpec(text, pos + 1);
      if text[pos] == '\n' {
        assert pos <= pos < |text| && text[pos] == '\n';
      } else {
        assert forall k :: pos <= k < |text| && text[k] == '\n' ==> pos + 1 <= k;
      }
    }
  }

  /**
   * GetNextLine (main.c): the index just past the first newline at or after
   * `pos`. C's strchr gives NULL when there is none and the caller would then
   * use an invalid pointer, so a newline is required.
   */
  function GetNextLine(text: seq<char>, pos: nat): (next: nat)
    requires HasNewline(text, pos)
    ensures pos < next <= |text| && text[next - 1] == '\n'
    decreases |text| - pos
  {
    if text[pos] == '\n' then pos + 1 else GetNextLine(text, pos + 1)
  }

  /** The newline GetNextLine steps over is the first one from `pos` on. */
  lemma {:induction false} NextLineFirst(text: seq<char>, pos: nat)
    requires HasNewline(text, pos)
    ensures forall k :: pos <= k < GetNextLine(text, pos) - 1 ==> text[k] != '\n'
    decreases |text| - pos
  {
    if text[pos] != '\n' {
      NextLineFirst(text, pos + 1);
    }
  }

  /** A line that ends in a newline at `end`, with none before, is stepped over whole. */
  lemma {:induction false} NextLineAt(text: seq<char>, pos: nat, end: nat)
    requires pos <= end < |text| && text[end] == '\n'
    requires forall k :: pos <= k < end ==> text[k] != '\n'
    ensures HasNewline(text, pos) && GetNextLine(text, pos) == end + 1
    decreases end - pos
  {
    if pos < end {
      NextLineAt(text, pos + 1, end);
    }
  }
}
