/**
 * Model of src/stlfile.cpp: the file-format check and the binary STL loader
 * with its vertex-deduplicating hash table.
 *
 * An open file is its byte sequence; a stream position is an index into it.
 * Words read from the file are `U32` numbers (the bit patterns of the IEEE
 * floats, which the loader never interprets, only stores, hashes and
 * compares); counts, indices and table slots are integers, whose 32-bit
 * ranges are stated where they matter.
 */
module StlFile {
  import opened Hash96

  /** A byte of the file, as the number it holds. */
  newtype Byte = x: int | 0 <= x < 0x100

  /** The bits of a byte, counted up from zero: the solver turns bits into
   *  numbers cheaply but not numbers into bits. */
  function Bits(b: Byte): (c: bv8)
    decreases b as int
  {
    if b == 0 then 0 else Bits(b - 1) + 1
  }

  lemma {:induction false} BitsValue(b: Byte)
    ensures Bits(b) as int == b as int
    decreases b as int
  {
    if b != 0 {
      BitsValue(b - 1);
    }
  }

  /** A byte written from bits reads back as those bits. */
  lemma BitsOf(c: bv8)
    ensures Bits(c as int as Byte) == c
  {
    BitsValue(c as int as Byte);
  }

  datatype Option<T> = None | Some(value: T)

  datatype Result<T, E> = Ok(value: T) | Err(error: E)

  // ---------------------------------------------------------------------
  // get16 / get32: little-endian fields
  // ---------------------------------------------------------------------

  /** A `uint16_t` as the number it holds. */
  type U16 = n: int | 0 <= n < 0x1_0000

  /** `get16`: the little-endian 16-bit field at `off`, as a number. */
  function Get16(b: seq<Byte>, off: nat): U16
    requires off + 2 <= |b|
  {
    (b[off] as int) + 0x100 * (b[off + 1] as int)
  }

  /** The little-endian 16-bit field at `off`, as bits. */
  function Get16Bits(b: seq<Byte>, off: nat): bv16
    requires off + 2 <= |b|
  {
    (Bits(b[off]) as bv16) + ((Bits(b[off + 1]) as bv16) << 8)
  }

  /** The 16-bit field as bits and as a number agree. */
  lemma Get16AsBits(b: seq<Byte>, off: nat)
    requires off + 2 <= |b|
    ensures Get16Bits(b, off) as int == Get16(b, off)
  {
    var b0, b1 := Bits(b[off]), Bits(b[off + 1]);
    BitsValue(b[off]);
    BitsValue(b[off + 1]);
    Assemble16Value(b0, b1);
    assert Get16Bits(b, off) == (b0 as bv16) + ((b1 as bv16) << 8);
    assert Get16(b, off) == (b0 as int) + 0x100 * (b1 as int);
  }

  lemma Assemble16Value(b0: bv8, b1: bv8)
    ensures ((b0 as bv16) + ((b1 as bv16) << 8)) as int == (b0 as int) + 0x100 * (b1 as int)
  {
  }

  /** The little-endian 32-bit field at `off`, as bits. */
  function Get32Bits(b: seq<Byte>, off: nat): Word
    requires off + 4 <= |b|
  {
    Assemble32(Bits(b[off]), Bits(b[off + 1]), Bits(b[off + 2]), Bits(b[off + 3]))
  }

  /** Four bytes, least significant first, as a word. */
  function Assemble32(b0: bv8, b1: bv8, b2: bv8, b3: bv8): Word
  {
    (b0 as Word) + ((b1 as Word) << 8) + ((b2 as Word) << 16) + ((b3 as Word) << 24)
  }

  /** The two bytes of a 16-bit value, least significant first. */
  function Le16(x: bv16): seq<Byte>
  {
    [((x & 0xFF) as bv8) as int as Byte, ((x >> 8) as bv8) as int as Byte]
  }

  /** `get32`: the little-endian 32-bit field at `off`, as a number. */
  function Get32(b: seq<Byte>, off: nat): (r: U32)
    requires off + 4 <= |b|
  {
    (b[off] as int) + 0x100 * (b[off + 1] as int) + 0x1_0000 * (b[off + 2] as int) + 0x100_0000 * (b[off + 3] as int)
  }

  /** The field as bits and as a number agree. */
  lemma Get32AsBits(b: seq<Byte>, off: nat)
    requires off + 4 <= |b|
    ensures Get32Bits(b, off) as int == Get32(b, off)
  {
    var b0, b1, b2, b3 := Bits(b[off]), Bits(b[off + 1]), Bits(b[off + 2]), Bits(b[off + 3]);
    BitsValue(b[off]);
    BitsValue(b[off + 1]);
    BitsValue(b[off + 2]);
    BitsValue(b[off + 3]);
    AssembleValue(b0, b1, b2, b3);
    assert Get32Bits(b, off) == (b0 as Word) + ((b1 as Word) << 8) + ((b2 as Word) << 16) + ((b3 as Word) << 24);
    assert Get32(b, off) == (b0 as int) + 0x100 * (b1 as int) + 0x1_0000 * (b2 as int) + 0x100_0000 * (b3 as int);
  }

  // The two lemmas below spell out `Assemble32`: the solver handles the
  // 32-bit-to-integer conversion of the expression, not of the call.
  lemma AssembleValue(b0: bv8, b1: bv8, b2: bv8, b3: bv8)
    ensures ((b0 as Word) + ((b1 as Word) << 8) + ((b2 as Word) << 16) + ((b3 as Word) << 24)) as int == (b0 as int) + 0x100 * (b1 as int) + 0x1_0000 * (b2 as int) + 0x100_0000 * (b3 as int)
  {
  }

  /** Four times an assembled word, in 32-bit arithmetic, as an integer. */
  lemma AssembleQuad(b0: bv8, b1: bv8, b2: bv8, b3: bv8)
    ensures (4 * ((b0 as Word) + ((b1 as Word) << 8) + ((b2 as Word) << 16) + ((b3 as Word) << 24))) as int
      == 4 * (b0 as int) + 0x400 * (b1 as int) + 0x4_0000 * (b2 as int) + 0x400_0000 * ((b3 as int) % 64)
  {
    QuadShift(b0, b1, b2, b3);
    QuadValue(b0, b1, b2, b3 & 0x3F);
    LowSix(b3);
  }

  lemma QuadShift(b0: bv8, b1: bv8, b2: bv8, b3: bv8)
    ensures 4 * ((b0 as Word) + ((b1 as Word) << 8) + ((b2 as Word) << 16) + ((b3 as Word) << 24))
      == ((b0 as Word) << 2) + ((b1 as Word) << 10) + ((b2 as Word) << 18) + (((b3 & 0x3F) as Word) << 26)
  {
  }

  lemma QuadValue(b0: bv8, b1: bv8, b2: bv8, c: bv8)
    requires c < 64
    ensures (((b0 as Word) << 2) + ((b1 as Word) << 10) + ((b2 as Word) << 18) + ((c as Word) << 26)) as int
      == 4 * (b0 as int) + 0x400 * (b1 as int) + 0x4_0000 * (b2 as int) + 0x400_0000 * (c as int)
  {
  }

  lemma LowSix(b: bv8)
    ensures (b & 0x3F) as int == (b as int) % 64
  {
  }

  /** `4 * get32(...)` in 32-bit arithmetic is four times the count modulo
   *  2^32: the top two bits of the last byte drop out. */
  lemma QuadCount(b: seq<Byte>, off: nat)
    requires off + 4 <= |b|
    ensures (4 * Get32Bits(b, off)) as int == (4 * Get32(b, off)) % 0x1_0000_0000
  {
    var w := Get32Bits(b, off);
    var b0, b1, b2, b3 := Bits(b[off]), Bits(b[off + 1]), Bits(b[off + 2]), Bits(b[off + 3]);
    BitsValue(b[off]);
    BitsValue(b[off + 1]);
    BitsValue(b[off + 2]);
    BitsValue(b[off + 3]);
    QuadBits(b0, b1, b2, b3);
    assert Get32(b, off) == (b0 as int) + 0x100 * (b1 as int) + 0x1_0000 * (b2 as int) + 0x100_0000 * (b3 as int);
  }

  lemma QuadBits(b0: bv8, b1: bv8, b2: bv8, b3: bv8)
    ensures (4 * Assemble32(b0, b1, b2, b3)) as int
      == (4 * ((b0 as int) + 0x100 * (b1 as int) + 0x1_0000 * (b2 as int) + 0x100_0000 * (b3 as int))) % 0x1_0000_0000
  {
    AssembleQuad(b0, b1, b2, b3);
    QuadMod(b0 as int, b1 as int, b2 as int, b3 as int);
  }

  lemma QuadMod(b0: int, b1: int, b2: int, b3: int)
    requires 0 <= b0 < 0x100 && 0 <= b1 < 0x100 && 0 <= b2 < 0x100 && 0 <= b3 < 0x100
    ensures (4 * (b0 + 0x100 * b1 + 0x1_0000 * b2 + 0x100_0000 * b3)) % 0x1_0000_0000
      == 4 * b0 + 0x400 * b1 + 0x4_0000 * b2 + 0x400_0000 * (b3 % 64)
  {
    var r := 4 * b0 + 0x400 * b1 + 0x4_0000 * b2 + 0x400_0000 * (b3 % 64);
    ModUnique(4 * (b0 + 0x100 * b1 + 0x1_0000 * b2 + 0x100_0000 * b3), 0x1_0000_0000, b3 / 64, r);
  }

  /** The four bytes of a word, least significant first. */
  function Le32(x: Word): seq<Byte>
  {
    [((x & 0xFF) as bv8) as int as Byte, (((x >> 8) & 0xFF) as bv8) as int as Byte,
     (((x >> 16) & 0xFF) as bv8) as int as Byte, ((x >> 24) as bv8) as int as Byte]
  }

  lemma Get16OfLe16(x: bv16)
    ensures Get16Bits(Le16(x), 0) == x
  {
    BitsOf((x & 0xFF) as bv8);
    BitsOf((x >> 8) as bv8);
  }

  lemma Le16OfGet16(b: seq<Byte>, off: nat)
    requires off + 2 <= |b|
    ensures Le16(Get16Bits(b, off)) == b[off..off + 2]
  {
    BitsValue(b[off]);
    BitsValue(b[off + 1]);
  }

  lemma Get32OfLe32(x: Word)
    ensures Get32Bits(Le32(x), 0) == x
  {
    BitsOf((x & 0xFF) as bv8);
    BitsOf(((x >> 8) & 0xFF) as bv8);
    BitsOf(((x >> 16) & 0xFF) as bv8);
    BitsOf((x >> 24) as bv8);
  }

  lemma Le32OfGet32(b: seq<Byte>, off: nat)
    requires off + 4 <= |b|
    ensures Le32(Get32Bits(b, off)) == b[off..off + 4]
  {
    BitsValue(b[off]);
    BitsValue(b[off + 1]);
    BitsValue(b[off + 2]);
    BitsValue(b[off + 3]);
  }

  // ---------------------------------------------------------------------
  // C strings: strcmp / strncmp and fgets
  // ---------------------------------------------------------------------

  /** "solid " */
  const Solid: seq<Byte> := [0x73, 0x6F, 0x6C, 0x69, 0x64, 0x20]
  /** "facet " */
  const Facet: seq<Byte> := [0x66, 0x61, 0x63, 0x65, 0x74, 0x20]
  const Newline: Byte := 0x0A

  /** `strncmp(s, t, n) == 0` on NUL-terminated buffers: the first `n`
   *  bytes agree, or they agree up to and including a shared NUL. */
  function StrNEq(s: seq<Byte>, t: seq<Byte>, n: nat): bool
    decreases n
  {
    n == 0 || (|s| > 0 && |t| > 0 && s[0] == t[0] && (s[0] == 0 || StrNEq(s[1..], t[1..], n - 1)))
  }

  /** Against a pattern whose first `n - 1` bytes are not NUL,
   *  `strncmp(s, t, n) == 0` holds exactly when `s` starts with the first
   *  `n` bytes of the pattern. */
  lemma {:induction false} StrNEqPrefix(s: seq<Byte>, t: seq<Byte>, n: nat)
    requires n <= |t| && forall i :: 0 <= i < n - 1 ==> t[i] != 0
    ensures StrNEq(s, t, n) <==> n <= |s| && s[..n] == t[..n]
  {
    if n > 0 && |s| > 0 {
      StrNEqPrefix(s[1..], t[1..], n - 1);
      if n <= |s| && s[..n] == t[..n] {
        assert s[1..][..n - 1] == s[..n][1..] == t[..n][1..] == t[1..][..n - 1];
      }
      if StrNEq(s, t, n) {
        assert s[0] == t[0] && (n == 1 || s[0] != 0);
        assert s[..n] == [s[0]] + s[1..][..n - 1];
        assert t[..n] == [t[0]] + t[1..][..n - 1];
      }
    }
  }

  /** The bytes `fgets` stores when it reads from position `at` with room
   *  for `room` more bytes: it stops after a newline, at end of file, or
   *  when the room is used up. */
  function LineFrom(file: seq<Byte>, at: nat, room: nat): (line: seq<Byte>)
    requires at <= |file|
    ensures at + |line| <= |file| && |line| <= room
    ensures line == file[at..at + |line|]
    ensures forall i :: 0 <= i < |line| - 1 ==> line[i] != Newline
    ensures |line| == room || at + |line| == |file| || (0 < |line| && line[|line| - 1] == Newline)
    decreases room
  {
    if room == 0 || at == |file| then []
    else if file[at] == Newline then [file[at]]
    else [file[at]] + LineFrom(file, at + 1, room - 1)
  }

  /** `fgets(line, 100, fp)` from position `at`: at most 99 bytes. */
  function Fgets(file: seq<Byte>, at: nat): seq<Byte>
    requires at <= |file|
  {
    LineFrom(file, at, 99)
  }

  // ---------------------------------------------------------------------
  // check_stl_format
  // ---------------------------------------------------------------------

  datatype Format = Invalid | Ascii | Binary

  /** The triangle count a binary header claims, read at offset 80. */
  function HeaderCount(file: seq<Byte>): nat
    requires 84 <= |file|
  {
    Get32(file, 80)
  }

  /** `check_stl_format`: a missing stream or one shorter than 15 bytes is
   *  invalid; "solid " followed by a first line starting with "facet " is
   *  ASCII; otherwise the file must hold at least the 84-byte header and
   *  its size must equal `84 + 50 * count` computed in 32-bit arithmetic. */
  function CheckStlFormat(fp: Option<seq<Byte>>): Format
  {
    if fp.None? then Invalid
    else
      var file := fp.value;
      if |file| < 15 then Invalid
      else if StrNEq(file[..6] + [0], Solid + [0], 7) && StrNEq(Fgets(file, 6) + [0], Facet, 6) then Ascii
      else if |file| < 84 then Invalid
      else if |file| != (84 + 50 * HeaderCount(file)) % 0x1_0000_0000 then Invalid
      else Binary
  }

  /** The `strcmp(sixBytes, "solid ")` test: the file starts with "solid ". */
  lemma SolidTest(file: seq<Byte>)
    requires 6 <= |file|
    ensures StrNEq(file[..6] + [0], Solid + [0], 7) <==> file[..6] == Solid
  {
    var s, t := file[..6] + [0], Solid + [0];
    StrNEqPrefix(s, t, 7);
    assert s[..7] == s && t[..7] == t;
    if s == t {
      assert file[..6] == s[..6] == t[..6] == Solid;
    }
  }

  /** A line read by `fgets` that does not reach a newline, the end of the
   *  file or its room within its first `k` bytes is at least `k` long. */
  lemma LineReaches(file: seq<Byte>, at: nat, k: nat)
    requires at + k < |file| && k < 99
    requires forall i :: at <= i < at + k ==> file[i] != Newline
    ensures k <= |Fgets(file, at)|
  {
  }

  /** After "solid ", a file continuing with "facet " gives `fgets` a line
   *  of at least six bytes, since "facet " holds no newline. */
  lemma FacetLine(file: seq<Byte>)
    requires 15 <= |file| && file[6..12] == Facet
    ensures 6 <= |Fgets(file, 6)|
  {
    assert forall i :: 6 <= i < 12 ==> file[i] == Facet[i - 6];
    LineReaches(file, 6, 6);
  }

  /** `strncmp` of a NUL-terminated line against a pattern with no NUL in
   *  its first `n` bytes: equal exactly when the line starts with them. */
  lemma {:induction false} StrNEqNul(line: seq<Byte>, t: seq<Byte>, n: nat)
    requires n <= |t| && forall i :: 0 <= i < n ==> t[i] != 0
    ensures StrNEq(line + [0], t, n) <==> n <= |line| && line[..n] == t[..n]
    decreases n
  {
    if n > 0 && line != [] {
      assert (line + [0])[1..] == line[1..] + [0];
      StrNEqNul(line[1..], t[1..], n - 1);
      assert line[..n] == [line[0]] + line[1..][..n - 1] <== n <= |line|;
      assert t[..n] == [t[0]] + t[1..][..n - 1];
    }
  }

  lemma FacetPrefix(line: seq<Byte>)
    ensures StrNEq(line + [0], Facet, 6) <==> 6 <= |line| && line[..6] == Facet
  {
    StrNEqNul(line, Facet, 6);
  }
  /** The `strncmp(line, "facet ", 6)` test on the line `fgets` reads after
   *  "solid ": it holds exactly when bytes 6 to 11 are "facet ". */
  lemma FacetTest(file: seq<Byte>)
    requires 15 <= |file|
    ensures StrNEq(Fgets(file, 6) + [0], Facet, 6) <==> file[6..12] == Facet
  {
    var line := Fgets(file, 6);
    FacetPrefix(line);
    SliceStart(file, 6, line);
    if file[6..12] == Facet {
      FacetLine(file);
    }
  }

  /** The first six bytes of a slice of `file` from `at` are those of
   *  `file` from `at`. */
  lemma SliceStart(file: seq<Byte>, at: nat, line: seq<Byte>)
    requires at + |line| <= |file| && line == file[at..at + |line|]
    ensures 6 <= |line| ==> line[..6] == file[at..at + 6]
  {
  }

  /** The ASCII verdict in plain terms: the file starts with "solid " and
   *  the next six bytes are "facet " (so "solid name\nfacet ..." is not
   *  ASCII to this check). */
  lemma AsciiVerdict(file: seq<Byte>)
    requires 15 <= |file|
    ensures CheckStlFormat(Some(file)) == Ascii <==> file[..6] == Solid && file[6..12] == Facet
  {
    SolidTest(file);
    FacetTest(file);
  }

  /** The verdicts of `check_stl_format`: no file, or one under 15 bytes,
   *  is invalid; "solid " followed by "facet " is ASCII; any other file is
   *  binary exactly when it holds the 84-byte header and its size is
   *  `84 + 50 * count` modulo 2^32, and invalid otherwise (so a file under
   *  84 bytes that is not ASCII is invalid). */
  lemma FormatVerdict(fp: Option<seq<Byte>>)
    ensures fp.None? || |fp.value| < 15 ==> CheckStlFormat(fp) == Invalid
    ensures fp.Some? && 15 <= |fp.value| ==>
      var file := fp.value;
      if file[..6] == Solid && file[6..12] == Facet then CheckStlFormat(fp) == Ascii
      else if 84 <= |file| && |file| == (84 + 50 * HeaderCount(file)) % 0x1_0000_0000 then CheckStlFormat(fp) == Binary
      else CheckStlFormat(fp) == Invalid
  {
    if fp.Some? && 15 <= |fp.value| {
      AsciiVerdict(fp.value);
    }
  }

  /** Where the stream stands when `check_stl_format` returns: after the
   *  first line for an ASCII verdict (the check does not rewind), at the
   *  start for a binary one. */
  function DataStart(file: seq<Byte>, f: Format): (at: nat)
    requires 15 <= |file|
    ensures at <= |file|
  {
    if f == Ascii then 6 + |Fgets(file, 6)| else 0
  }

  /** The stream stays at byte 0 unless the verdict is ASCII; then it sits
   *  right after the line `fgets` read from byte 6. */
  lemma DataStartAt(file: seq<Byte>, f: Format)
    requires 15 <= |file|
    ensures var at := DataStart(file, f);
      && (f != Ascii ==> at == 0)
      && (f == Ascii ==>
            && 6 <= at <= 6 + 99 && file[6..at] == Fgets(file, 6)
            && (at == |file| || at == 6 + 99 || file[at - 1] == Newline))
  {
  }

  // ---------------------------------------------------------------------
  // Triangle records and vertices
  // ---------------------------------------------------------------------

  /** A vertex: its three coordinate words, compared bit for bit. */
  datatype Point = Point(x: U32, y: U32, z: U32)

  function Words(p: Point): seq<U32>
  {
    [p.x, p.y, p.z]
  }

  lemma WordsInjective(p: Point, q: Point)
    ensures Words(p) == Words(q) <==> p == q
  {
    if Words(p) == Words(q) {
      assert Words(p)[0] == Words(q)[0] && Words(p)[1] == Words(q)[1];
    }
  }

  /** The vertex buffer holding the vertices `ps`, three words each, in order. */
  function Flatten(ps: seq<Point>): (w: seq<U32>)
    ensures |w| == 3 * |ps|
  {
    if ps == [] then [] else Flatten(ps[..|ps| - 1]) + Words(ps[|ps| - 1])
  }

  /** Vertex `k` occupies words `3k` to `3k + 2` of the buffer. */
  lemma {:induction false} FlattenRow(ps: seq<Point>, k: nat)
    requires k < |ps|
    ensures Flatten(ps)[3 * k..3 * k + 3] == Words(ps[k])
  {
    var init := ps[..|ps| - 1];
    if k < |init| {
      FlattenRow(init, k);
      assert Flatten(ps)[3 * k..3 * k + 3] == Flatten(init)[3 * k..3 * k + 3];
    }
  }

  /** Corner `t` of the triangle record at `off`: three words from byte
   *  `off + 12 + 12t` (the first 12 bytes of a record hold the facet
   *  normal, which the loader skips). */
  function Corner(file: seq<Byte>, off: nat, t: nat): Point
    requires off + 50 <= |file| && t < 3
  {
    Point(Get32(file, off + 12 + 12 * t), Get32(file, off + 16 + 12 * t), Get32(file, off + 20 + 12 * t))
  }

  function Corners(file: seq<Byte>, off: nat): (cs: seq<Point>)
    requires off + 50 <= |file|
    ensures |cs| == 3 && forall t :: 0 <= t < 3 ==> cs[t] == Corner(file, off, t)
  {
    [Corner(file, off, 0), Corner(file, off, 1), Corner(file, off, 2)]
  }

  /** The attribute word of the record at `off`, at byte 48. */
  function Attr(file: seq<Byte>, off: nat): U16
    requires off + 50 <= |file|
  {
    Get16(file, off + 48)
  }

  /** The corners of the first `i` records from `body` on, in file order. */
  function CornerList(file: seq<Byte>, body: nat, i: nat): (cs: seq<Point>)
    requires body + 50 * i <= |file|
    ensures |cs| == 3 * i
  {
    if i == 0 then [] else CornerList(file, body, i - 1) + Corners(file, body + 50 * (i - 1))
  }

  /** The attributes of the first `i` records from `body` on, in file order. */
  function AttrList(file: seq<Byte>, body: nat, i: nat): (ws: seq<U16>)
    requires body + 50 * i <= |file|
    ensures |ws| == i
  {
    if i == 0 then [] else AttrList(file, body, i - 1) + [Attr(file, body + 50 * (i - 1))]
  }

  /** How many of `n` records from `body` on the file holds in full: the
   *  records before the first short read. */
  function Available(file: seq<Byte>, body: nat, n: nat): (m: nat)
    requires body <= |file|
    ensures m <= n && body + 50 * m <= |file|
    ensures m < n ==> |file| < body + 50 * (m + 1)
  {
    if body + 50 * n <= |file| then n else Available(file, body, n - 1)
  }

  // ---------------------------------------------------------------------
  // The loader's result, defined without the hash table
  // ---------------------------------------------------------------------

  /** Why `loadstl` fails: an invalid format (status -2), a short read of the
   *  header or of a triangle record, or a full vertex table (status -1). */
  datatype LoadError = InvalidFormat | ShortHeader | ShortTriangle | HashFull

  function Status(e: LoadError): (code: int)
    ensures code == -2 <==> e == InvalidFormat
    ensures code == -1 <==> e != InvalidFormat
  {
    if e == InvalidFormat then -2 else -1
  }

  /** What `loadstl` hands back: the 80-byte comment, `nverts` distinct
   *  vertices as `3 * nverts` words, three vertex numbers per triangle and
   *  one attribute per triangle. */
  datatype Mesh = Mesh(comment: seq<Byte>, verts: seq<U32>, nverts: nat, tris: seq<int>, attrs: seq<U16>, ntris: nat)

  /** The vertices in order of first use and the vertex number of every
   *  corner read so far. */
  datatype Acc = Acc(points: seq<Point>, tris: seq<int>)

  /** No vertex occurs twice: each is the first occurrence of itself. */
  ghost predicate Distinct(ps: seq<Point>)
  {
    forall k {:trigger IndexOf(ps, ps[k])} :: 0 <= k < |ps| ==> IndexOf(ps, ps[k]) == k
  }

  /** The numbering the loader produces: vertex numbers are in range, the
   *  vertices are pairwise different, every vertex is used, and vertex `v`
   *  is first used after vertex `v - 1`. */
  ghost predicate Numbered(points: seq<Point>, tris: seq<int>)
  {
    && Distinct(points)
    && (forall q :: 0 <= q < |tris| ==> 0 <= tris[q] < |points|)
    && (forall v :: 0 <= v < |points| ==> v in tris)
    && (forall q :: 0 <= q < |tris| && 0 < tris[q] ==> tris[q] - 1 in tris[..q])
  }

  /** The number of the first vertex equal to `p`, or `|ps|` if there is none. */
  function IndexOf(ps: seq<Point>, p: Point): (k: nat)
    ensures k <= |ps|
    ensures k < |ps| ==> ps[k] == p
    ensures forall j :: 0 <= j < k ==> ps[j] != p
  {
    if ps == [] then 0
    else if ps[0] == p then 0
    else 1 + IndexOf(ps[1..], p)
  }

  /** Appending a vertex not among `ps` keeps the vertices pairwise
   *  different. */
  lemma DistinctAppend(ps: seq<Point>, p: Point)
    requires Distinct(ps) && IndexOf(ps, p) == |ps|
    ensures Distinct(ps + [p])
  {
    var qs := ps + [p];
    forall k | 0 <= k < |qs|
      ensures IndexOf(qs, qs[k]) == k
    {
      if k < |ps| {
        assert IndexOf(ps, ps[k]) == k;
      }
    }
  }

  /** One corner through the vertex table: a vertex seen before gets its
   *  number; a new one gets the next number, unless the table already
   *  holds `cap` vertices. */
  function AddCorner(acc: Acc, p: Point, cap: int): Result<Acc, LoadError>
  {
    var k := IndexOf(acc.points, p);
    if k < |acc.points| then Ok(acc.(tris := acc.tris + [k]))
    else if cap <= |acc.points| then Err(HashFull)
    else Ok(Acc(acc.points + [p], acc.tris + [k]))
  }

  /** Corners `ps`, in order, through the vertex table. */
  function AddCorners(acc: Acc, ps: seq<Point>, cap: int): Result<Acc, LoadError>
  {
    if ps == [] then Ok(acc)
    else
      match AddCorners(acc, ps[..|ps| - 1], cap)
      case Err(e) => Err(e)
      case Ok(a) => AddCorner(a, ps[|ps| - 1], cap)
  }

  /** The loader's main loop over `n` records from `body` on, with a vertex
   *  table of `cap` slots: the corners of the records present are numbered
   *  in order, a full table stopping it first; a missing record stops it
   *  next. On success: the numbering and the attributes. */
  function DecodeTriangles(file: seq<Byte>, body: nat, cap: int, n: nat): Result<(Acc, seq<U16>), LoadError>
    requires body <= |file|
  {
    var m := Available(file, body, n);
    match AddCorners(Acc([], []), CornerList(file, body, m), cap)
    case Err(e) => Err(e)
    case Ok(a) => if m < n then Err(ShortTriangle) else Ok((a, AttrList(file, body, m)))
  }

  /** `loadstl` as a function of the opened file: check the format, then
   *  read from where the check left the stream. */
  function Load(fp: Option<seq<Byte>>): Result<Mesh, LoadError>
  {
    var f := CheckStlFormat(fp);
    if f == Invalid then Err(InvalidFormat) else LoadAfterCheck(fp.value, DataStart(fp.value, f))
  }

  /** The vertex table's size for `n` triangles: `nextpow2(4 * n)`, the
   *  product taken modulo 2^32. */
  function TableSize(n: nat): int
  {
    NextPow2Int((4 * n) % 0x1_0000_0000)
  }

  /** `nextpow2(4 * ntris)` on the word read from the header is the table
   *  size for the count it stands for. */
  lemma TableSizeOf(b: seq<Byte>, off: nat)
    requires off + 4 <= |b|
    ensures NextPow2(4 * Get32Bits(b, off)) as int == TableSize(Get32(b, off))
  {
    NextPow2Value(4 * Get32Bits(b, off));
    QuadCount(b, off);
  }

  /** `loadstl` after a passing format check, the stream at `start`: read
   *  the 84-byte header, size the vertex table as `nextpow2(4 * ntris)` in
   *  32-bit arithmetic, and read `ntris` records. */
  function LoadAfterCheck(file: seq<Byte>, start: nat): Result<Mesh, LoadError>
    requires start <= |file|
  {
    if |file| < start + 84 then Err(ShortHeader)
    else
      var n := Get32(file, start + 80);
      match DecodeTriangles(file, start + 84, TableSize(n), n)
      case Err(e) => Err(e)
      case Ok((a, attrs)) => Ok(Mesh(file[start..start + 80], Flatten(a.points), |a.points|, a.tris, attrs, n))
  }

  // ---------------------------------------------------------------------
  // Properties of the vertex numbering
  // ---------------------------------------------------------------------

  /** Referring again to a vertex already numbered keeps the numbering. */
  lemma NumberedReuse(points: seq<Point>, tris: seq<int>, k: int)
    requires Numbered(points, tris) && 0 <= k < |points|
    ensures Numbered(points, tris + [k])
  {
    var t := tris + [k];
    assert t[..|tris|] == tris;
    forall v | 0 <= v < |points|
      ensures v in t
    {
      assert v in tris;
    }
    forall q | 0 <= q < |t| && 0 < t[q]
      ensures t[q] - 1 in t[..q]
    {
      if q < |tris| {
        assert t[..q] == tris[..q];
      } else {
        assert k - 1 in tris;
      }
    }
  }

  /** Numbering a vertex not seen before with the next number keeps the
   *  numbering. */
  lemma NumberedFresh(points: seq<Point>, tris: seq<int>, p: Point)
    requires Numbered(points, tris) && forall j :: 0 <= j < |points| ==> points[j] != p
    ensures Numbered(points + [p], tris + [|points|])
  {
    var ps, t := points + [p], tris + [|points|];
    assert t[..|tris|] == tris;
    DistinctAppend(points, p);
    forall v | 0 <= v < |ps|
      ensures v in t
    {
      if v < |points| {
        assert v in tris;
      } else {
        assert t[|tris|] == v;
      }
    }
    forall q | 0 <= q < |t| && 0 < t[q]
      ensures t[q] - 1 in t[..q]
    {
      if q < |tris| {
        assert t[..q] == tris[..q];
      } else {
        assert t[..q] == tris;
        assert |points| - 1 in tris;
      }
    }
  }

  /** One corner keeps the numbering. */
  lemma AddCornerNumbered(acc: Acc, p: Point, cap: int)
    requires Numbered(acc.points, acc.tris)
    requires AddCorner(acc, p, cap).Ok?
    ensures Numbered(AddCorner(acc, p, cap).value.points, AddCorner(acc, p, cap).value.tris)
  {
    var k := IndexOf(acc.points, p);
    if k < |acc.points| {
      NumberedReuse(acc.points, acc.tris, k);
    } else {
      NumberedFresh(acc.points, acc.tris, p);
    }
  }

  /** One corner extends the vertices and the corner numbers, and numbers
   *  the new corner with a vertex equal to it. */
  lemma AddCornerShape(acc: Acc, p: Point, cap: int)
    requires AddCorner(acc, p, cap).Ok?
    ensures var a := AddCorner(acc, p, cap).value;
      && acc.points <= a.points && |a.points| <= |acc.points| + 1
      && |a.tris| == |acc.tris| + 1 && a.tris[..|acc.tris|] == acc.tris
      && 0 <= a.tris[|acc.tris|] < |a.points| && a.points[a.tris[|acc.tris|]] == p
  {
    var k := IndexOf(acc.points, p);
    assert (acc.tris + [k])[..|acc.tris|] == acc.tris;
  }

  /** Corners in order keep the numbering. */
  lemma {:induction false} AddCornersNumbered(acc: Acc, ps: seq<Point>, cap: int)
    requires Numbered(acc.points, acc.tris)
    requires AddCorners(acc, ps, cap).Ok?
    ensures Numbered(AddCorners(acc, ps, cap).value.points, AddCorners(acc, ps, cap).value.tris)
    decreases |ps|
  {
    if ps != [] {
      AddCornersNumbered(acc, ps[..|ps| - 1], cap);
      AddCornerNumbered(AddCorners(acc, ps[..|ps| - 1], cap).value, ps[|ps| - 1], cap);
    }
  }

  /** Corners in order: earlier corner numbers and vertices stay, and each
   *  new corner number names a stored vertex equal to that corner. */
  lemma {:induction false} AddCornersShape(acc: Acc, ps: seq<Point>, cap: int)
    requires forall q :: 0 <= q < |acc.tris| ==> 0 <= acc.tris[q] < |acc.points|
    requires AddCorners(acc, ps, cap).Ok?
    ensures var a := AddCorners(acc, ps, cap).value;
      && acc.points <= a.points && |a.points| <= |acc.points| + |ps|
      && |a.tris| == |acc.tris| + |ps| && a.tris[..|acc.tris|] == acc.tris
      && (forall q :: 0 <= q < |a.tris| ==> 0 <= a.tris[q] < |a.points|)
      && (forall t :: 0 <= t < |ps| ==> a.points[a.tris[|acc.tris| + t]] == ps[t])
    decreases |ps|
  {
    if ps != [] {
      var init := ps[..|ps| - 1];
      AddCornersShape(acc, init, cap);
      var a0 := AddCorners(acc, init, cap).value;
      AddCornerShape(a0, ps[|ps| - 1], cap);
      var a := AddCorners(acc, ps, cap).value;
      forall q | 0 <= q < |a.tris|
        ensures 0 <= a.tris[q] < |a.points|
      {
        if q < |a0.tris| {
          assert a.tris[q] == a0.tris[q];
        }
      }
      forall t | 0 <= t < |ps|
        ensures a.points[a.tris[|acc.tris| + t]] == ps[t]
      {
        if t < |init| {
          assert a.tris[|acc.tris| + t] == a0.tris[|acc.tris| + t];
          assert init[t] == ps[t];
        }
      }
      assert a.tris[..|acc.tris|] == a0.tris[..|acc.tris|];
    }
  }

  /** With room for every corner the table never fills. */
  lemma {:induction false} AddCornersRoom(acc: Acc, ps: seq<Point>, cap: int)
    requires |acc.points| + |ps| <= cap
    ensures AddCorners(acc, ps, cap).Ok?
    ensures |AddCorners(acc, ps, cap).value.points| <= |acc.points| + |ps|
    decreases |ps|
  {
    if ps != [] {
      AddCornersRoom(acc, ps[..|ps| - 1], cap);
    }
  }

  /** A corner that fails stops the loop with that failure. */
  lemma {:induction false} AddCornersFails(acc: Acc, ps: seq<Point>, cap: int, j: nat)
    requires j <= |ps| && AddCorners(acc, ps[..j], cap).Err?
    ensures AddCorners(acc, ps, cap) == AddCorners(acc, ps[..j], cap)
    decreases |ps|
  {
    if j < |ps| {
      var init := ps[..|ps| - 1];
      assert init[..j] == ps[..j];
      AddCornersFails(acc, init, cap, j);
    } else {
      assert ps[..j] == ps;
    }
  }

  /** The only way the main loop fails on its own is a full table. */
  lemma {:induction false} AddCornersError(acc: Acc, ps: seq<Point>, cap: int)
    ensures AddCorners(acc, ps, cap).Err? ==> AddCorners(acc, ps, cap).error == HashFull
    decreases |ps|
  {
    if ps != [] {
      AddCornersError(acc, ps[..|ps| - 1], cap);
    }
  }

  // ---------------------------------------------------------------------
  // Properties of the record lists
  // ---------------------------------------------------------------------

  /** Corner `t` of record `q` is entry `3q + t` of the corner list. */
  lemma {:induction false} CornerListAt(file: seq<Byte>, body: nat, i: nat, q: nat, t: nat)
    requires body + 50 * i <= |file| && q < i && t < 3
    ensures CornerList(file, body, i)[3 * q + t] == Corner(file, body + 50 * q, t)
    decreases i
  {
    if q < i - 1 {
      CornerListAt(file, body, i - 1, q, t);
    }
  }

  /** Attribute `q` is that of record `q`. */
  lemma {:induction false} AttrListAt(file: seq<Byte>, body: nat, i: nat, q: nat)
    requires body + 50 * i <= |file| && q < i
    ensures AttrList(file, body, i)[q] == Attr(file, body + 50 * q)
    decreases i
  {
    if q < i - 1 {
      AttrListAt(file, body, i - 1, q);
    }
  }

  // ---------------------------------------------------------------------
  // Properties of the main loop
  // ---------------------------------------------------------------------

  /** A successful loop read all `n` records, numbered their `3n` corners
   *  with stored vertices, at most `3n` of them, and kept `n` attributes. */
  lemma DecodeShape(file: seq<Byte>, body: nat, cap: int, n: nat)
    requires body <= |file| && DecodeTriangles(file, body, cap, n).Ok?
    ensures var (a, attrs) := DecodeTriangles(file, body, cap, n).value;
      && body + 50 * n <= |file|
      && |a.tris| == 3 * n && |attrs| == n && |a.points| <= 3 * n
      && (forall c :: 0 <= c < |a.tris| ==> 0 <= a.tris[c] < |a.points|)
  {
    AddCornersShape(Acc([], []), CornerList(file, body, n), cap);
  }

  /** After a successful loop, every corner read is numbered with a stored
   *  vertex equal to it. */
  lemma DecodeCorners(file: seq<Byte>, body: nat, cap: int, n: nat)
    requires body <= |file| && DecodeTriangles(file, body, cap, n).Ok?
    ensures var (a, _) := DecodeTriangles(file, body, cap, n).value;
      && body + 50 * n <= |file| && |a.tris| == 3 * n
      && forall c :: 0 <= c < 3 * n ==> 0 <= a.tris[c] < |a.points| && a.points[a.tris[c]] == CornerList(file, body, n)[c]
  {
    AddCornersShape(Acc([], []), CornerList(file, body, n), cap);
  }

  /** After a successful loop, attribute `q` is that of record `q`. */
  lemma DecodeAttr(file: seq<Byte>, body: nat, cap: int, n: nat, q: nat)
    requires body <= |file| && DecodeTriangles(file, body, cap, n).Ok? && q < n
    ensures var (_, attrs) := DecodeTriangles(file, body, cap, n).value;
      body + 50 * n <= |file| && |attrs| == n && attrs[q] == Attr(file, body + 50 * q)
  {
    AttrListAt(file, body, n, q);
  }

  /** After a successful loop, corner `t` of record `q` is, word for word,
   *  the vertex it is numbered with in the vertex buffer. */
  lemma DecodeCornerRow(file: seq<Byte>, body: nat, cap: int, n: nat, q: nat, t: nat)
    requires body <= |file| && DecodeTriangles(file, body, cap, n).Ok? && q < n && t < 3
    ensures var (a, _) := DecodeTriangles(file, body, cap, n).value;
      && body + 50 * (q + 1) <= |file| && 3 * q + t < |a.tris| && 0 <= a.tris[3 * q + t] < |a.points|
      && Flatten(a.points)[3 * a.tris[3 * q + t]..3 * a.tris[3 * q + t] + 3] == Words(Corner(file, body + 50 * q, t))
  {
    DecodeCorners(file, body, cap, n);
    CornerListAt(file, body, n, q, t);
    var a := DecodeTriangles(file, body, cap, n).value.0;
    FlattenRow(a.points, a.tris[3 * q + t]);
  }

  /** A successful loop numbers vertices as `Numbered` says. */
  lemma DecodeNumbered(file: seq<Byte>, body: nat, cap: int, n: nat)
    requires body <= |file| && DecodeTriangles(file, body, cap, n).Ok?
    ensures var (a, _) := DecodeTriangles(file, body, cap, n).value;
      Numbered(a.points, a.tris)
  {
    AddCornersNumbered(Acc([], []), CornerList(file, body, n), cap);
  }

  /** With three slots per record the table never fills, and if every
   *  record is present the loop succeeds. */
  lemma DecodeRoom(file: seq<Byte>, body: nat, cap: int, n: nat)
    requires body <= |file| && 3 * n <= cap
    ensures DecodeTriangles(file, body, cap, n) != Err(HashFull)
    ensures body + 50 * n <= |file| ==> DecodeTriangles(file, body, cap, n).Ok?
  {
    AddCornersRoom(Acc([], []), CornerList(file, body, Available(file, body, n)), cap);
  }

  // ---------------------------------------------------------------------
  // Properties of the loader's result
  // ---------------------------------------------------------------------

  /** Past the header, a loaded mesh is the main loop's result. */
  lemma LoadLoop(file: seq<Byte>, start: nat)
    requires start <= |file| && LoadAfterCheck(file, start).Ok?
    ensures start + 84 <= |file|
    ensures var n := Get32(file, start + 80);
      var d := DecodeTriangles(file, start + 84, TableSize(n), n);
      && d.Ok?
      && LoadAfterCheck(file, start).value
         == Mesh(file[start..start + 80], Flatten(d.value.0.points), |d.value.0.points|, d.value.0.tris, d.value.1, n)
  {
  }

  /** A loaded mesh has an 80-byte comment, three words per vertex, three
   *  vertex numbers and one attribute per triangle, every vertex number in
   *  range, at most three vertices per triangle, and all its records were
   *  in the file. */
  lemma LoadedShape(file: seq<Byte>, start: nat)
    requires start <= |file| && LoadAfterCheck(file, start).Ok?
    ensures var m := LoadAfterCheck(file, start).value;
      && |m.comment| == 80 && |m.verts| == 3 * m.nverts
      && |m.tris| == 3 * m.ntris && |m.attrs| == m.ntris
      && m.nverts <= 3 * m.ntris && m.ntris < 0x1_0000_0000
      && start + 84 + 50 * m.ntris <= |file|
      && (forall c :: 0 <= c < |m.tris| ==> 0 <= m.tris[c] < m.nverts)
  {
    LoadLoop(file, start);
    var n := Get32(file, start + 80);
    DecodeShape(file, start + 84, TableSize(n), n);
  }

  /** Corner `t` of record `q` is, word for word, the vertex the mesh
   *  numbers it with. */
  lemma LoadedCorner(file: seq<Byte>, start: nat, q: nat, t: nat)
    requires start <= |file| && LoadAfterCheck(file, start).Ok?
    requires q < LoadAfterCheck(file, start).value.ntris && t < 3
    ensures var m := LoadAfterCheck(file, start).value;
      var off := start + 84 + 50 * q;
      && off + 50 <= |file| && 3 * q + t < |m.tris| && 0 <= m.tris[3 * q + t] < m.nverts
      && 3 * m.tris[3 * q + t] + 3 <= |m.verts|
      && m.verts[3 * m.tris[3 * q + t]..3 * m.tris[3 * q + t] + 3] == Words(Corner(file, off, t))
  {
    LoadLoop(file, start);
    var n := Get32(file, start + 80);
    DecodeCornerRow(file, start + 84, TableSize(n), n, q, t);
  }

  /** Attribute `q` of a loaded mesh is that of record `q`. */
  lemma LoadedAttr(file: seq<Byte>, start: nat, q: nat)
    requires start <= |file| && LoadAfterCheck(file, start).Ok?
    requires q < LoadAfterCheck(file, start).value.ntris
    ensures var m := LoadAfterCheck(file, start).value;
      start + 84 + 50 * (q + 1) <= |file| && q < |m.attrs| && m.attrs[q] == Attr(file, start + 84 + 50 * q)
  {
    LoadLoop(file, start);
    var n := Get32(file, start + 80);
    DecodeAttr(file, start + 84, TableSize(n), n, q);
    DecodeShape(file, start + 84, TableSize(n), n);
  }

  /** The vertices of a loaded mesh are pairwise different, every one is
   *  used, and they are numbered in order of first use. */
  lemma LoadedNumbering(file: seq<Byte>, start: nat)
    requires start <= |file| && LoadAfterCheck(file, start).Ok?
    ensures var m := LoadAfterCheck(file, start).value;
      && |m.verts| == 3 * m.nverts
      && (forall j, k :: 0 <= j < k < m.nverts ==> m.verts[3 * j..3 * j + 3] != m.verts[3 * k..3 * k + 3])
      && (forall v :: 0 <= v < m.nverts ==> v in m.tris)
      && (forall c :: 0 <= c < |m.tris| && 0 < m.tris[c] ==> m.tris[c] - 1 in m.tris[..c])
  {
    LoadLoop(file, start);
    var n := Get32(file, start + 80);
    var body, cap := start + 84, TableSize(n);
    DecodeNumbered(file, body, cap, n);
    var a := DecodeTriangles(file, body, cap, n).value.0;
    forall j, k | 0 <= j < k < |a.points|
      ensures Flatten(a.points)[3 * j..3 * j + 3] != Flatten(a.points)[3 * k..3 * k + 3]
    {
      FlattenRow(a.points, j);
      FlattenRow(a.points, k);
      WordsInjective(a.points[j], a.points[k]);
      assert IndexOf(a.points, a.points[k]) == k;
    }
  }

  /** For at most 2^29 triangles the table of `nextpow2(4 * ntris)` slots
   *  has room for three vertices per triangle. */
  lemma TableRoom(n: nat)
    requires n <= 0x2000_0000
    ensures 3 * n <= TableSize(n)
  {
    if 0 < n {
      assert (4 * n) % 0x1_0000_0000 == 4 * n;
    }
  }

  /** With at most 2^29 triangles announced, the vertex table never fills. */
  lemma NeverFull(file: seq<Byte>, start: nat)
    requires start + 84 <= |file| && Get32(file, start + 80) <= 0x2000_0000
    ensures LoadAfterCheck(file, start) != Err(HashFull)
  {
    var n := Get32(file, start + 80);
    TableRoom(n);
    DecodeRoom(file, start + 84, TableSize(n), n);
  }

  /** A binary verdict leaves the stream at the start: loading reads the
   *  header from byte 0. */
  lemma BinaryStart(file: seq<Byte>)
    requires CheckStlFormat(Some(file)) == Binary
    ensures 84 <= |file| && |file| == (84 + 50 * HeaderCount(file)) % 0x1_0000_0000
    ensures Load(Some(file)) == LoadAfterCheck(file, 0)
  {
  }

  /** A file whose size matches its header modulo 2^32 loads exactly when
   *  `84 + 50 * ntris` does not wrap. */
  lemma SizedLoads(file: seq<Byte>)
    requires 84 <= |file| && |file| == (84 + 50 * HeaderCount(file)) % 0x1_0000_0000
    ensures LoadAfterCheck(file, 0).Ok? <==> 84 + 50 * HeaderCount(file) < 0x1_0000_0000
  {
    var n := HeaderCount(file);
    var size := 84 + 50 * n;
    if size < 0x1_0000_0000 {
      ModUnique(size, 0x1_0000_0000, 0, size);
      TableRoom(n);
      DecodeRoom(file, 84, TableSize(n), n);
    } else if LoadAfterCheck(file, 0).Ok? {
      LoadedShape(file, 0);
    }
  }

  /** A file that passes the binary check loads exactly when its announced
   *  size `84 + 50 * ntris` did not wrap around 2^32 in the check. */
  lemma BinaryLoads(file: seq<Byte>)
    requires CheckStlFormat(Some(file)) == Binary
    ensures Load(Some(file)).Ok? <==> 84 + 50 * HeaderCount(file) < 0x1_0000_0000
  {
    BinaryStart(file);
    SizedLoads(file);
  }

  // ---------------------------------------------------------------------
  // Remainders
  // ---------------------------------------------------------------------

  /** A nonzero multiple of a positive `m` is at least `m` away from 0. */
  lemma MulApart(d: int, m: int)
    requires m > 0
    ensures d >= 1 ==> d * m >= m
    ensures d <= -1 ==> d * m <= -m
  {
    if d >= 1 {
      assert d * m == (d - 1) * m + m;
      MulNonNeg(d - 1, m);
    } else if d <= -1 {
      assert -(d * m) == (-d - 1) * m + m;
      MulNonNeg(-d - 1, m);
    }
  }

  lemma MulNonNeg(a: int, b: int)
    requires 0 <= a && 0 <= b
    ensures 0 <= a * b
  {
  }

  /** The remainder is the unique `r` in `[0, m)` with `x == q * m + r`. */
  lemma ModUnique(x: int, m: int, q: int, r: int)
    requires m > 0 && x == q * m + r && 0 <= r < m
    ensures x % m == r
  {
    var q', r' := x / m, x % m;
    var d := q - q';
    assert d * m == r' - r by {
      assert x == q' * m + r';
      assert q * m - q' * m == (q - q') * m;
    }
    MulApart(d, m);
  }

  /** The status `loadstl` returns: -2 exactly when the format check failed,
   *  -1 for every failure after it, which the Python binding reports as
   *  "Invalid" and "Failed". */
  lemma LoadStatus(fp: Option<seq<Byte>>)
    ensures CheckStlFormat(fp) == Invalid ==> Load(fp) == Err(InvalidFormat)
    ensures Load(fp).Err? ==> (Status(Load(fp).error) == -2 <==> CheckStlFormat(fp) == Invalid)
  {
    var f := CheckStlFormat(fp);
    if f != Invalid {
      LoadAfterCheckError(fp.value, DataStart(fp.value, f));
    }
  }

  lemma LoadAfterCheckError(file: seq<Byte>, start: nat)
    requires start <= |file|
    ensures LoadAfterCheck(file, start).Err? ==> LoadAfterCheck(file, start).error != InvalidFormat
  {
    if start + 84 <= |file| {
      var n := Get32(file, start + 80);
      var body := start + 84;
      AddCornersError(Acc([], []), CornerList(file, body, Available(file, body, n)), TableSize(n));
    }
  }
}
