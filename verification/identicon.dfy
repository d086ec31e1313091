/**
 * The avatar identicon: a 32-bit FNV-1a hash of the value's UTF-16 code units picks a hue
 * and seeds an xorshift32 generator whose low bits fill the left half (three columns) of a
 * 5x5 grid; the grid is mirrored so that column x and column 4 - x agree.
 *
 * JavaScript numbers are used here only through `>>> 0`, `^`, `<<`, `>>>` and Math.imul,
 * all of which act on the 32-bit two's-complement pattern; that is exactly `bv32`
 * arithmetic, so the wrap-around of the source is the wrap-around of the type.
 */
module Identicon {

  import opened Common

  /** A UTF-16 code unit, what String.prototype.charCodeAt returns. */
  type CodeUnit = bv16

  const FnvOffsetBasis: bv32 := 2166136261
  const FnvPrime: bv32 := 16777619

  /** The grid is Cells x Cells; only the first HalfCells columns are generated. */
  const Cells: nat := 5

  /** Math.ceil(n / 2) on a natural number. */
  function CeilHalf(n: nat): (r: nat)
    ensures n <= 2 * r <= n + 1
  {
    (n + 1) / 2
  }

  const HalfCells: nat := CeilHalf(Cells)

  // ---------------------------------------------------------------------------
  // The hash

  /** One FNV-1a round: xor the code unit in, then multiply modulo 2^32 (Math.imul). */
  function FnvStep(h: bv32, c: CodeUnit): bv32 {
    (h ^ (c as bv32)) * FnvPrime
  }

  /** The FNV-1a rounds over s, left to right, starting from state h. */
  function FnvFrom(h: bv32, s: seq<CodeUnit>): bv32
    decreases |s|
  {
    if s == [] then h else FnvFrom(FnvStep(h, s[0]), s[1..])
  }

  /** 32-bit FNV-1a: the reference definition the loop in the source implements. */
  function Fnv1a(s: seq<CodeUnit>): bv32 {
    FnvFrom(FnvOffsetBasis, s)
  }

  /** Feeding one more code unit is one more round on the hash so far. */
  lemma {:induction false} FnvFromSnoc(h: bv32, s: seq<CodeUnit>, c: CodeUnit)
    ensures FnvFrom(h, s + [c]) == FnvStep(FnvFrom(h, s), c)
    decreases |s|
  {
    if s != [] {
      assert (s + [c])[1..] == s[1..] + [c];
      FnvFromSnoc(FnvStep(h, s[0]), s[1..], c);
    }
  }

  /** Hashing a concatenation continues from the hash of the first part. */
  lemma {:induction false} FnvFromAppend(h: bv32, a: seq<CodeUnit>, b: seq<CodeUnit>)
    ensures FnvFrom(h, a + b) == FnvFrom(FnvFrom(h, a), b)
    decreases |a|
  {
    if a != [] {
      assert (a + b)[1..] == a[1..] + b;
      FnvFromAppend(FnvStep(h, a[0]), a[1..], b);
    } else {
      assert a + b == b;
    }
  }

  /** hashString: the loop over the code units; the empty string hashes to the offset basis. */
  method HashString(str: seq<CodeUnit>) returns (h: bv32)
    ensures h == Fnv1a(str)
    ensures str == [] ==> h == 2166136261
  {
    h := FnvOffsetBasis;
    for i := 0 to |str|
      invariant h == FnvFrom(FnvOffsetBasis, str[..i])
    {
      h := FnvStep(h, str[i]);
      FnvFromSnoc(FnvOffsetBasis, str[..i], str[i]);
      assert str[..i + 1] == str[..i] + [str[i]];
    }
    assert str[..|str|] == str;
  }

  // ---------------------------------------------------------------------------
  // The colour

  /** An HSL colour; hue in degrees, saturation and lightness in percent. */
  datatype Hsl = Hsl(hue: nat, saturation: nat, lightness: nat)

  /** hslFromHash: the hue is the hash reduced modulo 360; saturation 65, lightness 50. */
  function HslFromHash(h: bv32): (c: Hsl)
    ensures c.hue < 360
    ensures (h as int - c.hue) % 360 == 0
    ensures c.saturation == 65 && c.lightness == 50
  {
    Hsl((h as int) % 360, 65, 50)
  }

  // ---------------------------------------------------------------------------
  // The pattern bits

  /** One xorshift32 step with shifts 13, 17 (logical) and 5. */
  function Xorshift32(s: bv32): bv32 {
    var a := s ^ (s << 13);
    var b := a ^ (a >> 17);
    b ^ (b << 5)
  }

  /** The n-th xorshift32 state from seed h (state 0 is the seed itself). */
  function XorshiftState(h: bv32, n: nat): bv32
    decreases n
  {
    if n == 0 then h else Xorshift32(XorshiftState(h, n - 1))
  }

  /** `seed & 1`, read as a boolean. */
  predicate LowBit(s: bv32) {
    s & 1 == 1
  }

  /** Bit i of the pattern is the low bit of state i + 1. */
  predicate PatternBit(h: bv32, i: nat) {
    LowBit(XorshiftState(h, i + 1))
  }

  /** The whole pattern: Cells * HalfCells = 15 bits. */
  function PatternBits(h: bv32): (bits: seq<bool>)
    ensures |bits| == Cells * HalfCells == 15
    ensures forall i :: 0 <= i < |bits| ==> bits[i] == PatternBit(h, i)
  {
    seq(Cells * HalfCells, i requires 0 <= i => PatternBit(h, i))
  }

  /** The generator loop: 15 steps of xorshift32 from the hash, keeping each low bit. */
  method GenerateBits(h: bv32) returns (bits: seq<bool>)
    ensures bits == PatternBits(h)
  {
    bits := [];
    var seed := h;
    for i := 0 to Cells * HalfCells
      invariant |bits| == i
      invariant seed == XorshiftState(h, i)
      invariant forall j :: 0 <= j < i ==> bits[j] == PatternBit(h, j)
    {
      seed := Xorshift32(seed);
      assert seed == XorshiftState(h, i + 1);
      bits := bits + [LowBit(seed)];
    }
  }

  /** Zero is a fixed point of xorshift32 and nothing else reaches it. */
  lemma XorshiftZero(s: bv32)
    ensures Xorshift32(s) == 0 <==> s == 0
  {
  }

  /** From seed 0 every state is 0; from any other seed no state is 0. */
  lemma {:induction false} XorshiftStateZero(h: bv32, n: nat)
    ensures XorshiftState(h, n) == 0 <==> h == 0
    decreases n
  {
    if n > 0 {
      XorshiftStateZero(h, n - 1);
      XorshiftZero(XorshiftState(h, n - 1));
    }
  }

  /** A hash of 0 yields a blank pattern. */
  lemma ZeroHashIsBlank()
    ensures forall i :: 0 <= i < 15 ==> !PatternBits(0)[i]
  {
    forall i | 0 <= i < 15 ensures !PatternBit(0, i) {
      XorshiftStateZero(0, i + 1);
    }
  }

  // ---------------------------------------------------------------------------
  // The mirrored grid

  /** A filled square of the grid, by column and row (the pixel geometry is left out). */
  datatype Cell = Cell(x: nat, y: nat)

  /** The generated column a grid column takes its bit from: itself on the left, its mirror on the right. */
  function SourceColumn(x: nat): (c: nat)
    requires x < Cells
    ensures c < HalfCells
    ensures c == x || c == Cells - 1 - x
  {
    if x < HalfCells then x else Cells - 1 - x
  }

  /** Whether the square at column x, row y is filled, given the 15 pattern bits. */
  predicate Filled(bits: seq<bool>, x: nat, y: nat)
    requires |bits| == Cells * HalfCells
    requires x < Cells && y < Cells
  {
    bits[y * HalfCells + SourceColumn(x)]
  }

  /** The grid is mirror-symmetric: column x is filled iff column 4 - x is. */
  lemma FilledIsSymmetric(bits: seq<bool>, x: nat, y: nat)
    requires |bits| == Cells * HalfCells
    requires x < Cells && y < Cells
    ensures Filled(bits, x, y) == Filled(bits, Cells - 1 - x, y)
  {
  }

  /** The cells already drawn when the layout loop is at row y, generated column x. */
  ghost predicate DrawnBefore(c: Cell, x: nat, y: nat) {
    c.y < y || (c.y == y && (c.x < x || Cells - 1 - x < c.x))
  }

  /**
   * The layout loop: for every row and every generated column whose bit is set, draw the
   * square and its mirror image, the mirror only when it is a different column (so the middle
   * column is drawn once). The result is exactly the filled squares, each once.
   */
  method LayoutCells(bits: seq<bool>) returns (rects: seq<Cell>)
    requires |bits| == Cells * HalfCells
    ensures forall c :: c in rects <==> c.x < Cells && c.y < Cells && Filled(bits, c.x, c.y)
    ensures forall i, j :: 0 <= i < j < |rects| ==> rects[i] != rects[j]
  {
    rects := [];
    for y := 0 to Cells
      invariant forall c :: c in rects <==> c.x < Cells && c.y < y && Filled(bits, c.x, c.y)
      invariant forall i, j :: 0 <= i < j < |rects| ==> rects[i] != rects[j]
    {
      for x := 0 to HalfCells
        invariant forall c :: c in rects <==>
          c.x < Cells && c.y <= y && DrawnBefore(c, x, y) && Filled(bits, c.x, c.y)
        invariant forall i, j :: 0 <= i < j < |rects| ==> rects[i] != rects[j]
      {
        var idx := y * HalfCells + x;
        assert idx < |bits|;
        if bits[idx] {
          rects := rects + [Cell(x, y)];
          var mx := Cells - 1 - x;
          if mx != x {
            rects := rects + [Cell(mx, y)];
          }
        }
      }
    }
  }

  /** Every square drawn has its mirror image drawn too. */
  lemma LayoutIsSymmetric(bits: seq<bool>, rects: seq<Cell>, c: Cell)
    requires |bits| == Cells * HalfCells
    requires forall d :: d in rects <==> d.x < Cells && d.y < Cells && Filled(bits, d.x, d.y)
    requires c in rects
    ensures Cell(Cells - 1 - c.x, c.y) in rects
  {
    FilledIsSymmetric(bits, c.x, c.y);
  }

  /** The identicon: its colour and its filled squares; a missing value is hashed as "". */
  method Render(value: Option<seq<CodeUnit>>) returns (color: Hsl, rects: seq<Cell>)
    ensures color == HslFromHash(Fnv1a(value.GetOr([])))
    ensures forall c :: c in rects <==>
      c.x < Cells && c.y < Cells && Filled(PatternBits(Fnv1a(value.GetOr([]))), c.x, c.y)
    ensures forall i, j :: 0 <= i < j < |rects| ==> rects[i] != rects[j]
  {
    var h := HashString(value.GetOr([]));
    color := HslFromHash(h);
    var bits := GenerateBits(h);
    rects := LayoutCells(bits);
  }
}
