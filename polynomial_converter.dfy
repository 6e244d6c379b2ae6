/**
 * PolynomialConverter: polynomials over GF(2^n) as strings of fixed-width binary codewords, the
 * first codeword being the highest-degree coefficient. The width is the field degree n, so a
 * codeword holds exactly one field element.
 */
module PolynomialConverters {
  import opened Wrappers
  import opened Fields
  import Bits
  import NumberTheory
  import Core = PolynomialCore
  import Imm = ImmutablePolynomials

  type Poly = Imm.PolynomialImmutable

  // ---------------------------------------------------------------------------------------------
  // Binary text: bindec, decbin and left padding
  // ---------------------------------------------------------------------------------------------

  /** A string of the characters '0' and '1' only. */
  predicate IsBitString(s: seq<char>)
  {
    forall i :: 0 <= i < |s| ==> s[i] == '0' || s[i] == '1'
  }

  function Digit(b: nat): char
    requires b < 2
  {
    if b == 0 then '0' else '1'
  }

  /** bindec: the value of a bit string read most significant digit first. */
  function BinDec(s: seq<char>): nat
    decreases |s|
  {
    if s == [] then 0 else 2 * BinDec(s[..|s| - 1]) + (if s[|s| - 1] == '1' then 1 else 0)
  }

  /** Appending one digit doubles the value and adds the digit. */
  lemma BinDecAppend(s: seq<char>, b: nat)
    requires b < 2
    ensures BinDec(s + [Digit(b)]) == 2 * BinDec(s) + b
  {
    assert (s + [Digit(b)])[..|s|] == s;
  }

  /** A bit string of length w encodes a value below 2^w. */
  lemma {:induction false} BinDecBound(s: seq<char>)
    ensures BinDec(s) < Bits.Pow2(|s|)
  {
    if s != [] {
      BinDecBound(s[..|s| - 1]);
    }
  }

  /** decbin: the shortest binary text of v, "0" for 0; bindec reads it back. */
  function DecBin(v: nat): (r: seq<char>)
    ensures IsBitString(r) && |r| >= 1
    ensures BinDec(r) == v
  {
    if v < 2 then
      assert [Digit(v)][..0] == [];
      [Digit(v)]
    else
      BinDecAppend(DecBin(v / 2), v % 2);
      DecBin(v / 2) + [Digit(v % 2)]
  }

  /** A value below 2^w (w at least 1) needs at most w digits. */
  lemma {:induction false} DecBinLength(v: nat, w: nat)
    requires w >= 1 && v < Bits.Pow2(w)
    ensures |DecBin(v)| <= w
  {
    if v >= 2 {
      DecBinLength(v / 2, w - 1);
    }
  }

  function Zeros(n: nat): (r: seq<char>)
    ensures |r| == n && IsBitString(r)
  {
    seq(n, _ => '0')
  }

  /** str_pad(s, w, '0', STR_PAD_LEFT): zeros in front up to length w; longer text is kept. */
  function PadLeft(s: seq<char>, w: nat): (r: seq<char>)
  {
    if |s| >= w then s else Zeros(w - |s|) + s
  }

  /** Leading zeros do not change the value of a bit string. */
  lemma {:induction false} BinDecLeadingZeros(n: nat, s: seq<char>)
    ensures BinDec(Zeros(n) + s) == BinDec(s)
    decreases |s|
  {
    if s == [] {
      ZerosValue(n);
      assert Zeros(n) + s == Zeros(n);
    } else {
      var t := Zeros(n) + s;
      assert t[..|t| - 1] == Zeros(n) + s[..|s| - 1];
      BinDecLeadingZeros(n, s[..|s| - 1]);
    }
  }

  lemma {:induction false} ZerosValue(n: nat)
    ensures BinDec(Zeros(n)) == 0
  {
    if n > 0 {
      assert Zeros(n)[..n - 1] == Zeros(n - 1);
      ZerosValue(n - 1);
    }
  }

  /** The codeword of one coefficient: decbin padded to the width. */
  function Codeword(v: nat, w: nat): seq<char>
  {
    PadLeft(DecBin(v), w)
  }

  /** A coefficient below 2^w gives exactly w binary digits that read back as the coefficient. */
  lemma CodewordValue(v: nat, w: nat)
    requires w >= 1 && v < Bits.Pow2(w)
    ensures |Codeword(v, w)| == w && IsBitString(Codeword(v, w))
    ensures BinDec(Codeword(v, w)) == v
  {
    DecBinLength(v, w);
    var digits := DecBin(v);
    if |digits| < w {
      BinDecLeadingZeros(w - |digits|, digits);
    }
  }

  /** Bit strings of the same length with the same value are equal. */
  lemma {:induction false} BinDecInjective(a: seq<char>, b: seq<char>)
    requires IsBitString(a) && IsBitString(b) && |a| == |b| && BinDec(a) == BinDec(b)
    ensures a == b
    decreases |a|
  {
    if a != [] {
      var n := |a| - 1;
      assert a[n] == b[n];
      BinDecInjective(a[..n], b[..n]);
      assert a == a[..n] + [a[n]] && b == b[..n] + [b[n]];
    }
  }

  /** A codeword read and written again is unchanged. */
  lemma CodewordOfBits(s: seq<char>)
    requires IsBitString(s) && |s| >= 1
    ensures Codeword(BinDec(s), |s|) == s
  {
    BinDecBound(s);
    CodewordValue(BinDec(s), |s|);
    BinDecInjective(Codeword(BinDec(s), |s|), s);
  }

  // ---------------------------------------------------------------------------------------------
  // Codeword lists
  // ---------------------------------------------------------------------------------------------

  /** n * w == (n - 1) * w + w, with both parts non-negative. */
  lemma SplitProduct(n: nat, w: nat)
    requires n >= 1
    ensures n * w == (n - 1) * w + w && (n - 1) * w >= 0
  {
  }

  /** The n codewords of width w of s, each read as a number, first codeword first. */
  function Chunks(s: seq<char>, w: nat, n: nat): (r: seq<int>)
    requires |s| == n * w
    ensures |r| == n && FitsWidth(r, w)
    decreases n
  {
    if n == 0 then []
    else
      SplitProduct(n, w);
      BinDecBound(s[..w]);
      [BinDec(s[..w])] + Chunks(s[w..], w, n - 1)
  }

  /** The concatenation of the codewords of cs, in order. */
  function Encode(cs: seq<int>, w: nat): seq<char>
    requires forall k :: 0 <= k < |cs| ==> cs[k] >= 0
  {
    if cs == [] then [] else Codeword(cs[0], w) + Encode(cs[1..], w)
  }

  /** Every coefficient below 2^w: the list fits the width. */
  predicate FitsWidth(cs: seq<int>, w: nat)
  {
    forall k :: 0 <= k < |cs| ==> 0 <= cs[k] < Bits.Pow2(w)
  }

  /** Encoding one more element of a list appends its codeword. */
  lemma EncodePrefix(s: seq<int>, k: int, w: nat)
    requires forall j :: 0 <= j < |s| ==> s[j] >= 0
    requires 0 <= k < |s|
    ensures Encode(s[..k + 1], w) == Encode(s[..k], w) + Codeword(s[k], w)
  {
    EncodeAppend(s[..k], s[k], w);
    assert s[..k] + [s[k]] == s[..k + 1];
  }

  /** Encoding appends one codeword per coefficient. */
  lemma EncodeAppend(cs: seq<int>, c: int, w: nat)
    requires forall k :: 0 <= k < |cs| ==> cs[k] >= 0
    requires c >= 0
    ensures Encode(cs + [c], w) == Encode(cs, w) + Codeword(c, w)
  {
    if cs != [] {
      assert (cs + [c])[1..] == cs[1..] + [c];
      EncodeAppend(cs[1..], c, w);
    } else {
      assert [c][1..] == [];
    }
  }

  /** The encoding of a list that fits the width is a bit string of |cs| * w characters. */
  lemma {:induction false} EncodeLength(cs: seq<int>, w: nat)
    requires w >= 1 && FitsWidth(cs, w)
    ensures |Encode(cs, w)| == |cs| * w && IsBitString(Encode(cs, w))
  {
    if cs != [] {
      CodewordValue(cs[0], w);
      EncodeLength(cs[1..], w);
      SplitProduct(|cs|, w);
    }
  }

  /** Reading back an encoding gives the list: Chunks inverts Encode. */
  lemma {:induction false} ChunksOfEncode(cs: seq<int>, w: nat)
    requires w >= 1 && FitsWidth(cs, w)
    ensures |Encode(cs, w)| == |cs| * w && Chunks(Encode(cs, w), w, |cs|) == cs
  {
    EncodeLength(cs, w);
    if cs != [] {
      var e := Encode(cs, w);
      CodewordValue(cs[0], w);
      assert e[..w] == Codeword(cs[0], w);
      assert e[w..] == Encode(cs[1..], w);
      ChunksOfEncode(cs[1..], w);
    }
  }

  /** Writing back the codewords of a bit string gives the string: Encode inverts Chunks. */
  lemma {:induction false} EncodeOfChunks(s: seq<char>, w: nat, n: nat)
    requires w >= 1 && IsBitString(s) && |s| == n * w
    ensures Encode(Chunks(s, w, n), w) == s
    decreases n
  {
    if n > 0 {
      ChunksCons(s, w, n);
      EncodeOfChunks(s[w..], w, n - 1);
      EncodeOfChunksStep(s, w, n);
    }
  }

  /** The step of EncodeOfChunks: the first codeword is written back unchanged. */
  lemma EncodeOfChunksStep(s: seq<char>, w: nat, n: nat)
    requires w >= 1 && IsBitString(s) && |s| == n * w && n >= 1
    requires |s[w..]| == (n - 1) * w && Encode(Chunks(s[w..], w, n - 1), w) == s[w..]
    ensures Encode(Chunks(s, w, n), w) == s
  {
    ChunksCons(s, w, n);
    var first, rest := s[..w], s[w..];
    EncodeCons(BinDec(first), Chunks(rest, w, n - 1), w);
    CodewordOfBits(first);
    assert s == first + rest;
  }

  /** The first step of Chunks: the first codeword, then the codewords of the rest. */
  lemma ChunksCons(s: seq<char>, w: nat, n: nat)
    requires |s| == n * w && n >= 1
    ensures w <= |s| && |s[w..]| == (n - 1) * w
    ensures Chunks(s, w, n) == [BinDec(s[..w])] + Chunks(s[w..], w, n - 1)
  {
    SplitProduct(n, w);
  }

  /** The first step of Encode: the codeword of the first coefficient, then the rest. */
  lemma EncodeCons(c: nat, cs: seq<int>, w: nat)
    requires forall k :: 0 <= k < |cs| ==> cs[k] >= 0
    ensures Encode([c] + cs, w) == Codeword(c, w) + Encode(cs, w)
  {
    assert ([c] + cs)[1..] == cs;
  }

  // ---------------------------------------------------------------------------------------------
  // The converter
  // ---------------------------------------------------------------------------------------------

  class PolynomialConverter {
    const field: Field
    const bitsPerCoefficient: nat

    /** A converter over GF(2^n) whose codeword width is n. */
    predicate Valid()
    {
      field.kind.BinaryKind? && bitsPerCoefficient == Fields.Degree(field)
    }

    constructor (f: Field)
      requires IsBinary(f)
      ensures field == f && bitsPerCoefficient == Fields.Degree(f) && Valid()
    {
      field := f;
      bitsPerCoefficient := Fields.Degree(f);
    }

    /** The width is positive and a codeword holds exactly the field's elements. */
    lemma WidthFitsField()
      requires Valid()
      ensures bitsPerCoefficient >= 1 && Order(field) == Bits.Pow2(bitsPerCoefficient)
      ensures forall c :: IsValidElement(field, c) <==> 0 <= c < Bits.Pow2(bitsPerCoefficient)
    {
      forall c
        ensures IsValidElement(field, c) <==> 0 <= c < Bits.Pow2(bitsPerCoefficient)
      {
        ValidElementRange(field, c);
      }
    }

    /** fromBinaryString: a length that is not a multiple of the width fails; otherwise the codewords. */
    function Decode(binary: seq<char>): (r: Result<Poly>)
      requires Valid()
      ensures r.Err? <==> |binary| % bitsPerCoefficient != 0
      ensures r.Err? ==> r.error == InvalidArgument
      ensures r.Ok? ==> r.value.field == field && Imm.Valid(r.value)
    {
      WidthFitsField();
      var w := bitsPerCoefficient;
      if |binary| % w != 0 then Err(InvalidArgument)
      else
        var n := |binary| / w;
        Ok(Imm.FromCoefficients(field, Chunks(binary, w, n)))
    }

    /** toBinaryString: the codewords of coefficientAt(d) for d from the degree down to 0. */
    function EncodeList(s: seq<int>): (r: seq<char>)
      requires Valid() && Core.ValidCoefficients(field, s)
      ensures IsBitString(r) && |r| == |s| * bitsPerCoefficient
    {
      WidthFitsField();
      EncodeLength(s, bitsPerCoefficient);
      Encode(s, bitsPerCoefficient)
    }

    /** Writing a polynomial out and reading it back gives the polynomial. */
    lemma DecodeEncode(p: Poly)
      requires Valid() && p.field == field && Imm.Valid(p)
      ensures Decode(EncodeList(p.coefficients)) == Ok(p)
    {
      WidthFitsField();
      var w := bitsPerCoefficient;
      var cs := p.coefficients;
      var e := EncodeList(cs);
      ChunksOfEncode(cs, w);
      Div(|cs|, w);
      assert Decode(e) == Ok(Imm.FromCoefficients(field, Chunks(e, w, |cs|)));
      Core.NormalizedKeepsNormal(cs);
    }

    /** Reading a bit string whose first codeword is nonzero and writing it back gives the string. */
    lemma EncodeDecode(binary: seq<char>)
      requires Valid() && IsBitString(binary) && |binary| % bitsPerCoefficient == 0
      requires binary != [] ==> BinDec(binary[..bitsPerCoefficient]) != 0
      ensures Decode(binary).Ok?
      ensures EncodeList(Decode(binary).value.coefficients) == binary
    {
      WidthFitsField();
      var w := bitsPerCoefficient;
      var n := |binary| / w;
      DivExact(|binary|, w);
      var cs := Chunks(binary, w, n);
      assert Decode(binary) == Ok(Imm.FromCoefficients(field, cs));
      if binary != [] {
        ChunksCons(binary, w, n);
      }
      Core.NormalizedKeepsNormal(cs);
      EncodeOfChunks(binary, w, n);
    }

    /** A leading all-zero codeword is dropped when reading. */
    lemma DecodeLeadingZeroCodeword(binary: seq<char>)
      requires Valid() && IsBitString(binary)
      ensures Decode(Zeros(bitsPerCoefficient) + binary) == Decode(binary)
    {
      WidthFitsField();
      var w := bitsPerCoefficient;
      var padded := Zeros(w) + binary;
      ModShift(|binary|, w);
      if |binary| % w == 0 {
        var n := |binary| / w;
        assert |padded| / w == n + 1 && |padded| == (n + 1) * w by {
          Div(n + 1, w);
        }
        assert padded[..w] == Zeros(w) && padded[w..] == binary;
        ZerosValue(w);
        var cs := Chunks(padded, w, n + 1);
        assert cs == [0] + Chunks(binary, w, n);
        Core.NormalizedDropsZero(Chunks(binary, w, n));
      }
    }

    /** fromBinaryString: check the length, then read the codewords in a for loop. */
    method FromBinaryString(binary: seq<char>) returns (r: Result<Poly>)
      requires Valid() && IsBitString(binary)
      ensures r == Decode(binary)
    {
      var length := |binary|;
      var w := bitsPerCoefficient;
      WidthFitsField();
      if length % w != 0 {
        return Err(InvalidArgument);
      }
      var coefficients := [];
      var chunkCount := length / w;
      ExactDivision(length, w);
      var offset := 0;  // i * w, where the chunk of the pass starts
      for i := 0 to chunkCount
        invariant offset == i * w && offset <= length
        invariant coefficients == Chunks(binary[..offset], w, i)
      {
        NextOffset(i, w, chunkCount, length);
        var chunk := binary[offset..offset + w];
        ChunksAppend(binary[..offset], chunk, w, i);
        assert binary[..offset] + chunk == binary[..offset + w];
        coefficients := coefficients + [BinDec(chunk)];
        offset := offset + w;
      }
      assert binary[..offset] == binary;
      r := Ok(Imm.FromCoefficients(field, coefficients));
    }

    /** toBinaryString: one padded codeword per degree, from the degree down to 0. */
    method ToBinaryString(s: seq<int>) returns (binary: seq<char>)
      requires Valid() && Core.ValidCoefficients(field, s)
      ensures binary == EncodeList(s)
    {
      WidthFitsField();
      var degree := Core.Degree(s);
      binary := [];
      var d := degree;
      while d >= 0
        invariant -1 <= d <= degree
        invariant binary == Encode(s[..degree - d], bitsPerCoefficient)
      {
        var k := degree - d;
        assert Core.CoefficientAt(s, d) == s[k];
        EncodePrefix(s, k, bitsPerCoefficient);
        binary := binary + Codeword(Core.CoefficientAt(s, d), bitsPerCoefficient);
        d := d - 1;
      }
      assert s[..degree + 1] == s;
    }
  }

  /** new PolynomialConverter: only a binary extension field is accepted. */
  method NewConverter(f: Field) returns (r: Result<PolynomialConverter>)
    ensures r.Err? <==> !IsBinary(f)
    ensures r.Err? ==> r.error == NotBinaryField
    ensures r.Ok? ==> fresh(r.value) && r.value.field == f && r.value.Valid()
    ensures r.Ok? ==> r.value.bitsPerCoefficient == f.kind.binary.degree
  {
    if !IsBinary(f) {
      return Err(NotBinaryField);
    }
    var converter := new PolynomialConverter(f);
    return Ok(converter);
  }

  /** Reading one more codeword appends its value. */
  lemma ChunksAppend(s: seq<char>, chunk: seq<char>, w: nat, n: nat)
    requires |s| == n * w && |chunk| == w
    ensures |s + chunk| == (n + 1) * w
    ensures Chunks(s + chunk, w, n + 1) == Chunks(s, w, n) + [BinDec(chunk)]
    decreases n
  {
    SplitProduct(n + 1, w);
    if n == 0 {
      assert (s + chunk)[..w] == chunk && (s + chunk)[w..] == [];
    } else {
      SplitProduct(n, w);
      assert (s + chunk)[..w] == s[..w];
      assert (s + chunk)[w..] == s[w..] + chunk;
      ChunksAppend(s[w..], chunk, w, n - 1);
    }
  }

  /** The chunk after i full chunks ends at (i + 1) * w, within a length of n chunks. */
  lemma NextOffset(i: nat, w: nat, n: nat, length: nat)
    requires w >= 1 && i < n && length % w == 0 && n == length / w
    ensures i * w + w == (i + 1) * w <= length
  {
    SplitProduct(i + 1, w);
    NumberTheory.MulLeftMonotone(w, i + 1, n);
    assert length == w * n + length % w;
  }

  /** A multiple of w is w times its quotient. */
  lemma ExactDivision(length: nat, w: nat)
    requires w >= 1 && length % w == 0
    ensures (length / w) * w == length
  {
    assert length == w * (length / w) + length % w;
  }

  /** (n * w) / w == n for a positive width. */
  lemma Div(n: nat, w: nat)
    requires w >= 1
    ensures (n * w) / w == n && (n * w) % w == 0
  {
    NumberTheory.ModUnique(n * w, w, n, 0);
  }

  /** A multiple of the width is the number of codewords times the width. */
  lemma DivExact(x: nat, w: nat)
    requires w >= 1 && x % w == 0
    ensures x == (x / w) * w
    ensures x > 0 ==> x / w >= 1
  {
  }

  /** Adding one width to a length does not change whether it is a multiple of the width. */
  lemma ModShift(x: nat, w: nat)
    requires w >= 1
    ensures (w + x) % w == x % w
    ensures x % w == 0 ==> (w + x) / w == x / w + 1
  {
    NumberTheory.ModAddMultiple(x, 1, w);
    if x % w == 0 {
      NumberTheory.ModUnique(w + x, w, x / w + 1, 0);
    }
  }
}
