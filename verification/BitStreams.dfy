/** Writing and reading fields of up to 31 bits in words of 32, most significant bits first. */
module BitStreams {
  import opened NumberTheory

  const WORD: nat := 32

  type Bits = seq<bool>

  /** The low `k` bits of `n`, most significant first. */
  function BitsOf(n: nat, k: nat): (b: Bits)
    ensures |b| == k
  {
    if k == 0 then [] else BitsOf(n / 2, k - 1) + [n % 2 == 1]
  }

  /** The number that bits stand for. */
  function ValueOf(b: Bits): nat {
    if b == [] then 0 else 2 * ValueOf(b[..|b| - 1]) + if b[|b| - 1] then 1 else 0
  }

  lemma {:induction false} ValueOfBits(n: nat, k: nat)
    ensures ValueOf(BitsOf(n, k)) == n % Pow2(k)
  {
    if k > 0 {
      var b := BitsOf(n, k);
      assert b[..|b| - 1] == BitsOf(n / 2, k - 1);
      ValueOfBits(n / 2, k - 1);
      HalfRemainder(n, Pow2(k - 1));
    }
  }

  lemma HalfRemainder(n: nat, p: nat)
    requires p > 0
    ensures n % (2 * p) == 2 * (n / 2 % p) + n % 2
  {
    var h := n / 2;
    var q, r := h / p, h % p;
    assert n == 2 * h + n % 2 && h == p * q + r;
    Remainder(2 * p, q, 2 * r + n % 2, n);
  }

  lemma HalfOfShift(n: nat, p: nat)
    requires p > 0
    ensures n / 2 / p == n / (2 * p)
  {
    var h := n / 2;
    var q, r := h / p, h % p;
    assert n == 2 * h + n % 2 && h == p * q + r;
    Remainder(2 * p, q, 2 * r + n % 2, n);
  }

  function Shifted(n: nat, k: nat): nat {
    Quotient(n, Pow2(k))
  }

  lemma LastBit(n: nat, k: nat)
    requires k > 0
    ensures BitsOf(n, k) == BitsOf(n / 2, k - 1) + [n % 2 == 1] && Pow2(k) == 2 * Pow2(k - 1)
  {
  }

  lemma NoBits(n: nat)
    ensures BitsOf(n, 0) == [] && Shifted(n, 0) == n
  {
  }

  /** The upper bits of a field are those of the shifted number. */
  lemma {:induction false} BitsSplit(n: nat, j: nat, k: nat)
    ensures BitsOf(n, j + k) == BitsOf(Shifted(n, k), j) + BitsOf(n, k)
    decreases k
  {
    hide BitsOf, Pow2;
    if k == 0 {
      NoBits(n);
    } else {
      BitsSplit(n / 2, j, k - 1);
      LastBit(n, j + k);
      LastBit(n, k);
      ShiftedHalf(n, k);
    }
  }

  lemma ShiftedHalf(n: nat, k: nat)
    requires k > 0
    ensures Shifted(n / 2, k - 1) == Shifted(n, k)
  {
    HalfOfShift(n, Pow2(k - 1));
  }

  /** Bits above the field do not matter. */
  lemma {:induction false} BitsMasked(n: nat, k: nat)
    ensures BitsOf(n % Pow2(k), k) == BitsOf(n, k)
  {
    if k > 0 {
      HalfRemainder(n, Pow2(k - 1));
      BitsMasked(n / 2, k - 1);
    }
  }

  /** A number followed by a field. */
  lemma BitsAppend(m: nat, j: nat, f: nat, k: nat)
    requires f < Pow2(k)
    ensures BitsOf(ShiftedUp(m, k) + f, j + k) == BitsOf(m, j) + BitsOf(f, k)
  {
    var n := ShiftedUp(m, k) + f;
    BitsSplit(n, j, k);
    hide BitsOf, Pow2;
    Remainder(Pow2(k), m, f, n);
    BitsMasked(n, k);
  }

  function WordBits(ws: seq<nat>): (b: Bits)
    ensures |b| == WORD * |ws|
  {
    if ws == [] then [] else BitsOf(ws[0], WORD) + WordBits(ws[1..])
  }

  lemma {:induction false} WordBitsAppend(ws: seq<nat>, w: nat)
    ensures WordBits(ws + [w]) == WordBits(ws) + BitsOf(w, WORD)
    decreases |ws|
  {
    if ws == [] {
      assert ws + [w] == [w] && [w][1..] == [];
    } else {
      assert (ws + [w])[1..] == ws[1..] + [w];
      WordBitsAppend(ws[1..], w);
    }
  }

  // ----- writing -----

  /** The buffer holds bits above `bitPos` and zeros below. */
  ghost predicate Aligned(buffer: nat, bitPos: nat) {
    1 <= bitPos <= WORD && buffer % Pow2(bitPos) == 0 && buffer < Pow2(WORD)
  }

  ghost function BufferBits(buffer: nat, bitPos: nat): Bits
    requires bitPos <= WORD
  {
    BitsOf(Shifted(buffer, bitPos), WORD - bitPos)
  }

  /** A field put below what the buffer holds. */
  lemma FieldFits(buffer: nat, bitPos: nat, f: nat, k: nat)
    requires bitPos <= WORD && k <= bitPos && buffer % Pow2(bitPos) == 0 && buffer < Pow2(WORD) && f < Pow2(k)
    ensures var b := buffer + ShiftedUp(f, bitPos - k);
      && b % Pow2(bitPos - k) == 0 && b < Pow2(WORD)
      && BufferBits(b, bitPos - k) == BufferBits(buffer, bitPos) + BitsOf(f, k)
  {
    hide BitsOf, Pow2;
    var low, m := bitPos - k, Shifted(buffer, bitPos);
    var L, K, B, H := Pow2(low), Pow2(k), Pow2(bitPos), Pow2(WORD - bitPos);
    PowSum(k, low);
    PowSum(bitPos, WORD - bitPos);
    assert buffer == B * m;
    FieldSum(K, L, m, f);
    Remainder(L, m * K + f, 0, buffer + f * L);
    BitsAppend(m, WORD - bitPos, f, k);
    StaysBelow(K, L, H, m, f);
  }

  lemma FieldSum(K: nat, L: nat, m: nat, f: nat)
    ensures K * L * m + f * L == L * (m * K + f)
  {
    assert L * (m * K + f) == L * (m * K) + L * f;
    assert L * (m * K) == K * L * m;
  }

  lemma StaysBelow(K: nat, L: nat, H: nat, m: nat, f: nat)
    requires L > 0 && f < K && K * L * m < K * L * H
    ensures L * (m * K + f) < K * L * H
  {
    if m >= H {
      Monotone(K * L, H, m);
    }
    Monotone(K, m + 1, H);
    assert K * (m + 1) == m * K + K;
    Monotone(L, m * K + f + 1, K * H);
    assert L * (m * K + f + 1) == L * (m * K + f) + L;
    assert L * (K * H) == K * L * H;
  }

  class BitWriter {
    var bitPos: nat
    var buffer: nat
    var out: seq<nat>

    ghost predicate Valid()
      reads this
    {
      Aligned(buffer, bitPos)
    }

    /** Everything written so far. */
    ghost function Written(): Bits
      requires Valid()
      reads this
    {
      WordBits(out) + BufferBits(buffer, bitPos)
    }

    constructor ()
      ensures Valid() && Written() == []
    {
      bitPos, buffer, out := WORD, 0, [];
      new;
      Remainder(Pow2(WORD), 0, 0, 0);
    }

    method PutBits(n: nat, width: nat)
      requires Valid() && width < WORD
      modifies this
      ensures Valid() && Written() == old(Written()) + BitsOf(n, width)
    {
      hide BitsOf, WordBits, Pow2;
      var k := width;
      if k > bitPos {
        k := k - bitPos;
        BitsSplit(n, bitPos, k);
        PutBitsH(Shifted(n, k), bitPos);
      }
      PutBitsH(n, k);
    }

    method PutBitsH(n: nat, k: nat)
      requires Valid() && k <= bitPos
      modifies this
      ensures Valid() && Written() == old(Written()) + BitsOf(n, k)
      ensures bitPos == if k == old(bitPos) then WORD else old(bitPos) - k
    {
      hide BitsOf, WordBits, Pow2;
      FieldFits(buffer, bitPos, n % Pow2(k), k);
      BitsMasked(n, k);
      bitPos := bitPos - k;
      buffer := buffer + ShiftedUp(n % Pow2(k), bitPos);
      if bitPos == 0 {
        Flush();
      }
    }

    /** Write out the full buffer. */
    method Flush()
      requires bitPos == 0 && buffer < Pow2(WORD)
      modifies this
      ensures Valid() && Written() == old(WordBits(out) + BufferBits(buffer, 0)) && bitPos == WORD
    {
      WordBitsAppend(out, buffer);
      Remainder(1, buffer, 0, buffer);
      out := out + [buffer];
      buffer, bitPos := 0, WORD;
      Remainder(Pow2(WORD), 0, 0, 0);
    }

    /** Fill the last word with zeros; a word of zeros when nothing is pending. */
    method Finish()
      requires Valid()
      modifies this
      ensures Valid() && bitPos == WORD && WordBits(out) == old(Written()) + BitsOf(0, old(bitPos))
    {
      PutBitsH(0, bitPos);
    }
  }

  // ----- reading -----

  class BitReader {
    var bitPos: nat
    var buffer: nat
    var input: seq<nat>

    ghost predicate Valid()
      reads this
    {
      bitPos <= WORD
    }

    /** Everything still to be read. */
    ghost function Rest(): Bits
      requires Valid()
      reads this
    {
      BitsOf(buffer, bitPos) + WordBits(input)
    }

    constructor (input: seq<nat>)
      ensures Valid() && Rest() == WordBits(input)
    {
      bitPos, buffer, this.input := 0, 0, input;
    }

    /** Read a field, its upper part from what is left of the word at hand. */
    method GetBits(width: nat) returns (n: nat)
      requires Valid() && 1 <= width < WORD && width <= |Rest()|
      modifies this
      ensures Valid() && n < Pow2(width) && old(Rest()) == BitsOf(n, width) + Rest()
    {
      hide BitsOf, WordBits, Pow2;
      n := 0;
      var k := width;
      ghost var upper := 0;
      if k > bitPos {
        k := k - bitPos;
        upper := bitPos;
        n := GetBitsH(bitPos);
      }
      var low := GetBitsH(k);
      Glue(n, upper, low, k);
      n := ShiftedUp(n, k) + low;
    }

    /** Read a field within one word; the next word is fetched when nothing is left, whatever the width. */
    method GetBitsH(k: nat) returns (n: nat)
      requires Valid() && (k <= bitPos || (bitPos == 0 && k <= WORD)) && k <= |Rest()| && |Rest()| > 0 && k < WORD
      modifies this
      ensures Valid() && n < Pow2(k) && old(Rest()) == BitsOf(n, k) + Rest()
    {
      hide BitsOf, WordBits, Pow2;
      if bitPos == 0 {
        Refill();
      }
      bitPos := bitPos - k;
      n := Shifted(buffer, bitPos) % Pow2(k);
      BitsSplit(buffer, k, bitPos);
      BitsMasked(Shifted(buffer, bitPos), k);
    }

    method Refill()
      requires Valid() && bitPos == 0 && input != []
      modifies this
      ensures Valid() && bitPos == WORD && Rest() == old(Rest())
    {
      NoBits(buffer);
      buffer, input, bitPos := input[0], input[1..], WORD;
    }
  }

  /** Two fields in a row are one. */
  lemma Glue(n: nat, j: nat, low: nat, k: nat)
    requires n < Pow2(j) && low < Pow2(k)
    ensures ShiftedUp(n, k) + low < Pow2(j + k) && BitsOf(ShiftedUp(n, k) + low, j + k) == BitsOf(n, j) + BitsOf(low, k)
  {
    hide BitsOf, Pow2;
    BitsAppend(n, j, low, k);
    PowSum(j, k);
    Monotone(Pow2(k), n + 1, Pow2(j));
    assert Pow2(k) * (n + 1) == n * Pow2(k) + Pow2(k);
    assert Pow2(k) * Pow2(j) == Pow2(j) * Pow2(k);
  }

  // ----- whole streams -----

  datatype Field = Field(value: nat, width: nat)

  ghost predicate Writable(f: Field) { 1 <= f.width < WORD }

  function Stream(fs: seq<Field>): Bits {
    if fs == [] then [] else BitsOf(fs[0].value, fs[0].width) + Stream(fs[1..])
  }

  lemma {:induction false} StreamAppend(fs: seq<Field>, f: Field)
    ensures Stream(fs + [f]) == Stream(fs) + BitsOf(f.value, f.width)
    decreases |fs|
  {
    if fs == [] {
      assert fs + [f] == [f] && [f][1..] == [];
    } else {
      assert (fs + [f])[1..] == fs[1..] + [f];
      StreamAppend(fs[1..], f);
    }
  }

  /** A field is determined by its bits. */
  lemma FieldValue(n: nat, v: nat, k: nat)
    requires BitsOf(n, k) == BitsOf(v, k) && v < Pow2(k)
    ensures v == n % Pow2(k)
  {
    ValueOfBits(n, k);
    ValueOfBits(v, k);
    Remainder(Pow2(k), 0, v, v);
  }

  /** Write the fields, finish, and read fields of the same widths: the same values come back, wherever
      the fields straddle words. */
  method WriteThenRead(fields: seq<Field>) returns (values: seq<nat>)
    requires forall i :: 0 <= i < |fields| ==> Writable(fields[i])
    ensures |values| == |fields|
    ensures forall i :: 0 <= i < |fields| ==> values[i] == fields[i].value % Pow2(fields[i].width)
  {
    hide BitsOf, WordBits, Pow2;
    var writer := WriteAll(fields);
    var reader := new BitReader(writer.out);
    ghost var pad := WordBits(writer.out)[|Stream(fields)|..];
    values := [];
    assert fields[0..] == fields;
    for i := 0 to |fields|
      invariant reader.Valid() && fresh(reader) && reader.Rest() == Stream(fields[i..]) + pad
      invariant |values| == i && forall j :: 0 <= j < i ==> values[j] == fields[j].value % Pow2(fields[j].width)
    {
      FirstField(fields, i);
      var n := reader.GetBits(fields[i].width);
      FieldRead(fields[i], n, Stream(fields[i + 1..]) + pad, reader.Rest());
      values := values + [n];
    }
  }

  method WriteAll(fields: seq<Field>) returns (writer: BitWriter)
    requires forall i :: 0 <= i < |fields| ==> Writable(fields[i])
    ensures fresh(writer) && Stream(fields) <= WordBits(writer.out)
  {
    hide BitsOf, WordBits, Pow2, Aligned, BufferBits;
    writer := new BitWriter();
    for i := 0 to |fields|
      invariant writer.Valid() && fresh(writer) && writer.Written() == Stream(fields[..i])
    {
      assert fields[..i + 1] == fields[..i] + [fields[i]];
      StreamAppend(fields[..i], fields[i]);
      writer.PutBits(fields[i].value, fields[i].width);
    }
    assert fields[..|fields|] == fields;
    writer.Finish();
  }

  lemma FirstField(fields: seq<Field>, i: nat)
    requires i < |fields|
    ensures Stream(fields[i..]) == BitsOf(fields[i].value, fields[i].width) + Stream(fields[i + 1..])
  {
    assert fields[i..][1..] == fields[i + 1..];
  }

  lemma FieldRead(f: Field, n: nat, rest: Bits, rest': Bits)
    requires n < Pow2(f.width) && BitsOf(f.value, f.width) + rest == BitsOf(n, f.width) + rest'
    ensures n == f.value % Pow2(f.width) && rest == rest'
  {
    var a, b := BitsOf(f.value, f.width) + rest, BitsOf(n, f.width) + rest';
    assert a[..f.width] == BitsOf(f.value, f.width) && b[..f.width] == BitsOf(n, f.width);
    assert a[f.width..] == rest && b[f.width..] == rest';
    FieldValue(f.value, n, f.width);
  }
}
