/** How a word address is split into row, bank and column. */
module SdramAddress {
  import opened Powers

  datatype Geometry = Geometry(rowBits: nat, bankBits: nat, colBits: nat)

  /** At most 30 address bits: nothing is shifted out of 32 bits. */
  predicate Narrow(g: Geometry) {
    g.rowBits + g.bankBits + g.colBits <= 30
  }

  datatype Cell = Cell(row: nat, bank: nat, col: nat)

  predicate InRange(c: Cell, g: Geometry) {
    c.row < Pow(2, g.rowBits) && c.bank < Pow(2, g.bankBits) && c.col < Pow(2, g.colBits)
  }

  /** A left shift of a 32-bit number. */
  function Shl(x: nat, n: nat): nat {
    (x * Pow(2, n)) % 0x1_0000_0000
  }

  /** to_word_address, in 32-bit arithmetic. */
  function ToWordAddress(g: Geometry, c: Cell): nat {
    (Shl(c.row, g.bankBits + g.colBits) + Shl(c.bank, g.colBits) + c.col) % 0x1_0000_0000
  }

  /** to_address. */
  function ToAddress(g: Geometry, c: Cell): nat {
    Shl(ToWordAddress(g, c), 2)
  }

  function Split(g: Geometry, w: nat): Cell {
    Cell((w / Pow(2, g.bankBits + g.colBits)) % Pow(2, g.rowBits), (w / Pow(2, g.colBits)) % Pow(2, g.bankBits),
         w % Pow(2, g.colBits))
  }

  /** to_row_bank_column. */
  function ToRowBankColumn(g: Geometry, address: nat): Cell {
    Split(g, address / 4)
  }

  /** The word number a cell has, without wrap-around. */
  function Flat(g: Geometry, c: Cell): nat {
    c.row * Pow(2, g.bankBits + g.colBits) + (c.bank * Pow(2, g.colBits) + c.col)
  }

  /** A number of two digits, the lower one below p. */
  lemma TwoDigits(high: nat, low: nat, p: nat, q: nat)
    requires low < p && high < q
    ensures high * p + low < q * p
    ensures (high * p + low) / p == high && (high * p + low) % p == low
  {
    MulMonotone(high + 1, q, p);
    Distribute(high, 1, p);
    QuotientIs(high * p + low, p, high, low);
  }

  lemma Pow30(g: Geometry)
    requires Narrow(g)
    ensures Pow(2, g.rowBits + (g.bankBits + g.colBits)) <= 0x4000_0000
  {
    assert Pow(2, 5) == 32;
    PowAdd(2, 5, 5);
    PowAdd(2, 10, 10);
    PowAdd(2, 20, 10);
    PowMonotone(2, g.rowBits + (g.bankBits + g.colBits), 30);
  }

  /** The lower part of a cell's number: bank and column. */
  lemma LowPart(g: Geometry, c: Cell)
    requires InRange(c, g)
    ensures var low := c.bank * Pow(2, g.colBits) + c.col;
            && low < Pow(2, g.bankBits + g.colBits)
            && low / Pow(2, g.colBits) == c.bank && low % Pow(2, g.colBits) == c.col
  {
    TwoDigits(c.bank, c.col, Pow(2, g.colBits), Pow(2, g.bankBits));
    PowAdd(2, g.bankBits, g.colBits);
  }

  lemma FlatBelow(g: Geometry, c: Cell)
    requires InRange(c, g)
    ensures Flat(g, c) < Pow(2, g.rowBits + (g.bankBits + g.colBits))
    ensures Flat(g, c) / Pow(2, g.bankBits + g.colBits) == c.row
    ensures Flat(g, c) % Pow(2, g.bankBits + g.colBits) == c.bank * Pow(2, g.colBits) + c.col
  {
    LowPart(g, c);
    TwoDigits(c.row, c.bank * Pow(2, g.colBits) + c.col, Pow(2, g.bankBits + g.colBits), Pow(2, g.rowBits));
    PowAdd(2, g.rowBits, g.bankBits + g.colBits);
  }

  lemma FlatBound(g: Geometry, c: Cell)
    requires InRange(c, g)
    ensures Flat(g, c) < Pow(2, g.rowBits + (g.bankBits + g.colBits))
  {
    FlatBelow(g, c);
  }

  lemma Unwrapped(x: nat, y: nat, z: nat, bound: nat)
    requires x + (y + z) < bound <= 0x4000_0000
    ensures (x % 0x1_0000_0000 + y % 0x1_0000_0000 + z) % 0x1_0000_0000 == x + (y + z) < 0x4000_0000
  {
  }

  /** No wrap-around: the 32-bit word address is the cell's number. */
  lemma WordAddressIsFlat(g: Geometry, c: Cell)
    requires Narrow(g) && InRange(c, g)
    ensures ToWordAddress(g, c) == Flat(g, c) < 0x4000_0000
  {
    FlatBound(g, c);
    Pow30(g);
    WordIsFlat(c.row, Pow(2, g.bankBits + g.colBits), c.bank, Pow(2, g.colBits), c.col,
               Pow(2, g.rowBits + (g.bankBits + g.colBits)));
  }

  lemma WordIsFlat(row: nat, p: nat, bank: nat, q: nat, col: nat, bound: nat)
    requires row * p + (bank * q + col) < bound <= 0x4000_0000
    ensures ((row * p) % 0x1_0000_0000 + (bank * q) % 0x1_0000_0000 + col) % 0x1_0000_0000
            == row * p + (bank * q + col) < 0x4000_0000
  {
    Unwrapped(row * p, bank * q, col, bound);
  }

  lemma ThreeDigits(w: nat, p: nat, q: nat, m: nat, c: nat, r: nat, b: nat)
    requires c < p && b < q && w == p * m + c && m == q * r + b
    ensures b * p + c < q * p && w == (q * p) * r + (b * p + c) && b * p == p * b
  {
    MulMonotone(b + 1, q, p);
    Distribute(b, 1, p);
    Distribute(q * r, b, p);
    MulAssoc(q, r, p);
    MulAssoc(q, p, r);
    MulSwap(p, q, r);
  }

  /** The digits of w to the bases p and q. */
  lemma Digits(w: nat, p: nat, q: nat)
    requires p > 0 && q > 0
    ensures q * p > 0 && w / (q * p) == (w / p) / q && w % (q * p) == (w / p) % q * p + w % p
    ensures (w % (q * p)) / p == (w / p) % q && (w % (q * p)) % p == w % p
  {
    var m, c := w / p, w % p;
    var r, b := m / q, m % q;
    ThreeDigits(w, p, q, m, c, r, b);
    QuotientIs(w, q * p, r, b * p + c);
    QuotientIs(b * p + c, p, b, c);
  }

  /** Cell to address and back. */
  lemma CellRoundTrip(g: Geometry, c: Cell)
    requires Narrow(g) && InRange(c, g)
    ensures ToRowBankColumn(g, ToAddress(g, c)) == c
  {
    var w := Flat(g, c);
    WordAddressIsFlat(g, c);
    TimesFour(w);
    SplitOfFlat(g, c);
  }

  lemma TimesFour(w: nat)
    requires w < 0x4000_0000
    ensures Shl(w, 2) == 4 * w && (4 * w) / 4 == w
  {
    assert Pow(2, 2) == 4;
  }

  lemma SplitOfFlat(g: Geometry, c: Cell)
    requires InRange(c, g)
    ensures Split(g, Flat(g, c)) == c
  {
    var w := Flat(g, c);
    FlatBelow(g, c);
    LowPart(g, c);
    PowAdd(2, g.bankBits, g.colBits);
    Digits(w, Pow(2, g.colBits), Pow(2, g.bankBits));
    SmallMod(c.row, Pow(2, g.rowBits));
  }

  lemma SmallMod(x: nat, p: nat)
    requires x < p
    ensures x % p == x
  {
    QuotientIs(x, p, 0, x);
  }

  /** Address to cell and back: the word address modulo the size of the memory. */
  lemma AddressRoundTrip(g: Geometry, address: nat)
    requires Narrow(g)
    ensures InRange(ToRowBankColumn(g, address), g)
    ensures ToAddress(g, ToRowBankColumn(g, address))
            == 4 * ((address / 4) % Pow(2, g.rowBits + (g.bankBits + g.colBits)))
  {
    var w, c := address / 4, ToRowBankColumn(g, address);
    SplitInRange(g, w);
    WordAddressIsFlat(g, c);
    SplitIsFlat(g, w);
    TimesFour(Flat(g, c));
  }

  lemma SplitInRange(g: Geometry, w: nat)
    ensures InRange(Split(g, w), g)
  {
  }

  lemma SplitIsFlat(g: Geometry, w: nat)
    ensures Flat(g, Split(g, w)) == w % Pow(2, g.rowBits + (g.bankBits + g.colBits))
  {
    PowAdd(2, g.bankBits, g.colBits);
    PowAdd(2, g.rowBits, g.bankBits + g.colBits);
    Digits(w, Pow(2, g.colBits), Pow(2, g.bankBits));
    Digits(w, Pow(2, g.bankBits + g.colBits), Pow(2, g.rowBits));
  }

  /** Distinct cells have distinct word addresses. */
  lemma CellsDiffer(g: Geometry, c: Cell, d: Cell)
    requires Narrow(g) && InRange(c, g) && InRange(d, g) && ToWordAddress(g, c) == ToWordAddress(g, d)
    ensures c == d
  {
    CellRoundTrip(g, c);
    CellRoundTrip(g, d);
  }
}
