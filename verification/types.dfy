/** The value layer of the ledger: account records, the raw transaction
    record as it is read from a tabular input row, and the rules by which an
    amount column is decoded and a balance is written back out. */
module Types {
  import opened Wrappers
  import opened Decimals

  /** Client identifiers are unsigned 16-bit integers. */
  type ClientId = x: int | 0 <= x < 0x1_0000

  /** Transaction identifiers are unsigned 32-bit integers. */
  type TxId = x: int | 0 <= x < 0x1_0000_0000

  /** Number of fractional digits kept on input and on output. */
  const PRECISION: nat := 4

  /** One client's balances. `total` is meant to be `available + held`; the
      engine recomputes it after every transaction. */
  datatype Account = Account(
    client: ClientId,
    available: Decimal,
    held: Decimal,
    total: Decimal,
    locked: bool)

  /** The derived-total invariant, exactly as the engine recomputes it. */
  predicate Consistent(a: Account) {
    a.total == Add(a.available, a.held)
  }

  /** A fresh account: nothing available, nothing held, not locked (a zero
      mantissa denotes zero at any scale). */
  function NewAccount(client: ClientId): (a: Account)
    ensures a.client == client && !a.locked
    ensures a.available.mantissa == 0 && a.held.mantissa == 0 && a.total.mantissa == 0
  {
    Account(client, Zero, Zero, Zero, false)
  }

  /** A fresh account already satisfies the derived-total invariant. */
  lemma NewAccountConsistent(client: ClientId)
    ensures Consistent(NewAccount(client))
  {
  }

  // ---------------------------------------------------------------------
  // Decoding an input row
  // ---------------------------------------------------------------------

  /** The `type` column: a bare tag, without the amount it may need. */
  datatype RawType = Deposit | Withdrawal | Dispute | Resolve | Chargeback

  /** An input row after decoding. The amount is optional for every type:
      the decoder does not tie its presence to the tag. */
  datatype RawTransaction = RawTransaction(
    client: ClientId,
    tx: TxId,
    txType: RawType,
    amount: Option<Decimal>)

  datatype DecodeError = UnknownType | ClientOutOfRange | TxOutOfRange | MalformedAmount

  /** The lower-case spelling of each tag in the `type` column. */
  function TypeTag(t: RawType): string {
    match t
    case Deposit => "deposit"
    case Withdrawal => "withdrawal"
    case Dispute => "dispute"
    case Resolve => "resolve"
    case Chargeback => "chargeback"
  }

  /** Reads the `type` column; the match is exact and case-sensitive. */
  function DecodeType(tag: string): (r: Option<RawType>)
    ensures r.Some? ==> TypeTag(r.value) == tag
    ensures r.None? ==> forall t: RawType :: TypeTag(t) != tag
  {
    if tag == "deposit" then Some(Deposit)
    else if tag == "withdrawal" then Some(Withdrawal)
    else if tag == "dispute" then Some(Dispute)
    else if tag == "resolve" then Some(Resolve)
    else if tag == "chargeback" then Some(Chargeback)
    else None
  }

  lemma TypeTagRoundTrip(t: RawType)
    ensures DecodeType(TypeTag(t)) == Some(t)
  {
  }

  /** Reads the `amount` column. An empty column is no amount at all; any
      other text must be a decimal number, as recognised by `parse` (the
      decimal library's text parser), and is then rounded to `PRECISION`
      places. */
  function DecodeAmount(field: string, parse: string -> Option<Decimal>): (r: Result<Option<Decimal>, DecodeError>)
    ensures field == "" ==> r == Success(None)
    ensures field != "" && parse(field).None? ==> r == Failure(MalformedAmount)
    ensures field != "" && parse(field).Some? ==>
      var d := parse(field).value;
      && r.Success? && r.value.Some?
      && r.value.value.scale == Min(d.scale, PRECISION)
      && 2 * Abs(Aligned(r.value.value, d.scale) - d.mantissa) <= Pow10(d.scale - r.value.value.scale)
      && (d.scale <= PRECISION ==> r.value.value == d)
  {
    if field == "" then Success(None)
    else match parse(field)
      case None => Failure(MalformedAmount)
      case Some(d) => Success(Some(RoundDp(d, PRECISION)))
  }

  /** Decodes one row given its four columns. The identifier columns arrive
      as the integers written in them and must fit their unsigned widths. */
  function DecodeRecord(tag: string, client: int, tx: int, amount: string,
                        parse: string -> Option<Decimal>): (r: Result<RawTransaction, DecodeError>)
    ensures r.Success? <==>
      && DecodeType(tag).Some?
      && 0 <= client < 0x1_0000
      && 0 <= tx < 0x1_0000_0000
      && DecodeAmount(amount, parse).Success?
    ensures r.Success? ==>
      && TypeTag(r.value.txType) == tag
      && r.value.client == client
      && r.value.tx == tx
      && r.value.amount == DecodeAmount(amount, parse).value
  {
    match DecodeType(tag)
    case None => Failure(UnknownType)
    case Some(t) =>
      if !(0 <= client < 0x1_0000) then Failure(ClientOutOfRange)
      else if !(0 <= tx < 0x1_0000_0000) then Failure(TxOutOfRange)
      else match DecodeAmount(amount, parse)
        case Failure(e) => Failure(e)
        case Success(a) => Success(RawTransaction(client, tx, t, a))
  }

  /** The row `deposit,10,20,30.123` keeps its three-place amount. */
  lemma DecodeDepositRow(parse: string -> Option<Decimal>)
    requires parse("30.123") == Some(Decimal(30123, 3))
    ensures DecodeRecord("deposit", 10, 20, "30.123", parse)
         == Success(RawTransaction(10, 20, Deposit, Some(Decimal(30123, 3))))
  {
  }

  /** The row `dispute,10,20,` carries no amount. */
  lemma DecodeDisputeRow(parse: string -> Option<Decimal>)
    ensures DecodeRecord("dispute", 10, 20, "", parse)
         == Success(RawTransaction(10, 20, Dispute, None))
  {
  }

  // ---------------------------------------------------------------------
  // Writing a balance
  // ---------------------------------------------------------------------

  predicate IsDigit(c: char) {
    '0' <= c <= '9'
  }

  predicate AllDigits(s: string) {
    forall i :: 0 <= i < |s| ==> IsDigit(s[i])
  }

  function DigitChar(n: nat): (c: char)
    requires n < 10
    ensures IsDigit(c)
  {
    ('0' as int + n) as char
  }

  /** The number a string of digits spells. */
  function ReadNat(s: string): nat
    requires AllDigits(s)
  {
    if s == [] then 0
    else ReadNat(s[..|s| - 1]) * 10 + (s[|s| - 1] as int - '0' as int)
  }

  /** `n` in decimal, without leading zeros. */
  function Digits(n: nat): (s: string)
    ensures |s| >= 1 && AllDigits(s)
  {
    if n < 10 then [DigitChar(n)]
    else Digits(n / 10) + [DigitChar(n % 10)]
  }

  /** `n` in decimal, left-padded with zeros to exactly `width` digits. */
  function PadDigits(n: nat, width: nat): (s: string)
    ensures |s| == width && AllDigits(s)
  {
    if width == 0 then ""
    else PadDigits(n / 10, width - 1) + [DigitChar(n % 10)]
  }

  /** The library's positional printing of a decimal: a sign, the integer
      part, and, when the scale is positive, a point and exactly `scale`
      fractional digits. */
  function Render(d: Decimal): (s: string)
    ensures d.scale > 0 ==> |s| > d.scale + 1 && s[|s| - d.scale - 1] == '.' && AllDigits(s[|s| - d.scale..])
  {
    (if d.mantissa < 0 then "-" else "") + Positional(Abs(d.mantissa), d.scale)
  }

  /** `m` with its last `k` decimal digits dropped. */
  function DropDigits(m: nat, k: nat): nat {
    if k == 0 then m else DropDigits(m / 10, k - 1)
  }

  /** The magnitude `m` divided by ten to the `places`, printed with
      `places` fractional digits. */
  function Positional(m: nat, places: nat): (s: string)
    ensures places > 0 ==> |s| > places + 1 && s[|s| - places - 1] == '.' && s[|s| - places..] == PadDigits(m, places)
  {
    Pointed(Digits(DropDigits(m, places)), PadDigits(m, places))
  }

  /** An integer part followed, when there are fractional digits, by a point
      and those digits. */
  function Pointed(whole: string, frac: string): (s: string)
    requires |whole| >= 1
    ensures frac != "" ==> |s| > |frac| + 1 && s[|s| - |frac| - 1] == '.' && s[|s| - |frac|..] == frac
  {
    if frac == "" then whole
    else
      var s := whole + "." + frac;
      assert s[|s| - |frac|..] == frac;
      s
  }

  // ---------------------------------------------------------------------
  // Reading printed numbers back
  // ---------------------------------------------------------------------

  /** `Digits` is undone by `ReadNat`. */
  lemma {:induction false} DigitsRoundTrip(n: nat)
    ensures ReadNat(Digits(n)) == n
  {
    var s := Digits(n);
    if n < 10 {
      assert s[..|s| - 1] == [];
    } else {
      DigitsRoundTrip(n / 10);
      assert s[..|s| - 1] == Digits(n / 10);
    }
  }

  /** A positive factor keeps a product with a non-zero integer at least
      that factor away from zero. */
  lemma MulAwayFromZero(d: int, x: int)
    requires d >= 1
    ensures x >= 1 ==> d * x >= d
    ensures x <= -1 ==> d * x <= -d
  {
  }

  /** Euclidean division is unique: a quotient and remainder in range are
      the ones `/` and `%` give. */
  lemma ModUnique(n: int, d: int, k: int, r: int)
    requires d >= 1 && n == d * k + r && 0 <= r < d
    ensures n % d == r
  {
    var k0 := n / d;
    assert d * (k - k0) == n % d - r;
    MulAwayFromZero(d, k - k0);
  }

  /** Splitting off the last decimal digit commutes with taking the
      remainder by a power of ten. */
  lemma ModTen(n: nat, p: nat)
    requires p >= 1
    ensures (n / 10) % p * 10 + n % 10 == n % (10 * p)
  {
    var q := n / 10;
    var k := q / p;
    var r := q % p * 10 + n % 10;
    assert q == p * k + q % p;
    assert n == 10 * q + n % 10;
    assert 10 * q == (10 * p) * k + q % p * 10;
    ModUnique(n, 10 * p, k, r);
  }

  /** `PadDigits` keeps the last `width` digits, and `ReadNat` reads them
      back. */
  lemma {:induction false} PadDigitsRoundTrip(n: nat, width: nat)
    ensures ReadNat(PadDigits(n, width)) == n % Pow10(width)
  {
    var s := PadDigits(n, width);
    if width > 0 {
      PadDigitsRoundTrip(n / 10, width - 1);
      assert s[..|s| - 1] == PadDigits(n / 10, width - 1);
      ModTen(n, Pow10(width - 1));
    }
  }

  /** Where `Pointed` puts its two parts. */
  lemma PointedParts(whole: string, frac: string)
    requires |whole| >= 1 && frac != ""
    ensures var s := Pointed(whole, frac);
      |s| == |whole| + 1 + |frac| && s[..|whole|] == whole && s[|whole|] == '.' && s[|whole| + 1..] == frac
  {
    var s := whole + "." + frac;
    assert s[..|whole|] == whole;
    assert s[|whole| + 1..] == frac;
  }

  /** One more digit on both sides of a split at ten to the `k`. */
  lemma SplitStep(q: nat, p: nat, r: nat, n: nat, d: nat)
    requires q * p + r == n
    ensures q * (10 * p) + (r * 10 + d) == 10 * n + d
  {
    assert q * (10 * p) == 10 * (q * p);
  }

  /** Dropping `k` digits and keeping the last `k` splits a number at
      ten to the `k`. */
  lemma {:induction false} DropDigitsSplit(m: nat, k: nat)
    ensures DropDigits(m, k) * Pow10(k) + m % Pow10(k) == m
  {
    if k > 0 {
      var p := Pow10(k - 1);
      var q := DropDigits(m / 10, k - 1);
      assert DropDigits(m, k) == q;
      assert Pow10(k) == 10 * p;
      DropDigitsSplit(m / 10, k - 1);
      ModTen(m, p);
      SplitStep(q, p, (m / 10) % p, m / 10, m % 10);
    }
  }

  /** `t` reads back as `m` at `places` fractional digits: with a point
      `places` characters from the end, the digits before it times ten to
      the `places`, plus the digits after it, give `m`; with no fractional
      digits, the digits are `m`. */
  predicate ReadsBackAs(t: string, places: nat, m: nat) {
    if places > 0 then
      var k := |t| - places - 1;
      && 0 < k && t[k] == '.' && AllDigits(t[..k]) && AllDigits(t[k + 1..])
      && ReadNat(t[..k]) * Pow10(places) + ReadNat(t[k + 1..]) == m
    else
      AllDigits(t) && ReadNat(t) == m
  }

  /** What `Positional` prints reads back as the magnitude it was given. */
  lemma PositionalReadsBack(m: nat, places: nat)
    ensures ReadsBackAs(Positional(m, places), places, m)
  {
    var whole := Digits(DropDigits(m, places));
    var frac := PadDigits(m, places);
    DigitsRoundTrip(DropDigits(m, places));
    if places > 0 {
      PointedParts(whole, frac);
      PadDigitsRoundTrip(m, places);
      DropDigitsSplit(m, places);
      ReadsBackAt(Positional(m, places), whole, frac, places, m);
    }
  }

  /** Reading back a text made of `whole`, a point and `frac`. */
  lemma ReadsBackAt(s: string, whole: string, frac: string, places: nat, m: nat)
    requires |whole| >= 1 && AllDigits(whole) && AllDigits(frac) && |frac| == places > 0
    requires |s| == |whole| + 1 + |frac| && s[..|whole|] == whole && s[|whole| + 1..] == frac
    requires s[|whole|] == '.'
    requires ReadNat(whole) * Pow10(places) + ReadNat(frac) == m
    ensures ReadsBackAs(s, places, m)
  {
  }

  /** The text after an optional leading minus sign. */
  function Unsigned(s: string): (t: string)
    ensures |t| <= |s|
  {
    if |s| > 0 && s[0] == '-' then s[1..] else s
  }

  /** `Render` prints a minus sign exactly for negative mantissas, followed
      by the positional digits of the magnitude. */
  lemma RenderUnsigned(d: Decimal)
    ensures var s := Render(d);
      && |s| >= 1 && (s[0] == '-' <==> d.mantissa < 0)
      && Unsigned(s) == Positional(Abs(d.mantissa), d.scale)
  {
    var whole := Digits(DropDigits(Abs(d.mantissa), d.scale));
    var frac := PadDigits(Abs(d.mantissa), d.scale);
    var body := Positional(Abs(d.mantissa), d.scale);
    if frac != "" {
      PointedParts(whole, frac);
      assert body[0] == body[..|whole|][0];
    }
    assert body[0] == whole[0];
    assert IsDigit(whole[0]);
    var sign := if d.mantissa < 0 then "-" else "";
    assert Render(d) == sign + body;
    assert (sign + body)[|sign|..] == body;
  }

  /** A printed decimal reads back as the decimal: after the sign, the
      digits read back as the magnitude of the mantissa at the decimal's
      scale. With `Value`, this says the text denotes the number. */
  lemma RenderReadsBack(d: Decimal)
    ensures ReadsBackAs(Unsigned(Render(d)), d.scale, Abs(d.mantissa))
  {
    RenderUnsigned(d);
    PositionalReadsBack(Abs(d.mantissa), d.scale);
  }

  /** Writes a balance as the source does: round to `PRECISION` places, and
      when the result has no fractional digits set its scale to one. Setting
      the scale does not rescale the mantissa, so a whole non-zero balance
      is divided by ten (see `SetScaleShrinksWholeBalances`). */
  function SerializeAsWritten(v: Decimal): (r: Decimal)
    ensures 1 <= r.scale <= PRECISION
    ensures RoundDp(v, PRECISION).scale > 0 ==> r == RoundDp(v, PRECISION)
    ensures RoundDp(v, PRECISION).scale == 0 ==> r == Decimal(RoundDp(v, PRECISION).mantissa, 1)
  {
    var rounded := RoundDp(v, PRECISION);
    if rounded.scale == 0 then Decimal(rounded.mantissa, 1) else rounded
  }

  /** The written balance keeps the rounded value exactly when it was not a
      whole non-zero number. */
  lemma SetScaleShrinksWholeBalances(v: Decimal)
    ensures var rounded := RoundDp(v, PRECISION);
      Value(SerializeAsWritten(v)) == Value(rounded) <==> rounded.scale > 0 || rounded.mantissa == 0
  {
    var rounded := RoundDp(v, PRECISION);
    if rounded.scale == 0 && rounded.mantissa != 0 {
      var m := rounded.mantissa as real;
      assert Value(SerializeAsWritten(v)) == m / 10.0;
      assert Value(rounded) == m;
    }
  }

  /** The deposit of 10 from the finding: its balance is printed `1.0`,
      which denotes one. */
  lemma WholeTenWrittenAsOne()
    ensures BalanceCell(Decimal(10, 0)) == "1.0"
    ensures Value(SerializeAsWritten(Decimal(10, 0))) == 1.0
  {
    assert RoundDp(Decimal(10, 0), PRECISION) == Decimal(10, 0);
    assert SerializeAsWritten(Decimal(10, 0)) == Decimal(10, 1);
    assert Positional(10, 1) == "1.0" by {
      assert DropDigits(10, 1) == 1;
      assert Digits(1) == "1";
      assert PadDigits(10, 1) == "0";
    }
  }

  /** A whole amount added to a zero balance keeps scale 0, whatever the
      zero balance's scale, so the sum is printed a tenth of its value. */
  lemma WholeAfterZeroWrittenShrunk()
    ensures Add(Decimal(0, 2), Decimal(7, 0)) == Decimal(7, 0)
    ensures BalanceCell(Add(Decimal(0, 2), Decimal(7, 0))) == "0.7"
  {
    assert RoundDp(Decimal(7, 0), PRECISION) == Decimal(7, 0);
    assert SerializeAsWritten(Decimal(7, 0)) == Decimal(7, 1);
    assert Positional(7, 1) == "0.7" by {
      assert DropDigits(7, 1) == 0;
      assert Digits(0) == "0";
      assert PadDigits(7, 1) == "7";
    }
  }

  /** Writes a balance as intended: round to `PRECISION` places and, for a
      whole number, rescale to one fractional digit so that the number is
      kept and at least one fractional digit is printed. */
  function SerializeBalance(v: Decimal): (r: Decimal)
    ensures 1 <= r.scale <= PRECISION
    ensures Value(r) == Value(RoundDp(v, PRECISION))
    ensures v.scale <= PRECISION ==> Value(r) == Value(v)
  {
    var rounded := RoundDp(v, PRECISION);
    if rounded.scale == 0 then
      Cancel(rounded.mantissa * 10, 10, rounded.mantissa, 10, 1);
      Decimal(rounded.mantissa * 10, 1)
    else rounded
  }

  // ---------------------------------------------------------------------
  // Writing an account row
  // ---------------------------------------------------------------------

  predicate NoComma(s: string) {
    forall i :: 0 <= i < |s| ==> s[i] != ','
  }

  /** Cuts a line at every comma. */
  function SplitCommas(s: string): (r: seq<string>)
    ensures |r| >= 1
    decreases |s|
  {
    if |s| == 0 then [""]
    else
      var rest := SplitCommas(s[1..]);
      if s[0] == ',' then [""] + rest else [[s[0]] + rest[0]] + rest[1..]
  }

  lemma {:induction false} SplitNoComma(a: string)
    requires NoComma(a)
    ensures SplitCommas(a) == [a]
    decreases |a|
  {
    if |a| > 0 {
      SplitNoComma(a[1..]);
      assert [a[0]] + a[1..] == a;
    }
  }

  /** Appending a comma and a field without commas to a line adds that
      field as the last cut. */
  lemma {:induction false} SplitBefore(s: string, b: string)
    requires NoComma(b)
    ensures SplitCommas(s + "," + b) == SplitCommas(s) + [b]
    decreases |s|
  {
    var line := s + "," + b;
    if |s| == 0 {
      assert line[1..] == b;
      SplitNoComma(b);
    } else {
      assert line[0] == s[0];
      assert line[1..] == s[1..] + "," + b;
      SplitBefore(s[1..], b);
      var r := SplitCommas(s[1..]);
      if s[0] != ',' {
        assert (r + [b])[1..] == r[1..] + [b];
      }
    }
  }

  lemma DigitsNoComma(s: string)
    requires AllDigits(s)
    ensures NoComma(s)
  {
    forall i | 0 <= i < |s| ensures s[i] != ',' {
      assert IsDigit(s[i]);
    }
  }

  lemma NoCommaJoin(a: string, b: string)
    requires NoComma(a) && NoComma(b)
    ensures NoComma(a + b)
  {
    forall i | 0 <= i < |a + b| ensures (a + b)[i] != ',' {
      if i >= |a| {
        assert (a + b)[i] == b[i - |a|];
      }
    }
  }

  /** A printed decimal never contains the column separator. */
  lemma RenderNoComma(d: Decimal)
    ensures NoComma(Render(d))
  {
    var whole := Digits(DropDigits(Abs(d.mantissa), d.scale));
    var frac := PadDigits(Abs(d.mantissa), d.scale);
    var sign := if d.mantissa < 0 then "-" else "";
    DigitsNoComma(whole);
    DigitsNoComma(frac);
    assert NoComma(sign);
    assert NoComma(".");
    NoCommaJoin(whole, ".");
    NoCommaJoin(whole + ".", frac);
    NoCommaJoin(sign, Positional(Abs(d.mantissa), d.scale));
  }

  /** How a balance cell is written: the balance as serialised, printed. */
  function BalanceCell(v: Decimal): string {
    Render(SerializeAsWritten(v))
  }

  function LockedCell(locked: bool): string {
    if locked then "true" else "false"
  }

  /** The header line of the output table: the account's field names, in
      declaration order, as the serialiser renames them. */
  const Header: string := "client,available,held,total,locked"

  /** One output row: the account's fields in column order, separated by
      commas. */
  function AccountRow(a: Account): string {
    Digits(a.client) + "," + BalanceCell(a.available) + "," + BalanceCell(a.held) + ","
      + BalanceCell(a.total) + "," + LockedCell(a.locked)
  }

  /** Five fields without commas, joined by commas, are recovered by
      cutting the line at its commas. */
  lemma SplitFive(c: string, x: string, y: string, z: string, l: string)
    requires NoComma(c) && NoComma(x) && NoComma(y) && NoComma(z) && NoComma(l)
    ensures SplitCommas(c + "," + x + "," + y + "," + z + "," + l) == [c, x, y, z, l]
  {
    SplitNoComma(c);
    SplitBefore(c, x);
    SplitBefore(c + "," + x, y);
    SplitBefore(c + "," + x + "," + y, z);
    SplitBefore(c + "," + x + "," + y + "," + z, l);
  }

  lemma CellNoComma(v: Decimal)
    ensures NoComma(BalanceCell(v))
  {
    RenderNoComma(SerializeAsWritten(v));
  }

  /** Cutting a written row at its commas gives back each field's text, in
      column order. */
  lemma AccountRowSplits(a: Account)
    ensures SplitCommas(AccountRow(a)) == [Digits(a.client), BalanceCell(a.available), BalanceCell(a.held),
                                           BalanceCell(a.total), LockedCell(a.locked)]
  {
    DigitsNoComma(Digits(a.client));
    CellNoComma(a.available);
    CellNoComma(a.held);
    CellNoComma(a.total);
    assert NoComma(LockedCell(a.locked));
    SplitFive(Digits(a.client), BalanceCell(a.available), BalanceCell(a.held),
              BalanceCell(a.total), LockedCell(a.locked));
  }

  /** A written row reads back as the account: the first field spells the
      client id, the last says whether the account is locked, and each
      balance field carries a sign exactly for a negative balance and
      then reads back as the written balance's magnitude at its scale. */
  lemma AccountRowReadsBack(a: Account)
    ensures var f := SplitCommas(AccountRow(a));
      && |f| == 5
      && AllDigits(f[0]) && ReadNat(f[0]) == a.client
      && (f[4] == "true" <==> a.locked) && (f[4] == "false" <==> !a.locked)
      && BalanceReadsBack(f[1], a.available)
      && BalanceReadsBack(f[2], a.held)
      && BalanceReadsBack(f[3], a.total)
  {
    AccountRowSplits(a);
    var f := SplitCommas(AccountRow(a));
    FieldsReadBack(a, f[0], f[1], f[2], f[3], f[4]);
  }

  /** Each field of a row, as written, reads back as its part of the
      account. */
  lemma FieldsReadBack(a: Account, c: string, x: string, y: string, z: string, l: string)
    requires c == Digits(a.client) && l == LockedCell(a.locked)
    requires x == BalanceCell(a.available) && y == BalanceCell(a.held) && z == BalanceCell(a.total)
    ensures AllDigits(c) && ReadNat(c) == a.client
    ensures (l == "true" <==> a.locked) && (l == "false" <==> !a.locked)
    ensures BalanceReadsBack(x, a.available)
    ensures BalanceReadsBack(y, a.held)
    ensures BalanceReadsBack(z, a.total)
  {
    DigitsRoundTrip(a.client);
    CellReadsBack(a.available);
    CellReadsBack(a.held);
    CellReadsBack(a.total);
  }

  /** `cell` is the written form of balance `v`: a sign exactly when the
      written balance is negative, then its magnitude at its scale. */
  predicate BalanceReadsBack(cell: string, v: Decimal) {
    var w := SerializeAsWritten(v);
    && |cell| >= 1 && (cell[0] == '-' <==> w.mantissa < 0)
    && ReadsBackAs(Unsigned(cell), w.scale, Abs(w.mantissa))
  }

  lemma CellReadsBack(v: Decimal)
    ensures BalanceReadsBack(BalanceCell(v), v)
  {
    RenderUnsigned(SerializeAsWritten(v));
    RenderReadsBack(SerializeAsWritten(v));
  }

  /** A zero balance is written `0.0`. */
  lemma ZeroRendersWithOnePlace()
    ensures BalanceCell(Zero) == "0.0"
  {
    assert RoundDp(Zero, PRECISION) == Zero;
    assert SerializeAsWritten(Zero) == Decimal(0, 1);
    assert Positional(0, 1) == "0.0" by {
      assert Digits(0) == "0";
      assert PadDigits(0, 1) == "0";
    }
  }

  /** What a fresh table writer holds after serialising one account: the
      header line, then the account's row, each ended by a newline. */
  function WrittenAccount(a: Account): string {
    Header + "\n" + AccountRow(a) + "\n"
  }

  /** A fresh account of client 1 is written with every balance as `0.0`. */
  lemma NewAccountRow()
    ensures AccountRow(NewAccount(1)) == "1,0.0,0.0,0.0,false"
  {
    ZeroRendersWithOnePlace();
    assert Digits(1) == "1";
    ZeroRowText("0.0");
  }

  lemma ZeroRowText(z: string)
    requires z == "0.0"
    ensures "1" + "," + z + "," + z + "," + z + "," + "false" == "1,0.0,0.0,0.0,false"
  {
  }

  /** The whole output for a fresh account of client 1. */
  lemma NewAccountOutput()
    ensures WrittenAccount(NewAccount(1)) == "client,available,held,total,locked\n1,0.0,0.0,0.0,false\n"
  {
    NewAccountRow();
    ZeroOutputText(AccountRow(NewAccount(1)));
  }

  lemma ZeroOutputText(row: string)
    requires row == "1,0.0,0.0,0.0,false"
    ensures Header + "\n" + row + "\n" == "client,available,held,total,locked\n1,0.0,0.0,0.0,false\n"
  {
  }

  /** A nine-place balance is written rounded to four places. */
  lemma NinePlacesRoundToFour()
    ensures SerializeAsWritten(Decimal(123456789, 9)) == Decimal(1235, 4)
  {
    assert Pow10(5) == 100000;
    assert RoundDp(Decimal(123456789, 9), PRECISION) == Decimal(1235, 4);
  }

  lemma FourPlacesRender()
    ensures Render(Decimal(1235, 4)) == "0.1235"
  {
    assert DropDigits(1235, 4) == 0;
    assert Digits(0) == "0";
    assert PadDigits(1235, 4) == "1235" by {
      assert PadDigits(1, 1) == "1";
      assert PadDigits(12, 2) == "12";
      assert PadDigits(123, 3) == "123";
    }
    assert Positional(1235, 4) == "0.1235";
  }

  /** A locked account holding a nine-place balance is written with that
      balance rounded to four places. */
  lemma RoundedAccountRow()
    ensures AccountRow(Account(1, Decimal(123456789, 9), Zero, Zero, true)) == "1,0.1235,0.0,0.0,true"
  {
    NinePlacesRoundToFour();
    FourPlacesRender();
    ZeroRendersWithOnePlace();
    assert Digits(1) == "1";
    RoundedRowText("0.1235", "0.0");
  }

  lemma RoundedRowText(x: string, z: string)
    requires x == "0.1235" && z == "0.0"
    ensures "1" + "," + x + "," + z + "," + z + "," + "true" == "1,0.1235,0.0,0.0,true"
  {
  }

  /** The whole output for that account. */
  lemma RoundedAccountOutput()
    ensures WrittenAccount(Account(1, Decimal(123456789, 9), Zero, Zero, true))
         == "client,available,held,total,locked\n1,0.1235,0.0,0.0,true\n"
  {
    RoundedAccountRow();
    RoundedOutputText(AccountRow(Account(1, Decimal(123456789, 9), Zero, Zero, true)));
  }

  lemma RoundedOutputText(row: string)
    requires row == "1,0.1235,0.0,0.0,true"
    ensures Header + "\n" + row + "\n" == "client,available,held,total,locked\n1,0.1235,0.0,0.0,true\n"
  {
  }
}
