/** The ledger half of the P&L parse (app/features/ingest/parser.py), on parsed cells and exact amounts. */
module IngestParser {
  import opened Basics

  datatype Kind = Balance | Income | Expense | Other

  /** A kept ledger line. */
  datatype Line = Line(account: string, amount: real, amountAbs: real, kind: Kind)

  /** A row under the header: the cleaned account cell and the numeric amount cell. */
  datatype Cells = Cells(account: Option<string>, amount: Option<real>)

  datatype Headline = Headline(opening: real, income: real, expense: real, other: real, closing: real)

  /** What `str.strip` removes, in Latin-1. */
  predicate IsSpace(c: char) {
    c == ' ' || '\t' <= c <= '\r' || '\U{1c}' <= c <= '\U{1f}' || c == '\U{85}' || c == '\U{a0}'
  }

  /** The first character of the stripped account number. */
  function Head(account: string): Option<char> {
    if |account| == 0 then None
    else if IsSpace(account[0]) then Head(account[1..])
    else Some(account[0])
  }

  /** `_acct_kind`: 3xxx balance, 4xxx and 8xxx income, 6xxx expense, everything else other. */
  function AcctKind(account: string): Kind {
    match Head(account)
    case None => Other
    case Some(c) =>
      if c == '3' then Balance
      else if c == '4' || c == '8' then Income
      else if c == '6' then Expense
      else Other
  }

  // ---- Rounding to cents, ties to even ----

  function RoundCents(x: real): int {
    var n := (x * 100.0).Floor;
    var rest := x * 100.0 - n as real;
    if rest < 0.5 then n else if rest > 0.5 then n + 1 else if n % 2 == 0 then n else n + 1
  }

  function Round2(x: real): real {
    RoundCents(x) as real / 100.0
  }

  function Abs(x: real): real {
    if x < 0.0 then -x else x
  }

  lemma RoundIsNear(x: real)
    ensures -0.005 <= Round2(x) - x <= 0.005 && WholeCents(Round2(x))
  {
    assert Cents(Round2(x), RoundCents(x));
    var n := (x * 100.0).Floor;
    assert n as real <= x * 100.0 < n as real + 1.0;
    var r := RoundCents(x);
    assert r == n || r == n + 1;
    assert -0.5 <= r as real - x * 100.0 <= 0.5;
  }

  predicate Cents(x: real, n: int) {
    x * 100.0 == n as real
  }

  ghost predicate WholeCents(x: real) {
    exists n: int :: Cents(x, n)
  }

  lemma RoundWholeCents(x: real)
    requires WholeCents(x)
    ensures Round2(x) == x
  {
    var n: int :| Cents(x, n);
    assert (x * 100.0).Floor == n;
  }

  lemma CentsAdd(x: real, y: real)
    requires WholeCents(x) && WholeCents(y)
    ensures WholeCents(x + y) && WholeCents(-x) && WholeCents(0.0)
  {
    assert Cents(0.0, 0);
    var m: int :| Cents(x, m);
    var n: int :| Cents(y, n);
    assert Cents(x + y, m + n);
    assert Cents(-x, -m);
  }

  // ---- Sums over the ledger ----

  function SumKind(lines: seq<Line>, k: Kind): real {
    if |lines| == 0 then 0.0
    else
      var last := lines[|lines| - 1];
      SumKind(lines[..|lines| - 1], k) + if AcctKind(last.account) == k then last.amount else 0.0
  }

  function SumAll(lines: seq<Line>): real {
    if |lines| == 0 then 0.0 else SumAll(lines[..|lines| - 1]) + lines[|lines| - 1].amount
  }

  /** Every line falls in exactly one bucket, so the buckets add up to the ledger. */
  lemma {:induction false} BucketsAddUp(lines: seq<Line>)
    ensures SumAll(lines)
            == SumKind(lines, Balance) + SumKind(lines, Income) + SumKind(lines, Expense) + SumKind(lines, Other)
  {
    if |lines| > 0 {
      BucketsAddUp(lines[..|lines| - 1]);
    }
  }

  function HeadlineOf(lines: seq<Line>): Headline {
    Rounded(SumKind(lines, Balance), SumKind(lines, Income), SumKind(lines, Expense), SumKind(lines, Other),
            SumAll(lines))
  }

  function Rounded(opening: real, income: real, expense: real, other: real, all: real): Headline {
    Headline(Round2(-opening), Round2(-income), Round2(expense), Round2(-other), Round2(-all))
  }

  /** The printed identity: closing against opening + income - expense + other. */
  function Gap(h: Headline): real {
    h.closing - (h.opening + h.income - h.expense + h.other)
  }

  /**
   * Five independent roundings err by at most half a cent each, and both sides are whole cents, so the
   * identity is off by at most two cents.
   */
  lemma Reconciles(lines: seq<Line>)
    ensures -0.02 <= Gap(HeadlineOf(lines)) <= 0.02
  {
    BucketsAddUp(lines);
    RoundIsNear(-SumKind(lines, Balance));
    RoundIsNear(-SumKind(lines, Income));
    RoundIsNear(SumKind(lines, Expense));
    RoundIsNear(-SumKind(lines, Other));
    RoundIsNear(-SumAll(lines));
    NearlyReconciles(SumKind(lines, Balance), SumKind(lines, Income), SumKind(lines, Expense), SumKind(lines, Other),
                     SumAll(lines), HeadlineOf(lines));
    CentsApart(HeadlineOf(lines));
  }

  lemma NearlyReconciles(opening: real, income: real, expense: real, other: real, all: real, h: Headline)
    requires all == opening + income + expense + other
    requires -0.005 <= h.opening + opening <= 0.005 && -0.005 <= h.income + income <= 0.005
    requires -0.005 <= h.expense - expense <= 0.005 && -0.005 <= h.other + other <= 0.005
    requires -0.005 <= h.closing + all <= 0.005
    ensures -0.025 <= Gap(h) <= 0.025
  {
  }

  /** A gap of whole cents within two and a half cents is within two. */
  lemma CentsApart(h: Headline)
    requires WholeCents(h.opening) && WholeCents(h.income) && WholeCents(h.expense)
    requires WholeCents(h.other) && WholeCents(h.closing)
    requires -0.025 <= Gap(h) <= 0.025
    ensures -0.02 <= Gap(h) <= 0.02
  {
    CentsAdd(h.opening, h.income);
    CentsAdd(h.opening + h.income, h.other);
    CentsAdd(h.expense, h.closing);
    CentsAdd(h.opening + h.income + h.other, h.other);
    CentsAdd(h.expense + h.closing, -(h.opening + h.income + h.other));
    var cents: int :| Cents(Gap(h), cents);
    assert -2.5 <= cents as real <= 2.5;
  }

  /** And two cents can happen: half-cent amounts in all four buckets, all of them sums of powers of two. */
  lemma TwoCentsReached() returns (lines: seq<Line>)
    ensures Gap(HeadlineOf(lines)) == 0.02
  {
    var o := Line("3000", -0.125, 0.12, Balance);
    var i := Line("4000", -0.125, 0.12, Income);
    var e := Line("6000", 0.375, 0.38, Expense);
    var r := Line("9000", -0.125, 0.12, Other);
    var l1, l2, l3 := [o], [o, i], [o, i, e];
    lines := [o, i, e, r];
    assert lines[..3] == l3 && l3[..2] == l2 && l2[..1] == l1 && l1[..0] == [];
    assert Head("3000") == Some('3') && Head("4000") == Some('4');
    assert Head("6000") == Some('6') && Head("9000") == Some('9');
    forall k: Kind
      ensures SumKind(lines, k) == if k == Expense then 0.375 else -0.125
    {
      assert SumKind(l1, k) == if k == Balance then -0.125 else 0.0;
      assert SumKind(l2, k) == SumKind(l1, k) + if k == Income then -0.125 else 0.0;
      assert SumKind(l3, k) == SumKind(l2, k) + if k == Expense then 0.375 else 0.0;
      assert SumKind(lines, k) == SumKind(l3, k) + if k == Other then -0.125 else 0.0;
    }
    BucketsAddUp(lines);
    HalfCents();
    assert HeadlineOf(lines) == Headline(0.12, 0.12, 0.38, 0.12, 0.0);
  }

  lemma HalfCents()
    ensures Round2(0.125) == 0.12 && Round2(0.375) == 0.38 && Round2(0.0) == 0.0
  {
    assert (0.125 * 100.0).Floor == 12 && (0.375 * 100.0).Floor == 37;
  }

  lemma {:induction false} SumsAreCents(lines: seq<Line>, k: Kind)
    requires forall i :: 0 <= i < |lines| ==> WholeCents(lines[i].amount)
    ensures WholeCents(SumKind(lines, k)) && WholeCents(SumAll(lines))
    ensures WholeCents(-SumKind(lines, k)) && WholeCents(-SumAll(lines))
  {
    assert Cents(0.0, 0);
    if |lines| > 0 {
      var n := |lines| - 1;
      SumsAreCents(lines[..n], k);
      CentsAdd(SumKind(lines[..n], k), lines[n].amount);
      CentsAdd(SumAll(lines[..n]), lines[n].amount);
      CentsAdd(SumKind(lines, k), lines[n].amount);
      CentsAdd(SumAll(lines), lines[n].amount);
    }
  }

  /** When every amount is a whole number of cents the identity is exact. */
  lemma ReconcilesExactly(lines: seq<Line>)
    requires forall i :: 0 <= i < |lines| ==> WholeCents(lines[i].amount)
    ensures Gap(HeadlineOf(lines)) == 0.0
  {
    BucketsAddUp(lines);
    SumsAreCents(lines, Balance);
    SumsAreCents(lines, Income);
    SumsAreCents(lines, Expense);
    SumsAreCents(lines, Other);
    RoundWholeCents(-SumKind(lines, Balance));
    RoundWholeCents(-SumKind(lines, Income));
    RoundWholeCents(SumKind(lines, Expense));
    RoundWholeCents(-SumKind(lines, Other));
    RoundWholeCents(-SumAll(lines));
  }

  /** Within two cents, and exactly when the amounts are whole cents. */
  ghost predicate Reconciled(lines: seq<Line>, h: Headline) {
    && -0.02 <= Gap(h) <= 0.02
    && ((forall i :: 0 <= i < |lines| ==> WholeCents(lines[i].amount)) ==> Gap(h) == 0.0)
  }

  lemma HeadlineReconciles(lines: seq<Line>)
    ensures Reconciled(lines, HeadlineOf(lines))
  {
    Reconciles(lines);
    if forall i :: 0 <= i < |lines| ==> WholeCents(lines[i].amount) {
      ReconcilesExactly(lines);
    }
  }

  // ---- Parsing ----

  /** `_parse_tx_row`: a line needs an account and an amount. */
  function ParseTxRow(row: Cells): Option<Line> {
    if row.account.None? || row.amount.None? then None
    else Some(Line(row.account.value, row.amount.value, Round2(Abs(row.amount.value)), AcctKind(row.account.value)))
  }

  function KeptLines(rows: seq<Cells>): seq<Line> {
    if |rows| == 0 then []
    else
      var line := ParseTxRow(rows[|rows| - 1]);
      KeptLines(rows[..|rows| - 1]) + if line.Some? then [line.value] else []
  }

  method KeepRows(rows: seq<Cells>) returns (lines: seq<Line>)
    ensures lines == KeptLines(rows)
    ensures forall i :: 0 <= i < |lines| ==> lines[i].kind == AcctKind(lines[i].account)
  {
    lines := [];
    for i := 0 to |rows|
      invariant lines == KeptLines(rows[..i])
      invariant forall k :: 0 <= k < |lines| ==> lines[k].kind == AcctKind(lines[k].account)
    {
      assert rows[..i + 1][..i] == rows[..i];
      var line := ParseTxRow(rows[i]);
      if line.Some? {
        lines := lines + [line.value];
      }
    }
    assert rows[..|rows|] == rows;
  }

  lemma SumsSnoc(lines: seq<Line>, i: nat, k: Kind)
    requires i < |lines|
    ensures SumKind(lines[..i + 1], k)
            == SumKind(lines[..i], k) + if AcctKind(lines[i].account) == k then lines[i].amount else 0.0
    ensures SumAll(lines[..i + 1]) == SumAll(lines[..i]) + lines[i].amount
  {
    assert lines[..i + 1][..i] == lines[..i];
  }

  /** One pass of one of the five `sum(...)` expressions: the lines of a kind, or all of them. */
  method SumLines(lines: seq<Line>, kind: Option<Kind>) returns (total: real)
    ensures total == if kind.Some? then SumKind(lines, kind.value) else SumAll(lines)
  {
    total := 0.0;
    for i := 0 to |lines|
      invariant total == if kind.Some? then SumKind(lines[..i], kind.value) else SumAll(lines[..i])
    {
      SumsSnoc(lines, i, if kind.Some? then kind.value else Other);
      if kind.None? || AcctKind(lines[i].account) == kind.value {
        total := total + lines[i].amount;
      }
    }
    assert lines[..|lines|] == lines;
  }

  /** The part of `parse_pnl` below the header row. */
  method ParsePnl(rows: seq<Cells>) returns (lines: seq<Line>, headline: Headline)
    ensures lines == KeptLines(rows)
    ensures forall i :: 0 <= i < |lines| ==> lines[i].kind == AcctKind(lines[i].account)
    ensures headline == HeadlineOf(lines)
    ensures Reconciled(lines, headline)
  {
    lines := KeepRows(rows);
    var opening := SumLines(lines, Some(Balance));
    var income := SumLines(lines, Some(Income));
    var expense := SumLines(lines, Some(Expense));
    var other := SumLines(lines, Some(Other));
    var closing := SumLines(lines, None);
    headline := Rounded(opening, income, expense, other, closing);
    HeadlineReconciles(lines);
  }

  // ---- What the headline figures sum, over the given rows ----

  /** A row counts when it has an account and an amount. */
  predicate Counts(row: Cells) {
    row.account.Some? && row.amount.Some?
  }

  /** The sum of the amounts, signs and all, on the accounts whose first character is one of these. */
  function RowSum(rows: seq<Cells>, heads: set<char>): real {
    if |rows| == 0 then 0.0
    else
      var row := rows[|rows| - 1];
      var mine := Counts(row) && Head(row.account.value).Some? && Head(row.account.value).value in heads;
      RowSum(rows[..|rows| - 1], heads) + if mine then row.amount.value else 0.0
  }

  function RowSumAll(rows: seq<Cells>): real {
    if |rows| == 0 then 0.0
    else
      var row := rows[|rows| - 1];
      RowSumAll(rows[..|rows| - 1]) + if Counts(row) then row.amount.value else 0.0
  }

  /** The first character of an account number that is not blank. */
  lemma {:induction false} HeadIsFirst(blanks: string, c: char, rest: string)
    requires (forall i :: 0 <= i < |blanks| ==> IsSpace(blanks[i])) && !IsSpace(c)
    ensures Head(blanks + [c] + rest) == Some(c)
  {
    var s := blanks + [c] + rest;
    if |blanks| == 0 {
      assert s[0] == c;
    } else {
      assert s[1..] == blanks[1..] + [c] + rest;
      HeadIsFirst(blanks[1..], c, rest);
    }
  }

  lemma {:induction false} KeptSums(rows: seq<Cells>)
    ensures SumKind(KeptLines(rows), Balance) == RowSum(rows, {'3'})
    ensures SumKind(KeptLines(rows), Income) == RowSum(rows, {'4', '8'})
    ensures SumKind(KeptLines(rows), Expense) == RowSum(rows, {'6'})
    ensures SumAll(KeptLines(rows)) == RowSumAll(rows)
  {
    if |rows| > 0 {
      var n := |rows| - 1;
      KeptSums(rows[..n]);
      var kept, line := KeptLines(rows[..n]), ParseTxRow(rows[n]);
      if line.Some? {
        assert KeptLines(rows) == kept + [line.value];
        LineAdds(kept, line.value, Balance);
        LineAdds(kept, line.value, Income);
        LineAdds(kept, line.value, Expense);
        KindIsHead(line.value.account);
      } else {
        assert KeptLines(rows) == kept;
      }
    }
  }

  lemma LineAdds(lines: seq<Line>, line: Line, k: Kind)
    ensures SumKind(lines + [line], k) == SumKind(lines, k) + if AcctKind(line.account) == k then line.amount else 0.0
    ensures SumAll(lines + [line]) == SumAll(lines) + line.amount
  {
    assert (lines + [line])[..|lines|] == lines;
  }

  lemma KindIsHead(account: string)
    ensures AcctKind(account) == Balance <==> Head(account) == Some('3')
    ensures AcctKind(account) == Income <==> Head(account) == Some('4') || Head(account) == Some('8')
    ensures AcctKind(account) == Expense <==> Head(account) == Some('6')
  {
  }

  /**
   * Opening sums the 3xxx rows, income the 4xxx and 8xxx rows and closing all rows, with the sign turned; expense
   * sums the 6xxx rows as they are; other is what is left, with the sign turned. Each is rounded once.
   */
  lemma HeadlineSums(rows: seq<Cells>)
    ensures var h := HeadlineOf(KeptLines(rows));
            && h.opening == Round2(-RowSum(rows, {'3'})) && h.income == Round2(-RowSum(rows, {'4', '8'}))
            && h.expense == Round2(RowSum(rows, {'6'})) && h.closing == Round2(-RowSumAll(rows))
            && h.other == Round2(-(RowSumAll(rows) - RowSum(rows, {'3'}) - RowSum(rows, {'4', '8'})
                                   - RowSum(rows, {'6'})))
  {
    KeptSums(rows);
    BucketsAddUp(KeptLines(rows));
  }

  /** A kept line has its row's account and amount as they are, and the amount without its sign in whole cents. */
  lemma KeptLineIsItsRow(row: Cells)
    ensures ParseTxRow(row).Some? <==> Counts(row)
    ensures ParseTxRow(row).Some? ==>
              var line := ParseTxRow(row).value;
              && line.account == row.account.value && line.amount == row.amount.value
              && WholeCents(line.amountAbs)
              && (line.amount >= 0.0 ==> -0.005 <= line.amountAbs - line.amount <= 0.005)
              && (line.amount <= 0.0 ==> -0.005 <= line.amountAbs + line.amount <= 0.005)
  {
    if Counts(row) {
      RoundIsNear(Abs(row.amount.value));
    }
  }
}
