/** Conservation and the maker's price bound, over whole runs of committed and reverted fills. */
module SettlementTheorems {
  import opened Common
  import opened Ladder
  import opened Settlement
  import Loops = Sweep
  import SweepTheorems

  // ---------------------------------------------------------------- when a fill goes through

  /** No other instruction names one of the maker's three accounts. */
  ghost predicate MakerUntouchedElsewhere(f: Fill) {
    forall i, q :: 0 <= i < |f.siblings| && i != f.current && 0 <= q < |f.siblings[i].accounts| ==>
                     f.siblings[i].accounts[q] !in {f.fillAuthority, f.makerBase, f.makerQuote}
  }

  /** The mint takes no fee from a transfer. */
  ghost predicate FreeOfFee(mint: Mint) {
    !mint.classicToken ==> mint.feeBasisPoints in {None, Some(0)}
  }

  /** Prices in quote per base go strictly up for a Bid and strictly down for an Ask, level by level. */
  ghost predicate PricesInOrder(f: Fill) {
    forall i :: 0 <= i < |f.levels| - 1 ==>
      if f.side == Bid then f.levels[i].quote * f.levels[i + 1].base < f.levels[i + 1].quote * f.levels[i].base
      else f.levels[i].quote * f.levels[i + 1].base > f.levels[i + 1].quote * f.levels[i].base
  }

  lemma OrderIsPriceOrder(f: Fill)
    ensures Sorted(f.side, f.levels) <==> PricesInOrder(f)
  {
    Loops.NeighboursOrdered(f.side, f.levels);
  }

  lemma ScanIsMakerUntouched(f: Fill)
    ensures Exclusive(f.siblings, f.current, Protected(f)) <==> MakerUntouchedElsewhere(f)
  {
    forall k: Key
      ensures k in Protected(f) <==> k in {f.fillAuthority, f.makerBase, f.makerQuote}
    {
    }
  }

  /** Each check of the handler raises its own error, in this order, and only then is the ladder swept. */
  lemma QuoteErrors(f: Fill)
    ensures if f.amountIn == 0 then Quote(f) == Err(ZeroAmountIn)
            else if f.levels == [] then Quote(f) == Err(EmptyLevels)
            else if f.expireAt < f.now then Quote(f) == Err(StaleOrderbook)
            else if !(FreeOfFee(f.baseMint) && FreeOfFee(f.quoteMint)) then Quote(f) == Err(UnsupportedMintExtension)
            else if !MakerUntouchedElsewhere(f) then Quote(f) == Err(MakerAppearsInOtherInstruction)
            else if !PricesInOrder(f) then Quote(f) == Err(InvalidLevelOrdering)
            else Quote(f) == Sweep(f.side, f.amountIn, f.minOut, f.levels)
  {
    OrderIsPriceOrder(f);
    ScanIsMakerUntouched(f);
    hide Sorted, Exclusive, MakerUntouchedElsewhere, PricesInOrder, Sweep;
  }

  /** Only a maker account named by another instruction gets a fill refused for that reason. */
  lemma RefusedOverMaker(f: Fill)
    requires Quote(f) == Err(MakerAppearsInOtherInstruction)
    ensures !MakerUntouchedElsewhere(f)
  {
    QuoteErrors(f);
    hide Quote, MakerUntouchedElsewhere, PricesInOrder;
    var k := SweepTheorems.WalkIsVerdict(f.side, f.amountIn, 0, f.levels);
    SweepTheorems.SweepErrors(f.side, f.amountIn, f.minOut, f.levels, k);
    hide Sweep, SweepTheorems.StopsAt;
  }

  /** Every condition on a fill besides the balances, with the first `k` levels consumed whole and `out` paid. */
  ghost predicate Quotable(f: Fill, k: nat, out: nat) {
    && f.amountIn > 0 && f.levels != [] && f.now <= f.expireAt
    && FreeOfFee(f.baseMint) && FreeOfFee(f.quoteMint)
    && MakerUntouchedElsewhere(f)
    && PricesInOrder(f)
    && SweepTheorems.Fills(f.side, f.amountIn, f.minOut, f.levels, k)
    && out == SweepTheorems.Paid(f.side, f.amountIn, f.levels, k)
  }

  /** Exactly which fills get a quote, and how much it is. */
  lemma QuoteExact(f: Fill, out: u64)
    ensures Quote(f) == Ok(out) <==> exists k :: Quotable(f, k, out)
  {
    QuoteErrors(f);
    SweepTheorems.SweepClosedForm(f.side, f.amountIn, f.minOut, f.levels);
    hide Quote, MakerUntouchedElsewhere, PricesInOrder, SweepTheorems.Fills, Sweep;
    if Quote(f) == Ok(out) {
      var k :| SweepTheorems.Fills(f.side, f.amountIn, f.minOut, f.levels, k);
      assert Quotable(f, k, out);
    }
  }

  // ---------------------------------------------------------------- balances after a transfer and after a fill

  datatype Move = Move(from: Key, to: Key, atoms: nat)

  /** How the balance of `k` changes over some moves. */
  ghost function Net(moves: seq<Move>, k: Key): int {
    if moves == [] then 0
    else
      var last := moves[|moves| - 1];
      Net(moves[..|moves| - 1], k)
      + (if k == last.to then last.atoms else 0) - (if k == last.from then last.atoms else 0)
  }

  /** After the moves `done`, one more is between accounts of the mint, is funded, and overflows nothing. */
  ghost predicate CanMove(a: Accounts, done: seq<Move>, move: Move, mint: Key) {
    && move.from in a && move.to in a && a[move.from].mint == mint && a[move.to].mint == mint
    && a[move.from].amount + Net(done, move.from) >= move.atoms
    && (move.from != move.to ==> a[move.to].amount + Net(done, move.to) + move.atoms <= 0xFFFF_FFFF_FFFF_FFFF)
  }

  /** `b` is `a` after the moves: same accounts, same mints, every balance changed by the net amount. */
  ghost predicate After(a: Accounts, moves: seq<Move>, b: Accounts) {
    && b.Keys == a.Keys
    && forall k :: k in a ==> b[k].mint == a[k].mint && b[k].amount == a[k].amount + Net(moves, k)
  }

  lemma NetStep(moves: seq<Move>, move: Move, k: Key)
    ensures Net(moves + [move], k)
         == Net(moves, k) + (if k == move.to then move.atoms else 0) - (if k == move.from then move.atoms else 0)
  {
    assert (moves + [move])[..|moves|] == moves;
  }

  /** Exactly when a transfer goes through, and every balance afterwards, on the balances some moves earlier. */
  lemma TransferExact(a: Accounts, done: seq<Move>, b: Accounts, from: Key, mint: Key, to: Key, x: u64)
    requires After(a, done, b)
    ensures Transfer(b, from, mint, to, x) == Err(TransferFailed) <==> !CanMove(a, done, Move(from, to, x), mint)
    ensures match Transfer(b, from, mint, to, x)
            case Ok(c) => After(a, done + [Move(from, to, x)], c)
            case Err(e) => e == TransferFailed
  {
    forall k: Key
      ensures Net(done + [Move(from, to, x)], k)
           == Net(done, k) + (if k == to then x else 0) - (if k == from then x else 0)
    {
      NetStep(done, Move(from, to, x), k);
    }
    hide Net;
  }

  /** What the taker pays, and to whom. */
  function TakerMove(f: Fill): Move {
    if f.side == Bid then Move(f.userQuote, f.makerQuote, f.amountIn) else Move(f.userBase, f.makerBase, f.amountIn)
  }

  /** What the maker pays, and to whom. */
  function MakerMove(f: Fill, out: nat): Move {
    if f.side == Bid then Move(f.makerBase, f.userBase, out) else Move(f.makerQuote, f.userQuote, out)
  }

  /** Both payments can be made, the taker's first. */
  ghost predicate Funded(a: Accounts, f: Fill, out: nat) {
    var paidIn, paidOut := if f.side == Bid then f.quoteMint else f.baseMint,
                           if f.side == Bid then f.baseMint else f.quoteMint;
    && CanMove(a, [], TakerMove(f), paidIn.address)
    && CanMove(a, [TakerMove(f)], MakerMove(f, out), paidOut.address)
  }

  /** The fill is quotable, paid for, and pays `out`. */
  ghost predicate Settles(a: Accounts, f: Fill, out: nat) {
    (exists k :: Quotable(f, k, out)) && Funded(a, f, out)
  }

  lemma QuotedSettles(a: Accounts, f: Fill)
    requires Quote(f).Ok?
    ensures match Settle(a, f)
            case Ok(b) => Funded(a, f, Quote(f).value) && After(a, [TakerMove(f), MakerMove(f, Quote(f).value)], b)
            case Err(e) => !Funded(a, f, Quote(f).value) && e == TransferFailed
  {
    var in1, in2 := TakerMove(f), MakerMove(f, Quote(f).value);
    var mint1, mint2 := if f.side == Bid then f.quoteMint.address else f.baseMint.address,
                        if f.side == Bid then f.baseMint.address else f.quoteMint.address;
    assert After(a, [], a);
    hide Quote, Transfer, After, CanMove, Net;
    TransferExact(a, [], a, in1.from, mint1, in1.to, f.amountIn);
    assert [] + [in1] == [in1] && [in1] + [in2] == [in1, in2];
    if Transfer(a, in1.from, mint1, in1.to, f.amountIn).Ok? {
      var paid := Transfer(a, in1.from, mint1, in1.to, f.amountIn).value;
      TransferExact(a, [in1], paid, in2.from, mint2, in2.to, Quote(f).value);
    }
  }

  /** Exactly which fills settle, and every balance afterwards. */
  lemma SettleExact(a: Accounts, f: Fill)
    ensures Settle(a, f).Ok? <==> exists out: u64 :: Settles(a, f, out)
    ensures forall out: u64 :: Settles(a, f, out) ==>
              Settle(a, f).Ok? && After(a, [TakerMove(f), MakerMove(f, out)], Settle(a, f).value)
    ensures Settle(a, f).Err? ==>
              Settle(a, f) == Err(if Quote(f).Err? then Rfq(Quote(f).error) else TransferFailed)
  {
    hide Quotable, Quote, Funded, After;
    if Quote(f).Ok? {
      QuotedSettles(a, f);
      QuoteExact(f, Quote(f).value);
      assert Settle(a, f).Ok? ==> Settles(a, f, Quote(f).value);
    }
    forall out: u64 | Settles(a, f, out)
      ensures Quote(f) == Ok(out)
    {
      QuoteExact(f, out);
    }
  }

  /** A commit takes the balances of a fill that settles and otherwise changes nothing. */
  lemma CommitExact(a: Accounts, f: Fill)
    ensures forall out: u64 :: Settles(a, f, out) ==> After(a, [TakerMove(f), MakerMove(f, out)], Commit(a, f))
    ensures (forall out: u64 :: !Settles(a, f, out)) ==> Commit(a, f) == a
  {
    SettleExact(a, f);
    hide Settles, Settle, After;
  }

  /** Runs are committed one after the other. */
  lemma {:induction false} RunComposes(a: Accounts, fills: seq<Fill>, more: seq<Fill>)
    ensures Run(a, fills + more) == Run(Run(a, fills), more)
    ensures |fills| == 1 ==> Run(a, fills) == Commit(a, fills[0])
    decreases fills
  {
    if fills == [] {
      assert fills + more == more;
    } else {
      RunComposes(Commit(a, fills[0]), fills[1..], more);
      assert (fills + more)[1..] == fills[1..] + more;
    }
  }

  // ---------------------------------------------------------------- conservation

  ghost function Held(t: TokenAccount, mint: Key): nat {
    if t.mint == mint then t.amount else 0
  }

  ghost function Sum<K(!new)>(m: map<K, nat>, s: set<K>): nat
    requires s <= m.Keys
  {
    if s == {} then 0
    else
      var k :| k in s;
      m[k] + Sum(m, s - {k})
  }

  lemma {:induction false} SumRemove<K(!new)>(m: map<K, nat>, s: set<K>, k: K)
    requires s <= m.Keys && k in s
    ensures Sum(m, s) == m[k] + Sum(m, s - {k})
    decreases s
  {
    var j :| j in s && Sum(m, s) == m[j] + Sum(m, s - {j});
    if j != k {
      SumRemove(m, s - {j}, k);
      SumRemove(m, s - {k}, j);
      assert (s - {j}) - {k} == (s - {k}) - {j};
    }
  }

  lemma {:induction false} SumAgrees<K(!new)>(m: map<K, nat>, n: map<K, nat>, s: set<K>)
    requires s <= m.Keys && s <= n.Keys
    requires forall k :: k in s ==> m[k] == n[k]
    ensures Sum(m, s) == Sum(n, s)
    decreases s
  {
    if s != {} {
      var j :| j in s && Sum(m, s) == m[j] + Sum(m, s - {j});
      SumAgrees(m, n, s - {j});
      SumRemove(n, s, j);
    }
  }

  ghost function Holdings(a: Accounts, mint: Key): map<Key, nat> {
    map k | k in a :: Held(a[k], mint)
  }

  /** All atoms of a mint, over every token account. */
  ghost function Supply(a: Accounts, mint: Key): nat {
    Sum(Holdings(a, mint), a.Keys)
  }

  lemma SupplyUpdate(a: Accounts, mint: Key, k: Key, t: TokenAccount)
    requires k in a
    ensures Supply(a[k := t], mint) == Supply(a, mint) - Held(a[k], mint) + Held(t, mint)
  {
    var b := a[k := t];
    assert b.Keys == a.Keys;
    SumRemove(Holdings(a, mint), a.Keys, k);
    SumRemove(Holdings(b, mint), a.Keys, k);
    SumAgrees(Holdings(a, mint), Holdings(b, mint), a.Keys - {k});
  }

  lemma TransferConserves(a: Accounts, from: Key, mint: Key, to: Key, amount: u64, m: Key)
    requires Transfer(a, from, mint, to, amount).Ok?
    ensures Supply(Transfer(a, from, mint, to, amount).value, m) == Supply(a, m)
  {
    if from != to {
      var debited := TokenAccount(mint, a[from].amount - amount);
      SupplyUpdate(a, m, from, debited);
      SupplyUpdate(a[from := debited], m, to, TokenAccount(mint, a[to].amount + amount));
    }
  }

  lemma FillConserves(a: Accounts, f: Fill, m: Key)
    ensures Supply(Commit(a, f), m) == Supply(a, m)
  {
    if Settle(a, f).Ok? {
      var out := Quote(f).value;
      if f.side == Bid {
        var paid := Transfer(a, f.userQuote, f.quoteMint.address, f.makerQuote, f.amountIn).value;
        TransferConserves(a, f.userQuote, f.quoteMint.address, f.makerQuote, f.amountIn, m);
        TransferConserves(paid, f.makerBase, f.baseMint.address, f.userBase, out, m);
      } else {
        var paid := Transfer(a, f.userBase, f.baseMint.address, f.makerBase, f.amountIn).value;
        TransferConserves(a, f.userBase, f.baseMint.address, f.makerBase, f.amountIn, m);
        TransferConserves(paid, f.makerQuote, f.quoteMint.address, f.userQuote, out, m);
      }
    }
  }

  /** No run of fills creates or destroys an atom of any mint. */
  lemma {:induction false} RunConserves(a: Accounts, fills: seq<Fill>, m: Key)
    ensures Supply(Run(a, fills), m) == Supply(a, m)
    decreases fills
  {
    if fills != [] {
      FillConserves(a, fills[0], m);
      RunConserves(Commit(a, fills[0]), fills[1..], m);
    }
  }

  // ---------------------------------------------------------------- what a fill leaves alone

  lemma TransferFrame(a: Accounts, from: Key, mint: Key, to: Key, amount: u64)
    requires Transfer(a, from, mint, to, amount).Ok?
    ensures var b := Transfer(a, from, mint, to, amount).value;
            && b.Keys == a.Keys
            && (forall k :: k in a ==> b[k].mint == a[k].mint)
            && (forall k :: k in a && k != from && k != to ==> b[k] == a[k])
  {
  }

  /** A fill touches the four token accounts it names and no others, and never changes an account's mint. */
  lemma FillFrame(a: Accounts, f: Fill)
    ensures Commit(a, f).Keys == a.Keys
    ensures forall k :: k in a ==> Commit(a, f)[k].mint == a[k].mint
    ensures forall k :: k in a && k !in {f.userBase, f.userQuote, f.makerBase, f.makerQuote} ==> Commit(a, f)[k] == a[k]
  {
    if Settle(a, f).Ok? {
      var out := Quote(f).value;
      if f.side == Bid {
        var paid := Transfer(a, f.userQuote, f.quoteMint.address, f.makerQuote, f.amountIn).value;
        TransferFrame(a, f.userQuote, f.quoteMint.address, f.makerQuote, f.amountIn);
        TransferFrame(paid, f.makerBase, f.baseMint.address, f.userBase, out);
      } else {
        var paid := Transfer(a, f.userBase, f.baseMint.address, f.makerBase, f.amountIn).value;
        TransferFrame(a, f.userBase, f.baseMint.address, f.makerBase, f.amountIn);
        TransferFrame(paid, f.makerQuote, f.quoteMint.address, f.userQuote, out);
      }
    }
  }

  // ---------------------------------------------------------------- the maker's price bound

  /** Neither of the maker's two accounts is named by the fill. */
  predicate Bystander(f: Fill, makerBase: Key, makerQuote: Key) {
    {f.userBase, f.userQuote, f.makerBase, f.makerQuote} !! {makerBase, makerQuote}
  }

  /**
    The fill trades against the maker's accounts, and its best level is at least as good for the
    maker as price `pn / pd` in quote per base: a Bid starts no lower, an Ask no higher.
   */
  predicate QuotedAt(f: Fill, makerBase: Key, makerQuote: Key, pn: nat, pd: nat) {
    && f.makerBase == makerBase && f.makerQuote == makerQuote && makerBase != makerQuote
    && {f.userBase, f.userQuote} !! {makerBase, makerQuote}
    && (f.levels != [] ==>
          if f.side == Bid then pn * f.levels[0].base <= pd * f.levels[0].quote
          else pd * f.levels[0].quote <= pn * f.levels[0].base)
  }

  predicate SafeFill(f: Fill, makerBase: Key, makerQuote: Key, pn: nat, pd: nat) {
    Bystander(f, makerBase, makerQuote) || QuotedAt(f, makerBase, makerQuote, pn, pd)
  }

  /** The maker's holdings valued at `pn / pd`, scaled by `pd`. */
  ghost function Worth(a: Accounts, makerBase: Key, makerQuote: Key, pn: nat, pd: nat): int
    requires makerBase in a && makerQuote in a
  {
    a[makerBase].amount * pn + a[makerQuote].amount * pd
  }

  /** The balances of the maker after a committed fill on its accounts. */
  lemma MakerSettlement(a: Accounts, f: Fill)
    requires Settle(a, f).Ok?
    requires f.makerBase != f.makerQuote && {f.userBase, f.userQuote} !! {f.makerBase, f.makerQuote}
    ensures f.makerBase in a && f.makerQuote in a
    ensures var b, out := Settle(a, f).value, Quote(f).value;
            && f.makerBase in b && f.makerQuote in b
            && if f.side == Bid then
                 && b[f.makerBase].amount == a[f.makerBase].amount - out
                 && b[f.makerQuote].amount == a[f.makerQuote].amount + f.amountIn
               else
                 && b[f.makerBase].amount == a[f.makerBase].amount + f.amountIn
                 && b[f.makerQuote].amount == a[f.makerQuote].amount - out
  {
  }

  /** The taker of a committed fill pays exactly its input and receives the swept output, at least its minimum. */
  lemma TakerSettlement(a: Accounts, f: Fill)
    requires Settle(a, f).Ok?
    requires f.userBase != f.userQuote && {f.userBase, f.userQuote} !! {f.makerBase, f.makerQuote}
    ensures f.userBase in a && f.userQuote in a
    ensures var b, out := Settle(a, f).value, Quote(f).value;
            && f.userBase in b && f.userQuote in b
            && f.minOut <= out && 0 < out && f.now <= f.expireAt
            && if f.side == Bid then
                 && b[f.userQuote].amount == a[f.userQuote].amount - f.amountIn
                 && b[f.userBase].amount == a[f.userBase].amount + out
               else
                 && b[f.userBase].amount == a[f.userBase].amount - f.amountIn
                 && b[f.userQuote].amount == a[f.userQuote].amount + out
  {
    SweepTheorems.NeverBetterThanFirstLevel(f.side, f.amountIn, f.minOut, f.levels);
  }

  /** `y` out for `x` in at rate `o / i` or worse is worth no more than `x` when the rate is fair at `v / w`. */
  lemma FairTrade(x: nat, y: nat, i: nat, o: nat, v: nat, w: nat)
    requires i > 0 && o > 0
    requires y * i <= o * x
    requires v * o <= w * i
    ensures y * v <= x * w
  {
    calc {
      (y * v) * (i * o);
      ==
      (y * i) * (v * o);
      <= { MulMonotone(y * i, o * x, v * o); }
      (o * x) * (v * o);
      <= { MulMonotone(v * o, w * i, o * x);
           assert (o * x) * (v * o) == (v * o) * (o * x) && (o * x) * (w * i) == (w * i) * (o * x); }
      (o * x) * (w * i);
      ==
      (x * w) * (i * o);
    }
    MulCancel(y * v, x * w, i * o);
  }

  /** A committed fill on the maker's accounts pays out no more than it takes in, valued at `pn / pd`. */
  lemma QuotedFillIsFair(f: Fill, pn: nat, pd: nat)
    requires QuotedAt(f, f.makerBase, f.makerQuote, pn, pd)
    requires Quote(f).Ok?
    ensures if f.side == Bid then Quote(f).value * pn <= f.amountIn * pd else Quote(f).value * pd <= f.amountIn * pn
  {
    var x, y, l := f.amountIn, Quote(f).value, f.levels[0];
    SweepTheorems.NeverBetterThanFirstLevel(f.side, x, f.minOut, f.levels);
    if f.side == Bid {
      FairTrade(x, y, l.quote, l.base, pn, pd);
    } else {
      FairTrade(x, y, l.base, l.quote, pd, pn);
    }
  }

  lemma QuotedFillKeepsWorth(a: Accounts, f: Fill, pn: nat, pd: nat)
    requires QuotedAt(f, f.makerBase, f.makerQuote, pn, pd)
    requires Settle(a, f).Ok?
    ensures f.makerBase in a && f.makerQuote in a
    ensures f.makerBase in Settle(a, f).value && f.makerQuote in Settle(a, f).value
    ensures Worth(Settle(a, f).value, f.makerBase, f.makerQuote, pn, pd) >= Worth(a, f.makerBase, f.makerQuote, pn, pd)
  {
    QuotedFillIsFair(f, pn, pd);
    MakerSettlement(a, f);
    var b, x, y := Settle(a, f).value, f.amountIn, Quote(f).value;
    if f.side == Bid {
      FairExchange(a[f.makerBase].amount, a[f.makerQuote].amount, y, x, pn, pd);
    } else {
      FairExchange(a[f.makerQuote].amount, a[f.makerBase].amount, y, x, pd, pn);
    }
  }

  lemma {:induction false} FillKeepsWorth(a: Accounts, f: Fill, makerBase: Key, makerQuote: Key, pn: nat, pd: nat)
    requires makerBase in a && makerQuote in a
    requires SafeFill(f, makerBase, makerQuote, pn, pd)
    ensures makerBase in Commit(a, f) && makerQuote in Commit(a, f)
    ensures Worth(Commit(a, f), makerBase, makerQuote, pn, pd) >= Worth(a, makerBase, makerQuote, pn, pd)
  {
    if Bystander(f, makerBase, makerQuote) {
      FillFrame(a, f);
    } else if Settle(a, f).Ok? {
      QuotedFillKeepsWorth(a, f, pn, pd);
    }
  }

  /** Paying `out` of one asset for `got` of another keeps the total when the trade is fair. */
  lemma FairExchange(a: nat, b: nat, out: nat, got: nat, v: nat, w: nat)
    requires out <= a && out * v <= got * w
    ensures (a - out) * v + (b + got) * w >= a * v + b * w
  {
    assert (a - out) * v == a * v - out * v;
    assert (b + got) * w == b * w + got * w;
  }

  /**
    Over any run of fills, Bids and Asks mixed and some of them reverted, what the maker gives up
    is covered at price `pn / pd` by what it receives: base paid out never exceeds quote taken in.
   */
  lemma {:induction false} MakerNeverLoses(
      a: Accounts, fills: seq<Fill>, makerBase: Key, makerQuote: Key, pn: nat, pd: nat)
    requires makerBase in a && makerQuote in a
    requires forall i :: 0 <= i < |fills| ==> SafeFill(fills[i], makerBase, makerQuote, pn, pd)
    ensures var b := Run(a, fills);
            && makerBase in b && makerQuote in b
            && (a[makerBase].amount - b[makerBase].amount) * pn <= (b[makerQuote].amount - a[makerQuote].amount) * pd
  {
    RunKeepsWorth(a, fills, makerBase, makerQuote, pn, pd);
    var b := Run(a, fills);
    assert (a[makerBase].amount - b[makerBase].amount) * pn == a[makerBase].amount * pn - b[makerBase].amount * pn;
    assert (b[makerQuote].amount - a[makerQuote].amount) * pd == b[makerQuote].amount * pd - a[makerQuote].amount * pd;
  }

  lemma {:induction false} RunKeepsWorth(
      a: Accounts, fills: seq<Fill>, makerBase: Key, makerQuote: Key, pn: nat, pd: nat)
    requires makerBase in a && makerQuote in a
    requires forall i :: 0 <= i < |fills| ==> SafeFill(fills[i], makerBase, makerQuote, pn, pd)
    ensures makerBase in Run(a, fills) && makerQuote in Run(a, fills)
    ensures Worth(Run(a, fills), makerBase, makerQuote, pn, pd) >= Worth(a, makerBase, makerQuote, pn, pd)
    decreases fills
  {
    if fills != [] {
      FillKeepsWorth(a, fills[0], makerBase, makerQuote, pn, pd);
      RunKeepsWorth(Commit(a, fills[0]), fills[1..], makerBase, makerQuote, pn, pd);
    }
  }
}
