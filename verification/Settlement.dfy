/**
  The fill instruction: its checks in order, the sibling scan that keeps the maker's accounts out
  of every other instruction, and the two token transfers, as a step on token balances.
 */
module Settlement {
  import opened Common
  import opened Ladder
  import Loops = Sweep

  datatype TokenAccount = TokenAccount(mint: Key, amount: u64)

  type Accounts = map<Key, TokenAccount>

  /** A mint as the compatibility guard sees it: its program and its current-epoch fee, if any. */
  datatype Mint = Mint(address: Key, classicToken: bool, feeBasisPoints: Option<u16>)

  /** One entry of the instructions sysvar. */
  datatype SysInstruction = SysInstruction(program: Key, accounts: seq<Key>)

  datatype FillError = Rfq(code: ErrorCode) | TransferFailed

  datatype Fill = Fill(
    fillAuthority: Key,
    userBase: Key, userQuote: Key,
    makerBase: Key, makerQuote: Key,
    baseMint: Mint, quoteMint: Mint,
    siblings: seq<SysInstruction>, current: u16,
    now: i64,
    side: Side, amountIn: u64, minOut: u64,
    expireAt: i64, levels: seq<Level>)

  predicate MintCompatible(mint: Mint) {
    mint.classicToken || mint.feeBasisPoints == None || mint.feeBasisPoints == Some(0)
  }

  /** No protected key is among the accounts of any instruction but the current one. */
  ghost predicate Exclusive(siblings: seq<SysInstruction>, current: nat, protected: seq<Key>) {
    forall i, j :: 0 <= i < |siblings| && i != current && 0 <= j < |siblings[i].accounts| ==>
                     siblings[i].accounts[j] !in protected
  }

  method CheckFillExclusivity(siblings: seq<SysInstruction>, current: u16, protected: seq<Key>)
    returns (r: Result<(), ErrorCode>)
    ensures r == if Exclusive(siblings, current, protected) then Ok(()) else Err(MakerAppearsInOtherInstruction)
  {
    var idx := 0;
    while idx < |siblings|
      invariant 0 <= idx <= |siblings|
      invariant Exclusive(siblings[..idx], current, protected)
    {
      if idx != current {
        var accounts := siblings[idx].accounts;
        for j := 0 to |accounts|
          invariant forall k :: 0 <= k < j ==> accounts[k] !in protected
        {
          if accounts[j] in protected {
            return Err(MakerAppearsInOtherInstruction);
          }
        }
      }
      idx := idx + 1;
    }
    assert siblings[..idx] == siblings;
    r := Ok(());
  }

  /** A checked token transfer; a transfer of an account to itself moves nothing. */
  function Transfer(a: Accounts, from: Key, mint: Key, to: Key, amount: u64): Result<Accounts, FillError> {
    if from !in a || to !in a || a[from].mint != mint || a[to].mint != mint || a[from].amount < amount then
      Err(TransferFailed)
    else if from == to then Ok(a)
    else if a[to].amount + amount > U64_MAX then Err(TransferFailed)
    else Ok(a[from := TokenAccount(mint, a[from].amount - amount)][to := TokenAccount(mint, a[to].amount + amount)])
  }

  ghost function Protected(f: Fill): seq<Key> {
    [f.fillAuthority, f.makerBase, f.makerQuote]
  }

  /** Everything the handler checks before it moves tokens, in its order, and the swept output. */
  ghost function Quote(f: Fill): Result<u64, ErrorCode> {
    if f.amountIn == 0 then Err(ZeroAmountIn)
    else if f.levels == [] then Err(EmptyLevels)
    else if f.now > f.expireAt then Err(StaleOrderbook)
    else if !MintCompatible(f.baseMint) || !MintCompatible(f.quoteMint) then Err(UnsupportedMintExtension)
    else if !Exclusive(f.siblings, f.current, Protected(f)) then Err(MakerAppearsInOtherInstruction)
    else if !Sorted(f.side, f.levels) then Err(InvalidLevelOrdering)
    else Sweep(f.side, f.amountIn, f.minOut, f.levels)
  }

  /** The balances after a successful fill, or why there are none. */
  ghost function Settle(a: Accounts, f: Fill): Result<Accounts, FillError> {
    match Quote(f)
    case Err(e) => Err(Rfq(e))
    case Ok(out) =>
      if f.side == Bid then
        var paid :- Transfer(a, f.userQuote, f.quoteMint.address, f.makerQuote, f.amountIn);
        Transfer(paid, f.makerBase, f.baseMint.address, f.userBase, out)
      else
        var paid :- Transfer(a, f.userBase, f.baseMint.address, f.makerBase, f.amountIn);
        Transfer(paid, f.makerQuote, f.quoteMint.address, f.userQuote, out)
  }

  /** A transaction commits a successful fill and reverts a failed one. */
  ghost function Commit(a: Accounts, f: Fill): Accounts {
    match Settle(a, f)
    case Ok(b) => b
    case Err(_) => a
  }

  ghost function Run(a: Accounts, fills: seq<Fill>): Accounts {
    if fills == [] then a else Run(Commit(a, fills[0]), fills[1..])
  }

  class Bank {
    var accounts: Accounts

    method TransferChecked(from: Key, mint: Key, to: Key, amount: u64) returns (r: Result<(), FillError>)
      modifies this
      ensures match Transfer(old(accounts), from, mint, to, amount)
              case Ok(a) => r == Ok(()) && accounts == a
              case Err(e) => r == Err(e) && accounts == old(accounts)
    {
      if from !in accounts || to !in accounts {
        return Err(TransferFailed);
      }
      var source, target := accounts[from], accounts[to];
      if source.mint != mint || target.mint != mint || source.amount < amount {
        return Err(TransferFailed);
      }
      if from != to {
        if target.amount + amount > U64_MAX {
          return Err(TransferFailed);
        }
        accounts := accounts[from := TokenAccount(mint, source.amount - amount)];
        accounts := accounts[to := TokenAccount(mint, target.amount + amount)];
      }
      r := Ok(());
    }

    /** The instruction handler. On an error the balances may stand half-way: reverting is the runtime's part. */
    method Handler(f: Fill) returns (r: Result<u64, FillError>)
      modifies this
      ensures match Settle(old(accounts), f)
              case Ok(a) => r.Ok? && Quote(f) == Ok(r.value) && accounts == a
              case Err(e) => r == Err(e)
      ensures Quote(f).Err? ==> accounts == old(accounts)
    {
      if f.amountIn == 0 {
        return Err(Rfq(ZeroAmountIn));
      }
      if f.levels == [] {
        return Err(Rfq(EmptyLevels));
      }
      if f.now > f.expireAt {
        return Err(Rfq(StaleOrderbook));
      }
      if !MintCompatible(f.baseMint) {
        return Err(Rfq(UnsupportedMintExtension));
      }
      if !MintCompatible(f.quoteMint) {
        return Err(Rfq(UnsupportedMintExtension));
      }
      var protected := [f.fillAuthority, f.makerBase, f.makerQuote];
      var exclusive := CheckFillExclusivity(f.siblings, f.current, protected);
      if exclusive.Err? {
        return Err(Rfq(exclusive.error));
      }
      var sorted: Result<(), ErrorCode>;
      var swept: Result<u64, ErrorCode>;
      var first: Result<(), FillError>;
      var second: Result<(), FillError>;
      match f.side
      case Bid =>
        sorted := Loops.AssertSortedBid(f.levels);
        if sorted.Err? {
          return Err(Rfq(sorted.error));
        }
        swept := Loops.SweepBid(f.amountIn, f.minOut, f.levels);
        if swept.Err? {
          return Err(Rfq(swept.error));
        }
        first := TransferChecked(f.userQuote, f.quoteMint.address, f.makerQuote, f.amountIn);
        if first.Err? {
          return Err(first.error);
        }
        second := TransferChecked(f.makerBase, f.baseMint.address, f.userBase, swept.value);
        if second.Err? {
          return Err(second.error);
        }
        r := Ok(swept.value);
      case Ask =>
        sorted := Loops.AssertSortedAsk(f.levels);
        if sorted.Err? {
          return Err(Rfq(sorted.error));
        }
        swept := Loops.SweepAsk(f.amountIn, f.minOut, f.levels);
        if swept.Err? {
          return Err(Rfq(swept.error));
        }
        first := TransferChecked(f.userBase, f.baseMint.address, f.makerBase, f.amountIn);
        if first.Err? {
          return Err(first.error);
        }
        second := TransferChecked(f.makerQuote, f.quoteMint.address, f.userQuote, swept.value);
        if second.Err? {
          return Err(second.error);
        }
        r := Ok(swept.value);
    }

    /** One transaction around the handler: a failed fill leaves no trace. */
    method Execute(f: Fill) returns (r: Result<u64, FillError>)
      modifies this
      ensures accounts == Commit(old(accounts), f)
      ensures match Settle(old(accounts), f)
              case Ok(_) => r.Ok? && Quote(f) == Ok(r.value)
              case Err(e) => r == Err(e)
    {
      var before := accounts;
      r := Handler(f);
      if r.Err? {
        accounts := before;
      }
    }
  }
}
