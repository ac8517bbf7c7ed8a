/** `NewWalletTransactor`: transaction options whose signer refuses every
    address but the selected account's and otherwise hands the transaction
    to the wallet's `SignTx`, with no chain id (Go `nil`).

    The wallet is a parameter. A signing attempt returns, besides its
    result, the list of calls it made to the wallet, so that "the wallet is
    never asked" can be stated. */
module Transactor {
  import opened Wrappers
  import opened Bytes

  /** `accounts.Account`: an address and the wallet's locator for it. */
  datatype Account = Account(address: Address, url: string)

  datatype SignError =
    | NotAuthorized           // "not authorized to sign this account"
    | WalletError(message: string)

  /** One call to the wallet's `SignTx(account, tx, chainID)`. */
  datatype WalletCall<Tx> = SignTxCall(account: Account, tx: Tx, chainId: Option<nat>)

  datatype SignAttempt<Tx> = SignAttempt(result: Result<Tx, SignError>, calls: seq<WalletCall<Tx>>)

  /** A wallet's `SignTx`: the signed transaction or the wallet's error. */
  type SignTx<!Tx> = (Account, Tx, Option<nat>) -> Result<Tx, string>

  /** `bind.TransactOpts`: the sender address and the signer callback. */
  datatype TransactOpts<!Tx> = TransactOpts(from: Address, signer: (Address, Tx) -> SignAttempt<Tx>)

  function Delegate<Tx>(wallet: SignTx<Tx>, account: Account, tx: Tx): SignAttempt<Tx>
  {
    var result := match wallet(account, tx, None)
      case Success(signed) => Success(signed)
      case Failure(message) => Failure(WalletError(message));
    SignAttempt(result, [SignTxCall(account, tx, None)])
  }

  function WalletSigner<Tx>(wallet: SignTx<Tx>, account: Account, address: Address, tx: Tx): SignAttempt<Tx>
  {
    if address != account.address then SignAttempt(Failure(NotAuthorized), [])
    else Delegate(wallet, account, tx)
  }

  /** The options send from the account; their signer asks the wallet
      exactly once, for that account and without a chain id, when the
      requested address is the account's, and otherwise fails with
      `NotAuthorized` without asking it. Wallet errors are passed on. */
  function NewWalletTransactor<Tx(!new)>(wallet: SignTx<Tx>, account: Account): (opts: TransactOpts<Tx>)
    ensures opts.from == account.address
    ensures forall address: Address, tx: Tx ::
      (opts.signer(address, tx).calls == [] <==> address != account.address)
    ensures forall address: Address, tx: Tx :: address != account.address ==>
      opts.signer(address, tx).result == Failure(NotAuthorized)
    ensures forall tx: Tx ::
      && opts.signer(account.address, tx).calls == [SignTxCall(account, tx, None)]
      && (wallet(account, tx, None).Success? ==>
            opts.signer(account.address, tx).result == Success(wallet(account, tx, None).value))
      && (wallet(account, tx, None).Failure? ==>
            opts.signer(account.address, tx).result == Failure(WalletError(wallet(account, tx, None).error)))
  {
    TransactOpts(account.address, (address, tx) => WalletSigner(wallet, account, address, tx))
  }

  /** A transaction comes back signed only if the address asked for was the
      account's and the wallet, asked once for that account, signed it. */
  lemma SignedOnlyForAccount<Tx(!new)>(wallet: SignTx<Tx>, account: Account, address: Address, tx: Tx)
    ensures var attempt := NewWalletTransactor(wallet, account).signer(address, tx);
      attempt.result.Success? ==>
        && address == account.address
        && attempt.calls == [SignTxCall(account, tx, None)]
        && wallet(account, tx, None) == Success(attempt.result.value)
  {
  }
}
