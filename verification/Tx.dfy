/** client/tx.go: building an Ethereum transaction from a request, and showing one to the co-signer. */
module Tx {
  import opened Wrappers
  import opened Bytes
  import opened Erc20

  const TWO63 := 0x8000_0000_0000_0000
  const TWO64 := 0x1_0000_0000_0000_0000

  datatype Kind = Legacy | AccessList | DynamicFee | Blob

  /** What a transaction has that no display shows; lists, blobs and signature values as their encodings. */
  datatype Rest = Rest(kind: Kind, chainId: nat, tipCap: nat, accessList: seq<byte>, blobs: seq<byte>, signature: seq<byte>)

  const LEGACY := Rest(Legacy, 0, 0, [], [], [])

  /** Any transaction the wallet can decode; `gasPrice` is the fee cap where the kind has one. */
  datatype Transaction = Transaction(nonce: nat, to: Option<Address>, value: nat, gas: nat, gasPrice: nat, data: seq<byte>, rest: Rest)

  /** Within the widths of the encoding: 64 bits for nonce and gas, 256 bits for the amounts. */
  predicate Representable(tx: Transaction) {
    tx.nonce < TWO64 && tx.gas < TWO64 && tx.value < Pow256(32) && tx.gasPrice < Pow256(32) && tx.rest.tipCap < Pow256(32)
  }

  /** A token field that is absent, not a hex address, or an address. */
  datatype Token = Native | BadToken | Contract(addr: Address)

  /** A parsed request; an address that is not hex is None. Amounts and gas are 64-bit signed. */
  datatype Request = Request(from: Option<Address>, to: Option<Address>, amount: int, gasLimit: int, token: Token)

  predicate InRange(req: Request) { -TWO63 <= req.amount < TWO63 && -TWO63 <= req.gasLimit < TWO63 }

  /** Conversion of a 64-bit signed integer to unsigned. */
  function Unsigned(x: int): int { if x < 0 then x + TWO64 else x }

  /** createTxHash's check and the pure part of createEthereumTxHash. */
  method Build(req: Request, nonce: nat, gasPrice: nat) returns (r: Result<Transaction>)
    requires InRange(req)
    ensures r.Ok? <==> req.from.Some? && req.to.Some? && req.amount > 0 && !req.token.BadToken?
    ensures r.Ok? ==> r.value == Built(req, nonce, gasPrice) && Moves(req, r.value)
  {
    BuiltMoves(req, nonce, gasPrice);
    if req.amount <= 0 || req.from.None? || req.to.None? {
      return Err;
    }
    var gasLimit := req.gasLimit;
    if gasLimit == 0 {
      gasLimit := 21000;
    }
    var to := req.to.value;
    var value: nat := req.amount;
    var data: seq<byte> := [];
    match req.token {
      case BadToken => return Err;
      case Native =>
      case Contract(addr) =>
        data := TransferData(to, value);
        to := addr;
        value := 0;
        if req.gasLimit == 0 {
          gasLimit := 65000;
        }
    }
    return Ok(Transaction(nonce, Some(to), value, Unsigned(gasLimit), gasPrice, data, LEGACY));
  }

  /**
   * What a transaction does for a request. Natively: the amount to the recipient, without calldata.
   * For a token: a call of the contract that sends no value and transfers the amount to the recipient.
   */
  predicate Moves(req: Request, tx: Transaction) {
    if req.token.Native? then tx.to == req.to && tx.value == req.amount && tx.data == []
    else req.token.Contract? && tx.to == Some(req.token.addr) && tx.value == 0 && req.to.Some? && req.amount >= 0 && TransferOf(tx.data, req.to.value, req.amount)
  }

  lemma BuiltMoves(req: Request, nonce: nat, gasPrice: nat)
    ensures Buildable(req) ==> Moves(req, Built(req, nonce, gasPrice))
  {
    if Buildable(req) && req.token.Contract? {
      WordHoldsInt64();
      TransferLayout(req.to.value, req.amount);
    }
  }

  predicate Buildable(req: Request) {
    InRange(req) && req.from.Some? && req.to.Some? && req.amount > 0 && !req.token.BadToken?
  }

  function Built(req: Request, nonce: nat, gasPrice: nat): Transaction
    requires Buildable(req)
  {
    if req.token.Contract? then
      Transaction(nonce, Some(req.token.addr), 0, if req.gasLimit == 0 then 65000 else Unsigned(req.gasLimit), gasPrice,
                  TransferData(req.to.value, req.amount), LEGACY)
    else
      Transaction(nonce, req.to, req.amount, if req.gasLimit == 0 then 21000 else Unsigned(req.gasLimit), gasPrice, [], LEGACY)
  }

  /** What the co-signer is shown; `token` is set for an ERC-20 transfer only. */
  datatype Display = Display(to: Option<Address>, value: nat, nonce: nat, gas: nat, gasPrice: nat, isErc20: bool, token: Option<Address>)

  function Show(tx: Transaction): Display {
    var plain := Display(tx.to, tx.value, tx.nonce, tx.gas, tx.gasPrice, false, None);
    match DecodeTransfer(tx.data)
    case Some((to, amount)) => plain.(isErc20 := true, token := tx.to, to := Some(to), value := amount)
    case None => plain
  }

  /** Every display: nonce, gas and price as they are; recipient and value those of the transfer, or else the transaction's own. */
  lemma ShowsFields(tx: Transaction)
    ensures var d := Show(tx);
            && d.nonce == tx.nonce && d.gas == tx.gas && d.gasPrice == tx.gasPrice
            && (d.isErc20 <==> |tx.data| == 68 && tx.data[..4] == [0xa9, 0x05, 0x9c, 0xbb])
            && (d.isErc20 ==> d.to == Some(tx.data[16..36]) && d.value == ToNat(tx.data[36..68]) && d.token == tx.to)
            && (!d.isErc20 ==> d.to == tx.to && d.value == tx.value && d.token == None)
  {
  }

  /** decodeTx: the fields are set from the transaction, then overwritten for an ERC-20 transfer. */
  method DecodeTx(raw: seq<byte>, unmarshal: seq<byte> -> Option<Transaction>) returns (out: Result<Display>)
    ensures out == match unmarshal(raw) case Some(tx) => Ok(Show(tx)) case None => Err
  {
    var parsed := unmarshal(raw);
    if parsed.None? {
      return Err;
    }
    var tx := parsed.value;
    var shown := Display(tx.to, tx.value, tx.nonce, tx.gas, tx.gasPrice, false, None);
    var transfer := DecodeERC20Transfer(tx.data);
    if transfer.Some? {
      shown := shown.(isErc20 := true, token := shown.to);
      shown := shown.(to := Some(transfer.value.0), value := transfer.value.1);
    }
    return Ok(shown);
  }

  /** Showing a built transaction reports the request, for every native and every token request. */
  lemma ShownIsRequested(req: Request, nonce: nat, gasPrice: nat)
    requires Buildable(req)
    ensures var d := Show(Built(req, nonce, gasPrice));
            && d.to == req.to && d.value == req.amount && d.nonce == nonce && d.gasPrice == gasPrice
            && d.isErc20 == req.token.Contract?
            && d.token == (if req.token.Contract? then Some(req.token.addr) else None)
            && d.gas == (if req.gasLimit != 0 then Unsigned(req.gasLimit) else if req.token.Contract? then 65000 else 21000)
  {
    if req.token.Contract? {
      TransferRoundTrip(req.to.value, req.amount);
      WordHoldsInt64();
    }
  }

  lemma WordHoldsInt64()
    ensures TWO63 < Pow256(32)
  {
    Pow256Four();
    Pow256Adds(4, 4);
    Pow256Adds(8, 24);
    Pow256Grows(24);
  }

  lemma Pow256Four()
    ensures Pow256(4) == 0x1_0000_0000
  {
    assert Pow256(2) == 256 * (256 * Pow256(0));
    assert Pow256(4) == 256 * (256 * Pow256(2));
  }

  lemma {:induction false} Pow256Adds(a: nat, b: nat)
    ensures Pow256(a + b) == Pow256(a) * Pow256(b)
  {
    if a > 0 {
      Pow256Adds(a - 1, b);
    }
  }

  /** With a marshalling that can be undone, the co-signer is shown the request from the bytes it receives. */
  lemma ShownFromBytes(req: Request, nonce: nat, gasPrice: nat,
                       marshal: Transaction -> seq<byte>, unmarshal: seq<byte> -> Option<Transaction>)
    requires Buildable(req) && nonce < TWO64 && gasPrice < Pow256(32)
    requires forall tx :: Representable(tx) ==> unmarshal(marshal(tx)) == Some(tx)
    ensures var tx := unmarshal(marshal(Built(req, nonce, gasPrice)));
            tx.Some? &&
            Show(tx.value) == Display(req.to, req.amount, nonce,
                                      if req.gasLimit != 0 then Unsigned(req.gasLimit) else if req.token.Contract? then 65000 else 21000,
                                      gasPrice, req.token.Contract?, if req.token.Contract? then Some(req.token.addr) else None)
  {
    ShownIsRequested(req, nonce, gasPrice);
    WordHoldsInt64();
    assert Representable(Built(req, nonce, gasPrice));
  }

  // ---- what the display leaves out ----

  lemma TransfersShownAlike(t: Transaction, u: Transaction)
    requires Show(t) == Show(u) && Show(t).isErc20
    ensures |t.data| == 68 && |u.data| == 68
    ensures t == u <==> t.rest == u.rest && t.value == u.value && t.data[4..16] == u.data[4..16]
  {
    FixedToNat(t.data[36..68]);
    FixedToNat(u.data[36..68]);
    Whole(t.data);
    Whole(u.data);
  }

  /**
   * Two transactions that are shown alike are the same exactly when they agree in what no display
   * shows and, for ERC-20 transfers, send the same native value and have the same padding, and for
   * anything else carry the same calldata.
   */
  lemma ShownAlike(t: Transaction, u: Transaction)
    requires Show(t) == Show(u)
    ensures Show(t).isErc20 ==> |t.data| == 68 && |u.data| == 68
    ensures t == u <==>
            t.rest == u.rest && if Show(t).isErc20 then t.value == u.value && t.data[4..16] == u.data[4..16] else t.data == u.data
  {
    if Show(t).isErc20 {
      TransfersShownAlike(t, u);
    }
  }

  /** Kind, chain, tip cap, access list, blobs and signature values are not shown: a built transaction looks like any with another rest. */
  lemma RestHidden(req: Request, nonce: nat, gasPrice: nat, rest: Rest)
    requires Buildable(req)
    ensures var tx := Built(req, nonce, gasPrice);
            && Show(tx.(rest := rest)) == Show(tx) && (tx.(rest := rest) == tx <==> rest == LEGACY)
            && Show(tx).to == req.to && Show(tx).value == req.amount
  {
    ShownIsRequested(req, nonce, gasPrice);
  }

  /** A native value sent along with an ERC-20 transfer is not shown. */
  lemma NativeValueHidden(nonce: nat, token: Address, value: nat, gas: nat, gasPrice: nat, to: Address, amount: nat, rest: Rest)
    requires amount < Pow256(32)
    ensures var call := Transaction(nonce, Some(token), value, gas, gasPrice, TransferData(to, amount), rest);
            && Show(call) == Show(call.(value := 0)) && Show(call).isErc20
            && Show(call).to == Some(to) && Show(call).value == amount && Show(call).token == Some(token)
  {
    TransferRoundTrip(to, amount);
  }

  /** Calldata that is not exactly a 68-byte transfer is not shown: with more bytes behind it the call reads as an empty send. */
  lemma PaddedTransferHidden(nonce: nat, token: Address, gas: nat, gasPrice: nat, to: Address, amount: nat, extra: seq<byte>, rest: Rest)
    requires amount < Pow256(32) && extra != []
    ensures var call := Transaction(nonce, Some(token), 0, gas, gasPrice, TransferData(to, amount) + extra, rest);
            Show(call) == Show(call.(data := [])) && !Show(call).isErc20 && call.data != []
  {
    TransferRoundTrip(to, amount);
  }
}
