/** client/erc20.go: calldata of an ERC-20 transfer. */
module Erc20 {
  import opened Wrappers
  import opened Bytes

  type Address = a: seq<byte> | |a| == 20 witness Zeros(20)

  const SEL_TRANSFER: seq<byte> := [0xa9, 0x05, 0x9c, 0xbb]

  /** selector, address word, amount word */
  function TransferData(to: Address, amount: nat): seq<byte> {
    SEL_TRANSFER + LeftPad(to, 32) + LeftPad(Minimal(amount), 32)
  }

  function DecodeTransfer(data: seq<byte>): Option<(Address, nat)> {
    if |data| == 4 + 32 + 32 && data[..4] == SEL_TRANSFER then Some((data[16..36], ToNat(data[36..68]))) else None
  }

  /** Compares the selector byte by byte. */
  method DecodeERC20Transfer(data: seq<byte>) returns (r: Option<(Address, nat)>)
    ensures r == DecodeTransfer(data)
  {
    if |data| != 4 + 32 + 32 {
      return None;
    }
    for i := 0 to 4
      invariant data[..i] == SEL_TRANSFER[..i]
    {
      if data[i] != SEL_TRANSFER[i] {
        return None;
      }
    }
    assert SEL_TRANSFER[..4] == SEL_TRANSFER;
    return Some((data[16..36], ToNat(data[36..68])));
  }

  lemma AddressWord(to: Address)
    ensures LeftPad(to, 32) == Zeros(12) + to
  {
  }

  /** The four parts of a calldata, put together and taken apart. */
  lemma Parts(sel: seq<byte>, pad: seq<byte>, to: seq<byte>, word: seq<byte>)
    requires |sel| == 4 && |pad| == 12 && |to| == 20 && |word| == 32
    ensures var d := sel + (pad + to) + word;
            |d| == 68 && d[..4] == sel && d[4..16] == pad && d[16..36] == to && d[36..68] == word
  {
    var mid := pad + to;
    var d := sel + mid + word;
    assert d[4..36] == mid;
    assert d[4..16] == mid[..12] == pad;
    assert d[16..36] == mid[12..] == to;
  }

  /** The calldata of transfer(to, amount), byte for byte. */
  predicate TransferOf(data: seq<byte>, to: Address, amount: nat) {
    && |data| == 68 && data[..4] == [0xa9, 0x05, 0x9c, 0xbb]
    && data[4..16] == Zeros(12) && data[16..36] == to && ToNat(data[36..68]) == amount
  }

  lemma TransferLayout(to: Address, amount: nat)
    requires amount < Pow256(32)
    ensures TransferOf(TransferData(to, amount), to, amount)
  {
    AddressWord(to);
    PadMinimal(amount, 32);
    ToNatFixed(amount, 32);
    Parts(SEL_TRANSFER, Zeros(12), to, Fixed(amount, 32));
  }

  /** For every address and natural amount: decoding gives both back exactly when the amount fits a word. */
  lemma TransferRoundTrip(to: Address, amount: nat)
    ensures DecodeTransfer(TransferData(to, amount)) == if amount < Pow256(32) then Some((to, amount)) else None
  {
    AddressWord(to);
    MinimalFits(amount, 32);
    if amount < Pow256(32) {
      PadMinimal(amount, 32);
      ToNatFixed(amount, 32);
      Parts(SEL_TRANSFER, Zeros(12), to, Fixed(amount, 32));
    }
  }

  /** Re-encoding a decoded calldata gives it back exactly when the 12 padding bytes are zero. */
  lemma TransferReencoded(data: seq<byte>)
    requires DecodeTransfer(data).Some?
    ensures var (to, amount) := DecodeTransfer(data).value; TransferData(to, amount) == data <==> data[4..16] == Zeros(12)
  {
    var to, word := data[16..36], data[36..68];
    AddressWord(to);
    ToNatBound(word);
    PadMinimal(ToNat(word), 32);
    FixedToNat(word);
    Parts(SEL_TRANSFER, Zeros(12), to, word);
    Parts(SEL_TRANSFER, data[4..16], to, word);
    Whole(data);
  }

  lemma Whole(data: seq<byte>)
    requires |data| == 68
    ensures data == data[..4] + (data[4..16] + data[16..36]) + data[36..68]
  {
  }
}
