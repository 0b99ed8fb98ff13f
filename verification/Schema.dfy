/** The wire schema shared by the listener (which emits it) and the ledger (which reads it),
    and the chain data the listener extracts it from. */
module Schema {

  datatype Option<+T> = None | Some(value: T)

  /** Addresses and hashes are only ever compared, so any type with equality and a zero address will do. */
  type Address = nat
  const ZERO_ADDRESS: Address := 0
  type Hash = nat

  /** A decimal number in JSON text. Go's zero value for such a field is the empty string. */
  datatype NumText = Blank | Malformed | Digits(value: int)

  /** The six names the listener declares, and any other text that may arrive on the wire. */
  datatype EventType =
    | NativeTransfer
    | TokenTransfer
    | ContractInteraction
    | ContractDeployment
    | NftTransfer
    | DefiSwap
    | OtherEvent(name: string)

  datatype ActivityType = Incoming | Outgoing | Mint | Burn | OtherActivity(name: string)

  datatype Asset = Asset(assetType: string, symbol: string, contractAddress: Option<Address>)

  datatype GasDetails = GasDetails(
    feePaid: Option<NumText>, feeAsset: string, gasUsed: nat, effectiveGasPrice: NumText)

  datatype Metadata =
    | NoMetadata
    | LogPosition(logIndex: nat, txIndex: nat)
    | Deployment(deployStatus: nat, contract: Address)
    | Call(selector: seq<bv8>, callStatus: Option<nat>)

  datatype ActivityEvent = ActivityEvent(
    wallet: Address,
    txHash: Option<Hash>,
    eventType: EventType,
    activityType: ActivityType,
    fromAddress: Option<Address>,
    toAddress: Option<Address>,
    amount: Option<NumText>,
    asset: Option<Asset>,
    gas: Option<GasDetails>,
    metadata: Metadata)

  datatype NetworkId = Uuid(id: nat) | NotAUuid(text: string)

  /** A null event list behaves as the empty one on both sides, so it is not told apart from it. */
  datatype BlockMessage = BlockMessage(
    networkId: NetworkId,
    blockNumber: int,
    blockHash: Hash,
    blockTimestamp: Option<int>,
    events: seq<ActivityEvent>)

  datatype Receipt = Receipt(
    status: nat, gasUsed: nat, effectiveGasPrice: Option<nat>, contractAddress: Address)

  predicate Distinct<T(==)>(s: seq<T>) {
    forall i, j :: 0 <= i < j < |s| ==> s[i] != s[j]
  }

  lemma DistinctSnoc<T>(s: seq<T>, x: T)
    requires Distinct(s) && x !in s
    ensures Distinct(s + [x])
  {
  }
}
