/**
 * The execution-payload step of Merge (Bellatrix) block processing:
 * `process_execution_payload` of the Ethereum consensus specifications. A
 * payload is checked against the beacon state in four steps, in this order:
 * its parent hash (only once the merge is complete), its `random` value, its
 * timestamp, and the execution engine's verdict (only when an engine is
 * given). The first failing check rejects the payload and nothing changes;
 * otherwise the state's latest execution payload header becomes the header of
 * the payload.
 *
 * `isMergeComplete`, `getRandaoMix`, the SSZ hash tree root of the
 * transactions and the engine are outside this model: their answers are
 * inputs. Byte strings are compared as sequences, as `byteArrayEquals` does.
 */
module ExecutionPayloads {
  import opened Options

  type Bytes = seq<bv8>
  type Transaction = Bytes

  datatype ExecutionPayload = ExecutionPayload(
    parentHash: Bytes,
    feeRecipient: Bytes,
    stateRoot: Bytes,
    receiptsRoot: Bytes,
    logsBloom: Bytes,
    random: Bytes,
    blockNumber: nat,
    gasLimit: nat,
    gasUsed: nat,
    timestamp: nat,
    extraData: Bytes,
    baseFeePerGas: nat,
    blockHash: Bytes,
    transactions: seq<Transaction>)

  /** A payload summarised: its transactions are replaced by their root. */
  datatype ExecutionPayloadHeader = ExecutionPayloadHeader(
    parentHash: Bytes,
    feeRecipient: Bytes,
    stateRoot: Bytes,
    receiptsRoot: Bytes,
    logsBloom: Bytes,
    random: Bytes,
    blockNumber: nat,
    gasLimit: nat,
    gasUsed: nat,
    timestamp: nat,
    extraData: Bytes,
    baseFeePerGas: nat,
    blockHash: Bytes,
    transactionsRoot: Bytes)

  /** Why a payload is rejected; each corresponds to one `throw`. */
  datatype PayloadError = InvalidParentHash | InvalidRandom | InvalidTimestamp | InvalidPayload

  /**
   * `compute_timestamp_at_slot`, inlined in the source: genesis time plus the
   * slots since genesis (the genesis slot is 0) times the slot duration.
   */
  function TimestampAtSlot(genesisTime: nat, slot: nat, secondsPerSlot: nat): nat {
    genesisTime + slot * secondsPerSlot
  }

  /**
   * The first of the four checks that `payload` fails, in source order, or
   * `None` when it passes them all. `engine` is `None` when no execution
   * engine is given.
   */
  function FirstFailure(mergeComplete: bool, latestBlockHash: Bytes, expectedRandom: Bytes, expectedTimestamp: nat,
                        engine: Option<ExecutionPayload -> bool>, payload: ExecutionPayload): (r: Option<PayloadError>)
    ensures r.None? <==>
              (mergeComplete ==> payload.parentHash == latestBlockHash)
              && payload.random == expectedRandom
              && payload.timestamp == expectedTimestamp
              && (engine.Some? ==> engine.value(payload))
    ensures r == Some(InvalidParentHash) <==> mergeComplete && payload.parentHash != latestBlockHash
    ensures r == Some(InvalidRandom) <==>
              (mergeComplete ==> payload.parentHash == latestBlockHash)
              && payload.random != expectedRandom
    ensures r == Some(InvalidTimestamp) <==>
              (mergeComplete ==> payload.parentHash == latestBlockHash)
              && payload.random == expectedRandom
              && payload.timestamp != expectedTimestamp
    ensures r == Some(InvalidPayload) <==>
              (mergeComplete ==> payload.parentHash == latestBlockHash)
              && payload.random == expectedRandom
              && payload.timestamp == expectedTimestamp
              && engine.Some? && !engine.value(payload)
  {
    if mergeComplete && payload.parentHash != latestBlockHash then Some(InvalidParentHash)
    else if payload.random != expectedRandom then Some(InvalidRandom)
    else if payload.timestamp != expectedTimestamp then Some(InvalidTimestamp)
    else if engine.Some? && !engine.value(payload) then Some(InvalidPayload)
    else None
  }

  /** The header cached for an accepted payload. */
  function HeaderOf(payload: ExecutionPayload, transactionsRoot: seq<Transaction> -> Bytes): ExecutionPayloadHeader {
    ExecutionPayloadHeader(
      payload.parentHash, payload.feeRecipient, payload.stateRoot, payload.receiptsRoot, payload.logsBloom,
      payload.random, payload.blockNumber, payload.gasLimit, payload.gasUsed, payload.timestamp,
      payload.extraData, payload.baseFeePerGas, payload.blockHash, transactionsRoot(payload.transactions))
  }

  /**
   * The header keeps everything of the payload except its transactions, which
   * it keeps only through their root: two payloads have the same header
   * exactly when they differ at most in transactions with the same root.
   */
  lemma HeaderForgetsOnlyTransactions(p: ExecutionPayload, q: ExecutionPayload, transactionsRoot: seq<Transaction> -> Bytes)
    ensures HeaderOf(p, transactionsRoot) == HeaderOf(q, transactionsRoot)
            <==> p.(transactions := q.transactions) == q
                 && transactionsRoot(p.transactions) == transactionsRoot(q.transactions)
  {
  }

  /**
   * Once a payload is accepted, a later payload checked after the merge is
   * complete is accepted only if its parent hash is the accepted payload's
   * block hash; otherwise it is rejected for its parent hash, before any
   * other check.
   */
  lemma AcceptedPayloadIsParent(first: ExecutionPayload, next: ExecutionPayload, transactionsRoot: seq<Transaction> -> Bytes,
                                expectedRandom: Bytes, expectedTimestamp: nat, engine: Option<ExecutionPayload -> bool>)
    ensures var header := HeaderOf(first, transactionsRoot);
            var r := FirstFailure(true, header.blockHash, expectedRandom, expectedTimestamp, engine, next);
            && (r.None? ==> next.parentHash == first.blockHash)
            && (next.parentHash != first.blockHash ==> r == Some(InvalidParentHash))
  {
  }

  /** The beacon-state fields this step reads, and the one it writes. */
  class BeaconState {
    const genesisTime: nat
    const slot: nat
    /** `SECONDS_PER_SLOT` of the chain configuration. */
    const secondsPerSlot: nat
    /** The epoch of `currentShuffling`. */
    const currentShufflingEpoch: nat
    var latestExecutionPayloadHeader: ExecutionPayloadHeader

    constructor (genesisTime: nat, slot: nat, secondsPerSlot: nat, currentShufflingEpoch: nat,
                 latestExecutionPayloadHeader: ExecutionPayloadHeader)
      ensures this.genesisTime == genesisTime && this.slot == slot && this.secondsPerSlot == secondsPerSlot
      ensures this.currentShufflingEpoch == currentShufflingEpoch
      ensures this.latestExecutionPayloadHeader == latestExecutionPayloadHeader
    {
      this.genesisTime, this.slot, this.secondsPerSlot := genesisTime, slot, secondsPerSlot;
      this.currentShufflingEpoch := currentShufflingEpoch;
      this.latestExecutionPayloadHeader := latestExecutionPayloadHeader;
    }

    /**
     * `processExecutionPayload`: `mergeComplete` is the answer of
     * `isMergeComplete` for this state, `randaoMix` gives the RANDAO mix of an
     * epoch, and `transactionsRoot` is the hash tree root of a transaction
     * list. A rejection is returned as its error and leaves the header as it
     * was; an acceptance replaces the header by that of the payload.
     */
    method ProcessExecutionPayload(payload: ExecutionPayload, engine: Option<ExecutionPayload -> bool>,
                                   mergeComplete: bool, randaoMix: nat -> Bytes,
                                   transactionsRoot: seq<Transaction> -> Bytes)
      returns (error: Option<PayloadError>)
      modifies this`latestExecutionPayloadHeader
      ensures error == FirstFailure(mergeComplete, old(latestExecutionPayloadHeader).blockHash,
                                    randaoMix(currentShufflingEpoch),
                                    TimestampAtSlot(genesisTime, slot, secondsPerSlot), engine, payload)
      ensures error.Some? ==> latestExecutionPayloadHeader == old(latestExecutionPayloadHeader)
      ensures error.None? ==> latestExecutionPayloadHeader == HeaderOf(payload, transactionsRoot)
      ensures error.None? ==> && (mergeComplete ==> latestExecutionPayloadHeader.parentHash
                                                    == old(latestExecutionPayloadHeader).blockHash)
                              && latestExecutionPayloadHeader.random == randaoMix(currentShufflingEpoch)
                              && latestExecutionPayloadHeader.timestamp == TimestampAtSlot(genesisTime, slot, secondsPerSlot)
    {
      if mergeComplete {
        if payload.parentHash != latestExecutionPayloadHeader.blockHash {
          return Some(InvalidParentHash);
        }
      }
      var expectedRandom := randaoMix(currentShufflingEpoch);
      if payload.random != expectedRandom {
        return Some(InvalidRandom);
      }
      if payload.timestamp != genesisTime + slot * secondsPerSlot {
        return Some(InvalidTimestamp);
      }
      if engine.Some? && !engine.value(payload) {
        return Some(InvalidPayload);
      }
      latestExecutionPayloadHeader := ExecutionPayloadHeader(
        parentHash := payload.parentHash,
        feeRecipient := payload.feeRecipient,
        stateRoot := payload.stateRoot,
        receiptsRoot := payload.receiptsRoot,
        logsBloom := payload.logsBloom,
        random := payload.random,
        blockNumber := payload.blockNumber,
        gasLimit := payload.gasLimit,
        gasUsed := payload.gasUsed,
        timestamp := payload.timestamp,
        extraData := payload.extraData,
        baseFeePerGas := payload.baseFeePerGas,
        blockHash := payload.blockHash,
        transactionsRoot := transactionsRoot(payload.transactions));
      error := None;
    }
  }
}
