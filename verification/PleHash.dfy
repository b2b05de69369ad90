/** PLE hashing of tokens and the speculative two-token window. */
module PleHash {
  import opened Machine
  import opened DivMod

  const NGRAM_SIZE: nat := 3
  const HEADS_PER_ORDER: nat := 8
  const PLE_HEADS: nat := 16

  datatype ShapeFault = NgramSize | HeadsPerNgram | MultiplierCount | VocabSizeCount | OffsetCount

  datatype PlanFault = ZeroMultiplier | ZeroVocabSize | HeadOffsetOverflow | HeadsNotContiguous
    | FinalTableOverflow | RowSpaceExceedsU32

  datatype TransactionFault = AlreadyActive | NotActive | SnapshotOfActive

  datatype PleHashError =
    | UnsupportedShape(shape: ShapeFault)
    | InvalidPlan(plan: PlanFault)
    | RowOverflow(row: nat)
    | Transaction(transaction: TransactionFault)
    | IncompatibleWindow

  // ----- hash plans

  function EndOf(start: nat, size: nat): nat {
    start + size
  }

  datatype PleHashPlan = PleHashPlan(
    multipliers: seq<u64>,
    vocabSizes: seq<u64>,
    offsets: seq<u64>,
    eosTokenId: u32)
  {
    /** What every plan built by `NewPlan` satisfies: sixteen adjacent nonempty tables below 2^32. */
    ghost predicate Valid() {
      && |multipliers| == NGRAM_SIZE && |vocabSizes| == |offsets| == PLE_HEADS
      && (forall i :: 0 <= i < NGRAM_SIZE ==> multipliers[i] > 0)
      && (forall h :: 0 <= h < PLE_HEADS ==> vocabSizes[h] > 0)
      && (forall h :: 1 <= h < PLE_HEADS ==> offsets[h] == TableEnd(h - 1))
      && TableEnd(PLE_HEADS - 1) <= U32_SPACE
    }

    /** First row after the table of a head. */
    function TableEnd(head: nat): nat
      requires head < |offsets| && head < |vocabSizes|
    {
      EndOf(offsets[head], vocabSizes[head])
    }
  }

  /** Check that head `h` starts where head `h - 1` ends, as one step of the constructor's loop. */
  function HeadFault(vocabSizes: seq<u64>, offsets: seq<u64>, h: nat): (fault: Option<PlanFault>)
    requires 1 <= h < |vocabSizes| && |vocabSizes| == |offsets|
    ensures fault == None <==> offsets[h] == EndOf(offsets[h - 1], vocabSizes[h - 1])
    ensures fault == Some(HeadOffsetOverflow) <==> offsets[h - 1] + vocabSizes[h - 1] >= U64_SPACE
    ensures fault.Some? && fault.value != HeadOffsetOverflow ==> fault.value == HeadsNotContiguous
  {
    var expected := EndOf(offsets[h - 1], vocabSizes[h - 1]);
    if expected >= U64_SPACE then Some(HeadOffsetOverflow)
    else if offsets[h] != expected then Some(HeadsNotContiguous)
    else None
  }

  ghost predicate FirstHeadFault(vocabSizes: seq<u64>, offsets: seq<u64>, fault: PlanFault)
    requires |vocabSizes| == |offsets|
  {
    exists h :: 1 <= h < |vocabSizes| && HeadFault(vocabSizes, offsets, h) == Some(fault)
      && forall g :: 1 <= g < h ==> HeadFault(vocabSizes, offsets, g) == None
  }

  method FindHeadFault(vocabSizes: seq<u64>, offsets: seq<u64>) returns (fault: Option<PlanFault>)
    requires |vocabSizes| == |offsets| == PLE_HEADS
    ensures fault.Some? ==> FirstHeadFault(vocabSizes, offsets, fault.value)
    ensures fault.Some? ==> fault.value in {HeadOffsetOverflow, HeadsNotContiguous}
    ensures fault.Some? ==> exists h :: 1 <= h < PLE_HEADS && offsets[h] != EndOf(offsets[h - 1], vocabSizes[h - 1])
    ensures fault.None? ==> forall h :: 1 <= h < PLE_HEADS ==> offsets[h] == EndOf(offsets[h - 1], vocabSizes[h - 1])
  {
    for head := 1 to PLE_HEADS
      invariant forall g :: 1 <= g < head ==> HeadFault(vocabSizes, offsets, g) == None
    {
      fault := HeadFault(vocabSizes, offsets, head);
      if fault.Some? {
        assert offsets[head] != EndOf(offsets[head - 1], vocabSizes[head - 1]);
        return;
      }
    }
    forall h | 1 <= h < PLE_HEADS ensures offsets[h] == EndOf(offsets[h - 1], vocabSizes[h - 1]) {
      assert HeadFault(vocabSizes, offsets, h) == None;
    }
    fault := None;
  }

  /** The metadata check that fails, if any; the head checks report the first bad head. */
  method FindPlanFault(multipliers: seq<u64>, vocabSizes: seq<u64>, offsets: seq<u64>)
    returns (fault: Option<PlanFault>)
    requires |multipliers| == NGRAM_SIZE && |vocabSizes| == |offsets| == PLE_HEADS
    ensures fault.None? <==> PleHashPlan(multipliers, vocabSizes, offsets, 0).Valid()
    ensures fault == Some(ZeroMultiplier) <==> 0 in multipliers
    ensures fault == Some(ZeroVocabSize) <==> 0 !in multipliers && 0 in vocabSizes
    ensures fault.Some? && fault.value in {HeadOffsetOverflow, HeadsNotContiguous} ==>
            FirstHeadFault(vocabSizes, offsets, fault.value)
    ensures fault == Some(FinalTableOverflow) ==> offsets[15] + vocabSizes[15] >= U64_SPACE
    ensures fault == Some(RowSpaceExceedsU32) ==> U32_SPACE < offsets[15] + vocabSizes[15] < U64_SPACE
  {
    assert 0 !in multipliers <==> forall i :: 0 <= i < NGRAM_SIZE ==> multipliers[i] > 0;
    assert 0 !in vocabSizes <==> forall h :: 0 <= h < PLE_HEADS ==> vocabSizes[h] > 0;
    if 0 in multipliers {
      return Some(ZeroMultiplier);
    }
    if 0 in vocabSizes {
      return Some(ZeroVocabSize);
    }
    fault := FindHeadFault(vocabSizes, offsets);
    if fault.Some? {
      return;
    }
    var finalEnd := EndOf(offsets[PLE_HEADS - 1], vocabSizes[PLE_HEADS - 1]);
    if finalEnd >= U64_SPACE {
      return Some(FinalTableOverflow);
    }
    if finalEnd > U32_SPACE {
      return Some(RowSpaceExceedsU32);
    }
    return None;
  }

  method NewPlan(
    multipliers: seq<u64>, vocabSizes: seq<u64>, offsets: seq<u64>,
    headsPerNgram: u64, ngramSize: u64, eosTokenId: u32)
    returns (r: Result<PleHashPlan, PleHashError>)
    ensures r.Ok? <==>
            && ngramSize == NGRAM_SIZE && headsPerNgram == HEADS_PER_ORDER
            && PleHashPlan(multipliers, vocabSizes, offsets, eosTokenId).Valid()
    ensures r.Ok? ==> r.value == PleHashPlan(multipliers, vocabSizes, offsets, eosTokenId)
    ensures r.Err? && r.error.InvalidPlan? && r.error.plan in {HeadOffsetOverflow, HeadsNotContiguous} ==>
            |vocabSizes| == |offsets| && FirstHeadFault(vocabSizes, offsets, r.error.plan)
    ensures r == Err(UnsupportedShape(NgramSize)) <==> ngramSize != 3
    ensures r == Err(UnsupportedShape(HeadsPerNgram)) <==> ngramSize == 3 && headsPerNgram != 8
    ensures ngramSize == 3 && headsPerNgram == 8 ==>
      && (r == Err(UnsupportedShape(MultiplierCount)) <==> |multipliers| != 3)
      && (r == Err(UnsupportedShape(VocabSizeCount)) <==> |multipliers| == 3 && |vocabSizes| != 16)
      && (r == Err(UnsupportedShape(OffsetCount)) <==> |multipliers| == 3 && |vocabSizes| == 16 != |offsets|)
    ensures r == Err(InvalidPlan(ZeroMultiplier)) ==> 0 in multipliers
    ensures r == Err(InvalidPlan(ZeroVocabSize)) ==> 0 !in multipliers && 0 in vocabSizes
    ensures r == Err(InvalidPlan(FinalTableOverflow)) ==> offsets[15] + vocabSizes[15] >= U64_SPACE
    ensures r == Err(InvalidPlan(RowSpaceExceedsU32)) ==> U32_SPACE < offsets[15] + vocabSizes[15] < U64_SPACE
  {
    if ngramSize != NGRAM_SIZE {
      return Err(UnsupportedShape(NgramSize));
    }
    if headsPerNgram != HEADS_PER_ORDER {
      return Err(UnsupportedShape(HeadsPerNgram));
    }
    if |multipliers| != NGRAM_SIZE {
      return Err(UnsupportedShape(MultiplierCount));
    }
    if |vocabSizes| != PLE_HEADS {
      return Err(UnsupportedShape(VocabSizeCount));
    }
    if |offsets| != PLE_HEADS {
      return Err(UnsupportedShape(OffsetCount));
    }
    var fault := FindPlanFault(multipliers, vocabSizes, offsets);
    if fault.Some? {
      return Err(InvalidPlan(fault.value));
    }
    return Ok(PleHashPlan(multipliers, vocabSizes, offsets, eosTokenId));
  }

  // ----- hashing

  function WrappingMul(a: u64, b: u64): u64 {
    a * b % U64_SPACE
  }

  /** Bitwise exclusive or of the low `bits` bits. */
  function XorBits(bits: nat, a: nat, b: nat): (r: nat)
    ensures r < Pow2(bits)
  {
    if bits == 0 then 0 else (a + b) % 2 + 2 * XorBits(bits - 1, a / 2, b / 2)
  }

  function Pow2(n: nat): (p: nat)
    ensures p > 0
  {
    if n == 0 then 1 else 2 * Pow2(n - 1)
  }

  lemma Pow2Of64()
    ensures Pow2(64) == U64_SPACE
  {
    assert Pow2(4) == 16;
    Pow2Sum(4, 4);
    assert Pow2(8) == 0x100;
    Pow2Sum(8, 8);
    assert Pow2(16) == 0x1_0000;
    Pow2Sum(16, 16);
    assert Pow2(32) == U32_SPACE;
    Pow2Sum(32, 32);
  }

  lemma {:induction false} Pow2Sum(a: nat, b: nat)
    ensures Pow2(a + b) == Pow2(a) * Pow2(b)
  {
    if a > 0 {
      Pow2Sum(a - 1, b);
    }
  }

  /** Bit k of a number. */
  function BitOf(value: nat, k: nat): bool {
    value / Pow2(k) % 2 == 1
  }

  lemma BitShift(value: nat, k: nat)
    requires k > 0
    ensures BitOf(value, k) == BitOf(value / 2, k - 1)
  {
    DivDiv(value, 2, Pow2(k - 1));
  }

  lemma LowBits(x: nat, a: nat, b: nat)
    requires x % 2 == (a + b) % 2
    ensures BitOf(x, 0) <==> BitOf(a, 0) != BitOf(b, 0)
  {
  }

  lemma XorHalves(bits: nat, a: nat, b: nat)
    requires bits > 0
    ensures XorBits(bits, a, b) / 2 == XorBits(bits - 1, a / 2, b / 2)
    ensures XorBits(bits, a, b) % 2 == (a + b) % 2
  {
  }

  /** Bit by bit: a bit of the exclusive or is set exactly when the two bits differ. */
  lemma {:induction false} XorBitAt(bits: nat, a: nat, b: nat, k: nat)
    requires k < bits
    ensures BitOf(XorBits(bits, a, b), k) <==> BitOf(a, k) != BitOf(b, k)
  {
    XorHalves(bits, a, b);
    if k == 0 {
      LowBits(XorBits(bits, a, b), a, b);
    } else {
      BitShift(XorBits(bits, a, b), k);
      BitShift(a, k);
      BitShift(b, k);
      XorBitAt(bits - 1, a / 2, b / 2, k - 1);
    }
  }

  /** `^` on u64: bit k of the result is set exactly when bits k of the operands differ. */
  lemma XorIsBitwise(a: u64, b: u64, k: nat)
    requires k < 64
    ensures BitOf(Xor(a, b), k) <==> BitOf(a, k) != BitOf(b, k)
  {
    XorBitAt(64, a, b, k);
  }

  lemma UndoParity(a: nat, b: nat, half: nat)
    ensures var x := (a + b) % 2 + 2 * half;
      x / 2 == half && (x + b) % 2 == a % 2
  {
  }

  /** Exclusive or undoes itself. */
  lemma {:induction false} XorInvolutive(bits: nat, a: nat, b: nat)
    requires a < Pow2(bits)
    ensures XorBits(bits, XorBits(bits, a, b), b) == a
  {
    if bits > 0 {
      UndoParity(a, b, XorBits(bits - 1, a / 2, b / 2));
      XorInvolutive(bits - 1, a / 2, b / 2);
    }
  }

  function Xor(a: u64, b: u64): u64 {
    Pow2Of64();
    XorBits(64, a, b)
  }

  /** The hash of the current token with the `order - 1` tokens before it, most recent first. */
  function Mixed(plan: PleHashPlan, previous: seq<u32>, token: u32, order: nat): u64
    requires |plan.multipliers| == NGRAM_SIZE && |previous| == NGRAM_SIZE - 1
    requires 1 <= order <= NGRAM_SIZE
  {
    if order == 1 then WrappingMul(token, plan.multipliers[0])
    else Xor(
      Mixed(plan, previous, token, order - 1),
      WrappingMul(previous[order - 2], plan.multipliers[order - 1]))
  }

  /** N-gram order hashed by a head: bigrams for the first eight, trigrams for the rest. */
  function HeadOrder(head: nat): nat {
    2 + head / HEADS_PER_ORDER
  }

  lemma {:induction false} TablesBelowEnd(plan: PleHashPlan, head: nat)
    requires plan.Valid() && head < PLE_HEADS
    ensures plan.TableEnd(head) <= U32_SPACE
    decreases PLE_HEADS - head
  {
    if head < PLE_HEADS - 1 {
      TablesBelowEnd(plan, head + 1);
      assert plan.offsets[head + 1] == plan.TableEnd(head);
    }
  }

  lemma {:induction false} TablesInOrder(plan: PleHashPlan, g: nat, h: nat)
    requires plan.Valid() && g < h < PLE_HEADS
    ensures plan.TableEnd(g) <= plan.offsets[h]
    decreases h - g
  {
    assert plan.offsets[h] == plan.TableEnd(h - 1);
    if g < h - 1 {
      TablesInOrder(plan, g, h - 1);
    }
  }

  /** Row of a hash value in the table of a head. The overflow check never fires. */
  function TableRow(plan: PleHashPlan, mixed: u64, head: nat): (r: Result<u32, PleHashError>)
    requires plan.Valid() && head < PLE_HEADS
    ensures r.Ok? && r.value == plan.offsets[head] + mixed % plan.vocabSizes[head] < plan.TableEnd(head)
  {
    TablesBelowEnd(plan, head);
    var row := EndOf(plan.offsets[head], mixed % plan.vocabSizes[head]);
    if row < U32_SPACE then
      var fits: u32 := row;
      Ok(fits)
    else Err(RowOverflow(row))
  }

  /** The row of one head. */
  function HashRow(plan: PleHashPlan, previous: seq<u32>, token: u32, head: nat): u32
    requires plan.Valid() && |previous| == NGRAM_SIZE - 1 && head < PLE_HEADS
  {
    TableRow(plan, Mixed(plan, previous, token, HeadOrder(head)), head).value
  }

  function HashRows(plan: PleHashPlan, previous: seq<u32>, token: u32): (rows: seq<u32>)
    requires plan.Valid() && |previous| == NGRAM_SIZE - 1
    ensures |rows| == PLE_HEADS
  {
    seq(PLE_HEADS, h requires 0 <= h < PLE_HEADS => HashRow(plan, previous, token, h))
  }

  /** The rows of a token after a context, most recent token first, in closed form: the eight bigram
      heads hash the token and the one before it, the eight trigram heads the one before that too. */
  ghost predicate EmitsRows(plan: PleHashPlan, context: seq<u32>, token: u32, rows: seq<u32>)
    requires plan.Valid() && |context| == 2
  {
    var bigram := Xor(
      token * plan.multipliers[0] % 0x1_0000_0000_0000_0000,
      context[0] * plan.multipliers[1] % 0x1_0000_0000_0000_0000);
    var trigram := Xor(bigram, context[1] * plan.multipliers[2] % 0x1_0000_0000_0000_0000);
    && |rows| == 16
    && (forall h :: 0 <= h < 8 ==> rows[h] == plan.offsets[h] + bigram % plan.vocabSizes[h])
    && (forall h :: 8 <= h < 16 ==> rows[h] == plan.offsets[h] + trigram % plan.vocabSizes[h])
  }

  lemma RowsInClosedForm(plan: PleHashPlan, previous: seq<u32>, token: u32)
    requires plan.Valid() && |previous| == 2
    ensures EmitsRows(plan, previous, token, HashRows(plan, previous, token))
  {
    var rows := HashRows(plan, previous, token);
    assert Mixed(plan, previous, token, 3) == Xor(
      Mixed(plan, previous, token, 2), WrappingMul(previous[1], plan.multipliers[2]));
    forall h | 0 <= h < 16
      ensures rows[h] == plan.offsets[h] + Mixed(plan, previous, token, if h < 8 then 2 else 3) % plan.vocabSizes[h]
    {
      HashRowAt(plan, previous, token, h);
    }
  }

  lemma HashRowAt(plan: PleHashPlan, previous: seq<u32>, token: u32, h: nat)
    requires plan.Valid() && |previous| == 2 && h < 16
    ensures HashRows(plan, previous, token)[h] ==
            plan.offsets[h] + Mixed(plan, previous, token, if h < 8 then 2 else 3) % plan.vocabSizes[h]
  {
    TablesBelowEnd(plan, h);
  }

  /** Every emitted row lies in its head's table, and the rows of one token strictly increase. */
  lemma RowsInTables(plan: PleHashPlan, previous: seq<u32>, token: u32, h: nat)
    requires plan.Valid() && |previous| == NGRAM_SIZE - 1 && h < PLE_HEADS
    ensures var rows := HashRows(plan, previous, token);
      && plan.offsets[h] <= rows[h] < plan.TableEnd(h) <= U32_SPACE
      && forall g :: 0 <= g < h ==> rows[g] < rows[h]
  {
    var rows := HashRows(plan, previous, token);
    TablesBelowEnd(plan, h);
    forall g | 0 <= g < h ensures rows[g] < rows[h] {
      TablesInOrder(plan, g, h);
    }
  }

  // ----- window states and their transitions

  datatype WindowState = WindowState(previous: seq<u32>, rollback: Option<seq<u32>>, eosTokenId: u32) {
    ghost predicate Shaped() {
      |previous| == 2 && (rollback.Some? ==> |rollback.value| == 2)
    }
  }

  function EmptyWindow(eos: u32): WindowState {
    WindowState([eos, eos], None, eos)
  }

  function Push(previous: seq<u32>, eos: u32, token: u32): (pushed: seq<u32>)
    requires |previous| == 2
    ensures |pushed| == 2
  {
    if token == eos then [eos, eos] else [token, previous[0]]
  }

  function PushAll(previous: seq<u32>, eos: u32, tokens: seq<u32>): (pushed: seq<u32>)
    requires |previous| == 2
    ensures |pushed| == 2
    decreases |tokens|
  {
    if tokens == [] then previous
    else PushAll(Push(previous, eos, tokens[0]), eos, tokens[1..])
  }

  function BeginState(w: WindowState): Result<WindowState, PleHashError> {
    if w.rollback.Some? then Err(Transaction(AlreadyActive)) else Ok(w.(rollback := Some(w.previous)))
  }

  function CommitState(w: WindowState): Result<WindowState, PleHashError> {
    if w.rollback.None? then Err(Transaction(NotActive)) else Ok(w.(rollback := None))
  }

  /** Restore the state before the transaction and replay the accepted tokens. */
  function CommitPrefixState(w: WindowState, tokens: seq<u32>): Result<WindowState, PleHashError>
    requires w.Shaped()
  {
    if w.rollback.None? then Err(Transaction(NotActive))
    else Ok(w.(rollback := None, previous := PushAll(w.rollback.value, w.eosTokenId, tokens)))
  }

  function AbortState(w: WindowState): Result<WindowState, PleHashError> {
    if w.rollback.None? then Err(Transaction(NotActive))
    else Ok(w.(rollback := None, previous := w.rollback.value))
  }

  /** The window after hashing one token, and the rows emitted. */
  function TokenState(plan: PleHashPlan, w: WindowState, token: u32): Result<(WindowState, seq<u32>), PleHashError>
    requires plan.Valid() && w.Shaped()
  {
    if w.eosTokenId != plan.eosTokenId then Err(IncompatibleWindow)
    else Ok((w.(previous := Push(w.previous, w.eosTokenId, token)), HashRows(plan, w.previous, token)))
  }

  // ----- closed form of the window

  /** The last two tokens of a history, most recent first, padded with EOS and cut at the last EOS. */
  function Context(eos: u32, history: seq<u32>): (context: seq<u32>)
    ensures |context| == 2
  {
    var n := |history|;
    if n == 0 then [eos, eos]
    else if n == 1 || history[n - 1] == eos then [history[n - 1], eos]
    else [history[n - 1], history[n - 2]]
  }

  lemma PushExtendsContext(eos: u32, history: seq<u32>, token: u32)
    ensures Push(Context(eos, history), eos, token) == Context(eos, history + [token])
  {
  }

  lemma {:induction false} PushAllExtendsContext(eos: u32, history: seq<u32>, tokens: seq<u32>)
    ensures PushAll(Context(eos, history), eos, tokens) == Context(eos, history + tokens)
    decreases |tokens|
  {
    if tokens == [] {
      assert history + tokens == history;
    } else {
      PushExtendsContext(eos, history, tokens[0]);
      PushAllExtendsContext(eos, history + [tokens[0]], tokens[1..]);
      assert history + [tokens[0]] + tokens[1..] == history + tokens;
    }
  }

  /** An EOS token cuts the context: what came before it is forgotten. */
  lemma EosForgets(eos: u32, before: seq<u32>, after: seq<u32>)
    ensures Context(eos, before + [eos] + after) == Context(eos, after)
  {
  }

  // ----- the window object

  class PleTokenWindow {
    var previous: seq<u32>
    var rollback: Option<seq<u32>>
    const eosTokenId: u32
    ghost var committed: seq<u32>
    ghost var staged: seq<u32>

    ghost predicate Valid()
      reads this
    {
      && previous == Context(eosTokenId, committed + staged)
      && (rollback.None? ==> staged == [])
      && (rollback.Some? ==> rollback.value == Context(eosTokenId, committed))
    }

    function State(): WindowState
      reads this
    {
      WindowState(previous, rollback, eosTokenId)
    }

    constructor Empty(eos: u32)
      ensures Valid() && State() == EmptyWindow(eos) && committed == [] && staged == []
    {
      previous := [eos, eos];
      rollback := None;
      eosTokenId := eos;
      committed, staged := [], [];
    }

    constructor Copy(original: PleTokenWindow)
      requires original.Valid()
      ensures Valid() && State() == original.State()
      ensures committed == original.committed && staged == original.staged
    {
      previous := original.previous;
      rollback := original.rollback;
      eosTokenId := original.eosTokenId;
      committed, staged := original.committed, original.staged;
    }

    static method New(ngramSize: u64, eos: u32) returns (r: Result<PleTokenWindow, PleHashError>)
      ensures r.Ok? <==> ngramSize == NGRAM_SIZE
      ensures r.Err? ==> r.error == UnsupportedShape(NgramSize)
      ensures r.Ok? ==> fresh(r.value) && r.value.Valid() && r.value.State() == EmptyWindow(eos)
      ensures r.Ok? ==> r.value.committed == [] && r.value.staged == []
    {
      if ngramSize != NGRAM_SIZE {
        return Err(UnsupportedShape(NgramSize));
      }
      var window := new PleTokenWindow.Empty(eos);
      return Ok(window);
    }

    method BeginAppend() returns (r: Result<(), PleHashError>)
      requires Valid()
      modifies this
      ensures Valid()
      ensures match BeginState(old(State()))
              case Ok(after) => r == Ok(()) && State() == after
              case Err(e) => r == Err(e) && State() == old(State())
      ensures committed == old(committed) && staged == old(staged)
    {
      if rollback.Some? {
        return Err(Transaction(AlreadyActive));
      }
      rollback := Some(previous);
      assert committed + staged == committed;
      return Ok(());
    }

    method CommitAppend() returns (r: Result<(), PleHashError>)
      requires Valid()
      modifies this
      ensures Valid()
      ensures match CommitState(old(State()))
              case Ok(after) => r == Ok(()) && State() == after
              case Err(e) => r == Err(e) && State() == old(State())
      ensures committed == if r.Ok? then old(committed) + old(staged) else old(committed)
      ensures staged == if r.Ok? then [] else old(staged)
    {
      if rollback.None? {
        return Err(Transaction(NotActive));
      }
      rollback := None;
      committed, staged := committed + staged, [];
      assert committed + staged == committed;
      return Ok(());
    }

    method CommitAppendPrefix(acceptedTokens: seq<u32>) returns (r: Result<(), PleHashError>)
      requires Valid()
      modifies this
      ensures Valid()
      ensures match CommitPrefixState(old(State()), acceptedTokens)
              case Ok(after) => r == Ok(()) && State() == after
              case Err(e) => r == Err(e) && State() == old(State())
      ensures committed == if r.Ok? then old(committed) + acceptedTokens else old(committed)
      ensures staged == if r.Ok? then [] else old(staged)
    {
      if rollback.None? {
        return Err(Transaction(NotActive));
      }
      previous := rollback.value;
      rollback := None;
      staged := [];
      assert committed + staged == committed;
      for i := 0 to |acceptedTokens|
        invariant Valid() && rollback.None?
        invariant committed == old(committed) + acceptedTokens[..i]
        invariant PushAll(previous, eosTokenId, acceptedTokens[i..])
               == PushAll(old(rollback).value, eosTokenId, acceptedTokens)
      {
        assert acceptedTokens[i..][1..] == acceptedTokens[i + 1..];
        assert acceptedTokens[..i + 1] == acceptedTokens[..i] + [acceptedTokens[i]];
        PushToken(acceptedTokens[i]);
      }
      assert acceptedTokens[..|acceptedTokens|] == acceptedTokens;
      return Ok(());
    }

    method AbortAppend() returns (r: Result<(), PleHashError>)
      requires Valid()
      modifies this
      ensures Valid()
      ensures match AbortState(old(State()))
              case Ok(after) => r == Ok(()) && State() == after
              case Err(e) => r == Err(e) && State() == old(State())
      ensures committed == old(committed)
      ensures staged == if r.Ok? then [] else old(staged)
    {
      if rollback.None? {
        return Err(Transaction(NotActive));
      }
      previous := rollback.value;
      rollback := None;
      staged := [];
      assert committed + staged == committed;
      return Ok(());
    }

    method Snapshot() returns (r: Result<PleTokenWindow, PleHashError>)
      requires Valid()
      ensures r.Ok? <==> rollback.None?
      ensures r.Err? ==> r.error == Transaction(SnapshotOfActive)
      ensures r.Ok? ==> fresh(r.value) && r.value.Valid() && r.value.State() == State()
      ensures r.Ok? ==> r.value.committed == committed
    {
      if rollback.Some? {
        return Err(Transaction(SnapshotOfActive));
      }
      var copy := new PleTokenWindow.Copy(this);
      return Ok(copy);
    }

    /** Append one token to the staged history, or to the committed one outside a transaction. */
    method PushToken(token: u32)
      requires Valid()
      modifies this
      ensures Valid() && rollback == old(rollback)
      ensures previous == Push(old(previous), eosTokenId, token)
      ensures committed == if rollback.Some? then old(committed) else old(committed) + [token]
      ensures staged == if rollback.Some? then old(staged) + [token] else []
    {
      PushExtendsContext(eosTokenId, committed + staged, token);
      if token == eosTokenId {
        previous := [eosTokenId, eosTokenId];
      } else {
        previous := previous[1 := previous[0]];
        previous := previous[0 := token];
      }
      assert committed + staged + [token] == committed + (staged + [token]);
      if rollback.Some? {
        staged := staged + [token];
      } else {
        assert committed + staged == committed;
        committed := committed + [token];
        assert committed + staged == committed;
      }
    }
  }

  lemma HeadsOfOrder(plan: PleHashPlan, previous: seq<u32>, token: u32, order: nat, head: nat)
    requires plan.Valid() && |previous| == NGRAM_SIZE - 1 && 2 <= order <= NGRAM_SIZE
    requires (order - 2) * HEADS_PER_ORDER <= head < (order - 1) * HEADS_PER_ORDER
    ensures TableRow(plan, Mixed(plan, previous, token, order), head) == Ok(HashRows(plan, previous, token)[head])
  {
    assert HeadOrder(head) == order;
  }

  method MixTokens(plan: PleHashPlan, previous: seq<u32>, token: u32, order: nat) returns (mixed: u64)
    requires |plan.multipliers| == NGRAM_SIZE && |previous| == NGRAM_SIZE - 1 && 2 <= order <= NGRAM_SIZE
    ensures mixed == Mixed(plan, previous, token, order)
  {
    mixed := WrappingMul(token, plan.multipliers[0]);
    for back := 1 to order
      invariant mixed == Mixed(plan, previous, token, back)
    {
      mixed := Xor(mixed, WrappingMul(previous[back - 1], plan.multipliers[back]));
    }
  }

  /** Fill the eight rows hashed with one n-gram order. */
  method HashOrder(
    plan: PleHashPlan, previous: seq<u32>, token: u32, order: nat, rows: array<u32>, ghost expected: seq<u32>)
    returns (r: Result<(), PleHashError>)
    requires plan.Valid() && |previous| == NGRAM_SIZE - 1 && 2 <= order <= NGRAM_SIZE && rows.Length == PLE_HEADS
    requires expected == HashRows(plan, previous, token)
    requires rows[..(order - 2) * HEADS_PER_ORDER] == expected[..(order - 2) * HEADS_PER_ORDER]
    modifies rows
    ensures r == Ok(())
    ensures rows[..(order - 1) * HEADS_PER_ORDER] == expected[..(order - 1) * HEADS_PER_ORDER]
  {
    var mixed := MixTokens(plan, previous, token, order);
    var firstHead := (order - 2) * HEADS_PER_ORDER;
    for head := firstHead to firstHead + HEADS_PER_ORDER
      invariant rows[..head] == expected[..head]
    {
      HeadsOfOrder(plan, previous, token, order, head);
      match TableRow(plan, mixed, head) {
        case Err(e) => return Err(e);
        case Ok(row) => rows[head] := row;
      }
      assert rows[..head + 1] == rows[..head] + [rows[head]];
    }
    return Ok(());
  }

  /** Hash one token in the current context, then append it. No arithmetic can fail. */
  method RowsForToken(plan: PleHashPlan, window: PleTokenWindow, token: u32)
    returns (r: Result<seq<u32>, PleHashError>)
    requires plan.Valid() && window.Valid()
    modifies window
    ensures window.Valid()
    ensures match TokenState(plan, old(window.State()), token)
            case Ok(after) => window.State() == after.0 && r == Ok(after.1)
            case Err(e) => r == Err(e) && window.State() == old(window.State())
    ensures r == Err(IncompatibleWindow) <==> window.eosTokenId != plan.eosTokenId
    ensures r.Ok? ==>
            EmitsRows(plan, Context(plan.eosTokenId, old(window.committed) + old(window.staged)), token, r.value)
    ensures window.committed ==
      if r.Ok? && window.rollback.None? then old(window.committed) + [token] else old(window.committed)
    ensures window.staged ==
      if r.Ok? && window.rollback.Some? then old(window.staged) + [token] else old(window.staged)
  {
    if window.eosTokenId != plan.eosTokenId {
      return Err(IncompatibleWindow);
    }
    var rows := new u32[PLE_HEADS](_ => 0);
    ghost var expected := HashRows(plan, window.previous, token);
    for order := 2 to NGRAM_SIZE + 1
      invariant window.Valid() && window.State() == old(window.State())
      invariant window.committed == old(window.committed) && window.staged == old(window.staged)
      invariant expected == HashRows(plan, window.previous, token)
      invariant rows[..(order - 2) * HEADS_PER_ORDER] == expected[..(order - 2) * HEADS_PER_ORDER]
    {
      var hashed := HashOrder(plan, window.previous, token, order, rows, expected);
      match hashed {
        case Err(e) => return Err(e);
        case Ok(_) =>
      }
    }
    var emitted := rows[..];
    assert emitted == rows[..PLE_HEADS] == expected;
    RowsInClosedForm(plan, window.previous, token);
    window.PushToken(token);
    return Ok(emitted);
  }
}
