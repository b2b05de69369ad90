/** Whole runs of the token window: what any operations leave, and that speculation is invisible. */
module Speculation {
  import opened Machine
  import opened PleHash

  // ----- every operation sequence

  datatype Operation =
    | Begin
    | Token(token: u32)
    | Commit
    | CommitPrefix(tokens: seq<u32>)
    | Abort

  /** What an operation emits: the rows of a token, nothing otherwise, or its error. */
  type Emission = Result<seq<u32>, PleHashError>

  function Keep(w: WindowState, r: Result<WindowState, PleHashError>): (WindowState, Emission) {
    match r case Ok(after) => (after, Ok([])) case Err(e) => (w, Err(e))
  }

  /** One operation on a window: an operation that fails leaves it as it was. */
  function Apply(plan: PleHashPlan, w: WindowState, op: Operation): (r: (WindowState, Emission))
    requires plan.Valid() && w.Shaped()
    ensures r.0.Shaped()
  {
    match op
    case Begin => Keep(w, BeginState(w))
    case Commit => Keep(w, CommitState(w))
    case CommitPrefix(tokens) => Keep(w, CommitPrefixState(w, tokens))
    case Abort => Keep(w, AbortState(w))
    case Token(token) =>
      match TokenState(plan, w, token)
      case Ok(after) => (after.0, Ok(after.1))
      case Err(e) => (w, Err(e))
  }

  function Run(plan: PleHashPlan, w: WindowState, ops: seq<Operation>): (r: (WindowState, seq<Emission>))
    requires plan.Valid() && w.Shaped()
    ensures r.0.Shaped() && |r.1| == |ops|
    decreases |ops|
  {
    if ops == [] then (w, [])
    else
      var step := Apply(plan, w, ops[0]);
      var rest := Run(plan, step.0, ops[1..]);
      (rest.0, [step.1] + rest.1)
  }

  /** The ideal window: the complete committed history and, inside a transaction, the staged one. */
  datatype Ledger = Ledger(committed: seq<u32>, staged: Option<seq<u32>>) {
    function History(): seq<u32> {
      if staged.Some? then committed + staged.value else committed
    }
  }

  function LedgerApply(plan: PleHashPlan, eos: u32, l: Ledger, op: Operation): (Ledger, Emission)
    requires plan.Valid()
  {
    match op
    case Begin =>
      if l.staged.Some? then (l, Err(Transaction(AlreadyActive))) else (l.(staged := Some([])), Ok([]))
    case Token(token) =>
      if plan.eosTokenId != eos then (l, Err(IncompatibleWindow)) else
      ((if l.staged.Some? then l.(staged := Some(l.staged.value + [token])) else l.(committed := l.committed + [token])),
       Ok(HashRows(plan, Context(eos, l.History()), token)))
    case Commit =>
      if l.staged.None? then (l, Err(Transaction(NotActive))) else (Ledger(l.History(), None), Ok([]))
    case CommitPrefix(tokens) =>
      if l.staged.None? then (l, Err(Transaction(NotActive))) else (Ledger(l.committed + tokens, None), Ok([]))
    case Abort =>
      if l.staged.None? then (l, Err(Transaction(NotActive))) else (Ledger(l.committed, None), Ok([]))
  }

  function LedgerRun(plan: PleHashPlan, eos: u32, l: Ledger, ops: seq<Operation>): (Ledger, seq<Emission>)
    requires plan.Valid()
    decreases |ops|
  {
    if ops == [] then (l, [])
    else
      var step := LedgerApply(plan, eos, l, ops[0]);
      var rest := LedgerRun(plan, eos, step.0, ops[1..]);
      (rest.0, [step.1] + rest.1)
  }

  /** The two-token window that stands for a ledger. */
  function WindowOf(eos: u32, l: Ledger): (w: WindowState)
    ensures w.Shaped()
  {
    WindowState(
      Context(eos, l.History()),
      if l.staged.Some? then Some(Context(eos, l.committed)) else None,
      eos)
  }

  lemma StepRefines(plan: PleHashPlan, eos: u32, l: Ledger, op: Operation)
    requires plan.Valid()
    ensures var ideal := LedgerApply(plan, eos, l, op);
            Apply(plan, WindowOf(eos, l), op) == (WindowOf(eos, ideal.0), ideal.1)
  {
    match op
    case Begin =>
      assert l.committed + [] == l.committed;
    case Token(token) =>
      PushExtendsContext(eos, l.History(), token);
      if l.staged.Some? {
        assert l.committed + (l.staged.value + [token]) == l.History() + [token];
      }
    case CommitPrefix(tokens) =>
      PushAllExtendsContext(eos, l.committed, tokens);
    case Commit =>
    case Abort =>
  }

  /** Whatever operations are tried, in any order, the two-token window with its one rollback copy
      behaves as the full histories do: same emissions, same errors, same final window. */
  lemma {:induction false} RunRefines(plan: PleHashPlan, eos: u32, l: Ledger, ops: seq<Operation>)
    requires plan.Valid()
    ensures var ideal := LedgerRun(plan, eos, l, ops);
            Run(plan, WindowOf(eos, l), ops) == (WindowOf(eos, ideal.0), ideal.1)
    decreases |ops|
  {
    if ops != [] {
      StepRefines(plan, eos, l, ops[0]);
      RunRefines(plan, eos, LedgerApply(plan, eos, l, ops[0]).0, ops[1..]);
    }
  }

  /** Committing everything staged as a prefix is committing; committing nothing is aborting. */
  lemma PrefixExtremes(eos: u32, l: Ledger)
    ensures l.staged.Some? ==>
            CommitPrefixState(WindowOf(eos, l), l.staged.value) == CommitState(WindowOf(eos, l))
    ensures CommitPrefixState(WindowOf(eos, l), []) == AbortState(WindowOf(eos, l))
  {
    if l.staged.Some? {
      PushAllExtendsContext(eos, l.committed, l.staged.value);
    }
  }

  // ----- speculative rounds

  /** What a decoder does with the window between two stable points. */
  datatype Round =
    | Direct(token: u32)
    | AcceptAll(draft: seq<u32>)
    | AcceptPrefix(draft: seq<u32>, accepted: nat)
    | Discard(draft: seq<u32>)
  {
    /** The operations of the round. */
    function Operations(): seq<Operation> {
      match this
      case Direct(token) => [Token(token)]
      case AcceptAll(draft) => [Begin] + Tokens(draft) + [Commit]
      case AcceptPrefix(draft, _) => [Begin] + Tokens(draft) + [CommitPrefix(Kept())]
      case Discard(draft) => [Begin] + Tokens(draft) + [Abort]
    }

    /** The tokens that survive the round. */
    function Kept(): seq<u32> {
      match this
      case Direct(token) => [token]
      case AcceptAll(draft) => draft
      case AcceptPrefix(draft, accepted) => if accepted <= |draft| then draft[..accepted] else draft
      case Discard(_) => []
    }

    /** Position, among the round's operations, of the one that hashed its first token. */
    function FirstToken(): nat {
      if Direct? then 0 else 1
    }
  }

  function Tokens(tokens: seq<u32>): (ops: seq<Operation>)
    ensures |ops| == |tokens|
  {
    seq(|tokens|, i requires 0 <= i < |tokens| => Token(tokens[i]))
  }

  function KeptOf(rounds: seq<Round>): seq<u32> {
    if rounds == [] then [] else rounds[0].Kept() + KeptOf(rounds[1..])
  }

  /** Play rounds on a window: the final window and the emissions for the tokens that survived. */
  function Play(plan: PleHashPlan, w: WindowState, rounds: seq<Round>): (r: (WindowState, seq<Emission>))
    requires plan.Valid() && w.Shaped()
    decreases |rounds|
  {
    if rounds == [] then (w, [])
    else
      var run := Run(plan, w, rounds[0].Operations());
      var first := rounds[0].FirstToken();
      var kept := run.1[first..first + |rounds[0].Kept()|];
      var rest := Play(plan, run.0, rounds[1..]);
      (rest.0, kept + rest.1)
  }

  lemma {:induction false} RunConcat(plan: PleHashPlan, w: WindowState, a: seq<Operation>, b: seq<Operation>)
    requires plan.Valid() && w.Shaped()
    ensures var first := Run(plan, w, a);
      var second := Run(plan, first.0, b);
      Run(plan, w, a + b) == (second.0, first.1 + second.1)
    decreases |a|
  {
    if a == [] {
      assert a + b == b;
      assert Run(plan, w, a) == (w, []);
      assert [] + Run(plan, w, b).1 == Run(plan, w, b).1;
    } else {
      var step := Apply(plan, w, a[0]);
      RunConcat(plan, step.0, a[1..], b);
      assert (a + b)[0] == a[0] && (a + b)[1..] == a[1..] + b;
      var tail := Run(plan, step.0, a[1..]);
      var second := Run(plan, tail.0, b);
      assert [step.1] + (tail.1 + second.1) == [step.1] + tail.1 + second.1;
    }
  }

  /** Hashing tokens emits the same rows inside a transaction as outside, and only moves `previous`. */
  lemma {:induction false} TokensIgnoreRollback(
    plan: PleHashPlan, w: WindowState, rollback: Option<seq<u32>>, tokens: seq<u32>)
    requires plan.Valid() && w.Shaped() && w.(rollback := rollback).Shaped()
    ensures Run(plan, w.(rollback := rollback), Tokens(tokens)).1 == Run(plan, w, Tokens(tokens)).1
    ensures Run(plan, w, Tokens(tokens)).0 ==
      if w.eosTokenId == plan.eosTokenId then w.(previous := PushAll(w.previous, w.eosTokenId, tokens)) else w
    ensures Run(plan, w.(rollback := rollback), Tokens(tokens)).0 ==
      Run(plan, w, Tokens(tokens)).0.(rollback := rollback)
    decreases |tokens|
  {
    if tokens != [] {
      assert Tokens(tokens)[1..] == Tokens(tokens[1..]);
      TokensIgnoreRollback(plan, Apply(plan, w, Token(tokens[0])).0, rollback, tokens[1..]);
    }
  }

  lemma RunOne(plan: PleHashPlan, w: WindowState, op: Operation)
    requires plan.Valid() && w.Shaped()
    ensures Run(plan, w, [op]) == (Apply(plan, w, op).0, [Apply(plan, w, op).1])
  {
    var step := Apply(plan, w, op);
    assert [op][1..] == [];
    assert Run(plan, step.0, []) == (step.0, []);
    assert [step.1] + [] == [step.1];
  }

  /** A transaction around a draft: the draft's own emissions, then whatever closes it. */
  lemma BracketedDraft(plan: PleHashPlan, w: WindowState, draft: seq<u32>, closing: Operation)
    requires plan.Valid() && w.Shaped() && w.rollback.None? && w.eosTokenId == plan.eosTokenId
    ensures var drafted := w.(previous := PushAll(w.previous, w.eosTokenId, draft), rollback := Some(w.previous));
      var run := Run(plan, w, [Begin] + Tokens(draft) + [closing]);
      && run.0 == Apply(plan, drafted, closing).0
      && run.1[1..1 + |draft|] == Run(plan, w, Tokens(draft)).1
  {
    var begun := w.(rollback := Some(w.previous));
    RunOne(plan, w, Begin);
    assert Apply(plan, w, Begin).0 == begun;
    TokensIgnoreRollback(plan, w, Some(w.previous), draft);
    RunConcat(plan, w, [Begin], Tokens(draft));
    RunConcat(plan, w, [Begin] + Tokens(draft), [closing]);
    RunOne(plan, Run(plan, begun, Tokens(draft)).0, closing);
  }

  lemma TokensConcat(a: seq<u32>, b: seq<u32>)
    ensures Tokens(a + b) == Tokens(a) + Tokens(b)
  {
  }

  /** The operations `ops` act, and emit from position `first` on, as hashing just `kept` would. */
  ghost predicate ActsAs(plan: PleHashPlan, w: WindowState, ops: seq<Operation>, first: nat, kept: seq<u32>)
    requires plan.Valid() && w.Shaped()
  {
    var run := Run(plan, w, ops);
    var straight := Run(plan, w, Tokens(kept));
    && first + |kept| <= |run.1|
    && run.0 == straight.0
    && run.1[first..first + |kept|] == straight.1
  }

  lemma DraftPrefix(plan: PleHashPlan, w: WindowState, draft: seq<u32>, kept: seq<u32>)
    requires plan.Valid() && w.Shaped() && kept <= draft
    ensures Run(plan, w, Tokens(draft)).1[..|kept|] == Run(plan, w, Tokens(kept)).1
  {
    var rest := draft[|kept|..];
    assert draft == kept + rest;
    TokensConcat(kept, rest);
    RunConcat(plan, w, Tokens(kept), Tokens(rest));
  }

  lemma AcceptedPrefixActs(plan: PleHashPlan, w: WindowState, draft: seq<u32>, kept: seq<u32>)
    requires plan.Valid() && w.Shaped() && w.rollback.None? && w.eosTokenId == plan.eosTokenId
    requires kept <= draft
    ensures ActsAs(plan, w, [Begin] + Tokens(draft) + [CommitPrefix(kept)], 1, kept)
  {
    BracketedDraft(plan, w, draft, CommitPrefix(kept));
    TokensIgnoreRollback(plan, w, None, kept);
    DraftPrefix(plan, w, draft, kept);
    var run := Run(plan, w, [Begin] + Tokens(draft) + [CommitPrefix(kept)]);
    assert run.1[1..1 + |kept|] == run.1[1..1 + |draft|][..|kept|];
  }

  lemma AcceptedDraftActs(plan: PleHashPlan, w: WindowState, draft: seq<u32>)
    requires plan.Valid() && w.Shaped() && w.rollback.None? && w.eosTokenId == plan.eosTokenId
    ensures ActsAs(plan, w, [Begin] + Tokens(draft) + [Commit], 1, draft)
  {
    BracketedDraft(plan, w, draft, Commit);
    TokensIgnoreRollback(plan, w, None, draft);
  }

  lemma DiscardedDraftActs(plan: PleHashPlan, w: WindowState, draft: seq<u32>)
    requires plan.Valid() && w.Shaped() && w.rollback.None? && w.eosTokenId == plan.eosTokenId
    ensures ActsAs(plan, w, [Begin] + Tokens(draft) + [Abort], 1, [])
  {
    BracketedDraft(plan, w, draft, Abort);
    assert Tokens([]) == [];
  }

  /** One round leaves the window, and emits for its surviving tokens, as hashing just those would. */
  lemma RoundIsStraightLine(plan: PleHashPlan, w: WindowState, round: Round)
    requires plan.Valid() && w.Shaped() && w.rollback.None? && w.eosTokenId == plan.eosTokenId
    ensures ActsAs(plan, w, round.Operations(), round.FirstToken(), round.Kept())
  {
    match round
    case Direct(token) =>
      assert Tokens([token]) == [Token(token)];
    case AcceptAll(draft) =>
      AcceptedDraftActs(plan, w, draft);
    case AcceptPrefix(draft, _) =>
      AcceptedPrefixActs(plan, w, draft, round.Kept());
    case Discard(draft) =>
      DiscardedDraftActs(plan, w, draft);
  }

  /** Speculation transparency over whole runs: however drafts were staged, accepted in part, or
      thrown away, the final window and the rows emitted for the surviving tokens are those of a
      straight-line run over the surviving tokens alone. */
  lemma {:induction false} SpeculationIsTransparent(plan: PleHashPlan, w: WindowState, rounds: seq<Round>)
    requires plan.Valid() && w.Shaped() && w.rollback.None? && w.eosTokenId == plan.eosTokenId
    ensures Play(plan, w, rounds) == Run(plan, w, Tokens(KeptOf(rounds)))
    decreases |rounds|
  {
    if rounds != [] {
      var kept := rounds[0].Kept();
      var after := Run(plan, w, rounds[0].Operations()).0;
      RoundIsStraightLine(plan, w, rounds[0]);
      TokensIgnoreRollback(plan, w, None, kept);
      SpeculationIsTransparent(plan, after, rounds[1..]);
      TokensConcat(kept, KeptOf(rounds[1..]));
      RunConcat(plan, w, Tokens(kept), Tokens(KeptOf(rounds[1..])));
    }
  }

  function CommittedWindow(eos: u32, history: seq<u32>): WindowState {
    WindowOf(eos, Ledger(history, None))
  }

  /** The i-th emission of a run is what its i-th operation emits after the operations before it. */
  lemma EmissionAt(plan: PleHashPlan, w: WindowState, ops: seq<Operation>, i: nat)
    requires plan.Valid() && w.Shaped() && i < |ops|
    ensures Run(plan, w, ops).1[i] == Apply(plan, Run(plan, w, ops[..i]).0, ops[i]).1
  {
    assert ops == ops[..i] + ops[i..];
    RunConcat(plan, w, ops[..i], ops[i..]);
  }

  /** The rows a straight-line run emits at each position are the hash of that token in the closed-form
      context of the tokens before it. */
  lemma StraightLineRows(plan: PleHashPlan, eos: u32, history: seq<u32>, tokens: seq<u32>, i: nat)
    requires plan.Valid() && plan.eosTokenId == eos && i < |tokens|
    ensures Run(plan, CommittedWindow(eos, history), Tokens(tokens)).1[i] ==
            Ok(HashRows(plan, Context(eos, history + tokens[..i]), tokens[i]))
    ensures EmitsRows(
      plan, Context(eos, history + tokens[..i]), tokens[i],
      Run(plan, CommittedWindow(eos, history), Tokens(tokens)).1[i].value)
  {
    RowsInClosedForm(plan, Context(eos, history + tokens[..i]), tokens[i]);
    var w := CommittedWindow(eos, history);
    EmissionAt(plan, w, Tokens(tokens), i);
    assert Tokens(tokens)[..i] == Tokens(tokens[..i]);
    TokensIgnoreRollback(plan, w, None, tokens[..i]);
    PushAllExtendsContext(eos, history, tokens[..i]);
  }

  /** Speculation from an empty window, in closed form: position i of the surviving tokens emits the
      hash of that token after the surviving tokens before it, and nothing else is remembered. */
  lemma SpeculativeRows(plan: PleHashPlan, rounds: seq<Round>, i: nat)
    requires plan.Valid() && i < |KeptOf(rounds)|
    ensures var played := Play(plan, EmptyWindow(plan.eosTokenId), rounds);
      var kept := KeptOf(rounds);
      && played.0 == CommittedWindow(plan.eosTokenId, kept)
      && |played.1| == |kept|
      && played.1[i].Ok?
      && EmitsRows(plan, Context(plan.eosTokenId, kept[..i]), kept[i], played.1[i].value)
  {
    var eos, kept := plan.eosTokenId, KeptOf(rounds);
    var w := EmptyWindow(eos);
    assert w == CommittedWindow(eos, []);
    SpeculationIsTransparent(plan, w, rounds);
    StraightLineRows(plan, eos, [], kept, i);
    assert [] + kept[..i] == kept[..i];
    TokensIgnoreRollback(plan, w, None, kept);
    PushAllExtendsContext(eos, [], kept);
    assert [] + kept == kept;
  }
}
