/**
 The option loop of the cms command: -signer, -inkey and -keyopt build two parallel lists and
 a list of parameters tagged with a signer index.
 */
module CmsSigners {
  import opened Common

  datatype Operation = NoOperation | Encrypt | Sign | Resign | OtherOperation

  datatype Opt =
    | Signer(file: string)
    | Inkey(file: string)
    | Keyopt(value: string)
    | Select(operation: Operation)
    | Recip(loads: bool)

  datatype KeyParam = KeyParam(idx: int, param: seq<string>)

  /** The variables of cms_main() that these options change. */
  datatype State = State(
    signer: Option<string>, key: Option<string>,
    signers: seq<string>, keys: seq<string>,
    params: seq<KeyParam>, operation: Operation, recipients: nat)

  const START := State(None, None, [], [], [], NoOperation, 0)

  /** The index that -keyopt attaches its value to; negative when no key is specified. */
  function KeyIdx(st: State): int {
    if st.operation == Encrypt then st.recipients - 1
    else (if st.key.Some? || st.signer.Some? then 0 else -1) + |st.keys|
  }

  function AddParam(params: seq<KeyParam>, idx: int, value: string): seq<KeyParam> {
    var n := |params|;
    if n == 0 || params[n - 1].idx != idx then params + [KeyParam(idx, [value])]
    else params[n - 1 := KeyParam(idx, params[n - 1].param + [value])]
  }

  /** The effect of one option; None when the command gives up. */
  function Step(st: State, o: Opt): Option<State> {
    match o
    case Signer(file) =>
      if st.signer.None? then Some(st.(signer := Some(file)))
      else Some(st.(signer := Some(file), key := None,
                    signers := st.signers + [st.signer.value],
                    keys := st.keys + [if st.key.None? then st.signer.value else st.key.value]))
    case Inkey(file) =>
      if st.key.None? then Some(st.(key := Some(file)))
      else if st.signer.None? then None
      else Some(st.(signer := None, key := Some(file),
                    signers := st.signers + [st.signer.value], keys := st.keys + [st.key.value]))
    case Keyopt(value) =>
      if KeyIdx(st) < 0 then None else Some(st.(params := AddParam(st.params, KeyIdx(st), value)))
    case Select(operation) => Some(st.(operation := operation))
    case Recip(loads) =>
      if st.operation != Encrypt then Some(st)
      else if loads then Some(st.(recipients := st.recipients + 1)) else None
  }

  function Loop(opts: seq<Opt>): Option<State> {
    if opts == [] then Some(START)
    else
      var before := Loop(opts[..|opts| - 1]);
      if before.None? then None else Step(before.value, opts[|opts| - 1])
  }

  /** The checks and the final signer of a signing run. */
  function Finish(st: State): Option<State> {
    if st.operation !in {Sign, Resign} || (st.key.Some? && st.signer.None?) then None
    else
      var last := if st.signer.None? then st
                  else st.(signers := st.signers + [st.signer.value],
                           keys := st.keys + [if st.key.None? then st.signer.value else st.key.value]);
      if last.signers == [] then None else Some(last.(signer := None, key := None))
  }

  function Accumulated(opts: seq<Opt>): Option<State> {
    var st := Loop(opts);
    if st.None? then None else Finish(st.value)
  }

  // ----- the code

  /** The tail of the -keyopt case: a new entry is begun when the index differs from the last one's. */
  method FileParam(params: seq<KeyParam>, keyidx: int, value: string) returns (ps: seq<KeyParam>)
    ensures ps == AddParam(params, keyidx, value)
  {
    ps := params;
    if ps == [] || ps[|ps| - 1].idx != keyidx {
      ps := ps + [KeyParam(keyidx, [])];
    }
    var last := ps[|ps| - 1];
    ps := ps[|ps| - 1 := last.(param := last.param + [value])];
    assert [] + [value] == [value];
  }

  /** The option loop, and the part of cms_main() that appends the final signer. */
  method Accumulate(opts: seq<Opt>) returns (r: Option<State>)
    ensures r == Accumulated(opts)
  {
    hide AddParam;
    var signerfile: Option<string>, keyfile: Option<string> := None, None;
    var sksigners: seq<string>, skkeys: seq<string>, params: seq<KeyParam> := [], [], [];
    var operation, encerts: nat := NoOperation, 0;
    for i := 0 to |opts|
      invariant Loop(opts[..i]) == Some(State(signerfile, keyfile, sksigners, skkeys, params, operation, encerts))
    {
      assert opts[..i + 1][..i] == opts[..i];
      LoopStops(opts, i + 1);
      match opts[i] {
        case Signer(file) =>
          if signerfile.Some? {
            sksigners := sksigners + [signerfile.value];
            if keyfile.None? {
              keyfile := signerfile;
            }
            skkeys := skkeys + [keyfile.value];
            keyfile := None;
          }
          signerfile := Some(file);
        case Inkey(file) =>
          if keyfile.Some? {
            if signerfile.None? {
              return None;
            }
            sksigners := sksigners + [signerfile.value];
            signerfile := None;
            skkeys := skkeys + [keyfile.value];
          }
          keyfile := Some(file);
        case Keyopt(value) =>
          var keyidx := -1;
          if operation == Encrypt {
            if encerts > 0 {
              keyidx := keyidx + encerts;
            }
          } else {
            if keyfile.Some? || signerfile.Some? {
              keyidx := keyidx + 1;
            }
            keyidx := keyidx + |skkeys|;
          }
          if keyidx < 0 {
            return None;
          }
          params := FileParam(params, keyidx, value);
        case Select(op) =>
          operation := op;
        case Recip(loads) =>
          if operation == Encrypt {
            if !loads {
              return None;
            }
            encerts := encerts + 1;
          }
      }
    }
    assert opts[..|opts|] == opts;
    if operation != Sign && operation != Resign {
      return None;
    }
    if keyfile.Some? && signerfile.None? {
      return None;
    }
    if signerfile.Some? {
      sksigners := sksigners + [signerfile.value];
      if keyfile.None? {
        keyfile := signerfile;
      }
      skkeys := skkeys + [keyfile.value];
    }
    if sksigners == [] {
      return None;
    }
    r := Some(State(None, None, sksigners, skkeys, params, operation, encerts));
  }

  lemma {:induction false} LoopStops(opts: seq<Opt>, i: nat)
    requires i <= |opts|
    ensures Loop(opts[..i]).None? ==> Loop(opts).None?
    decreases |opts| - i
  {
    if i < |opts| {
      assert opts[..i + 1][..i] == opts[..i];
      LoopStops(opts, i + 1);
    } else {
      assert opts[..i] == opts;
    }
  }

  /** The search for a signer's parameters: the first entry with its index. */
  method FindParams(params: seq<KeyParam>, i: int) returns (found: seq<string>)
    ensures found == Lookup(params, i)
  {
    for k := 0 to |params|
      invariant Lookup(params, i) == Lookup(params[k..], i)
    {
      if params[k].idx == i {
        return params[k].param;
      }
    }
    return [];
  }

  function Lookup(params: seq<KeyParam>, i: int): seq<string> {
    if params == [] then [] else if params[0].idx == i then params[0].param else Lookup(params[1..], i)
  }

  // ----- the meaning of the options

  /** What belongs to one signer on the command line. */
  datatype Group = Group(signer: Option<string>, key: Option<string>, opts: seq<string>)

  const FRESH := Group(None, None, [])

  /**
   The groups of a command line, the last one still open. A second certificate, or a second
   key, opens a new group; a key option belongs to the group that is open.
   */
  function GroupStep(gs: seq<Group>, o: Opt): (gs': seq<Group>)
    requires gs != []
    ensures gs' != []
  {
    var n := |gs| - 1;
    var g := gs[n];
    match o
    case Signer(f) => if g.signer.Some? then gs + [FRESH.(signer := Some(f))] else gs[n := g.(signer := Some(f))]
    case Inkey(f) => if g.key.Some? then gs + [FRESH.(key := Some(f))] else gs[n := g.(key := Some(f))]
    case Keyopt(v) => gs[n := g.(opts := g.opts + [v])]
    case Select(_) => gs
    case Recip(_) => gs
  }

  function Grouped(opts: seq<Opt>): (gs: seq<Group>)
    ensures gs != []
  {
    if opts == [] then [FRESH] else GroupStep(Grouped(opts[..|opts| - 1]), opts[|opts| - 1])
  }

  function SignerFiles(gs: seq<Group>): seq<string>
    requires forall g | g in gs :: g.signer.Some?
  {
    seq(|gs|, i requires 0 <= i < |gs| => assert gs[i] in gs; gs[i].signer.value)
  }

  /** A group without its own key signs with the key in the certificate file. */
  function KeyFiles(gs: seq<Group>): seq<string>
    requires forall g | g in gs :: g.signer.Some?
  {
    seq(|gs|, i requires 0 <= i < |gs| =>
      assert gs[i] in gs; if gs[i].key.None? then gs[i].signer.value else gs[i].key.value)
  }

  /** The parameter list of some groups: one entry for each group that has options. */
  function ParamList(gs: seq<Group>): seq<KeyParam> {
    if gs == [] then []
    else
      var n := |gs| - 1;
      ParamList(gs[..n]) + if gs[n].opts == [] then [] else [KeyParam(n, gs[n].opts)]
  }

  /**
   A -keyopt under -encrypt is numbered by the recipients so far; that is the open group's
   number only when there are as many recipients as groups.
   */
  predicate AlignedAt(st: State, gs: seq<Group>) {
    st.operation == Encrypt ==> st.recipients == |gs|
  }

  /** Every -keyopt of the command line is given at such a moment. */
  predicate Aligned(opts: seq<Opt>) {
    opts == [] ||
    var front, o := opts[..|opts| - 1], opts[|opts| - 1];
    Aligned(front) && (o.Keyopt? && Loop(front).Some? ==> AlignedAt(Loop(front).value, Grouped(front)))
  }

  predicate AllSigned(gs: seq<Group>) {
    forall g | g in gs :: g.signer.Some?
  }

  /** The variables represent the groups, the last of which is open. */
  predicate Represents(st: State, gs: seq<Group>) {
    gs != [] &&
    var n := |gs| - 1;
    && AllSigned(gs[..n])
    && st.signer == gs[n].signer && st.key == gs[n].key
    && (gs[n].signer.None? && gs[n].key.None? ==> n == 0)
    && st.signers == SignerFiles(gs[..n]) && st.keys == KeyFiles(gs[..n])
  }

  lemma {:induction false} ParamIndices(gs: seq<Group>)
    ensures forall k | 0 <= k < |ParamList(gs)| :: 0 <= ParamList(gs)[k].idx < |gs|
    ensures forall j, k | 0 <= j < k < |ParamList(gs)| :: ParamList(gs)[j].idx < ParamList(gs)[k].idx
  {
    if gs != [] {
      ParamIndices(gs[..|gs| - 1]);
    }
  }

  lemma AddToOpen(gs: seq<Group>, value: string)
    requires gs != []
    ensures var n := |gs| - 1;
            AddParam(ParamList(gs), n, value) == ParamList(gs[n := gs[n].(opts := gs[n].opts + [value])])
  {
    var n := |gs| - 1;
    var gs' := gs[n := gs[n].(opts := gs[n].opts + [value])];
    assert gs'[..n] == gs[..n];
    ParamIndices(gs[..n]);
    if gs[n].opts == [] {
      assert ParamList(gs) == ParamList(gs[..n]);
      assert [] + [value] == [value];
    }
  }

  /** Closing the open group appends its two files to the lists. */
  lemma CloseOpen(gs: seq<Group>)
    requires gs != [] && AllSigned(gs[..|gs| - 1]) && gs[|gs| - 1].signer.Some?
    ensures var n, last := |gs| - 1, gs[|gs| - 1];
            && AllSigned(gs)
            && SignerFiles(gs) == SignerFiles(gs[..n]) + [last.signer.value]
            && KeyFiles(gs) == KeyFiles(gs[..n]) + [if last.key.None? then last.signer.value else last.key.value]
  {
    var n := |gs| - 1;
    assert gs == gs[..n] + [gs[n]];
  }

  lemma StepRepresents(st: State, gs: seq<Group>, o: Opt)
    requires Represents(st, gs) && Step(st, o).Some?
    ensures Represents(Step(st, o).value, GroupStep(gs, o))
  {
    hide SignerFiles, KeyFiles, AllSigned, AddParam, KeyIdx;
    var n, gs' := |gs| - 1, GroupStep(gs, o);
    if |gs'| == |gs| {
      assert gs'[..n] == gs[..n];
    } else {
      assert gs'[..|gs|] == gs;
      CloseOpen(gs);
    }
  }

  lemma StepParams(st: State, gs: seq<Group>, o: Opt)
    requires gs != [] && Represents(st, gs) && Step(st, o).Some?
    ensures !o.Keyopt? ==> Step(st, o).value.params == st.params && ParamList(GroupStep(gs, o)) == ParamList(gs)
    ensures o.Keyopt? ==>
              && Step(st, o).value.params == AddParam(st.params, KeyIdx(st), o.value)
              && (KeyIdx(st) == |gs| - 1 <==> AlignedAt(st, gs))
              && ParamList(GroupStep(gs, o)) == AddParam(ParamList(gs), |gs| - 1, o.value)
  {
    hide AddParam, AllSigned, SignerFiles;
    var n, gs' := |gs| - 1, GroupStep(gs, o);
    if o.Keyopt? {
      AddToOpen(gs, o.value);
    } else if |gs'| == |gs| {
      SameParams(gs, gs');
    } else {
      assert gs'[..|gs|] == gs;
    }
  }

  /** The lists follow the groups on every command line, and the parameters on aligned ones. */
  lemma {:induction false} LoopRepresents(opts: seq<Opt>)
    requires Loop(opts).Some?
    ensures var st, gs := Loop(opts).value, Grouped(opts);
            Represents(st, gs) && (Aligned(opts) ==> st.params == ParamList(gs))
  {
    hide AddParam, KeyIdx, AlignedAt, ParamList;
    if opts == [] {
      assert Grouped(opts)[..0] == [] && ParamList([FRESH]) == [] by { FreshHasNone(); }
    } else {
      var front, o := opts[..|opts| - 1], opts[|opts| - 1];
      LoopRepresents(front);
      StepRepresents(Loop(front).value, Grouped(front), o);
      StepParams(Loop(front).value, Grouped(front), o);
    }
  }

  lemma FreshHasNone()
    ensures ParamList([FRESH]) == []
  {
    assert [FRESH][..0] == [];
  }

  lemma SameParams(gs: seq<Group>, gs': seq<Group>)
    requires gs != [] && |gs'| == |gs| && gs'[..|gs| - 1] == gs[..|gs| - 1]
    requires gs'[|gs| - 1].opts == gs[|gs| - 1].opts
    ensures ParamList(gs') == ParamList(gs)
  {
  }

  lemma {:induction false} LookupLast(ps: seq<KeyParam>, p: KeyParam, i: int)
    requires forall k | 0 <= k < |ps| :: ps[k].idx < p.idx
    ensures Lookup(ps + [p], i) == if i == p.idx then p.param else Lookup(ps, i)
  {
    if ps != [] {
      LookupLast(ps[1..], p, i);
      assert (ps + [p])[1..] == ps[1..] + [p];
    }
  }

  lemma {:induction false} LookupInList(gs: seq<Group>, i: nat)
    requires i < |gs|
    ensures Lookup(ParamList(gs), i) == gs[i].opts
  {
    var n := |gs| - 1;
    ParamIndices(gs[..n]);
    if gs[n].opts != [] { LookupLast(ParamList(gs[..n]), KeyParam(n, gs[n].opts), i); }
    if gs[n].opts == [] { assert ParamList(gs) == ParamList(gs[..n]); }
    if i < n {
      LookupInList(gs[..n], i);
    } else {
      LookupAbsent(ParamList(gs[..n]), n);
    }
  }

  lemma {:induction false} LookupAbsent(ps: seq<KeyParam>, i: int)
    requires forall k | 0 <= k < |ps| :: ps[k].idx != i
    ensures Lookup(ps, i) == []
  {
    if ps != [] { LookupAbsent(ps[1..], i); }
  }

  // ----- what each signer finds

  /** How many options are filed under number k, in any entry. */
  function Filed(ps: seq<KeyParam>, k: int): nat {
    if ps == [] then 0
    else
      var last := ps[|ps| - 1];
      Filed(ps[..|ps| - 1], k) + if last.idx == k then |last.param| else 0
  }

  /** How many options group k was given. */
  function Given(gs: seq<Group>, k: int): nat {
    if 0 <= k < |gs| then |gs[k].opts| else 0
  }

  lemma {:induction false} LookupBound(ps: seq<KeyParam>, k: int)
    ensures |Lookup(ps, k)| <= Filed(ps, k)
  {
    if ps != [] {
      var front, last := ps[..|ps| - 1], ps[|ps| - 1];
      LookupBound(front, k);
      LookupSnoc(front, last, k);
      assert ps == front + [last];
    }
  }

  lemma {:induction false} LookupSnoc(ps: seq<KeyParam>, p: KeyParam, k: int)
    ensures Lookup(ps + [p], k) == Lookup(ps, k) || (p.idx == k && Lookup(ps + [p], k) == p.param)
  {
    if ps != [] {
      LookupSnoc(ps[1..], p, k);
      assert (ps + [p])[1..] == ps[1..] + [p];
    } else {
      assert ps + [p] == [p] && [p][1..] == [];
    }
  }

  lemma FiledStep(ps: seq<KeyParam>, idx: int, value: string, k: int)
    ensures Filed(AddParam(ps, idx, value), k) == Filed(ps, k) + if k == idx then 1 else 0
  {
    var n := |ps|;
    var ps' := AddParam(ps, idx, value);
    assert ps'[..|ps'| - 1] == if |ps'| == n then ps[..n - 1] else ps;
  }

  /** Every group has as many options filed under its number as it was given. */
  ghost predicate Balanced(st: State, gs: seq<Group>) {
    forall k :: Filed(st.params, k) == Given(gs, k)
  }

  /** Some group lacks options and no later -recip can bring the numbering back to it. */
  ghost predicate Passed(st: State, gs: seq<Group>) {
    exists k | 0 <= k < |gs| :: Filed(st.params, k) < Given(gs, k) && st.recipients > k + 1
  }

  /** Some group lacks options, and no group from the open one on has too many. */
  ghost predicate Lacking(st: State, gs: seq<Group>) {
    && (exists k | 0 <= k < |gs| :: Filed(st.params, k) < Given(gs, k))
    && forall k | k >= |gs| - 1 :: Filed(st.params, k) <= Given(gs, k)
  }

  /** How one option moves the two counts, for every number. */
  ghost predicate Moves(st: State, gs: seq<Group>, st': State, gs': seq<Group>, keyopt: bool, idx: int) {
    && st'.recipients >= st.recipients && |gs'| >= |gs| > 0 && (keyopt ==> |gs'| == |gs|)
    && (forall k :: Filed(st'.params, k) == Filed(st.params, k) + if keyopt && k == idx then 1 else 0)
    && (forall k :: Given(gs', k) == Given(gs, k) + if keyopt && k == |gs| - 1 then 1 else 0)
  }

  lemma StepMoves(st: State, gs: seq<Group>, o: Opt)
    requires gs != [] && Step(st, o).Some?
    ensures Moves(st, gs, Step(st, o).value, GroupStep(gs, o), o.Keyopt?, KeyIdx(st))
  {
    hide Filed, AddParam, KeyIdx;
    if o.Keyopt? {
      forall k ensures Filed(AddParam(st.params, KeyIdx(st), o.value), k)
                    == Filed(st.params, k) + if k == KeyIdx(st) then 1 else 0 {
        FiledStep(st.params, KeyIdx(st), o.value, k);
      }
    }
  }

  lemma BalanceKept(st: State, gs: seq<Group>, st': State, gs': seq<Group>, keyopt: bool, idx: int)
    requires Moves(st, gs, st', gs', keyopt, idx) && Balanced(st, gs) && (keyopt ==> idx == |gs| - 1)
    ensures Balanced(st', gs')
  {
    hide Filed, Given;
  }

  /** An option filed under another number than the open group's leaves that group short. */
  lemma BalanceLost(st: State, gs: seq<Group>, st': State, gs': seq<Group>, idx: int)
    requires Moves(st, gs, st', gs', true, idx) && (Balanced(st, gs) || Lacking(st, gs))
    requires idx != |gs| - 1 && idx == st.recipients - 1
    ensures Passed(st', gs') || Lacking(st', gs')
  {
    hide Filed, Given;
    var n := |gs| - 1;
    assert Filed(st'.params, n) < Given(gs', n);
    if idx < n {
      forall k | k >= n ensures Filed(st'.params, k) <= Given(gs', k) {}
    }
  }

  lemma PassedStays(st: State, gs: seq<Group>, st': State, gs': seq<Group>, keyopt: bool, idx: int)
    requires Moves(st, gs, st', gs', keyopt, idx) && Passed(st, gs)
    requires keyopt && idx != |gs| - 1 ==> idx == st.recipients - 1
    ensures Passed(st', gs')
  {
    hide Filed, Given;
    var k :| 0 <= k < |gs| && Filed(st.params, k) < Given(gs, k) && st.recipients > k + 1;
    assert Filed(st'.params, k) < Given(gs', k);
  }

  lemma LackingStays(st: State, gs: seq<Group>, st': State, gs': seq<Group>, keyopt: bool, idx: int)
    requires Moves(st, gs, st', gs', keyopt, idx) && Lacking(st, gs) && (keyopt ==> idx == |gs| - 1)
    ensures Lacking(st', gs')
  {
    hide Filed, Given;
    var k :| 0 <= k < |gs| && Filed(st.params, k) < Given(gs, k);
    assert Filed(st'.params, k) < Given(gs', k);
  }

  /** Over every option sequence: aligned ones file every option right, others leave some group short. */
  lemma {:induction false} LoopBalance(opts: seq<Opt>)
    requires Loop(opts).Some?
    ensures var st, gs := Loop(opts).value, Grouped(opts);
            if Aligned(opts) then Balanced(st, gs) else Passed(st, gs) || Lacking(st, gs)
  {
    hide Filed, Moves, Balanced, Passed, Lacking, Step, GroupStep, AlignedAt, KeyIdx;
    if opts == [] {
      FreshBalanced();
    } else {
      var front, o := opts[..|opts| - 1], opts[|opts| - 1];
      var st, gs := Loop(front).value, Grouped(front);
      var st', gs', idx := Step(st, o).value, GroupStep(gs, o), KeyIdx(st);
      LoopBalance(front);
      LoopRepresents(front);
      StepMoves(st, gs, o);
      if o.Keyopt? { Numbering(st, gs, o.value); }
      if !Aligned(front) && Passed(st, gs) {
        PassedStays(st, gs, st', gs', o.Keyopt?, idx);
      } else if o.Keyopt? && idx != |gs| - 1 {
        BalanceLost(st, gs, st', gs', idx);
      } else if Aligned(front) {
        BalanceKept(st, gs, st', gs', o.Keyopt?, idx);
      } else {
        LackingStays(st, gs, st', gs', o.Keyopt?, idx);
      }
    }
  }

  lemma FreshBalanced()
    ensures Balanced(START, [FRESH])
  {
  }

  /** The number given to a key option is the open group's exactly at aligned moments. */
  lemma Numbering(st: State, gs: seq<Group>, value: string)
    requires Represents(st, gs) && Step(st, Keyopt(value)).Some?
    ensures KeyIdx(st) == |gs| - 1 <==> AlignedAt(st, gs)
    ensures KeyIdx(st) != |gs| - 1 ==> KeyIdx(st) == st.recipients - 1
  {
  }

  // ----- which command lines are accepted

  /** The operation that was selected last. */
  function LastOperation(opts: seq<Opt>): Operation {
    if opts == [] then NoOperation
    else if opts[|opts| - 1].Select? then opts[|opts| - 1].operation
    else LastOperation(opts[..|opts| - 1])
  }

  /** How many recipients were given under -encrypt. */
  function Recipients(opts: seq<Opt>): nat {
    if opts == [] then 0
    else
      var front := opts[..|opts| - 1];
      Recipients(front) + if opts[|opts| - 1].Recip? && LastOperation(front) == Encrypt then 1 else 0
  }

  /** The last option may follow the ones before it. */
  predicate ProperAt(front: seq<Opt>, o: Opt) {
    var open := Grouped(front)[|Grouped(front)| - 1];
    match o
    case Signer(_) => true
    case Inkey(_) => open.key.None? || open.signer.Some?
    case Keyopt(_) =>
      if LastOperation(front) == Encrypt then Recipients(front) > 0 else open.signer.Some? || open.key.Some?
    case Select(_) => true
    case Recip(loads) => LastOperation(front) == Encrypt ==> loads
  }

  /**
   No key follows a key that still lacks its certificate, every key option has a certificate or
   key (under -encrypt a recipient) to belong to, and every recipient can be loaded.
   */
  predicate Proper(opts: seq<Opt>) {
    opts == [] || (Proper(opts[..|opts| - 1]) && ProperAt(opts[..|opts| - 1], opts[|opts| - 1]))
  }

  lemma {:induction false} LoopAccepts(opts: seq<Opt>)
    ensures Loop(opts).Some? <==> Proper(opts)
    ensures Loop(opts).Some? ==>
              Loop(opts).value.operation == LastOperation(opts) && Loop(opts).value.recipients == Recipients(opts)
  {
    hide Represents, AddParam, Aligned, ParamList;
    if opts != [] {
      var front, o := opts[..|opts| - 1], opts[|opts| - 1];
      LoopAccepts(front);
      if Loop(front).Some? {
        LoopRepresents(front);
        StepAccepts(Loop(front).value, Grouped(front), o);
      }
    }
  }

  lemma StepAccepts(st: State, gs: seq<Group>, o: Opt)
    requires Represents(st, gs)
    ensures gs != []
    ensures var open := gs[|gs| - 1];
            && (Step(st, o).None? <==>
                  || (o.Inkey? && open.key.Some? && open.signer.None?)
                  || (o.Keyopt? && if st.operation == Encrypt then st.recipients == 0
                                   else open.signer.None? && open.key.None?)
                  || (o.Recip? && st.operation == Encrypt && !o.loads))
            && (Step(st, o).Some? ==>
                  var st' := Step(st, o).value;
                  && st'.operation == (if o.Select? then o.operation else st.operation)
                  && st'.recipients == st.recipients + if o.Recip? && st.operation == Encrypt then 1 else 0)
  {
    hide AddParam;
  }

  /**
   A signing run succeeds exactly on proper command lines that select -sign or -resign last and
   whose every group has a certificate.
   */
  lemma AcceptedLines(opts: seq<Opt>)
    ensures Accumulated(opts).Some? <==>
              && Proper(opts) && LastOperation(opts) in {Sign, Resign}
              && forall g | g in Grouped(opts) :: g.signer.Some?
  {
    hide Proper, Grouped, LastOperation, Recipients, Loop, Aligned, ParamList, KeyFiles;
    LoopAccepts(opts);
    if Loop(opts).Some? {
      var gs := Grouped(opts);
      var n := |gs| - 1;
      LoopRepresents(opts);
      assert gs == gs[..n] + [gs[n]] && gs[n] in gs;
    }
  }

  // ----- the results

  /** Each signer finds exactly the key options of its group, in order. */
  predicate EachFindsItsOwn(st: State, gs: seq<Group>) {
    forall i: nat | i < |gs| :: Lookup(st.params, i) == gs[i].opts
  }

  /**
   For every option sequence of a signing run that succeeds: each signer finds exactly the
   key options given while its group was open if and only if every key option was given
   outside -encrypt or with as many recipients as groups.
   */
  lemma KeyoptsReachTheirGroup(opts: seq<Opt>)
    requires Accumulated(opts).Some?
    ensures EachFindsItsOwn(Accumulated(opts).value, Grouped(opts)) <==> Aligned(opts)
  {
    hide Aligned, Lookup, Filed, ParamList;
    var st, gs := Loop(opts).value, Grouped(opts);
    if Aligned(opts) {
      LoopRepresents(opts);
      forall i: nat | i < |gs| ensures Lookup(ParamList(gs), i) == gs[i].opts { LookupInList(gs, i); }
    } else {
      LoopBalance(opts);
      var k :| 0 <= k < |gs| && Filed(st.params, k) < Given(gs, k);
      LookupBound(st.params, k);
    }
  }

  /**
   For every option sequence of a signing run that succeeds: the two lists are those of the
   groups and equally long; and the parameter list is that of the groups, its indices strictly
   increasing, exactly on aligned sequences.
   */
  lemma AccumulatedMeaning(opts: seq<Opt>)
    requires Accumulated(opts).Some?
    ensures var st, gs := Accumulated(opts).value, Grouped(opts);
            && AllSigned(gs)
            && st.signers == SignerFiles(gs) && st.keys == KeyFiles(gs) && |st.signers| == |st.keys|
            && (st.params == ParamList(gs) <==> Aligned(opts))
            && (Aligned(opts) ==> forall j, k | 0 <= j < k < |st.params| :: st.params[j].idx < st.params[k].idx)
            && |st.signers| == |gs|
            && forall i | 0 <= i < |gs| ::
                 && st.signers[i] == gs[i].signer.value
                 && st.keys[i] == if gs[i].key.Some? then gs[i].key.value else gs[i].signer.value
  {
    hide ParamList, Aligned, Step, Lookup;
    var gs := Grouped(opts);
    LoopRepresents(opts);
    CloseOpen(gs);
    ParamIndices(gs);
    KeyoptsReachTheirGroup(opts);
    forall i: nat | i < |gs| ensures Lookup(ParamList(gs), i) == gs[i].opts { LookupInList(gs, i); }
  }

  /** A command line that never selects -encrypt is aligned. */
  lemma {:induction false} WithoutEncryptAligned(opts: seq<Opt>)
    requires forall o | o in opts :: o != Select(Encrypt)
    ensures Aligned(opts) && (Loop(opts).Some? ==> Loop(opts).value.operation != Encrypt)
  {
    if opts != [] {
      var front := opts[..|opts| - 1];
      assert forall o | o in front :: o in opts;
      WithoutEncryptAligned(front);
      assert opts[|opts| - 1] in opts;
    }
  }

  // ----- conservation

  /** The values of one kind of option, in order. */
  function SignerOpts(opts: seq<Opt>): seq<string> {
    if opts == [] then []
    else SignerOpts(opts[..|opts| - 1]) + if opts[|opts| - 1].Signer? then [opts[|opts| - 1].file] else []
  }

  function InkeyOpts(opts: seq<Opt>): seq<string> {
    if opts == [] then []
    else InkeyOpts(opts[..|opts| - 1]) + if opts[|opts| - 1].Inkey? then [opts[|opts| - 1].file] else []
  }

  function KeyoptValues(opts: seq<Opt>): seq<string> {
    if opts == [] then []
    else KeyoptValues(opts[..|opts| - 1]) + if opts[|opts| - 1].Keyopt? then [opts[|opts| - 1].value] else []
  }

  /** The certificates, own keys and options of some groups, in order. */
  function GivenSigners(gs: seq<Group>): seq<string> {
    if gs == [] then []
    else GivenSigners(gs[..|gs| - 1]) + if gs[|gs| - 1].signer.Some? then [gs[|gs| - 1].signer.value] else []
  }

  function GivenKeys(gs: seq<Group>): seq<string> {
    if gs == [] then []
    else GivenKeys(gs[..|gs| - 1]) + if gs[|gs| - 1].key.Some? then [gs[|gs| - 1].key.value] else []
  }

  function GivenOpts(gs: seq<Group>): seq<string> {
    if gs == [] then [] else GivenOpts(gs[..|gs| - 1]) + gs[|gs| - 1].opts
  }

  /** Every option ends up in exactly one group, in the order of the command line. */
  lemma {:induction false} GroupsConserve(opts: seq<Opt>)
    ensures GivenSigners(Grouped(opts)) == SignerOpts(opts)
    ensures GivenKeys(Grouped(opts)) == InkeyOpts(opts)
    ensures GivenOpts(Grouped(opts)) == KeyoptValues(opts)
  {
    if opts == [] {
      assert [FRESH][..0] == [];
    } else {
      var front := opts[..|opts| - 1];
      GroupsConserve(front);
      StepConserves(Grouped(front), opts[|opts| - 1]);
    }
  }

  lemma StepConserves(gs: seq<Group>, o: Opt)
    requires gs != []
    ensures var gs' := GroupStep(gs, o);
            && GivenSigners(gs') == GivenSigners(gs) + (if o.Signer? then [o.file] else [])
            && GivenKeys(gs') == GivenKeys(gs) + (if o.Inkey? then [o.file] else [])
            && GivenOpts(gs') == GivenOpts(gs) + if o.Keyopt? then [o.value] else []
  {
    var gs', n := GroupStep(gs, o), |gs| - 1;
    assert gs'[..|gs'| - 1] == if |gs'| == |gs| then gs[..n] else gs;
  }

  lemma {:induction false} SignerFilesGiven(gs: seq<Group>)
    requires AllSigned(gs)
    ensures SignerFiles(gs) == GivenSigners(gs)
  {
    if gs != [] {
      var n := |gs| - 1;
      SignerFilesGiven(gs[..n]);
      assert gs[n] in gs && SignerFiles(gs) == SignerFiles(gs[..n]) + [gs[n].signer.value];
    }
  }

  /** A signing run uses every -signer in order, and every -inkey exactly once in order. */
  lemma SignersInOrder(opts: seq<Opt>)
    requires Accumulated(opts).Some?
    ensures AllSigned(Grouped(opts)) && Accumulated(opts).value.signers == SignerOpts(opts)
    ensures Accumulated(opts).value.keys == KeyFiles(Grouped(opts)) && GivenKeys(Grouped(opts)) == InkeyOpts(opts)
  {
    AccumulatedMeaning(opts);
    GroupsConserve(opts);
    SignerFilesGiven(Grouped(opts));
  }

  /** A key option given under -encrypt is numbered by recipients, and its signer never sees it. */
  lemma KeyoptUnderEncryptIsLost()
    ensures var opts := [Select(Encrypt), Recip(true), Recip(true), Keyopt("v"), Select(Sign), Signer("a")];
            && Accumulated(opts).Some? && Accumulated(opts).value.signers == ["a"]
            && Lookup(Accumulated(opts).value.params, 0) == []
  {
    var o := [Select(Encrypt), Recip(true), Recip(true), Keyopt("v"), Select(Sign), Signer("a")];
    assert o[..5][..4] == o[..4] && o[..4][..3] == o[..3] && o[..3][..2] == o[..2];
    assert o[..2][..1] == o[..1] && o[..1][..0] == [];
    assert Loop(o[..1]) == Some(START.(operation := Encrypt));
    assert Loop(o[..2]) == Some(START.(operation := Encrypt, recipients := 1));
    assert Loop(o[..3]) == Some(START.(operation := Encrypt, recipients := 2));
    var ps := [KeyParam(1, ["v"])];
    assert AddParam([], 1, "v") == ps;
    assert Loop(o[..4]) == Some(START.(operation := Encrypt, recipients := 2, params := ps));
    assert Loop(o[..5]) == Some(START.(operation := Sign, recipients := 2, params := ps));
    assert Loop(o) == Some(START.(operation := Sign, recipients := 2, params := ps, signer := Some("a")));
    assert Lookup(ps[1..], 0) == [];
  }
}
