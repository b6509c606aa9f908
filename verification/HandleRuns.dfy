/** Whole runs over the handles: every run of the reference-counted code is a run of plain ownership. */
module HandleRuns {
  import opened Tcp
  import opened Handles

  /** Contexts are numbered in the order in which they got their first handle. */
  datatype Owner = Nobody | Of(id: nat)

  /** What every live handle owns, the newest handle first, and how many contexts there were. */
  datatype World = World(owners: seq<Owner>, made: nat)

  const EMPTY := World([], 0)

  datatype Op =
    | Construct
    | Claim
    | Copy(from: nat)
    | Assign(to: nat, from: nat)
    | Connect(to: nat, routed: bool, answered: bool)
    | Stop(at: nat)
    | Destroy(at: nat)
    | StopAll
    | StopAllExcept(at: nat)

  /** How many handles share a context. */
  function Shares(owners: seq<Owner>, id: nat): nat {
    if |owners| == 0 then 0 else (if owners[0] == Of(id) then 1 else 0) + Shares(owners[1..], id)
  }

  /** The operation is on live handles, and does not assign the only handle of a context to itself. */
  predicate Legal(w: World, op: Op) {
    match op
    case Copy(from) => from < |w.owners|
    case Assign(to, from) =>
      to < |w.owners| && from < |w.owners|
      && !(to == from && w.owners[to].Of? && Shares(w.owners, w.owners[to].id) == 1)
    case Connect(to, _, _) => to < |w.owners|
    case Stop(at) => at < |w.owners|
    case Destroy(at) => at < |w.owners|
    case StopAllExcept(at) => at < |w.owners|
    case _ => true
  }

  function Step(w: World, op: Op): World
    requires Legal(w, op)
  {
    match op
    case Construct => w.(owners := [Nobody] + w.owners)
    case Claim => World([Of(w.made)] + w.owners, w.made + 1)
    case Copy(from) => w.(owners := [w.owners[from]] + w.owners)
    case Assign(to, from) => w.(owners := w.owners[to := w.owners[from]])
    case Connect(to, routed, answered) =>
      if routed && answered then World(w.owners[to := Of(w.made)], w.made + 1) else w.(owners := w.owners[to := Nobody])
    case Stop(at) => w.(owners := w.owners[at := Nobody])
    case Destroy(at) => w.(owners := w.owners[..at] + w.owners[at + 1..])
    case StopAll => w.(owners := seq(|w.owners|, _ => Nobody))
    case StopAllExcept(at) => w.(owners := seq(|w.owners|, _ => Nobody)[at := w.owners[at]])
  }

  predicate LegalRun(w: World, ops: seq<Op>)
    decreases |ops|
  {
    |ops| > 0 ==> Legal(w, ops[0]) && LegalRun(Step(w, ops[0]), ops[1..])
  }

  function StepAll(w: World, ops: seq<Op>): World
    requires LegalRun(w, ops)
    decreases |ops|
  {
    if |ops| == 0 then w else StepAll(Step(w, ops[0]), ops[1..])
  }

  // ---------------------------------------------------------------- numbers and contexts

  function Lookup(owner: Owner, contexts: seq<ClientContext>): ClientContext? {
    if owner.Of? && owner.id < |contexts| then contexts[owner.id] else null
  }

  function View(owners: seq<Owner>, contexts: seq<ClientContext>): (r: seq<ClientContext?>)
    ensures |r| == |owners|
  {
    seq(|owners|, i requires 0 <= i < |owners| => Lookup(owners[i], contexts))
  }

  predicate Numbered(owners: seq<Owner>, made: nat) {
    forall i :: 0 <= i < |owners| && owners[i].Of? ==> owners[i].id < made
  }

  ghost predicate Distinct(contexts: seq<ClientContext>) {
    forall i, j :: 0 <= i < j < |contexts| ==> contexts[i] != contexts[j]
  }

  /** The registry is in order, and its handles own what the plain world says. */
  ghost predicate Matches(w: World, registry: Registry, contexts: seq<ClientContext>)
    reads registry, registry.handles, registry.claimed
  {
    && registry.Valid() && Numbered(w.owners, w.made) && |contexts| == w.made && Distinct(contexts)
    && registry.owners == View(w.owners, contexts)
    && (forall id :: 0 <= id < |contexts| ==> contexts[id] in registry.claimed)
    && (forall c :: c in registry.claimed ==> c in contexts)
  }

  lemma {:induction false} CountIsShares(owners: seq<Owner>, contexts: seq<ClientContext>, id: nat)
    requires Numbered(owners, |contexts|) && Distinct(contexts) && id < |contexts|
    ensures Count(View(owners, contexts), contexts[id]) == Shares(owners, id)
  {
    if |owners| > 0 {
      CountIsShares(owners[1..], contexts, id);
      assert View(owners, contexts)[1..] == View(owners[1..], contexts);
    }
  }

  /** In a matching state every context has as many references as handles and is freed exactly without any;
      so what a handle points to is never freed. */
  lemma MatchesMeans(w: World, registry: Registry, contexts: seq<ClientContext>)
    requires Matches(w, registry, contexts)
    ensures registry.Valid() && |registry.handles| == |w.owners| && |contexts| == w.made && Distinct(contexts)
    ensures forall id :: 0 <= id < w.made ==>
      contexts[id].refcnt == Shares(w.owners, id) && contexts[id].freed == (Shares(w.owners, id) == 0)
    ensures forall i :: 0 <= i < |w.owners| ==> registry.handles[i].client == Lookup(w.owners[i], contexts)
    ensures forall i :: 0 <= i < |w.owners| && w.owners[i].Of? ==>
      w.owners[i].id < w.made && !contexts[w.owners[i].id].freed
  {
    hide Count, Shares;
    forall id | 0 <= id < w.made
      ensures contexts[id].refcnt == Shares(w.owners, id) && contexts[id].freed == (Shares(w.owners, id) == 0)
    {
      CountIsShares(w.owners, contexts, id);
    }
    forall i | 0 <= i < |w.owners| && w.owners[i].Of?
      ensures w.owners[i].id < w.made && !contexts[w.owners[i].id].freed
    {
      registry.NoDangling(i);
    }
  }

  lemma ViewWith(owner: Owner, owners: seq<Owner>, contexts: seq<ClientContext>)
    ensures View([owner] + owners, contexts) == [Lookup(owner, contexts)] + View(owners, contexts)
  {
  }

  lemma ViewUpdated(owners: seq<Owner>, k: nat, owner: Owner, contexts: seq<ClientContext>)
    requires k < |owners|
    ensures View(owners[k := owner], contexts) == View(owners, contexts)[k := Lookup(owner, contexts)]
  {
  }

  lemma ViewWithout(owners: seq<Owner>, k: nat, contexts: seq<ClientContext>)
    requires k < |owners|
    ensures View(owners[..k] + owners[k + 1..], contexts)
      == View(owners, contexts)[..k] + View(owners, contexts)[k + 1..]
  {
  }

  lemma ViewWithContext(owners: seq<Owner>, contexts: seq<ClientContext>, c: ClientContext)
    requires Numbered(owners, |contexts|)
    ensures View(owners, contexts + [c]) == View(owners, contexts)
    ensures Lookup(Of(|contexts|), contexts + [c]) == c
  {
  }

  // ---------------------------------------------------------------- one operation

  /** The k-th handle of the list. */
  method HandleAt(registry: Registry, k: nat) returns (h: WiFiClient)
    requires registry.Valid() && k < |registry.handles|
    ensures h == registry.handles[k]
  {
    h := registry.first;
    for i := 0 to k
      invariant h == registry.handles[i]
    {
      h := h.next;
    }
  }

  method CallConstruct(registry: Registry, ghost w: World, contexts: seq<ClientContext>)
    requires Matches(w, registry, contexts) && Legal(w, Construct)
    modifies registry, registry.handles, registry.claimed
    ensures Matches(Step(w, Construct), registry, contexts)
    ensures forall i :: 0 <= i < |registry.handles| ==>
      registry.handles[i] in old(registry.handles) || fresh(registry.handles[i])
    ensures forall c :: c in registry.claimed ==> c in old(registry.claimed) || fresh(c)
  {
    hide Shares, Count, Registry.Valid;
    ViewWith(Nobody, w.owners, contexts);
    var _ := registry.Construct();
  }

  method CallClaim(registry: Registry, ghost w: World, contexts: seq<ClientContext>)
      returns (contexts': seq<ClientContext>)
    requires Matches(w, registry, contexts) && Legal(w, Claim)
    modifies registry, registry.handles, registry.claimed
    ensures Matches(Step(w, Claim), registry, contexts')
    ensures forall i :: 0 <= i < |registry.handles| ==>
      registry.handles[i] in old(registry.handles) || fresh(registry.handles[i])
    ensures forall c :: c in registry.claimed ==> c in old(registry.claimed) || fresh(c)
  {
    hide Shares, Count, Registry.Valid;
    var c := new ClientContext();
    contexts' := contexts + [c];
    ViewWithContext(w.owners, contexts, c);
    ViewWith(Of(w.made), w.owners, contexts');
    var _ := registry.Claim(c);
  }

  method CallCopy(registry: Registry, from: nat, ghost w: World, contexts: seq<ClientContext>)
    requires Matches(w, registry, contexts) && Legal(w, Copy(from))
    modifies registry, registry.handles, registry.claimed
    ensures Matches(Step(w, Copy(from)), registry, contexts)
    ensures forall i :: 0 <= i < |registry.handles| ==>
      registry.handles[i] in old(registry.handles) || fresh(registry.handles[i])
    ensures forall c :: c in registry.claimed ==> c in old(registry.claimed) || fresh(c)
  {
    hide Shares, Count, Registry.Valid;
    MatchesMeans(w, registry, contexts);
    ViewWith(w.owners[from], w.owners, contexts);
    var h := HandleAt(registry, from);
    var _ := registry.Copy(h, from);
  }

  method CallAssign(registry: Registry, to: nat, from: nat, ghost w: World, contexts: seq<ClientContext>)
    requires Matches(w, registry, contexts) && Legal(w, Assign(to, from))
    modifies registry, registry.handles, registry.claimed
    ensures Matches(Step(w, Assign(to, from)), registry, contexts)
    ensures forall i :: 0 <= i < |registry.handles| ==>
      registry.handles[i] in old(registry.handles) || fresh(registry.handles[i])
    ensures forall c :: c in registry.claimed ==> c in old(registry.claimed) || fresh(c)
  {
    hide Shares, Count, Registry.Valid;
    MatchesMeans(w, registry, contexts);
    ViewUpdated(w.owners, to, w.owners[from], contexts);
    var h := HandleAt(registry, to);
    var other := HandleAt(registry, from);
    Apart(registry, to, from);
    registry.Assign(h, to, other, from);
  }

  method CallConnect(registry: Registry, to: nat, routed: bool, answered: bool, ghost w: World,
      contexts: seq<ClientContext>) returns (contexts': seq<ClientContext>)
    requires Matches(w, registry, contexts) && Legal(w, Connect(to, routed, answered))
    modifies registry, registry.handles, registry.claimed
    ensures Matches(Step(w, Connect(to, routed, answered)), registry, contexts')
    ensures forall i :: 0 <= i < |registry.handles| ==>
      registry.handles[i] in old(registry.handles) || fresh(registry.handles[i])
    ensures forall c :: c in registry.claimed ==> c in old(registry.claimed) || fresh(c)
  {
    hide Shares, Count, Registry.Valid;
    MatchesMeans(w, registry, contexts);
    var h := HandleAt(registry, to);
    var ok := registry.Connect(h, to, routed, answered);
    if ok {
      contexts' := contexts + [h.client];
      ViewWithContext(w.owners, contexts, h.client);
      ViewUpdated(w.owners, to, Of(w.made), contexts');
    } else {
      contexts' := contexts;
      ViewUpdated(w.owners, to, Nobody, contexts);
    }
  }

  method CallStop(registry: Registry, at: nat, ghost w: World, contexts: seq<ClientContext>)
    requires Matches(w, registry, contexts) && Legal(w, Stop(at))
    modifies registry, registry.handles, registry.claimed
    ensures Matches(Step(w, Stop(at)), registry, contexts)
    ensures forall i :: 0 <= i < |registry.handles| ==>
      registry.handles[i] in old(registry.handles) || fresh(registry.handles[i])
    ensures forall c :: c in registry.claimed ==> c in old(registry.claimed) || fresh(c)
  {
    hide Shares, Count, Registry.Valid;
    MatchesMeans(w, registry, contexts);
    ViewUpdated(w.owners, at, Nobody, contexts);
    var h := HandleAt(registry, at);
    registry.Stop(h, at);
  }

  method CallDestroy(registry: Registry, at: nat, ghost w: World, contexts: seq<ClientContext>)
    requires Matches(w, registry, contexts) && Legal(w, Destroy(at))
    modifies registry, registry.handles, registry.claimed
    ensures Matches(Step(w, Destroy(at)), registry, contexts)
    ensures forall i :: 0 <= i < |registry.handles| ==>
      registry.handles[i] in old(registry.handles) || fresh(registry.handles[i])
    ensures forall c :: c in registry.claimed ==> c in old(registry.claimed) || fresh(c)
  {
    hide Shares, Count, Registry.Valid;
    MatchesMeans(w, registry, contexts);
    ViewWithout(w.owners, at, contexts);
    var h := HandleAt(registry, at);
    registry.Destroy(h, at);
  }

  method CallStopAll(registry: Registry, ghost w: World, contexts: seq<ClientContext>)
    requires Matches(w, registry, contexts) && Legal(w, StopAll)
    modifies registry, registry.handles, registry.claimed
    ensures Matches(Step(w, StopAll), registry, contexts)
    ensures forall i :: 0 <= i < |registry.handles| ==>
      registry.handles[i] in old(registry.handles) || fresh(registry.handles[i])
    ensures forall c :: c in registry.claimed ==> c in old(registry.claimed) || fresh(c)
  {
    hide Shares, Count, Registry.Valid;
    MatchesMeans(w, registry, contexts);
    registry.StopAll();
    OwnersAre(registry);
    assert registry.owners == View(Step(w, StopAll).owners, contexts);
  }

  method CallStopAllExcept(registry: Registry, at: nat, ghost w: World, contexts: seq<ClientContext>)
    requires Matches(w, registry, contexts) && Legal(w, StopAllExcept(at))
    modifies registry, registry.handles, registry.claimed
    ensures Matches(Step(w, StopAllExcept(at)), registry, contexts)
    ensures forall i :: 0 <= i < |registry.handles| ==>
      registry.handles[i] in old(registry.handles) || fresh(registry.handles[i])
    ensures forall c :: c in registry.claimed ==> c in old(registry.claimed) || fresh(c)
  {
    hide Shares, Count, Registry.Valid;
    MatchesMeans(w, registry, contexts);
    OwnersAre(registry);
    var h := HandleAt(registry, at);
    registry.StopAllExcept(h);
    OwnersAre(registry);
    assert registry.owners == View(Step(w, StopAllExcept(at)).owners, contexts);
  }

  lemma Apart(registry: Registry, k: nat, m: nat)
    requires registry.Valid() && k < |registry.handles| && m < |registry.handles|
    ensures registry.handles[k] == registry.handles[m] <==> k == m
  {
  }

  lemma OwnersAre(registry: Registry)
    requires registry.Valid()
    ensures |registry.owners| == |registry.handles|
    ensures forall i :: 0 <= i < |registry.handles| ==> registry.handles[i].client == registry.owners[i]
    ensures forall i, j :: 0 <= i < j < |registry.handles| ==> registry.handles[i] != registry.handles[j]
  {
  }

  // ---------------------------------------------------------------- whole runs

  /** Over every run the list holds exactly the live handles, each owns what plain ownership says, and every context
      counts its handles and is freed exactly when it has none; nothing a handle points to is freed. */
  method Run(ops: seq<Op>) returns (registry: Registry, contexts: seq<ClientContext>)
    requires LegalRun(EMPTY, ops)
    ensures var w := StepAll(EMPTY, ops);
      && registry.Valid() && |registry.handles| == |w.owners| && |contexts| == w.made && Distinct(contexts)
      && (forall i :: 0 <= i < |w.owners| ==> registry.handles[i].client == Lookup(w.owners[i], contexts))
      && (forall id :: 0 <= id < w.made ==>
            contexts[id].refcnt == Shares(w.owners, id) && contexts[id].freed == (Shares(w.owners, id) == 0))
      && (forall i :: 0 <= i < |w.owners| && w.owners[i].Of? ==>
        w.owners[i].id < w.made && !contexts[w.owners[i].id].freed)
  {
    hide Matches, Step, Shares, Legal;
    registry := new Registry();
    contexts := [];
    NothingMatches(registry);
    ghost var w := EMPTY;
    var n := 0;
    assert ops[0..] == ops;
    while n < |ops|
      invariant n <= |ops| && LegalRun(w, ops[n..]) && StepAll(w, ops[n..]) == StepAll(EMPTY, ops)
      invariant Matches(w, registry, contexts) && fresh(registry)
      invariant fresh(registry.handles) && fresh(registry.claimed)
    {
      assert ops[n..][1..] == ops[n + 1..] && ops[n..][0] == ops[n];
      match ops[n] {
        case Construct => CallConstruct(registry, w, contexts);
        case Claim => contexts := CallClaim(registry, w, contexts);
        case Copy(from) => CallCopy(registry, from, w, contexts);
        case Assign(to, from) => CallAssign(registry, to, from, w, contexts);
        case Connect(to, routed, answered) => contexts := CallConnect(registry, to, routed, answered, w, contexts);
        case Stop(at) => CallStop(registry, at, w, contexts);
        case Destroy(at) => CallDestroy(registry, at, w, contexts);
        case StopAll => CallStopAll(registry, w, contexts);
        case StopAllExcept(at) => CallStopAllExcept(registry, at, w, contexts);
      }
      w := Step(w, ops[n]);
      n := n + 1;
    }
    assert ops[n..] == [];
    MatchesMeans(w, registry, contexts);
  }

  lemma NothingMatches(registry: Registry)
    requires registry.Valid() && registry.handles == [] && registry.owners == [] && registry.claimed == {}
    ensures Matches(EMPTY, registry, [])
  {
  }
}
