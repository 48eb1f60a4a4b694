/** Prepared grammars, their extern slots, and persistent binding at qualified paths. A name is its list of
    `::`-separated segments. Local tables are lists of entries with distinct names. */
module Bindings {
  import opened Wrappers
  import opened Collections

  type Name = seq<string>

  datatype Kind = TokenExtern | GrammarExtern

  datatype Slot = Slot(name: Name, kind: Kind)

  datatype Entry = Entry(name: Name, value: Binding)

  datatype Binding = Module(child: Prepared) | Tokens(ids: set<nat>) | Constraint(target: nat)

  /** A prepared component: the vocabulary it targets, its slots, and what is bound to them. */
  datatype Prepared = Prepared(vocab: nat, slots: seq<Slot>, bindings: seq<Entry>)

  // ----- Tables -----

  function Find(bindings: seq<Entry>, name: Name): Option<Binding> {
    if bindings == [] then None
    else if bindings[0].name == name then Some(bindings[0].value)
    else Find(bindings[1..], name)
  }

  function KindOf(slots: seq<Slot>, name: Name): Option<Kind> {
    if slots == [] then None
    else if slots[0].name == name then Some(slots[0].kind)
    else KindOf(slots[1..], name)
  }

  /** Replace the entry, or add one. */
  function Put(bindings: seq<Entry>, name: Name, value: Binding): seq<Entry> {
    if bindings == [] then [Entry(name, value)]
    else if bindings[0].name == name then [Entry(name, value)] + bindings[1..]
    else [bindings[0]] + Put(bindings[1..], name, value)
  }

  lemma {:induction false} FindPut(bindings: seq<Entry>, name: Name, value: Binding, other: Name)
    ensures Find(Put(bindings, name, value), other) == if other == name then Some(value) else Find(bindings, other)
  {
    if bindings != [] && bindings[0].name != name {
      FindPut(bindings[1..], name, value, other);
      assert Put(bindings, name, value)[1..] == Put(bindings[1..], name, value);
    } else if bindings != [] {
      assert Put(bindings, name, value)[1..] == bindings[1..];
    }
  }

  // ----- Qualified names -----

  /** The longest bound proper prefix of `name` of at most `length` segments. */
  function AttachedFrom(name: Name, bindings: seq<Entry>, length: nat): (split: nat)
    requires length < |name| || name == []
    ensures split <= length && (split > 0 ==> split < |name| && Find(bindings, name[..split]).Some?)
    ensures forall longer :: split < longer <= length && longer <= |name| ==> Find(bindings, name[..longer]).None?
  {
    if length == 0 || name == [] then 0
    else if Find(bindings, name[..length]).Some? then length
    else AttachedFrom(name, bindings, length - 1)
  }

  /** Where the longest bound proper prefix of `name` ends, or 0 when no proper prefix is bound. */
  function AttachedPath(name: Name, bindings: seq<Entry>): (split: nat)
    ensures split > 0 ==> split < |name| && Find(bindings, name[..split]).Some?
    ensures forall longer :: split < longer < |name| ==> Find(bindings, name[..longer]).None?
  {
    if name == [] then 0 else AttachedFrom(name, bindings, |name| - 1)
  }

  // ----- Binding -----

  /** Whether the expanded composition stays within its limits. */
  type Limits = Prepared -> bool

  predicate IsGrammar(value: Binding) { !value.Tokens? }

  predicate Targets(value: Binding, vocab: nat, fits: Limits) {
    match value
    case Module(child) => child.vocab == vocab && fits(child)
    case Tokens(_) => true
    case Constraint(target) => target == vocab
  }

  /** A copy with one slot filled: a declared slot directly, otherwise one inside the attached child. */
  function Bind(p: Prepared, name: Name, value: Binding, fits: Limits): Result<Prepared>
    decreases |name|
  {
    if !fits(p) then Failure
    else
      var kind, split := KindOf(p.slots, name), AttachedPath(name, p.bindings);
      if kind.None? && split > 0 then
        match Find(p.bindings, name[..split]).value
        case Module(child) =>
          (match Bind(child, name[split..], value, fits)
           case Failure => Failure
           case Success(next) =>
             var whole := p.(bindings := Put(p.bindings, name[..split], Module(next)));
             if fits(whole) then Success(whole) else Failure)
        case _ => Failure
      else if kind.None? || Find(p.bindings, name).Some? then Failure
      else if kind == Some(TokenExtern) && IsGrammar(value) then Failure
      else if !Targets(value, p.vocab, fits) then Failure
      else
        var whole := p.(bindings := Put(p.bindings, name, value));
        if fits(whole) then Success(whole) else Failure
  }

  // ----- Only the spine changes -----

  /** `q` is `p` with the open slot `name` filled: everything off the path to it is the same. */
  ghost predicate FillsOneSlot(p: Prepared, q: Prepared, name: Name, value: Binding)
    decreases |name|
  {
    && q.vocab == p.vocab && q.slots == p.slots
    && (exists split: nat :: 0 < split <= |name|
          && (forall other :: other != name[..split] ==> Find(q.bindings, other) == Find(p.bindings, other))
          && if split == |name| then
               KindOf(p.slots, name).Some? && Find(p.bindings, name) == None && Find(q.bindings, name) == Some(value)
             else
               match (Find(p.bindings, name[..split]), Find(q.bindings, name[..split]))
               case (Some(Module(before)), Some(Module(after))) => FillsOneSlot(before, after, name[split..], value)
               case _ => false)
  }

  lemma {:induction false} BindFillsOneSlot(p: Prepared, name: Name, value: Binding, fits: Limits)
    requires name != [] && Bind(p, name, value, fits).Success?
    ensures FillsOneSlot(p, Bind(p, name, value, fits).value, name, value)
    decreases |name|
  {
    var q, split := Bind(p, name, value, fits).value, AttachedPath(name, p.bindings);
    if KindOf(p.slots, name).None? {
      var child := Find(p.bindings, name[..split]).value.child;
      var next := Bind(child, name[split..], value, fits).value;
      BindFillsOneSlot(child, name[split..], value, fits);
      forall other ensures Find(q.bindings, other) == if other == name[..split] then Some(Module(next)) else Find(p.bindings, other) {
        FindPut(p.bindings, name[..split], Module(next), other);
      }
    } else {
      assert name[..|name|] == name;
      forall other ensures Find(q.bindings, other) == if other == name then Some(value) else Find(p.bindings, other) {
        FindPut(p.bindings, name, value, other);
      }
    }
  }

  lemma {:induction false} SameKeysSamePath(name: Name, a: seq<Entry>, b: seq<Entry>, length: nat)
    requires length < |name|
    requires forall other :: Find(a, other).Some? <==> Find(b, other).Some?
    ensures AttachedFrom(name, a, length) == AttachedFrom(name, b, length)
  {
    if length > 0 {
      SameKeysSamePath(name, a, b, length - 1);
    }
  }

  lemma FailsBelow(p: Prepared, name: Name, child: Prepared, value: Binding, fits: Limits)
    requires var split := AttachedPath(name, p.bindings);
             KindOf(p.slots, name).None? && split > 0 && Find(p.bindings, name[..split]) == Some(Module(child))
             && Bind(child, name[split..], value, fits).Failure?
    ensures Bind(p, name, value, fits).Failure?
  {
  }

  /** A slot that was filled at a path can never be filled again through the same path. */
  lemma {:induction false} NeverRebinds(p: Prepared, name: Name, value: Binding, again: Binding, fits: Limits)
    requires name != [] && Bind(p, name, value, fits).Success?
    ensures Bind(Bind(p, name, value, fits).value, name, again, fits).Failure?
    decreases |name|
  {
    var q, split := Bind(p, name, value, fits).value, AttachedPath(name, p.bindings);
    if KindOf(p.slots, name).None? {
      var child := Find(p.bindings, name[..split]).value.child;
      var next := Bind(child, name[split..], value, fits).value;
      NeverRebinds(child, name[split..], value, again, fits);
      forall other ensures Find(q.bindings, other) == if other == name[..split] then Some(Module(next)) else Find(p.bindings, other) {
        FindPut(p.bindings, name[..split], Module(next), other);
      }
      SameKeysSamePath(name, p.bindings, q.bindings, |name| - 1);
      FailsBelow(q, name, next, again, fits);
    } else {
      FindPut(p.bindings, name, value, name);
    }
  }

  // ----- Externs -----

  datatype Requirement = Requirement(path: Name, kind: Kind)

  function PrefixAll(prefix: Name, list: seq<Requirement>): seq<Requirement> {
    if list == [] then [] else [Requirement(prefix + list[0].path, list[0].kind)] + PrefixAll(prefix, list[1..])
  }

  function SlotList(slots: seq<Slot>): seq<Requirement> {
    if slots == [] then [] else [Requirement(slots[0].name, slots[0].kind)] + SlotList(slots[1..])
  }

  /** Authored slots, bound ones included, and those of every attached occurrence under its path. */
  function ExternList(p: Prepared): seq<Requirement>
    decreases p, 1
  {
    SlotList(p.slots) + BoundList(p.bindings)
  }

  function BoundList(bindings: seq<Entry>): seq<Requirement>
    decreases bindings, 0
  {
    if bindings == [] then []
    else
      (match bindings[0].value
       case Module(child) => PrefixAll(bindings[0].name, ExternList(child))
       case _ => [])
      + BoundList(bindings[1..])
  }

  function ValueExterns(value: Binding): seq<Requirement> {
    match value case Module(child) => ExternList(child) case _ => []
  }

  /** `path` leads through attached children to a slot of that kind. */
  ghost predicate Occurs(p: Prepared, path: Name, kind: Kind)
    decreases p, 1
  {
    Slot(path, kind) in p.slots || OccursAmong(p.bindings, path, kind)
  }

  ghost predicate OccursAmong(bindings: seq<Entry>, path: Name, kind: Kind)
    decreases bindings, 0
  {
    exists i, rest :: 0 <= i < |bindings| && path == bindings[i].name + rest && OccursBelow(bindings[i].value, rest, kind)
  }

  ghost predicate OccursBelow(value: Binding, path: Name, kind: Kind)
    decreases value, 0
  {
    value.Module? && Occurs(value.child, path, kind)
  }

  lemma {:induction false} SlotListMembers(slots: seq<Slot>, r: Requirement)
    ensures r in SlotList(slots) <==> Slot(r.path, r.kind) in slots
  {
    if slots != [] {
      SlotListMembers(slots[1..], r);
      assert slots == [slots[0]] + slots[1..];
    }
  }

  lemma {:induction false} PrefixMembers(prefix: Name, list: seq<Requirement>, r: Requirement)
    ensures r in PrefixAll(prefix, list) <==> exists rest :: r.path == prefix + rest && Requirement(rest, r.kind) in list
  {
    if list != [] {
      PrefixMembers(prefix, list[1..], r);
      assert list == [list[0]] + list[1..];
      if r == Requirement(prefix + list[0].path, list[0].kind) {
        assert Requirement(list[0].path, r.kind) in list;
      }
      if rest :| r.path == prefix + rest && Requirement(rest, r.kind) in list {
        assert prefix + rest == prefix + list[0].path ==> rest == (prefix + rest)[|prefix|..] == list[0].path;
      }
    }
  }

  lemma {:induction false} BoundListMembers(bindings: seq<Entry>, r: Requirement)
    ensures r in BoundList(bindings) <==> OccursAmong(bindings, r.path, r.kind)
    decreases bindings, 0
  {
    if bindings != [] {
      var e, more := bindings[0], bindings[1..];
      BoundListMembers(more, r);
      FirstOrLater(bindings, r);
      if e.value.Module? {
        PrefixMembers(e.name, ExternList(e.value.child), r);
        forall rest ensures Requirement(rest, r.kind) in ExternList(e.value.child) <==> OccursBelow(e.value, rest, r.kind) {
          ExternListMembers(e.value.child, Requirement(rest, r.kind));
        }
      }
    }
  }

  lemma FirstOrLater(bindings: seq<Entry>, r: Requirement)
    requires bindings != []
    ensures OccursAmong(bindings, r.path, r.kind) <==>
              || OccursAmong(bindings[1..], r.path, r.kind)
              || exists rest :: r.path == bindings[0].name + rest && OccursBelow(bindings[0].value, rest, r.kind)
  {
    var more := bindings[1..];
    if i, rest :| 0 <= i < |more| && r.path == more[i].name + rest && OccursBelow(more[i].value, rest, r.kind) {
      assert bindings[i + 1] == more[i];
    }
    if i, rest :| 0 <= i < |bindings| && r.path == bindings[i].name + rest && OccursBelow(bindings[i].value, rest, r.kind) {
      if i > 0 {
        assert more[i - 1] == bindings[i];
      }
    }
  }

  /** The externs are exactly the slots that paths through attached children lead to. */
  lemma {:induction false} ExternListMembers(p: Prepared, r: Requirement)
    ensures r in ExternList(p) <==> Occurs(p, r.path, r.kind)
    decreases p, 1
  {
    SlotListMembers(p.slots, r);
    BoundListMembers(p.bindings, r);
  }

  // ----- Prefixing as a bag operation -----

  lemma {:induction false} PrefixConcat(prefix: Name, a: seq<Requirement>, b: seq<Requirement>)
    ensures PrefixAll(prefix, a + b) == PrefixAll(prefix, a) + PrefixAll(prefix, b)
    decreases |a|
  {
    if a == [] {
      assert a + b == b;
    } else {
      PrefixConcat(prefix, a[1..], b);
      assert (a + b)[1..] == a[1..] + b;
    }
  }

  lemma {:induction false} PrefixTwice(outer: Name, inner: Name, list: seq<Requirement>)
    ensures PrefixAll(outer, PrefixAll(inner, list)) == PrefixAll(outer + inner, list)
  {
    if list != [] {
      PrefixTwice(outer, inner, list[1..]);
      assert outer + (inner + list[0].path) == outer + inner + list[0].path;
      assert PrefixAll(inner, list)[1..] == PrefixAll(inner, list[1..]);
    }
  }

  predicate Under(prefix: Name, r: Requirement) {
    prefix <= r.path
  }

  lemma {:induction false} PrefixCount(prefix: Name, list: seq<Requirement>, r: Requirement)
    ensures multiset(PrefixAll(prefix, list))[r] == if Under(prefix, r) then multiset(list)[Requirement(r.path[|prefix|..], r.kind)] else 0
  {
    if list != [] {
      PrefixCount(prefix, list[1..], r);
      assert list == [list[0]] + list[1..];
      var first := Requirement(prefix + list[0].path, list[0].kind);
      assert Under(prefix, r) ==> (first == r <==> list[0] == Requirement(r.path[|prefix|..], r.kind));
    }
  }

  lemma PrefixBagAt(prefix: Name, a: seq<Requirement>, b: seq<Requirement>, c: seq<Requirement>, r: Requirement)
    requires multiset(a) == multiset(b) + multiset(c)
    ensures multiset(PrefixAll(prefix, a))[r] == multiset(PrefixAll(prefix, b))[r] + multiset(PrefixAll(prefix, c))[r]
  {
    PrefixCount(prefix, a, r);
    PrefixCount(prefix, b, r);
    PrefixCount(prefix, c, r);
    if Under(prefix, r) {
      var q := Requirement(r.path[|prefix|..], r.kind);
      assert multiset(a)[q] == multiset(b)[q] + multiset(c)[q];
    }
  }

  lemma SameBag(a: multiset<Requirement>, b: multiset<Requirement>)
    requires forall r :: a[r] == b[r]
    ensures a == b
  {
  }

  lemma PrefixBag(prefix: Name, a: seq<Requirement>, b: seq<Requirement>, c: seq<Requirement>)
    requires multiset(a) == multiset(b) + multiset(c)
    ensures multiset(PrefixAll(prefix, a)) == multiset(PrefixAll(prefix, b)) + multiset(PrefixAll(prefix, c))
  {
    var all, parts := multiset(PrefixAll(prefix, a)), multiset(PrefixAll(prefix, b)) + multiset(PrefixAll(prefix, c));
    forall r ensures all[r] == parts[r] {
      PrefixBagAt(prefix, a, b, c, r);
    }
    SameBag(all, parts);
  }

  // ----- A bind adds exactly the child's externs -----

  function EntryExterns(e: Entry): seq<Requirement> {
    PrefixAll(e.name, ValueExterns(e.value))
  }

  type Contribution = Entry -> seq<Requirement>

  /** What all entries contribute, in order. */
  function Joined(extern: Contribution, bindings: seq<Entry>): seq<Requirement> {
    if bindings == [] then [] else extern(bindings[0]) + Joined(extern, bindings[1..])
  }

  function ContributionOf(): Contribution {
    e => EntryExterns(e)
  }

  lemma {:induction false} BoundListJoins(bindings: seq<Entry>)
    ensures BoundList(bindings) == Joined(ContributionOf(), bindings)
  {
    if bindings != [] {
      BoundListJoins(bindings[1..]);
    }
  }

  lemma AddCommon(e: multiset<Requirement>, a: multiset<Requirement>, x: multiset<Requirement>, b: multiset<Requirement>, y: multiset<Requirement>)
    requires a + x == b + y
    ensures (e + a) + x == (e + b) + y
  {
    forall r ensures ((e + a) + x)[r] == ((e + b) + y)[r] {
      assert (a + x)[r] == (b + y)[r];
    }
  }

  lemma {:induction false} JoinedPut(extern: Contribution, bindings: seq<Entry>, name: Name, value: Binding)
    ensures multiset(Joined(extern, Put(bindings, name, value)))
              + (match Find(bindings, name) case None => multiset{} case Some(prior) => multiset(extern(Entry(name, prior))))
         == multiset(Joined(extern, bindings)) + multiset(extern(Entry(name, value)))
  {
    var after := Put(bindings, name, value);
    if bindings == [] {
      assert after[1..] == [];
    } else if bindings[0].name == name {
      assert after[1..] == bindings[1..];
      assert bindings[0] == Entry(name, bindings[0].value);
    } else {
      JoinedPut(extern, bindings[1..], name, value);
      assert after[0] == bindings[0] && after[1..] == Put(bindings[1..], name, value);
      assert multiset(Joined(extern, after)) == multiset(extern(bindings[0])) + multiset(Joined(extern, after[1..]));
      assert multiset(Joined(extern, bindings)) == multiset(extern(bindings[0])) + multiset(Joined(extern, bindings[1..]));
      AddCommon(multiset(extern(bindings[0])), multiset(Joined(extern, after[1..])),
                match Find(bindings, name) case None => multiset{} case Some(prior) => multiset(extern(Entry(name, prior))),
                multiset(Joined(extern, bindings[1..])), multiset(extern(Entry(name, value))));
    }
  }

  lemma BoundListPut(bindings: seq<Entry>, name: Name, value: Binding)
    ensures Find(bindings, name).None? ==>
              multiset(BoundList(Put(bindings, name, value))) == multiset(BoundList(bindings)) + multiset(PrefixAll(name, ValueExterns(value)))
    ensures Find(bindings, name).Some? ==>
              multiset(BoundList(Put(bindings, name, value))) + multiset(PrefixAll(name, ValueExterns(Find(bindings, name).value)))
              == multiset(BoundList(bindings)) + multiset(PrefixAll(name, ValueExterns(value)))
  {
    BoundListJoins(bindings);
    BoundListJoins(Put(bindings, name, value));
    JoinedPut(ContributionOf(), bindings, name, value);
  }

  lemma Cancel(after: multiset<Requirement>, before: multiset<Requirement>, prior: multiset<Requirement>, later: multiset<Requirement>, more: multiset<Requirement>)
    requires after + prior == before + later && later == prior + more
    ensures after == before + more
  {
    forall r ensures after[r] == before[r] + more[r] {
      assert (after + prior)[r] == after[r] + prior[r] && (before + later)[r] == before[r] + later[r];
    }
  }

  /** A slot filled here adds its value's externs under its name. */
  lemma DirectAdds(p: Prepared, name: Name, value: Binding)
    requires Find(p.bindings, name).None?
    ensures multiset(ExternList(p.(bindings := Put(p.bindings, name, value)))) == multiset(ExternList(p)) + multiset(PrefixAll(name, ValueExterns(value)))
  {
    BoundListPut(p.bindings, name, value);
  }

  lemma TableReplace(bindings: seq<Entry>, head: Name, prior: Binding, later: Binding, added: seq<Requirement>)
    requires Find(bindings, head) == Some(prior)
    requires multiset(ValueExterns(later)) == multiset(ValueExterns(prior)) + multiset(added)
    ensures multiset(BoundList(Put(bindings, head, later))) == multiset(BoundList(bindings)) + multiset(PrefixAll(head, added))
  {
    PrefixBag(head, ValueExterns(later), ValueExterns(prior), added);
    BoundListPut(bindings, head, later);
    Cancel(multiset(BoundList(Put(bindings, head, later))), multiset(BoundList(bindings)),
           multiset(PrefixAll(head, ValueExterns(prior))), multiset(PrefixAll(head, ValueExterns(later))), multiset(PrefixAll(head, added)));
  }

  /** A child whose externs grew by `added` makes the whole grow by `added` under the child's name. */
  lemma NestedAdds(p: Prepared, head: Name, child: Binding, next: Binding, added: seq<Requirement>)
    requires Find(p.bindings, head) == Some(child)
    requires multiset(ValueExterns(next)) == multiset(ValueExterns(child)) + multiset(added)
    ensures multiset(ExternList(p.(bindings := Put(p.bindings, head, next)))) == multiset(ExternList(p)) + multiset(PrefixAll(head, added))
  {
    TableReplace(p.bindings, head, child, next, added);
  }

  /** A bind of a name that is no slot here is a bind in the child it passes through. */
  lemma BindDescends(p: Prepared, name: Name, value: Binding, fits: Limits) returns (head: Name, tail: Name, child: Prepared)
    requires Bind(p, name, value, fits).Success? && KindOf(p.slots, name).None?
    ensures head + tail == name && |tail| < |name| && Find(p.bindings, head) == Some(Module(child))
    ensures Bind(child, tail, value, fits).Success?
    ensures Bind(p, name, value, fits).value == p.(bindings := Put(p.bindings, head, Module(Bind(child, tail, value, fits).value)))
  {
    var split := AttachedPath(name, p.bindings);
    head, tail := name[..split], name[split..];
    child := Find(p.bindings, head).value.child;
  }

  /** A successful bind adds exactly the child's externs, each under the bound path. */
  lemma {:induction false} BindAddsExterns(p: Prepared, name: Name, value: Binding, fits: Limits)
    requires Bind(p, name, value, fits).Success?
    ensures multiset(ExternList(Bind(p, name, value, fits).value)) == multiset(ExternList(p)) + multiset(PrefixAll(name, ValueExterns(value)))
    decreases |name|
  {
    if KindOf(p.slots, name).None? {
      var head, tail, child := BindDescends(p, name, value, fits);
      BindAddsExterns(child, tail, value, fits);
      NestedAdds(p, head, Module(child), Module(Bind(child, tail, value, fits).value), PrefixAll(tail, ValueExterns(value)));
      PrefixTwice(head, tail, ValueExterns(value));
    } else {
      DirectAdds(p, name, value);
    }
  }

  // ----- The stack-driven walk -----

  const MAX_VISITS: nat := 131_072
  const MAX_REQUIREMENTS: nat := 65_536

  function Nodes(p: Prepared): (n: nat)
    ensures n > 0
    decreases p, 1
  {
    1 + BoundNodes(p.bindings)
  }

  function BoundNodes(bindings: seq<Entry>): nat
    decreases bindings, 0
  {
    if bindings == [] then 0
    else (match bindings[0].value case Module(child) => Nodes(child) case _ => 0) + BoundNodes(bindings[1..])
  }

  type Pending = seq<(Prepared, Name)>

  function PendingList(pending: Pending): seq<Requirement> {
    if pending == [] then []
    else PendingList(pending[..|pending| - 1]) + PrefixAll(pending[|pending| - 1].1, ExternList(pending[|pending| - 1].0))
  }

  function PendingNodes(pending: Pending): nat {
    if pending == [] then 0 else PendingNodes(pending[..|pending| - 1]) + Nodes(pending[|pending| - 1].0)
  }

  lemma PendingPush(pending: Pending, p: Prepared, prefix: Name)
    ensures PendingList(pending + [(p, prefix)]) == PendingList(pending) + PrefixAll(prefix, ExternList(p))
    ensures PendingNodes(pending + [(p, prefix)]) == PendingNodes(pending) + Nodes(p)
  {
    assert (pending + [(p, prefix)])[..|pending|] == pending;
  }

  /** The component's own slots, each under the prefix; stops when there are too many. */
  method EmitSlots(slots: seq<Slot>, prefix: Name, out0: seq<Requirement>) returns (ok: bool, out: seq<Requirement>)
    requires |out0| <= MAX_REQUIREMENTS
    ensures ok <==> |out0| + |slots| <= MAX_REQUIREMENTS
    ensures ok ==> out == out0 + PrefixAll(prefix, SlotList(slots))
  {
    out := out0;
    for i := 0 to |slots|
      invariant |out| == |out0| + i <= MAX_REQUIREMENTS
      invariant out + PrefixAll(prefix, SlotList(slots[i..])) == out0 + PrefixAll(prefix, SlotList(slots))
    {
      assert slots[i..][1..] == slots[i + 1..];
      assert SlotList(slots[i..])[1..] == SlotList(slots[i + 1..]);
      out := out + [Requirement(prefix + slots[i].name, slots[i].kind)];
      if |out| > MAX_REQUIREMENTS {
        return false, out;
      }
    }
    assert slots[|slots|..] == [];
    ok := true;
  }

  lemma BoundListStep(bindings: seq<Entry>, prefix: Name)
    requires bindings != []
    ensures PrefixAll(prefix, BoundList(bindings)) ==
            PrefixAll(prefix + bindings[0].name, ValueExterns(bindings[0].value)) + PrefixAll(prefix, BoundList(bindings[1..]))
  {
    assert BoundList(bindings) == EntryExterns(bindings[0]) + BoundList(bindings[1..]);
    PrefixConcat(prefix, EntryExterns(bindings[0]), BoundList(bindings[1..]));
    PrefixTwice(prefix, bindings[0].name, ValueExterns(bindings[0].value));
  }

  /** Push an entry's component, if it has one. */
  method PushChild(entry: Entry, prefix: Name, pending0: Pending) returns (pending: Pending)
    ensures PendingNodes(pending) == PendingNodes(pending0) + BoundNodes([entry])
    ensures PendingList(pending) == PendingList(pending0) + PrefixAll(prefix + entry.name, ValueExterns(entry.value))
  {
    pending := pending0;
    var one := [entry];
    assert one[1..] == [];
    match entry.value {
      case Module(child) =>
        PendingPush(pending, child, prefix + entry.name);
        pending := pending + [(child, prefix + entry.name)];
      case Tokens(_) =>
      case Constraint(_) =>
    }
  }

  lemma BoundNodesStep(bindings: seq<Entry>)
    requires bindings != []
    ensures BoundNodes(bindings) == BoundNodes([bindings[0]]) + BoundNodes(bindings[1..])
  {
    var one := [bindings[0]];
    assert one[1..] == [];
  }

  /** What pushing the first of `rest` moves from the entries to the stack. */
  lemma PushedStep(before: Pending, after: Pending, rest: seq<Entry>, prefix: Name)
    requires rest != []
    requires PendingNodes(after) == PendingNodes(before) + BoundNodes([rest[0]])
    requires PendingList(after) == PendingList(before) + PrefixAll(prefix + rest[0].name, ValueExterns(rest[0].value))
    ensures PendingNodes(after) + BoundNodes(rest[1..]) == PendingNodes(before) + BoundNodes(rest)
    ensures PendingList(after) + PrefixAll(prefix, BoundList(rest[1..])) == PendingList(before) + PrefixAll(prefix, BoundList(rest))
  {
    BoundListStep(rest, prefix);
    BoundNodesStep(rest);
    Regroup(PendingList(before), PrefixAll(prefix + rest[0].name, ValueExterns(rest[0].value)), PrefixAll(prefix, BoundList(rest[1..])));
  }

  /** The attached children, each with its path, on top of the stack. */
  method PushChildren(bindings: seq<Entry>, prefix: Name, pending0: Pending) returns (pending: Pending)
    ensures PendingNodes(pending) == PendingNodes(pending0) + BoundNodes(bindings)
    ensures PendingList(pending) == PendingList(pending0) + PrefixAll(prefix, BoundList(bindings))
  {
    pending := pending0;
    for i := 0 to |bindings|
      invariant PendingNodes(pending) + BoundNodes(bindings[i..]) == PendingNodes(pending0) + BoundNodes(bindings)
      invariant PendingList(pending) + PrefixAll(prefix, BoundList(bindings[i..])) == PendingList(pending0) + PrefixAll(prefix, BoundList(bindings))
    {
      ghost var before := pending;
      assert bindings[i..][1..] == bindings[i + 1..];
      pending := PushChild(bindings[i], prefix, pending);
      PushedStep(before, pending, bindings[i..], prefix);
    }
    assert bindings[|bindings|..] == [];
  }

  lemma {:induction false} PrefixLength(prefix: Name, list: seq<Requirement>)
    ensures |PrefixAll(prefix, list)| == |list|
  {
    if list != [] {
      PrefixLength(prefix, list[1..]);
    }
  }

  lemma {:induction false} PrefixNothing(list: seq<Requirement>)
    ensures PrefixAll([], list) == list
  {
    if list != [] {
      PrefixNothing(list[1..]);
      assert [] + list[0].path == list[0].path;
    }
  }

  lemma {:induction false} SlotListLength(slots: seq<Slot>)
    ensures |SlotList(slots)| == |slots|
  {
    if slots != [] {
      SlotListLength(slots[1..]);
    }
  }

  type Order = (Name, Name) -> bool

  ghost predicate TotalOrder(leq: Order) {
    && (forall a, b :: leq(a, b) || leq(b, a))
    && (forall a, b, c :: leq(a, b) && leq(b, c) ==> leq(a, c))
  }

  ghost predicate Sorted(leq: Order, list: seq<Requirement>) {
    forall i, j :: 0 <= i < j < |list| ==> leq(list[i].path, list[j].path)
  }

  /** Insert after every requirement whose path is not greater. */
  method InsertByPath(leq: Order, list: seq<Requirement>, r: Requirement) returns (longer: seq<Requirement>)
    requires TotalOrder(leq) && Sorted(leq, list)
    ensures multiset(longer) == multiset(list) + multiset{r} && Sorted(leq, longer)
  {
    var k := |list|;
    while k > 0 && !leq(list[k - 1].path, r.path)
      invariant 0 <= k <= |list|
      invariant forall j :: k <= j < |list| ==> leq(r.path, list[j].path)
    {
      k := k - 1;
    }
    longer := list[..k] + [r] + list[k..];
    assert list == list[..k] + list[k..];
    InsertedSorted(leq, list, r, k);
  }

  lemma InsertedSorted(leq: Order, list: seq<Requirement>, r: Requirement, k: nat)
    requires TotalOrder(leq) && Sorted(leq, list) && k <= |list|
    requires k > 0 ==> leq(list[k - 1].path, r.path)
    requires forall j :: k <= j < |list| ==> leq(r.path, list[j].path)
    ensures Sorted(leq, list[..k] + [r] + list[k..])
  {
    var longer := list[..k] + [r] + list[k..];
    forall j | 0 <= j < k ensures leq(list[j].path, r.path) {
      assert j < k - 1 ==> leq(list[j].path, list[k - 1].path);
    }
    forall i, j | 0 <= i < j < |longer| ensures leq(longer[i].path, longer[j].path) {
      assert longer[i] == if i < k then list[i] else if i == k then r else list[i - 1];
      assert longer[j] == if j < k then list[j] else if j == k then r else list[j - 1];
    }
  }

  /** A stable sort by path. */
  method SortByPath(leq: Order, list: seq<Requirement>) returns (sorted: seq<Requirement>)
    requires TotalOrder(leq)
    ensures multiset(sorted) == multiset(list) && Sorted(leq, sorted)
  {
    sorted := [];
    assert list[..0] == [];
    for i := 0 to |list|
      invariant multiset(sorted) == multiset(list[..i]) && Sorted(leq, sorted)
    {
      assert list[..i + 1] == list[..i] + [list[i]];
      sorted := InsertByPath(leq, sorted, list[i]);
    }
    assert list[..|list|] == list;
  }

  /** The top of the stack is its slots, then its attached children. */
  lemma StackTurn(rest: Pending, component: Prepared, prefix: Name)
    ensures PendingList(rest + [(component, prefix)])
            == PendingList(rest) + (PrefixAll(prefix, SlotList(component.slots)) + PrefixAll(prefix, BoundList(component.bindings)))
    ensures PendingNodes(rest + [(component, prefix)]) == PendingNodes(rest) + Nodes(component)
  {
    PendingPush(rest, component, prefix);
    PrefixConcat(prefix, SlotList(component.slots), BoundList(component.bindings));
  }

  /** Moving the slots to the output and the children to the stack loses and adds nothing. */
  lemma TurnConserves(out: seq<Requirement>, rest: seq<Requirement>, slots: seq<Requirement>, children: seq<Requirement>)
    ensures |out + slots| + |rest + children| == |out| + |rest + (slots + children)|
    ensures multiset(out + slots) + multiset(rest + children) == multiset(out) + multiset(rest + (slots + children))
  {
  }

  lemma SameMembers(a: seq<Requirement>, b: seq<Requirement>, q: Requirement)
    requires multiset(a) == multiset(b)
    ensures q in a <==> q in b
  {
    assert (q in a <==> q in multiset(a)) && (q in b <==> q in multiset(b));
  }

  /** The externs of a composition in path order, or nothing when its summary fails or it expands to too many parts. */
  method Externs(p: Prepared, leq: Order, fits: Limits) returns (r: Option<seq<Requirement>>)
    requires TotalOrder(leq)
    ensures r.Some? <==> fits(p) && Nodes(p) <= 131_072 && |ExternList(p)| <= 65_536
    ensures r.Some? ==> multiset(r.value) == multiset(ExternList(p)) && Sorted(leq, r.value)
    ensures r.Some? ==> forall q: Requirement :: q in r.value <==> Occurs(p, q.path, q.kind)
  {
    if !fits(p) {
      return None;
    }
    var pending: Pending := [(p, [])];
    var out: seq<Requirement> := [];
    var visits := 0;
    PrefixNothing(ExternList(p));
    PendingPush([], p, []);
    assert [] + [(p, [])] == pending;
    while pending != []
      invariant visits <= MAX_VISITS && |out| <= MAX_REQUIREMENTS
      invariant visits + PendingNodes(pending) == Nodes(p)
      invariant |out| + |PendingList(pending)| == |ExternList(p)|
      invariant multiset(out) + multiset(PendingList(pending)) == multiset(ExternList(p))
      decreases PendingNodes(pending)
    {
      var (component, prefix) := pending[|pending| - 1];
      var rest := pending[..|pending| - 1];
      visits := visits + 1;
      if visits > MAX_VISITS {
        return None;
      }
      PrefixLength(prefix, SlotList(component.slots));
      SlotListLength(component.slots);
      ghost var before := out;
      LastApart(pending);
      StackTurn(rest, component, prefix);
      var ok;
      ok, out := EmitSlots(component.slots, prefix, out);
      if !ok {
        return None;
      }
      pending := PushChildren(component.bindings, prefix, rest);
      TurnConserves(before, PendingList(rest), PrefixAll(prefix, SlotList(component.slots)), PrefixAll(prefix, BoundList(component.bindings)));
    }
    var sorted := SortByPath(leq, out);
    r := Some(sorted);
    forall q: Requirement ensures q in sorted <==> Occurs(p, q.path, q.kind) {
      SameMembers(sorted, ExternList(p), q);
      ExternListMembers(p, q);
    }
  }
}
