/** When a bind succeeds and what every bind keeps, on the tables themselves. */
module BindingLaws {
  import opened Wrappers
  import opened Bindings

  // ----- Lookups -----

  ghost predicate DistinctEntries(bindings: seq<Entry>) {
    forall i, j :: 0 <= i < j < |bindings| ==> bindings[i].name != bindings[j].name
  }

  ghost predicate DistinctSlots(slots: seq<Slot>) {
    forall i, j :: 0 <= i < j < |slots| ==> slots[i].name != slots[j].name
  }

  lemma {:induction false} FindIsEntry(bindings: seq<Entry>, name: Name, value: Binding)
    requires DistinctEntries(bindings)
    ensures Find(bindings, name) == Some(value) <==> Entry(name, value) in bindings
  {
    if bindings != [] {
      var rest := bindings[1..];
      assert forall i :: 0 <= i < |rest| ==> rest[i] == bindings[i + 1];
      FindIsEntry(rest, name, value);
      assert bindings == [bindings[0]] + rest;
    }
  }

  lemma {:induction false} KindIsSlot(slots: seq<Slot>, name: Name, kind: Kind)
    requires DistinctSlots(slots)
    ensures KindOf(slots, name) == Some(kind) <==> Slot(name, kind) in slots
  {
    if slots != [] {
      var rest := slots[1..];
      assert forall i :: 0 <= i < |rest| ==> rest[i] == slots[i + 1];
      KindIsSlot(rest, name, kind);
      assert slots == [slots[0]] + rest;
    }
  }

  // ----- When a bind succeeds -----

  /** `owner` is the component, reached through attached children only, in which `name` is looked up as `local`. */
  ghost predicate Designates(p: Prepared, name: Name, owner: Prepared, local: Name)
    decreases |name|
  {
    var split := AttachedPath(name, p.bindings);
    if KindOf(p.slots, name).Some? || split == 0 then owner == p && local == name
    else
      match Find(p.bindings, name[..split]).value
      case Module(child) => Designates(child, name[split..], owner, local)
      case _ => false
  }

  /** The slot is declared and empty, a token extern gets no grammar, and a grammar has the owner's vocabulary. */
  ghost predicate Accepts(owner: Prepared, local: Name, value: Binding) {
    && KindOf(owner.slots, local).Some? && Find(owner.bindings, local).None?
    && (KindOf(owner.slots, local) == Some(TokenExtern) ==> value.Tokens?)
    && match value
       case Module(child) => child.vocab == owner.vocab
       case Tokens(_) => true
       case Constraint(target) => target == owner.vocab
  }

  ghost predicate Fillable(p: Prepared, name: Name, value: Binding) {
    exists owner, local :: Designates(p, name, owner, local) && Accepts(owner, local, value)
  }

  /** Without limits a bind succeeds exactly when the name designates a slot that accepts the value. */
  lemma {:induction false} BindSucceedsIff(p: Prepared, name: Name, value: Binding, fits: Limits)
    requires forall q :: fits(q)
    ensures Bind(p, name, value, fits).Success? <==> Fillable(p, name, value)
    decreases |name|
  {
    var split := AttachedPath(name, p.bindings);
    if KindOf(p.slots, name).Some? || split == 0 {
      assert Designates(p, name, p, name);
    } else {
      match Find(p.bindings, name[..split]).value
      case Module(child) =>
        BindSucceedsIff(child, name[split..], value, fits);
        FillableBelow(p, name, child, value);
      case _ =>
    }
  }

  lemma FillableBelow(p: Prepared, name: Name, child: Prepared, value: Binding)
    requires var split := AttachedPath(name, p.bindings);
             KindOf(p.slots, name).None? && split > 0 && Find(p.bindings, name[..split]) == Some(Module(child))
    ensures Fillable(p, name, value) <==> Fillable(child, name[AttachedPath(name, p.bindings)..], value)
  {
    var tail := name[AttachedPath(name, p.bindings)..];
    forall owner, local ensures Designates(p, name, owner, local) <==> Designates(child, tail, owner, local) {
    }
  }

  /** Every component on the way to the slot fits, before and after, and so does an attached value. */
  ghost predicate PartsFit(p: Prepared, q: Prepared, name: Name, value: Binding, fits: Limits)
    decreases |name|
  {
    && fits(p) && fits(q)
    && if KindOf(p.slots, name).Some? then value.Module? ==> fits(value.child)
       else
         var split := AttachedPath(name, p.bindings);
         split > 0 &&
         match (Find(p.bindings, name[..split]), Find(q.bindings, name[..split]))
         case (Some(Module(before)), Some(Module(after))) => PartsFit(before, after, name[split..], value, fits)
         case _ => false
  }

  /** Limits decline exactly the binds of which some part does not fit, and change nothing in the others. */
  lemma {:induction false} LimitsDeclineIff(p: Prepared, name: Name, value: Binding, fits: Limits, unlimited: Limits)
    requires forall q :: unlimited(q)
    ensures Bind(p, name, value, fits).Success? <==>
              var full := Bind(p, name, value, unlimited);
              full.Success? && PartsFit(p, full.value, name, value, fits)
    ensures Bind(p, name, value, fits).Success? ==> Bind(p, name, value, fits) == Bind(p, name, value, unlimited)
    decreases |name|
  {
    var split := AttachedPath(name, p.bindings);
    if KindOf(p.slots, name).None? && split > 0 {
      var head, tail := name[..split], name[split..];
      match Find(p.bindings, head).value
      case Module(child) =>
        LimitsDeclineIff(child, tail, value, fits, unlimited);
        if Bind(child, tail, value, unlimited).Success? {
          FindPut(p.bindings, head, Module(Bind(child, tail, value, unlimited).value), head);
        }
      case _ =>
    }
  }

  lemma {:induction false} PutNew(bindings: seq<Entry>, name: Name, value: Binding)
    requires forall e :: e in bindings ==> e.name != name
    ensures Put(bindings, name, value) == bindings + [Entry(name, value)] && Find(bindings, name) == None
  {
    if bindings != [] {
      assert bindings == [bindings[0]] + bindings[1..];
      PutNew(bindings[1..], name, value);
    }
  }

  /** A declared slot without an entry takes, in its own component, a value of the right kind and vocabulary when the parts
      fit: one entry is added, and nothing else changes. */
  lemma DeclaredSlotIsFilled(p: Prepared, name: Name, kind: Kind, value: Binding, fits: Limits)
    requires DistinctSlots(p.slots) && Slot(name, kind) in p.slots && forall e :: e in p.bindings ==> e.name != name
    requires kind == TokenExtern ==> value.Tokens?
    requires match value case Module(child) => child.vocab == p.vocab && fits(child) case Tokens(_) => true case Constraint(target) => target == p.vocab
    requires fits(p) && fits(p.(bindings := p.bindings + [Entry(name, value)]))
    ensures Bind(p, name, value, fits) == Success(p.(bindings := p.bindings + [Entry(name, value)]))
  {
    KindIsSlot(p.slots, name, kind);
    PutNew(p.bindings, name, value);
  }

  /** A name that is not declared goes to the child attached at its longest bound proper prefix, whose bind decides. */
  lemma AttachedChildDecides(p: Prepared, name: Name, split: nat, child: Prepared, value: Binding, fits: Limits)
    requires DistinctEntries(p.bindings) && (forall slot :: slot in p.slots ==> slot.name != name)
    requires 0 < split < |name| && Entry(name[..split], Module(child)) in p.bindings
    requires forall longer, e :: split < longer < |name| && e in p.bindings ==> e.name != name[..longer]
    ensures Bind(p, name, value, fits).Success? ==>
              Bind(child, name[split..], value, fits).Success?
              && Entry(name[..split], Module(Bind(child, name[split..], value, fits).value)) in Bind(p, name, value, fits).value.bindings
    ensures Bind(child, name[split..], value, fits).Failure? ==> Bind(p, name, value, fits).Failure?
  {
    var head := name[..split];
    NotDeclared(p.slots, name);
    FindIsEntry(p.bindings, head, Module(child));
    forall longer | split < longer < |name| ensures Find(p.bindings, name[..longer]).None? {
      NotBound(p.bindings, name[..longer]);
    }
    assert AttachedPath(name, p.bindings) == split;
    if Bind(child, name[split..], value, fits).Success? {
      PutHas(p.bindings, head, Module(Bind(child, name[split..], value, fits).value));
    }
  }

  lemma {:induction false} NotDeclared(slots: seq<Slot>, name: Name)
    requires forall slot :: slot in slots ==> slot.name != name
    ensures KindOf(slots, name).None?
  {
    if slots != [] {
      NotDeclared(slots[1..], name);
    }
  }

  lemma {:induction false} NotBound(bindings: seq<Entry>, name: Name)
    requires forall e :: e in bindings ==> e.name != name
    ensures Find(bindings, name).None?
  {
    if bindings != [] {
      NotBound(bindings[1..], name);
    }
  }

  lemma {:induction false} PutHas(bindings: seq<Entry>, name: Name, value: Binding)
    ensures Entry(name, value) in Put(bindings, name, value)
  {
    if bindings != [] && bindings[0].name != name {
      PutHas(bindings[1..], name, value);
    }
  }

  // ----- What every bind keeps -----

  /** Tables have one entry for a name. Only declared slots are filled, token externs by no grammar; attached children and
      constraints have the vocabulary of their owner, at every depth. */
  ghost predicate Consistent(p: Prepared)
    decreases p, 2
  {
    && DistinctSlots(p.slots) && DistinctEntries(p.bindings)
    && forall i :: 0 <= i < |p.bindings| ==> ConsistentEntry(p.slots, p.vocab, p.bindings[i])
  }

  ghost predicate ConsistentEntry(slots: seq<Slot>, vocab: nat, e: Entry)
    decreases e, 1
  {
    && (exists kind :: Slot(e.name, kind) in slots)
    && (Slot(e.name, TokenExtern) in slots ==> e.value.Tokens?)
    && ConsistentValue(e.value, vocab)
  }

  ghost predicate ConsistentValue(value: Binding, vocab: nat)
    decreases value, 0
  {
    match value
    case Module(child) => child.vocab == vocab && Consistent(child)
    case Tokens(_) => true
    case Constraint(target) => target == vocab
  }

  lemma {:induction false} PutEntries(bindings: seq<Entry>, name: Name, value: Binding)
    requires DistinctEntries(bindings)
    ensures DistinctEntries(Put(bindings, name, value))
    ensures forall e :: e in Put(bindings, name, value) ==> e == Entry(name, value) || (e in bindings && e.name != name)
  {
    if bindings != [] {
      var first, rest, after := bindings[0], bindings[1..], Put(bindings, name, value);
      assert forall i :: 0 <= i < |rest| ==> rest[i] == bindings[i + 1];
      assert forall e :: e in rest ==> e.name != first.name;
      if first.name == name {
        assert after == [Entry(name, value)] + rest;
      } else {
        var more := Put(rest, name, value);
        PutEntries(rest, name, value);
        assert after == [first] + more;
        forall i, j | 0 <= i < j < |after| ensures after[i].name != after[j].name {
          assert after[j] == more[j - 1] && more[j - 1] in more;
          assert i > 0 ==> after[i] == more[i - 1];
        }
      }
    }
  }

  lemma PutConsistent(p: Prepared, name: Name, value: Binding)
    requires Consistent(p) && ConsistentEntry(p.slots, p.vocab, Entry(name, value))
    ensures Consistent(p.(bindings := Put(p.bindings, name, value)))
  {
    var after := Put(p.bindings, name, value);
    PutEntries(p.bindings, name, value);
    forall i | 0 <= i < |after| ensures ConsistentEntry(p.slots, p.vocab, after[i]) {
      assert after[i] in after;
      if after[i] != Entry(name, value) {
        var j :| 0 <= j < |p.bindings| && p.bindings[j] == after[i];
      }
    }
  }

  /** A bind keeps the composition consistent: at every depth vocabularies agree and kinds are respected. */
  lemma {:induction false} BindKeepsConsistent(p: Prepared, name: Name, value: Binding, fits: Limits)
    requires Consistent(p) && (value.Module? ==> Consistent(value.child)) && Bind(p, name, value, fits).Success?
    ensures Consistent(Bind(p, name, value, fits).value)
    ensures Bind(p, name, value, fits).value.vocab == p.vocab && Bind(p, name, value, fits).value.slots == p.slots
    decreases |name|
  {
    if KindOf(p.slots, name).None? {
      var head, tail, child := BindDescends(p, name, value, fits);
      FindIsEntry(p.bindings, head, Module(child));
      var i :| 0 <= i < |p.bindings| && p.bindings[i] == Entry(head, Module(child));
      assert ConsistentEntry(p.slots, p.vocab, p.bindings[i]);
      BindKeepsConsistent(child, tail, value, fits);
      PutConsistent(p, head, Module(Bind(child, tail, value, fits).value));
    } else {
      var kind := KindOf(p.slots, name).value;
      KindIsSlot(p.slots, name, kind);
      KindIsSlot(p.slots, name, TokenExtern);
      PutConsistent(p, name, value);
    }
  }

  // ----- The handle -----

  ghost function NoLimits(): Limits {
    q => true
  }

  /** A grammar that is bound in place. */
  class Handle {
    var grammar: Prepared

    constructor (grammar: Prepared)
      ensures this.grammar == grammar
    {
      this.grammar := grammar;
    }

    /** A failed bind leaves the handle as it was, and a copy taken before never changes. A bind that succeeds fills the
        one slot that the name designates, and keeps the composition consistent. */
    method BindSlot(name: Name, value: Binding, fits: Limits) returns (ok: bool)
      modifies this
      ensures ok <==> Bind(old(grammar), name, value, fits).Success?
      ensures grammar == if ok then Bind(old(grammar), name, value, fits).value else old(grammar)
      ensures ok ==> Fillable(old(grammar), name, value) && PartsFit(old(grammar), grammar, name, value, fits)
      ensures ok && name != [] ==> FillsOneSlot(old(grammar), grammar, name, value)
      ensures old(Consistent(grammar)) && (value.Module? ==> Consistent(value.child)) ==> Consistent(grammar)
    {
      var next := Bind(grammar, name, value, fits);
      ok := next.Success?;
      if ok {
        LimitsDeclineIff(grammar, name, value, fits, NoLimits());
        BindSucceedsIff(grammar, name, value, NoLimits());
        if name != [] {
          BindFillsOneSlot(grammar, name, value, fits);
        }
        if Consistent(grammar) && (value.Module? ==> Consistent(value.child)) {
          BindKeepsConsistent(grammar, name, value, fits);
        }
        grammar := next.value;
      }
    }
  }
}
