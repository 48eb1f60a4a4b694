/** Refining a partition of states by signatures; the sink is one more state, the last. */
module PartitionRefinement {
  import opened Collections
  import opened Dfas
  import opened Trimming

  type Classes = seq<nat>

  function NextState(d: Dfa, s: nat, l: int): nat {
    if s < |d.states| && l in d.states[s].transitions then d.states[s].transitions[l] else |d.states|
  }

  /** One class for each state and one for the sink. */
  ghost predicate Fits(d: Dfa, c: Classes) {
    |c| == |d.states| + 1 && TargetsInRange(d)
  }

  /** Same class, and same class of the target under every label. */
  ghost predicate Agree(d: Dfa, c: Classes, s: nat, t: nat)
    requires Fits(d, c) && s < |c| && t < |c|
  {
    c[s] == c[t] && forall l :: c[NextState(d, s, l)] == c[NextState(d, t, l)]
  }

  // ----- Signatures -----

  datatype Signature = Signature(previous: nat, transitions: map<int, nat>)

  /** Only transitions out of the sink's class are listed. */
  function SignatureOf(d: Dfa, c: Classes, s: nat): Signature
    requires Fits(d, c) && s < |c|
  {
    var sink := |d.states|;
    Signature(c[s], if s == sink then map[] else map l | l in d.states[s].transitions && c[d.states[s].transitions[l]] != c[sink] :: c[d.states[s].transitions[l]])
  }

  predicate SameSignature(a: Signature, b: Signature) {
    && a.previous == b.previous
    && (forall l :: l in a.transitions ==> l in b.transitions && a.transitions[l] == b.transitions[l])
    && (forall l :: l in b.transitions ==> l in a.transitions)
  }

  lemma SignatureAt(d: Dfa, c: Classes, s: nat, l: int)
    requires Fits(d, c) && s < |c|
    ensures l in SignatureOf(d, c, s).transitions <==> c[NextState(d, s, l)] != c[|d.states|]
    ensures l in SignatureOf(d, c, s).transitions ==> SignatureOf(d, c, s).transitions[l] == c[NextState(d, s, l)]
  {
  }

  lemma SignaturesAgree(d: Dfa, c: Classes, s: nat, t: nat)
    requires Fits(d, c) && s < |c| && t < |c|
    ensures SameSignature(SignatureOf(d, c, s), SignatureOf(d, c, t)) <==> Agree(d, c, s, t)
  {
    if SameSignature(SignatureOf(d, c, s), SignatureOf(d, c, t)) {
      forall l ensures c[NextState(d, s, l)] == c[NextState(d, t, l)] {
        SignatureAt(d, c, s, l);
        SignatureAt(d, c, t, l);
      }
    }
    if Agree(d, c, s, t) {
      forall l: int
        ensures l in SignatureOf(d, c, s).transitions <==> l in SignatureOf(d, c, t).transitions
        ensures l in SignatureOf(d, c, s).transitions ==> SignatureOf(d, c, s).transitions[l] == SignatureOf(d, c, t).transitions[l]
      {
        SignatureAt(d, c, s, l);
        SignatureAt(d, c, t, l);
      }
    }
  }

  // ----- Numbering classes in the order they are met -----

  /** One more than the largest class. */
  function Next(c: Classes): nat {
    if c == [] then 0 else Max(Next(c[..|c| - 1]), c[|c| - 1] + 1)
  }

  ghost predicate Canonical(c: Classes) {
    c == [] || (Canonical(c[..|c| - 1]) && c[|c| - 1] <= Next(c[..|c| - 1]))
  }

  lemma {:induction false} ClassesOccur(c: Classes, k: nat)
    requires Canonical(c) && k < Next(c)
    ensures k in c
  {
    var init, last := c[..|c| - 1], c[|c| - 1];
    if k < Next(init) {
      ClassesOccur(init, k);
    } else {
      assert k == last;
    }
  }

  ghost predicate SameKernel(a: Classes, b: Classes) {
    |a| == |b| && forall s, t :: 0 <= s < |a| && 0 <= t < |a| ==> (a[s] == a[t] <==> b[s] == b[t])
  }

  /** Numbered in the order of first occurrence, a partition has one numbering. */
  lemma {:induction false} CanonicalUnique(a: Classes, b: Classes)
    requires Canonical(a) && Canonical(b) && SameKernel(a, b)
    ensures a == b
    decreases |a|
  {
    if a != [] {
      var n := |a| - 1;
      CanonicalUnique(a[..n], b[..n]);
      assert a == a[..n] + [a[n]] && b == b[..n] + [b[n]];
      if s :| 0 <= s < n && a[s] == a[n] {
        assert a[..n][s] == b[..n][s];
      } else {
        LastIsNew(a);
        LastIsNew(b);
      }
    }
  }

  lemma LastIsNew(c: Classes)
    requires c != [] && Canonical(c) && forall s :: 0 <= s < |c| - 1 ==> c[s] != c[|c| - 1]
    ensures c[|c| - 1] == Next(c[..|c| - 1])
  {
    var init, last := c[..|c| - 1], c[|c| - 1];
    if last < Next(init) {
      ClassesOccur(init, last);
    }
  }

  // ----- One round -----

  method FindClass(signatures: seq<Signature>, signature: Signature) returns (k: nat)
    ensures k <= |signatures| && (k < |signatures| ==> SameSignature(signatures[k], signature))
    ensures forall j :: 0 <= j < k ==> !SameSignature(signatures[j], signature)
  {
    k := 0;
    while k < |signatures| && !SameSignature(signatures[k], signature)
      invariant k <= |signatures| && forall j :: 0 <= j < k ==> !SameSignature(signatures[j], signature)
    {
      k := k + 1;
    }
  }

  /** No two of the listed states agree. */
  ghost predicate Apart(d: Dfa, c: Classes, firsts: seq<nat>)
    requires Fits(d, c)
  {
    && (forall k :: 0 <= k < |firsts| ==> firsts[k] < |c|)
    && (forall j, k :: 0 <= j < k < |firsts| ==> !Agree(d, c, firsts[j], firsts[k]))
  }

  ghost predicate LikeFirst(d: Dfa, c: Classes, firsts: seq<nat>, k: nat, s: nat)
    requires Fits(d, c) && Apart(d, c, firsts)
  {
    s < |c| && k < |firsts| && Agree(d, c, firsts[k], s)
  }

  /** The first `|finer|` states are numbered, each like the first state with its signature. */
  ghost predicate Numbered(d: Dfa, c: Classes, finer: Classes, firsts: seq<nat>)
    requires Fits(d, c)
  {
    && |finer| <= |c| && Canonical(finer) && Next(finer) == |firsts| && Apart(d, c, firsts)
    && forall s :: 0 <= s < |finer| ==> LikeFirst(d, c, firsts, finer[s], s)
  }

  lemma StillApart(d: Dfa, c: Classes, firsts: seq<nat>, s: nat)
    requires Fits(d, c) && Apart(d, c, firsts) && s < |c|
    requires forall j :: 0 <= j < |firsts| ==> !Agree(d, c, firsts[j], s)
    ensures Apart(d, c, firsts + [s])
  {
  }

  lemma NumberOne(d: Dfa, c: Classes, finer: Classes, firsts: seq<nat>, k: nat)
    requires Fits(d, c) && |finer| < |c| && Numbered(d, c, finer, firsts) && k <= |firsts|
    requires k < |firsts| ==> Agree(d, c, firsts[k], |finer|)
    requires forall j :: 0 <= j < k ==> !Agree(d, c, firsts[j], |finer|)
    ensures Numbered(d, c, finer + [k], if k < |firsts| then firsts else firsts + [|finer|])
  {
    var longer, more := finer + [k], if k < |firsts| then firsts else firsts + [|finer|];
    assert longer[..|longer| - 1] == finer;
    if k == |firsts| {
      StillApart(d, c, firsts, |finer|);
    }
    forall s | 0 <= s < |longer| ensures LikeFirst(d, c, more, longer[s], s) {
      if s < |finer| {
        assert LikeFirst(d, c, firsts, finer[s], s);
      }
    }
  }

  lemma AgreeOn(d: Dfa, c: Classes, r: nat, s: nat, t: nat)
    requires Fits(d, c) && r < |c| && s < |c| && t < |c| && Agree(d, c, r, s) && Agree(d, c, r, t)
    ensures Agree(d, c, s, t)
  {
  }

  lemma AgreeBack(d: Dfa, c: Classes, s: nat, t: nat)
    requires Fits(d, c) && s < |c| && t < |c| && Agree(d, c, s, t)
    ensures Agree(d, c, t, s)
  {
  }

  lemma NumberingDecides(d: Dfa, c: Classes, finer: Classes, firsts: seq<nat>, s: nat, t: nat)
    requires Fits(d, c) && Numbered(d, c, finer, firsts) && s < |finer| && t < |finer|
    ensures finer[s] == finer[t] <==> Agree(d, c, s, t)
  {
    var j, k := finer[s], finer[t];
    assert LikeFirst(d, c, firsts, j, s) && LikeFirst(d, c, firsts, k, t);
    if j == k {
      AgreeOn(d, c, firsts[j], s, t);
    }
    if Agree(d, c, s, t) {
      AgreeBack(d, c, s, t);
      AgreeBack(d, c, firsts[j], s);
      AgreeBack(d, c, firsts[k], t);
      AgreeOn(d, c, s, firsts[j], t);
      AgreeBack(d, c, firsts[j], t);
      AgreeOn(d, c, t, firsts[j], firsts[k]);
      AgreeBack(d, c, firsts[j], firsts[k]);
    }
  }

  /** States keep a common class exactly when they agree; classes are numbered in order. */
  method RefinePartition(d: Dfa, c: Classes) returns (finer: Classes)
    requires Fits(d, c)
    ensures |finer| == |c| && Canonical(finer)
    ensures forall s, t :: 0 <= s < |c| && 0 <= t < |c| ==> (finer[s] == finer[t] <==> Agree(d, c, s, t))
  {
    finer := [];
    var signatures: seq<Signature> := [];
    ghost var firsts: seq<nat> := [];
    for s := 0 to |c|
      invariant |finer| == s && Numbered(d, c, finer, firsts)
      invariant |signatures| == |firsts| && forall k :: 0 <= k < |firsts| ==> signatures[k] == SignatureOf(d, c, firsts[k])
    {
      var signature := SignatureOf(d, c, s);
      var k := FindClass(signatures, signature);
      forall j | 0 <= j < |firsts| ensures SameSignature(signatures[j], signature) <==> Agree(d, c, firsts[j], s) {
        SignaturesAgree(d, c, firsts[j], s);
      }
      NumberOne(d, c, finer, firsts, k);
      if k == |signatures| {
        signatures, firsts := signatures + [signature], firsts + [s];
      }
      finer := finer + [k];
    }
    forall s, t | 0 <= s < |c| && 0 <= t < |c| ensures finer[s] == finer[t] <==> Agree(d, c, s, t) {
      NumberingDecides(d, c, finer, firsts, s, t);
    }
  }

  // ----- To the fixpoint -----

  /** No word tells the states apart: it reaches the sink from both or neither, and is accepted from both or neither. */
  ghost predicate Equivalent(d: Dfa, s: nat, t: nat) {
    forall word :: Verdict(d, s, word) == Verdict(d, t, word)
  }

  lemma VerdictStep(d: Dfa, s: nat, l: int, rest: seq<int>)
    requires TargetsInRange(d)
    ensures Verdict(d, s, [l] + rest) == Verdict(d, NextState(d, s, l), rest)
  {
    var word := [l] + rest;
    assert word[0] == l && word[1..] == rest;
  }

  lemma EquivalentTargets(d: Dfa, s: nat, t: nat, l: int)
    requires TargetsInRange(d) && Equivalent(d, s, t)
    ensures Equivalent(d, NextState(d, s, l), NextState(d, t, l))
  {
    forall rest ensures Verdict(d, NextState(d, s, l), rest) == Verdict(d, NextState(d, t, l), rest) {
      VerdictStep(d, s, l, rest);
      VerdictStep(d, t, l, rest);
    }
  }

  /** Equivalent states are together, and states that are together look the same. */
  ghost predicate Between(d: Dfa, c: Classes)
    requires Fits(d, c)
  {
    && (forall s, t :: 0 <= s < |c| && 0 <= t < |c| && Equivalent(d, s, t) ==> c[s] == c[t])
    && (forall s, t :: 0 <= s < |c| && 0 <= t < |c| && c[s] == c[t] ==> Verdict(d, s, []) == Verdict(d, t, []))
  }

  lemma RefinedBetween(d: Dfa, c: Classes, finer: Classes)
    requires Fits(d, c) && Between(d, c) && |finer| == |c|
    requires forall s, t :: 0 <= s < |c| && 0 <= t < |c| ==> (finer[s] == finer[t] <==> Agree(d, c, s, t))
    ensures Between(d, finer)
  {
    forall s, t | 0 <= s < |c| && 0 <= t < |c| && Equivalent(d, s, t) ensures finer[s] == finer[t] {
      forall l ensures c[NextState(d, s, l)] == c[NextState(d, t, l)] {
        EquivalentTargets(d, s, t, l);
      }
      assert Agree(d, c, s, t);
    }
  }

  /** A stable partition tells apart exactly the states that some word tells apart. */
  lemma {:induction false} StableVerdicts(d: Dfa, c: Classes, s: nat, t: nat, word: seq<int>)
    requires Fits(d, c) && Between(d, c) && s < |c| && t < |c| && c[s] == c[t]
    requires forall s, t :: 0 <= s < |c| && 0 <= t < |c| && c[s] == c[t] ==> Agree(d, c, s, t)
    ensures Verdict(d, s, word) == Verdict(d, t, word)
    decreases |word|
  {
    if word != [] {
      var l, rest := word[0], word[1..];
      assert word == [l] + rest;
      VerdictStep(d, s, l, rest);
      VerdictStep(d, t, l, rest);
      assert Agree(d, c, s, t);
      StableVerdicts(d, c, NextState(d, s, l), NextState(d, t, l), rest);
    }
  }

  ghost function Pairs(c: Classes): set<(int, int)> {
    set s, t | 0 <= s < |c| && 0 <= t < |c| && c[s] == c[t] :: (s, t)
  }

  /** A round splits a class, or the numbering becomes the one in order. */
  lemma RoundProgress(c: Classes, finer: Classes)
    requires |finer| == |c| && Canonical(finer) && finer != c
    requires forall s, t :: 0 <= s < |c| && 0 <= t < |c| && finer[s] == finer[t] ==> c[s] == c[t]
    ensures Pairs(finer) < Pairs(c) || (Pairs(finer) == Pairs(c) && !Canonical(c))
  {
    if SameKernel(finer, c) {
      if Canonical(c) {
        CanonicalUnique(finer, c);
      }
      assert Pairs(finer) == Pairs(c);
    } else {
      var s, t :| 0 <= s < |c| && 0 <= t < |c| && !(finer[s] == finer[t] <==> c[s] == c[t]);
      assert (s, t) in Pairs(c) && (s, t) !in Pairs(finer);
    }
  }

  method InitialPartition(d: Dfa) returns (c: Classes)
    ensures |c| == |d.states| + 1 && forall s :: 0 <= s < |c| ==> c[s] == Verdict(d, s, [])
  {
    c := [];
    for s := 0 to |d.states|
      invariant |c| == s && forall t :: 0 <= t < s ==> c[t] == Verdict(d, t, [])
    {
      c := c + [if d.states[s].accepting then 2 else 1];
    }
    c := c + [0];
  }

  /** The coarsest stable partition: two states share a class exactly when no word tells them apart. */
  method Partition(d: Dfa) returns (c: Classes)
    requires TargetsInRange(d)
    ensures |c| == |d.states| + 1
    ensures forall s, t :: 0 <= s < |c| && 0 <= t < |c| ==> (c[s] == c[t] <==> Equivalent(d, s, t))
  {
    c := InitialPartition(d);
    while true
      invariant Fits(d, c) && Between(d, c)
      decreases Pairs(c), if Canonical(c) then 0 else 1
    {
      var finer := RefinePartition(d, c);
      if finer == c {
        break;
      }
      RoundProgress(c, finer);
      RefinedBetween(d, c, finer);
      c := finer;
    }
    forall s, t | 0 <= s < |c| && 0 <= t < |c| && c[s] == c[t] ensures Equivalent(d, s, t) {
      forall word ensures Verdict(d, s, word) == Verdict(d, t, word) {
        StableVerdicts(d, c, s, t, word);
      }
    }
  }
}
