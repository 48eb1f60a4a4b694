/** Exact comparison of two weighted-automaton dumps: dimensions, transitions and coefficients must agree, and
    only the numbering of equal coefficient values may differ. */
module NativeRows {
  import opened Wrappers

  datatype Edge = Edge(on: int, target: nat, weight: nat)

  datatype WireState = WireState(edges: seq<Edge>, final: nat)

  /** A dump: header, states, coefficient rows, and the decoder's weights. */
  datatype Wire<W(==)> = Wire(
    format: nat, component: nat, width: nat, bits: nat,
    states: seq<WireState>, coefficients: seq<seq<nat>>, decoder: seq<W>)

  predicate ValidHeader<W>(w: Wire<W>) {
    1 <= w.width <= 64 && 1 <= w.bits <= 64 && forall i :: 0 <= i < |w.coefficients| ==> |w.coefficients[i]| == w.width
  }

  predicate ValidEdge<W>(w: Wire<W>, e: Edge) {
    e.target < |w.states| && e.weight < |w.coefficients|
  }

  predicate ValidState<W>(w: Wire<W>, s: WireState) {
    s.final < |w.coefficients| && forall i :: 0 <= i < |s.edges| ==> ValidEdge(w, s.edges[i])
  }

  predicate Valid<W>(w: Wire<W>) {
    ValidHeader(w) && forall q :: 0 <= q < |w.states| ==> ValidState(w, w.states[q])
  }

  // ----- What a dump means -----

  /** A state with its coefficients in place of their numbers. */
  datatype NormalEdge = NormalEdge(on: int, target: nat, coefficient: seq<nat>)

  datatype NormalState = NormalState(edges: seq<NormalEdge>, final: seq<nat>)

  function NormalEdges<W>(w: Wire<W>, edges: seq<Edge>): seq<NormalEdge>
    requires forall i :: 0 <= i < |edges| ==> ValidEdge(w, edges[i])
  {
    seq(|edges|, i requires 0 <= i < |edges| && ValidEdge(w, edges[i]) => NormalEdge(edges[i].on, edges[i].target, w.coefficients[edges[i].weight]))
  }

  function Normal<W>(w: Wire<W>): seq<NormalState>
    requires Valid(w)
  {
    seq(|w.states|, q requires 0 <= q < |w.states| => NormalState(NormalEdges(w, w.states[q].edges), w.coefficients[w.states[q].final]))
  }

  predicate SameHeader<W>(a: Wire<W>, b: Wire<W>) {
    (a.format, a.component, a.width, a.bits) == (b.format, b.component, b.width, b.bits) && a.decoder == b.decoder
  }

  /** Equal once coefficient numbers are replaced by the coefficients. */
  predicate Equal<W>(a: Wire<W>, b: Wire<W>) {
    Valid(a) && Valid(b) && SameHeader(a, b) && Normal(a) == Normal(b)
  }

  /** Equal dumps agree in every header field, the decoder, and state by state in the final coefficient and the ordered
      edges with their labels, targets and coefficients; only the numbers of the coefficients may differ. */
  lemma EqualExactly<W>(a: Wire<W>, b: Wire<W>)
    requires Valid(a) && Valid(b)
    ensures Equal(a, b) <==>
              && a.format == b.format && a.component == b.component && a.width == b.width && a.bits == b.bits && a.decoder == b.decoder
              && |a.states| == |b.states|
              && forall q :: 0 <= q < |a.states| ==> SameRow(a, b, a.states[q], b.states[q])
  {
    if SameHeader(a, b) && |a.states| == |b.states| {
      forall q | 0 <= q < |a.states| ensures Normal(a)[q] == Normal(b)[q] <==> SameRow(a, b, a.states[q], b.states[q]) {
        assert ValidState(a, a.states[q]) && ValidState(b, b.states[q]);
        SameRowIsNormal(a, b, a.states[q], b.states[q]);
      }
    }
    assert |Normal(a)| == |a.states| && |Normal(b)| == |b.states|;
  }

  ghost predicate SameRow<W>(a: Wire<W>, b: Wire<W>, s: WireState, t: WireState) {
    && ValidState(a, s) && ValidState(b, t)
    && a.coefficients[s.final] == b.coefficients[t.final] && |s.edges| == |t.edges|
    && forall i :: 0 <= i < |s.edges| ==>
         && ValidEdge(a, s.edges[i]) && ValidEdge(b, t.edges[i])
         && s.edges[i].on == t.edges[i].on && s.edges[i].target == t.edges[i].target
         && a.coefficients[s.edges[i].weight] == b.coefficients[t.edges[i].weight]
  }

  lemma SameRowIsNormal<W>(a: Wire<W>, b: Wire<W>, s: WireState, t: WireState)
    requires ValidState(a, s) && ValidState(b, t)
    ensures SameRow(a, b, s, t) <==>
              a.coefficients[s.final] == b.coefficients[t.final] && NormalEdges(a, s.edges) == NormalEdges(b, t.edges)
  {
    if NormalEdges(a, s.edges) == NormalEdges(b, t.edges) {
      assert |NormalEdges(a, s.edges)| == |NormalEdges(b, t.edges)|;
      forall i | 0 <= i < |s.edges|
        ensures s.edges[i].on == t.edges[i].on && s.edges[i].target == t.edges[i].target
        ensures a.coefficients[s.edges[i].weight] == b.coefficients[t.edges[i].weight]
      {
        assert NormalEdges(a, s.edges)[i] == NormalEdges(b, t.edges)[i];
      }
    }
  }

  function EdgeTotal(states: seq<WireState>): nat {
    if states == [] then 0 else EdgeTotal(states[..|states| - 1]) + |states[|states| - 1].edges|
  }

  // ----- The comparison -----

  method Validate<W>(w: Wire<W>) returns (ok: bool)
    ensures ok <==> Valid(w)
  {
    if !(1 <= w.width <= 64) || !(1 <= w.bits <= 64) {
      return false;
    }
    if exists i :: 0 <= i < |w.coefficients| && |w.coefficients[i]| != w.width {
      return false;
    }
    for q := 0 to |w.states|
      invariant forall k :: 0 <= k < q ==> ValidState(w, w.states[k])
    {
      if w.states[q].final >= |w.coefficients| {
        return false;
      }
      for i := 0 to |w.states[q].edges|
        invariant forall k :: 0 <= k < i ==> ValidEdge(w, w.states[q].edges[k])
      {
        var e := w.states[q].edges[i];
        if e.target >= |w.states| || e.weight >= |w.coefficients| {
          assert !ValidState(w, w.states[q]);
          return false;
        }
      }
    }
    ok := true;
  }

  /** Label and target of each pair of edges, then their coefficient values, in order. */
  method CompareEdges<W>(a: Wire<W>, b: Wire<W>, left: seq<Edge>, right: seq<Edge>, count0: nat) returns (ok: bool, count: nat)
    requires |left| == |right|
    requires forall i :: 0 <= i < |left| ==> ValidEdge(a, left[i]) && ValidEdge(b, right[i])
    ensures ok <==> NormalEdges(a, left) == NormalEdges(b, right)
    ensures ok ==> count == count0 + |left|
  {
    count := count0;
    for i := 0 to |left|
      invariant count == count0 + i
      invariant forall k :: 0 <= k < i ==> NormalEdges(a, left)[k] == NormalEdges(b, right)[k]
    {
      if (left[i].on, left[i].target) != (right[i].on, right[i].target) {
        assert NormalEdges(a, left)[i] != NormalEdges(b, right)[i];
        return false, count;
      }
      if a.coefficients[left[i].weight] != b.coefficients[right[i].weight] {
        assert NormalEdges(a, left)[i] != NormalEdges(b, right)[i];
        return false, count;
      }
      count := count + 1;
    }
    ok := true;
  }

  /** Succeeds exactly on equal dumps, with the number of edges compared. */
  method Compare<W(==)>(a: Wire<W>, b: Wire<W>) returns (r: Option<nat>)
    ensures r.Some? <==> Equal(a, b)
    ensures r.Some? ==> r.value == EdgeTotal(a.states)
  {
    var okA := Validate(a);
    if !okA {
      return None;
    }
    var okB := Validate(b);
    if !okB {
      return None;
    }
    if (a.format, a.component, a.width, a.bits) != (b.format, b.component, b.width, b.bits) {
      return None;
    }
    if a.decoder != b.decoder {
      return None;
    }
    if |a.states| != |b.states| {
      assert |Normal(a)| != |Normal(b)|;
      return None;
    }
    var count := 0;
    assert a.states[..0] == [];
    for q := 0 to |a.states|
      invariant count == EdgeTotal(a.states[..q])
      invariant forall k :: 0 <= k < q ==> Normal(a)[k] == Normal(b)[k]
    {
      var left, right := a.states[q], b.states[q];
      assert ValidState(a, left) && ValidState(b, right);
      assert a.states[..q + 1][..q] == a.states[..q];
      if a.coefficients[left.final] != b.coefficients[right.final] {
        assert Normal(a)[q] != Normal(b)[q];
        return None;
      }
      if |left.edges| != |right.edges| {
        assert |Normal(a)[q].edges| != |Normal(b)[q].edges|;
        return None;
      }
      var ok;
      ok, count := CompareEdges(a, b, left.edges, right.edges, count);
      if !ok {
        assert Normal(a)[q].edges != Normal(b)[q].edges;
        return None;
      }
    }
    assert a.states[..|a.states|] == a.states;
    r := Some(count);
  }

  // ----- Equal dumps weigh every word equally -----

  function FirstEdge(edges: seq<Edge>, on: int): Option<Edge> {
    if edges == [] then None else if edges[0].on == on then Some(edges[0]) else FirstEdge(edges[1..], on)
  }

  lemma {:induction false} FirstEdgeMember(edges: seq<Edge>, on: int)
    ensures FirstEdge(edges, on).Some? ==> FirstEdge(edges, on).value in edges
  {
    if edges != [] && edges[0].on != on {
      FirstEdgeMember(edges[1..], on);
    }
  }

  /** The coefficients along a label word from a state, ending with the final coefficient; nothing if the word leaves the automaton. */
  function Weigh<W>(w: Wire<W>, state: nat, word: seq<int>): Option<seq<seq<nat>>>
    requires Valid(w) && state < |w.states|
    decreases |word|
  {
    assert ValidState(w, w.states[state]);
    if word == [] then Some([w.coefficients[w.states[state].final]])
    else
      FirstEdgeMember(w.states[state].edges, word[0]);
      match FirstEdge(w.states[state].edges, word[0])
      case None => None
      case Some(e) =>
        assert ValidEdge(w, e);
        match Weigh(w, e.target, word[1..])
        case None => None
        case Some(rest) => Some([w.coefficients[e.weight]] + rest)
  }

  lemma {:induction false} SameFirstEdge<W>(a: Wire<W>, b: Wire<W>, left: seq<Edge>, right: seq<Edge>, on: int)
    requires forall i :: 0 <= i < |left| ==> ValidEdge(a, left[i])
    requires forall i :: 0 <= i < |right| ==> ValidEdge(b, right[i])
    requires NormalEdges(a, left) == NormalEdges(b, right)
    ensures FirstEdge(left, on).Some? <==> FirstEdge(right, on).Some?
    ensures FirstEdge(left, on).Some? ==>
              var e, f := FirstEdge(left, on).value, FirstEdge(right, on).value;
              ValidEdge(a, e) && ValidEdge(b, f) && e.target == f.target && a.coefficients[e.weight] == b.coefficients[f.weight]
    decreases |left|
  {
    assert |left| == |NormalEdges(a, left)| == |NormalEdges(b, right)| == |right|;
    if left != [] {
      assert NormalEdges(a, left)[0] == NormalEdges(b, right)[0];
      forall i | 0 <= i < |left| - 1
        ensures NormalEdges(a, left[1..])[i] == NormalEdges(b, right[1..])[i]
      {
        assert NormalEdges(a, left)[i + 1] == NormalEdges(b, right)[i + 1];
      }
      SameFirstEdge(a, b, left[1..], right[1..], on);
    }
  }

  /** Every label word from every state has the same coefficients in both. */
  lemma {:induction false} EqualWeighSame<W>(a: Wire<W>, b: Wire<W>, state: nat, word: seq<int>)
    requires Equal(a, b) && state < |a.states|
    ensures state < |b.states| && Weigh(a, state, word) == Weigh(b, state, word)
    decreases |word|
  {
    assert |a.states| == |Normal(a)| == |Normal(b)| == |b.states|;
    assert Normal(a)[state] == Normal(b)[state];
    if word != [] {
      assert ValidState(a, a.states[state]) && ValidState(b, b.states[state]);
      SameFirstEdge(a, b, a.states[state].edges, b.states[state].edges, word[0]);
      match FirstEdge(a.states[state].edges, word[0])
      case None =>
      case Some(e) => EqualWeighSame(a, b, e.target, word[1..]);
    }
  }

  /** Renaming coefficient numbers to ones with equal values is not a difference. */
  lemma RenamedIsEqual<W>(a: Wire<W>, rename: map<nat, nat>, coefficients: seq<seq<nat>>)
    requires Valid(a) && ValidHeader(a.(coefficients := coefficients))
    requires forall i :: 0 <= i < |a.coefficients| ==> i in rename && rename[i] < |coefficients| && coefficients[rename[i]] == a.coefficients[i]
    ensures Equal(a, Renamed(a, rename, coefficients))
  {
    var b := Renamed(a, rename, coefficients);
    forall q | 0 <= q < |a.states| ensures ValidState(b, b.states[q]) && Normal(a)[q].edges == NormalEdges(b, b.states[q].edges) && a.coefficients[a.states[q].final] == b.coefficients[b.states[q].final] {
      assert ValidState(a, a.states[q]);
      forall i | 0 <= i < |a.states[q].edges| ensures ValidEdge(b, b.states[q].edges[i]) {
        assert ValidEdge(a, a.states[q].edges[i]);
      }
    }
    assert Normal(a) == Normal(b);
  }

  function Lookup(rename: map<nat, nat>, i: nat): nat {
    if i in rename then rename[i] else i
  }

  function Renamed<W>(a: Wire<W>, rename: map<nat, nat>, coefficients: seq<seq<nat>>): Wire<W> {
    a.(coefficients := coefficients,
       states := seq(|a.states|, q requires 0 <= q < |a.states| =>
         WireState(seq(|a.states[q].edges|, i requires 0 <= i < |a.states[q].edges| =>
                     Edge(a.states[q].edges[i].on, a.states[q].edges[i].target, Lookup(rename, a.states[q].edges[i].weight))),
                   Lookup(rename, a.states[q].final))))
  }
}
