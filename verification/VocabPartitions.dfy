/** Vocabulary partitions: packed class masks expanded to packed token masks. */
module VocabPartitions {
  import opened Wrappers
  import opened Words

  /** `u32::MAX`, the class of a token that is not in the vocabulary. */
  const NO_CLASS: nat := 0xFFFF_FFFF

  type MaskWords = seq<(nat, u32)>

  datatype VocabPartition = VocabPartition(
    originalToClass: seq<nat>, classes: seq<seq<nat>>, classOutputMasks: seq<MaskWords>)

  // ----- Packed masks as sets -----

  /** Bit `t` of a packed `u32` mask. */
  predicate TokenBit(mask: seq<u32>, t: nat) {
    t / 32 < |mask| && Has(mask[t / 32], t % 32)
  }

  /** Bit `c` of a packed `u64` mask. */
  predicate ClassBit(mask: seq<u64>, c: nat) {
    c / 64 < |mask| && Has(mask[c / 64], c % 64)
  }

  /** Bit `t` of a sparse list of mask words. */
  ghost predicate SparseBit(words: MaskWords, t: nat) {
    exists i :: 0 <= i < |words| && words[i].0 == t / 32 && Has(words[i].1, t % 32)
  }

  ghost predicate OutputMaskOf(words: MaskWords, members: seq<nat>) {
    forall t: nat :: SparseBit(words, t) <==> t in members
  }

  function MaskLen(p: VocabPartition): nat { (|p.originalToClass| + 31) / 32 }

  ghost predicate Valid(p: VocabPartition) {
    && |p.classOutputMasks| == |p.classes|
    && (forall c :: 0 <= c < |p.classes| ==> OutputMaskOf(p.classOutputMasks[c], p.classes[c]))
    && (forall c, i :: 0 <= c < |p.classes| && 0 <= i < |p.classOutputMasks[c]| ==> p.classOutputMasks[c][i].0 < MaskLen(p))
  }

  // ----- Building the run-merged masks -----

  ghost predicate WordOfSome(members: seq<nat>, word: nat) {
    exists j :: 0 <= j < |members| && word == members[j] / 32
  }

  /** One class's mask words: a token in the same word as the one before is merged into that word. */
  method OutputMask(members: seq<nat>) returns (words: MaskWords)
    ensures OutputMaskOf(words, members)
    ensures forall i :: 0 <= i < |words| ==> WordOfSome(members, words[i].0)
  {
    words := [];
    assert members[..0] == [];
    for i := 0 to |members|
      invariant OutputMaskOf(words, members[..i])
      invariant forall k :: 0 <= k < |words| ==> WordOfSome(members, words[k].0)
    {
      var token := members[i];
      var word, bit := token / 32, Bit32(token % 32);
      ghost var before := words;
      var last := |words| - 1;
      if words != [] && words[last].0 == word {
        words := words[last := (word, Or32(words[last].1, bit))];
      } else {
        words := words + [(word, bit)];
      }
      forall t: nat
        ensures SparseBit(words, t) <==> SparseBit(before, t) || t == token
      {
        MergedBit(before, words, token, t);
      }
      assert members[..i + 1] == members[..i] + [token];
    }
    assert members[..|members|] == members;
  }

  lemma MergedBit(before: MaskWords, words: MaskWords, token: nat, t: nat)
    requires if before != [] && before[|before| - 1].0 == token / 32
             then words == before[|before| - 1 := (token / 32, Or32(before[|before| - 1].1, Bit32(token % 32)))]
             else words == before + [(token / 32, Bit32(token % 32))]
    ensures SparseBit(words, t) <==> SparseBit(before, t) || t == token
  {
    HasPow2(token % 32, t % 32);
    var last := |before| - 1;
    if before != [] && before[last].0 == token / 32 {
      HasOr(before[last].1, Bit32(token % 32), t % 32);
      if SparseBit(before, t) {
        var i :| 0 <= i < |before| && before[i].0 == t / 32 && Has(before[i].1, t % 32);
        assert words[i].0 == t / 32 && Has(words[i].1, t % 32);
      }
      if t == token {
        assert words[last].0 == t / 32 && Has(words[last].1, t % 32);
      }
    } else {
      if SparseBit(before, t) {
        var i :| 0 <= i < |before| && before[i].0 == t / 32 && Has(before[i].1, t % 32);
        assert words[i] == before[i];
      }
      if t == token {
        assert words[|before|].0 == t / 32 && Has(words[|before|].1, t % 32);
      }
    }
  }

  // ----- The dense map -----

  ghost predicate DisjointClasses(classes: seq<seq<nat>>) {
    forall c, d, t :: 0 <= c < |classes| && 0 <= d < |classes| && t in classes[c] && t in classes[d] ==> c == d
  }

  /** `c` is the last class that lists the token. */
  ghost predicate LastListing(classes: seq<seq<nat>>, t: nat, c: nat) {
    c < |classes| && t in classes[c] && forall d :: c < d < |classes| ==> t !in classes[d]
  }

  /** Every token's entry is the last class that lists it; where none does, it is `NO_CLASS`. Classes may overlap. */
  ghost predicate LastClasses(classes: seq<seq<nat>>, dense: seq<nat>) {
    forall t :: 0 <= t < |dense| ==>
      LastListing(classes, t, dense[t]) || (dense[t] == NO_CLASS && forall c :: 0 <= c < |classes| ==> t !in classes[c])
  }

  /** Class of each token; the last class listing a token wins. */
  method DenseMap(classes: seq<seq<nat>>, maxTokenId: nat) returns (dense: seq<nat>)
    requires forall c, t :: 0 <= c < |classes| && t in classes[c] ==> t <= maxTokenId
    ensures |dense| == maxTokenId + 1 && LastClasses(classes, dense)
  {
    dense := seq(maxTokenId + 1, _ => NO_CLASS);
    for c := 0 to |classes|
      invariant |dense| == maxTokenId + 1
      invariant forall t :: 0 <= t < |dense| ==> Assigned(classes, c, dense[t], t)
    {
      ghost var before := dense;
      for k := 0 to |classes[c]|
        invariant |dense| == maxTokenId + 1
        invariant forall t :: 0 <= t < |dense| ==> dense[t] == if t in classes[c][..k] then c else before[t]
      {
        var token := classes[c][k];
        assert token in classes[c];
        dense := dense[token := c];
        assert classes[c][..k + 1] == classes[c][..k] + [token];
      }
      assert classes[c][..|classes[c]|] == classes[c];
      forall t | 0 <= t < |dense|
        ensures Assigned(classes, c + 1, dense[t], t)
      {
        assert Assigned(classes, c, before[t], t);
      }
    }
  }

  /** After the first `count` classes, `slot` is the class of `t`. */
  ghost predicate Assigned(classes: seq<seq<nat>>, count: nat, slot: nat, t: nat) {
    count <= |classes| &&
    if exists c :: 0 <= c < count && t in classes[c]
    then slot < count && t in classes[slot] && forall c :: slot < c < count ==> t !in classes[c]
    else slot == NO_CLASS
  }

  /** The partition, as compiled from grouped classes. A grouped-only map is made dense here. */
  method Compile(internalToOriginals: seq<seq<nat>>, originalToInternal: seq<nat>, maxTokenId: nat) returns (p: VocabPartition)
    requires forall c, t :: 0 <= c < |internalToOriginals| && t in internalToOriginals[c] ==>
               t <= maxTokenId && (originalToInternal != [] ==> t < |originalToInternal|)
    ensures Valid(p) && p.classes == internalToOriginals
    ensures originalToInternal != [] || internalToOriginals == [] ==> p.originalToClass == originalToInternal
    ensures originalToInternal == [] && internalToOriginals != [] ==>
              |p.originalToClass| == maxTokenId + 1 && LastClasses(p.classes, p.originalToClass)
    ensures originalToInternal == [] && internalToOriginals != [] && |p.classes| <= 0xFFFF_FFFF ==>
              forall c: nat, t: nat :: ClassOf(p, t) == Some(c) <==> LastListing(p.classes, t, c)
    ensures originalToInternal == [] && internalToOriginals != [] && DisjointClasses(p.classes) && |p.classes| <= 0xFFFF_FFFF ==>
              ClassOfAgrees(p)
  {
    var classes := internalToOriginals;
    var dense := originalToInternal;
    if originalToInternal == [] && classes != [] {
      dense := DenseMap(classes, maxTokenId);
    }
    var masks: seq<MaskWords> := [];
    for c := 0 to |classes|
      invariant |masks| == c && forall k :: 0 <= k < c ==> OutputMaskOf(masks[k], classes[k])
      invariant forall k, i :: 0 <= k < c && 0 <= i < |masks[k]| ==> masks[k][i].0 < (|dense| + 31) / 32
    {
      var words := OutputMask(classes[c]);
      forall i | 0 <= i < |words| ensures words[i].0 < (|dense| + 31) / 32 {
        var j :| 0 <= j < |classes[c]| && words[i].0 == classes[c][j] / 32;
        assert classes[c][j] in classes[c] && classes[c][j] < |dense|;
      }
      masks := masks + [words];
    }
    p := VocabPartition(dense, classes, masks);
    if originalToInternal == [] && classes != [] && |classes| <= NO_CLASS {
      forall c: nat, t: nat ensures ClassOf(p, t) == Some(c) <==> LastListing(classes, t, c) {
        LastIsUnique(classes, dense, t, c);
      }
    }
  }

  lemma LastIsUnique(classes: seq<seq<nat>>, dense: seq<nat>, t: nat, c: nat)
    requires LastClasses(classes, dense) && |classes| <= NO_CLASS
    requires LastListing(classes, t, c) ==> t < |dense|
    ensures LastListing(classes, t, c) <==> t < |dense| && dense[t] == c && c != NO_CLASS
  {
  }

  /** Class containing a token, if it is in the vocabulary. */
  function ClassOf(p: VocabPartition, token: nat): Option<nat> {
    if token < |p.originalToClass| && p.originalToClass[token] != NO_CLASS then Some(p.originalToClass[token]) else None
  }

  /** The dense map and the grouped classes are the same partition. */
  ghost predicate ClassOfAgrees(p: VocabPartition) {
    forall c: nat, t: nat :: ClassOf(p, t) == Some(c) <==> c < |p.classes| && t in p.classes[c]
  }

  // ----- Expansion -----

  /** Token `t` is in some selected class. Bits at or above the number of classes select nothing. */
  ghost predicate Expanded(p: VocabPartition, mask: seq<u64>, t: nat) {
    exists c :: 0 <= c < |p.classes| && ClassBit(mask, c) && t in p.classes[c]
  }

  method OrMask(words: MaskWords, out: array<u32>)
    requires forall i :: 0 <= i < |words| ==> words[i].0 < out.Length
    modifies out
    ensures forall t: nat :: TokenBit(out[..], t) <==> old(TokenBit(out[..], t)) || SparseBit(words, t)
  {
    for i := 0 to |words|
      invariant forall t: nat :: TokenBit(out[..], t) <==> old(TokenBit(out[..], t)) || SparseBit(words[..i], t)
    {
      var (word, bits) := words[i];
      label Before:
      out[word] := Or32(out[word], bits);
      forall t: nat
        ensures TokenBit(out[..], t) <==> old@Before(TokenBit(out[..], t)) || (word == t / 32 && Has(bits, t % 32))
      {
        HasOr(old@Before(out[word]), bits, t % 32);
      }
      forall t: nat
        ensures SparseBit(words[..i + 1], t) <==> SparseBit(words[..i], t) || (word == t / 32 && Has(bits, t % 32))
      {
        var longer := words[..i + 1];
        assert longer[i] == words[i];
        assert forall k :: 0 <= k < i ==> longer[k] == words[..i][k];
      }
    }
    assert words[..|words|] == words;
  }

  /** Token `t` is in a selected class below `base`. */
  ghost predicate ExpandedBelow(p: VocabPartition, mask: seq<u64>, base: nat, t: nat) {
    exists c :: 0 <= c < |p.classes| && ClassBit(mask, c) && t in p.classes[c] && c < base
  }

  /** As `ExpandedBelow`, or `t` is in one of the next 64 classes whose bit is no longer in `selected`. */
  ghost predicate ExpandedSoFar(p: VocabPartition, mask: seq<u64>, base: nat, selected: nat, t: nat) {
    exists c :: 0 <= c < |p.classes| && ClassBit(mask, c) && t in p.classes[c] && (c < base || (c < base + 64 && !Has(selected, c - base)))
  }

  method ExpandWord(p: VocabPartition, ghost mask: seq<u64>, ghost index: nat, word: u64, classBase: nat, out: array<u32>)
    requires Valid(p) && out.Length >= MaskLen(p) && index < |mask| && word == mask[index] && classBase == 64 * index
    requires forall t: nat :: TokenBit(out[..], t) <==> ExpandedBelow(p, mask, classBase, t)
    modifies out
    ensures forall t: nat :: TokenBit(out[..], t) <==> ExpandedBelow(p, mask, classBase + 64, t)
  {
    var selected := word;
    forall t: nat ensures ExpandedSoFar(p, mask, classBase, word, t) <==> ExpandedBelow(p, mask, classBase, t) {
      WordStart(p, mask, index, t);
    }
    while selected != 0
      invariant forall j: nat :: Has(selected, j) ==> Has(word, j)
      invariant forall t: nat :: TokenBit(out[..], t) <==> ExpandedSoFar(p, mask, classBase, selected, t)
      decreases selected
    {
      var bit := TrailingZeros(selected);
      var classId := classBase + bit;
      HasTrailingZeros(selected, 0);
      HasBelowWidth(selected, 64, bit);
      if classId >= |p.classes| {
        break;
      }
      ghost var previous := selected;
      OrMask(p.classOutputMasks[classId], out);
      ClearLowest(selected, 0);
      selected := And64(selected, selected - 1);
      forall t: nat
        ensures ExpandedSoFar(p, mask, classBase, selected, t) <==> ExpandedSoFar(p, mask, classBase, previous, t) || t in p.classes[classId]
      {
        NextClass(p, mask, index, previous, classId, t);
      }
      forall j: nat | Has(selected, j) ensures Has(word, j) { ClearLowest(previous, j); }
    }
    forall t: nat ensures ExpandedBelow(p, mask, classBase + 64, t) <==> ExpandedSoFar(p, mask, classBase, selected, t) {
      WordDone(p, mask, index, selected, t);
    }
  }

  lemma WordBit(mask: seq<u64>, index: nat, c: nat)
    requires index < |mask| && 64 * index <= c < 64 * index + 64
    ensures ClassBit(mask, c) <==> Has(mask[index], c - 64 * index)
  {
    assert c / 64 == index && c % 64 == c - 64 * index;
  }

  lemma WordStart(p: VocabPartition, mask: seq<u64>, index: nat, t: nat)
    requires index < |mask|
    ensures ExpandedSoFar(p, mask, 64 * index, mask[index], t) <==> ExpandedBelow(p, mask, 64 * index, t)
  {
    var base := 64 * index;
    if ExpandedSoFar(p, mask, base, mask[index], t) {
      var c :| 0 <= c < |p.classes| && ClassBit(mask, c) && t in p.classes[c] && (c < base || (c < base + 64 && !Has(mask[index], c - base)));
      if c >= base {
        WordBit(mask, index, c);
      }
    }
  }

  lemma OneBitLess(previous: u64, bit: nat)
    requires previous != 0 && bit == TrailingZeros(previous)
    ensures bit < 64 && Has(previous, bit)
    ensures forall j: nat :: Has(And(previous, previous - 1), j) <==> Has(previous, j) && j != bit
  {
    HasTrailingZeros(previous, 0);
    HasBelowWidth(previous, 64, bit);
    forall j: nat ensures Has(And(previous, previous - 1), j) <==> Has(previous, j) && j != bit {
      ClearLowest(previous, j);
    }
  }

  lemma OneClassMore(p: VocabPartition, mask: seq<u64>, base: nat, previous: nat, selected: nat, bit: nat, t: nat)
    requires bit < 64 && base + bit < |p.classes| && ClassBit(mask, base + bit)
    requires forall j: nat :: Has(selected, j) <==> Has(previous, j) && j != bit
    ensures ExpandedSoFar(p, mask, base, selected, t) <==> ExpandedSoFar(p, mask, base, previous, t) || t in p.classes[base + bit]
  {
    if ExpandedSoFar(p, mask, base, selected, t) {
      var c :| 0 <= c < |p.classes| && ClassBit(mask, c) && t in p.classes[c] && (c < base || (c < base + 64 && !Has(selected, c - base)));
      assert c >= base && c != base + bit ==> !Has(previous, c - base);
    }
    if ExpandedSoFar(p, mask, base, previous, t) {
      var c :| 0 <= c < |p.classes| && ClassBit(mask, c) && t in p.classes[c] && (c < base || (c < base + 64 && !Has(previous, c - base)));
      assert c < base || !Has(selected, c - base);
    }
    if t in p.classes[base + bit] {
      assert !Has(selected, base + bit - base);
    }
  }

  lemma NextClass(p: VocabPartition, mask: seq<u64>, index: nat, previous: u64, classId: nat, t: nat)
    requires index < |mask| && previous != 0 && classId == 64 * index + TrailingZeros(previous) && classId < |p.classes|
    requires forall j: nat :: Has(previous, j) ==> Has(mask[index], j)
    ensures ExpandedSoFar(p, mask, 64 * index, And(previous, previous - 1), t) <==> ExpandedSoFar(p, mask, 64 * index, previous, t) || t in p.classes[classId]
  {
    var bit := TrailingZeros(previous);
    OneBitLess(previous, bit);
    WordBit(mask, index, classId);
    OneClassMore(p, mask, 64 * index, previous, And(previous, previous - 1), bit, t);
  }

  lemma WordDone(p: VocabPartition, mask: seq<u64>, index: nat, selected: nat, t: nat)
    requires selected == 0 || 64 * index + TrailingZeros(selected) >= |p.classes|
    ensures ExpandedBelow(p, mask, 64 * index + 64, t) <==> ExpandedSoFar(p, mask, 64 * index, selected, t)
  {
    var base := 64 * index;
    if ExpandedBelow(p, mask, base + 64, t) {
      var c :| 0 <= c < |p.classes| && ClassBit(mask, c) && t in p.classes[c] && c < base + 64;
      if c >= base {
        if selected == 0 {
          HasZero(c - base);
        } else {
          HasTrailingZeros(selected, c - base);
        }
        assert !Has(selected, c - base);
      }
    }
  }

  /** The whole supplied buffer is overwritten, words beyond the needed length included. */
  method FillExpandedMask(p: VocabPartition, internalMask: seq<u64>, out: array<u32>)
    requires Valid(p) && out.Length >= MaskLen(p)
    modifies out
    ensures forall t: nat :: TokenBit(out[..], t) <==> Expanded(p, internalMask, t)
  {
    for i := 0 to out.Length
      invariant forall k :: 0 <= k < i ==> out[k] == 0
    {
      out[i] := 0;
    }
    forall t: nat ensures !TokenBit(out[..], t) { HasZero(t % 32); }
    var index := 0;
    while index < |internalMask|
      invariant 0 <= index <= |internalMask|
      invariant forall t: nat :: TokenBit(out[..], t) <==> ExpandedBelow(p, internalMask, 64 * index, t)
    {
      var classBase := index * 64;
      if classBase >= |p.classes| {
        break;
      }
      ExpandWord(p, internalMask, index, internalMask[index], classBase, out);
      index := index + 1;
    }
    forall t: nat ensures Expanded(p, internalMask, t) <==> ExpandedBelow(p, internalMask, 64 * index, t) {
      if Expanded(p, internalMask, t) {
        var c :| 0 <= c < |p.classes| && ClassBit(internalMask, c) && t in p.classes[c];
        assert c / 64 < |internalMask|;
        assert c < 64 * index;
      }
    }
  }

  method ExpandMask(p: VocabPartition, internalMask: seq<u64>) returns (out: array<u32>)
    requires Valid(p)
    ensures |p.originalToClass| <= 32 * out.Length < |p.originalToClass| + 32
    ensures forall t: nat :: TokenBit(out[..], t) <==> Expanded(p, internalMask, t)
  {
    out := new u32[MaskLen(p)](_ => 0);
    FillExpandedMask(p, internalMask, out);
  }

  // ----- What expansion means -----

  /** Through `ClassOf`: a token's bit is the bit of its class, when that is an actual class. */
  lemma ExpandedByClass(p: VocabPartition, mask: seq<u64>, t: nat)
    requires ClassOfAgrees(p)
    ensures Expanded(p, mask, t) <==> ClassOf(p, t).Some? && ClassOf(p, t).value < |p.classes| && ClassBit(mask, ClassOf(p, t).value)
  {
    if Expanded(p, mask, t) {
      var c :| 0 <= c < |p.classes| && ClassBit(mask, c) && t in p.classes[c];
      assert ClassOf(p, t) == Some(c);
    }
  }

  function OrMasks(a: seq<u64>, b: seq<u64>): seq<u64>
    requires |a| == |b|
  {
    seq(|a|, i requires 0 <= i < |a| => Or64(a[i], b[i]))
  }

  function AndMasks(a: seq<u64>, b: seq<u64>): seq<u64>
    requires |a| == |b|
  {
    seq(|a|, i requires 0 <= i < |a| => And64(a[i], b[i]))
  }

  /** Expansion commutes with union, and with intersection when the classes are disjoint. */
  lemma ExpansionCommutes(p: VocabPartition, a: seq<u64>, b: seq<u64>, t: nat)
    requires |a| == |b|
    ensures Expanded(p, OrMasks(a, b), t) <==> Expanded(p, a, t) || Expanded(p, b, t)
    ensures DisjointClasses(p.classes) ==> (Expanded(p, AndMasks(a, b), t) <==> Expanded(p, a, t) && Expanded(p, b, t))
  {
    forall c: nat
      ensures ClassBit(OrMasks(a, b), c) <==> ClassBit(a, c) || ClassBit(b, c)
      ensures ClassBit(AndMasks(a, b), c) <==> ClassBit(a, c) && ClassBit(b, c)
    {
      if c / 64 < |a| {
        HasOr(a[c / 64], b[c / 64], c % 64);
        HasAnd(a[c / 64], b[c / 64], c % 64);
      }
    }
    if Expanded(p, a, t) && Expanded(p, b, t) && DisjointClasses(p.classes) {
      var c :| 0 <= c < |p.classes| && ClassBit(a, c) && t in p.classes[c];
      var d :| 0 <= d < |p.classes| && ClassBit(b, d) && t in p.classes[d];
      assert c == d;
      assert ClassBit(AndMasks(a, b), c);
    }
  }
}
