/** What a pass of the search against the exact oracle says about the machine, path by path. */
module PassedMachines {
  import opened Wrappers
  import opened Cfg
  import opened Cases
  import opened Words
  import opened ExactOracle
  import opened MaskMachines
  import opened TokenOrder
  import opened OracleChecker

  // ----- Every spelling is judged somewhere -----

  ghost function EarlierIn(paths: set<Path>, p: Path): set<Path> {
    set x | x in paths && Before(x, p)
  }

  /** Every wanted path has a first path with its spelling. */
  lemma {:induction false} FirstExists(c: Case, tokens: seq<seq<Byte>>, path: Path, longest: nat) returns (first: Path)
    requires Wanted(c, tokens, path) && |path| <= longest
    ensures First(c, tokens, first) && Spelling(tokens, first) == Spelling(tokens, path)
    decreases EarlierIn(PathsUpTo(|tokens|, longest), path)
  {
    if First(c, tokens, path) {
      first := path;
    } else {
      var q :| Wanted(c, tokens, q) && Spelling(tokens, q) == Spelling(tokens, path) && Before(q, path);
      var all := PathsUpTo(|tokens|, longest);
      assert |q| <= |path|;
      PathsComplete(|tokens|, longest, q);
      forall x | x in EarlierIn(all, q) ensures x in EarlierIn(all, path) {
        BeforeTransitive(x, q, path);
      }
      NotBeforeItself(q);
      assert q in EarlierIn(all, path) && q !in EarlierIn(all, q);
      first := FirstExists(c, tokens, q, longest);
    }
  }

  lemma FirstInit(c: Case, tokens: seq<seq<Byte>>, p: Path, t: nat)
    requires First(c, tokens, p + [t])
    ensures First(c, tokens, p) && t < |tokens|
  {
    WantedInit(c, tokens, p, t);
    WantedExtends(c, tokens, p, t);
    forall q | Wanted(c, tokens, q) && Spelling(tokens, q) == Spelling(tokens, p) ensures !Before(q, p) {
      WantedExtends(c, tokens, q, t);
      BeforeExtends(q, p, t, t);
    }
  }

  /** A right state allows the tokens that make wanted paths. */
  lemma ExactAllows<S(!new)>(m: MaskMachine<S>, c: Case, tokens: seq<seq<Byte>>, p: Path, t: nat)
    requires AllowedPath(m, tokens, c.bound, p) && Legal(tokens, p) && Run(m, p).Some?
    requires ExactAt(m, c, tokens, Run(m, p).value, Spelling(tokens, p))
    ensures AllowedPath(m, tokens, c.bound, p + [t]) <==> Wanted(c, tokens, p + [t])
  {
    ExtendAllowed(m, tokens, c.bound, p, t);
    WantedExtends(c, tokens, p, t);
  }

  /** A machine that passed allows every first path. */
  lemma {:induction false} FirstIsAllowed<S(!new)>(m: MaskMachine<S>, c: Case, tokens: seq<seq<Byte>>, path: Path)
    requires Passed(m, c, tokens) && First(c, tokens, path)
    ensures AllowedPath(m, tokens, c.bound, path)
    decreases |path|
  {
    if path != [] {
      var init, last := Init(path), Last(path);
      InitLast(path);
      FirstInit(c, tokens, init, last);
      FirstIsAllowed(m, c, tokens, init);
      ExactAllows(m, c, tokens, init, last);
    }
  }

  /** Some allowed path spells the bytes, and the state there is right. */
  ghost predicate RightSomewhere<S(!new)>(m: MaskMachine<S>, c: Case, tokens: seq<seq<Byte>>, word: seq<Byte>) {
    exists path :: AllowedPath(m, tokens, c.bound, path) && Legal(tokens, path) && Spelling(tokens, path) == word
      && Run(m, path).Some? && ExactAt(m, c, tokens, Run(m, path).value, word)
  }

  /** Every viable byte string within the bound that tokens can spell is right at some allowed path that spells it. */
  ghost predicate CheckedEverywhere<S(!new)>(m: MaskMachine<S>, c: Case, tokens: seq<seq<Byte>>) {
    forall path :: Wanted(c, tokens, path) ==> RightSomewhere(m, c, tokens, Spelling(tokens, path))
  }

  /** Whatever the vocabulary, a pass checked every viable spelling. */
  lemma PassChecksEverywhere<S(!new)>(m: MaskMachine<S>, c: Case, tokens: seq<seq<Byte>>)
    requires Passed(m, c, tokens)
    ensures CheckedEverywhere(m, c, tokens)
  {
    forall path | Wanted(c, tokens, path) ensures RightSomewhere(m, c, tokens, Spelling(tokens, path)) {
      var first := FirstExists(c, tokens, path, |path|);
      FirstIsAllowed(m, c, tokens, first);
    }
  }

  /** An allowed path at which the machine stopped or is wrong. */
  ghost predicate WrongAt<S(!new)>(m: MaskMachine<S>, c: Case, tokens: seq<seq<Byte>>, path: Path) {
    && AllowedPath(m, tokens, c.bound, path) && Legal(tokens, path)
    && (Run(m, path).None? || !ExactAt(m, c, tokens, Run(m, path).value, Spelling(tokens, path)))
  }

  /** Of the prefixes of a first path, the shortest that does not pass is wrong, or a commit after it is. */
  lemma {:induction false} WrongPrefix<S(!new)>(m: MaskMachine<S>, c: Case, tokens: seq<seq<Byte>>, path: Path)
    requires First(c, tokens, path)
    ensures (AllowedPath(m, tokens, c.bound, path) && PassesAt(m, c, tokens, path)) || exists wrong :: WrongAt(m, c, tokens, wrong)
    decreases |path|
  {
    if path != [] {
      var init, last := Init(path), Last(path);
      InitLast(path);
      FirstInit(c, tokens, init, last);
      WrongPrefix(m, c, tokens, init);
      if AllowedPath(m, tokens, c.bound, init) && PassesAt(m, c, tokens, init) {
        ExactAllows(m, c, tokens, init, last);
      }
    }
    if AllowedPath(m, tokens, c.bound, path) && !PassesAt(m, c, tokens, path) {
      WrongHere(m, c, tokens, path);
    }
  }

  lemma WrongHere<S(!new)>(m: MaskMachine<S>, c: Case, tokens: seq<seq<Byte>>, path: Path)
    requires AllowedPath(m, tokens, c.bound, path) && Legal(tokens, path) && !PassesAt(m, c, tokens, path)
    ensures exists wrong :: WrongAt(m, c, tokens, wrong)
  {
    if Run(m, path).Some? && ExactAt(m, c, tokens, Run(m, path).value, Spelling(tokens, path)) {
      var t: nat :| t < |tokens| && WantedOf(c, tokens)(path + [t]) && m.commit(Run(m, path).value, t).None?;
      var longer := path + [t];
      assert longer[..|path|] == path && longer[|path|] == t;
      ExactAllows(m, c, tokens, path, t);
      assert WrongAt(m, c, tokens, longer);
    } else {
      assert WrongAt(m, c, tokens, path);
    }
  }

  /** A failure is real: some allowed path shows it. */
  lemma FailureIsReal<S(!new)>(m: MaskMachine<S>, c: Case, tokens: seq<seq<Byte>>)
    requires !Passed(m, c, tokens)
    ensures exists wrong :: WrongAt(m, c, tokens, wrong)
  {
    var path :| First(c, tokens, path) && !PassesAt(m, c, tokens, path);
    WrongPrefix(m, c, tokens, path);
  }

  // ----- When a pass speaks for every path -----

  /** No two token paths within the bound have the same spelling; without empty tokens these are finitely many. */
  ghost predicate UniqueWithin(tokens: seq<seq<Byte>>, bound: nat) {
    forall p, q :: Legal(tokens, p) && Legal(tokens, q) && |Spelling(tokens, p)| <= bound && Spelling(tokens, p) == Spelling(tokens, q) ==> p == q
  }

  /** The machine follows every allowed path, and is right at its end. */
  ghost predicate ExactThroughout<S(!new)>(m: MaskMachine<S>, c: Case, tokens: seq<seq<Byte>>) {
    forall path :: AllowedPath(m, tokens, c.bound, path) ==>
      Legal(tokens, path) && Run(m, path).Some? && ExactAt(m, c, tokens, Run(m, path).value, Spelling(tokens, path))
  }

  lemma CheckedHere<S(!new)>(m: MaskMachine<S>, c: Case, tokens: seq<seq<Byte>>, path: Path)
    requires CheckedEverywhere(m, c, tokens) && UniqueWithin(tokens, c.bound) && Wanted(c, tokens, path)
    ensures AllowedPath(m, tokens, c.bound, path) && Run(m, path).Some?
    ensures ExactAt(m, c, tokens, Run(m, path).value, Spelling(tokens, path))
  {
    assert RightSomewhere(m, c, tokens, Spelling(tokens, path));
    var checked :| AllowedPath(m, tokens, c.bound, checked) && Legal(tokens, checked) && Spelling(tokens, checked) == Spelling(tokens, path)
      && Run(m, checked).Some? && ExactAt(m, c, tokens, Run(m, checked).value, Spelling(tokens, path));
    assert checked == path;
  }

  /** When spellings determine paths within the bound, a checked machine allows exactly the paths whose spelling is
      viable, and is right after each of them. */
  lemma {:induction false} PassedMachineIsExact<S(!new)>(m: MaskMachine<S>, c: Case, tokens: seq<seq<Byte>>, path: Path)
    requires CheckedEverywhere(m, c, tokens) && UniqueWithin(tokens, c.bound)
    ensures AllowedPath(m, tokens, c.bound, path) <==> Wanted(c, tokens, path)
    ensures AllowedPath(m, tokens, c.bound, path) ==>
              Legal(tokens, path) && Run(m, path).Some? && ExactAt(m, c, tokens, Run(m, path).value, Spelling(tokens, path))
    decreases |path|
  {
    if path != [] {
      var init, last := Init(path), Last(path);
      InitLast(path);
      PassedMachineIsExact(m, c, tokens, init);
      if Wanted(c, tokens, path) {
        WantedInit(c, tokens, init, last);
      }
      if AllowedPath(m, tokens, c.bound, init) {
        ExactAllows(m, c, tokens, init, last);
      }
    }
    if Wanted(c, tokens, path) {
      CheckedHere(m, c, tokens, path);
    }
  }

  // ----- Two paths with one spelling: a wrong machine passes -----

  ghost function Within(tokens: seq<seq<Byte>>, w: seq<Byte>, x: Path): nat -> bool {
    (t: nat) => t < |tokens| && Legal(tokens, x) && Spelling(tokens, x) + tokens[t] <= w
  }

  /** The packed mask of the tokens for which `bit` holds. */
  function MaskOf(bit: nat -> bool, n: nat): seq<u32> {
    seq(n / 32 + 1, i requires 0 <= i < n / 32 + 1 => WordOf(bit, 32 * i, 32))
  }

  lemma BitAt(mask: seq<u32>, i: nat, r: nat)
    requires r < 32
    ensures Allowed(mask, 32 * i + r) <==> i < |mask| && Has(mask[i], r)
  {
    assert (32 * i + r) / 32 == i && (32 * i + r) % 32 == r;
  }

  lemma MaskOfBit(bit: nat -> bool, n: nat, i: nat, r: nat)
    requires r < 32 && (bit(32 * i + r) ==> i < n / 32 + 1)
    ensures i < |MaskOf(bit, n)| && Has(MaskOf(bit, n)[i], r) <==> bit(32 * i + r)
  {
    var mask := MaskOf(bit, n);
    if i < |mask| {
      assert mask[i] == WordOf(bit, 32 * i, 32);
      HasWordOf(bit, 32 * i, 32, r);
    }
  }

  lemma MaskOfBits(bit: nat -> bool, n: nat)
    requires forall t: nat :: bit(t) ==> t < n
    ensures forall t: nat :: Allowed(MaskOf(bit, n), t) <==> bit(t)
  {
    forall t: nat ensures Allowed(MaskOf(bit, n), t) <==> bit(t) {
      var i, r := t / 32, t % 32;
      assert t == 32 * i + r;
      MaskOfBit(bit, n, i, r);
      BitAt(MaskOf(bit, n), i, r);
    }
  }

  /** The machine whose state is the path so far: right for the grammar of the one word `w`, but at the path `q`,
      where it does not accept. */
  ghost function PathMachine(tokens: seq<seq<Byte>>, w: seq<Byte>, q: Path): MaskMachine<Path> {
    MaskMachine(
      [],
      (x: Path, t: nat) => Some(x + [t]),
      (x: Path) => MaskOf(Within(tokens, w, x), |tokens|),
      (x: Path) => x != q && Legal(tokens, x) && Spelling(tokens, x) == w)
  }

  lemma {:induction false} PathMachineRuns(tokens: seq<seq<Byte>>, w: seq<Byte>, q: Path, x: Path)
    ensures Run(PathMachine(tokens, w, q), x) == Some(x)
    decreases |x|
  {
    if x != [] {
      PathMachineRuns(tokens, w, q, Init(x));
      InitLast(x);
    }
  }

  lemma PathMachineMask(tokens: seq<seq<Byte>>, w: seq<Byte>, q: Path, x: Path)
    requires Legal(tokens, x)
    ensures forall t: nat :: Allowed(PathMachine(tokens, w, q).mask(x), t) <==> t < |tokens| && Spelling(tokens, x) + tokens[t] <= w
  {
    MaskOfBits(Within(tokens, w, x), |tokens|);
  }

  lemma PathMachineRight(tokens: seq<seq<Byte>>, bound: nat, w: seq<Byte>, q: Path, x: Path)
    requires Legal(tokens, x)
    ensures ExactAt(PathMachine(tokens, w, q), OneWord(bound, w), tokens, x, Spelling(tokens, x)) <==> x != q || Spelling(tokens, x) != w
  {
    OneWordLanguage(bound, w);
    PathMachineMask(tokens, w, q, x);
  }

  lemma {:induction false} PathMachineAllows(tokens: seq<seq<Byte>>, bound: nat, w: seq<Byte>, q: Path, x: Path)
    requires Legal(tokens, x) && Spelling(tokens, x) <= w && |w| <= bound
    ensures AllowedPath(PathMachine(tokens, w, q), tokens, bound, x)
    decreases |x|
  {
    if x != [] {
      var init, last := Init(x), Last(x);
      assert Spelling(tokens, x) == Spelling(tokens, init) + tokens[last];
      PathMachineAllows(tokens, bound, w, q, init);
      PathMachineRuns(tokens, w, q, init);
      PathMachineMask(tokens, w, q, init);
    }
  }

  /** The failing family: for any two paths with one spelling within the bound, a machine passes that is wrong at the
      second of them. */
  lemma SharedSpellingMissed(tokens: seq<seq<Byte>>, bound: nat, p: Path, q: Path)
    requires Legal(tokens, p) && Legal(tokens, q) && Spelling(tokens, p) == Spelling(tokens, q) && |Spelling(tokens, q)| <= bound
    requires Before(p, q)
    ensures var w := Spelling(tokens, q);
            Passed(PathMachine(tokens, w, q), OneWord(bound, w), tokens) && WrongAt(PathMachine(tokens, w, q), OneWord(bound, w), tokens, q)
  {
    var w := Spelling(tokens, q);
    var m, c := PathMachine(tokens, w, q), OneWord(bound, w);
    OneWordLanguage(bound, w);
    assert Wanted(c, tokens, p);
    forall x | First(c, tokens, x) ensures PassesAt(m, c, tokens, x) {
      PathMachineRuns(tokens, w, q, x);
      PathMachineRight(tokens, bound, w, q, x);
    }
    PathMachineRuns(tokens, w, q, q);
    PathMachineRight(tokens, bound, w, q, q);
    PathMachineAllows(tokens, bound, w, q, q);
  }

  /** Every machine that passes for some grammar with this bound is right at every allowed path. */
  ghost predicate PassSpeaksForAll(tokens: seq<seq<Byte>>, bound: nat) {
    forall m: MaskMachine<Path>, c: Case :: c.bound == bound && StartHasRow(c) && Passed(m, c, tokens) ==> ExactThroughout(m, c, tokens)
  }

  /** A pass speaks for all allowed paths of all machines and grammars exactly when no two paths within the bound have
      the same spelling. */
  lemma PassSpeaksForAllIff(tokens: seq<seq<Byte>>, bound: nat)
    ensures PassSpeaksForAll(tokens, bound) <==> UniqueWithin(tokens, bound)
  {
    if UniqueWithin(tokens, bound) {
      forall m: MaskMachine<Path>, c: Case | c.bound == bound && Passed(m, c, tokens) ensures ExactThroughout(m, c, tokens) {
        PassedIsExactThroughout(m, c, tokens);
      }
    } else {
      var p, q :| Legal(tokens, p) && Legal(tokens, q) && |Spelling(tokens, p)| <= bound && Spelling(tokens, p) == Spelling(tokens, q) && p != q;
      BeforeTotal(p, q);
      if Before(p, q) {
        SharedSpellingRefutes(tokens, bound, p, q);
      } else {
        SharedSpellingRefutes(tokens, bound, q, p);
      }
    }
  }

  lemma SharedSpellingRefutes(tokens: seq<seq<Byte>>, bound: nat, p: Path, q: Path)
    requires Legal(tokens, p) && Legal(tokens, q) && Spelling(tokens, p) == Spelling(tokens, q) && |Spelling(tokens, q)| <= bound
    requires Before(p, q)
    ensures !PassSpeaksForAll(tokens, bound)
  {
    var w := Spelling(tokens, q);
    var m, c := PathMachine(tokens, w, q), OneWord(bound, w);
    SharedSpellingMissed(tokens, bound, p, q);
    OneWordRuns(bound, w);
    assert !ExactThroughout(m, c, tokens);
  }

  lemma PassedIsExactThroughout<S(!new)>(m: MaskMachine<S>, c: Case, tokens: seq<seq<Byte>>)
    requires Passed(m, c, tokens) && UniqueWithin(tokens, c.bound)
    ensures ExactThroughout(m, c, tokens)
  {
    PassChecksEverywhere(m, c, tokens);
    forall path | AllowedPath(m, tokens, c.bound, path)
      ensures Legal(tokens, path) && Run(m, path).Some? && ExactAt(m, c, tokens, Run(m, path).value, Spelling(tokens, path))
    {
      PassedMachineIsExact(m, c, tokens, path);
    }
  }

  // ----- Vocabularies -----

  lemma {:induction false} OneByteSpelling(tokens: seq<seq<Byte>>, p: Path, q: Path)
    requires forall i :: 0 <= i < |tokens| ==> |tokens[i]| == 1
    requires forall i, j :: 0 <= i < j < |tokens| ==> tokens[i] != tokens[j]
    requires Legal(tokens, p) && Legal(tokens, q) && Spelling(tokens, p) == Spelling(tokens, q)
    ensures p == q
    decreases |p|
  {
    if p != [] && q != [] {
      var pi, qi := Init(p), Init(q);
      var pl, ql := tokens[Last(p)], tokens[Last(q)];
      var word := Spelling(tokens, p);
      assert word == Spelling(tokens, pi) + pl && word == Spelling(tokens, qi) + ql;
      assert word[..|word| - 1] == Spelling(tokens, pi) && word[..|word| - 1] == Spelling(tokens, qi);
      assert pl[0] == word[|word| - 1] == ql[0];
      assert pl == ql;
      OneByteSpelling(tokens, pi, qi);
      InitLast(p);
      InitLast(q);
    }
  }

  /** Distinct one-byte tokens: bytes determine the token path, whatever the bound. */
  lemma OneByteTokensUnique(tokens: seq<seq<Byte>>, bound: nat)
    requires forall i :: 0 <= i < |tokens| ==> |tokens[i]| == 1
    requires forall i, j :: 0 <= i < j < |tokens| ==> tokens[i] != tokens[j]
    ensures UniqueWithin(tokens, bound)
  {
    forall p, q | Legal(tokens, p) && Legal(tokens, q) && Spelling(tokens, p) == Spelling(tokens, q) ensures p == q {
      OneByteSpelling(tokens, p, q);
    }
  }

  /** `a`, `b`, `c`, `ab`, `bc`, `ca` */
  const FUZZ_TOKENS: seq<seq<Byte>> := [[97], [98], [99], [97, 98], [98, 99], [99, 97]]

  lemma FuzzToken(i: nat)
    requires i < |FUZZ_TOKENS|
    ensures |FUZZ_TOKENS[i]| == (if i < 3 then 1 else 2) && (i < 3 ==> FUZZ_TOKENS[i][0] == 97 + i)
  {
  }

  lemma OneTokenSpelling(tokens: seq<seq<Byte>>, path: Path)
    requires Legal(tokens, path) && |path| == 1
    ensures Spelling(tokens, path) == tokens[path[0]]
  {
    assert path[..0] == [] && Spelling(tokens, path) == [] + tokens[path[0]];
  }

  /** Within one byte there are the empty path and the three one-byte tokens. */
  lemma FuzzSpelling(path: Path)
    requires Legal(FUZZ_TOKENS, path) && |Spelling(FUZZ_TOKENS, path)| <= 1
    ensures path == [] || (|path| == 1 && |Spelling(FUZZ_TOKENS, path)| == 1 && Spelling(FUZZ_TOKENS, path)[0] == 97 + path[0])
  {
    forall t | t in FUZZ_TOKENS ensures t != [] {
      var i :| 0 <= i < |FUZZ_TOKENS| && FUZZ_TOKENS[i] == t;
      FuzzToken(i);
    }
    SpellingLength(FUZZ_TOKENS, path);
    if |path| == 1 {
      OneTokenSpelling(FUZZ_TOKENS, path);
      FuzzToken(path[0]);
    }
  }

  /** The fuzz vocabulary spells `ab` in two ways, so its search speaks for all paths only up to bound one; from two on
      the machine that is wrong after `a`, `b` passes. */
  lemma FuzzVocabularyIsAmbiguous(bound: nat)
    ensures UniqueWithin(FUZZ_TOKENS, bound) <==> bound <= 1
    ensures bound >= 2 ==>
              var m, c := PathMachine(FUZZ_TOKENS, [97, 98], [0, 1]), OneWord(bound, [97, 98]);
              Passed(m, c, FUZZ_TOKENS) && WrongAt(m, c, FUZZ_TOKENS, [0, 1])
  {
    if bound >= 2 {
      var p, q, a: Path := [3], [0, 1], [0];
      OneTokenSpelling(FUZZ_TOKENS, p);
      OneTokenSpelling(FUZZ_TOKENS, a);
      assert q[..1] == a;
      assert Spelling(FUZZ_TOKENS, q) == FUZZ_TOKENS[0] + FUZZ_TOKENS[1] == [97, 98];
      SharedSpellingMissed(FUZZ_TOKENS, bound, p, q);
    } else {
      forall p, q | Legal(FUZZ_TOKENS, p) && Legal(FUZZ_TOKENS, q) && |Spelling(FUZZ_TOKENS, p)| <= bound && Spelling(FUZZ_TOKENS, p) == Spelling(FUZZ_TOKENS, q)
        ensures p == q
      {
        FuzzSpelling(p);
        FuzzSpelling(q);
        assert |p| == |q| == 1 ==> p == [p[0]] && q == [q[0]];
      }
    }
  }
}
