/** The driver of the perfect-hash builder: splits the keys with one salt after
    another until some salt admits a perfect hash. */
module MakePerfect {
  import opened Bits
  import opened Scramble
  import opened KeyBuckets
  import opened Augment
  import opened HashHeader
  import opened Wrappers

  const RETRY_INITKEY: nat := 2048
  const RETRY_PERFECT: nat := 4
  const GOLDEN: nat := 0x9e37_79b9_7f4a_7c13

  // ------------------------------------------------------------------ splitting keys

  function SplitA(hash: nat, alen: nat): nat
    requires CeilLog2(alen) <= 64
  {
    if CeilLog2(alen) > 0 then Shr(hash, 64 - CeilLog2(alen)) % WORD32 else 0
  }

  function SplitB(hash: nat, blen: nat): nat {
    if blen > 1 then And(hash, blen - 1) else 0
  }

  function SplitKey(name: Str, lookup: Lookup, alen: nat, blen: nat, salt: nat): Key
    requires CeilLog2(alen) <= 64
  {
    Key(name, SplitA(lookup(name, salt), alen), SplitB(lookup(name, salt), blen))
  }

  /** The keys of the names, split with the salt. */
  ghost predicate SplitKeys(keys: seq<Key>, names: seq<Str>, lookup: Lookup, alen: nat, blen: nat, salt: nat)
    requires CeilLog2(alen) <= 64
  {
    |keys| == |names| && SplitUpTo(keys, names, lookup, alen, blen, salt, |keys|)
  }

  ghost predicate SplitUpTo(keys: seq<Key>, names: seq<Str>, lookup: Lookup, alen: nat, blen: nat, salt: nat, n: nat)
    requires n <= |keys| == |names| && CeilLog2(alen) <= 64
  {
    forall i :: 0 <= i < n ==> keys[i] == SplitKey(names[i], lookup, alen, blen, salt)
  }

  lemma SplitNext(keys: seq<Key>, names: seq<Str>, lookup: Lookup, alen: nat, blen: nat, salt: nat, n: nat, split: Key)
    requires n < |keys| == |names| && CeilLog2(alen) <= 64
    requires SplitUpTo(keys, names, lookup, alen, blen, salt, n)
    requires split == SplitKey(names[n], lookup, alen, blen, salt)
    ensures SplitUpTo(keys[n := split], names, lookup, alen, blen, salt, n + 1)
  {
  }

  lemma SplitInRange(hash: Word64, la: nat, lb: nat)
    requires la <= 31
    ensures CeilLog2(Pow2(la)) == la
    ensures SplitA(hash, Pow2(la)) < Pow2(la) && SplitA(hash, Pow2(la)) == Shr(hash, 64 - la) % WORD32
    ensures SplitB(hash, Pow2(lb)) < Pow2(lb) && SplitB(hash, Pow2(lb)) == And(hash, Pow2(lb) - 1)
  {
    CeilLog2OfPower(la);
    HighBits(hash, la);
    AndMask(hash, lb);
  }

  ghost predicate NamesIn(keys: array<Key>, names: seq<Str>)
    reads keys
  {
    keys.Length == |names| && forall i :: 0 <= i < keys.Length ==> keys[i].name == names[i]
  }

  /** initnorm: splits every key in place. */
  method InitNorm(keys: array<Key>, alen: nat, blen: nat, salt: nat, lookup: Lookup, ghost names: seq<Str>)
    requires alen <= 0x8000_0000 && NamesIn(keys, names)
    modifies keys
    ensures NamesIn(keys, names)
    ensures CeilLog2(alen) <= 31 && SplitKeys(keys[..], names, lookup, alen, blen, salt)
  {
    var loga := Log2u(alen);
    var i := 0;
    while i < keys.Length
      invariant i <= keys.Length
      invariant NamesIn(keys, names)
      invariant SplitUpTo(keys[..], names, lookup, alen, blen, salt, i)
    {
      var split := InitOne(keys[i], alen, blen, loga, salt, lookup);
      SplitNext(keys[..], names, lookup, alen, blen, salt, i, split);
      keys[i] := split;
      i := i + 1;
    }
  }

  method InitOne(key: Key, alen: nat, blen: nat, loga: nat, salt: nat, lookup: Lookup) returns (split: Key)
    requires loga == CeilLog2(alen) <= 64
    ensures split == SplitKey(key.name, lookup, alen, blen, salt)
  {
    var hash := lookup(key.name, salt);
    var a := if loga > 0 then Shr(hash, 64 - loga) % WORD32 else 0;
    var b := if blen > 1 then And(hash, blen - 1) else 0;
    split := key.(a := a, b := b);
  }

  /** initalen: the first guess. The comparisons with 0.6 and 0.8 of a power of two are
      exact, since three and four fifths of it are never whole. */
  function InitialBlen(smax: nat, nkeys: nat): nat {
    var guess := if 5 * nkeys <= 3 * smax then smax / 16 else if 5 * nkeys <= 4 * smax then smax / 8 else smax / 4;
    if guess < 1 then 1 else guess
  }

  lemma InitialBlenIsPower(m: nat, nkeys: nat) returns (lb: nat)
    ensures lb <= m <= lb + 4 && InitialBlen(Pow2(m), nkeys) == Pow2(lb)
  {
    var smax := Pow2(m);
    if m >= 4 {
      assert smax == 16 * Pow2(m - 4) && smax == 8 * Pow2(m - 3) && smax == 4 * Pow2(m - 2);
    }
    lb := if 5 * nkeys <= 3 * smax then if m >= 4 then m - 4 else 0
          else if 5 * nkeys <= 4 * smax then if m >= 3 then m - 3 else 0
          else if m >= 2 then m - 2 else 0;
  }

  // ------------------------------------------------------------------ one salt

  /** The keys are split with the salt into pairs (a,b) below 2^la and 2^lb, and the
      scramble table is the one for hash values below 2^m. */
  ghost predicate Split(keys: seq<Key>, scramble: seq<nat>, names: seq<Str>, lookup: Lookup,
                        m: nat, la: nat, lb: nat, salt: nat) {
    && la <= m <= 31 && IsScramble(scramble, m)
    && CeilLog2(Pow2(la)) == la && SplitKeys(keys, names, lookup, Pow2(la), Pow2(lb), salt)
  }

  lemma SplitBounds(keys: seq<Key>, scramble: seq<nat>, names: seq<Str>, lookup: Lookup,
                    m: nat, la: nat, lb: nat, salt: nat, k: nat)
    requires Split(keys, scramble, names, lookup, m, la, lb, salt) && k < |keys|
    ensures keys[k].b < Pow2(lb)
    ensures forall v :: 0 <= v < SCRAMBLE_LEN ==> HashWith(keys, scramble, k, v) < Pow2(m)
  {
    SplitInRange(lookup(names[k], salt), la, lb);
    Pow2Monotone(la, m);
    ScrambleInRange(scramble, m);
    forall v | 0 <= v < SCRAMBLE_LEN
      ensures HashWith(keys, scramble, k, v) < Pow2(m)
    {
      XorBelow(keys[k].a, scramble[v], m);
    }
  }

  /** What inittab leaves behind is where perfect may start. */
  lemma SettingFromSplit(keys: seq<Key>, bs: seq<Bucket>, scramble: seq<nat>, names: seq<Str>, lookup: Lookup,
                         m: nat, la: nat, lb: nat, salt: nat)
    requires Split(keys, scramble, names, lookup, m, la, lb, salt) && |bs| == Pow2(lb)
    requires Grouped(bs, keys, |keys|) && DistinctPairs(keys, |keys|)
    requires forall b :: 0 <= b < |bs| ==> bs[b].val == 0
    ensures Setting(keys, bs, scramble, Pow2(m))
  {
    forall k | 0 <= k < |keys|
      ensures keys[k].b < |bs|
      ensures forall v :: 0 <= v < SCRAMBLE_LEN ==> HashWith(keys, scramble, k, v) < Pow2(m)
    {
      SplitBounds(keys, scramble, names, lookup, m, la, lb, salt, k);
    }
  }

  ghost predicate AllHashesDiffer(keys: seq<Key>, bs: seq<Bucket>, scramble: seq<nat>, smax: nat)
    requires Setting(keys, bs, scramble, smax)
  {
    forall i, j :: 0 <= i < j < |keys| ==> HashOf(keys, bs, scramble, i) != HashOf(keys, bs, scramble, j)
  }

  lemma PerfectMeansDiffer(keys: seq<Key>, bs: seq<Bucket>, scramble: seq<nat>, tabh: seq<Option<nat>>)
    requires Setting(keys, bs, scramble, |tabh|) && IsPerfect(keys, bs, scramble, tabh)
    ensures AllHashesDiffer(keys, bs, scramble, |tabh|)
  {
    forall i, j | 0 <= i < j < |keys|
      ensures HashOf(keys, bs, scramble, i) != HashOf(keys, bs, scramble, j)
    {
      PerfectIsInjective(keys, bs, scramble, tabh, i, j);
    }
  }

  /** The buckets are a perfect hash of the names. */
  ghost predicate Solved(keys: seq<Key>, bs: seq<Bucket>, scramble: seq<nat>, names: seq<Str>, lookup: Lookup,
                         m: nat, la: nat, lb: nat, salt: nat) {
    && Split(keys, scramble, names, lookup, m, la, lb, salt) && |bs| == Pow2(lb)
    && Setting(keys, bs, scramble, Pow2(m)) && AllHashesDiffer(keys, bs, scramble, Pow2(m))
  }

  /** The pairs are distinct, and yet the greedy search got stuck on them. */
  ghost predicate SplitButStuck(keys: seq<Key>, bs: seq<Bucket>, scramble: seq<nat>, names: seq<Str>, lookup: Lookup,
                                m: nat, la: nat, lb: nat, salt: nat) {
    && Split(keys, scramble, names, lookup, m, la, lb, salt) && |bs| == Pow2(lb)
    && Setting(keys, bs, scramble, Pow2(m))
    && exists tabh, done, item :: |tabh| == Pow2(m) && Stuck(keys, bs, scramble, tabh, done, item)
  }

  /** Some salt gives the names distinct pairs and still leaves the greedy placement stuck,
      with 2^m hash values and as many buckets. */
  ghost predicate StuckAt(names: seq<Str>, lookup: Lookup, m: nat) {
    exists keys, bs, scramble, la, salt :: SplitButStuck(keys, bs, scramble, names, lookup, m, la, m, salt)
  }

  datatype Trial = Perfected | Collided | GotStuck

  /** One turn of the search: splits the keys with the salt and tries to place them. */
  method TrySalt(keys: array<Key>, tabb: array<Bucket>, tabh: array<Option<nat>>, tabq: array<QueueEntry>,
                 scramble: seq<nat>, alen: nat, blen: nat, salt: nat, lookup: Lookup,
                 ghost names: seq<Str>, ghost m: nat, ghost la: nat, ghost lb: nat)
    returns (trial: Trial)
    requires NamesIn(keys, names)
    requires la <= m <= 31 && alen == Pow2(la) && blen == Pow2(lb) && IsScramble(scramble, m)
    requires tabb.Length == blen && tabq.Length == blen + 1 && tabh.Length == Pow2(m)
    modifies keys, tabb, tabh, tabq
    ensures NamesIn(keys, names)
    ensures trial.Collided? <==> !DistinctPairs(keys[..], keys.Length)
    ensures Split(keys[..], scramble, names, lookup, m, la, lb, salt)
    ensures trial.Perfected? ==> Solved(keys[..], tabb[..], scramble, names, lookup, m, la, lb, salt)
    ensures trial.GotStuck? ==> SplitButStuck(keys[..], tabb[..], scramble, names, lookup, m, la, lb, salt)
  {
    Pow2FitsWord(la);
    InitNorm(keys, alen, blen, salt, lookup, names);
    CeilLog2OfPower(la);
    ghost var ks := keys[..];
    assert Split(ks, scramble, names, lookup, m, la, lb, salt);
    forall k | 0 <= k < |ks|
      ensures ks[k].b < Pow2(lb)
    {
      SplitBounds(ks, scramble, names, lookup, m, la, lb, salt, k);
    }
    var nocollision := InitTab(tabb, keys[..], false);
    assert keys[..] == ks;
    if !nocollision {
      return Collided;
    }
    SettingFromSplit(ks, tabb[..], scramble, names, lookup, m, la, lb, salt);
    var ok := Perfect(tabb, tabh, tabq, keys[..], scramble);
    assert keys[..] == ks;
    if ok {
      PerfectMeansDiffer(ks, tabb[..], scramble, tabh[..]);
      return Perfected;
    }
    ghost var done, item :| Stuck(ks, tabb[..], scramble, tabh[..], done, item);
    return GotStuck;
  }

  // ------------------------------------------------------------------ the turns of the search

  /** A turn: the factor of its salt, the sizes of the split, and how it ended. */
  datatype Turn = Turn(k: nat, la: nat, lb: nat, trial: Trial)

  function SaltOf(k: nat): nat { k * GOLDEN % WORD64 }

  /** The turn's salt, split into its sizes, really ends so. */
  ghost predicate EndsSo(turn: Turn, scramble: seq<nat>, names: seq<Str>, lookup: Lookup, m: nat) {
    match turn.trial
    case Perfected =>
      exists keys, bs :: Solved(keys, bs, scramble, names, lookup, m, turn.la, turn.lb, SaltOf(turn.k))
    case Collided =>
      exists keys :: Split(keys, scramble, names, lookup, m, turn.la, turn.lb, SaltOf(turn.k))
                     && !DistinctPairs(keys, |keys|)
    case GotStuck =>
      exists keys, bs :: SplitButStuck(keys, bs, scramble, names, lookup, m, turn.la, turn.lb, SaltOf(turn.k))
  }

  ghost function Collisions(turns: seq<Turn>): nat {
    if turns == [] then 0
    else Collisions(turns[..|turns| - 1]) + if turns[|turns| - 1].trial.Collided? then 1 else 0
  }

  /** The last turn is the 2048th collision since the last such turn. */
  ghost predicate RoundEnds(turns: seq<Turn>) {
    turns != [] && turns[|turns| - 1].trial.Collided? && Collisions(turns) % RETRY_INITKEY == 0
  }

  /** The stuck turns since such a turn. */
  ghost function StuckInRound(turns: seq<Turn>): nat {
    if turns == [] || RoundEnds(turns) then 0
    else StuckInRound(turns[..|turns| - 1]) + if turns[|turns| - 1].trial.GotStuck? then 1 else 0
  }

  /** The last turn is the fourth stuck one since the sizes were last changed. */
  ghost predicate StuckEnough(turns: seq<Turn>) {
    turns != [] && turns[|turns| - 1].trial.GotStuck? && StuckInRound(turns) % RETRY_PERFECT == 0
  }

  /** What the next turn tries: the next salt, with more bits after 2048 collisions, or the
      same salt with more buckets after four stuck turns. */
  ghost predicate TriesNext(turns: seq<Turn>, k: nat, la: nat, lb: nat, names: seq<Str>, m: nat) {
    if turns == [] then k == 1 && la == m && Pow2(lb) == InitialBlen(Pow2(m), |names|)
    else TriesAfter(turns[|turns| - 1], RoundEnds(turns), StuckEnough(turns), k, la, lb, m)
  }

  ghost predicate TriesAfter(last: Turn, roundEnds: bool, stuckEnough: bool, k: nat, la: nat, lb: nat, m: nat) {
    if stuckEnough then k == last.k && la == last.la && lb == last.lb + 1 <= m
    else
      && k == (last.k + 1) % WORD32
      && if roundEnds && last.la < m then la == last.la + 1 && lb == last.lb
         else if roundEnds && last.lb < m then la == last.la && lb == last.lb + 1
         else la == last.la && lb == last.lb
  }

  /** The turns follow on each other, each ends as it says, and only the last may have
      found a perfect hash. */
  ghost predicate Searched(turns: seq<Turn>, scramble: seq<nat>, names: seq<Str>, lookup: Lookup, m: nat) {
    turns == [] ||
    var before, last := turns[..|turns| - 1], turns[|turns| - 1];
    && Searched(before, scramble, names, lookup, m) && AllFailed(before)
    && TriesNext(before, last.k, last.la, last.lb, names, m) && EndsSo(last, scramble, names, lookup, m)
  }

  ghost predicate AllFailed(turns: seq<Turn>) {
    forall t :: 0 <= t < |turns| ==> !turns[t].trial.Perfected?
  }

  /** One more turn, and what it does to the counters of the search. */
  lemma SearchedOn(turns: seq<Turn>, turn: Turn, scramble: seq<nat>, names: seq<Str>, lookup: Lookup, m: nat)
    requires Searched(turns, scramble, names, lookup, m) && AllFailed(turns)
    requires TriesNext(turns, turn.k, turn.la, turn.lb, names, m) && EndsSo(turn, scramble, names, lookup, m)
    ensures Searched(turns + [turn], scramble, names, lookup, m)
    ensures !turn.trial.Perfected? ==> AllFailed(turns + [turn])
    ensures Collisions(turns + [turn]) == Collisions(turns) + if turn.trial.Collided? then 1 else 0
    ensures RoundEnds(turns + [turn]) <==> turn.trial.Collided? && Collisions(turns + [turn]) % RETRY_INITKEY == 0
    ensures RoundEnds(turns + [turn]) ==> StuckInRound(turns + [turn]) == 0
    ensures !RoundEnds(turns + [turn]) ==>
              StuckInRound(turns + [turn]) == StuckInRound(turns) + if turn.trial.GotStuck? then 1 else 0
    ensures StuckEnough(turns + [turn]) <==> turn.trial.GotStuck? && StuckInRound(turns + [turn]) % RETRY_PERFECT == 0
  {
    assert (turns + [turn])[..|turns|] == turns;
  }

  // ------------------------------------------------------------------ the search for a salt

  datatype Outcome = Found | GaveUp | OutOfFuel

  /** The sizes of the split: powers of two of at most 2^m. */
  ghost predicate Sizes(alen: nat, blen: nat, m: nat, la: nat, lb: nat) {
    alen == Pow2(la) && blen == Pow2(lb) && la <= m && lb <= m && (la == 0 <==> m == 0)
  }

  /** How the search ends: with the salt and sizes of its last turn, which is the only one
      that found a hash; with a last turn that is stuck, for the fourth time, with as many
      buckets as hash values; or after as many failed turns as there is fuel. */
  ghost predicate EndsWith(outcome: Outcome, turns: seq<Turn>, fuel: nat, salt: nat, la: nat, lb: nat, m: nat) {
    if outcome.OutOfFuel? then |turns| == fuel && AllFailed(turns)
    else
      && 0 < |turns| <= fuel && LastTried(turns, salt, la, lb)
      && (outcome.Found? ==> turns[|turns| - 1].trial.Perfected? && AllFailed(turns[..|turns| - 1]))
      && (outcome.GaveUp? ==> StuckEnough(turns) && lb == m && AllFailed(turns))
  }

  ghost predicate LastTried(turns: seq<Turn>, salt: nat, la: nat, lb: nat)
    requires turns != []
  {
    var last := turns[|turns| - 1];
    salt == SaltOf(last.k) && la == last.la && lb == last.lb
  }

  /** A search with 2^m hash values gives up on the names. */
  ghost predicate GivenUpAt(names: seq<Str>, lookup: Lookup, m: nat) {
    exists turns: seq<Turn>, scramble ::
      Searched(turns, scramble, names, lookup, m) && AllFailed(turns) && StuckEnough(turns)
      && turns[|turns| - 1].lb == m
  }

  /** So many turns of the search all fail. */
  ghost predicate RunsOutAt(names: seq<Str>, lookup: Lookup, fuel: nat, m: nat) {
    exists turns: seq<Turn>, scramble ::
      Searched(turns, scramble, names, lookup, m) && AllFailed(turns) && |turns| == fuel
  }

  /** The salt and sizes of the hash are those of the first turn that does not fail. */
  ghost predicate FoundAt(h: PerfectHash, names: seq<Str>, lookup: Lookup, m: nat) {
    exists turns: seq<Turn>, la: nat, lb: nat ::
      && Searched(turns, h.scramble, names, lookup, m) && turns != [] && LastTried(turns, h.salt, la, lb)
      && turns[|turns| - 1].trial.Perfected? && AllFailed(turns[..|turns| - 1])
      && h.capacity == Pow2(m) && h.shift == 64 - la && h.mask + 1 == Pow2(lb)
  }

  /** What giving up means: some salt has distinct pairs, and the placement is stuck. */
  lemma GivenUpMeansStuck(names: seq<Str>, lookup: Lookup, m: nat)
    requires GivenUpAt(names, lookup, m)
    ensures StuckAt(names, lookup, m)
  {
    var turns: seq<Turn>, scramble :|
      Searched(turns, scramble, names, lookup, m) && AllFailed(turns) && StuckEnough(turns)
      && turns[|turns| - 1].lb == m;
    var last := turns[|turns| - 1];
    var keys, bs :| SplitButStuck(keys, bs, scramble, names, lookup, m, last.la, last.lb, SaltOf(last.k));
  }

  lemma SearchStarts(scramble: seq<nat>, names: seq<Str>, lookup: Lookup, m: nat, lg: nat)
    requires Pow2(lg) == InitialBlen(Pow2(m), |names|)
    ensures Searched([], scramble, names, lookup, m) && AllFailed([]) && Counted(0, 0, [])
    ensures TriesNext([], 1, m, lg, names, m)
  {
  }

  lemma NextTries(turns: seq<Turn>, turn: Turn, k: nat, la: nat, lb: nat, names: seq<Str>, m: nat)
    requires TriesAfter(turn, RoundEnds(turns + [turn]), StuckEnough(turns + [turn]), k, la, lb, m)
    ensures TriesNext(turns + [turn], k, la, lb, names, m)
  {
  }

  lemma EndsSoByTrial(turn: Turn, keys: seq<Key>, bs: seq<Bucket>, scramble: seq<nat>, names: seq<Str>,
                      lookup: Lookup, m: nat)
    requires Split(keys, scramble, names, lookup, m, turn.la, turn.lb, SaltOf(turn.k))
    requires turn.trial.Collided? <==> !DistinctPairs(keys, |keys|)
    requires turn.trial.Perfected? ==> Solved(keys, bs, scramble, names, lookup, m, turn.la, turn.lb, SaltOf(turn.k))
    requires turn.trial.GotStuck? ==>
               SplitButStuck(keys, bs, scramble, names, lookup, m, turn.la, turn.lb, SaltOf(turn.k))
    ensures EndsSo(turn, scramble, names, lookup, m)
  {
  }

  /** The two counters of the loop. */
  ghost predicate Counted(badInitkey: nat, badPerfect: nat, turns: seq<Turn>) {
    badInitkey == Collisions(turns) % RETRY_INITKEY && badPerfect == StuckInRound(turns) % RETRY_PERFECT
  }

  lemma CountOn(badInitkey: nat, badPerfect: nat, turns: seq<Turn>, turn: Turn, scramble: seq<nat>,
                names: seq<Str>, lookup: Lookup, m: nat)
    requires Counted(badInitkey, badPerfect, turns)
    requires Searched(turns, scramble, names, lookup, m) && AllFailed(turns)
    requires TriesNext(turns, turn.k, turn.la, turn.lb, names, m) && EndsSo(turn, scramble, names, lookup, m)
    ensures RoundEnds(turns + [turn]) <==> turn.trial.Collided? && badInitkey + 1 >= RETRY_INITKEY
    ensures StuckEnough(turns + [turn]) <==> turn.trial.GotStuck? && badPerfect + 1 >= RETRY_PERFECT
    ensures turn.trial.Collided? ==>
              if RoundEnds(turns + [turn]) then Counted(0, 0, turns + [turn])
              else Counted(badInitkey + 1, badPerfect, turns + [turn])
    ensures turn.trial.GotStuck? ==>
              Counted(badInitkey, if StuckEnough(turns + [turn]) then 0 else badPerfect + 1, turns + [turn])
  {
    hide Searched, AllFailed, TriesNext, EndsSo, RoundEnds, StuckEnough, StuckInRound, Collisions;
    SearchedOn(turns, turn, scramble, names, lookup, m);
    NextMod(Collisions(turns), RETRY_INITKEY);
    NextMod(StuckInRound(turns), RETRY_PERFECT);
  }

  lemma NextMod(n: nat, d: nat)
    requires d > 1
    ensures (n + 1) % d == if n % d + 1 >= d then 0 else n % d + 1
  {
    var q, r := n / d, n % d;
    assert n == d * q + r;
    if r + 1 < d {
      DivModUnique(n + 1, d, q, r + 1);
    } else {
      MulDistributes(d, q, 1);
      DivModUnique(n + 1, d, q + 1, 0);
    }
  }

  /** findhash: guesses the sizes, fills the scramble table and searches for a salt. */
  method FindHash(keys: array<Key>, scramble: array<nat>, smax: nat, lookup: Lookup, fuel: nat,
                  ghost names: seq<Str>, ghost m: nat)
    returns (outcome: Outcome, tabb: array<Bucket>, alen: nat, blen: nat, salt: nat, ghost la: nat, ghost lb: nat,
             ghost turns: seq<Turn>)
    requires NamesIn(keys, names) && m <= 31 && smax == Pow2(m) && scramble.Length == SCRAMBLE_LEN
    modifies keys, scramble
    ensures NamesIn(keys, names) && tabb.Length == blen && Sizes(alen, blen, m, la, lb)
    ensures outcome.Found? ==> Solved(keys[..], tabb[..], scramble[..], names, lookup, m, la, lb, salt)
    ensures outcome.GaveUp? ==> GivenUpAt(names, lookup, m)
    ensures Searched(turns, scramble[..], names, lookup, m) && EndsWith(outcome, turns, fuel, salt, la, lb, m)
  {
    var guess := InitialBlen(smax, keys.Length);
    ghost var lg := InitialBlenIsPower(m, keys.Length);
    Pow2FitsWord(m);
    ScrambleInit(scramble, smax);
    CeilLog2OfPower(m);
    outcome, tabb, alen, blen, salt, la, lb, turns :=
      SearchSalts(keys, scramble[..], smax, guess, lookup, fuel, names, m, lg);
  }

  /** The loop of findhash: tries salts until one works. More bits go to the split after
      2048 collisions, more buckets after 4 failed placements; a failed placement with as
      many buckets as hash values gives up. Only the fuel bounds the number of turns, and
      when it has run out, every turn has failed. */
  method SearchSalts(keys: array<Key>, scramble: seq<nat>, smax: nat, guess: nat, lookup: Lookup, fuel: nat,
                     ghost names: seq<Str>, ghost m: nat, ghost lg: nat)
    returns (outcome: Outcome, tabb: array<Bucket>, alen: nat, blen: nat, salt: nat, ghost la: nat, ghost lb: nat,
             ghost turns: seq<Turn>)
    requires NamesIn(keys, names) && m <= 31 && smax == Pow2(m) && IsScramble(scramble, m)
    requires guess == Pow2(lg) == InitialBlen(smax, |names|) && lg <= m
    modifies keys
    ensures NamesIn(keys, names) && tabb.Length == blen && Sizes(alen, blen, m, la, lb)
    ensures outcome.Found? ==> Solved(keys[..], tabb[..], scramble, names, lookup, m, la, lb, salt)
    ensures Searched(turns, scramble, names, lookup, m) && EndsWith(outcome, turns, fuel, salt, la, lb, m)
  {
    hide Searched, AllFailed, EndsSo, RoundEnds, StuckEnough, StuckInRound, Collisions, TriesNext, Counted;
    hide Split, Solved, SplitButStuck, IsScramble, InitialBlen, Pow2;
    SearchStarts(scramble, names, lookup, m, lg);
    alen, blen, la, lb := smax, guess, m, lg;
    tabb := new Bucket[blen];
    var tabq := new QueueEntry[blen + 1];
    var tabh := new Option<nat>[smax];
    salt := 0;
    var badInitkey, badPerfect := 0, 0;
    var si: nat := 1;
    var left := fuel;
    turns := [];
    while left > 0
      invariant NamesIn(keys, names)
      invariant fresh(tabb) && fresh(tabq) && fresh(tabh)
      invariant tabb.Length == blen && tabq.Length == blen + 1 && tabh.Length == smax
      invariant Sizes(alen, blen, m, la, lb)
      invariant |turns| + left == fuel && AllFailed(turns) && Searched(turns, scramble, names, lookup, m)
      invariant TriesNext(turns, si, la, lb, names, m) && si < WORD32
      invariant Counted(badInitkey, badPerfect, turns)
    {
      left := left - 1;
      salt := si * GOLDEN % WORD64;
      var trial := TrySalt(keys, tabb, tabh, tabq, scramble, alen, blen, salt, lookup, names, m, la, lb);
      ghost var turn := Turn(si, la, lb, trial);
      EndsSoByTrial(turn, keys[..], tabb[..], scramble, names, lookup, m);
      SearchedOn(turns, turn, scramble, names, lookup, m);
      CountOn(badInitkey, badPerfect, turns, turn, scramble, names, lookup, m);
      ghost var before := turns;
      turns := turns + [turn];
      match trial {
        case Perfected =>
          assert turns[..|turns| - 1] == before;
          return Found, tabb, alen, blen, salt, la, lb, turns;
        case Collided =>
          badInitkey := badInitkey + 1;
          if badInitkey >= RETRY_INITKEY {
            if alen < smax {
              la := MoreBits(la, m);
              alen := alen * 2;
            } else if blen < smax {
              MostBits(la, m);
              blen, tabb, tabq, lb := DoubleBuckets(blen, lb, m);
            } else {
              MostBits(la, m);
              MostBits(lb, m);
            }
            badInitkey, badPerfect := 0, 0;
          }
        case GotStuck =>
          badPerfect := badPerfect + 1;
          if badPerfect >= RETRY_PERFECT {
            if blen < smax {
              blen, tabb, tabq, lb := DoubleBuckets(blen, lb, m);
              BackAndOn(si);
              si := (si + WORD32 - 1) % WORD32;
            } else {
              MostBits(lb, m);
              return GaveUp, tabb, alen, blen, salt, la, lb, turns;
            }
            badPerfect := 0;
          }
      }
      si := (si + 1) % WORD32;
      NextTries(before, turn, si, la, lb, names, m);
    }
    return OutOfFuel, tabb, alen, blen, salt, la, lb, turns;
  }

  /** Twice as many buckets, in new tables. */
  method DoubleBuckets(blen0: nat, ghost lb0: nat, ghost m: nat)
    returns (blen: nat, tabb: array<Bucket>, tabq: array<QueueEntry>, ghost lb: nat)
    requires blen0 == Pow2(lb0) && blen0 < Pow2(m)
    ensures lb == lb0 + 1 <= m && blen == 2 * blen0 == Pow2(lb)
    ensures fresh(tabb) && fresh(tabq) && tabb.Length == blen && tabq.Length == blen + 1
  {
    lb := MoreBits(lb0, m);
    blen := blen0 * 2;
    tabb := new Bucket[blen];
    tabq := new QueueEntry[blen + 1];
  }

  lemma MoreBits(l: nat, m: nat) returns (l': nat)
    requires Pow2(l) < Pow2(m)
    ensures l' == l + 1 <= m && Pow2(l') == 2 * Pow2(l)
  {
    l' := l + 1;
    if m <= l {
      Pow2Monotone(m, l);
    }
  }

  /** Stepping back and on again changes nothing, although the steps wrap in 32 bits. */
  lemma BackAndOn(si: nat)
    requires si < WORD32
    ensures ((si + WORD32 - 1) % WORD32 + 1) % WORD32 == si
  {
    ModAdd(si + WORD32 - 1, 1, WORD32);
    DivModUnique(si + WORD32, WORD32, 1, si);
  }

  lemma MostBits(l: nat, m: nat)
    requires l <= m && Pow2(l) >= Pow2(m)
    ensures l == m
  {
    Pow2Monotone(l, m);
  }

  // ------------------------------------------------------------------ the finished hash

  /** The header describes the buckets, for hash values below 2^m. */
  ghost predicate Describes(h: PerfectHash, bs: seq<Bucket>, scramble: seq<nat>, m: nat, la: nat, lb: nat, salt: nat) {
    && la <= m <= 31 && h.capacity == Pow2(m) && h.shift == 64 - la && h.mask + 1 == Pow2(lb) && h.salt == salt
    && h.scramble == scramble && |h.tab| == |bs|
    && forall b :: 0 <= b < |bs| ==> h.tab[b] == bs[b].val
  }

  /** The readers' hash is the hash that the builder placed the key at. */
  lemma ReadersHash(h: PerfectHash, keys: seq<Key>, bs: seq<Bucket>, names: seq<Str>, lookup: Lookup,
                    m: nat, la: nat, lb: nat, salt: nat, k: nat)
    requires Solved(keys, bs, h.scramble, names, lookup, m, la, lb, salt)
    requires Describes(h, bs, h.scramble, m, la, lb, salt) && k < |keys|
    ensures WellFormed(h) && Hash(h, lookup, names[k]) == HashOf(keys, bs, h.scramble, k)
  {
    assert Shape(h, m, la, lb);
    SplitInRange(lookup(names[k], salt), la, lb);
  }

  lemma SolvedIsPerfect(h: PerfectHash, keys: seq<Key>, bs: seq<Bucket>, names: seq<Str>, lookup: Lookup,
                        m: nat, la: nat, lb: nat, salt: nat)
    requires Solved(keys, bs, h.scramble, names, lookup, m, la, lb, salt)
    requires Describes(h, bs, h.scramble, m, la, lb, salt) && h.occupied == |names| > 0
    ensures PerfectFor(h, lookup, names)
  {
    assert Shape(h, m, la, lb);
    forall i, j | 0 <= i < j < |names|
      ensures Hash(h, lookup, names[i]) != Hash(h, lookup, names[j])
    {
      ReadersHash(h, keys, bs, names, lookup, m, la, lb, salt, i);
      ReadersHash(h, keys, bs, names, lookup, m, la, lb, salt, j);
    }
  }

  /** The shift is one that C defines, and the capacity is at least the number of
      names but less than four times it. */
  ghost predicate Sized(h: PerfectHash, names: seq<Str>) {
    && (h.shift < 64 <==> h.capacity > 1)
    && |names| <= h.capacity < 4 * |names|
  }

  method NamedKeys(names: seq<Str>) returns (keys: array<Key>)
    ensures fresh(keys) && NamesIn(keys, names)
  {
    keys := new Key[|names|](i requires 0 <= i < |names| => Key(names[i], 0, 0));
  }

  /** The hash values are the least power of two for the names, or twice that after the
      search with that many has given up. */
  ghost predicate AttemptAt(names: seq<Str>, lookup: Lookup, m: nat) {
    m == CeilLog2(|names|) || (m == CeilLog2(|names|) + 1 && GivenUpAt(names, lookup, CeilLog2(|names|)))
  }

  /** The one or two calls of findhash: the second has twice the hash values. */
  method FindSize(keys: array<Key>, scramble: array<nat>, lookup: Lookup, fuel: nat, ghost names: seq<Str>)
    returns (outcome: Outcome, tabb: array<Bucket>, smax: nat, alen: nat, blen: nat, salt: nat,
             ghost m: nat, ghost la: nat, ghost lb: nat, ghost turns: seq<Turn>)
    requires 0 < |names| <= 0x4000_0000 && NamesIn(keys, names) && scramble.Length == SCRAMBLE_LEN
    modifies keys, scramble
    ensures NamesIn(keys, names) && tabb.Length == blen && Sizes(alen, blen, m, la, lb)
    ensures m <= 31 && smax == Pow2(m) && |names| <= smax < 4 * |names|
    ensures outcome.Found? ==> Solved(keys[..], tabb[..], scramble[..], names, lookup, m, la, lb, salt)
    ensures Searched(turns, scramble[..], names, lookup, m) && EndsWith(outcome, turns, fuel, salt, la, lb, m)
    ensures AttemptAt(names, lookup, m)
    ensures outcome.GaveUp? ==> m == CeilLog2(|names|) + 1 && GivenUpAt(names, lookup, m)
  {
    hide Searched, EndsWith, GivenUpAt, Solved;
    var bits := RangeBits(keys.Length);
    smax, m := Pow2(bits), bits;
    outcome, tabb, alen, blen, salt, la, lb, turns := FindHash(keys, scramble, smax, lookup, fuel, names, m);
    if outcome.GaveUp? {
      smax, m := 2 * smax, bits + 1;
      outcome, tabb, alen, blen, salt, la, lb, turns := FindHash(keys, scramble, smax, lookup, fuel, names, m);
    }
  }

  /** The hash is the first that the search comes to, with the fewest hash values with
      which it does not give up. */
  ghost predicate FirstHash(h: PerfectHash, names: seq<Str>, lookup: Lookup) {
    exists m :: AttemptAt(names, lookup, m) && FoundAt(h, names, lookup, m)
  }

  /** The search has not ended within the fuel. */
  ghost predicate Unfinished(names: seq<Str>, lookup: Lookup, fuel: nat) {
    exists m :: AttemptAt(names, lookup, m) && RunsOutAt(names, lookup, fuel, m)
  }

  /** Both attempts give up. */
  ghost predicate NoHash(names: seq<Str>, lookup: Lookup) {
    GivenUpAt(names, lookup, CeilLog2(|names|)) && GivenUpAt(names, lookup, CeilLog2(|names|) + 1)
  }

  lemma HashIsFirst(h: PerfectHash, bs: seq<Bucket>, names: seq<Str>, lookup: Lookup, fuel: nat,
                    m: nat, la: nat, lb: nat, salt: nat, turns: seq<Turn>)
    requires Searched(turns, h.scramble, names, lookup, m) && EndsWith(Found, turns, fuel, salt, la, lb, m)
    requires AttemptAt(names, lookup, m) && Describes(h, bs, h.scramble, m, la, lb, salt)
    ensures FirstHash(h, names, lookup)
  {
    assert LastTried(turns, h.salt, la, lb);
    assert FoundAt(h, names, lookup, m);
  }

  lemma SearchUnfinished(scramble: seq<nat>, names: seq<Str>, lookup: Lookup, fuel: nat,
                         m: nat, la: nat, lb: nat, salt: nat, turns: seq<Turn>)
    requires Searched(turns, scramble, names, lookup, m) && EndsWith(OutOfFuel, turns, fuel, salt, la, lb, m)
    requires AttemptAt(names, lookup, m)
    ensures Unfinished(names, lookup, fuel)
  {
    assert RunsOutAt(names, lookup, fuel, m);
  }

  /** make_perfect: whatever hash it returns is perfect for the names, as the readers
      compute it, and the first that the search comes to; it gives up only after the second
      attempt, with twice the hash values. */
  method MakePerfect(names: seq<Str>, lookup: Lookup, fuel: nat) returns (outcome: Outcome, h: PerfectHash)
    requires 0 < |names| <= 0x4000_0000
    ensures outcome.Found? ==> PerfectFor(h, lookup, names) && Sized(h, names)
    ensures outcome.Found? ==> FirstHash(h, names, lookup)
    ensures outcome.GaveUp? ==> NoHash(names, lookup)
    ensures outcome.OutOfFuel? ==> Unfinished(names, lookup, fuel)
  {
    var keys := NamedKeys(names);
    var scramble := new nat[SCRAMBLE_LEN](_ => 0);
    var tabb: array<Bucket>;
    var smax, alen, blen, salt;
    ghost var m, la, lb, turns;
    outcome, tabb, smax, alen, blen, salt, m, la, lb, turns := FindSize(keys, scramble, lookup, fuel, names);
    if !outcome.Found? {
      if outcome.OutOfFuel? {
        SearchUnfinished(scramble[..], names, lookup, fuel, m, la, lb, salt, turns);
      }
      return outcome, PerfectHash(0, 0, 0, 0, 0, [], []);
    }
    h := BuildTables(tabb, scramble[..], smax, |names|, alen, blen, salt, m, la, lb);
    SolvedIsPerfect(h, keys[..], tabb[..], names, lookup, m, la, lb, salt);
    HashIsFirst(h, tabb[..], names, lookup, fuel, m, la, lb, salt, turns);
    OnlyOne(m);
  }

  /** The header and tables of a hash that was found. */
  method BuildTables(tabb: array<Bucket>, scramble: seq<nat>, smax: nat, nkeys: nat, alen: nat, blen: nat, salt: nat,
                     ghost m: nat, ghost la: nat, ghost lb: nat)
    returns (h: PerfectHash)
    requires m <= 31 && smax == Pow2(m) && tabb.Length == blen && Sizes(alen, blen, m, la, lb)
    ensures h.scramble == scramble && h.occupied == nkeys && Describes(h, tabb[..], scramble, m, la, lb, salt)
  {
    CeilLog2OfPower(la);
    Pow2FitsWord(la);
    var loga := Log2u(alen);
    var tab := Displacements(tabb);
    h := PerfectHash(smax, nkeys, 64 - loga, blen - 1, salt, scramble, tab);
  }

  method Displacements(tabb: array<Bucket>) returns (tab: seq<nat>)
    ensures |tab| == tabb.Length && forall b :: 0 <= b < tabb.Length ==> tab[b] == tabb[b].val
  {
    tab := [];
    for i := 0 to tabb.Length
      invariant |tab| == i && forall b :: 0 <= b < i ==> tab[b] == tabb[b].val
    {
      tab := tab + [tabb[i].val];
    }
  }

  /** The bits that a table for n names starts with. */
  method RangeBits(n: nat) returns (bits: nat)
    requires 0 < n <= 0x4000_0000
    ensures bits == CeilLog2(n) <= 30 && n <= Pow2(bits) < 2 * n
  {
    bits := Log2u(n);
    CeilLog2Bounds(n);
    if bits > 30 {
      HalfWordSizes();
      Pow2Monotone(30, bits - 1);
    }
  }

  lemma OnlyOne(m: nat)
    ensures Pow2(m) == 1 <==> m == 0
  {
    if m > 0 {
      Pow2Monotone(1, m);
    }
  }
}
