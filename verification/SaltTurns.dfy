/** What the turns of the search for a salt come to: which salts they try, which sizes
    they come to, and when they stop. */
module SaltTurns {
  import opened Bits
  import opened Scramble
  import opened KeyBuckets
  import opened HashHeader
  import opened MakePerfect

  /** The beginning of a search is a search, and all its turns but the last have failed. */
  lemma {:induction false} BeginningSearched(turns: seq<Turn>, t: nat, scramble: seq<nat>, names: seq<Str>,
                                             lookup: Lookup, m: nat)
    requires t < |turns| && Searched(turns, scramble, names, lookup, m)
    ensures Searched(turns[..t], scramble, names, lookup, m) && AllFailed(turns[..t])
    ensures Searched(turns[..t + 1], scramble, names, lookup, m)
    ensures TriesNext(turns[..t], turns[t].k, turns[t].la, turns[t].lb, names, m)
  {
    var before := turns[..|turns| - 1];
    if t == |turns| - 1 {
      assert turns[..t + 1] == turns;
    } else {
      assert before[..t] == turns[..t] && before[..t + 1] == turns[..t + 1] && before[t] == turns[t];
      BeginningSearched(before, t, scramble, names, lookup, m);
    }
  }

  // ------------------------------------------------------------------ sizes

  lemma Pow2Order(a: nat, b: nat)
    ensures Pow2(a) <= Pow2(b) ==> a <= b
  {
    if b < a {
      Pow2Monotone(b + 1, a);
    }
  }

  /** There are at most four doublings from the first guess to as many buckets as hash values. */
  lemma FirstSize(lb: nat, names: seq<Str>, m: nat)
    requires Pow2(lb) == InitialBlen(Pow2(m), |names|)
    ensures lb <= m <= lb + 4
  {
    var lg := InitialBlenIsPower(m, |names|);
    Pow2Order(lb, lg);
    Pow2Order(lg, lb);
  }

  lemma {:induction false} NextSizes(turns: seq<Turn>, k: nat, la: nat, lb: nat, scramble: seq<nat>,
                                     names: seq<Str>, lookup: Lookup, m: nat)
    requires Searched(turns, scramble, names, lookup, m) && TriesNext(turns, k, la, lb, names, m)
    ensures la == m && lb <= m && (turns != [] ==> turns[|turns| - 1].lb <= lb)
    decreases |turns|
  {
    if turns == [] {
      FirstSize(lb, names, m);
    } else {
      var last := turns[|turns| - 1];
      NextSizes(turns[..|turns| - 1], last.k, last.la, last.lb, scramble, names, lookup, m);
    }
  }

  /** alen starts at its limit and so never changes; blen only grows, up to smax. */
  lemma {:induction false} SizesGrow(turns: seq<Turn>, s: nat, t: nat, scramble: seq<nat>, names: seq<Str>,
                                     lookup: Lookup, m: nat)
    requires s <= t < |turns| && Searched(turns, scramble, names, lookup, m)
    ensures turns[s].la == turns[t].la == m && turns[s].lb <= turns[t].lb <= m
    decreases t
  {
    hide Searched, TriesNext, AllFailed;
    BeginningSearched(turns, t, scramble, names, lookup, m);
    NextSizes(turns[..t], turns[t].k, turns[t].la, turns[t].lb, scramble, names, lookup, m);
    if s < t {
      SizesGrow(turns, s, t - 1, scramble, names, lookup, m);
    }
  }

  // ------------------------------------------------------------------ salts

  /** How many turns were followed by one with the same salt. */
  ghost function Repeats(turns: seq<Turn>): (n: nat)
    ensures n <= |turns|
  {
    if turns == [] then 0 else Repeats(turns[..|turns| - 1]) + if StuckEnough(turns) then 1 else 0
  }

  /** Every turn moves on to the next factor, modulo 2^32, except for the repeats. */
  lemma {:induction false} FactorOfNext(turns: seq<Turn>, k: nat, la: nat, lb: nat, scramble: seq<nat>,
                                        names: seq<Str>, lookup: Lookup, m: nat)
    requires Searched(turns, scramble, names, lookup, m) && TriesNext(turns, k, la, lb, names, m)
    ensures k == (1 + |turns| - Repeats(turns)) % WORD32
    decreases |turns|
  {
    hide Searched, InitialBlen, Collisions, StuckInRound;
    if turns == [] {
      SmallMod(1, WORD32);
    } else {
      var before, last := turns[..|turns| - 1], turns[|turns| - 1];
      BeginningSearched(turns, |before|, scramble, names, lookup, m);
      FactorOfNext(before, last.k, last.la, last.lb, scramble, names, lookup, m);
      ModAdd(1 + |before| - Repeats(before), 1, WORD32);
    }
  }

  lemma {:induction false} RepeatsBetween(turns: seq<Turn>, s: nat, t: nat)
    requires s <= t <= |turns|
    ensures 0 <= Repeats(turns[..t]) - Repeats(turns[..s]) <= t - s
    ensures Repeats(turns[..t]) - Repeats(turns[..s]) == t - s ==>
              forall u {:trigger turns[..u]} :: s < u <= t ==> StuckEnough(turns[..u])
  {
    if s < t {
      assert turns[..t][..t - 1] == turns[..t - 1];
      RepeatsBetween(turns, s, t - 1);
    }
  }

  /** Only the fourth, eighth, ... stuck turn is followed by one with the same salt. */
  lemma NoTwoRepeats(turns: seq<Turn>, u: nat)
    requires u + 2 <= |turns|
    ensures !(StuckEnough(turns[..u + 1]) && StuckEnough(turns[..u + 2]))
  {
    assert turns[..u + 2][..u + 1] == turns[..u + 1];
  }

  /** The golden ratio is odd, so different factors give different salts. */
  lemma SaltInjective(k: nat, k': nat)
    requires k < WORD32 && k' < WORD32 && SaltOf(k) == SaltOf(k')
    ensures k == k'
  {
    WordSizes();
    OddFactorInjective(k, k', GOLDEN, 64);
  }

  lemma OddFactorInjective(k: nat, k': nat, g: nat, n: nat)
    requires g % 2 == 1 && k < Pow2(n) && k' < Pow2(n) && k * g % Pow2(n) == k' * g % Pow2(n)
    ensures k == k'
  {
    var c := ModEqual(k * g, k' * g, Pow2(n));
    assert (k - k') * g == Pow2(n) * c by {
      MulDistributes(g, k - k', k');
    }
    var d := OddFactor(k - k', g, n, c);
    NoMultiple(k - k', Pow2(n), d);
  }

  lemma NoMultiple(x: int, n: int, d: int)
    requires x == n * d && -n < x < n
    ensures x == 0
  {
    if d > 0 {
      MulMonotone(n, 1, d);
    } else if d < 0 {
      MulMonotone(n, d, -1);
    }
  }

  lemma SmallEqual(x: int, y: int, n: nat)
    requires 0 <= x - y < n && x % n == y % n
    ensures x == y
  {
    var c := ModEqual(x, y, n);
    NoMultiple(x - y, n, c);
  }

  /** Two turns with the same salt have nothing but repeats between them. */
  lemma SameSaltRepeats(turns: seq<Turn>, s: nat, t: nat, scramble: seq<nat>, names: seq<Str>, lookup: Lookup, m: nat)
    requires s < t < |turns| && t - s < WORD32 && Searched(turns, scramble, names, lookup, m)
    requires SaltOf(turns[s].k) == SaltOf(turns[t].k)
    ensures Repeats(turns[..t]) - Repeats(turns[..s]) == t - s
  {
    hide Searched, TriesNext, SaltOf, Repeats;
    var ps, pt := turns[..s], turns[..t];
    BeginningSearched(turns, s, scramble, names, lookup, m);
    BeginningSearched(turns, t, scramble, names, lookup, m);
    FactorOfNext(ps, turns[s].k, turns[s].la, turns[s].lb, scramble, names, lookup, m);
    FactorOfNext(pt, turns[t].k, turns[t].la, turns[t].lb, scramble, names, lookup, m);
    SaltInjective(turns[s].k, turns[t].k);
    RepeatsBetween(turns, s, t);
    SmallEqual(1 + t - Repeats(pt), 1 + s - Repeats(ps), WORD32);
  }

  /** Every turn has a salt of its own: within 2^32 turns a salt comes again only in the very
      next turn, when the first was stuck and the buckets were doubled between the two. */
  lemma OwnSalt(turns: seq<Turn>, s: nat, t: nat, scramble: seq<nat>, names: seq<Str>, lookup: Lookup, m: nat)
    requires s < t < |turns| && t - s < WORD32 && Searched(turns, scramble, names, lookup, m)
    requires SaltOf(turns[s].k) == SaltOf(turns[t].k)
    ensures t == s + 1 && turns[s].trial.GotStuck? && turns[t].lb == turns[s].lb + 1
  {
    hide Searched, Repeats, SaltOf;
    SameSaltRepeats(turns, s, t, scramble, names, lookup, m);
    RepeatsBetween(turns, s, t);
    assert StuckEnough(turns[..s + 1]);
    if s + 1 < t {
      assert StuckEnough(turns[..s + 2]);
      NoTwoRepeats(turns, s);
    }
    BeginningSearched(turns, t, scramble, names, lookup, m);
  }

  // ------------------------------------------------------------------ giving up

  /** The stuck turns with so many buckets. */
  ghost function StuckWith(turns: seq<Turn>, lb: nat): nat {
    if turns == [] then 0
    else
      var last := turns[|turns| - 1];
      StuckWith(turns[..|turns| - 1], lb) + if last.trial.GotStuck? && last.lb == lb then 1 else 0
  }

  lemma {:induction false} StuckBefore(turns: seq<Turn>, k: nat, la: nat, lb: nat, scramble: seq<nat>,
                                       names: seq<Str>, lookup: Lookup, m: nat)
    requires Searched(turns, scramble, names, lookup, m) && TriesNext(turns, k, la, lb, names, m)
    ensures StuckWith(turns, lb) >= StuckInRound(turns) % RETRY_PERFECT
    decreases |turns|
  {
    hide Searched, InitialBlen, Collisions;
    if turns != [] && !StuckEnough(turns) && !RoundEnds(turns) {
      var before, last := turns[..|turns| - 1], turns[|turns| - 1];
      BeginningSearched(turns, |before|, scramble, names, lookup, m);
      StuckBefore(before, last.k, last.la, last.lb, scramble, names, lookup, m);
      NextMod(StuckInRound(before), RETRY_PERFECT);
    }
  }

  /** The buckets are doubled after a stuck turn, or the search gives up, only when at least
      four turns with the same number of buckets were stuck. */
  lemma FourWereStuck(turns: seq<Turn>, scramble: seq<nat>, names: seq<Str>, lookup: Lookup, m: nat)
    requires Searched(turns, scramble, names, lookup, m) && StuckEnough(turns)
    ensures StuckWith(turns, turns[|turns| - 1].lb) >= RETRY_PERFECT
  {
    hide Searched, InitialBlen, Collisions, TriesNext;
    var before, last := turns[..|turns| - 1], turns[|turns| - 1];
    BeginningSearched(turns, |before|, scramble, names, lookup, m);
    StuckBefore(before, last.k, last.la, last.lb, scramble, names, lookup, m);
    NextMod(StuckInRound(before), RETRY_PERFECT);
  }

  // ------------------------------------------------------------------ how long the search can take

  /** While there are fewer buckets than hash values, every 2048 collisions and every four
      stuck turns lead to a doubling. */
  lemma {:induction false} TurnsBefore(turns: seq<Turn>, k: nat, la: nat, lb: nat, scramble: seq<nat>,
                                       names: seq<Str>, lookup: Lookup, m: nat)
    requires Searched(turns, scramble, names, lookup, m) && AllFailed(turns)
    requires TriesNext(turns, k, la, lb, names, m) && lb < m
    ensures |turns| <= 2051 * (lb + 4 - m) + Collisions(turns) % RETRY_INITKEY + StuckInRound(turns) % RETRY_PERFECT
    decreases |turns|
  {
    hide Searched, InitialBlen;
    if turns == [] {
      FirstSize(lb, names, m);
    } else {
      var before, last := turns[..|turns| - 1], turns[|turns| - 1];
      BeginningSearched(turns, |before|, scramble, names, lookup, m);
      NextSizes(before, last.k, last.la, last.lb, scramble, names, lookup, m);
      TurnsBefore(before, last.k, last.la, last.lb, scramble, names, lookup, m);
      NextMod(Collisions(before), RETRY_INITKEY);
      NextMod(StuckInRound(before), RETRY_PERFECT);
    }
  }

  /** After 8204 failed turns, or fewer, there are as many buckets as hash values. */
  lemma FullSizeReached(turns: seq<Turn>, k: nat, la: nat, lb: nat, scramble: seq<nat>, names: seq<Str>,
                        lookup: Lookup, m: nat)
    requires Searched(turns, scramble, names, lookup, m) && AllFailed(turns)
    requires TriesNext(turns, k, la, lb, names, m) && |turns| >= 4 * 2051
    ensures lb == m
  {
    hide Searched, TriesNext, InitialBlen, AllFailed;
    NextSizes(turns, k, la, lb, scramble, names, lookup, m);
    if lb < m {
      TurnsBefore(turns, k, la, lb, scramble, names, lookup, m);
    }
  }

  lemma {:induction false} StuckSoFar(turns: seq<Turn>, k: nat, la: nat, lb: nat, scramble: seq<nat>,
                                      names: seq<Str>, lookup: Lookup, m: nat)
    requires Searched(turns, scramble, names, lookup, m) && AllFailed(turns)
    requires TriesNext(turns, k, la, lb, names, m)
    ensures |turns| - Collisions(turns)
            <= 4 * (lb + 4 - m) + 3 * (Collisions(turns) / RETRY_INITKEY) + StuckInRound(turns) % RETRY_PERFECT
    decreases |turns|
  {
    hide Searched, InitialBlen;
    if turns == [] {
      FirstSize(lb, names, m);
    } else {
      var before, last := turns[..|turns| - 1], turns[|turns| - 1];
      BeginningSearched(turns, |before|, scramble, names, lookup, m);
      StuckSoFar(before, last.k, last.la, last.lb, scramble, names, lookup, m);
      NextDiv(Collisions(before), RETRY_INITKEY);
      NextMod(StuckInRound(before), RETRY_PERFECT);
    }
  }

  lemma NextDiv(n: nat, d: nat)
    requires d > 1
    ensures (n + 1) / d == if (n + 1) % d == 0 then n / d + 1 else n / d
  {
    NextMod(n, d);
    var q, r := n / d, n % d;
    if r + 1 < d {
      DivModUnique(n + 1, d, q, r + 1);
    } else {
      MulDistributes(d, q, 1);
      DivModUnique(n + 1, d, q + 1, 0);
    }
  }

  /** A search that goes on is made of collisions: but for 19 turns, at most three in 2048
      collisions were stuck. */
  lemma MostCollide(turns: seq<Turn>, k: nat, la: nat, lb: nat, scramble: seq<nat>, names: seq<Str>,
                    lookup: Lookup, m: nat)
    requires Searched(turns, scramble, names, lookup, m) && AllFailed(turns)
    requires TriesNext(turns, k, la, lb, names, m)
    ensures |turns| - Collisions(turns) <= 19 + 3 * (Collisions(turns) / RETRY_INITKEY)
  {
    hide Searched, TriesNext, InitialBlen, AllFailed;
    NextSizes(turns, k, la, lb, scramble, names, lookup, m);
    StuckSoFar(turns, k, la, lb, scramble, names, lookup, m);
  }
}
