/**
 * `swap_cameras` from `CI/data.py`: the historical correction that exchanges
 * the extensions labelled ciw/cie and cic/cin. The loop over the four
 * (old, new) pairs reads only from the original map and writes into a copy.
 */
module Relabel {

  /** The (old, new) pairs in the order the source loops over them. */
  const Pairs: seq<(string, string)> := [("ciw", "cie"), ("cie", "ciw"), ("cic", "cin"), ("cin", "cic")]

  /** The four extension names the correction concerns. */
  const SwappedNames: set<string> := {"ciw", "cie", "cic", "cin"}

  /** The label each extension name takes under the correction; other names keep theirs. */
  function Partner(k: string): string
  {
    if k == "ciw" then "cie"
    else if k == "cie" then "ciw"
    else if k == "cic" then "cin"
    else if k == "cin" then "cic"
    else k
  }

  lemma PartnerInvolution(k: string)
    ensures Partner(Partner(k)) == k
  {
  }

  /**
   * The relabelled map, stated without the loop: the entry under `k` is the
   * original entry under `Partner(k)`, and is absent when that one is.
   */
  function Relabelled<V>(m: map<string, V>): (r: map<string, V>)
    ensures forall k {:trigger k in r} :: k in r <==> Partner(k) in m
    ensures forall k {:trigger r[k]} :: k in r ==> r[k] == m[Partner(k)]
  {
    var keys := (m.Keys - SwappedNames) + (set c | c in SwappedNames && Partner(c) in m);
    map k | k in keys :: m[Partner(k)]
  }

  /** One iteration of the loop: `new` takes the original value of `old`, and `old` is dropped if `new` was absent. */
  function SwapStep<V>(orig: map<string, V>, acc: map<string, V>, p: (string, string)): map<string, V>
  {
    if p.0 in orig then
      var written := acc[p.1 := orig[p.0]];
      if p.1 !in orig then written - {p.0} else written
    else acc
  }

  /** The loop over `ps`, starting from the copy `acc`. */
  function SwapAll<V>(orig: map<string, V>, acc: map<string, V>, ps: seq<(string, string)>): map<string, V>
    decreases |ps|
  {
    if ps == [] then acc else SwapAll(orig, SwapStep(orig, acc, ps[0]), ps[1..])
  }

  /** `swap_cameras`: the loop over `Pairs` starting from a copy of the map. */
  function SwapCameras<V>(m: map<string, V>): (r: map<string, V>)
    ensures r == Relabelled(m)
  {
    SwapsCommute(m, Pairs);
    SwapAll(m, m, Pairs)
  }

  /** Key `k` has been written by one of the pairs in `done`. */
  predicate Written<V>(orig: map<string, V>, done: set<(string, string)>, k: string)
  {
    Partner(k) != k && (Partner(k), k) in done && Partner(k) in orig
  }

  /** Key `k` has been dropped by one of the pairs in `done`. */
  predicate Dropped<V>(orig: map<string, V>, done: set<(string, string)>, k: string)
  {
    (k, Partner(k)) in done && k in orig && Partner(k) !in orig
  }

  /** `acc` is what the loop holds once the pairs in `done` have run, in any order. */
  ghost predicate AfterPairs<V>(orig: map<string, V>, acc: map<string, V>, done: set<(string, string)>)
  {
    && (forall k {:trigger k in acc} :: k in acc <==> Written(orig, done, k) || (k in orig && !Dropped(orig, done, k)))
    && (forall k {:trigger acc[k]} :: k in acc ==> acc[k] == if Written(orig, done, k) then orig[Partner(k)] else orig[k])
  }

  lemma PairFacts(p: (string, string))
    requires p in Pairs
    ensures p.1 == Partner(p.0) && p.0 == Partner(p.1) && p.0 != p.1
  {
  }

  /** What one more pair does to one key. */
  lemma StepAt<V>(orig: map<string, V>, acc: map<string, V>, done: set<(string, string)>, p: (string, string), k: string)
    requires p in Pairs
    requires AfterPairs(orig, acc, done)
    ensures var next := SwapStep(orig, acc, p);
      && (k in next <==> Written(orig, done + {p}, k) || (k in orig && !Dropped(orig, done + {p}, k)))
      && (k in next ==> next[k] == if Written(orig, done + {p}, k) then orig[Partner(k)] else orig[k])
  {
    PairFacts(p);
    PartnerInvolution(k);
    var done' := done + {p};
    assert Written(orig, done', k) <==> Written(orig, done, k) || (k == p.1 && p.0 in orig);
    assert Dropped(orig, done', k) <==> Dropped(orig, done, k) || (k == p.0 && p.0 in orig && p.1 !in orig);
  }

  /** Running one more pair extends the set of pairs done. */
  lemma StepExtends<V>(orig: map<string, V>, acc: map<string, V>, done: set<(string, string)>, p: (string, string))
    requires p in Pairs
    requires AfterPairs(orig, acc, done)
    ensures AfterPairs(orig, SwapStep(orig, acc, p), done + {p})
  {
    var next := SwapStep(orig, acc, p);
    var done' := done + {p};
    forall k
      ensures k in next <==> Written(orig, done', k) || (k in orig && !Dropped(orig, done', k))
      ensures k in next ==> next[k] == if Written(orig, done', k) then orig[Partner(k)] else orig[k]
    {
      StepAt(orig, acc, done, p, k);
    }
  }

  /** Running a listing of pairs from `Pairs` extends the set of pairs done by its elements. */
  lemma {:induction false} AllExtends<V>(orig: map<string, V>, acc: map<string, V>, done: set<(string, string)>, ps: seq<(string, string)>)
    requires forall q :: q in done ==> q in Pairs
    requires forall p :: p in ps ==> p in Pairs
    requires AfterPairs(orig, acc, done)
    ensures AfterPairs(orig, SwapAll(orig, acc, ps), done + (set p | p in ps))
    decreases |ps|
  {
    if ps == [] {
      assert (set p | p in ps) == {};
    } else {
      StepExtends(orig, acc, done, ps[0]);
      AllExtends(orig, SwapStep(orig, acc, ps[0]), done + {ps[0]}, ps[1..]);
      assert (set p | p in ps) == {ps[0]} + (set p | p in ps[1..]) by {
        assert ps == [ps[0]] + ps[1..];
      }
    }
  }

  /** Once all four pairs have run, a key holds what the relabelling puts there. */
  lemma AllPairsAt<V>(orig: map<string, V>, acc: map<string, V>, k: string)
    requires AfterPairs(orig, acc, set p | p in Pairs)
    ensures k in acc <==> k in Relabelled(orig)
    ensures k in acc ==> acc[k] == Relabelled(orig)[k]
  {
    PartnerInvolution(k);
    var all := set p | p in Pairs;
    assert (Partner(k), k) in all <==> Partner(k) != k;
    assert (k, Partner(k)) in all <==> Partner(k) != k;
  }

  /**
   * The loop's result does not depend on the order of the pairs: every listing
   * of exactly the four pairs of `Pairs` gives the relabelled map.
   */
  lemma SwapsCommute<V>(m: map<string, V>, ps: seq<(string, string)>)
    requires forall p :: p in ps <==> p in Pairs
    ensures SwapAll(m, m, ps) == Relabelled(m)
  {
    var all := set p | p in Pairs;
    assert AfterPairs(m, m, {});
    AllExtends(m, m, {}, ps);
    assert {} + (set p | p in ps) == all;
    var r := SwapAll(m, m, ps);
    forall k
      ensures k in r <==> k in Relabelled(m)
      ensures k in r ==> r[k] == Relabelled(m)[k]
    {
      AllPairsAt(m, r, k);
    }
    SameEntries(r, Relabelled(m));
  }

  /** Two maps with the same keys and the same entries are equal. */
  lemma SameEntries<V>(a: map<string, V>, b: map<string, V>)
    requires forall k :: k in a <==> k in b
    requires forall k :: k in a ==> a[k] == b[k]
    ensures a == b
  {
    assert a.Keys == b.Keys;
  }

  /** The relabelling undoes itself. */
  lemma RelabelledTwice<V>(m: map<string, V>)
    ensures Relabelled(Relabelled(m)) == m
  {
    var once := Relabelled(m);
    var twice := Relabelled(once);
    forall k
      ensures k in twice <==> k in m
      ensures k in twice ==> twice[k] == m[k]
    {
      RelabelledTwiceAt(m, k);
    }
    assert twice.Keys == m.Keys;
  }

  lemma RelabelledTwiceAt<V>(m: map<string, V>, k: string)
    ensures k in Relabelled(Relabelled(m)) <==> k in m
    ensures k in m ==> Relabelled(Relabelled(m))[k] == m[k]
  {
    var once := Relabelled(m);
    PartnerInvolution(k);
    assert k in Relabelled(once) <==> Partner(k) in once;
    assert Partner(k) in once <==> k in m;
  }

  /** Applying the correction twice restores the original map. */
  lemma SwapTwice<V>(m: map<string, V>)
    ensures SwapCameras(SwapCameras(m)) == m
  {
    RelabelledTwice(m);
  }

  /**
   * The pairwise promise of the source: when both members of a pair are
   * present their entries are exchanged; when only one is, its entry moves to
   * the partner's name and its own name disappears; all other names are untouched.
   */
  lemma SwapPairs<V>(m: map<string, V>, a: string)
    requires a in {"ciw", "cie", "cic", "cin"}
    ensures a in m && Partner(a) in m ==>
      var r := SwapCameras(m);
      a in r && Partner(a) in r && r[a] == m[Partner(a)] && r[Partner(a)] == m[a]
    ensures a in m && Partner(a) !in m ==>
      var r := SwapCameras(m);
      a !in r && Partner(a) in r && r[Partner(a)] == m[a]
    ensures a !in m && Partner(a) !in m ==>
      var r := SwapCameras(m);
      a !in r && Partner(a) !in r
  {
    PartnerInvolution(a);
  }

  lemma SwapOthersUntouched<V>(m: map<string, V>, k: string)
    requires k !in {"ciw", "cie", "cic", "cin"}
    ensures k in SwapCameras(m) <==> k in m
    ensures k in m ==> SwapCameras(m)[k] == m[k]
  {
  }
}
