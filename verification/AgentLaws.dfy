/** Each update of the agent refines the pool status it was given. */
module AgentLaws {
  import opened Basics
  import opened Admission
  import opened Dhcp
  import opened Agent

  lemma AgreeDistinct(s: AgentState)
    requires Agree(s)
    ensures Distinct(s.poolCache)
  {
  }

  lemma NotGone(s: AgentState, latest: map<Addr, Mac>, done: set<Addr>, a: Addr)
    requires Agree(s) && a in s.poolCache && (a in latest || a !in done)
    ensures s.poolCache[a] !in Gone(s.poolCache, latest, done)
  {
    AgreeDistinct(s);
  }

  /** Pruning keeps agreement, whatever was handled so far. */
  lemma PrunedAgrees(s: AgentState, latest: map<Addr, Mac>, done: set<Addr>, m: AgentState)
    requires Agree(s) && NoRebind(s.poolCache, latest) && Pruned(s, latest, done, m)
    ensures Agree(m)
  {
    forall a | a in m.poolCache ensures m.poolCache[a] in m.leases && m.leases[m.poolCache[a]].clientIP == Some(a) {
      NotGone(s, latest, done, a);
    }
    forall h | h in m.leases
      ensures m.leases[h].clientIP.Some? && m.leases[h].clientIP.value in m.poolCache
              && m.poolCache[m.leases[h].clientIP.value] == h
    {
      var a := s.leases[h].clientIP.value;
      assert a in s.poolCache && s.poolCache[a] == h;
      assert a in done && a !in latest ==> h in Gone(s.poolCache, latest, done);
    }
  }

  lemma LeaseForClient(p: PoolConfig, leaseTime: Option<int>, a: Addr)
    requires p.cidr.Cidr?
    ensures LeaseFor(p, leaseTime, a).clientIP == Some(a)
  {
  }

  /** `s'` is `m` with a lease and a cache entry more for each address in `added`. */
  ghost predicate Gained(m: AgentState, latest: map<Addr, Mac>, added: set<Addr>, s': AgentState) {
    && added <= latest.Keys && s'.poolCache.Keys == m.poolCache.Keys + added
    && (forall a :: a in m.poolCache ==> s'.poolCache[a] == m.poolCache[a])
    && (forall a :: a in added ==> s'.poolCache[a] == latest[a])
    && (forall a :: a in added ==> latest[a] in s'.leases && s'.leases[latest[a]].clientIP == Some(a))
    && (forall h :: h in m.leases ==> h in s'.leases && s'.leases[h] == m.leases[h])
    && (forall h :: h in s'.leases && h !in m.leases ==> exists a :: a in added && latest[a] == h)
  }

  lemma ExtendedGains(m: AgentState, latest: map<Addr, Mac>, p: PoolConfig, leaseTime: Option<int>,
                      added: set<Addr>, s': AgentState)
    requires Extended(m, latest, p, leaseTime, added, s')
    ensures Gained(m, latest, added, s')
  {
    hide LeaseFor;
    forall a | a in added ensures latest[a] in s'.leases && s'.leases[latest[a]].clientIP == Some(a) {
      assert latest[a] in MacsFor(latest, added);
      LeaseForClient(p, leaseTime, a);
    }
  }

  lemma GainedAgrees(m: AgentState, latest: map<Addr, Mac>, added: set<Addr>, s': AgentState)
    requires Agree(m) && Gained(m, latest, added, s')
    ensures Agree(s')
  {
  }

  lemma ExtendedAgrees(m: AgentState, latest: map<Addr, Mac>, p: PoolConfig, leaseTime: Option<int>,
                       added: set<Addr>, s': AgentState)
    requires Agree(m) && Extended(m, latest, p, leaseTime, added, s')
    ensures Agree(s')
  {
    hide Agree, Gained, Extended;
    ExtendedGains(m, latest, p, leaseTime, added, s');
    GainedAgrees(m, latest, added, s');
  }

  /** What the pool cache holds on the way is part of the snapshot. */
  lemma CacheWithin(s: AgentState, latest: map<Addr, Mac>, p: PoolConfig, leaseTime: Option<int>, m: AgentState,
                    added: set<Addr>, s': AgentState)
    requires Pruned(s, latest, s.poolCache.Keys, m) && Extended(m, latest, p, leaseTime, added, s')
    ensures forall a :: a in s'.poolCache ==> a in latest && s'.poolCache[a] == latest[a]
  {
  }

  lemma NoLeaseImpossible(s: AgentState, latest: map<Addr, Mac>, p: PoolConfig, leaseTime: Option<int>, s': AgentState)
    requires Agree(s)
    ensures !UpdateExit(s, latest, p, leaseTime, s', Err(NoLease))
  {
    forall done, a | Pruned(s, latest, done, s') && a in s.poolCache && a !in done
      ensures !PruneStuck(s, latest, done, a, s')
    {
      NotGone(s, latest, done, a);
    }
  }

  /** From an agreeing state and a snapshot that rebinds no cached address, every exit agrees again, and
      removing a lease never fails. */
  lemma EveryExitAgrees(s: AgentState, latest: map<Addr, Mac>, p: PoolConfig, leaseTime: Option<int>, s': AgentState,
                        r: Result<(), LeaseError>)
    requires Agree(s) && NoRebind(s.poolCache, latest) && UpdateExit(s, latest, p, leaseTime, s', r)
    ensures Agree(s') && r != Err(NoLease)
    ensures forall a :: a in s'.poolCache ==> a in latest && s'.poolCache[a] == latest[a]
  {
    hide Agree, Pruned, Extended, NoRebind;
    if r == Err(NoLease) { NoLeaseImpossible(s, latest, p, leaseTime, s'); }
    var m, added :| Pruned(s, latest, s.poolCache.Keys, m) && ExtendExit(m, latest, p, leaseTime, added, s', r);
    PrunedAgrees(s, latest, s.poolCache.Keys, m);
    ExtendedAgrees(m, latest, p, leaseTime, added, s');
    CacheWithin(s, latest, p, leaseTime, m, added, s');
  }

  /** If moreover the snapshot names no MAC twice, no lease is added twice either; only an unusable MAC or
      network can stop the update. */
  lemma OnlyBadInputFails(s: AgentState, latest: map<Addr, Mac>, p: PoolConfig, leaseTime: Option<int>, s': AgentState,
                          e: LeaseError)
    requires Agree(s) && NoRebind(s.poolCache, latest) && Distinct(latest)
    requires UpdateExit(s, latest, p, leaseTime, s', Err(e))
    ensures e == BadHardwareAddress || e == BadNetwork
    ensures p.cidr.BadCidr? || exists a :: a in latest && latest[a].BadMac?
  {
    hide Agree, Pruned, Extended, NoRebind, Distinct;
    EveryExitAgrees(s, latest, p, leaseTime, s', Err(e));
    var m, added :| Pruned(s, latest, s.poolCache.Keys, m) && ExtendExit(m, latest, p, leaseTime, added, s', Err(e));
    var a :| a in latest && a !in s'.poolCache && AddFails(s', latest[a], p, e);
    NewMacHasNoLease(s', latest, a);
  }

  lemma NewMacHasNoLease(s: AgentState, latest: map<Addr, Mac>, a: Addr)
    requires Agree(s) && Distinct(latest) && a in latest && a !in s.poolCache
    requires forall b :: b in s.poolCache ==> b in latest && s.poolCache[b] == latest[b]
    ensures latest[a] !in s.leases
  {
  }

  lemma SuccessCaches(s: AgentState, latest: map<Addr, Mac>, p: PoolConfig, leaseTime: Option<int>, s': AgentState)
    requires UpdateExit(s, latest, p, leaseTime, s', Ok(()))
    ensures s'.poolCache == latest
  {
    hide LeasesFor, Gone;
    var m, added :| Pruned(s, latest, s.poolCache.Keys, m) && ExtendExit(m, latest, p, leaseTime, added, s', Ok(()));
    CacheWithin(s, latest, p, leaseTime, m, added, s');
    ExtendedKeys(m, latest, p, leaseTime, added, s');
    assert s'.poolCache.Keys == latest.Keys;
  }

  /** A successful update makes the cache the snapshot and the lease table its exact inverse. */
  lemma UpdateRefines(s: AgentState, latest: map<Addr, Mac>, p: PoolConfig, leaseTime: Option<int>, s': AgentState)
    requires Agree(s) && NoRebind(s.poolCache, latest) && UpdateExit(s, latest, p, leaseTime, s', Ok(()))
    ensures s'.poolCache == latest && Agree(s')
    ensures forall m, a :: AnswerFor(s'.leases, m) == Some(a) <==> a in latest && latest[a] == m
  {
    hide UpdateExit;
    SuccessCaches(s, latest, p, leaseTime, s');
    EveryExitAgrees(s, latest, p, leaseTime, s', Ok(()));
  }

  /** Without the rebinding guard a successful update still caches the snapshot, but the lease table
      follows exactly when no cached address changed hands. */
  lemma AgreementExactly(s: AgentState, latest: map<Addr, Mac>, p: PoolConfig, leaseTime: Option<int>, s': AgentState)
    requires Agree(s) && UpdateExit(s, latest, p, leaseTime, s', Ok(()))
    ensures Agree(s') <==> NoRebind(s.poolCache, latest)
  {
    if NoRebind(s.poolCache, latest) {
      UpdateRefines(s, latest, p, leaseTime, s');
    } else {
      var a :| a in s.poolCache && a in latest && s.poolCache[a] != latest[a];
      SuccessCaches(s, latest, p, leaseTime, s');
      OldLeaseSurvives(s, latest, p, leaseTime, s', a);
    }
  }

  lemma OldLeaseSurvives(s: AgentState, latest: map<Addr, Mac>, p: PoolConfig, leaseTime: Option<int>,
                         s': AgentState, a: Addr)
    requires Agree(s) && UpdateExit(s, latest, p, leaseTime, s', Ok(())) && a in s.poolCache && a in latest
    ensures s.poolCache[a] in s'.leases && s'.leases[s.poolCache[a]].clientIP == Some(a)
  {
    hide Gone, MacsFor, Compared;
    var m, added :| Pruned(s, latest, s.poolCache.Keys, m) && ExtendExit(m, latest, p, leaseTime, added, s', Ok(()));
    NotGone(s, latest, s.poolCache.Keys, a);
    assert s.poolCache[a] in m.leases;
  }

  /** Go's map iteration order does not matter: two successful updates end in the same state. */
  lemma OrderIrrelevant(s: AgentState, latest: map<Addr, Mac>, p: PoolConfig, leaseTime: Option<int>,
                        s1: AgentState, s2: AgentState)
    requires UpdateExit(s, latest, p, leaseTime, s1, Ok(())) && UpdateExit(s, latest, p, leaseTime, s2, Ok(()))
    ensures s1 == s2
  {
    hide Gone, Compared;
    SuccessCaches(s, latest, p, leaseTime, s1);
    SuccessCaches(s, latest, p, leaseTime, s2);
    var m1, a1 :| Pruned(s, latest, s.poolCache.Keys, m1) && ExtendExit(m1, latest, p, leaseTime, a1, s1, Ok(()));
    var m2, a2 :| Pruned(s, latest, s.poolCache.Keys, m2) && ExtendExit(m2, latest, p, leaseTime, a2, s2, Ok(()));
    SameLeases(m1.leases, latest, p, leaseTime, a1, s1.leases, s2.leases);
  }

  lemma SameLeases(base: LeaseTable, latest: map<Addr, Mac>, p: PoolConfig, leaseTime: Option<int>,
                   added: set<Addr>, x: LeaseTable, y: LeaseTable)
    requires LeasesFor(base, latest, p, leaseTime, added, x) && LeasesFor(base, latest, p, leaseTime, added, y)
    ensures x == y
  {
    hide LeaseFor;
    assert x.Keys == y.Keys;
    forall m | m in x ensures x[m] == y[m] {
      if m in MacsFor(latest, added) {
        var a :| a in added && a in latest && latest[a] == m;
      }
    }
  }

  // ---------------------------------------------------------------- why rebinding is excluded

  lemma UpdateIntro(s: AgentState, latest: map<Addr, Mac>, p: PoolConfig, leaseTime: Option<int>, m: AgentState,
                    added: set<Addr>, s': AgentState)
    requires Pruned(s, latest, s.poolCache.Keys, m) && ExtendExit(m, latest, p, leaseTime, added, s', Ok(()))
    ensures UpdateExit(s, latest, p, leaseTime, s', Ok(()))
  {
  }

  /** Two addresses swap their MACs: the cache follows, the leases stay. */
  lemma SwapUpdate(p: PoolConfig, leaseTime: Option<int>, a: Addr, b: Addr, m: Mac, n: Mac, leases: LeaseTable)
    requires a != b
    ensures UpdateExit(AgentState(map[a := m, b := n], leases), map[a := n, b := m], p, leaseTime,
                       AgentState(map[a := n, b := m], leases), Ok(()))
  {
    var s, latest := AgentState(map[a := m, b := n], leases), map[a := n, b := m];
    var t := AgentState(latest, leases);
    assert Compared(s.poolCache, latest, s.poolCache.Keys) == latest;
    assert Gone(s.poolCache, latest, s.poolCache.Keys) == {};
    assert leases - {} == leases;
    assert Pruned(s, latest, s.poolCache.Keys, t);
    NothingExtended(t, latest, p, leaseTime);
    assert latest.Keys - t.poolCache.Keys == {};
    UpdateIntro(s, latest, p, leaseTime, t, {}, t);
  }

  /** One of the two addresses leaves the pool: the lease of the MAC now cached for it goes. */
  lemma DropUpdate(p: PoolConfig, leaseTime: Option<int>, a: Addr, b: Addr, m: Mac, n: Mac, leases: LeaseTable)
    requires a != b && n in leases
    ensures UpdateExit(AgentState(map[a := n, b := m], leases), map[b := m], p, leaseTime,
                       AgentState(map[b := m], leases - {n}), Ok(()))
  {
    var s, latest := AgentState(map[a := n, b := m], leases), map[b := m];
    var t := AgentState(latest, leases - {n});
    assert Compared(s.poolCache, latest, s.poolCache.Keys) == latest;
    assert a in s.poolCache && a !in latest && s.poolCache[a] == n;
    assert Gone(s.poolCache, latest, s.poolCache.Keys) == {n};
    assert Pruned(s, latest, s.poolCache.Keys, t);
    NothingExtended(t, latest, p, leaseTime);
    assert latest.Keys - t.poolCache.Keys == {};
    UpdateIntro(s, latest, p, leaseTime, t, {}, t);
  }

  /** A free address is given to a new MAC. */
  lemma AddUpdate(p: PoolConfig, leaseTime: Option<int>, a: Addr, b: Addr, m: Mac, k: Mac, leases: LeaseTable)
    requires a != b && k.Hw? && k !in leases && p.cidr.Cidr?
    ensures UpdateExit(AgentState(map[b := m], leases), map[b := m, a := k], p, leaseTime,
                       AgentState(map[b := m, a := k], leases[k := LeaseFor(p, leaseTime, a)]), Ok(()))
  {
    hide LeaseFor;
    var s, latest := AgentState(map[b := m], leases), map[b := m, a := k];
    var t := AgentState(latest, leases[k := LeaseFor(p, leaseTime, a)]);
    assert Compared(s.poolCache, latest, s.poolCache.Keys) == s.poolCache;
    assert Gone(s.poolCache, latest, s.poolCache.Keys) == {};
    assert leases - {} == leases;
    assert Pruned(s, latest, s.poolCache.Keys, s);
    assert MacsFor(latest, {a}) == {k};
    assert s.poolCache + Restricted(latest, {a}) == latest;
    assert Extended(s, latest, p, leaseTime, {a}, t);
    assert latest.Keys - s.poolCache.Keys == {a};
    UpdateIntro(s, latest, p, leaseTime, s, {a}, t);
  }

  /** Three snapshots, each naming no MAC twice, delivered to an agreeing agent: after a swap, a release
      and a new allocation, two clients are answered with the same address. */
  lemma RebindingSharesAnAddress(p: PoolConfig, leaseTime: Option<int>, a: Addr, b: Addr, m: Mac, n: Mac, k: Mac)
    requires p.cidr.Cidr? && a != b && m != n && n != k && m != k && m.Hw? && n.Hw? && k.Hw?
    ensures
      var la, lb := LeaseFor(p, leaseTime, a), LeaseFor(p, leaseTime, b);
      var s0 := AgentState(map[a := m, b := n], map[m := la, n := lb]);
      var s1 := s0.(poolCache := map[a := n, b := m]);
      var s2 := AgentState(map[b := m], s0.leases - {n});
      var s3 := AgentState(map[b := m, a := k], s2.leases[k := la]);
      && Agree(s0)
      && UpdateExit(s0, s1.poolCache, p, leaseTime, s1, Ok(())) && Distinct(s1.poolCache)
      && UpdateExit(s1, s2.poolCache, p, leaseTime, s2, Ok(())) && Distinct(s2.poolCache)
      && UpdateExit(s2, s3.poolCache, p, leaseTime, s3, Ok(())) && Distinct(s3.poolCache)
      && AnswerFor(s3.leases, m) == Some(a) && AnswerFor(s3.leases, k) == Some(a)
  {
    hide LeaseFor, UpdateExit;
    var la, lb := LeaseFor(p, leaseTime, a), LeaseFor(p, leaseTime, b);
    LeaseForClient(p, leaseTime, a);
    LeaseForClient(p, leaseTime, b);
    var leases: LeaseTable := map[m := la, n := lb];
    SwapUpdate(p, leaseTime, a, b, m, n, leases);
    DropUpdate(p, leaseTime, a, b, m, n, leases);
    AddUpdate(p, leaseTime, a, b, m, k, leases - {n});
  }
}
